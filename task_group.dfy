/**
 * `TaskGroup`: a task that runs its children in order through the run
 * context and writes one `(task, state)` record per child.
 *
 * `TaskRunContext` and `TaskState` are not part of this model beyond what the
 * group uses: the context keeps a map from task to state, and running a child
 * records some state for it, which the group then reads back.
 */
module Tasks {
  import opened Wrappers
  import opened Text

  /** A task state, by its name. */
  datatype TaskState = TaskState(name: string)

  /** A child task; `outcome` stands for the state its run leaves behind. */
  class Task {
    const targetPath: string
    const outcome: TaskState

    constructor(targetPath: string, outcome: TaskState)
      ensures this.targetPath == targetPath && this.outcome == outcome
    {
      this.targetPath := targetPath;
      this.outcome := outcome;
    }
  }

  /** The part of `TaskRunContext` a group uses: the state of each task run so far. */
  class TaskRunContext {
    var states: map<Task, TaskState>
    /** Every child run so far, with the state recorded for it, in run order. */
    ghost var history: seq<(Task, TaskState)>

    constructor()
      ensures states == map[] && history == []
    {
      states := map[];
      history := [];
    }

    /** `runChildTask`: runs the task and records a state for it; no other task's state changes. */
    method RunChildTask(task: Task)
      modifies this
      ensures task in states
      ensures states == old(states)[task := states[task]]
      ensures history == old(history) + [(task, states[task])]
    {
      states := states[task := task.outcome];
      history := history + [(task, task.outcome)];
    }

    /** `getTaskState`: the recorded state, `None` for a task never run. */
    function GetTaskState(task: Task): (r: Option<TaskState>)
      reads this
      ensures r.Some? <==> task in states
      ensures r.Some? ==> r.value == states[task]
    {
      if task in states then Some(states[task]) else None
    }
  }

  /** One summary record: a child and its state. */
  datatype Record = Record(task: Task, state: Option<TaskState>)

  /** The CSV printer of a group, by the records printed. */
  class RecordPrinter {
    var records: seq<Record>

    constructor()
      ensures records == []
    {
      records := [];
    }

    method PrintRecord(r: Record)
      modifies this
      ensures records == old(records) + [r]
    {
      records := records + [r];
    }
  }

  const ToStringPrefix := "TaskGroup("
  const ToStringSuffix := " children)"

  class TaskGroup {
    const targetPath: string
    const tasks: seq<Task>

    /** From a list: the group keeps its contents as they are at construction. */
    constructor(targetPath: string, tasks: seq<Task>)
      ensures this.targetPath == targetPath && this.tasks == tasks
    {
      this.targetPath := targetPath;
      this.tasks := tasks;
    }

    /** From varargs: the array's contents are copied, so later writes to it do not reach the group. */
    constructor FromArray(targetPath: string, tasks: array<Task>)
      ensures this.targetPath == targetPath && this.tasks == tasks[..]
    {
      this.targetPath := targetPath;
      this.tasks := tasks[..];
    }

    /**
     * The inner `doRun`: every child is run through the context exactly
     * once, in list order, and record i pairs child i with the state the
     * context holds for it right after it ran.
     */
    method DoRun(context: TaskRunContext, printer: RecordPrinter)
      modifies context, printer
      ensures |context.history| == |old(context.history)| + |tasks|
      ensures forall i :: 0 <= i < |tasks| ==> context.history[|old(context.history)| + i].0 == tasks[i]
      ensures printer.records == old(printer.records) + SummaryRecords(context.history[|old(context.history)|..])
      ensures context.history[..|old(context.history)|] == old(context.history)
      ensures forall t :: t in context.states <==> t in old(context.states) || t in tasks
      ensures forall t :: t in old(context.states) && t !in tasks ==> context.states[t] == old(context.states)[t]
    {
      ghost var h0, r0, s0 := context.history, printer.records, context.states;
      for i := 0 to |tasks|
        invariant |context.history| == |h0| + i
        invariant forall j :: 0 <= j < i ==> context.history[|h0| + j].0 == tasks[j]
        invariant context.history[..|h0|] == h0
        invariant printer.records == r0 + SummaryRecords(context.history[|h0|..])
        invariant forall t :: t in context.states <==> t in s0 || t in tasks[..i]
        invariant forall t :: t in s0 && t !in tasks ==> context.states[t] == s0[t]
      {
        ghost var runs := context.history[|h0|..];
        context.RunChildTask(tasks[i]);
        var state := context.GetTaskState(tasks[i]);
        printer.PrintRecord(Record(tasks[i], state));
        assert context.history[|h0|..] == runs + [context.history[|h0| + i]];
      }
    }

    /** The outer `doRun`: prints the records through a fresh printer; the group's own result is `null`. */
    method Run(context: TaskRunContext) returns (printer: RecordPrinter)
      modifies context
      ensures fresh(printer)
      ensures |context.history| == |old(context.history)| + |tasks|
      ensures forall i :: 0 <= i < |tasks| ==> context.history[|old(context.history)| + i].0 == tasks[i]
      ensures printer.records == SummaryRecords(context.history[|old(context.history)|..])
      ensures context.history[..|old(context.history)|] == old(context.history)
      ensures forall t :: t in context.states <==> t in old(context.states) || t in tasks
      ensures forall t :: t in old(context.states) && t !in tasks ==> context.states[t] == old(context.states)[t]
    {
      printer := new RecordPrinter();
      DoRun(context, printer);
    }

    /** `toString`: the child count between a fixed prefix and suffix; the count reads back from the text. */
    function ToString(): (r: string)
      ensures |r| > |ToStringPrefix| + |ToStringSuffix|
      ensures r[..|ToStringPrefix|] == ToStringPrefix
      ensures r[|r| - |ToStringSuffix|..] == ToStringSuffix
      ensures forall i :: |ToStringPrefix| <= i < |r| - |ToStringSuffix| ==> IsDigit(r[i])
      ensures var digits := r[|ToStringPrefix|..|r| - |ToStringSuffix|];
              (forall i :: 0 <= i < |digits| ==> IsDigit(digits[i])) && ParseDecimal(digits) == |tasks|
      ensures var digits := r[|ToStringPrefix|..|r| - |ToStringSuffix|]; |digits| > 1 ==> digits[0] != '0'
    {
      var digits := NatToString(|tasks|);
      var s := ToStringPrefix + digits + ToStringSuffix;
      assert s[|ToStringPrefix|..|s| - |ToStringSuffix|] == digits;
      DecimalRoundTrip(|tasks|);
      s
    }
  }

  /** One record per run, pairing the task with the state recorded for it. */
  function SummaryRecords(runs: seq<(Task, TaskState)>): (r: seq<Record>)
    ensures |r| == |runs|
  {
    if |runs| == 0 then []
    else SummaryRecords(runs[..|runs| - 1]) + [Record(runs[|runs| - 1].0, Some(runs[|runs| - 1].1))]
  }

  /** Record i names run i's task and carries the state recorded by that run. */
  lemma {:induction false} SummaryRecordsAt(runs: seq<(Task, TaskState)>, i: nat)
    requires i < |runs|
    ensures SummaryRecords(runs)[i] == Record(runs[i].0, Some(runs[i].1))
  {
    if i < |runs| - 1 {
      SummaryRecordsAt(runs[..|runs| - 1], i);
    }
  }

  /** Groups of different sizes never print the same. */
  lemma ToStringDistinguishesSizes(a: TaskGroup, b: TaskGroup)
    requires |a.tasks| != |b.tasks|
    ensures a.ToString() != b.ToString()
  {
  }
}
