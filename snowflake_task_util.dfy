/**
 * `SnowflakeTaskUtil`: the WHERE clause built from optional conditions, and
 * the select task built from a query format, a schema name and that clause.
 *
 * A `null` condition is `None`. `String.format` is modelled for formats whose
 * only conversions are `%s`: a format is its literal text around its slots.
 * `JdbcSelectTask` is not part of this model beyond its zip entry, its SQL
 * and the header settings `withHeaderClass` gives it.
 */
module SnowflakeTaskUtil {
  import opened Wrappers
  import opened Text
  import JdbcTask

  const EmptyWhereClause := ""
  const WherePrefix := " WHERE "
  const AndSeparator := " AND "

  /** `Strings.isNullOrEmpty`. */
  predicate IsNullOrEmpty(c: Option<string>)
  {
    c.None? || c.value == ""
  }

  /** The conditions the stream filter keeps, in input order. */
  function Kept(conditions: seq<Option<string>>): seq<string>
  {
    if |conditions| == 0 then []
    else (if IsNullOrEmpty(conditions[0]) then [] else [conditions[0].value]) + Kept(conditions[1..])
  }

  /** `getWhereClause`: "" with no condition left, else " WHERE " and the conditions joined by " AND ". */
  function GetWhereClause(conditions: seq<Option<string>>): (r: string)
    ensures r == "" <==> forall i :: 0 <= i < |conditions| ==> IsNullOrEmpty(conditions[i])
    ensures r != "" ==> r == WherePrefix + Join(Kept(conditions), AndSeparator)
  {
    KeptEmptyIff(conditions);
    var kept := Kept(conditions);
    if |kept| == 0 then EmptyWhereClause
    else WherePrefix + Join(kept, AndSeparator)
  }

  /** Filtering a concatenation filters each part, so the kept conditions keep their order. */
  lemma {:induction false} KeptAppend(a: seq<Option<string>>, b: seq<Option<string>>)
    ensures Kept(a + b) == Kept(a) + Kept(b)
  {
    if |a| == 0 {
      assert a + b == b;
    } else {
      assert (a + b)[0] == a[0];
      assert (a + b)[1..] == a[1..] + b;
      KeptAppend(a[1..], b);
    }
  }

  /** A condition is kept exactly when it is present and not empty; blank ones are kept. */
  lemma {:induction false} KeptMembers(conditions: seq<Option<string>>, x: string)
    ensures x in Kept(conditions) <==>
              x != "" && exists i :: 0 <= i < |conditions| && conditions[i] == Some(x)
  {
    if |conditions| > 0 {
      var rest := conditions[1..];
      KeptMembers(rest, x);
      if exists i :: 0 <= i < |rest| && rest[i] == Some(x) {
        var i :| 0 <= i < |rest| && rest[i] == Some(x);
        assert conditions[i + 1] == rest[i];
      }
      if exists i :: 0 <= i < |conditions| && conditions[i] == Some(x) {
        var i :| 0 <= i < |conditions| && conditions[i] == Some(x);
        if i > 0 {
          assert rest[i - 1] == conditions[i];
        }
      }
    }
  }

  /** Nothing is kept exactly when every condition is null or empty. */
  lemma {:induction false} KeptEmptyIff(conditions: seq<Option<string>>)
    ensures |Kept(conditions)| == 0 <==> forall i :: 0 <= i < |conditions| ==> IsNullOrEmpty(conditions[i])
  {
    if |conditions| > 0 {
      var rest := conditions[1..];
      KeptEmptyIff(rest);
      if |Kept(conditions)| == 0 {
        assert IsNullOrEmpty(conditions[0]);
        forall i | 0 <= i < |conditions| ensures IsNullOrEmpty(conditions[i]) {
          if i > 0 {
            assert conditions[i] == rest[i - 1];
          }
        }
      }
      if forall i :: 0 <= i < |conditions| ==> IsNullOrEmpty(conditions[i]) {
        forall i | 0 <= i < |rest| ensures IsNullOrEmpty(rest[i]) {
          assert rest[i] == conditions[i + 1];
        }
      }
    }
  }

  /** A blank condition survives, a null and an empty one do not. */
  lemma WhereClauseExample()
    ensures GetWhereClause([Some("a = 1"), None, Some(""), Some(" ")]) == " WHERE a = 1 AND  "
    ensures GetWhereClause([None, Some("")]) == ""
    ensures GetWhereClause([]) == ""
  {
    var cs := [Some("a = 1"), None, Some(""), Some(" ")];
    assert Kept(cs[3..]) == [" "];
    assert Kept(cs[2..]) == [" "];
    assert Kept(cs[1..]) == [" "];
    assert Kept(cs) == ["a = 1", " "];
    assert Join(["a = 1", " "], AndSeparator) == "a = 1" + AndSeparator + " ";
    var empties := [None, Some("")];
    assert Kept(empties[1..]) == [];
  }

  /** A format string: literal text, then for each `%s` slot the text that follows it. */
  datatype Template = Template(head: string, afterSlots: seq<string>)

  /** `MissingFormatArgumentException`: the format has more slots than arguments. */
  datatype FormatError = MissingFormatArgument(slot: nat)

  /** The slots after the first `k`, each filled with the matching argument. */
  function Fill(afterSlots: seq<string>, args: seq<string>): string
    requires |afterSlots| <= |args|
  {
    if |afterSlots| == 0 then ""
    else args[0] + afterSlots[0] + Fill(afterSlots[1..], args[1..])
  }

  /** `String.format(template, args...)`; unused arguments are ignored. */
  function Format(template: Template, args: seq<string>): (r: Result<string, FormatError>)
    ensures r.Err? <==> |template.afterSlots| > |args|
    ensures r.Err? ==> r.error == MissingFormatArgument(|args|)
  {
    if |template.afterSlots| > |args| then Err(MissingFormatArgument(|args|))
    else Ok(template.head + Fill(template.afterSlots, args))
  }

  /** With two slots, the first argument fills the first slot and the second the second. */
  lemma FormatTwoSlots(head: string, middle: string, tail: string, a: string, b: string)
    ensures Format(Template(head, [middle, tail]), [a, b]) == Ok(head + a + middle + b + tail)
  {
    var slots, args := [middle, tail], [a, b];
    assert slots[1..] == [tail] && args[1..] == [b];
    assert [tail][1..] == [] && [b][1..] == [];
    assert Fill([tail], [b]) == b + tail;
    assert Fill(slots, args) == a + middle + (b + tail);
    assert head + (a + middle + (b + tail)) == head + a + middle + b + tail;
  }

  /** The select task `withFilter` returns. */
  datatype SelectTask = SelectTask(zipEntryName: string, sql: string, header: JdbcTask.HeaderConfig)

  /**
   * `withFilter`: the schema name goes in the first slot and the WHERE clause
   * in the second; the task writes to `zipEntryName` with the given header
   * class. A format with more than two slots throws.
   */
  function WithFilter(format: Template, schemaName: string, zipEntryName: string,
                      whereConditions: seq<Option<string>>, header: seq<string>): (r: Result<SelectTask, FormatError>)
    ensures r.Ok? <==> |format.afterSlots| <= 2
    ensures r.Ok? ==> r.value.zipEntryName == zipEntryName
    ensures r.Ok? ==> r.value.header == JdbcTask.HeaderConfig(Some(header), None)
  {
    match Format(format, [schemaName, GetWhereClause(whereConditions)])
    case Err(e) => Err(e)
    case Ok(sql) => Ok(SelectTask(zipEntryName, sql, JdbcTask.HeaderConfig(Some(header), None)))
  }

  /** With a two-slot format, the query is the schema name and the WHERE clause in that order. */
  lemma WithFilterTwoSlots(format: Template, schemaName: string, zipEntryName: string,
                           whereConditions: seq<Option<string>>, header: seq<string>)
    requires |format.afterSlots| == 2
    ensures WithFilter(format, schemaName, zipEntryName, whereConditions, header)
              == Ok(SelectTask(zipEntryName,
                      format.head + schemaName + format.afterSlots[0] + GetWhereClause(whereConditions)
                        + format.afterSlots[1],
                      JdbcTask.HeaderConfig(Some(header), None)))
  {
    FormatTwoSlots(format.head, format.afterSlots[0], format.afterSlots[1], schemaName, GetWhereClause(whereConditions));
    assert format == Template(format.head, [format.afterSlots[0], format.afterSlots[1]]);
  }

  /** With no usable condition the query is the format with an empty second slot. */
  lemma WithFilterUnconditioned(format: Template, schemaName: string, zipEntryName: string,
                                whereConditions: seq<Option<string>>, header: seq<string>)
    requires |format.afterSlots| == 2
    requires forall i :: 0 <= i < |whereConditions| ==> IsNullOrEmpty(whereConditions[i])
    ensures WithFilter(format, schemaName, zipEntryName, whereConditions, header).Ok?
    ensures WithFilter(format, schemaName, zipEntryName, whereConditions, header).value.sql
              == format.head + schemaName + format.afterSlots[0] + format.afterSlots[1]
  {
    WithFilterTwoSlots(format, schemaName, zipEntryName, whereConditions, header);
  }
}
