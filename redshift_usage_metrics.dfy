/**
 * The part of `RedshiftClusterUsageMetricsTask` that does not talk to AWS:
 * merging a cluster's CPU and disk series into one row per instant, the
 * loop over clusters, and the choice of the CloudWatch metric period.
 *
 * Instants are nanoseconds since the epoch. The data points that
 * `getCpuMetrics` and `getDiskMetrics` fetch are inputs (functions of the
 * cluster id); `DATE_FORMAT.format` is an opaque function `format`, and a
 * `Double` is known only by the text its `toString` gives.
 */
module RedshiftUsageMetrics {
  import opened Wrappers

  type Instant = int

  /** A non-null `Double`, by the text `Double.toString` gives it. */
  datatype Double = Double(text: string)

  datatype MetricName = CPUUtilization | PercentageDiskSpaceUsed
  datatype MetricType = Average
  datatype MetricConfig = MetricConfig(name: MetricName, metricType: MetricType)

  /** A CloudWatch datapoint: its timestamp and its (possibly null) average. */
  datatype Datapoint = Datapoint(timestamp: Instant, average: Option<Double>)

  /** `MetricDataPoint`: an instant and a possibly null value. */
  datatype MetricDataPoint = MetricDataPoint(instant: Instant, value: Option<Double>, config: MetricConfig)

  type Row = seq<string>

  /** `getDatapointValue`: the statistic the configuration asks for; `Average` is the only one. */
  function GetDatapointValue(config: MetricConfig, datapoint: Datapoint): (r: Option<Double>)
    ensures config.metricType == Average ==> r == datapoint.average
  {
    match config.metricType
    case Average => datapoint.average
  }

  /**
   * `getMetricDataPoints` once the datapoints are fetched: one point per
   * datapoint, in the order CloudWatch returns them, at its timestamp, with
   * the configured statistic as its value.
   */
  function ToMetricDataPoints(config: MetricConfig, datapoints: seq<Datapoint>): (r: seq<MetricDataPoint>)
    ensures |r| == |datapoints|
    ensures forall i :: 0 <= i < |r| ==>
              r[i].instant == datapoints[i].timestamp && r[i].value == datapoints[i].average && r[i].config == config
  {
    seq(|datapoints|, i requires 0 <= i < |datapoints| =>
      MetricDataPoint(datapoints[i].timestamp, GetDatapointValue(config, datapoints[i]), config))
  }

  /** The series has a point at exactly the fetched timestamps. */
  lemma MetricDataPointInstants(config: MetricConfig, datapoints: seq<Datapoint>, k: Instant)
    ensures k in Instants(ToMetricDataPoints(config, datapoints)) <==>
              exists i :: 0 <= i < |datapoints| && datapoints[i].timestamp == k
  {
    var points := ToMetricDataPoints(config, datapoints);
    InstantsMember(points, k);
    if exists i :: 0 <= i < |datapoints| && datapoints[i].timestamp == k {
      var i :| 0 <= i < |datapoints| && datapoints[i].timestamp == k;
      assert points[i].instant == k;
    }
  }

  /** Every point carries a value exactly when every fetched datapoint has an average. */
  lemma MetricDataPointsPresent(config: MetricConfig, datapoints: seq<Datapoint>)
    ensures AllPresent(ToMetricDataPoints(config, datapoints)) <==>
              forall i :: 0 <= i < |datapoints| ==> datapoints[i].average.Some?
  {
    var points := ToMetricDataPoints(config, datapoints);
    if AllPresent(points) {
      forall i | 0 <= i < |datapoints| ensures datapoints[i].average.Some? {
        assert points[i].value.Some?;
      }
    }
  }

  const NanosPerMinute: int := 60 * 1_000_000_000
  const NanosPerDay: int := 24 * 60 * NanosPerMinute

  /**
   * `metricDataPeriod`, in seconds: one minute for a start within the last
   * 14 days, five minutes within the last 62 days, one hour otherwise.
   * `minusDays` is taken as exactly 24 hours.
   */
  function MetricDataPeriod(start: Instant, now: Instant): (seconds: nat)
    ensures seconds == 60 <==> start > now - 14 * NanosPerDay
    ensures seconds == 300 <==> now - 62 * NanosPerDay < start <= now - 14 * NanosPerDay
    ensures seconds == 3600 <==> start <= now - 62 * NanosPerDay
  {
    if start > now - 14 * NanosPerDay then 60
    else if start > now - 62 * NanosPerDay then 300
    else 3600
  }

  /** An older interval start never gets a finer period. */
  lemma PeriodMonotonic(older: Instant, newer: Instant, now: Instant)
    requires older <= newer
    ensures MetricDataPeriod(older, now) >= MetricDataPeriod(newer, now)
  {
  }

  /** A later "now" never gives the same start a finer period. */
  lemma PeriodCoarsensWithTime(start: Instant, now: Instant, later: Instant)
    requires now <= later
    ensures MetricDataPeriod(start, later) >= MetricDataPeriod(start, now)
  {
  }

  // ---------------------------------------------------------------------
  // Reference view of one series

  /** The instants of a series. */
  function Instants(points: seq<MetricDataPoint>): set<Instant>
  {
    if |points| == 0 then {}
    else Instants(points[..|points| - 1]) + {points[|points| - 1].instant}
  }

  /** The last point of the series at instant `k`, if any. */
  function Last(points: seq<MetricDataPoint>, k: Instant): Option<MetricDataPoint>
  {
    if |points| == 0 then None
    else if points[|points| - 1].instant == k then Some(points[|points| - 1])
    else Last(points[..|points| - 1], k)
  }

  /** The text a point's value is written as. */
  function Text(p: MetricDataPoint): string
  {
    if p.value.Some? then p.value.value.text else ""
  }

  /** The field a series contributes at instant `k`: its last value there, or "" if it has none. */
  function Cell(points: seq<MetricDataPoint>, k: Instant): string
  {
    match Last(points, k)
    case None => ""
    case Some(p) => Text(p)
  }

  /** Every point carries a value, so `value().toString()` does not throw. */
  predicate AllPresent(points: seq<MetricDataPoint>)
  {
    forall i :: 0 <= i < |points| ==> points[i].value.Some?
  }

  /** The TreeMap one series builds with `put`: each instant mapped to its last value. */
  function Series(points: seq<MetricDataPoint>): map<Instant, string>
  {
    map k | k in Instants(points) :: Cell(points, k)
  }

  /** The placeholders `putIfAbsent(instant, "")` leaves. */
  function Blank(keys: set<Instant>): map<Instant, string>
  {
    map k | k in keys :: ""
  }

  lemma {:induction false} InstantsMember(points: seq<MetricDataPoint>, k: Instant)
    ensures k in Instants(points) <==> exists i :: 0 <= i < |points| && points[i].instant == k
  {
    if |points| > 0 {
      var init := points[..|points| - 1];
      InstantsMember(init, k);
      if k in Instants(init) {
        var i :| 0 <= i < |init| && init[i].instant == k;
        assert points[i] == init[i];
      }
      if exists i :: 0 <= i < |points| && points[i].instant == k {
        var i :| 0 <= i < |points| && points[i].instant == k;
        if i < |points| - 1 {
          assert init[i] == points[i];
        }
      }
    }
  }

  /** A series has a last value at exactly the instants it contains. */
  lemma {:induction false} LastPresence(points: seq<MetricDataPoint>, k: Instant)
    ensures Last(points, k).Some? <==> k in Instants(points)
    ensures Last(points, k).Some? ==> Last(points, k).value.instant == k
  {
    if |points| > 0 {
      LastPresence(points[..|points| - 1], k);
    }
  }

  /**
   * Within one series the last value seen wins: `Last` picks the point at
   * `k` that no later point at `k` follows.
   */
  lemma {:induction false} LastValueWins(points: seq<MetricDataPoint>, k: Instant, i: nat)
    requires i < |points| && points[i].instant == k
    requires forall j :: i < j < |points| ==> points[j].instant != k
    ensures Last(points, k) == Some(points[i])
  {
    if i < |points| - 1 {
      var init := points[..|points| - 1];
      assert forall j :: i < j < |init| ==> init[j] == points[j];
      LastValueWins(init, k, i);
    }
  }

  /** Conversely, the point `Last` picks is one that no later point at its instant follows. */
  lemma {:induction false} LastIsFinal(points: seq<MetricDataPoint>, k: Instant)
    requires Last(points, k).Some?
    ensures exists i :: 0 <= i < |points| && points[i] == Last(points, k).value &&
              forall j :: i < j < |points| ==> points[j].instant != k
  {
    var n := |points| - 1;
    if points[n].instant != k {
      var init := points[..n];
      LastIsFinal(init, k);
      var i :| 0 <= i < |init| && init[i] == Last(init, k).value &&
                forall j :: i < j < |init| ==> init[j].instant != k;
      assert points[i] == init[i];
      assert forall j :: i < j < n ==> points[j] == init[j];
    } else {
      assert points[n] == Last(points, k).value;
    }
  }

  /** Outside its instants a series contributes the placeholder "". */
  lemma CellPadding(points: seq<MetricDataPoint>, k: Instant)
    requires k !in Instants(points)
    ensures Cell(points, k) == ""
  {
    LastPresence(points, k);
  }

  /** At one of its instants, a series with no null value contributes that value's text. */
  lemma CellValue(points: seq<MetricDataPoint>, k: Instant)
    requires k in Instants(points) && AllPresent(points)
    ensures Last(points, k).Some? && Last(points, k).value.value.Some?
    ensures Cell(points, k) == Last(points, k).value.value.value.text
  {
    LastPresence(points, k);
    LastInSeries(points, k);
  }

  lemma {:induction false} LastInSeries(points: seq<MetricDataPoint>, k: Instant)
    ensures Last(points, k).Some? ==> Last(points, k).value in points
  {
    if |points| > 0 {
      LastInSeries(points[..|points| - 1], k);
    }
  }

  /** One more `put`: the new point's instant now maps to its value. */
  lemma SeriesSnoc(points: seq<MetricDataPoint>, p: MetricDataPoint)
    ensures Series(points + [p]) == Series(points)[p.instant := Text(p)]
  {
    var ps := points + [p];
    assert ps[..|ps| - 1] == points;
    forall k | k in Instants(ps)
      ensures Cell(ps, k) == Series(points)[p.instant := Text(p)][k]
    {
      if k != p.instant {
        assert Cell(ps, k) == Cell(points, k);
      }
    }
  }

  /** `putIfAbsent(k, "")` on placeholders beneath a map adds one placeholder. */
  lemma PadStep(keys: set<Instant>, m: map<Instant, string>, k: Instant)
    ensures (if k in (Blank(keys) + m) then Blank(keys) + m else (Blank(keys) + m)[k := ""])
              == Blank(keys + {k}) + m
  {
  }

  /** `put(k, v)` on values over placeholders updates the values. */
  lemma PutStep(keys: set<Instant>, m: map<Instant, string>, k: Instant, v: string)
    ensures (Blank(keys) + m)[k := v] == Blank(keys) + m[k := v]
  {
  }

  lemma InstantsSnoc(points: seq<MetricDataPoint>, p: MetricDataPoint)
    ensures Instants(points + [p]) == Instants(points) + {p.instant}
  {
    assert (points + [p])[..|points|] == points;
  }

  // ---------------------------------------------------------------------
  // Keys in ascending order

  predicate IsMin(m: Instant, s: set<Instant>)
  {
    m in s && forall y :: y in s ==> m <= y
  }

  lemma {:induction false} MinExists(s: set<Instant>)
    requires s != {}
    ensures exists m :: IsMin(m, s)
    decreases |s|
  {
    var x := PickOne(s);
    var rest := s - {x};
    if rest == {} {
      assert forall y :: y in s ==> y == x || y in rest;
      assert IsMin(x, s);
    } else {
      MinExists(rest);
      var m :| IsMin(m, rest);
      var least := if x < m then x else m;
      forall y | y in s ensures least <= y {
        if y != x {
          assert y in rest;
        }
      }
      assert IsMin(least, s);
    }
  }

  lemma PickOneExists(s: set<Instant>)
    requires s != {}
    ensures exists x :: x in s
  {
    assert (forall x :: x !in s) ==> s == {};
  }

  ghost function PickOne(s: set<Instant>): (x: Instant)
    requires s != {}
    ensures x in s
  {
    PickOneExists(s);
    var x :| x in s;
    x
  }

  ghost function Min(s: set<Instant>): (m: Instant)
    requires s != {}
    ensures IsMin(m, s)
  {
    MinExists(s);
    var m :| IsMin(m, s);
    m
  }

  /** The elements of a set in ascending order (the TreeMap key order). */
  ghost function SortedSeq(s: set<Instant>): seq<Instant>
    decreases |s|
  {
    if s == {} then [] else [Min(s)] + SortedSeq(s - {Min(s)})
  }

  lemma SortedSeqUnfold(s: set<Instant>, m: Instant)
    requires IsMin(m, s)
    ensures SortedSeq(s) == [m] + SortedSeq(s - {m})
  {
    assert Min(s) == m;
  }

  /** `SortedSeq` lists every element once, and nothing else, in strictly ascending order. */
  lemma {:induction false} SortedSeqSpec(s: set<Instant>)
    ensures |SortedSeq(s)| == |s|
    ensures forall x :: x in SortedSeq(s) <==> x in s
    ensures forall i, j :: 0 <= i < j < |SortedSeq(s)| ==> SortedSeq(s)[i] < SortedSeq(s)[j]
    decreases |s|
  {
    if s != {} {
      var m := Min(s);
      var rest := s - {m};
      SortedSeqSpec(rest);
      var r := SortedSeq(s);
      assert r == [m] + SortedSeq(rest);
      forall i, j | 0 <= i < j < |r| ensures r[i] < r[j] {
        if i == 0 {
          assert r[j] in rest;
        } else {
          assert r[i] == SortedSeq(rest)[i - 1] && r[j] == SortedSeq(rest)[j - 1];
        }
      }
    }
  }

  /** A strictly ascending sequence holds each of its values at one position only. */
  lemma AscendingUnique(keys: seq<Instant>, i: nat, j: nat)
    requires forall a, b :: 0 <= a < b < |keys| ==> keys[a] < keys[b]
    requires i < |keys| && j < |keys| && keys[i] == keys[j]
    ensures i == j
  {
  }

  // ---------------------------------------------------------------------
  // The TreeMap and the record writer

  /** A `TreeMap<Instant, String>`: its contents, iterated in ascending key order. */
  class TreeMap {
    var contents: map<Instant, string>

    constructor()
      ensures contents == map[]
    {
      contents := map[];
    }

    method Put(k: Instant, v: string)
      modifies this
      ensures contents == old(contents)[k := v]
    {
      contents := contents[k := v];
    }

    method PutIfAbsent(k: Instant, v: string)
      modifies this
      ensures contents == if k in old(contents) then old(contents) else old(contents)[k := v]
    {
      if k !in contents {
        contents := contents[k := v];
      }
    }

    /** `get`: `None` stands for the `null` of a missing key. */
    function Get(k: Instant): (r: Option<string>)
      reads this
      ensures r.Some? <==> k in contents
      ensures r.Some? ==> r.value == contents[k]
    {
      if k in contents then Some(contents[k]) else None
    }

    /** `keySet()` as iterated: every key once, smallest first. */
    method KeySet() returns (keys: seq<Instant>)
      ensures keys == SortedSeq(contents.Keys)
    {
      var remaining := contents.Keys;
      keys := [];
      while remaining != {}
        invariant keys + SortedSeq(remaining) == SortedSeq(contents.Keys)
        decreases |remaining|
      {
        MinExists(remaining);
        var m :| IsMin(m, remaining);
        SortedSeqUnfold(remaining, m);
        assert keys + SortedSeq(remaining) == (keys + [m]) + SortedSeq(remaining - {m});
        keys := keys + [m];
        remaining := remaining - {m};
      }
    }
  }

  /** `CsvRecordWriter`, by the records handed to it. */
  class CsvRecordWriter {
    var records: seq<Row>

    constructor()
      ensures records == []
    {
      records := [];
    }

    method HandleRecord(r: Row)
      modifies this
      ensures records == old(records) + [r]
    {
      records := records + [r];
    }
  }

  // ---------------------------------------------------------------------
  // writeCluster

  /** Every instant of either series, in ascending order. */
  ghost function MergedInstants(cpu: seq<MetricDataPoint>, disk: seq<MetricDataPoint>): seq<Instant>
  {
    SortedSeq(Instants(cpu) + Instants(disk))
  }

  /** The row for one instant: cluster id, formatted instant, CPU field, disk field. */
  function MakeRow(clusterId: string, format: Instant -> string, k: Instant,
                   cpu: seq<MetricDataPoint>, disk: seq<MetricDataPoint>): Row
  {
    [clusterId, format(k), Cell(cpu, k), Cell(disk, k)]
  }

  /** One row per key, in key order. */
  function RowsFor(clusterId: string, format: Instant -> string, keys: seq<Instant>,
                   cpu: seq<MetricDataPoint>, disk: seq<MetricDataPoint>): seq<Row>
  {
    seq(|keys|, i requires 0 <= i < |keys| => MakeRow(clusterId, format, keys[i], cpu, disk))
  }

  /** The rows `writeCluster` emits for one cluster. */
  ghost function MergedRows(clusterId: string, format: Instant -> string,
                            cpu: seq<MetricDataPoint>, disk: seq<MetricDataPoint>): seq<Row>
  {
    RowsFor(clusterId, format, MergedInstants(cpu, disk), cpu, disk)
  }

  /** Every point of both series has a value, so neither loop throws. */
  predicate Writable(cpu: seq<MetricDataPoint>, disk: seq<MetricDataPoint>)
  {
    AllPresent(cpu) && AllPresent(disk)
  }

  /**
   * The merged rows: one per instant of either series, in strictly ascending
   * instant order, each giving the cluster, the formatted instant, and each
   * series' last value there or "" where the series has none.
   */
  lemma MergedRowsSpec(clusterId: string, format: Instant -> string,
                       cpu: seq<MetricDataPoint>, disk: seq<MetricDataPoint>)
    ensures |MergedRows(clusterId, format, cpu, disk)| == |Instants(cpu) + Instants(disk)|
    ensures forall k :: k in MergedInstants(cpu, disk) <==> k in Instants(cpu) || k in Instants(disk)
    ensures forall i, j :: 0 <= i < j < |MergedInstants(cpu, disk)| ==>
              MergedInstants(cpu, disk)[i] < MergedInstants(cpu, disk)[j]
    ensures forall i :: 0 <= i < |MergedInstants(cpu, disk)| ==>
              MergedRows(clusterId, format, cpu, disk)[i]
                == MakeRow(clusterId, format, MergedInstants(cpu, disk)[i], cpu, disk)
  {
    SortedSeqSpec(Instants(cpu) + Instants(disk));
  }

  /** Each instant of either series appears in exactly one row. */
  lemma ExactlyOneRowPerInstant(cpu: seq<MetricDataPoint>, disk: seq<MetricDataPoint>, k: Instant)
    requires k in Instants(cpu) || k in Instants(disk)
    ensures exists i :: 0 <= i < |MergedInstants(cpu, disk)| && MergedInstants(cpu, disk)[i] == k
    ensures forall i, j ::
              (0 <= i < |MergedInstants(cpu, disk)| && 0 <= j < |MergedInstants(cpu, disk)| &&
               MergedInstants(cpu, disk)[i] == k && MergedInstants(cpu, disk)[j] == k) ==> i == j
  {
    var keys := MergedInstants(cpu, disk);
    SortedSeqSpec(Instants(cpu) + Instants(disk));
    forall i, j | 0 <= i < |keys| && 0 <= j < |keys| && keys[i] == k && keys[j] == k
      ensures i == j
    {
      AscendingUnique(keys, i, j);
    }
  }

  /**
   * The fields of a row: an instant in only one series gets "" for the other;
   * one in both gets both series' last values.
   */
  lemma RowFields(clusterId: string, format: Instant -> string,
                  cpu: seq<MetricDataPoint>, disk: seq<MetricDataPoint>, k: Instant)
    requires Writable(cpu, disk)
    requires k in Instants(cpu) || k in Instants(disk)
    ensures k !in Instants(cpu) ==> MakeRow(clusterId, format, k, cpu, disk)[2] == ""
    ensures k !in Instants(disk) ==> MakeRow(clusterId, format, k, cpu, disk)[3] == ""
    ensures k in Instants(cpu) ==>
              Last(cpu, k).Some? && Last(cpu, k).value.value.Some? &&
              MakeRow(clusterId, format, k, cpu, disk)[2] == Last(cpu, k).value.value.value.text
    ensures k in Instants(disk) ==>
              Last(disk, k).Some? && Last(disk, k).value.value.Some? &&
              MakeRow(clusterId, format, k, cpu, disk)[3] == Last(disk, k).value.value.value.text
  {
    if k in Instants(cpu) { CellValue(cpu, k); } else { CellPadding(cpu, k); }
    if k in Instants(disk) { CellValue(disk, k); } else { CellPadding(disk, k); }
  }

  /** The CPU TreeMap once both loops ran: placeholders beneath the CPU values. */
  lemma CpuAfterDisk(cpu: seq<MetricDataPoint>, disk: seq<MetricDataPoint>, k: Instant)
    requires k in Instants(cpu) || k in Instants(disk)
    ensures k in (Blank(Instants(disk)) + Series(cpu))
    ensures (Blank(Instants(disk)) + Series(cpu))[k] == Cell(cpu, k)
  {
    if k !in Instants(cpu) {
      CellPadding(cpu, k);
    }
  }

  lemma DiskAfterDisk(cpu: seq<MetricDataPoint>, disk: seq<MetricDataPoint>, k: Instant)
    requires k in Instants(cpu) || k in Instants(disk)
    ensures k in (Blank(Instants(cpu)) + Series(disk))
    ensures (Blank(Instants(cpu)) + Series(disk))[k] == Cell(disk, k)
  {
    if k !in Instants(disk) {
      CellPadding(disk, k);
    }
  }

  /**
   * The first loop of `writeCluster`: `put` of each CPU value, and a
   * placeholder in the disk map at its instant. A null value throws.
   */
  method FillCpu(cpuPoints: TreeMap, diskPoints: TreeMap, cpu: seq<MetricDataPoint>)
    returns (ok: bool)
    requires cpuPoints != diskPoints
    requires cpuPoints.contents == map[] && diskPoints.contents == map[]
    modifies cpuPoints, diskPoints
    ensures ok <==> AllPresent(cpu)
    ensures ok ==> cpuPoints.contents == Series(cpu) && diskPoints.contents == Blank(Instants(cpu))
  {
    assert Blank({}) + map[] == map[];
    for i := 0 to |cpu|
      invariant cpuPoints.contents == Series(cpu[..i])
      invariant diskPoints.contents == Blank(Instants(cpu[..i])) + map[]
      invariant AllPresent(cpu[..i])
    {
      var p := cpu[i];
      if p.value.None? {
        assert !AllPresent(cpu) by { assert cpu[i].value.None?; }
        return false;
      }
      assert cpu[..i + 1] == cpu[..i] + [p];
      SeriesSnoc(cpu[..i], p);
      InstantsSnoc(cpu[..i], p);
      PadStep(Instants(cpu[..i]), map[], p.instant);
      cpuPoints.Put(p.instant, p.value.value.text);
      diskPoints.PutIfAbsent(p.instant, "");
    }
    assert cpu[..|cpu|] == cpu;
    assert Blank(Instants(cpu)) + map[] == Blank(Instants(cpu));
    return true;
  }

  /**
   * The second loop of `writeCluster`: a placeholder in the CPU map at each
   * disk instant it lacks, and `put` of each disk value. A null value throws.
   */
  method FillDisk(cpuPoints: TreeMap, diskPoints: TreeMap, cpu: seq<MetricDataPoint>, disk: seq<MetricDataPoint>)
    returns (ok: bool)
    requires cpuPoints != diskPoints
    requires cpuPoints.contents == Series(cpu) && diskPoints.contents == Blank(Instants(cpu))
    modifies cpuPoints, diskPoints
    ensures ok <==> AllPresent(disk)
    ensures ok ==> cpuPoints.contents == Blank(Instants(disk)) + Series(cpu)
    ensures ok ==> diskPoints.contents == Blank(Instants(cpu)) + Series(disk)
  {
    ghost var cpuSeries := Series(cpu);
    ghost var cpuInstants := Instants(cpu);
    assert cpuPoints.contents == Blank({}) + cpuSeries;
    assert diskPoints.contents == Blank(cpuInstants) + Series(disk[..0]);
    for j := 0 to |disk|
      invariant cpuPoints.contents == Blank(Instants(disk[..j])) + cpuSeries
      invariant diskPoints.contents == Blank(cpuInstants) + Series(disk[..j])
      invariant AllPresent(disk[..j])
    {
      var p := disk[j];
      if p.value.None? {
        assert !AllPresent(disk) by { assert disk[j].value.None?; }
        return false;
      }
      assert disk[..j + 1] == disk[..j] + [p];
      SeriesSnoc(disk[..j], p);
      InstantsSnoc(disk[..j], p);
      PadStep(Instants(disk[..j]), cpuSeries, p.instant);
      PutStep(cpuInstants, Series(disk[..j]), p.instant, p.value.value.text);
      cpuPoints.PutIfAbsent(p.instant, "");
      diskPoints.Put(p.instant, p.value.value.text);
    }
    assert disk[..|disk|] == disk;
    return true;
  }

  /**
   * `writeCluster`: fills the two TreeMaps, then writes one record per key.
   * A null value makes `toString` throw before any record is written.
   */
  method WriteCluster(writer: CsvRecordWriter, clusterId: string, format: Instant -> string,
                      cpu: seq<MetricDataPoint>, disk: seq<MetricDataPoint>)
    returns (ok: bool)
    modifies writer
    ensures ok <==> Writable(cpu, disk)
    ensures ok ==> writer.records == old(writer.records) + MergedRows(clusterId, format, cpu, disk)
    ensures !ok ==> writer.records == old(writer.records)
  {
    var cpuPoints := new TreeMap();
    var diskPoints := new TreeMap();
    ok := FillCpu(cpuPoints, diskPoints, cpu);
    if !ok {
      return;
    }
    ok := FillDisk(cpuPoints, diskPoints, cpu, disk);
    if !ok {
      return;
    }
    ghost var all := Instants(cpu) + Instants(disk);
    assert cpuPoints.contents.Keys == all;
    var keys := cpuPoints.KeySet();
    SortedSeqSpec(all);
    forall k | k in keys
      ensures cpuPoints.Get(k) == Some(Cell(cpu, k)) && diskPoints.Get(k) == Some(Cell(disk, k))
    {
      CpuAfterDisk(cpu, disk, k);
      DiskAfterDisk(cpu, disk, k);
    }
    EmitRows(writer, clusterId, format, keys, cpuPoints, diskPoints, cpu, disk);
  }

  /**
   * The last loop of `writeCluster`: one record per key of the CPU map, in
   * the order given, with both maps' values at that key.
   */
  method EmitRows(writer: CsvRecordWriter, clusterId: string, format: Instant -> string, keys: seq<Instant>,
                  cpuPoints: TreeMap, diskPoints: TreeMap,
                  ghost cpu: seq<MetricDataPoint>, ghost disk: seq<MetricDataPoint>)
    requires forall k :: k in keys ==>
               cpuPoints.Get(k) == Some(Cell(cpu, k)) && diskPoints.Get(k) == Some(Cell(disk, k))
    modifies writer
    ensures writer.records == old(writer.records) + RowsFor(clusterId, format, keys, cpu, disk)
  {
    ghost var r0 := writer.records;
    for i := 0 to |keys|
      invariant |writer.records| == |r0| + i
      invariant writer.records[..|r0|] == r0
      invariant forall j :: 0 <= j < i ==> writer.records[|r0| + j] == MakeRow(clusterId, format, keys[j], cpu, disk)
    {
      var key := keys[i];
      assert key in keys;
      var cpuValue := cpuPoints.Get(key).value;
      var diskValue := diskPoints.Get(key).value;
      writer.HandleRecord([clusterId, format(key), cpuValue, diskValue]);
    }
    assert writer.records == r0 + RowsFor(clusterId, format, keys, cpu, disk);
  }

  // ---------------------------------------------------------------------
  // doRun

  /** How many clusters are written before the first that throws. */
  function FirstUnwritable(clusters: seq<string>, cpuOf: string -> seq<MetricDataPoint>,
                           diskOf: string -> seq<MetricDataPoint>): (n: nat)
    ensures n <= |clusters|
    ensures n < |clusters| ==> !Writable(cpuOf(clusters[n]), diskOf(clusters[n]))
  {
    if |clusters| == 0 then 0
    else if !Writable(cpuOf(clusters[0]), diskOf(clusters[0])) then 0
    else 1 + FirstUnwritable(clusters[1..], cpuOf, diskOf)
  }

  /** A cluster that cannot be written, with only writable ones before it, is the first such. */
  lemma {:induction false} FirstUnwritableAt(clusters: seq<string>, cpuOf: string -> seq<MetricDataPoint>,
                                             diskOf: string -> seq<MetricDataPoint>, i: nat)
    requires i < |clusters| && i <= FirstUnwritable(clusters, cpuOf, diskOf)
    requires !Writable(cpuOf(clusters[i]), diskOf(clusters[i]))
    ensures FirstUnwritable(clusters, cpuOf, diskOf) == i
  {
    if i > 0 {
      FirstUnwritableAt(clusters[1..], cpuOf, diskOf, i - 1);
    }
  }

  lemma {:induction false} FirstUnwritableSpec(clusters: seq<string>, cpuOf: string -> seq<MetricDataPoint>,
                                               diskOf: string -> seq<MetricDataPoint>, i: nat)
    requires i < FirstUnwritable(clusters, cpuOf, diskOf)
    ensures Writable(cpuOf(clusters[i]), diskOf(clusters[i]))
  {
    if i > 0 {
      FirstUnwritableSpec(clusters[1..], cpuOf, diskOf, i - 1);
    }
  }

  /** The rows of the given clusters, cluster by cluster in list order. */
  ghost function ClusterRows(clusters: seq<string>, format: Instant -> string,
                             cpuOf: string -> seq<MetricDataPoint>,
                             diskOf: string -> seq<MetricDataPoint>): seq<Row>
  {
    if |clusters| == 0 then []
    else
      var last := clusters[|clusters| - 1];
      ClusterRows(clusters[..|clusters| - 1], format, cpuOf, diskOf)
        + MergedRows(last, format, cpuOf(last), diskOf(last))
  }

  lemma ClusterRowsSnoc(clusters: seq<string>, i: nat, format: Instant -> string,
                        cpuOf: string -> seq<MetricDataPoint>, diskOf: string -> seq<MetricDataPoint>)
    requires i < |clusters|
    ensures ClusterRows(clusters[..i + 1], format, cpuOf, diskOf)
              == ClusterRows(clusters[..i], format, cpuOf, diskOf)
                 + MergedRows(clusters[i], format, cpuOf(clusters[i]), diskOf(clusters[i]))
  {
    assert clusters[..i + 1][..i] == clusters[..i];
  }

  /** Writing two runs of clusters one after the other gives their rows one after the other. */
  lemma {:induction false} ClusterRowsAppend(a: seq<string>, b: seq<string>, format: Instant -> string,
                                             cpuOf: string -> seq<MetricDataPoint>,
                                             diskOf: string -> seq<MetricDataPoint>)
    ensures ClusterRows(a + b, format, cpuOf, diskOf)
              == ClusterRows(a, format, cpuOf, diskOf) + ClusterRows(b, format, cpuOf, diskOf)
    decreases |b|
  {
    if |b| == 0 {
      assert a + b == a;
    } else {
      var init := b[..|b| - 1];
      var last := b[|b| - 1];
      assert (a + b)[..|a + b| - 1] == a + init;
      ClusterRowsAppend(a, init, format, cpuOf, diskOf);
    }
  }

  /** Every row written names one of the clusters, as its first field. */
  lemma {:induction false} ClusterRowsName(clusters: seq<string>, format: Instant -> string,
                                           cpuOf: string -> seq<MetricDataPoint>,
                                           diskOf: string -> seq<MetricDataPoint>, r: nat)
    requires r < |ClusterRows(clusters, format, cpuOf, diskOf)|
    ensures |ClusterRows(clusters, format, cpuOf, diskOf)[r]| == 4
    ensures ClusterRows(clusters, format, cpuOf, diskOf)[r][0] in clusters
  {
    var init := clusters[..|clusters| - 1];
    var last := clusters[|clusters| - 1];
    var front := ClusterRows(init, format, cpuOf, diskOf);
    if r < |front| {
      ClusterRowsName(init, format, cpuOf, diskOf, r);
      assert front[r][0] in init;
    } else {
      var keys := MergedInstants(cpuOf(last), diskOf(last));
      MergedRowsSpec(last, format, cpuOf(last), diskOf(last));
      assert ClusterRows(clusters, format, cpuOf, diskOf)[r]
               == MakeRow(last, format, keys[r - |front|], cpuOf(last), diskOf(last));
    }
  }

  /**
   * The cluster loop of `doRun`: `writeCluster` once per cluster, in the
   * order the API listed them, until one throws; `ok` says none did. The
   * fetches of each cluster's series are the inputs `cpuOf` and `diskOf`.
   */
  method DoRun(writer: CsvRecordWriter, clusters: seq<string>, format: Instant -> string,
               cpuOf: string -> seq<MetricDataPoint>, diskOf: string -> seq<MetricDataPoint>)
    returns (ok: bool)
    modifies writer
    ensures ok <==> FirstUnwritable(clusters, cpuOf, diskOf) == |clusters|
    ensures writer.records == old(writer.records)
              + ClusterRows(clusters[..FirstUnwritable(clusters, cpuOf, diskOf)], format, cpuOf, diskOf)
  {
    ghost var r0 := writer.records;
    for i := 0 to |clusters|
      invariant i <= FirstUnwritable(clusters, cpuOf, diskOf)
      invariant writer.records == r0 + ClusterRows(clusters[..i], format, cpuOf, diskOf)
    {
      var written := WriteNext(writer, clusters, i, format, cpuOf, diskOf, r0);
      if !written {
        return false;
      }
    }
    assert clusters[..|clusters|] == clusters;
    return true;
  }

  /** One pass of the cluster loop: cluster `i` is written, or it is the first that throws. */
  method WriteNext(writer: CsvRecordWriter, clusters: seq<string>, i: nat, format: Instant -> string,
                   cpuOf: string -> seq<MetricDataPoint>, diskOf: string -> seq<MetricDataPoint>,
                   ghost r0: seq<Row>)
    returns (written: bool)
    requires i < |clusters| && i <= FirstUnwritable(clusters, cpuOf, diskOf)
    requires writer.records == r0 + ClusterRows(clusters[..i], format, cpuOf, diskOf)
    modifies writer
    ensures written ==> i < FirstUnwritable(clusters, cpuOf, diskOf)
    ensures written ==> writer.records == r0 + ClusterRows(clusters[..i + 1], format, cpuOf, diskOf)
    ensures !written ==> i == FirstUnwritable(clusters, cpuOf, diskOf) && writer.records == old(writer.records)
  {
    var item := clusters[i];
    written := WriteCluster(writer, item, format, cpuOf(item), diskOf(item));
    if !written {
      FirstUnwritableAt(clusters, cpuOf, diskOf, i);
    } else {
      ClusterRowsSnoc(clusters, i, format, cpuOf, diskOf);
      RowsAssoc(r0, ClusterRows(clusters[..i], format, cpuOf, diskOf), MergedRows(item, format, cpuOf(item), diskOf(item)));
    }
  }

  lemma RowsAssoc(a: seq<Row>, b: seq<Row>, c: seq<Row>)
    ensures (a + b) + c == a + (b + c)
  {
  }
}
