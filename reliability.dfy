/** The reliability calculator: two closest-observation percentiles of the travel time
    per (tmc_code, TOD) group, joined back onto every row, and their ratio LOTTR. */
module Reliability {
  import opened Types
  import opened TimeBucketer
  import opened Quantiles
  import opened Decimal

  /** The grouping key of the percentile pass: (tmc_code, TOD). */
  datatype Group = Group(tmc: Tmc, tod: TimeOfDay)

  function GroupOf(b: BucketedObservation): Group {
    Group(b.obs.tmc, b.tod)
  }

  /** A row of the percentile table: TTQ1P and TTQ2P of one group. */
  datatype PercentilePair = PercentilePair(q1Value: real, q2Value: real)

  /** A row after the reliability calculator: the bucketed row unchanged, plus the two
      percentiles of its group and LOTTR; each is missing when it is undefined. */
  datatype ReliabilityObservation =
    ReliabilityObservation(row: BucketedObservation, ttq1p: Option<real>, ttq2p: Option<real>, lottr: Option<real>)

  /** The result of the calculator: the names of the two percentile columns and the rows. */
  datatype ReliabilityTable = ReliabilityTable(q1Column: string, q2Column: string, rows: seq<ReliabilityObservation>)

  const PercentileRangeError := "q1 and q2 must be between 0 and 100."

  /** Some row of group g has a travel time. */
  ghost predicate Measured(rows: seq<BucketedObservation>, g: Group) {
    exists j :: 0 <= j < |rows| && GroupOf(rows[j]) == g && rows[j].obs.ttSec.Some?
  }

  /** Some row of group g has travel time v. */
  ghost predicate ObservedIn(rows: seq<BucketedObservation>, g: Group, v: real) {
    exists j :: 0 <= j < |rows| && GroupOf(rows[j]) == g && rows[j].obs.ttSec == Some(v)
  }

  /** The rows that have a travel time, in order (dropna on TT_SEC). */
  function DropMissing(rows: seq<BucketedObservation>): (r: seq<BucketedObservation>)
    ensures forall b :: b in r <==> b in rows && b.obs.ttSec.Some?
  {
    if rows == [] then []
    else
      assert rows == [rows[0]] + rows[1..];
      (if rows[0].obs.ttSec.Some? then [rows[0]] else []) + DropMissing(rows[1..])
  }

  /** The drop keeps every row that has a travel time as many times as the input has it
      and no other row, so it never lengthens the data. */
  lemma {:induction false} DropMissingKeepsCounts(rows: seq<BucketedObservation>)
    ensures forall b :: multiset(DropMissing(rows))[b] == if b.obs.ttSec.Some? then multiset(rows)[b] else 0
    ensures |DropMissing(rows)| <= |rows|
  {
    if rows != [] {
      DropMissingKeepsCounts(rows[1..]);
      assert rows == [rows[0]] + rows[1..];
    }
  }

  /** The travel times present in group g, in row order: the sample a percentile of the
      group is taken over. */
  function GroupValues(rows: seq<BucketedObservation>, g: Group): (r: seq<real>)
    ensures |r| <= |rows|
  {
    if rows == [] then []
    else
      var head := if GroupOf(rows[0]) == g && rows[0].obs.ttSec.Some? then [rows[0].obs.ttSec.value] else [];
      head + GroupValues(rows[1..], g)
  }

  /** The sample of a group holds exactly the travel times observed in that group. */
  lemma {:induction false} GroupValuesAreObserved(rows: seq<BucketedObservation>, g: Group, v: real)
    ensures v in GroupValues(rows, g) <==> ObservedIn(rows, g, v)
  {
    if rows != [] {
      GroupValuesAreObserved(rows[1..], g, v);
      if ObservedIn(rows, g, v) {
        var j :| 0 <= j < |rows| && GroupOf(rows[j]) == g && rows[j].obs.ttSec == Some(v);
        if j > 0 {
          assert rows[1..][j - 1] == rows[j];
        }
      }
      if ObservedIn(rows[1..], g, v) {
        var j :| 0 <= j < |rows[1..]| && GroupOf(rows[1..][j]) == g && rows[1..][j].obs.ttSec == Some(v);
        assert rows[j + 1] == rows[1..][j];
      }
    }
  }

  /** The indexes of the rows of group g whose travel time is v. */
  ghost function Hits(rows: seq<BucketedObservation>, g: Group, v: real): set<int> {
    set j | 0 <= j < |rows| && GroupOf(rows[j]) == g && rows[j].obs.ttSec == Some(v)
  }

  /** The hits of rows, numbered from off. */
  ghost function HitsFrom(rows: seq<BucketedObservation>, g: Group, v: real, off: int): set<int> {
    set j | 0 <= j < |rows| && GroupOf(rows[j]) == g && rows[j].obs.ttSec == Some(v) :: j + off
  }

  /** The hits of a non-empty sequence: the first row, if it is one, and the hits of the
      rest, all numbered above it. */
  lemma HitsFromTail(rows: seq<BucketedObservation>, g: Group, v: real, off: int)
    requires rows != []
    ensures HitsFrom(rows, g, v, off) ==
      (if GroupOf(rows[0]) == g && rows[0].obs.ttSec == Some(v) then {off} else {}) +
      HitsFrom(rows[1..], g, v, off + 1)
    ensures off !in HitsFrom(rows[1..], g, v, off + 1)
  {
    var tail := HitsFrom(rows[1..], g, v, off + 1);
    forall y | y in HitsFrom(rows, g, v, off) && y != off
      ensures y in tail
    {
      var j :| 0 <= j < |rows| && GroupOf(rows[j]) == g && rows[j].obs.ttSec == Some(v) && y == j + off;
      assert rows[1..][j - 1] == rows[j];
    }
    forall y | y in tail
      ensures y in HitsFrom(rows, g, v, off)
    {
      var j :| 0 <= j < |rows[1..]| && GroupOf(rows[1..][j]) == g && rows[1..][j].obs.ttSec == Some(v) && y == j + off + 1;
      assert rows[j + 1] == rows[1..][j];
    }
  }

  lemma {:induction false} GroupValuesCountsFrom(rows: seq<BucketedObservation>, g: Group, v: real, off: int)
    ensures multiset(GroupValues(rows, g))[v] == |HitsFrom(rows, g, v, off)|
  {
    if rows == [] {
      assert HitsFrom(rows, g, v, off) == {};
    } else {
      GroupValuesCountsFrom(rows[1..], g, v, off + 1);
      HitsFromTail(rows, g, v, off);
      var head := if GroupOf(rows[0]) == g && rows[0].obs.ttSec.Some? then [rows[0].obs.ttSec.value] else [];
      assert GroupValues(rows, g) == head + GroupValues(rows[1..], g);
      assert multiset(GroupValues(rows, g)) == multiset(head) + multiset(GroupValues(rows[1..], g));
    }
  }

  /** Each row of group g that has a travel time contributes it to the sample exactly
      once: duplicates are kept, as the percentile needs them. */
  lemma GroupValuesCounts(rows: seq<BucketedObservation>, g: Group, v: real)
    ensures multiset(GroupValues(rows, g))[v] == |Hits(rows, g, v)|
  {
    GroupValuesCountsFrom(rows, g, v, 0);
    assert Hits(rows, g, v) == HitsFrom(rows, g, v, 0);
  }

  /** A group is measured exactly when its sample is not empty. */
  lemma MeasuredIffSampled(rows: seq<BucketedObservation>, g: Group)
    ensures Measured(rows, g) <==> GroupValues(rows, g) != []
  {
    if Measured(rows, g) {
      var j :| 0 <= j < |rows| && GroupOf(rows[j]) == g && rows[j].obs.ttSec.Some?;
      GroupValuesAreObserved(rows, g, rows[j].obs.ttSec.value);
    }
    if GroupValues(rows, g) != [] {
      GroupValuesAreObserved(rows, g, GroupValues(rows, g)[0]);
    }
  }

  /** Rows without a travel time never contribute: dropping them leaves every group's
      sample as it was. */
  lemma {:induction false} DropMissingKeepsGroupValues(rows: seq<BucketedObservation>, g: Group)
    ensures GroupValues(DropMissing(rows), g) == GroupValues(rows, g)
  {
    if rows != [] {
      DropMissingKeepsGroupValues(rows[1..], g);
      var rest, dropped := DropMissing(rows[1..]), DropMissing(rows);
      if rows[0].obs.ttSec.Some? {
        assert dropped == [rows[0]] + rest;
        assert dropped[0] == rows[0] && dropped[1..] == rest;
      } else {
        assert dropped == rest;
        assert GroupValues(rows, g) == GroupValues(rows[1..], g);
      }
    }
  }

  /** The groups that the percentile table has a row for: those with a travel time. */
  function GroupsOf(rows: seq<BucketedObservation>): set<Group> {
    set j | 0 <= j < |rows| && rows[j].obs.ttSec.Some? :: GroupOf(rows[j])
  }

  /** TTQ1P and TTQ2P of group g: the closest-observation percentiles of its sample. */
  function GroupPercentiles(rows: seq<BucketedObservation>, g: Group, q1: int, q2: int): (p: PercentilePair)
    requires Measured(rows, g)
    requires 0 <= q1 <= 100 && 0 <= q2 <= 100
    ensures p.q1Value in GroupValues(rows, g) && p.q2Value in GroupValues(rows, g)
    ensures q1 <= q2 ==> p.q1Value <= p.q2Value
  {
    MeasuredIffSampled(rows, g);
    var values := GroupValues(rows, g);
    ClosestObservationMonotone(values, q1, q2);
    PercentilePair(ClosestObservation(values, q1), ClosestObservation(values, q2))
  }

  /** The percentile table: the group-by aggregation over the rows, one entry per group
      with a travel time. */
  function PercentileTable(perc: seq<BucketedObservation>, q1: int, q2: int): (t: map<Group, PercentilePair>)
    requires 0 <= q1 <= 100 && 0 <= q2 <= 100
    ensures forall g :: g in t <==> Measured(perc, g)
  {
    map g | g in GroupsOf(perc) :: GroupPercentiles(perc, g, q1, q2)
  }

  /** r is the quotient num / den: multiplied back by the denominator it gives the
      numerator. */
  predicate IsQuotient(r: real, num: real, den: real) {
    r * den == num
  }

  /** LOTTR, the ratio TTQ2P / TTQ1P; undefined when either percentile is missing or
      TTQ1P is zero. */
  function Lottr(q1Value: Option<real>, q2Value: Option<real>): (r: Option<real>)
    ensures r.Some? <==> q1Value.Some? && q2Value.Some? && q1Value.value != 0.0
    ensures r.Some? ==> IsQuotient(r.value, q2Value.value, q1Value.value)
  {
    if q1Value.Some? && q2Value.Some? && q1Value.value != 0.0 then Some(q2Value.value / q1Value.value)
    else None
  }

  /** One row of the left merge with the percentile table, with its LOTTR. */
  function JoinRow(b: BucketedObservation, t: map<Group, PercentilePair>): (r: ReliabilityObservation)
    ensures r.row == b
    ensures r.ttq1p.Some? <==> GroupOf(b) in t
    ensures r.ttq2p.Some? <==> GroupOf(b) in t
    ensures GroupOf(b) in t ==> r.ttq1p.value == t[GroupOf(b)].q1Value && r.ttq2p.value == t[GroupOf(b)].q2Value
    ensures r.lottr == Lottr(r.ttq1p, r.ttq2p)
  {
    var g := GroupOf(b);
    var q1Value := if g in t then Some(t[g].q1Value) else None;
    var q2Value := if g in t then Some(t[g].q2Value) else None;
    ReliabilityObservation(b, q1Value, q2Value, Lottr(q1Value, q2Value))
  }

  /** The left merge of the rows with the percentile table on (tmc_code, TOD). */
  function LeftJoinPercentiles(data: seq<BucketedObservation>, t: map<Group, PercentilePair>): (r: seq<ReliabilityObservation>)
    ensures |r| == |data|
    ensures forall i :: 0 <= i < |data| ==>
              && r[i].row == data[i]
              && (r[i].ttq1p.Some? <==> GroupOf(data[i]) in t)
              && (r[i].ttq2p.Some? <==> GroupOf(data[i]) in t)
              && (GroupOf(data[i]) in t ==>
                    r[i].ttq1p.value == t[GroupOf(data[i])].q1Value && r[i].ttq2p.value == t[GroupOf(data[i])].q2Value)
              && r[i].lottr == Lottr(r[i].ttq1p, r[i].ttq2p)
  {
    seq(|data|, i requires 0 <= i < |data| => JoinRow(data[i], t))
  }

  /** The name of a percentile column, TT{q}P. */
  function ColumnName(q: nat): (name: string)
    ensures |name| >= 4 && name[..2] == "TT" && name[|name| - 1] == 'P'
    ensures AllDigits(name[2..|name| - 1]) && DecimalValue(name[2..|name| - 1]) == q
    ensures q == 0 ==> name == "TT0P"
    ensures q > 0 ==> name[2] != '0'
  {
    var digits := DecimalString(q);
    DecimalRoundTrip(q);
    var name := "TT" + digits + "P";
    assert name[2..|name| - 1] == digits;
    name
  }

  /** Different percentiles give different column names. */
  lemma ColumnNamesDistinct(q1: nat, q2: nat)
    requires q1 != q2
    ensures ColumnName(q1) != ColumnName(q2)
  {
  }

  /** The reliability calculator: rejects a percentile outside 0..100 before touching the
      data; otherwise adds the two percentile columns and LOTTR to every row. */
  function AddLottr(data: seq<BucketedObservation>, q1: int, q2: int): (r: Result<ReliabilityTable, string>)
    ensures r.Failure? <==> (q1 < 0 || q1 > 100) || (q2 < 0 || q2 > 100)
    ensures r.Failure? ==> r.error == PercentileRangeError
    ensures r.Success? ==> |r.value.rows| == |data|
    ensures r.Success? ==> forall i :: 0 <= i < |data| ==> r.value.rows[i].row == data[i]
    ensures r.Success? ==> r.value.q1Column == ColumnName(q1) && r.value.q2Column == ColumnName(q2)
  {
    if (q1 < 0 || q1 > 100) || (q2 < 0 || q2 > 100) then Failure(PercentileRangeError)
    else
      var perc := DropMissing(data);
      var table := PercentileTable(perc, q1, q2);
      Success(ReliabilityTable(ColumnName(q1), ColumnName(q2), LeftJoinPercentiles(data, table)))
  }

  /** Row i of the result is row i of the input joined with the percentile table of the
      rows that have a travel time. */
  lemma AddLottrRow(data: seq<BucketedObservation>, q1: int, q2: int, i: int)
    requires 0 <= q1 <= 100 && 0 <= q2 <= 100 && 0 <= i < |data|
    ensures AddLottr(data, q1, q2).value.rows[i] == JoinRow(data[i], PercentileTable(DropMissing(data), q1, q2))
  {
  }

  /** The measured groups of the rows are those of the rows that have a travel time. */
  lemma MeasuredAfterDrop(data: seq<BucketedObservation>, g: Group)
    ensures Measured(DropMissing(data), g) <==> Measured(data, g)
  {
    DropMissingKeepsGroupValues(data, g);
    MeasuredIffSampled(data, g);
    MeasuredIffSampled(DropMissing(data), g);
  }

  /** Every row receives the percentiles of its own group: they are present exactly when
      the group has a travel time, each is a travel time observed in the group, and the
      lower percentile does not exceed the higher. */
  lemma AddLottrPercentiles(data: seq<BucketedObservation>, q1: int, q2: int, i: int)
    requires 0 <= q1 <= 100 && 0 <= q2 <= 100 && 0 <= i < |data|
    ensures var row := AddLottr(data, q1, q2).value.rows[i];
            var g := GroupOf(data[i]);
            && (row.ttq1p.Some? <==> Measured(data, g))
            && (row.ttq2p.Some? <==> Measured(data, g))
            && (row.ttq1p.Some? ==> ObservedIn(data, g, row.ttq1p.value))
            && (row.ttq2p.Some? ==> ObservedIn(data, g, row.ttq2p.value))
            && (q1 <= q2 && row.ttq1p.Some? && row.ttq2p.Some? ==> row.ttq1p.value <= row.ttq2p.value)
  {
    var g := GroupOf(data[i]);
    var perc := DropMissing(data);
    var t := PercentileTable(perc, q1, q2);
    var row := AddLottr(data, q1, q2).value.rows[i];
    assert row == JoinRow(data[i], t);
    MeasuredAfterDrop(data, g);
    assert g in t <==> Measured(data, g);
    if g in t {
      DropMissingKeepsGroupValues(data, g);
      var p := GroupPercentiles(perc, g, q1, q2);
      assert t[g] == p;
      assert row.ttq1p == Some(p.q1Value) && row.ttq2p == Some(p.q2Value);
      GroupValuesAreObserved(data, g, p.q1Value);
      GroupValuesAreObserved(data, g, p.q2Value);
    }
  }

  /** LOTTR is defined exactly when the row's group has a travel time and TTQ1P is not
      zero, and it is then TTQ2P / TTQ1P. */
  lemma AddLottrRatio(data: seq<BucketedObservation>, q1: int, q2: int, i: int)
    requires 0 <= q1 <= 100 && 0 <= q2 <= 100 && 0 <= i < |data|
    ensures var row := AddLottr(data, q1, q2).value.rows[i];
            && (row.lottr.Some? <==> Measured(data, GroupOf(data[i])) && row.ttq1p.Some? && row.ttq1p.value != 0.0)
            && (row.lottr.Some? ==> row.ttq1p.Some? && row.ttq2p.Some? && IsQuotient(row.lottr.value, row.ttq2p.value, row.ttq1p.value))
  {
    AddLottrPercentiles(data, q1, q2, i);
    var row := AddLottr(data, q1, q2).value.rows[i];
    assert row.lottr == Lottr(row.ttq1p, row.ttq2p);
  }

  /** The table entry of a measured group holds the closest observations of the group's
      travel times in the input. */
  lemma TableEntryOfGroup(data: seq<BucketedObservation>, g: Group, q1: int, q2: int)
    requires 0 <= q1 <= 100 && 0 <= q2 <= 100
    requires GroupValues(data, g) != []
    ensures g in PercentileTable(DropMissing(data), q1, q2)
    ensures PercentileTable(DropMissing(data), q1, q2)[g]
            == PercentilePair(ClosestObservation(GroupValues(data, g), q1), ClosestObservation(GroupValues(data, g), q2))
  {
    MeasuredIffSampled(data, g);
    MeasuredAfterDrop(data, g);
    DropMissingKeepsGroupValues(data, g);
  }

  /** The percentiles a row receives are the closest observations of the travel times
      its group has in the input, missing rows having been left out. */
  lemma AddLottrUsesGroupSample(data: seq<BucketedObservation>, q1: int, q2: int, i: int)
    requires 0 <= q1 <= 100 && 0 <= q2 <= 100 && 0 <= i < |data|
    requires GroupValues(data, GroupOf(data[i])) != []
    ensures AddLottr(data, q1, q2).value.rows[i].ttq1p == Some(ClosestObservation(GroupValues(data, GroupOf(data[i])), q1))
    ensures AddLottr(data, q1, q2).value.rows[i].ttq2p == Some(ClosestObservation(GroupValues(data, GroupOf(data[i])), q2))
  {
    TableEntryOfGroup(data, GroupOf(data[i]), q1, q2);
    AddLottrRow(data, q1, q2, i);
  }

  /** Rows of the same group receive the same percentiles and the same LOTTR. */
  lemma AddLottrSameGroup(data: seq<BucketedObservation>, q1: int, q2: int, i: int, j: int)
    requires 0 <= q1 <= 100 && 0 <= q2 <= 100 && 0 <= i < |data| && 0 <= j < |data|
    requires GroupOf(data[i]) == GroupOf(data[j])
    ensures AddLottr(data, q1, q2).value.rows[i].ttq1p == AddLottr(data, q1, q2).value.rows[j].ttq1p
    ensures AddLottr(data, q1, q2).value.rows[i].ttq2p == AddLottr(data, q1, q2).value.rows[j].ttq2p
    ensures AddLottr(data, q1, q2).value.rows[i].lottr == AddLottr(data, q1, q2).value.rows[j].lottr
  {
  }
}
