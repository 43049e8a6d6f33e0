/** The Interstate truck merge: the truck feed is aligned on the all-vehicle keys and
    given its own reliability columns, its columns are prefixed with TRK_ and left-joined
    onto the all-vehicle result, FLAG marks the rows without a measured truck travel time,
    whose truck speed and travel time are imputed from the all-vehicle ones, and the
    duplicated key and bucket columns are dropped. */
module Merge {
  import opened Types
  import opened TimeBucketer
  import opened Reliability

  /** The percentiles of the all-vehicle feed and of the truck feed. */
  const ALL_VEHICLE_Q1 := 50
  const ALL_VEHICLE_Q2 := 80
  const TRUCK_Q1 := 50
  const TRUCK_Q2 := 95

  /** Some row has key k. */
  ghost predicate HasKey<T>(rows: seq<T>, keyOf: T -> Key, k: Key) {
    exists j :: 0 <= j < |rows| && keyOf(rows[j]) == k
  }

  /** No two rows share a key. */
  ghost predicate KeysUnique<T>(rows: seq<T>, keyOf: T -> Key) {
    forall i, j :: 0 <= i < j < |rows| ==> keyOf(rows[i]) != keyOf(rows[j])
  }

  /** The row with key k that a left merge pairs a left row with: the first row with
      that key, if any. */
  function FindKey<T>(rows: seq<T>, keyOf: T -> Key, k: Key): (r: Option<nat>)
    ensures r.Some? ==> r.value < |rows| && keyOf(rows[r.value]) == k
    ensures r.None? <==> !HasKey(rows, keyOf, k)
    ensures r.Some? ==> forall j :: 0 <= j < r.value ==> keyOf(rows[j]) != k
  {
    if rows == [] then None
    else if keyOf(rows[0]) == k then Some(0)
    else
      match FindKey(rows[1..], keyOf, k)
      case Some(j) =>
        assert forall i :: 1 <= i <= j ==> rows[i] == rows[1..][i - 1];
        Some(j + 1)
      case None =>
        assert forall j :: 1 <= j < |rows| ==> rows[j] == rows[1..][j - 1];
        None
  }

  /** With unique keys, the row found for a key is the one row that has it. */
  lemma FindKeyUnique<T>(rows: seq<T>, keyOf: T -> Key, j: int)
    requires KeysUnique(rows, keyOf) && 0 <= j < |rows|
    ensures FindKey(rows, keyOf, keyOf(rows[j])) == Some(j)
  {
    var r := FindKey(rows, keyOf, keyOf(rows[j]));
    assert r.Some?;
  }

  /** One row of `pd.merge(keys, truck, how='left')`: the truck row with key k, or a row
      for k whose measurements are missing. */
  function AlignRow(k: Key, trk: seq<Observation>): (o: Observation)
    ensures KeyOf(o) == k
    ensures HasKey(trk, KeyOf, k) ==> o in trk
    ensures !HasKey(trk, KeyOf, k) ==> o.mph.None? && o.ttSec.None?
  {
    match FindKey(trk, KeyOf, k)
    case Some(j) => trk[j]
    case None => Observation(k.tmc, k.datetime, None, None)
  }

  /** The truck feed re-indexed on the all-vehicle keys: one row per key, in key order;
      truck rows whose key is not among them are dropped. */
  function AlignTruck(keys: seq<Key>, trk: seq<Observation>): (r: seq<Observation>)
    ensures |r| == |keys|
    ensures forall i :: 0 <= i < |keys| ==> KeyOf(r[i]) == keys[i]
    ensures forall i :: 0 <= i < |keys| && HasKey(trk, KeyOf, keys[i]) ==> r[i] in trk
    ensures forall i :: 0 <= i < |keys| && !HasKey(trk, KeyOf, keys[i]) ==> r[i].mph.None? && r[i].ttSec.None?
  {
    seq(|keys|, i requires 0 <= i < |keys| => AlignRow(keys[i], trk))
  }

  function RowKey(r: ReliabilityObservation): Key {
    KeyOf(r.row.obs)
  }

  /** The (tmc_code, DATETIME) columns of a reliability result. */
  function KeysOf(rows: seq<ReliabilityObservation>): seq<Key> {
    seq(|rows|, i requires 0 <= i < |rows| => RowKey(rows[i]))
  }

  /** The TRK_ columns of a row after the left merge; all of them are missing when the
      all-vehicle row found no truck row. */
  datatype TruckColumns = TruckColumns(
    tmc: Option<Tmc>, datetime: Option<DateTime>, mph: Option<real>, ttSec: Option<real>,
    hod: Option<int>, dow: Option<int>, tod: Option<TimeOfDay>,
    ttq1p: Option<real>, ttq2p: Option<real>, lottr: Option<real>)

  const NO_TRUCK := TruckColumns(None, None, None, None, None, None, None, None, None, None)

  /** The truck reliability row with its columns renamed TRK_*. */
  function Prefixed(r: ReliabilityObservation): (tc: TruckColumns)
    ensures tc != NO_TRUCK
    ensures tc.tmc == Some(RowKey(r).tmc) && tc.datetime == Some(RowKey(r).datetime)
  {
    TruckColumns(
      Some(r.row.obs.tmc), Some(r.row.obs.datetime), r.row.obs.mph, r.row.obs.ttSec,
      Some(r.row.hod), Some(r.row.dow), Some(r.row.tod),
      r.ttq1p, r.ttq2p, r.lottr)
  }

  /** Renaming loses no column: different truck rows stay different. */
  lemma PrefixedInjective(r1: ReliabilityObservation, r2: ReliabilityObservation)
    requires Prefixed(r1) == Prefixed(r2)
    ensures r1 == r2
  {
    assert r1.row.obs == r2.row.obs;
  }

  /** A row of the merged frame before FLAG: the all-vehicle columns and the TRK_ ones. */
  datatype WideRow = WideRow(all: ReliabilityObservation, trk: TruckColumns)

  /** One row of the left merge on tmc_code, DATETIME = TRK_tmc_code, TRK_DATETIME. */
  function JoinWide(a: ReliabilityObservation, trk: seq<ReliabilityObservation>): (w: WideRow)
    ensures w.all == a
    ensures HasKey(trk, RowKey, RowKey(a)) ==>
              exists j :: 0 <= j < |trk| && RowKey(trk[j]) == RowKey(a) && w.trk == Prefixed(trk[j])
    ensures !HasKey(trk, RowKey, RowKey(a)) ==> w.trk == NO_TRUCK
  {
    match FindKey(trk, RowKey, RowKey(a))
    case Some(j) => WideRow(a, Prefixed(trk[j]))
    case None => WideRow(a, NO_TRUCK)
  }

  /** The left merge of the all-vehicle rows with the TRK_ rows. */
  function JoinTruck(all: seq<ReliabilityObservation>, trk: seq<ReliabilityObservation>): (r: seq<WideRow>)
    ensures |r| == |all|
    ensures forall i :: 0 <= i < |all| ==> r[i].all == all[i]
    ensures forall i :: 0 <= i < |all| ==> (r[i].trk == NO_TRUCK <==> !HasKey(trk, RowKey, RowKey(all[i])))
  {
    seq(|all|, i requires 0 <= i < |all| => JoinWide(all[i], trk))
  }

  /** A row of the final Interstate output: the all-vehicle columns, the truck speed and
      travel time (imputed where FLAG is 1), the truck percentiles and LOTTR, and FLAG. */
  datatype MergedObservation = MergedObservation(
    all: ReliabilityObservation,
    trkMph: Option<real>, trkTtSec: Option<real>,
    trkTtq1p: Option<real>, trkTtq2p: Option<real>, trkLottr: Option<real>,
    flag: int)

  /** The row with TRK_tmc_code, TRK_DATETIME, TRK_HOD, TRK_DOW and TRK_TOD dropped. */
  function DropTruckKeys(w: WideRow, flag: int): (m: MergedObservation)
    ensures m.all == w.all && m.flag == flag
    ensures m.trkMph == w.trk.mph && m.trkTtSec == w.trk.ttSec
    ensures m.trkTtq1p == w.trk.ttq1p && m.trkTtq2p == w.trk.ttq2p && m.trkLottr == w.trk.lottr
  {
    MergedObservation(w.all, w.trk.mph, w.trk.ttSec, w.trk.ttq1p, w.trk.ttq2p, w.trk.lottr, flag)
  }

  /** The truck speed and travel time replaced by the all-vehicle ones. */
  function Imputed(w: WideRow): (v: WideRow)
    ensures v.all == w.all
    ensures v.trk.mph == w.all.row.obs.mph && v.trk.ttSec == w.all.row.obs.ttSec
    ensures v.trk.(mph := w.trk.mph, ttSec := w.trk.ttSec) == w.trk
  {
    w.(trk := w.trk.(mph := w.all.row.obs.mph, ttSec := w.all.row.obs.ttSec))
  }

  /** FLAG, imputation and the column drop, run over a copy of the merged frame: FLAG is
      set to 1 where TRK_TT_SEC is missing and the rest filled with 0, then TRK_MPH and
      TRK_TT_SEC are overwritten with MPH and TT_SEC on the rows where TRK_TT_SEC is
      missing. */
  method FlagAndImpute(joined: seq<WideRow>) returns (merged: seq<MergedObservation>)
    ensures |merged| == |joined|
    ensures forall i :: 0 <= i < |joined| ==> merged[i].all == joined[i].all
    ensures forall i :: 0 <= i < |joined| ==> merged[i].flag == 0 || merged[i].flag == 1
    ensures forall i :: 0 <= i < |joined| ==> (merged[i].flag == 1 <==> joined[i].trk.ttSec.None?)
    ensures forall i :: 0 <= i < |joined| && joined[i].trk.ttSec.None? ==>
              merged[i].trkMph == joined[i].all.row.obs.mph && merged[i].trkTtSec == joined[i].all.row.obs.ttSec
    ensures forall i :: 0 <= i < |joined| && joined[i].trk.ttSec.Some? ==>
              merged[i].trkMph == joined[i].trk.mph && merged[i].trkTtSec == joined[i].trk.ttSec
    ensures forall i :: 0 <= i < |joined| ==>
              && merged[i].trkTtq1p == joined[i].trk.ttq1p
              && merged[i].trkTtq2p == joined[i].trk.ttq2p
              && merged[i].trkLottr == joined[i].trk.lottr
  {
    var n := |joined|;
    var frame := new WideRow[n](i requires 0 <= i < n => joined[i]);
    // FLAG is created by a masked assignment, so it is missing everywhere else
    var flag := new Option<int>[n](_ => None);
    for i := 0 to n
      modifies flag
      invariant forall j :: 0 <= j < i ==> flag[j] == if joined[j].trk.ttSec.None? then Some(1) else None
      invariant forall j :: i <= j < n ==> flag[j] == None
    {
      if frame[i].trk.ttSec.None? {
        flag[i] := Some(1);
      }
    }
    for i := 0 to n
      modifies flag
      invariant forall j :: 0 <= j < i ==> flag[j] == Some(if joined[j].trk.ttSec.None? then 1 else 0)
      invariant forall j :: i <= j < n ==> flag[j] == if joined[j].trk.ttSec.None? then Some(1) else None
    {
      if flag[i].None? {
        flag[i] := Some(0);
      }
    }
    for i := 0 to n
      modifies frame
      invariant forall j :: 0 <= j < i ==> frame[j] == if joined[j].trk.ttSec.None? then Imputed(joined[j]) else joined[j]
      invariant forall j :: i <= j < n ==> frame[j] == joined[j]
    {
      if frame[i].trk.ttSec.None? {
        frame[i] := Imputed(frame[i]);
      }
    }
    merged := [];
    for i := 0 to n
      invariant |merged| == i
      invariant forall j :: 0 <= j < i ==> merged[j] == DropTruckKeys(frame[j], flag[j].value)
    {
      merged := merged + [DropTruckKeys(frame[i], flag[i].value)];
    }
  }

  /** The all-vehicle result (data_int): buckets, then the 50th and 80th percentiles. */
  function AllVehicleReliability(allRaw: seq<Observation>): (r: seq<ReliabilityObservation>)
    ensures |r| == |allRaw|
    ensures forall i :: 0 <= i < |allRaw| ==> r[i].row == Bucket(allRaw[i])
  {
    AddLottr(BucketAll(allRaw), ALL_VEHICLE_Q1, ALL_VEHICLE_Q2).value.rows
  }

  /** The truck feed aligned on the all-vehicle keys and bucketed. */
  function TruckBucketed(allRaw: seq<Observation>, trkRaw: seq<Observation>): (r: seq<BucketedObservation>)
    ensures |r| == |allRaw|
    ensures forall i :: 0 <= i < |allRaw| ==> r[i] == Bucket(AlignRow(KeyOf(allRaw[i]), trkRaw))
  {
    var allRows := AllVehicleReliability(allRaw);
    assert forall i :: 0 <= i < |allRaw| ==> KeysOf(allRows)[i] == KeyOf(allRaw[i]);
    BucketAll(AlignTruck(KeysOf(allRows), trkRaw))
  }

  /** The truck result (data_int_trk): the truck feed aligned on the all-vehicle keys,
      buckets, then the 50th and 95th percentiles, all before any imputation. */
  function TruckReliability(allRaw: seq<Observation>, trkRaw: seq<Observation>): (r: seq<ReliabilityObservation>)
    ensures |r| == |allRaw|
    ensures forall i :: 0 <= i < |allRaw| ==> r[i].row == Bucket(AlignRow(KeyOf(allRaw[i]), trkRaw))
  {
    AddLottr(TruckBucketed(allRaw, trkRaw), TRUCK_Q1, TRUCK_Q2).value.rows
  }

  /** The truck feed has a travel time for key k. */
  ghost predicate TruckMeasured(trkRaw: seq<Observation>, k: Key) {
    exists j :: 0 <= j < |trkRaw| && KeyOf(trkRaw[j]) == k && trkRaw[j].ttSec.Some?
  }

  /** With unique all-vehicle keys, the second merge pairs all-vehicle row i with truck
      row i. */
  lemma JoinPairsRowsInOrder(allRaw: seq<Observation>, trkRaw: seq<Observation>)
    requires KeysUnique(allRaw, KeyOf)
    ensures |JoinTruck(AllVehicleReliability(allRaw), TruckReliability(allRaw, trkRaw))| == |allRaw|
    ensures forall i :: 0 <= i < |allRaw| ==>
              JoinTruck(AllVehicleReliability(allRaw), TruckReliability(allRaw, trkRaw))[i]
              == WideRow(AllVehicleReliability(allRaw)[i], Prefixed(TruckReliability(allRaw, trkRaw)[i]))
  {
    var allRows, trkRows := AllVehicleReliability(allRaw), TruckReliability(allRaw, trkRaw);
    forall i | 0 <= i < |allRaw|
      ensures RowKey(allRows[i]) == KeyOf(allRaw[i]) && RowKey(trkRows[i]) == KeyOf(allRaw[i])
    {
    }
    assert KeysUnique(trkRows, RowKey);
    forall i | 0 <= i < |allRaw|
      ensures JoinTruck(allRows, trkRows)[i] == WideRow(allRows[i], Prefixed(trkRows[i]))
    {
      JoinPairsRow(allRows, trkRows, i);
    }
  }

  /** One row of the pairing: with unique truck keys, a left row whose key is that of
      truck row i is joined with truck row i. */
  lemma JoinPairsRow(all: seq<ReliabilityObservation>, trk: seq<ReliabilityObservation>, i: int)
    requires KeysUnique(trk, RowKey) && 0 <= i < |all| && i < |trk|
    requires RowKey(all[i]) == RowKey(trk[i])
    ensures JoinTruck(all, trk)[i] == WideRow(all[i], Prefixed(trk[i]))
  {
    FindKeyUnique(trk, RowKey, i);
  }

  /** The measured truck columns of row i: FLAG's condition holds exactly when the truck
      feed has no travel time for the row's key, and otherwise the speed and travel time
      are those of the truck row with that key. */
  lemma TruckMeasurementOfRow(allRaw: seq<Observation>, trkRaw: seq<Observation>, i: int)
    requires KeysUnique(trkRaw, KeyOf) && 0 <= i < |allRaw|
    ensures |TruckReliability(allRaw, trkRaw)| == |allRaw|
    ensures var t := TruckReliability(allRaw, trkRaw)[i].row.obs;
            && (t.ttSec.None? <==> !TruckMeasured(trkRaw, KeyOf(allRaw[i])))
            && (t.ttSec.Some? ==> exists j :: 0 <= j < |trkRaw| && KeyOf(trkRaw[j]) == KeyOf(allRaw[i])
                                                && t.mph == trkRaw[j].mph && t.ttSec == trkRaw[j].ttSec)
  {
    var k := KeyOf(allRaw[i]);
    var t := AlignRow(k, trkRaw);
    if HasKey(trkRaw, KeyOf, k) {
      var j :| 0 <= j < |trkRaw| && trkRaw[j] == t;
      assert forall j' :: 0 <= j' < |trkRaw| && KeyOf(trkRaw[j']) == k ==> j' == j;
    }
  }

  /** The Interstate merge (data_int_merged): every all-vehicle row appears once, in
      order, with its own columns unchanged; FLAG is 1 exactly when the truck feed has no
      travel time for the row's key; flagged rows carry the all-vehicle speed and travel
      time as truck values, the others the measured truck values; the truck percentiles
      and LOTTR are those computed from the measured truck values alone. */
  method MergeInterstate(allRaw: seq<Observation>, trkRaw: seq<Observation>) returns (merged: seq<MergedObservation>)
    requires KeysUnique(allRaw, KeyOf) && KeysUnique(trkRaw, KeyOf)
    ensures |merged| == |allRaw|
    ensures forall i :: 0 <= i < |allRaw| ==> merged[i].all == AllVehicleReliability(allRaw)[i]
    ensures forall i :: 0 <= i < |allRaw| ==> merged[i].all.row == Bucket(allRaw[i])
    ensures forall i :: 0 <= i < |allRaw| ==> merged[i].flag == 0 || merged[i].flag == 1
    ensures forall i :: 0 <= i < |allRaw| ==> (merged[i].flag == 1 <==> !TruckMeasured(trkRaw, KeyOf(allRaw[i])))
    ensures forall i :: 0 <= i < |allRaw| && merged[i].flag == 1 ==>
              merged[i].trkMph == allRaw[i].mph && merged[i].trkTtSec == allRaw[i].ttSec
    ensures forall i :: 0 <= i < |allRaw| && merged[i].flag == 0 ==>
              exists j :: 0 <= j < |trkRaw| && KeyOf(trkRaw[j]) == KeyOf(allRaw[i])
                          && merged[i].trkMph == trkRaw[j].mph && merged[i].trkTtSec == trkRaw[j].ttSec
    ensures forall i :: 0 <= i < |allRaw| ==>
              && merged[i].trkTtq1p == TruckReliability(allRaw, trkRaw)[i].ttq1p
              && merged[i].trkTtq2p == TruckReliability(allRaw, trkRaw)[i].ttq2p
              && merged[i].trkLottr == TruckReliability(allRaw, trkRaw)[i].lottr
  {
    // data_int
    var allBucketed := AddTimeBuckets(allRaw);
    var allRows := AddLottr(allBucketed, ALL_VEHICLE_Q1, ALL_VEHICLE_Q2).value.rows;
    // data_int_trk
    var aligned := AlignTruck(KeysOf(allRows), trkRaw);
    var trkBucketed := AddTimeBuckets(aligned);
    var trkRows := AddLottr(trkBucketed, TRUCK_Q1, TRUCK_Q2).value.rows;
    // data_int_merged
    var joined := JoinTruck(allRows, trkRows);
    assert joined == JoinTruck(AllVehicleReliability(allRaw), TruckReliability(allRaw, trkRaw));
    JoinPairsRowsInOrder(allRaw, trkRaw);
    merged := FlagAndImpute(joined);
    forall i | 0 <= i < |allRaw|
      ensures var w := joined[i];
              && w.all == AllVehicleReliability(allRaw)[i] && w.all.row == Bucket(allRaw[i])
              && w.trk == Prefixed(TruckReliability(allRaw, trkRaw)[i])
              && (w.trk.ttSec.None? <==> !TruckMeasured(trkRaw, KeyOf(allRaw[i])))
              && (w.trk.ttSec.Some? ==> exists j :: 0 <= j < |trkRaw| && KeyOf(trkRaw[j]) == KeyOf(allRaw[i])
                                                    && w.trk.mph == trkRaw[j].mph && w.trk.ttSec == trkRaw[j].ttSec)
    {
      TruckMeasurementOfRow(allRaw, trkRaw, i);
    }
  }

  /** The dropped TRK_ key and bucket columns are copies of the all-vehicle ones. */
  lemma DroppedColumnsDuplicateAllVehicle(allRaw: seq<Observation>, trkRaw: seq<Observation>, i: int)
    requires KeysUnique(allRaw, KeyOf) && 0 <= i < |allRaw|
    ensures |JoinTruck(AllVehicleReliability(allRaw), TruckReliability(allRaw, trkRaw))| == |allRaw|
    ensures var w := JoinTruck(AllVehicleReliability(allRaw), TruckReliability(allRaw, trkRaw))[i];
            && w.trk.tmc == Some(w.all.row.obs.tmc) && w.trk.datetime == Some(w.all.row.obs.datetime)
            && w.trk.hod == Some(w.all.row.hod) && w.trk.dow == Some(w.all.row.dow) && w.trk.tod == Some(w.all.row.tod)
  {
    JoinPairsRowsInOrder(allRaw, trkRaw);
  }

  /** A row of the aligned truck feed is in the group of its all-vehicle row, and a
      measured one carries the travel time of a truck row with its key. */
  lemma MeasuredTruckRow(allRaw: seq<Observation>, trkRaw: seq<Observation>, j: int)
    requires 0 <= j < |allRaw|
    ensures |TruckBucketed(allRaw, trkRaw)| == |allRaw|
    ensures GroupOf(TruckBucketed(allRaw, trkRaw)[j]) == GroupOf(Bucket(allRaw[j]))
    ensures TruckBucketed(allRaw, trkRaw)[j].obs.ttSec.Some? ==>
              exists k :: 0 <= k < |trkRaw| && KeyOf(trkRaw[k]) == KeyOf(allRaw[j])
                          && trkRaw[k].ttSec == TruckBucketed(allRaw, trkRaw)[j].obs.ttSec
  {
    var t := AlignRow(KeyOf(allRaw[j]), trkRaw);
    if t.ttSec.Some? {
      assert HasKey(trkRaw, KeyOf, KeyOf(allRaw[j]));
      assert t in trkRaw;
      var k :| 0 <= k < |trkRaw| && trkRaw[k] == t;
    }
  }

  /** The truck percentiles are computed from measured truck travel times only: a
      present truck percentile of row i is the travel time of a truck row whose key is
      that of an all-vehicle row in the same (tmc_code, TOD) group as row i. */
  lemma TruckPercentilesFromMeasuredValues(allRaw: seq<Observation>, trkRaw: seq<Observation>, i: int)
    requires 0 <= i < |allRaw|
    ensures |TruckReliability(allRaw, trkRaw)| == |allRaw|
    ensures var r := TruckReliability(allRaw, trkRaw)[i];
            r.ttq1p.Some? ==>
              exists j, k :: 0 <= j < |allRaw| && 0 <= k < |trkRaw|
                             && GroupOf(Bucket(allRaw[j])) == GroupOf(Bucket(allRaw[i]))
                             && KeyOf(trkRaw[k]) == KeyOf(allRaw[j]) && trkRaw[k].ttSec == r.ttq1p
    ensures var r := TruckReliability(allRaw, trkRaw)[i];
            r.ttq2p.Some? ==>
              exists j, k :: 0 <= j < |allRaw| && 0 <= k < |trkRaw|
                             && GroupOf(Bucket(allRaw[j])) == GroupOf(Bucket(allRaw[i]))
                             && KeyOf(trkRaw[k]) == KeyOf(allRaw[j]) && trkRaw[k].ttSec == r.ttq2p
  {
    var data := TruckBucketed(allRaw, trkRaw);
    var r := TruckReliability(allRaw, trkRaw)[i];
    AddLottrPercentiles(data, TRUCK_Q1, TRUCK_Q2, i);
    if r.ttq1p.Some? {
      assert ObservedIn(data, GroupOf(data[i]), r.ttq1p.value);
      var j :| 0 <= j < |data| && GroupOf(data[j]) == GroupOf(data[i]) && data[j].obs.ttSec == r.ttq1p;
      MeasuredTruckRow(allRaw, trkRaw, j);
      MeasuredTruckRow(allRaw, trkRaw, i);
    }
    if r.ttq2p.Some? {
      assert ObservedIn(data, GroupOf(data[i]), r.ttq2p.value);
      var j :| 0 <= j < |data| && GroupOf(data[j]) == GroupOf(data[i]) && data[j].obs.ttSec == r.ttq2p;
      MeasuredTruckRow(allRaw, trkRaw, j);
      MeasuredTruckRow(allRaw, trkRaw, i);
    }
  }

  /** A truck row missing for segment X at a timestamp where the all-vehicle feed has
      55 mph and 120 s: the merged row is flagged and carries 55 mph and 120 s as truck
      values. */
  method MissingTruckRowExample() returns (merged: seq<MergedObservation>)
    ensures |merged| == 1 && merged[0].flag == 1
    ensures merged[0].trkMph == Some(55.0) && merged[0].trkTtSec == Some(120.0)
  {
    var t := DateTime(0, 0, 8);
    var allRaw := [Observation("X", t, Some(55.0), Some(120.0))];
    merged := MergeInterstate(allRaw, []);
  }
}
