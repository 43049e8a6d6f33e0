/** The time bucketer: hour of day (HOD), day of week (DOW, Sunday = 1 ... Saturday = 7)
    and time-of-day period (TOD) of every observation. */
module TimeBucketer {
  import opened Types

  /** The time-of-day periods: evening and night, morning peak, midday, afternoon peak,
      weekend daytime. */
  datatype TimeOfDay = EV | AM | MD | PM | WE

  /** A row after the time bucketer: the observation unchanged, plus HOD, DOW and TOD. */
  datatype BucketedObservation = BucketedObservation(obs: Observation, hod: int, dow: int, tod: TimeOfDay)

  /** The weekday index plus two, with 8 replaced by 1, which numbers the days from
      Sunday = 1 to Saturday = 7. */
  function DayOfWeek(weekday: Weekday): (dow: int)
    ensures 1 <= dow <= 7
    ensures dow == (weekday + 1) % 7 + 1
  {
    var shifted := weekday + 2;
    if shifted == 8 then 1 else shifted
  }

  /** The days a time-of-day rule applies to: DOW in 2..6, or DOW in {1, 7}. */
  datatype DayClass = Weekdays | Weekend

  /** One masked assignment of the TOD column: rows whose HOD lies strictly between `lo`
      and `hi` and whose DOW is in `days` get `period`. */
  datatype Rule = Rule(lo: int, hi: int, days: DayClass, period: TimeOfDay)

  /** The four assignments, in the order they run; later ones overwrite earlier ones. */
  const Rules: seq<Rule> := [
    Rule(5, 10, Weekdays, AM),
    Rule(9, 16, Weekdays, MD),
    Rule(15, 20, Weekdays, PM),
    Rule(5, 20, Weekend, WE)
  ]

  predicate Matches(rule: Rule, hod: int, dow: int) {
    && rule.lo < hod < rule.hi
    && match rule.days
       case Weekdays => 2 <= dow <= 6
       case Weekend => dow == 1 || dow == 7
  }

  /** The period a row holds after the masked assignments of `rules` have run, in order,
      over a column that started as `init`. */
  function ApplyRules(rules: seq<Rule>, init: TimeOfDay, hod: int, dow: int): (tod: TimeOfDay)
    ensures (forall k :: 0 <= k < |rules| ==> !Matches(rules[k], hod, dow)) ==> tod == init
    ensures forall k :: 0 <= k < |rules| && Matches(rules[k], hod, dow)
                        && (forall k' :: k < k' < |rules| ==> !Matches(rules[k'], hod, dow))
                        ==> tod == rules[k].period
  {
    if rules == [] then init
    else
      var front, last := rules[..|rules| - 1], rules[|rules| - 1];
      var before := ApplyRules(front, init, hod, dow);
      assert forall k :: 0 <= k < |front| ==> front[k] == rules[k];
      if Matches(last, hod, dow) then last.period else before
  }

  /** The TOD a row gets: the column starts as EV and the four rules overwrite it. The
      result is the closed-form table of the periods. */
  function TimeOfDayOf(hod: int, dow: int): (tod: TimeOfDay)
    ensures tod == AM <==> 2 <= dow <= 6 && 6 <= hod <= 9
    ensures tod == MD <==> 2 <= dow <= 6 && 10 <= hod <= 15
    ensures tod == PM <==> 2 <= dow <= 6 && 16 <= hod <= 19
    ensures tod == WE <==> (dow == 1 || dow == 7) && 6 <= hod <= 19
    ensures tod == EV <==> !(1 <= dow <= 7 && 6 <= hod <= 19)
  {
    assert Rules[..4][..3] == Rules[..3] && Rules[..3][..2] == Rules[..2];
    assert Rules[..2][..1] == Rules[..1] && Rules[..1][..0] == [] && Rules[..4] == Rules;
    assert ApplyRules(Rules[..1], EV, hod, dow) == if Matches(Rules[0], hod, dow) then AM else EV;
    assert ApplyRules(Rules[..2], EV, hod, dow)
        == if Matches(Rules[1], hod, dow) then MD else ApplyRules(Rules[..1], EV, hod, dow);
    assert ApplyRules(Rules[..3], EV, hod, dow)
        == if Matches(Rules[2], hod, dow) then PM else ApplyRules(Rules[..2], EV, hod, dow);
    assert ApplyRules(Rules, EV, hod, dow)
        == if Matches(Rules[3], hod, dow) then WE else ApplyRules(Rules[..3], EV, hod, dow);
    ApplyRules(Rules, EV, hod, dow)
  }

  /** No two different rules of `rules` match the same hour and day. */
  ghost predicate Disjoint(rules: seq<Rule>) {
    forall r1, r2, hod, dow ::
      r1 in rules && r2 in rules && Matches(r1, hod, dow) && Matches(r2, hod, dow) ==> r1 == r2
  }

  lemma RulesDisjoint()
    ensures Disjoint(Rules)
  {
    forall r1, r2, hod, dow | r1 in Rules && r2 in Rules && Matches(r1, hod, dow) && Matches(r2, hod, dow)
      ensures r1 == r2
    {
    }
  }

  /** Disjoint masked assignments leave the period of the one rule that matches, or the
      initial period when none matches. */
  lemma {:induction false} ApplyDisjointRules(rules: seq<Rule>, init: TimeOfDay, hod: int, dow: int)
    requires Disjoint(rules)
    ensures forall r :: r in rules && Matches(r, hod, dow) ==> ApplyRules(rules, init, hod, dow) == r.period
    ensures (forall r :: r in rules ==> !Matches(r, hod, dow)) ==> ApplyRules(rules, init, hod, dow) == init
  {
    if rules != [] {
      var front, last := rules[..|rules| - 1], rules[|rules| - 1];
      assert rules == front + [last];
      assert forall r :: r in front ==> r in rules;
      ApplyDisjointRules(front, init, hod, dow);
    }
  }

  /** The order of the four assignments does not matter: running them in any order, with
      any repetition, gives the same period. */
  lemma OverwriteOrderIrrelevant(rules: seq<Rule>, hod: int, dow: int)
    requires forall r :: r in rules <==> r in Rules
    ensures ApplyRules(rules, EV, hod, dow) == TimeOfDayOf(hod, dow)
  {
    RulesDisjoint();
    assert Disjoint(rules);
    ApplyDisjointRules(rules, EV, hod, dow);
    ApplyDisjointRules(Rules, EV, hod, dow);
  }

  /** The bucketed row of one observation. */
  function Bucket(o: Observation): (b: BucketedObservation)
    ensures b.obs == o && b.hod == o.datetime.hour
    ensures b.dow == (o.datetime.weekday + 1) % 7 + 1
    ensures b.tod == TimeOfDayOf(b.hod, b.dow)
  {
    var dow := DayOfWeek(o.datetime.weekday);
    BucketedObservation(o, o.datetime.hour, dow, TimeOfDayOf(o.datetime.hour, dow))
  }

  /** The bucketed rows of a data frame, in order. */
  function BucketAll(data: seq<Observation>): (r: seq<BucketedObservation>)
    ensures |r| == |data|
    ensures forall i :: 0 <= i < |data| ==>
              && r[i].obs == data[i] && r[i].hod == data[i].datetime.hour
              && r[i].dow == DayOfWeek(data[i].datetime.weekday) && r[i].tod == TimeOfDayOf(r[i].hod, r[i].dow)
  {
    seq(|data|, i requires 0 <= i < |data| => Bucket(data[i]))
  }

  /** The masked assignment `data.loc[mask, 'TOD'] = rule.period`, where the mask holds on
      the rows that `rule` matches. */
  method AssignWhere(tod: array<TimeOfDay>, hod: array<int>, dow: array<int>, rule: Rule)
    requires tod.Length == hod.Length == dow.Length
    modifies tod
    ensures forall j :: 0 <= j < tod.Length ==>
              tod[j] == if Matches(rule, hod[j], dow[j]) then rule.period else old(tod[j])
  {
    for i := 0 to tod.Length
      invariant forall j :: 0 <= j < i ==>
                  tod[j] == if Matches(rule, hod[j], dow[j]) then rule.period else old(tod[j])
      invariant forall j :: i <= j < tod.Length ==> tod[j] == old(tod[j])
    {
      if Matches(rule, hod[i], dow[i]) {
        tod[i] := rule.period;
      }
    }
  }

  /** Adds the HOD, DOW and TOD columns to a copy of the data: HOD and DOW are computed
      per row, TOD starts as EV everywhere and the four rules overwrite it in order. */
  method AddTimeBuckets(data: seq<Observation>) returns (r: seq<BucketedObservation>)
    ensures r == BucketAll(data)
    ensures |r| == |data|
    ensures forall i :: 0 <= i < |data| ==> r[i].obs == data[i] && 0 <= r[i].hod <= 23 && 1 <= r[i].dow <= 7
  {
    var n := |data|;
    var hod := new int[n];
    var dow := new int[n];
    for i := 0 to n
      invariant forall j :: 0 <= j < i ==>
                  hod[j] == data[j].datetime.hour && dow[j] == DayOfWeek(data[j].datetime.weekday)
    {
      hod[i] := data[i].datetime.hour;
      dow[i] := DayOfWeek(data[i].datetime.weekday);
    }
    var tod := new TimeOfDay[n](_ => EV);
    for k := 0 to |Rules|
      invariant forall j :: 0 <= j < n ==>
                  hod[j] == data[j].datetime.hour && dow[j] == DayOfWeek(data[j].datetime.weekday)
      invariant forall j :: 0 <= j < n ==> tod[j] == ApplyRules(Rules[..k], EV, hod[j], dow[j])
    {
      AssignWhere(tod, hod, dow, Rules[k]);
      assert Rules[..k + 1][..k] == Rules[..k];
    }
    assert Rules[..|Rules|] == Rules;
    r := seq(n, j requires 0 <= j < n reads hod, dow, tod => BucketedObservation(data[j], hod[j], dow[j], tod[j]));
  }
}
