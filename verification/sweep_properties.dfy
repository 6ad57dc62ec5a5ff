/** What the two sweeps of the activity index compute, stated per station
    and per year: which stations are in a year's list and in which order,
    the closed form of the running count, and the condition on start and
    end years under which the count is the length of the list. */
module SweepProperties {
  import opened Stations

  // ---------------------------------------------------------------------
  // Reference definitions
  // ---------------------------------------------------------------------

  /** The sweep has filtered station `s` out by the end of year `y`: its END
      year is not the ongoing sentinel and lies between its start and `y`.
      An END before the start is never seen, because the station is not
      in the list yet when its END year is swept. */
  predicate EndedBy(s: Station, y: int)
  {
    s.endYear != LastYear && s.startYear <= s.endYear <= y
  }

  /** Station `s` is in the list of year `y`: it started inside the sweep
      no later than `y` and has not been filtered out. */
  predicate ActiveIn(s: Station, y: int)
  {
    FirstYear <= s.startYear <= y && !EndedBy(s, y)
  }

  /** Station `a` comes before station `b` in a list: earlier start year,
      or the same start year and earlier in the input. */
  predicate Precedes(st: seq<Station>, a: nat, b: nat)
    requires a < |st| && b < |st|
  {
    st[a].startYear < st[b].startYear || (st[a].startYear == st[b].startYear && a < b)
  }

  /** `list` holds stations of `st`, listed by start year and then by input
      position; in particular no station occurs twice. */
  predicate Ordered(st: seq<Station>, list: seq<nat>)
  {
    && (forall j :: 0 <= j < |list| ==> list[j] < |st|)
    && (forall j, k :: 0 <= j < k < |list| ==> list[j] < |st| && list[k] < |st| && Precedes(st, list[j], list[k]))
  }

  predicate Distinct(xs: seq<nat>)
  {
    forall j, k :: 0 <= j < k < |xs| ==> xs[j] != xs[k]
  }

  function Elems(xs: seq<nat>): set<nat>
  {
    set x | x in xs
  }

  /** The number of stations whose property `p` lies in [lo, hi]. */
  function CountWithin(p: Property, st: seq<Station>, lo: int, hi: int): nat
    decreases |st|
  {
    if |st| == 0 then 0
    else CountWithin(p, st[..|st| - 1], lo, hi) + (if lo <= Key(p, st[|st| - 1]) <= hi then 1 else 0)
  }

  /** Every start year inside the sweep and no later than the end year:
      the data condition under which count and list agree. */
  predicate WellFormed(st: seq<Station>)
  {
    forall i :: 0 <= i < |st| ==> FirstYear <= st[i].startYear <= st[i].endYear
  }

  // ---------------------------------------------------------------------
  // The reference definition, one station at a time
  // ---------------------------------------------------------------------

  /** One year of the sweep for one station: it is active in `y` when it
      was active the year before or starts in `y`, unless it ends in `y`
      (an END of 2015 not counting). */
  lemma ActiveStep(s: Station, y: int)
    requires FirstYear <= y
    ensures ActiveIn(s, y) <==> (ActiveIn(s, y - 1) || s.startYear == y) && !(s.endYear == y && y != LastYear)
  {
  }

  /** A station the sweep ends in `y` that started earlier, no later than
      it ends, was active the year before. */
  lemma EnderWasActive(s: Station, y: int)
    requires FirstYear <= s.startYear < y
    requires s.endYear == y && y != LastYear
    ensures ActiveIn(s, y - 1)
  {
  }

  lemma IntervalActive(s: Station, y: int)
    requires FirstYear <= s.startYear < s.endYear && s.endYear != LastYear
    ensures ActiveIn(s, y) <==> s.startYear <= y < s.endYear
  {
  }

  lemma OngoingActive(s: Station, y: int)
    requires s.endYear == LastYear || s.endYear < s.startYear
    ensures ActiveIn(s, y) <==> FirstYear <= s.startYear <= y
  {
  }

  lemma NeverActiveStation(s: Station, y: int)
    requires || s.startYear < FirstYear
             || s.startYear > LastYear
             || (s.startYear == s.endYear && s.endYear != LastYear)
    requires y <= LastYear
    ensures !ActiveIn(s, y)
  {
  }

  // ---------------------------------------------------------------------
  // Buckets of the grouped stations
  // ---------------------------------------------------------------------

  /** Bucket `y` of `started` holds exactly the stations of `st` starting
      in `y`, in input order. */
  ghost predicate StartBucket(st: seq<Station>, started: map<int, seq<nat>>, y: int)
  {
    && (forall i :: i in Bucket(started, y) <==> 0 <= i < |st| && st[i].startYear == y)
    && Increasing(Bucket(started, y))
  }

  /** Bucket `y` of `ended` holds exactly the stations of `st` ending in
      `y`, in input order, except that nothing ends in 2015. */
  ghost predicate EndBucket(st: seq<Station>, ended: map<int, seq<nat>>, y: int)
  {
    && (forall i :: i in Bucket(ended, y) <==> 0 <= i < |st| && st[i].endYear == y && y != LastYear)
    && Increasing(Bucket(ended, y))
  }

  /** `started` groups the stations by start year and `ended` by end year. */
  ghost predicate Grouped(st: seq<Station>, started: map<int, seq<nat>>, ended: map<int, seq<nat>>)
  {
    forall y :: StartBucket(st, started, y) && EndBucket(st, ended, y)
  }

  lemma StartedBucket(st: seq<Station>, y: int)
    ensures Bucket(StartedMap(st), y) == Nest(StartYear, st, y)
    ensures forall i :: i in Bucket(StartedMap(st), y) <==> 0 <= i < |st| && st[i].startYear == y
    ensures Increasing(Bucket(StartedMap(st), y))
  {
    NestMembers(StartYear, st, y);
  }

  lemma EndedBucket(st: seq<Station>, y: int)
    ensures forall i :: i in Bucket(EndedMap(st), y) <==> 0 <= i < |st| && st[i].endYear == y && y != LastYear
    ensures Increasing(Bucket(EndedMap(st), y))
  {
    if y != LastYear {
      assert Bucket(EndedMap(st), y) == Nest(EndYear, st, y);
      NestMembers(EndYear, st, y);
    }
  }

  /** The grouping by start year and the grouping by end year with the 2015
      bucket emptied meet the two bucket specifications. */
  lemma GroupedBuckets(st: seq<Station>)
    ensures Grouped(st, StartedMap(st), EndedMap(st))
  {
    forall y
      ensures StartBucket(st, StartedMap(st), y) && EndBucket(st, EndedMap(st), y)
    {
      StartedBucket(st, y);
      EndedBucket(st, y);
    }
  }

  // ---------------------------------------------------------------------
  // Order and distinctness
  // ---------------------------------------------------------------------

  lemma OrderedIsDistinct(st: seq<Station>, list: seq<nat>)
    requires Ordered(st, list)
    ensures Distinct(list)
  {
  }

  lemma StartersOrdered(st: seq<Station>, started: map<int, seq<nat>>, y: int)
    requires StartBucket(st, started, y)
    ensures Ordered(st, Bucket(started, y))
  {
    var b := Bucket(started, y);
    forall j | 0 <= j < |b|
      ensures b[j] < |st| && st[b[j]].startYear == y
    {
      assert b[j] in b;
    }
  }

  lemma AppendOrdered(st: seq<Station>, a: seq<nat>, b: seq<nat>)
    requires Ordered(st, a) && Ordered(st, b)
    requires forall j, k :: 0 <= j < |a| && 0 <= k < |b| ==> Precedes(st, a[j], b[k])
    ensures Ordered(st, a + b)
  {
    var c := a + b;
    forall j, k | 0 <= j < k < |c|
      ensures c[j] < |st| && c[k] < |st| && Precedes(st, c[j], c[k])
    {
      if k < |a| {
        assert c[j] == a[j] && c[k] == a[k];
      } else if j < |a| {
        assert c[j] == a[j] && c[k] == b[k - |a|];
      } else {
        assert c[j] == b[j - |a|] && c[k] == b[k - |a|];
      }
    }
  }

  lemma {:induction false} RemoveEndedKeepsOrder(st: seq<Station>, current: seq<nat>, ended: seq<nat>)
    requires Ordered(st, current)
    ensures Ordered(st, RemoveEnded(current, ended))
    decreases |current|
  {
    if |current| > 0 {
      var n := |current| - 1;
      var front := current[..n];
      assert Ordered(st, front);
      RemoveEndedKeepsOrder(st, front, ended);
      var kept := RemoveEnded(front, ended);
      if current[n] !in ended {
        forall j | 0 <= j < |kept|
          ensures Precedes(st, kept[j], current[n])
        {
          RemoveEndedMember(front, ended, kept[j]);
          assert kept[j] in front;
          var m :| 0 <= m < n && front[m] == kept[j];
          assert current[m] == kept[j];
        }
        AppendOrdered(st, kept, [current[n]]);
      }
    }
  }

  lemma {:induction false} RemoveEndedKeepsDistinct(current: seq<nat>, ended: seq<nat>)
    requires Distinct(current)
    ensures Distinct(RemoveEnded(current, ended))
    decreases |current|
  {
    if |current| > 0 {
      var n := |current| - 1;
      assert Distinct(current[..n]);
      RemoveEndedKeepsDistinct(current[..n], ended);
      RemoveEndedMember(current[..n], ended, current[n]);
      assert current[n] !in current[..n];
    }
  }

  lemma {:induction false} DistinctCard(xs: seq<nat>)
    requires Distinct(xs)
    ensures |Elems(xs)| == |xs|
    decreases |xs|
  {
    if |xs| > 0 {
      var n := |xs| - 1;
      assert Distinct(xs[..n]);
      DistinctCard(xs[..n]);
      assert Elems(xs) == Elems(xs[..n]) + {xs[n]};
      assert xs[n] !in Elems(xs[..n]);
    }
  }

  /** Filtering out a list of distinct stations that are all present
      shortens a list of distinct stations by exactly that many. */
  lemma RemoveEndedLength(current: seq<nat>, ended: seq<nat>)
    requires Distinct(current) && Distinct(ended)
    requires forall x :: x in ended ==> x in current
    ensures |RemoveEnded(current, ended)| == |current| - |ended|
  {
    var r := RemoveEnded(current, ended);
    RemoveEndedKeepsDistinct(current, ended);
    DistinctCard(current);
    DistinctCard(ended);
    DistinctCard(r);
    forall d | d in current || d in r
      ensures d in r <==> d in current && d !in ended
    {
      RemoveEndedMember(current, ended, d);
    }
    assert Elems(r) == Elems(current) - Elems(ended);
    assert Elems(ended) <= Elems(current);
    assert Elems(current) == Elems(r) + Elems(ended);
    assert Elems(r) * Elems(ended) == {};
  }

  // ---------------------------------------------------------------------
  // The running list
  // ---------------------------------------------------------------------

  /** One year of the sweep for one station: if `prev` holds it exactly
      when it was active the year before, appending the year's starters and
      filtering out the year's enders holds it exactly when it is active in
      `y`. */
  lemma SweepStepMember(st: seq<Station>, prev: seq<nat>, starters: seq<nat>, enders: seq<nat>, y: int, i: nat)
    requires FirstYear <= y
    requires i in prev <==> i < |st| && ActiveIn(st[i], y - 1)
    requires i in starters <==> i < |st| && st[i].startYear == y
    requires i in enders <==> i < |st| && st[i].endYear == y && y != LastYear
    ensures i in RemoveEnded(prev + starters, enders) <==> i < |st| && ActiveIn(st[i], y)
  {
    RemoveEndedMember(prev + starters, enders, i);
    assert i in prev + starters <==> i in prev || i in starters;
    if i < |st| {
      ActiveStep(st[i], y);
    }
  }

  /** After the years FirstYear..y, station `i` is in the running list
      exactly when it is active in `y`. */
  lemma {:induction false} RunningListMember(st: seq<Station>, started: map<int, seq<nat>>, ended: map<int, seq<nat>>, y: int, i: nat)
    requires Grouped(st, started, ended)
    requires FirstYear - 1 <= y
    ensures i in RunningList(started, ended, y) <==> i < |st| && ActiveIn(st[i], y)
    decreases y - FirstYear
  {
    if y >= FirstYear {
      RunningListMember(st, started, ended, y - 1, i);
      assert StartBucket(st, started, y) && EndBucket(st, ended, y);
      SweepStepMember(st, RunningList(started, ended, y - 1), Bucket(started, y), Bucket(ended, y), y, i);
    }
  }

  /** Every station in the list of the year before started before `y`, so
      appending the starters of `y` keeps the list ordered. */
  lemma SweepStepOrdered(st: seq<Station>, started: map<int, seq<nat>>, ended: map<int, seq<nat>>, y: int)
    requires Grouped(st, started, ended)
    requires FirstYear <= y
    requires Ordered(st, RunningList(started, ended, y - 1))
    ensures Ordered(st, RunningList(started, ended, y - 1) + Bucket(started, y))
  {
    var prev := RunningList(started, ended, y - 1);
    var b := Bucket(started, y);
    assert StartBucket(st, started, y);
    StartersOrdered(st, started, y);
    forall j, k | 0 <= j < |prev| && 0 <= k < |b|
      ensures Precedes(st, prev[j], b[k])
    {
      RunningListMember(st, started, ended, y - 1, prev[j]);
      assert b[k] in b;
    }
    AppendOrdered(st, prev, b);
  }

  /** The running list is ordered by start year, ties in input order. */
  lemma {:induction false} RunningListOrdered(st: seq<Station>, started: map<int, seq<nat>>, ended: map<int, seq<nat>>, y: int)
    requires Grouped(st, started, ended)
    requires FirstYear - 1 <= y
    ensures Ordered(st, RunningList(started, ended, y))
    decreases y - FirstYear
  {
    if y >= FirstYear {
      RunningListOrdered(st, started, ended, y - 1);
      SweepStepOrdered(st, started, ended, y);
      RemoveEndedKeepsOrder(st, RunningList(started, ended, y - 1) + Bucket(started, y), Bucket(ended, y));
    }
  }

  /** On well-formed stations, every station a year ends was in the list
      of the year before or starts in that year. */
  lemma EndersPresent(st: seq<Station>, started: map<int, seq<nat>>, ended: map<int, seq<nat>>, y: int)
    requires Grouped(st, started, ended) && WellFormed(st)
    requires FirstYear <= y
    ensures forall x :: x in Bucket(ended, y) ==> x in RunningList(started, ended, y - 1) + Bucket(started, y)
  {
    forall x | x in Bucket(ended, y)
      ensures x in RunningList(started, ended, y - 1) + Bucket(started, y)
    {
      assert StartBucket(st, started, y) && EndBucket(st, ended, y);
      if st[x].startYear < y {
        EnderWasActive(st[x], y);
        RunningListMember(st, started, ended, y - 1, x);
      }
    }
  }

  /** When every station starts inside the sweep and no later than it
      ends, the running list is as long as the running count. */
  lemma {:induction false} RunningLength(st: seq<Station>, started: map<int, seq<nat>>, ended: map<int, seq<nat>>, y: int)
    requires Grouped(st, started, ended)
    requires WellFormed(st)
    requires FirstYear - 1 <= y
    ensures |RunningList(started, ended, y)| == RunningCount(started, ended, y)
    decreases y - FirstYear
  {
    if y >= FirstYear {
      RunningLength(st, started, ended, y - 1);
      var prev := RunningList(started, ended, y - 1);
      RunningListOrdered(st, started, ended, y - 1);
      SweepStepOrdered(st, started, ended, y);
      assert EndBucket(st, ended, y);
      OrderedIsDistinct(st, prev + Bucket(started, y));
      EndersPresent(st, started, ended, y);
      RemoveEndedLength(prev + Bucket(started, y), Bucket(ended, y));
    }
  }

  // ---------------------------------------------------------------------
  // The running count
  // ---------------------------------------------------------------------

  lemma {:induction false} NestLength(p: Property, st: seq<Station>, k: int)
    ensures |Nest(p, st, k)| == CountWithin(p, st, k, k)
    decreases |st|
  {
    if |st| > 0 {
      NestLength(p, st[..|st| - 1], k);
    }
  }

  lemma {:induction false} CountWithinSplit(p: Property, st: seq<Station>, lo: int, hi: int)
    requires lo <= hi
    ensures CountWithin(p, st, lo, hi) == CountWithin(p, st, lo, hi - 1) + CountWithin(p, st, hi, hi)
    decreases |st|
  {
    if |st| > 0 {
      CountWithinSplit(p, st[..|st| - 1], lo, hi);
    }
  }

  lemma {:induction false} CountWithinEmpty(p: Property, st: seq<Station>, lo: int, hi: int)
    requires hi < lo
    ensures CountWithin(p, st, lo, hi) == 0
    decreases |st|
  {
    if |st| > 0 {
      CountWithinEmpty(p, st[..|st| - 1], lo, hi);
    }
  }

  /** After the years FirstYear..y, the running count is the number of
      stations started in FirstYear..y minus the number that ended in
      FirstYear..y, an END of 2015 not counting as an end. */
  lemma {:induction false} RunningCountClosedForm(st: seq<Station>, y: int)
    requires FirstYear - 1 <= y <= LastYear
    ensures RunningCount(StartedMap(st), EndedMap(st), y)
         == CountWithin(StartYear, st, FirstYear, y) - CountWithin(EndYear, st, FirstYear, Min(y, LastYear - 1))
    decreases y - FirstYear
  {
    if y == FirstYear - 1 {
      CountWithinEmpty(StartYear, st, FirstYear, y);
      CountWithinEmpty(EndYear, st, FirstYear, y);
    } else {
      RunningCountClosedForm(st, y - 1);
      StartedBucket(st, y);
      NestLength(StartYear, st, y);
      CountWithinSplit(StartYear, st, FirstYear, y);
      if y == LastYear {
        assert Bucket(EndedMap(st), y) == [];
      } else {
        assert Bucket(EndedMap(st), y) == Nest(EndYear, st, y);
        NestLength(EndYear, st, y);
        CountWithinSplit(EndYear, st, FirstYear, y);
      }
    }
  }

  // ---------------------------------------------------------------------
  // Properties of processData's result
  // ---------------------------------------------------------------------

  lemma ActiveStationsAt(st: seq<Station>, y: int)
    requires InRange(y)
    ensures ProcessData(st).activeStations[y] == RunningList(StartedMap(st), EndedMap(st), y)
    ensures ProcessData(st).nStations[y] == RunningCount(StartedMap(st), EndedMap(st), y)
  {
  }

  /** Station `i` is in the list of year `y` exactly when it started inside
      the sweep by `y` and has not been filtered out by `y`. */
  lemma ActiveMembership(st: seq<Station>, y: int, i: nat)
    requires InRange(y)
    ensures i in ProcessData(st).activeStations[y] <==> i < |st| && ActiveIn(st[i], y)
  {
    ActiveStationsAt(st, y);
    GroupedBuckets(st);
    RunningListMember(st, StartedMap(st), EndedMap(st), y, i);
  }

  /** Each year's list is ordered by start year, ties in input order, and
      holds no station twice. */
  lemma ActiveOrder(st: seq<Station>, y: int)
    requires InRange(y)
    ensures Ordered(st, ProcessData(st).activeStations[y])
    ensures Distinct(ProcessData(st).activeStations[y])
  {
    ActiveStationsAt(st, y);
    GroupedBuckets(st);
    RunningListOrdered(st, StartedMap(st), EndedMap(st), y);
    OrderedIsDistinct(st, ProcessData(st).activeStations[y]);
  }

  /** A station with a proper interval inside the sweep is listed exactly
      in the years from its start up to, not including, its end. */
  lemma ActiveInterval(st: seq<Station>, i: nat, y: int)
    requires i < |st| && InRange(y)
    requires FirstYear <= st[i].startYear < st[i].endYear && st[i].endYear != LastYear
    ensures i in ProcessData(st).activeStations[y] <==> st[i].startYear <= y < st[i].endYear
  {
    IntervalActive(st[i], y);
    ActiveMembership(st, y, i);
  }

  /** A station whose END is 2015 is never filtered out: it is listed in
      every year from its start, when that is inside the sweep, to 2015. */
  lemma OngoingStation(st: seq<Station>, i: nat, y: int)
    requires i < |st| && InRange(y)
    requires st[i].endYear == LastYear
    ensures i in ProcessData(st).activeStations[y] <==> FirstYear <= st[i].startYear <= y
  {
    OngoingActive(st[i], y);
    ActiveMembership(st, y, i);
  }

  /** A station starting before or after the sweep, or ending (not in
      2015) in the year it starts, is in no year's list. */
  lemma NeverActive(st: seq<Station>, i: nat, y: int)
    requires i < |st| && InRange(y)
    requires || st[i].startYear < FirstYear
             || st[i].startYear > LastYear
             || (st[i].startYear == st[i].endYear && st[i].endYear != LastYear)
    ensures i !in ProcessData(st).activeStations[y]
  {
    NeverActiveStation(st[i], y);
    ActiveMembership(st, y, i);
  }

  /** A station whose END precedes its start is never filtered out: once
      started inside the sweep it is listed through 2015. */
  lemma EndBeforeStartNeverRemoved(st: seq<Station>, i: nat, y: int)
    requires i < |st| && InRange(y)
    requires st[i].endYear < st[i].startYear
    ensures i in ProcessData(st).activeStations[y] <==> FirstYear <= st[i].startYear <= y
  {
    OngoingActive(st[i], y);
    ActiveMembership(st, y, i);
  }

  /** Closed form of `nStations`: stations started in FirstYear..y minus
      stations that ended in FirstYear..y, an END of 2015 not counting. */
  lemma NumberOfStationsClosedForm(st: seq<Station>, y: int)
    requires InRange(y)
    ensures ProcessData(st).nStations[y]
         == CountWithin(StartYear, st, FirstYear, y) - CountWithin(EndYear, st, FirstYear, Min(y, LastYear - 1))
  {
    ActiveStationsAt(st, y);
    RunningCountClosedForm(st, y);
  }

  /** When every station starts inside the sweep and no later than it
      ends, the count of a year is the length of that year's list. */
  lemma CountMatchesLength(st: seq<Station>, y: int)
    requires WellFormed(st) && InRange(y)
    ensures ProcessData(st).nStations[y] == |ProcessData(st).activeStations[y]|
  {
    ActiveStationsAt(st, y);
    GroupedBuckets(st);
    RunningLength(st, StartedMap(st), EndedMap(st), y);
  }

  /** Without `WellFormed` the two disagree: a station recorded as ending
      in 1950 but starting in 1960 is subtracted in 1950, so that year's
      count is negative, while no list has a negative length. */
  lemma CountCanBeNegative()
    ensures ProcessData([Station("A", "A", 1960, 1950)]).nStations[1950] == -1
  {
    var st := [Station("A", "A", 1960, 1950)];
    NumberOfStationsClosedForm(st, 1950);
    assert st[..0] == [];
  }
}
