/** The activity index of the station map: station records, grouping by
    start and end year, and the two sweeps over the years 1900..2015 that
    give, per year, the running number of stations and the running list of
    active stations (plotWeatherStations.js). */
module Stations {
  import opened Wrappers

  /** First year of the sweep. */
  const FirstYear: int := 1900
  /** Last year of the sweep; an END year equal to it means "still running". */
  const LastYear: int := 2015

  /** A row of the station table after the CSV row mapper. The map
      coordinates come from a floating-point projection and are not kept. */
  datatype Station = Station(id: string, name: string, startYear: int, endYear: int)

  /** The two record properties the code groups by. */
  datatype Property = StartYear | EndYear

  function Key(p: Property, s: Station): int
  {
    match p
    case StartYear => s.startYear
    case EndYear => s.endYear
  }

  predicate InRange(y: int)
  {
    FirstYear <= y <= LastYear
  }

  predicate Increasing(xs: seq<nat>)
  {
    forall j, k :: 0 <= j < k < |xs| ==> xs[j] < xs[k]
  }

  // ---------------------------------------------------------------------
  // Year extraction of the CSV row mapper: `+d.BEGIN.slice(0,4)`
  // ---------------------------------------------------------------------

  predicate IsDigit(c: char)
  {
    '0' <= c <= '9'
  }

  predicate AllDigits(s: string)
  {
    forall i :: 0 <= i < |s| ==> IsDigit(s[i])
  }

  /** Decimal value of a string of digits. */
  function DecimalValue(ds: string): (v: nat)
    requires AllDigits(ds)
    decreases |ds|
  {
    if |ds| == 0 then 0
    else 10 * DecimalValue(ds[..|ds| - 1]) + (ds[|ds| - 1] as int - '0' as int)
  }

  function Pow10(n: nat): nat
  {
    if n == 0 then 1 else 10 * Pow10(n - 1)
  }

  function Digit(d: int): char
    requires 0 <= d <= 9
  {
    ('0' as int + d) as char
  }

  /** The last `n` decimal digits of `v`, most significant first. */
  function DigitsOf(v: nat, n: nat): (ds: string)
    ensures |ds| == n && AllDigits(ds)
  {
    if n == 0 then [] else DigitsOf(v / 10, n - 1) + [Digit(v % 10)]
  }

  function Min(a: int, b: int): int
  {
    if a < b then a else b
  }

  function Max(a: int, b: int): int
  {
    if a < b then b else a
  }

  /** The year in the first four characters of a BEGIN/END date field.
      Unary plus turns the empty string into 0 and a string of digits into
      its value; every other prefix (signs, blanks, letters) is not
      modelled and yields None. */
  function YearOfDate(date: string): (r: Option<int>)
    ensures r.Some? <==> AllDigits(date[..Min(4, |date|)])
    ensures r.Some? ==> 0 <= r.value < 10000
    ensures r.Some? ==> r.value < Pow10(Min(4, |date|))
    ensures r.Some? ==> DigitsOf(r.value, Min(4, |date|)) == date[..Min(4, |date|)]
    ensures |date| == 0 ==> r == Some(0)
  {
    var prefix := date[..Min(4, |date|)];
    if AllDigits(prefix) then
      DecimalValueBound(prefix);
      DecimalValueDigits(prefix);
      Some(DecimalValue(prefix))
    else None
  }

  /** Writing the value of a digit string back with as many digits gives
      the string, leading zeros included. */
  lemma {:induction false} DecimalValueDigits(ds: string)
    requires AllDigits(ds)
    ensures DigitsOf(DecimalValue(ds), |ds|) == ds
    decreases |ds|
  {
    if |ds| > 0 {
      var init := ds[..|ds| - 1];
      var d := ds[|ds| - 1] as int - '0' as int;
      DecimalValueDigits(init);
      var v := DecimalValue(ds);
      assert v / 10 == DecimalValue(init) && v % 10 == d;
      assert ds == init + [Digit(d)];
    }
  }

  lemma {:induction false} DecimalValueBound(ds: string)
    requires AllDigits(ds)
    ensures DecimalValue(ds) < Pow10(|ds|)
    ensures |ds| <= 4 ==> DecimalValue(ds) < 10000
    decreases |ds|
  {
    if |ds| > 0 {
      DecimalValueBound(ds[..|ds| - 1]);
    }
    if |ds| <= 4 {
      Pow10Monotone(|ds|, 4);
      assert Pow10(4) == 10000 by {
        assert Pow10(1) == 10;
        assert Pow10(2) == 100;
        assert Pow10(3) == 1000;
      }
    }
  }

  lemma {:induction false} Pow10Monotone(m: nat, n: nat)
    requires m <= n
    ensures Pow10(m) <= Pow10(n)
    decreases n - m
  {
    if m < n {
      Pow10Monotone(m, n - 1);
    }
  }

  /** Reading back the last `n` digits of a number below 10^n gives the
      number. */
  lemma {:induction false} DigitsOfRoundTrip(v: nat, n: nat)
    requires v < Pow10(n)
    ensures DecimalValue(DigitsOf(v, n)) == v
    decreases n
  {
    if n > 0 {
      DigitsOfRoundTrip(v / 10, n - 1);
      var ds := DigitsOf(v, n);
      assert ds[..n - 1] == DigitsOf(v / 10, n - 1);
    }
  }

  /** A date written with a four-digit year followed by anything reads
      back as that year. */
  lemma YearOfDateRoundTrip(y: nat, rest: string)
    requires y < 10000
    ensures YearOfDate(DigitsOf(y, 4) + rest) == Some(y)
  {
    var date := DigitsOf(y, 4) + rest;
    assert date[..Min(4, |date|)] == DigitsOf(y, 4);
    assert Pow10(4) == 10000 by {
      assert Pow10(1) == 10;
      assert Pow10(2) == 100;
      assert Pow10(3) == 1000;
    }
    DigitsOfRoundTrip(y, 4);
  }

  /** The CSV row mapper: id, name and the two years of a station row. */
  function RowToStation(usaf: string, stationName: string, begin: string, end: string): (r: Option<Station>)
    ensures r.Some? <==> YearOfDate(begin).Some? && YearOfDate(end).Some?
    ensures r.Some? ==> r.value.id == usaf && r.value.name == stationName
    ensures r.Some? ==> r.value.startYear == YearOfDate(begin).value && r.value.endYear == YearOfDate(end).value
  {
    match (YearOfDate(begin), YearOfDate(end))
    case (Some(s), Some(e)) => Some(Station(usaf, stationName, s, e))
    case _ => None
  }

  // ---------------------------------------------------------------------
  // nestByProperty
  // ---------------------------------------------------------------------

  /** The stations whose property `p` equals `k`, as indices into `st`, in
      input order: one bucket of d3.nest. */
  function Nest(p: Property, st: seq<Station>, k: int): seq<nat>
    decreases |st|
  {
    if |st| == 0 then []
    else
      var n := |st| - 1;
      Nest(p, st[..n], k) + (if Key(p, st[n]) == k then [n] else [])
  }

  /** A bucket holds only indices of stations with that key, in
      increasing order. */
  lemma {:induction false} NestSound(p: Property, st: seq<Station>, k: int)
    ensures forall j :: 0 <= j < |Nest(p, st, k)| ==> Nest(p, st, k)[j] < |st| && Key(p, st[Nest(p, st, k)[j]]) == k
    ensures Increasing(Nest(p, st, k))
    decreases |st|
  {
    if |st| > 0 {
      var n := |st| - 1;
      var front := Nest(p, st[..n], k);
      NestSound(p, st[..n], k);
      var r := Nest(p, st, k);
      assert r == front + (if Key(p, st[n]) == k then [n] else []);
      forall j | 0 <= j < |front|
        ensures r[j] == front[j] && front[j] < n && st[front[j]] == st[..n][front[j]]
      {
      }
    }
  }

  /** Every station with that key is in the bucket. */
  lemma {:induction false} NestComplete(p: Property, st: seq<Station>, k: int, i: int)
    requires 0 <= i < |st| && Key(p, st[i]) == k
    ensures i in Nest(p, st, k)
    decreases |st|
  {
    var n := |st| - 1;
    if i < n {
      assert st[..n][i] == st[i];
      NestComplete(p, st[..n], k, i);
    }
  }

  /** A bucket holds exactly the indices of the stations with that key,
      each once and in increasing order. */
  lemma NestMembers(p: Property, st: seq<Station>, k: int)
    ensures forall i :: i in Nest(p, st, k) <==> 0 <= i < |st| && Key(p, st[i]) == k
    ensures Increasing(Nest(p, st, k))
  {
    NestSound(p, st, k);
    forall i | 0 <= i < |st| && Key(p, st[i]) == k
      ensures i in Nest(p, st, k)
    {
      NestComplete(p, st, k, i);
    }
  }

  /** `nestByProperty(property, weatherStations)`: d3.nest walks the
      stations in order and pushes each onto the bucket of its key, so
      every key present has a non-empty bucket and every bucket is the
      subsequence of stations with that key. */
  function NestByProperty(p: Property, st: seq<Station>): (m: map<int, seq<nat>>)
    ensures forall k :: k in m ==> |m[k]| > 0
    ensures forall k :: Bucket(m, k) == Nest(p, st, k)
    decreases |st|
  {
    if |st| == 0 then map[]
    else
      var n := |st| - 1;
      var m := NestByProperty(p, st[..n]);
      var key := Key(p, st[n]);
      NestPush(p, st, m);
      m[key := Bucket(m, key) + [n]]
  }

  /** Pushing the last station onto its key's bucket turns the buckets of
      all stations but the last into the buckets of all stations. */
  lemma NestPush(p: Property, st: seq<Station>, m: map<int, seq<nat>>)
    requires |st| > 0
    requires forall k :: k in m ==> |m[k]| > 0
    requires forall k :: Bucket(m, k) == Nest(p, st[..|st| - 1], k)
    ensures var pushed := m[Key(p, st[|st| - 1]) := Bucket(m, Key(p, st[|st| - 1])) + [|st| - 1]];
            && (forall k :: k in pushed ==> |pushed[k]| > 0)
            && (forall k :: Bucket(pushed, k) == Nest(p, st, k))
  {
    var n := |st| - 1;
    var key := Key(p, st[n]);
    var pushed := m[key := Bucket(m, key) + [n]];
    assert forall k :: k in pushed ==> |pushed[k]| > 0;
    forall k
      ensures Bucket(pushed, k) == Nest(p, st, k)
    {
      assert Nest(p, st, k) == Nest(p, st[..n], k) + (if key == k then [n] else []);
      if k != key {
        assert Bucket(pushed, k) == Bucket(m, k);
      }
    }
  }

  /** `m[y] || []`: the bucket of year `y`, empty when no station has it.
      The `year in m` guards of the sweeps behave the same way. */
  function Bucket(m: map<int, seq<nat>>, y: int): seq<nat>
  {
    if y in m then m[y] else []
  }

  /** Stations grouped by start year. */
  function StartedMap(st: seq<Station>): map<int, seq<nat>>
  {
    NestByProperty(StartYear, st)
  }

  /** Stations grouped by end year, with the 2015 bucket emptied: those
      stations have not ended. */
  function EndedMap(st: seq<Station>): (m: map<int, seq<nat>>)
    ensures LastYear in m && m[LastYear] == []
    ensures forall y :: y != LastYear ==> Bucket(m, y) == Nest(EndYear, st, y)
  {
    NestByProperty(EndYear, st)[LastYear := []]
  }

  // ---------------------------------------------------------------------
  // getNumberOfStations
  // ---------------------------------------------------------------------

  /** The value of `sum` once the loop body has run for the years
      FirstYear..y (y = FirstYear - 1 is the state before the loop). */
  function RunningCount(started: map<int, seq<nat>>, ended: map<int, seq<nat>>, y: int): int
    requires FirstYear - 1 <= y
    decreases y - FirstYear
  {
    if y == FirstYear - 1 then 0
    else RunningCount(started, ended, y - 1) + |Bucket(started, y)| - |Bucket(ended, y)|
  }

  /** `getNumberOfStations`: one entry per year of the range, no other. */
  function GetNumberOfStations(started: map<int, seq<nat>>, ended: map<int, seq<nat>>): (nStations: map<int, int>)
    ensures forall y :: y in nStations <==> InRange(y)
  {
    map y | FirstYear <= y <= LastYear :: RunningCount(started, ended, y)
  }

  /** Each year's count is the previous year's count (0 before the first
      year) plus the stations started and minus the stations ended in it. */
  lemma NumberOfStationsRecurrence(started: map<int, seq<nat>>, ended: map<int, seq<nat>>, y: int)
    requires InRange(y)
    ensures var nStations := GetNumberOfStations(started, ended);
            nStations[y] == (if y == FirstYear then 0 else nStations[y - 1]) + |Bucket(started, y)| - |Bucket(ended, y)|
  {
  }

  // ---------------------------------------------------------------------
  // getActiveStations
  // ---------------------------------------------------------------------

  /** `current.filter(d => ended.indexOf(d) === -1)`: the stations of
      `current` that are not in `ended`, in their order. */
  function RemoveEnded(current: seq<nat>, ended: seq<nat>): (r: seq<nat>)
    ensures |r| <= |current|
    decreases |current|
  {
    if |current| == 0 then []
    else
      var n := |current| - 1;
      RemoveEnded(current[..n], ended) + (if current[n] in ended then [] else [current[n]])
  }

  /** The filter keeps a station exactly when it is in `current` and not
      in `ended`. */
  lemma {:induction false} RemoveEndedMember(current: seq<nat>, ended: seq<nat>, d: nat)
    ensures d in RemoveEnded(current, ended) <==> d in current && d !in ended
    decreases |current|
  {
    if |current| > 0 {
      var n := |current| - 1;
      RemoveEndedMember(current[..n], ended, d);
      assert current == current[..n] + [current[n]];
    }
  }

  /** The value of `currentlyActiveStations` once the loop body has run for
      the years FirstYear..y: the year's starters are appended, then the
      year's enders are filtered out. */
  function RunningList(started: map<int, seq<nat>>, ended: map<int, seq<nat>>, y: int): seq<nat>
    requires FirstYear - 1 <= y
    decreases y - FirstYear
  {
    if y == FirstYear - 1 then []
    else RemoveEnded(RunningList(started, ended, y - 1) + Bucket(started, y), Bucket(ended, y))
  }

  /** `getActiveStations`: one snapshot per year of the range, no other. */
  function GetActiveStations(started: map<int, seq<nat>>, ended: map<int, seq<nat>>): (activeStations: map<int, seq<nat>>)
    ensures forall y :: y in activeStations <==> InRange(y)
  {
    map y | FirstYear <= y <= LastYear :: RunningList(started, ended, y)
  }

  /** Each year's snapshot is the previous year's (empty before the first
      year) with the year's starters appended and its enders removed. */
  lemma ActiveStationsRecurrence(started: map<int, seq<nat>>, ended: map<int, seq<nat>>, y: int)
    requires InRange(y)
    ensures var activeStations := GetActiveStations(started, ended);
            activeStations[y]
            == RemoveEnded((if y == FirstYear then [] else activeStations[y - 1]) + Bucket(started, y), Bucket(ended, y))
  {
    var activeStations := GetActiveStations(started, ended);
    var prev := RunningList(started, ended, y - 1);
    assert activeStations[y] == RemoveEnded(prev + Bucket(started, y), Bucket(ended, y));
    if y > FirstYear {
      assert activeStations[y - 1] == prev;
    }
  }

  // ---------------------------------------------------------------------
  // processData
  // ---------------------------------------------------------------------

  /** The two lookups the renderers read: count per year and active
      stations (as indices into the input) per year. */
  datatype ActivityIndex = ActivityIndex(nStations: map<int, int>, activeStations: map<int, seq<nat>>)

  /** `processData`: group by start and end year, empty the 2015 end
      bucket, run both sweeps. */
  function ProcessData(st: seq<Station>): (index: ActivityIndex)
    ensures forall y :: y in index.nStations <==> InRange(y)
    ensures forall y :: y in index.activeStations <==> InRange(y)
  {
    var started := StartedMap(st);
    var ended := EndedMap(st);
    ActivityIndex(GetNumberOfStations(started, ended), GetActiveStations(started, ended))
  }
}
