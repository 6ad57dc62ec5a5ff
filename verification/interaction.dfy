/** The two control rules of the station map's interaction code
    (plotWeatherStations.js): the clamp that turns a mouse position on the
    line plot into a year, and the animation that walks the year cursor
    through the sweep one step per timer tick. */
module Interaction {
  import opened Wrappers
  import opened Stations

  // ---------------------------------------------------------------------
  // mouseToYear
  // ---------------------------------------------------------------------

  /** `Math.min(2015, Math.max(1900, year))` applied to the already rounded
      year under the mouse; the inverse scale and the rounding are floating
      point and happen before this. */
  function MouseToYear(rounded: int): (year: int)
    ensures InRange(year)
    ensures InRange(rounded) ==> year == rounded
    ensures rounded < FirstYear ==> year == FirstYear
    ensures rounded > LastYear ==> year == LastYear
  {
    Min(LastYear, Max(FirstYear, rounded))
  }

  /** Clamping a clamped year changes nothing. */
  lemma MouseToYearIdempotent(rounded: int)
    ensures MouseToYear(MouseToYear(rounded)) == MouseToYear(rounded)
  {
  }

  /** Moving the mouse to the right never moves the year back. */
  lemma MouseToYearMonotone(a: int, b: int)
    requires a <= b
    ensures MouseToYear(a) <= MouseToYear(b)
  {
  }

  // ---------------------------------------------------------------------
  // The animation: runAnimation, the year cursor, animation(), toggle
  // ---------------------------------------------------------------------

  /** The closure state the animation reads and writes: the `runAnimation`
      flag and the `year` cursor shared with the slider. */
  datatype Animation = Animation(running: bool, year: int)

  /** The cursor's value when the page loads. */
  const Initial: Animation := Animation(false, FirstYear)

  /** What one call of `animation()` does: the state after it, the year it
      handed to `update` (if any), and whether it scheduled another call
      with `setTimeout`. */
  datatype Step = Step(next: Animation, shown: Option<int>, rescheduled: bool)

  /** One call of `animation()`. */
  function AnimationStep(a: Animation): (s: Step)
    ensures s.rescheduled <==> s.shown.Some?
    ensures s.rescheduled <==> a.running && a.year <= LastYear
    ensures s.shown.Some? ==> s.shown.value == a.year
    ensures s.next.running <==> s.rescheduled
    ensures s.next.year == if s.rescheduled then a.year + 1 else a.year
  {
    if a.running then
      if a.year <= LastYear then Step(Animation(true, a.year + 1), Some(a.year), true)
      else Step(Animation(false, a.year), None, false)
    else Step(a, None, false)
  }

  /** A call of `animation()` while stopped leaves everything as it is. */
  lemma StoppedStepIsIdle(a: Animation)
    requires !a.running
    ensures AnimationStep(a) == Step(a, None, false)
  {
  }

  /** The button's click handler `toggleAnimation`: a running animation is
      stopped; a stopped one is started and `animation()` is called at
      once, whose step is returned. */
  function ToggleAnimation(a: Animation): (r: Step)
    ensures r.next.running <==> !a.running && a.year <= LastYear
    ensures r.shown == if !a.running && a.year <= LastYear then Some(a.year) else None
    ensures r.rescheduled <==> r.next.running
    ensures r.next.year == if r.shown.Some? then a.year + 1 else a.year
  {
    if a.running then Step(Animation(false, a.year), None, false)
    else AnimationStep(Animation(true, a.year))
  }

  /** A stop takes effect on the timer call already scheduled: when it
      fires it shows nothing and schedules nothing. */
  lemma StopCancelsPendingStep(a: Animation)
    requires a.running
    ensures AnimationStep(ToggleAnimation(a).next) == Step(ToggleAnimation(a).next, None, false)
  {
  }

  /** The slider and the line plot set the cursor the animation reads,
      whether or not it is running, and leave the flag alone: the next
      timer call shows the year they set, or stops the animation when that
      year is past 2015; a stopped animation stays stopped, and a later
      click starts it from the year they set. */
  function SetYear(a: Animation, year: int): (r: Animation)
    ensures r.running == a.running
    ensures !a.running ==> ToggleAnimation(r).shown == if year <= LastYear then Some(year) else None
    ensures AnimationStep(r).shown == if a.running && year <= LastYear then Some(year) else None
    ensures AnimationStep(r).next.running <==> a.running && year <= LastYear
  {
    Animation(a.running, year)
  }

  /** The years from `lo` up to, not including, `hi`. */
  function YearsFrom(lo: int, hi: int): (ys: seq<int>)
    requires lo <= hi
    ensures |ys| == hi - lo
    ensures forall k :: 0 <= k < |ys| ==> ys[k] == lo + k
    decreases hi - lo
  {
    if lo == hi then [] else [lo] + YearsFrom(lo + 1, hi)
  }

  /** Up to `n` calls of `animation()`, each made only when the previous one
      rescheduled: the state after them and the years shown, in order. */
  function Run(a: Animation, n: nat): (Animation, seq<int>)
    decreases n
  {
    if n == 0 then (a, [])
    else
      var s := AnimationStep(a);
      if !s.rescheduled then (s.next, [])
      else
        var (last, shown) := Run(s.next, n - 1);
        (last, [a.year] + shown)
  }

  /** A run started at year `y` shows `y`, `y + 1`, ... one per call. While
      the cursor has not passed 2015 the animation keeps running; the call
      after the one that shows 2015 stops it with the cursor at 2016, and
      nothing is scheduled after that. */
  lemma {:induction false} AnimationRun(y: int, n: nat)
    requires y <= LastYear + 1
    ensures n <= LastYear + 1 - y ==> Run(Animation(true, y), n) == (Animation(true, y + n), YearsFrom(y, y + n))
    ensures n > LastYear + 1 - y ==> Run(Animation(true, y), n).0 == Animation(false, LastYear + 1)
    ensures n > LastYear + 1 - y ==> Run(Animation(true, y), n).1 == YearsFrom(y, LastYear + 1)
    decreases n
  {
    if n > 0 {
      if y <= LastYear {
        AnimationRun(y + 1, n - 1);
      }
    }
  }

  /** From the page's initial state, one click starts the animation,
      showing 1900 at once, and the following timer calls show 1901 to 2015
      in order before it stops. */
  lemma FullAnimation()
    ensures ToggleAnimation(Initial).shown == Some(FirstYear)
    ensures Run(ToggleAnimation(Initial).next, LastYear - FirstYear + 1)
         == (Animation(false, LastYear + 1), YearsFrom(FirstYear + 1, LastYear + 1))
  {
    AnimationRun(FirstYear + 1, LastYear - FirstYear + 1);
  }
}
