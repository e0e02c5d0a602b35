/**
 * The lunch-plan generator as pure functions: the no-repeat window over
 * the entries accepted so far, the rejection sampler that walks a stream
 * of random draws, and the day-by-day assembly of the plan.
 *
 * Calendar days are integer ordinals, so the day after `d` is `d + 1`.
 * The random source is a stream `draws` of the indices that successive
 * random choices over the dish list return.
 */
module Schedules {
  import opened Wrappers
  import opened Dishes

  /** One line of a plan: a day and the name of the dish served that day. */
  datatype Entry = Entry(date: int, dish: string)

  /** How a run of the generator ended. */
  datatype Outcome =
    | Completed    // every day received a dish
    | OutOfDraws   // the draw stream ended before the rejection loop accepted a dish
    | NoDishes     // a day had to be filled from an empty dish list

  /** The plan built by a run and how the run ended. */
  datatype Run = Run(plan: seq<Entry>, outcome: Outcome)

  function Min(a: int, b: int): (r: int) {
    if a <= b then a else b
  }

  /** The dish column of a plan. */
  function DishNames(plan: seq<Entry>): (r: seq<string>)
    ensures |r| == |plan|
    ensures forall k :: 0 <= k < |plan| ==> r[k] == plan[k].dish
  {
    seq(|plan|, k requires 0 <= k < |plan| => plan[k].dish)
  }

  /** Where the slice `s[k:]` of a sequence of length `n` starts, with negative `k` counted from the end. */
  function SliceStart(n: nat, k: int): (s: nat)
    ensures s <= n
    ensures k < 0 && n + k >= 0 ==> s == n + k
    ensures k < 0 && n + k < 0 ==> s == 0
    ensures 0 <= k ==> s == Min(k, n)
  {
    if k < 0 then (if n + k < 0 then 0 else n + k)
    else if k < n then k else n
  }

  /**
   * The names excluded for the next day: the dishes of the slice
   * `plan[-w + 1:]`, i.e. of the last `w - 1` entries when `w >= 2`.
   */
  function Window(plan: seq<Entry>, w: int): (r: seq<string>)
    // nothing is excluded before the first day
    ensures plan == [] ==> r == []
    // for w >= 2: the dishes of the last w - 1 entries, or of the whole plan while it is shorter
    ensures w >= 2 ==> |r| == Min(w - 1, |plan|)
    ensures w >= 2 ==> forall k :: 0 <= k < |r| ==> r[k] == plan[|plan| - |r| + k].dish
    // for w == 1 the slice is plan[0:], which excludes every dish already planned
    ensures w == 1 ==> r == DishNames(plan)
  {
    DishNames(plan[SliceStart(|plan|, 1 - w)..])
  }

  /** A dish may be accepted for the next day. */
  predicate Eligible(plan: seq<Entry>, w: int, name: string) {
    name !in Window(plan, w)
  }

  /** No dish occurs twice among any `w` consecutive entries. */
  predicate Spaced(plan: seq<Entry>, w: int) {
    forall i, j :: 0 <= i < j < |plan| && j - i < w ==> plan[i].dish != plan[j].dish
  }

  /** Every draw is an index into a list of `n` dishes, as a random choice over that list returns. */
  predicate ValidDraws(draws: seq<nat>, n: nat) {
    forall k :: 0 <= k < |draws| ==> draws[k] < n
  }

  /** The first draw from `pos` on whose dish is eligible: the one the rejection loop accepts. */
  function FirstAccepted(plan: seq<Entry>, w: int, dishes: seq<Dish>, draws: seq<nat>, pos: nat): (r: Option<nat>)
    requires ValidDraws(draws, |dishes|) && pos <= |draws|
    // an accepted draw is eligible, and every draw before it was rejected
    ensures r.Some? ==> pos <= r.value < |draws| && Eligible(plan, w, dishes[draws[r.value]].name)
    ensures r.Some? ==> forall k :: pos <= k < r.value ==> !Eligible(plan, w, dishes[draws[k]].name)
    // no acceptance means that every remaining draw is rejected
    ensures r.None? ==> forall k :: pos <= k < |draws| ==> !Eligible(plan, w, dishes[draws[k]].name)
    decreases |draws| - pos
  {
    if pos == |draws| then None
    else if Eligible(plan, w, dishes[draws[pos]].name) then Some(pos)
    else FirstAccepted(plan, w, dishes, draws, pos + 1)
  }

  /** The calendar days from `start` to `end` inclusive, in order; none when `end` is earlier. */
  function DayRange(start: int, end: int): (r: seq<int>)
    ensures |r| == if start <= end then end - start + 1 else 0
    // ascending with no gaps, starting on `start`
    ensures forall i :: 0 <= i < |r| ==> r[i] == start + i
    // exactly the days between `start` and `end`
    ensures forall d :: d in r <==> start <= d <= end
    decreases end - start
  {
    if start > end then [] else [start] + DayRange(start + 1, end)
  }

  /**
   * The generator from the plan built so far: each of `days` in turn gets
   * the dish of the first eligible draw from `pos` on.
   */
  function Schedule(plan: seq<Entry>, days: seq<int>, w: int, dishes: seq<Dish>, draws: seq<nat>, pos: nat): (r: Run)
    requires ValidDraws(draws, |dishes|) && pos <= |draws|
    // the plan only grows at its end, by at most one entry per day
    ensures |plan| <= |r.plan| <= |plan| + |days| && r.plan[..|plan|] == plan
    // the run completes exactly when every day received an entry
    ensures r.outcome == Completed <==> |r.plan| == |plan| + |days|
    decreases |days|
  {
    if days == [] then Run(plan, Completed)
    else if dishes == [] then Run(plan, NoDishes)
    else match FirstAccepted(plan, w, dishes, draws, pos)
      case None => Run(plan, OutOfDraws)
      case Some(k) =>
        var next := plan + [Entry(days[0], dishes[draws[k]].name)];
        var r := Schedule(next, days[1..], w, dishes, draws, k + 1);
        assert r.plan[..|plan|] == next[..|plan|];
        r
  }

  /** One day of the generator: the first eligible draw fixes the day's dish. */
  lemma ScheduleStep(plan: seq<Entry>, days: seq<int>, w: int, dishes: seq<Dish>, draws: seq<nat>, pos: nat, k: nat)
    requires ValidDraws(draws, |dishes|) && pos <= |draws|
    requires days != [] && FirstAccepted(plan, w, dishes, draws, pos) == Some(k)
    ensures k < |draws| && draws[k] < |dishes|
    ensures Schedule(plan, days, w, dishes, draws, pos)
         == Schedule(plan + [Entry(days[0], dishes[draws[k]].name)], days[1..], w, dishes, draws, k + 1)
  {
  }

  /** A day for which no remaining draw is eligible ends the run. */
  lemma ScheduleStuck(plan: seq<Entry>, days: seq<int>, w: int, dishes: seq<Dish>, draws: seq<nat>, pos: nat)
    requires ValidDraws(draws, |dishes|) && pos <= |draws|
    requires days != [] && dishes != [] && FirstAccepted(plan, w, dishes, draws, pos).None?
    ensures Schedule(plan, days, w, dishes, draws, pos) == Run(plan, OutOfDraws)
  {
  }

  /** Entry `j` of the new part of the plan is dated with the `j`-th day. */
  lemma {:induction false} ScheduleDates(plan: seq<Entry>, days: seq<int>, w: int, dishes: seq<Dish>, draws: seq<nat>, pos: nat)
    requires ValidDraws(draws, |dishes|) && pos <= |draws|
    ensures forall j :: |plan| <= j < |Schedule(plan, days, w, dishes, draws, pos).plan| ==>
      Schedule(plan, days, w, dishes, draws, pos).plan[j].date == days[j - |plan|]
    decreases |days|
  {
    if days != [] && dishes != [] {
      match FirstAccepted(plan, w, dishes, draws, pos)
      case None =>
      case Some(k) =>
        var next := plan + [Entry(days[0], dishes[draws[k]].name)];
        ScheduleDates(next, days[1..], w, dishes, draws, k + 1);
        var r := Schedule(next, days[1..], w, dishes, draws, k + 1);
        assert Schedule(plan, days, w, dishes, draws, pos) == r;
        forall j | |plan| <= j < |r.plan| ensures r.plan[j].date == days[j - |plan|] {
          if j == |plan| {
            assert r.plan[..|next|][j] == next[j];
          } else {
            assert r.plan[j].date == days[1..][j - |next|];
          }
        }
    }
  }

  /**
   * Every new entry was accepted by the rejection test: its dish is a dish of
   * the list and is not excluded by the window of the entries before it.
   */
  lemma {:induction false} ScheduleAccepts(plan: seq<Entry>, days: seq<int>, w: int, dishes: seq<Dish>, draws: seq<nat>, pos: nat)
    requires ValidDraws(draws, |dishes|) && pos <= |draws|
    ensures forall j :: |plan| <= j < |Schedule(plan, days, w, dishes, draws, pos).plan| ==>
      var e := Schedule(plan, days, w, dishes, draws, pos).plan[j];
      Eligible(Schedule(plan, days, w, dishes, draws, pos).plan[..j], w, e.dish) && e.dish in Names(dishes)
    decreases |days|
  {
    if days != [] && dishes != [] {
      match FirstAccepted(plan, w, dishes, draws, pos)
      case None =>
      case Some(k) =>
        var next := plan + [Entry(days[0], dishes[draws[k]].name)];
        ScheduleAccepts(next, days[1..], w, dishes, draws, k + 1);
        var r := Schedule(next, days[1..], w, dishes, draws, k + 1);
        assert Schedule(plan, days, w, dishes, draws, pos) == r;
        forall j | |plan| <= j < |r.plan|
          ensures Eligible(r.plan[..j], w, r.plan[j].dish) && r.plan[j].dish in Names(dishes)
        {
          if j == |plan| {
            assert r.plan[..|next|] == next;
            assert r.plan[..j] == next[..j] == plan;
            assert r.plan[j] == next[j];
            assert Names(dishes)[draws[k]] == dishes[draws[k]].name;
          }
        }
    }
  }

  /** The dish of each of the last `w - 1` entries is in the window. */
  lemma InWindow(plan: seq<Entry>, w: int, i: int)
    requires 2 <= w && 0 <= i < |plan| && |plan| - i < w
    ensures plan[i].dish in Window(plan, w)
  {
    var win := Window(plan, w);
    assert |plan| - i <= |win|;
    var k := i - (|plan| - |win|);
    assert 0 <= k < |win| && |plan| - |win| + k == i;
    assert win[k] == plan[i].dish;
  }

  /**
   * For w >= 2 a dish is eligible exactly when none of the last `w - 1`
   * entries serves it.
   */
  lemma EligibleIff(plan: seq<Entry>, w: int, name: string)
    requires w >= 2
    ensures Eligible(plan, w, name) <==> forall i :: 0 <= i < |plan| && |plan| - i < w ==> plan[i].dish != name
  {
    if !Eligible(plan, w, name) {
      var win := Window(plan, w);
      var k :| 0 <= k < |win| && win[k] == name;
      assert win[k] == plan[|plan| - |win| + k].dish;
    } else {
      forall i | 0 <= i < |plan| && |plan| - i < w ensures plan[i].dish != name {
        InWindow(plan, w, i);
      }
    }
  }

  /** Appending an entry the window admits keeps the plan spaced. */
  lemma AppendKeepsSpaced(plan: seq<Entry>, w: int, e: Entry)
    requires Spaced(plan, w) && Eligible(plan, w, e.dish)
    ensures Spaced(plan + [e], w)
  {
    var p := plan + [e];
    forall i, j | 0 <= i < j < |p| && j - i < w
      ensures p[i].dish != p[j].dish
    {
      assert p[i] == plan[i];
      if j == |plan| {
        InWindow(plan, w, i);
      } else {
        assert p[j] == plan[j];
      }
    }
  }

  /**
   * A spaced plan followed only by entries that the window of the entries
   * before them admitted is spaced.
   */
  lemma EligibleEntriesKeepSpaced(p: seq<Entry>, n: nat, w: int)
    requires n <= |p| && Spaced(p[..n], w)
    requires forall j :: n <= j < |p| ==> Eligible(p[..j], w, p[j].dish)
    ensures Spaced(p, w)
  {
    forall i, j | 0 <= i < j < |p| && j - i < w ensures p[i].dish != p[j].dish {
      if j < n {
        SpacedPair(p[..n], w, i, j);
        assert p[..n][i] == p[i] && p[..n][j] == p[j];
      } else {
        InWindow(p[..j], w, i);
        assert p[..j][i] == p[i];
      }
    }
  }

  /** The generator keeps the no-repeat window: a spaced plan stays spaced. */
  lemma ScheduleKeepsSpaced(plan: seq<Entry>, days: seq<int>, w: int, dishes: seq<Dish>, draws: seq<nat>, pos: nat)
    requires ValidDraws(draws, |dishes|) && pos <= |draws|
    requires Spaced(plan, w)
    ensures Spaced(Schedule(plan, days, w, dishes, draws, pos).plan, w)
  {
    ScheduleAccepts(plan, days, w, dishes, draws, pos);
    var p := Schedule(plan, days, w, dishes, draws, pos).plan;
    assert p[..|plan|] == plan;
    EligibleEntriesKeepSpaced(p, |plan|, w);
  }

  /** The set of elements of a sequence. */
  function Elements(s: seq<string>): (r: set<string>)
    ensures forall x :: x in r <==> x in s
    ensures |r| <= |s|
  {
    if s == [] then {} else {s[0]} + Elements(s[1..])
  }

  /** A sequence without repeats has as many elements as it has positions. */
  lemma {:induction false} ElementsOfDistinct(s: seq<string>)
    requires forall i, j :: 0 <= i < j < |s| ==> s[i] != s[j]
    ensures |Elements(s)| == |s|
  {
    if s != [] {
      ElementsOfDistinct(s[1..]);
      assert s[0] !in s[1..];
    }
  }

  /**
   * Solvability: when dish names are distinct and 2 <= w <= |dishes|, the
   * window excludes at most w - 1 names, so some dish is always eligible.
   */
  lemma EligibleDishExists(plan: seq<Entry>, w: int, dishes: seq<Dish>)
    requires DistinctNames(dishes) && 2 <= w <= |dishes|
    ensures exists k :: 0 <= k < |dishes| && Eligible(plan, w, dishes[k].name)
  {
    var names := Names(dishes);
    var win := Window(plan, w);
    ElementsOfDistinct(names);
    assert |Elements(win)| < |Elements(names)|;
    var free := Elements(names) - Elements(win);
    assert |free| > 0;
    var x :| x in free;
    var k :| 0 <= k < |names| && names[k] == x;
    assert Eligible(plan, w, dishes[k].name);
  }

  /** The `len` draws from position `p` on. */
  function Block(draws: seq<nat>, p: nat, len: nat): (r: seq<nat>)
    requires p + len <= |draws|
    ensures |r| == len && forall i :: 0 <= i < len ==> r[i] == draws[p + i]
  {
    draws[p..p + len]
  }

  /** The block of `len` draws from `p` shows every index below `n`. */
  predicate Covers(draws: seq<nat>, p: nat, n: nat, len: nat)
    requires p + len <= |draws|
  {
    forall d :: 0 <= d < n ==> d in Block(draws, p, len)
  }

  /**
   * A fair random source over `n` dishes: every `len` consecutive draws show
   * every dish at least once (repeats within a block are allowed).
   */
  predicate Fair(draws: seq<nat>, n: nat, len: nat) {
    forall p: nat :: p + len <= |draws| ==> Covers(draws, p, n, len)
  }

  /** When the next `len` draws show every dish, the rejection loop accepts one of them. */
  lemma FairDrawAcceptedSoon(plan: seq<Entry>, w: int, dishes: seq<Dish>, draws: seq<nat>, pos: nat, len: nat)
    requires ValidDraws(draws, |dishes|)
    requires DistinctNames(dishes) && 2 <= w <= |dishes|
    requires pos + len <= |draws| && Covers(draws, pos, |dishes|, len)
    ensures var r := FirstAccepted(plan, w, dishes, draws, pos);
      r.Some? && r.value < pos + len
  {
    EligibleDishExists(plan, w, dishes);
    var d :| 0 <= d < |dishes| && Eligible(plan, w, dishes[d].name);
    assert d in Block(draws, pos, len);
    var i :| 0 <= i < len && Block(draws, pos, len)[i] == d;
    assert draws[pos + i] == d;
  }

  /**
   * Under a source whose every `len` consecutive draws show every dish, each
   * day accepts within `len` draws, so `|days| * len` draws fill the whole
   * date range.
   */
  lemma {:induction false} FairDrawsComplete(plan: seq<Entry>, days: seq<int>, w: int, dishes: seq<Dish>, draws: seq<nat>, pos: nat, len: nat)
    requires ValidDraws(draws, |dishes|) && pos <= |draws|
    requires DistinctNames(dishes) && 2 <= w <= |dishes|
    requires Fair(draws, |dishes|, len) && pos + |days| * len <= |draws|
    ensures Schedule(plan, days, w, dishes, draws, pos).outcome == Completed
    decreases |days|
  {
    if days != [] {
      assert (|days| - 1) * len + len == |days| * len;
      assert Covers(draws, pos, |dishes|, len);
      FairDrawAcceptedSoon(plan, w, dishes, draws, pos, len);
      var k := FirstAccepted(plan, w, dishes, draws, pos).value;
      var e := Entry(days[0], dishes[draws[k]].name);
      FairDrawsComplete(plan + [e], days[1..], w, dishes, draws, k + 1, len);
    }
  }

  /** The names in a window of a spaced plan are pairwise different. */
  lemma SpacedWindowDistinct(plan: seq<Entry>, w: int)
    requires Spaced(plan, w) && w >= 2
    ensures var win := Window(plan, w);
      forall i, j :: 0 <= i < j < |win| ==> win[i] != win[j]
  {
    var win := Window(plan, w);
    var o := |plan| - |win|;
    forall i, j | 0 <= i < j < |win| ensures win[i] != win[j] {
      SpacedPair(plan, w, o + i, o + j);
    }
  }

  lemma SpacedPair(plan: seq<Entry>, w: int, a: int, b: int)
    requires Spaced(plan, w) && 0 <= a < b < |plan| && b - a < w
    ensures plan[a].dish != plan[b].dish
  {
  }

  /** With w == |dishes| and a full window, one dish name lies outside the window. */
  lemma FullWindowLeavesOne(plan: seq<Entry>, w: int, dishes: seq<Dish>)
    requires DistinctNames(dishes) && 2 <= w == |dishes|
    requires Spaced(plan, w) && |plan| >= w - 1
    requires forall j :: 0 <= j < |plan| ==> plan[j].dish in Names(dishes)
    ensures |Elements(Names(dishes)) - Elements(Window(plan, w))| == 1
  {
    var names := Names(dishes);
    var win := Window(plan, w);
    assert |win| == w - 1;
    ElementsOfDistinct(names);
    SpacedWindowDistinct(plan, w);
    ElementsOfDistinct(win);
    forall x | x in Elements(win) ensures x in Elements(names) {
      var k :| 0 <= k < |win| && win[k] == x;
      assert win[k] == plan[|plan| - |win| + k].dish;
    }
    assert Elements(win) <= Elements(names);
    assert |Elements(names) - Elements(win)| == |Elements(names)| - |Elements(win)|;
  }

  /**
   * The tight case w == |dishes|: once the plan holds w - 1 entries, exactly
   * one dish is eligible for the next day.
   */
  lemma TightWindowForcesChoice(plan: seq<Entry>, w: int, dishes: seq<Dish>)
    requires DistinctNames(dishes) && 2 <= w == |dishes|
    requires Spaced(plan, w) && |plan| >= w - 1
    requires forall j :: 0 <= j < |plan| ==> plan[j].dish in Names(dishes)
    ensures exists k :: 0 <= k < |dishes| && Eligible(plan, w, dishes[k].name)
    ensures forall k, m :: 0 <= k < m < |dishes| ==> !(Eligible(plan, w, dishes[k].name) && Eligible(plan, w, dishes[m].name))
  {
    EligibleDishExists(plan, w, dishes);
    var names := Names(dishes);
    var win := Window(plan, w);
    var free := Elements(names) - Elements(win);
    FullWindowLeavesOne(plan, w, dishes);
    var x :| x in free;
    assert |free - {x}| == 0;
    assert free == {x};
    forall k | 0 <= k < |dishes| && Eligible(plan, w, dishes[k].name) ensures names[k] == x {
      assert names[k] in free;
    }
  }

  /**
   * Two distinct dishes and w == 2: the only admissible plans alternate, so
   * entry `j` serves the dish of entry `j % 2`.
   */
  lemma {:induction false} TwoDishesAlternate(plan: seq<Entry>, a: string, b: string)
    requires Spaced(plan, 2)
    requires forall j :: 0 <= j < |plan| ==> plan[j].dish == a || plan[j].dish == b
    ensures forall j :: 0 <= j < |plan| ==> plan[j].dish == plan[j % 2].dish
  {
    if |plan| > 2 {
      var last := |plan| - 1;
      TwoDishesAlternate(plan[..last], a, b);
      assert plan[last].dish != plan[last - 1].dish;
      assert plan[last - 1].dish == plan[(last - 1) % 2].dish;
      assert plan[last - 2].dish == plan[(last - 2) % 2].dish;
      assert plan[last - 2].dish != plan[last - 1].dish;
    }
  }

  /**
   * The generator with two dishes and w == 2 has no freedom: every plan it
   * builds from scratch alternates between the two dishes.
   */
  lemma TwoDishScheduleAlternates(days: seq<int>, dishes: seq<Dish>, draws: seq<nat>)
    requires |dishes| == 2 && ValidDraws(draws, |dishes|)
    ensures forall j :: 0 <= j < |Schedule([], days, 2, dishes, draws, 0).plan| ==>
      Schedule([], days, 2, dishes, draws, 0).plan[j].dish == Schedule([], days, 2, dishes, draws, 0).plan[j % 2].dish
  {
    var p := Schedule([], days, 2, dishes, draws, 0).plan;
    ScheduleKeepsSpaced([], days, 2, dishes, draws, 0);
    ScheduleAccepts([], days, 2, dishes, draws, 0);
    forall j | 0 <= j < |p| ensures p[j].dish == dishes[0].name || p[j].dish == dishes[1].name {
      var names := Names(dishes);
      assert p[j].dish in names;
      assert names == [dishes[0].name, dishes[1].name];
    }
    TwoDishesAlternate(p, dishes[0].name, dishes[1].name);
  }

  /**
   * What a run over a date range guarantees, gathered for the imperative
   * generator: the plan grows at its end, one entry per day dated with that
   * day, every new dish comes from the list and passes the window, spacing
   * is kept, and a fair source completes the run.
   */
  lemma RunFacts(plan: seq<Entry>, start: int, end: int, w: int, dishes: seq<Dish>, draws: seq<nat>)
    returns (r: Run)
    requires ValidDraws(draws, |dishes|)
    ensures r == Schedule(plan, DayRange(start, end), w, dishes, draws, 0)
    ensures forall j :: |plan| <= j < |r.plan| ==> r.plan[j].date == start + (j - |plan|)
    ensures forall j :: |plan| <= j < |r.plan| ==>
      r.plan[j].dish in Names(dishes) && Eligible(r.plan[..j], w, r.plan[j].dish)
    ensures Spaced(plan, w) ==> Spaced(r.plan, w)
    ensures forall len ::
      (DistinctNames(dishes) && 2 <= w <= |dishes| && Fair(draws, |dishes|, len) &&
       |DayRange(start, end)| * len <= |draws|) ==> r.outcome == Completed
  {
    var days := DayRange(start, end);
    r := Schedule(plan, days, w, dishes, draws, 0);
    ScheduleDates(plan, days, w, dishes, draws, 0);
    ScheduleAccepts(plan, days, w, dishes, draws, 0);
    if Spaced(plan, w) {
      ScheduleKeepsSpaced(plan, days, w, dishes, draws, 0);
    }
    forall len | DistinctNames(dishes) && 2 <= w <= |dishes| && Fair(draws, |dishes|, len) && |days| * len <= |draws|
      ensures r.outcome == Completed
    {
      FairDrawsComplete(plan, days, w, dishes, draws, 0, len);
    }
  }

}
