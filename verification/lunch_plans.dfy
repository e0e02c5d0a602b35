/**
 * A lunch plan over one dish table: the parameters it was created with,
 * the list of days it covers and the (day, dish) entries generated so far.
 */
module LunchPlans {
  import opened Wrappers
  import opened Dishes
  import opened Schedules
  import Validation

  /** What asking for today's lunch reports. */
  datatype TodayReport =
    | NoAnswer           // the answers ran out before a 'tak' or a 'nie'
    | Declined           // the user answered 'nie'
    | NotInPlan          // today is not one of the plan's days
    | Lunch(dish: string) // the dish planned for today
    | Silent             // today is a plan day but no entry carries its date

  /** `answers[k]` is the first accepted answer to the yes/no prompt. */
  predicate FirstYesNoAt(answers: seq<string>, k: int) {
    0 <= k < |answers| && Validation.IsYesNo(answers[k]) && forall m :: 0 <= m < k ==> !Validation.IsYesNo(answers[m])
  }

  /**
   * The retry loop of one day: draws dishes from `pos` on until one is not
   * excluded by the window of `plan`; None when the draws run out first.
   */
  method DrawUntilEligible(plan: seq<Entry>, w: int, dishes: seq<Dish>, draws: seq<nat>, pos: nat)
    returns (accepted: Option<nat>)
    requires ValidDraws(draws, |dishes|) && pos <= |draws|
    ensures accepted == FirstAccepted(plan, w, dishes, draws, pos)
  {
    var p := pos;
    while p < |draws|
      invariant pos <= p <= |draws|
      invariant FirstAccepted(plan, w, dishes, draws, pos) == FirstAccepted(plan, w, dishes, draws, p)
    {
      var dinner := dishes[draws[p]];
      if dinner.name !in Window(plan, w) {
        return Some(p);
      }
      p := p + 1;
    }
    return None;
  }

  class LunchPlan {
    const name: string
    const startDate: int
    const endDate: int
    const minIntervalTime: int
    /** The table's rows, read once when the plan is created. */
    const listOfDishes: seq<Dish>
    var days: seq<int>
    var lunchPlan: seq<Entry>

    /** A plan for `table` with the validated parameters; no days and no entries yet. */
    constructor (table: Table, name: string, startDate: int, endDate: int, minIntervalTime: int)
      ensures this.name == name && this.startDate == startDate && this.endDate == endDate
      ensures this.minIntervalTime == minIntervalTime && listOfDishes == table.rows
      ensures days == [] && lunchPlan == []
    {
      this.name := name;
      this.startDate := startDate;
      this.endDate := endDate;
      this.minIntervalTime := minIntervalTime;
      listOfDishes := table.rows;
      days := [];
      lunchPlan := [];
    }

    /**
     * Lists the days from the start date to the end date, then for each day
     * draws dishes until one is not among the dishes of the last
     * `minIntervalTime - 1` entries, and appends (day, dish). `draws` are the
     * indices the random choices return, in order.
     */
    method MakePlan(draws: seq<nat>) returns (plan: seq<Entry>, outcome: Outcome)
      requires ValidDraws(draws, |listOfDishes|)
      modifies this
      ensures days == DayRange(startDate, endDate)
      ensures var r := Schedule(old(lunchPlan), days, minIntervalTime, listOfDishes, draws, 0);
        lunchPlan == r.plan && outcome == r.outcome && plan == lunchPlan
      // append-only: the entries present before are kept unchanged
      ensures |old(lunchPlan)| <= |lunchPlan| && lunchPlan[..|old(lunchPlan)|] == old(lunchPlan)
      // one entry per day, dated with that day
      ensures outcome == Completed <==> |lunchPlan| == |old(lunchPlan)| + |days|
      ensures forall j :: |old(lunchPlan)| <= j < |lunchPlan| ==> lunchPlan[j].date == startDate + (j - |old(lunchPlan)|)
      // every new entry is a dish of the table that the window admitted
      ensures forall j :: |old(lunchPlan)| <= j < |lunchPlan| ==>
        lunchPlan[j].dish in Names(listOfDishes) && Eligible(lunchPlan[..j], minIntervalTime, lunchPlan[j].dish)
      ensures Spaced(old(lunchPlan), minIntervalTime) ==> Spaced(lunchPlan, minIntervalTime)
      // a source whose every `len` consecutive draws show every dish fills every
      // day from |days| * len draws, when the validated parameters hold
      ensures forall len ::
        (DistinctNames(listOfDishes) && 2 <= minIntervalTime <= |listOfDishes| &&
         Fair(draws, |listOfDishes|, len) && |days| * len <= |draws|) ==> outcome == Completed
    {
      ghost var plan0 := lunchPlan;
      days := DayRange(startDate, endDate);
      ghost var goal := Schedule(plan0, days, minIntervalTime, listOfDishes, draws, 0);
      outcome := Completed;
      var pos := 0;
      var i := 0;
      while i < |days| && outcome == Completed
        invariant 0 <= i <= |days| && pos <= |draws| && days == DayRange(startDate, endDate)
        invariant outcome == Completed ==> Schedule(lunchPlan, days[i..], minIntervalTime, listOfDishes, draws, pos) == goal
        invariant outcome != Completed ==> lunchPlan == goal.plan && outcome == goal.outcome
        decreases |days| - i, if outcome == Completed then 1 else 0
      {
        if |listOfDishes| == 0 {
          // a random choice over an empty list fails
          outcome := NoDishes;
        } else {
          var accepted := DrawUntilEligible(lunchPlan, minIntervalTime, listOfDishes, draws, pos);
          if accepted.None? {
            ScheduleStuck(lunchPlan, days[i..], minIntervalTime, listOfDishes, draws, pos);
            outcome := OutOfDraws;
          } else {
            var k := accepted.value;
            ScheduleStep(lunchPlan, days[i..], minIntervalTime, listOfDishes, draws, pos, k);
            lunchPlan := lunchPlan + [Entry(days[i], listOfDishes[draws[k]].name)];
            pos := k + 1;
            assert days[i..][1..] == days[i + 1..];
            i := i + 1;
          }
        }
      }
      if outcome == Completed {
        assert days[i..] == [];
      }
      ghost var r := RunFacts(plan0, startDate, endDate, minIntervalTime, listOfDishes, draws);
      assert r == goal;
      assert lunchPlan == r.plan && outcome == r.outcome;
      plan := lunchPlan;
    }

    /**
     * Asks whether to show today's lunch until the answer is 'tak' or 'nie';
     * on 'tak' reports the dish of the first entry dated `today`, or that
     * today is not one of the plan's days.
     */
    method LunchForToday(answers: seq<string>, today: int) returns (r: TodayReport)
      ensures r == NoAnswer <==> forall k :: 0 <= k < |answers| ==> !Validation.IsYesNo(answers[k])
      ensures r == Declined <==> exists k :: FirstYesNoAt(answers, k) && answers[k] == "nie"
      ensures r == NotInPlan <==> (exists k :: FirstYesNoAt(answers, k) && answers[k] == "tak") && today !in days
      // a reported dish is the one of the first entry dated today
      ensures r.Lunch? ==> (today in days &&
        exists j :: 0 <= j < |lunchPlan| && lunchPlan[j] == Entry(today, r.dish) &&
          forall m :: 0 <= m < j ==> lunchPlan[m].date != today)
      ensures r == Silent ==> today in days && forall j :: 0 <= j < |lunchPlan| ==> lunchPlan[j].date != today
      // on a completed plan from the start date, today's dish sits at offset today - startDate
      ensures r.Lunch? && |lunchPlan| == |days| && (forall j :: 0 <= j < |lunchPlan| ==> lunchPlan[j].date == startDate + j)
        ==> 0 <= today - startDate < |lunchPlan| && r.dish == lunchPlan[today - startDate].dish
      ensures (exists k :: FirstYesNoAt(answers, k) && answers[k] == "tak") && today in days &&
        days == DayRange(startDate, endDate) && |lunchPlan| == |days| &&
        (forall j :: 0 <= j < |lunchPlan| ==> lunchPlan[j].date == startDate + j)
        ==> r == Lunch(lunchPlan[today - startDate].dish)
    {
      var k := 0;
      while k < |answers| && !Validation.IsYesNo(answers[k])
        invariant 0 <= k <= |answers|
        invariant forall m :: 0 <= m < k ==> !Validation.IsYesNo(answers[m])
      {
        k := k + 1;
      }
      if k == |answers| {
        return NoAnswer;
      }
      assert FirstYesNoAt(answers, k);
      if answers[k] == "nie" {
        return Declined;
      }
      if today !in days {
        return NotInPlan;
      }
      var j := 0;
      while j < |lunchPlan|
        invariant 0 <= j <= |lunchPlan|
        invariant forall m :: 0 <= m < j ==> lunchPlan[m].date != today
      {
        if lunchPlan[j].date == today {
          return Lunch(lunchPlan[j].dish);
        }
        j := j + 1;
      }
      return Silent;
    }
  }
}
