/**
 * The console prompts that validate user input. Each prompt asks again
 * until an input passes its test; here the successive inputs are a finite
 * sequence of already-parsed lines, and running out of them is reported as
 * None (or NoMoreInput).
 */
module Validation {
  import opened Wrappers
  import opened Dishes

  /**
   * The retry loop shared by every prompt: the position of the first input
   * from `from` on that `stops` the prompt, or |inputs| when none does.
   */
  method FirstMatch<T>(inputs: seq<T>, from: nat, stops: T -> bool) returns (i: nat)
    requires from <= |inputs|
    ensures from <= i <= |inputs|
    ensures forall k :: from <= k < i ==> !stops(inputs[k])
    ensures i < |inputs| ==> stops(inputs[i])
  {
    i := from;
    while i < |inputs| && !stops(inputs[i])
      invariant from <= i <= |inputs|
      invariant forall k :: from <= k < i ==> !stops(inputs[k])
    {
      i := i + 1;
    }
  }

  /** A number typed at a menu is accepted when it is one of the offered choices. */
  predicate ChoiceAccepted(input: Option<int>, possibleChoices: seq<int>) {
    input.Some? && input.value in possibleChoices
  }

  /**
   * Asks for a menu number until it parses and is one of `possibleChoices`.
   * None in `inputs` is a line that is not an integer.
   */
  method UserChoiceValidation(possibleChoices: seq<int>, inputs: seq<Option<int>>) returns (choice: Option<int>)
    ensures choice.Some? ==> choice.value in possibleChoices
    ensures choice.None? <==> forall k :: 0 <= k < |inputs| ==> !ChoiceAccepted(inputs[k], possibleChoices)
    // the choice is the first acceptable input
    ensures choice.Some? ==> (exists k :: 0 <= k < |inputs| && inputs[k] == choice &&
                                forall m :: 0 <= m < k ==> !ChoiceAccepted(inputs[m], possibleChoices))
  {
    var i := FirstMatch(inputs, 0, x => ChoiceAccepted(x, possibleChoices));
    if i == |inputs| {
      return None;
    }
    return inputs[i];
  }

  /** A course number is accepted when it parses and is 1 or 2. */
  predicate CourseAccepted(input: Option<int>) {
    input.Some? && ValidCourse(input.value)
  }

  /** Asks which course a dish is until the answer is 1 or 2. */
  method WhichCourseValidation(inputs: seq<Option<int>>) returns (course: Option<int>)
    ensures course.Some? ==> ValidCourse(course.value)
    ensures course.None? <==> forall k :: 0 <= k < |inputs| ==> !CourseAccepted(inputs[k])
    ensures course.Some? ==> (exists k :: 0 <= k < |inputs| && inputs[k] == course &&
                                forall m :: 0 <= m < k ==> !CourseAccepted(inputs[m]))
  {
    var i := FirstMatch(inputs, 0, CourseAccepted);
    if i == |inputs| {
      return None;
    }
    return inputs[i];
  }

  /** The answers to "add/delete another dish?". */
  predicate IsYesNo(answer: string) {
    answer == "tak" || answer == "nie"
  }

  /**
   * Asks whether to add (or delete) another dish until the answer is 'tak'
   * or 'nie'; `option` only changes the wording of the question.
   */
  method NewRecordValidation(option: string, inputs: seq<string>) returns (answer: Option<string>)
    ensures answer.Some? ==> IsYesNo(answer.value)
    ensures answer.None? <==> forall k :: 0 <= k < |inputs| ==> !IsYesNo(inputs[k])
    ensures answer.Some? ==> (exists k :: 0 <= k < |inputs| && inputs[k] == answer.value &&
                                forall m :: 0 <= m < k ==> !IsYesNo(inputs[m]))
  {
    var i := FirstMatch(inputs, 0, IsYesNo);
    if i == |inputs| {
      return None;
    }
    return Some(inputs[i]);
  }

  /** Asks for the name of a new dish until it is not already in the table. */
  method AddNewDishValidation(table: Table, inputs: seq<string>) returns (dishName: Option<string>)
    ensures dishName.Some? ==> dishName.value !in Names(table.rows)
    ensures dishName.None? <==> forall k :: 0 <= k < |inputs| ==> inputs[k] in Names(table.rows)
    ensures dishName.Some? ==> (exists k :: 0 <= k < |inputs| && inputs[k] == dishName.value &&
                                  forall m :: 0 <= m < k ==> inputs[m] in Names(table.rows))
    // so inserting it with a valid course adds a row
    ensures dishName.Some? ==> forall c :: ValidCourse(c) ==>
      InsertRow(table.rows, dishName.value, c) == table.rows + [Dish(dishName.value, c)]
  {
    var unavailableChoices := Names(table.rows);
    var i := FirstMatch(inputs, 0, name => name !in unavailableChoices);
    if i == |inputs| {
      return None;
    }
    return Some(inputs[i]);
  }

  /** Asks for the name of a dish to delete until it is one in the table. */
  method DeleteDishValidation(table: Table, inputs: seq<string>) returns (dishName: Option<string>)
    ensures dishName.Some? ==> dishName.value in Names(table.rows)
    ensures dishName.None? <==> forall k :: 0 <= k < |inputs| ==> inputs[k] !in Names(table.rows)
    ensures dishName.Some? ==> (exists k :: 0 <= k < |inputs| && inputs[k] == dishName.value &&
                                  forall m :: 0 <= m < k ==> inputs[m] !in Names(table.rows))
    // so deleting it removes at least one row
    ensures dishName.Some? ==> |DeleteRows(table.rows, dishName.value)| < |table.rows|
  {
    var availableChoices := Names(table.rows);
    var i := FirstMatch(inputs, 0, name => name in availableChoices);
    if i == |inputs| {
      return None;
    }
    return Some(inputs[i]);
  }

  /**
   * One typed line of the plan prompts: exactly "0" (go back), a line that
   * does not parse as the date or number asked for, or its parsed value
   * (a day ordinal for the dates, an integer for the interval).
   */
  datatype Line = Zero | Unparsable | Parsed(value: int)

  /** The plan prompts either go back, run out of input or yield the plan parameters. */
  datatype PlannerAnswer =
    | Back
    | NoMoreInput
    | Params(name: string, startDate: int, endDate: int, minTimeInterval: int)

  /** The end date is accepted when it is not earlier than the start date. */
  predicate EndDateAccepted(startDate: int, endDate: int) {
    endDate >= startDate
  }

  /** The no-repeat interval is accepted when it lies between 2 and the number of dishes. */
  predicate IntervalAccepted(minTimeInterval: int, numberOfDishes: int) {
    2 <= minTimeInterval <= numberOfDishes
  }

  /** Lines that end the start-date prompt. */
  predicate StartStops(l: Line) {
    !l.Unparsable?
  }

  /** Lines that end the end-date prompt. */
  predicate EndStops(l: Line, startDate: int) {
    l.Zero? || (l.Parsed? && EndDateAccepted(startDate, l.value))
  }

  /** Lines that end the interval prompt. */
  predicate IntervalStops(l: Line, numberOfDishes: int) {
    l.Zero? || (l.Parsed? && IntervalAccepted(l.value, numberOfDishes))
  }

  /** Line `i` is the first line that ends the start-date prompt. */
  predicate StartAt(lines: seq<Line>, i: int) {
    0 <= i < |lines| && StartStops(lines[i]) && forall m :: 0 <= m < i ==> !StartStops(lines[m])
  }

  /** Line `j` is the first line after `i` that ends the end-date prompt for `startDate`. */
  predicate EndAt(lines: seq<Line>, i: int, j: int, startDate: int) {
    0 <= i < j < |lines| && EndStops(lines[j], startDate) && forall m :: i < m < j ==> !EndStops(lines[m], startDate)
  }

  /** Line `k` is the first line after `j` that ends the interval prompt for `n` dishes. */
  predicate IntervalAt(lines: seq<Line>, j: int, k: int, n: int) {
    0 <= j < k < |lines| && IntervalStops(lines[k], n) && forall m :: j < m < k ==> !IntervalStops(lines[m], n)
  }

  /**
   * Lines i, j and k are the accepted start date, end date and interval:
   * each is the first line that ends its prompt, and it is not "0".
   */
  predicate AcceptedAt(lines: seq<Line>, i: int, j: int, k: int, startDate: int, endDate: int, w: int, n: int) {
    && StartAt(lines, i) && lines[i] == Parsed(startDate)
    && EndAt(lines, i, j, startDate) && lines[j] == Parsed(endDate)
    && IntervalAt(lines, j, k, n) && lines[k] == Parsed(w)
  }

  /** The first line that ends one of the three prompts is "0". */
  ghost predicate GoesBack(lines: seq<Line>, n: int) {
    || (exists i {:trigger StartAt(lines, i)} :: StartAt(lines, i) && lines[i] == Zero)
    || (exists i, j, s {:trigger EndAt(lines, i, j, s)} ::
          StartAt(lines, i) && lines[i] == Parsed(s) && EndAt(lines, i, j, s) && lines[j] == Zero)
    || (exists i, j, k, s {:trigger IntervalAt(lines, j, k, n), EndAt(lines, i, j, s)} ::
          StartAt(lines, i) && lines[i] == Parsed(s) && EndAt(lines, i, j, s) &&
          lines[j].Parsed? && IntervalAt(lines, j, k, n) && lines[k] == Zero)
  }

  /** One of the three prompts is still waiting when the lines run out. */
  ghost predicate RunsOut(lines: seq<Line>, n: int) {
    || (forall i :: !StartAt(lines, i))
    || (exists i {:trigger StartAt(lines, i)} ::
          StartAt(lines, i) && lines[i].Parsed? && forall j :: !EndAt(lines, i, j, lines[i].value))
    || (exists i, j, s {:trigger EndAt(lines, i, j, s)} ::
          StartAt(lines, i) && lines[i] == Parsed(s) && EndAt(lines, i, j, s) &&
          lines[j].Parsed? && forall k :: !IntervalAt(lines, j, k, n))
  }

  /** No lines are the accepted start date, end date and interval. */
  ghost predicate NoneAccepted(lines: seq<Line>, n: int) {
    forall i, j, k, s, e, w :: !AcceptedAt(lines, i, j, k, s, e, w, n)
  }

  /** Each prompt is ended by at most one first line. */
  lemma FirstStopsUnique(lines: seq<Line>, n: int)
    ensures forall i, i' :: StartAt(lines, i) && StartAt(lines, i') ==> i == i'
    ensures forall i, j, j', s :: EndAt(lines, i, j, s) && EndAt(lines, i, j', s) ==> j == j'
    ensures forall j, k, k' :: IntervalAt(lines, j, k, n) && IntervalAt(lines, j, k', n) ==> k == k'
  {
  }

  /** No line ends the start-date prompt: the prompt runs out of input. */
  lemma NoStart(lines: seq<Line>, n: int)
    requires forall m :: 0 <= m < |lines| ==> !StartStops(lines[m])
    ensures RunsOut(lines, n) && !GoesBack(lines, n) && NoneAccepted(lines, n)
  {
  }

  /** "0" ends the start-date prompt: the prompts go back. */
  lemma ZeroStart(lines: seq<Line>, n: int, i: int)
    requires StartAt(lines, i) && lines[i] == Zero
    ensures GoesBack(lines, n) && !RunsOut(lines, n) && NoneAccepted(lines, n)
  {
    FirstStopsUnique(lines, n);
  }

  /** No line after the start date ends the end-date prompt: it runs out of input. */
  lemma NoEnd(lines: seq<Line>, n: int, i: int, s: int)
    requires StartAt(lines, i) && lines[i] == Parsed(s)
    requires forall m :: i < m < |lines| ==> !EndStops(lines[m], s)
    ensures RunsOut(lines, n) && !GoesBack(lines, n) && NoneAccepted(lines, n)
  {
    FirstStopsUnique(lines, n);
    assert forall j :: !EndAt(lines, i, j, s);
  }

  /** "0" ends the end-date prompt: the prompts go back. */
  lemma ZeroEnd(lines: seq<Line>, n: int, i: int, j: int, s: int)
    requires StartAt(lines, i) && lines[i] == Parsed(s) && EndAt(lines, i, j, s) && lines[j] == Zero
    ensures GoesBack(lines, n) && !RunsOut(lines, n) && NoneAccepted(lines, n)
  {
    FirstStopsUnique(lines, n);
  }

  /** No line after the end date ends the interval prompt: it runs out of input. */
  lemma NoInterval(lines: seq<Line>, n: int, i: int, j: int, s: int, e: int)
    requires StartAt(lines, i) && lines[i] == Parsed(s) && EndAt(lines, i, j, s) && lines[j] == Parsed(e)
    requires forall m :: j < m < |lines| ==> !IntervalStops(lines[m], n)
    ensures RunsOut(lines, n) && !GoesBack(lines, n) && NoneAccepted(lines, n)
  {
    FirstStopsUnique(lines, n);
    assert forall k :: !IntervalAt(lines, j, k, n);
  }

  /** "0" ends the interval prompt: the prompts go back. */
  lemma ZeroInterval(lines: seq<Line>, n: int, i: int, j: int, k: int, s: int, e: int)
    requires StartAt(lines, i) && lines[i] == Parsed(s) && EndAt(lines, i, j, s) && lines[j] == Parsed(e)
    requires IntervalAt(lines, j, k, n) && lines[k] == Zero
    ensures GoesBack(lines, n) && !RunsOut(lines, n) && NoneAccepted(lines, n)
  {
    FirstStopsUnique(lines, n);
  }

  /** Accepted lines neither go back nor run out, and no other lines are accepted. */
  lemma AcceptedOnce(lines: seq<Line>, n: int, i: int, j: int, k: int, s: int, e: int, w: int)
    requires AcceptedAt(lines, i, j, k, s, e, w, n)
    ensures !GoesBack(lines, n) && !RunsOut(lines, n)
    ensures forall i', j', k', s', e', w' :: AcceptedAt(lines, i', j', k', s', e', w', n) ==> s' == s && e' == e && w' == w
  {
    FirstStopsUnique(lines, n);
  }

  /**
   * Asks for the plan's name, start date, end date and no-repeat interval,
   * each until it is acceptable; typing "0" at any of them goes back.
   */
  method LunchPlannerValidation(table: Table, planName: string, lines: seq<Line>) returns (r: PlannerAnswer)
    // "0" as the name, or as the first line that ends a later prompt, goes back
    ensures r == Back <==> planName == "0" || GoesBack(lines, |table.rows|)
    // the prompts run out of input exactly when one of them is never ended
    ensures r == NoMoreInput <==> planName != "0" && RunsOut(lines, |table.rows|)
    // accepted parameters satisfy the rules the generator relies on
    ensures r.Params? ==> (r.name == planName && EndDateAccepted(r.startDate, r.endDate) &&
      IntervalAccepted(r.minTimeInterval, |table.rows|))
    // they are the first acceptable answers, earlier ones being asked again
    ensures r.Params? ==> exists i, j, k ::
      AcceptedAt(lines, i, j, k, r.startDate, r.endDate, r.minTimeInterval, |table.rows|)
    // and whenever such answers are present they are returned
    ensures planName != "0" ==> forall i, j, k, s, e, w ::
      AcceptedAt(lines, i, j, k, s, e, w, |table.rows|) ==> r == Params(planName, s, e, w)
  {
    if planName == "0" {
      return Back;
    }
    var n := |table.rows|;
    var i := FirstMatch(lines, 0, StartStops);
    if i == |lines| {
      NoStart(lines, n);
      return NoMoreInput;
    }
    if lines[i].Zero? {
      ZeroStart(lines, n, i);
      return Back;
    }
    var startDate := lines[i].value;
    var j := FirstMatch(lines, i + 1, l => EndStops(l, startDate));
    if j == |lines| {
      NoEnd(lines, n, i, startDate);
      return NoMoreInput;
    }
    if lines[j].Zero? {
      ZeroEnd(lines, n, i, j, startDate);
      return Back;
    }
    var endDate := lines[j].value;
    var k := FirstMatch(lines, j + 1, l => IntervalStops(l, n));
    if k == |lines| {
      NoInterval(lines, n, i, j, startDate, endDate);
      return NoMoreInput;
    }
    if lines[k].Zero? {
      ZeroInterval(lines, n, i, j, k, startDate, endDate);
      return Back;
    }
    AcceptedOnce(lines, n, i, j, k, startDate, endDate, lines[k].value);
    assert AcceptedAt(lines, i, j, k, startDate, endDate, lines[k].value, |table.rows|);
    return Params(planName, startDate, endDate, lines[k].value);
  }
}
