# Lunch planner — a Dafny model

This project models the core of a console lunch planner. The planner keeps a
catalogue of dishes in a table. Each row is a dish name and its course, 1 or 2.
From that catalogue it generates a plan for a range of dates. Each day gets a
dish chosen at random, and a draw is rejected while its dish is among the
dishes of the last `min_interval_time - 1` planned days.

The model has five modules:

- `Wrappers`: the `Option` datatype.
- `Dishes`: a `Dish` row and the `Table` class. `Table` holds its rows as a
  `seq<Dish>` and has `Insert`, `Delete` and `ListDishes`. Each change is
  specified by a pure function, `InsertRow` or `DeleteRows`.
- `Schedules`: the generator as pure functions. `Window` is the exclusion
  window, the Python slice `plan[-w + 1:]`. `FirstAccepted` is the rejection
  sampler. `DayRange` lists the days, and `Schedule` assembles the plan day by
  day. The lemmas about these functions state the plan's guarantees.
- `LunchPlans`: the `LunchPlan` class. Its imperative `MakePlan` is proved
  equal to `Schedule`. `LunchForToday` looks up today's dish.
  `DrawUntilEligible` is the per-day retry loop.
- `Validation`: the input prompts. Each prompt is a retry loop (`FirstMatch`)
  over a finite sequence of already-parsed input lines.

Calendar dates are integer day ordinals, so the day after `d` is `d + 1`.
`random.choice` is replaced by a stream `draws` of the indices that the
successive random choices return. The generator's `while True` loop is
bounded by the length of that stream. If the stream ends before a dish is
accepted, the run reports `OutOfDraws`. Call a source fair for a block length
`L` when every `L` consecutive draws show every dish at least once; repeats
within a block are allowed. The lemma `FairDrawsComplete` shows that such a
source with `|days| * L` draws fills every day when the validated parameters
hold: dish names are distinct and `2 <= w <= |dishes|`.

Behaviour of the code worth noting:

- `make_plan` does not check its parameters. An end date earlier than the
  start date gives an empty day list and an empty plan (`DayRange`).
- A day to fill with an empty dish list makes `random.choice` fail. The model
  reports this as `NoDishes`.
- The window is the Python slice `plan[-w + 1:]`. For `w == 1` this is
  `plan[0:]`, which excludes every dish already planned. This is stated in
  `Window`'s contract. `w == 1` never reaches the generator, because the
  interval prompt accepts only `2 <= w <= number of dishes`.
- A second call of `make_plan` on the same object recomputes the days and
  appends to the existing plan. `MakePlan` states this from `old(lunchPlan)`.

## Model

| member | source | states |
|---|---|---|
| `Dishes.InsertRow` | classes.py:161-165 | a row is added exactly when the name is not yet in the table and the course is 1 or 2; earlier rows are kept; distinct names and valid courses are preserved |
| `Dishes.DeleteRows` | classes.py:176 | exactly the rows with another name survive; the name is gone afterwards; a row is removed iff the name was present |
| `Dishes.DeleteKeepsRules` | classes.py:176 | deletion preserves distinct names and courses 1 or 2 |
| `Dishes.DeleteAbsent` | classes.py:176 | deleting a name not in the table leaves it unchanged |
| `Dishes.DeleteConcat` | classes.py:176 | deletion distributes over concatenation, so surviving rows keep their order |
| `Dishes.InsertThenDelete` | classes.py:161-176 | inserting a new name and then deleting it restores the table |
| `Dishes.Table.constructor` | classes.py:137-147 | a table object is attached to its name and its stored rows |
| `Dishes.Table.Insert` | classes.py:149-165 | the rows become `InsertRow` of the old rows; a valid table stays valid |
| `Dishes.Table.Delete` | classes.py:167-177 | the rows become `DeleteRows` of the old rows; a valid table stays valid |
| `Dishes.Table.ListDishes` | classes.py:179-190 | returns the stored rows in order; on a valid table their names are distinct |
| `Schedules.Window` | classes.py:262 | the excluded names are the dishes of the last `w - 1` entries (fewer while the plan is shorter); none before the first day; the whole plan when `w == 1` |
| `Schedules.Eligible` | classes.py:262 | the rejection test: a drawn dish is accepted when its name is not in the window |
| `Schedules.EligibleIff` | classes.py:262 | for `w >= 2`, a dish is eligible exactly when none of the last `w - 1` entries serves it |
| `Schedules.InWindow` | classes.py:262 | the dish of each of the last `w - 1` entries is excluded |
| `Schedules.FirstAccepted` | classes.py:260-264 | the accepted draw is the first one from `pos` whose dish is not excluded; all draws before it were rejected; None iff every remaining draw is rejected |
| `Schedules.DayRange` | classes.py:256-257 | `end - start + 1` days (none if `end < start`), day `i` is `start + i`, and a day is listed iff it lies between start and end |
| `Schedules.Schedule` | classes.py:256-264 | the plan grows only at its end, by at most one entry per day; the run completes iff every day received an entry |
| `Schedules.ScheduleStep` | classes.py:259-264 | one day: the first eligible draw appends (day, dish) and the next day continues from the following draw |
| `Schedules.ScheduleStuck` | classes.py:260-262 | a day with no eligible remaining draw ends the run with the plan built so far |
| `Schedules.ScheduleDates` | classes.py:257-263 | the `j`-th new entry is dated with the `j`-th day |
| `Schedules.ScheduleAccepts` | classes.py:261-263 | every new entry's dish is a dish of the table and was not excluded by the window of the entries before it |
| `Schedules.AppendKeepsSpaced` | classes.py:262-263 | appending a dish the window admits keeps every `w` consecutive entries free of repeats |
| `Schedules.SpacedPair` | classes.py:262 | in a spaced plan two entries fewer than `w` apart serve different dishes |
| `Schedules.EligibleEntriesKeepSpaced` | classes.py:259-264 | a spaced plan followed only by entries that the window before each admitted is spaced |
| `Schedules.ScheduleKeepsSpaced` | classes.py:259-264 | the generator keeps the no-repeat property: no dish twice among `w` consecutive entries |
| `Schedules.EligibleDishExists` | classes.py:262 | with distinct names and `2 <= w <= number of dishes`, some dish is always eligible (the window excludes at most `w - 1` names) |
| `Schedules.FairDrawAcceptedSoon` | classes.py:260-264 | when the next `L` draws show every dish, the retry loop accepts one of them, within those `L` draws |
| `Schedules.FairDrawsComplete` | classes.py:259-264 | with distinct names and `2 <= w <= number of dishes`, a source whose every `L` consecutive draws show every dish fills every day from `days * L` draws |
| `Schedules.SpacedWindowDistinct` | classes.py:262 | the names in the window of a spaced plan are pairwise different |
| `Schedules.FullWindowLeavesOne` | classes.py:262 | when `w` equals the number of dishes and the window is full, exactly one name lies outside it |
| `Schedules.TightWindowForcesChoice` | classes.py:262 | when `w` equals the number of dishes and the plan has at least `w - 1` entries, exactly one dish is eligible |
| `Schedules.TwoDishesAlternate` | classes.py:262-263 | a spaced plan over two dishes with `w == 2` alternates: entry `j` has the dish of entry `j % 2` |
| `Schedules.TwoDishScheduleAlternates` | classes.py:256-264 | every plan the generator builds with two dishes and `w == 2` alternates |
| `Schedules.RunFacts` | classes.py:256-264 | a run over a date range: entries dated `start + offset`, dishes from the table admitted by the window, spacing kept, completion under a source fair for any block length `L` with `days * L` draws |
| `LunchPlans.DrawUntilEligible` | classes.py:260-264 | the per-day retry loop returns exactly the draw `FirstAccepted` specifies |
| `LunchPlans.LunchPlan.constructor` | classes.py:220-241 | the plan keeps its name, dates and interval, reads the table's rows once, and starts with no days and no entries |
| `LunchPlans.LunchPlan.MakePlan` | classes.py:243-266 | days become `DayRange(start, end)`; the plan becomes `Schedule` of the old plan; old entries are kept; each new entry is dated `start + offset` and holds a table dish the window admitted; spacing is kept; a source fair for block length `L` with `days * L` draws fills every day |
| `LunchPlans.LunchPlan.LunchForToday` | classes.py:301-328 | asks until 'tak' or 'nie'; after 'nie' nothing is shown; after 'tak' it reports that today is not a plan day exactly when it is not, else the dish of the first entry dated today, which on a completed plan is the entry at offset `today - start` |
| `Validation.FirstMatch` | validation_functions.py:36-45 | the retry loop stops at the first input that passes, and every input before it failed |
| `Validation.ChoiceAccepted` | validation_functions.py:38-39 | a menu input is accepted when it parses as an integer that is one of the offered choices |
| `Validation.UserChoiceValidation` | validation_functions.py:15-45 | returns only a member of the offered choices, namely the first integer input that is one |
| `Validation.CourseAccepted` | validation_functions.py:68-69 | a course input is accepted when it parses as 1 or 2 |
| `Validation.WhichCourseValidation` | validation_functions.py:48-74 | returns only 1 or 2, namely the first integer input that is 1 or 2 |
| `Validation.IsYesNo` | validation_functions.py:105 | the yes/no prompts accept exactly 'tak' and 'nie' |
| `Validation.NewRecordValidation` | validation_functions.py:77-108 | returns only 'tak' or 'nie', namely the first such input |
| `Validation.AddNewDishValidation` | validation_functions.py:111-135 | returns only a name not in the table, the first such input, so `Insert` with course 1 or 2 adds it |
| `Validation.DeleteDishValidation` | validation_functions.py:138-163 | returns only a name in the table, the first such input, so `Delete` removes at least one row |
| `Validation.EndDateAccepted` | validation_functions.py:214 | an end date is accepted unless it is earlier than the start date |
| `Validation.IntervalAccepted` | validation_functions.py:234 | an interval is accepted when it lies between 2 and the number of dishes |
| `Validation.StartStops` | validation_functions.py:199-203 | the start-date prompt ends on "0" or on a line that parses as a date |
| `Validation.EndStops` | validation_functions.py:210-219 | the end-date prompt ends on "0" or on a date not earlier than the start date |
| `Validation.IntervalStops` | validation_functions.py:230-235 | the interval prompt ends on "0" or on an integer accepted as the interval |
| `Validation.StartAt` | validation_functions.py:196-205 | line `i` is the first line that ends the start-date prompt |
| `Validation.EndAt` | validation_functions.py:207-221 | line `j` is the first line after `i` that ends the end-date prompt |
| `Validation.IntervalAt` | validation_functions.py:223-239 | line `k` is the first line after `j` that ends the interval prompt |
| `Validation.AcceptedAt` | validation_functions.py:196-241 | lines `i`, `j`, `k` are the accepted start date, end date and interval |
| `Validation.GoesBack` | validation_functions.py:199-200 | the first line that ends one of the three prompts is "0" |
| `Validation.RunsOut` | validation_functions.py:196-239 | one of the three prompts is still waiting when the lines run out |
| `Validation.FirstStopsUnique` | validation_functions.py:196-239 | each prompt has at most one first ending line |
| `Validation.NoStart` | validation_functions.py:196-205 | when no line ends the start-date prompt, the prompts run out and accept nothing |
| `Validation.ZeroStart` | validation_functions.py:199-200 | "0" at the start-date prompt goes back and accepts nothing |
| `Validation.NoEnd` | validation_functions.py:207-221 | when no line ends the end-date prompt, the prompts run out and accept nothing |
| `Validation.ZeroEnd` | validation_functions.py:210-211 | "0" at the end-date prompt goes back and accepts nothing |
| `Validation.NoInterval` | validation_functions.py:223-239 | when no line ends the interval prompt, the prompts run out and accept nothing |
| `Validation.ZeroInterval` | validation_functions.py:230-231 | "0" at the interval prompt goes back and accepts nothing |
| `Validation.AcceptedOnce` | validation_functions.py:196-241 | accepted lines neither go back nor run out, and they are the only accepted lines |
| `Validation.LunchPlannerValidation` | validation_functions.py:166-241 | goes back exactly when the name is '0' or the first line that ends a later prompt is "0"; runs out of input exactly when a prompt is never ended; otherwise returns the first accepted start date, end date and interval, with end not earlier than start and `2 <= interval <= number of dishes` |

## Left out

- The `Database` class and the SQL in `Table`: connections, `CREATE`/`DROP TABLE` and commits are foreign-library I/O. A table is an in-memory row sequence in storage order.
- `Table.list_of_dishes`: a cached copy of the last query result that nothing reads back. `ListDishes` returns the rows without storing them.
- The `database` and `table` references and `days_to_str` of `LunchPlan`: they do not affect the plan.
- `print_plan` and `save_plan`: console and file output, `strftime` formatting and `time.sleep`.
- `input()`, `int()` and `datetime.strptime`: the prompts take already-parsed lines. A line is `None`, `Unparsable` or `Zero` when the Python program would reject it or see the literal "0". The printed messages are not modelled.
- `Schedules.FairDrawsComplete`: completion is proved for sources whose every `L` consecutive draws show every dish, for any fixed `L`. A truly random source meets such a bound only with high probability, and that probability is not modelled.
- `LunchPlans.LunchPlan.LunchForToday`: the clock (`datetime.date.today()`) becomes the parameter `today`. The endless re-asking of the yes/no prompt is bounded by a finite answer sequence, and running out of it is reported as `NoAnswer`.
- The distribution of `random.choice`: the model states which plans are admissible, not how likely they are or how many retries a day takes.
- `LunchPlans.LunchPlan.MakePlan`: does not model the unbounded `while True` loop. The draws come from a finite stream, and a run that exhausts it ends with `OutOfDraws`, an outcome the Python program cannot have: it would keep drawing.
- `Validation.LunchPlannerValidation` and the other prompts: do not model the endless re-asking. A finite input sequence that holds no acceptable line ends with `None` or `NoMoreInput`.
- main.py, main_functions.py and database_management_functions.py: console menus, file paths, CSV reading and file deletion. Their only logic, adding a missing `.db` suffix, is not modelled.
