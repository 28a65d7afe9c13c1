# todoer task manager, modelled in Dafny

todoer is a command-line to-do list. Its `TaskManager` keeps the tasks in a
vector and offers these operations:

- add a task, asking for tags, a due date and a priority;
- remove a task by id;
- toggle a task's status;
- look a task up by id;
- list the tasks.

A task has a `u32` id, a description, a list of tags, a due date, a priority
(Low, Medium, High) and a status (Todo, Hold, Done, Blocked).

Listing takes a `ViewFilters` value. It holds optional criteria (tags,
statuses, a due date or alias, priorities, a description substring) and an
optional view name:

- If the value has no criteria and no view, every task is printed as a raw
  comma-separated line.
- Otherwise the matching tasks are collected and printed grouped:
  - **by primary tag** (the default): sorted by first tag, then due date, then
    priority. A `# tag` header opens each tag.
  - **by due date** (view `due`): sorted by due date, then first tag, then
    priority. A `Due: YYYY-MM-DD (Weekday)` header opens each day, and a
    `# tag` sub-header marks each tag change.

The model covers:

- the store, as a class whose methods update a `seq<Task>`;
- the filter and its criteria;
- the stable `sort_by` calls, as insertion sort on an array;
- the two grouped walks, as methods that emit the rows they print;
- the glyph and colour helpers.

Each method is proved against a specification function. Lemmas then state what
the listings promise:

- every shown task matches the filter, and every matching task is shown as
  often as it occurs in the store (once, when tasks are distinct);
- every task line sits under the header of its own tag or day;
- headers are strictly increasing, so no tag or day heads two sections;
- ids stay unique;
- the status toggle behaves as follows: requesting Hold, or Done, twice on a
  task in another status leaves it Todo, and repeated requests have period two.

Files, one module each:

| file | module | contents |
|---|---|---|
| `options.dfy` | `Options` | `Option` |
| `text.dfy` | `Text` | decimal digits, split and join, substring search, `String` ordering |
| `dates.dfy` | `Dates` | civil dates, day arithmetic, weekdays, ISO text and its parser |
| `tasks.dfy` | `Tasks` | the task record, its status and priority |
| `labels.dfy` | `Labels` | status glyphs, ANSI colours |
| `resolve.dfy` | `Resolve` | due aliases, fallback days, priority choice |
| `filter.dfy` | `Filter` | `ViewFilters` and the selection |
| `sorting.dfy` | `Sorting` | stable sort as a function and in place |
| `comparators.dfy` | `Comparators` | the two three-key comparators |
| `render.dfy` | `Render` | rows, their text, the two walks |
| `store.dfy` | `Store` | `TaskManager` and the listing dispatch |

Inputs and outputs are handled as follows:

- Console input becomes parameters. `add_task` receives the answers to its
  prompts: tags, due choice, custom date and priority choice.
- Console output becomes a value. A listing is the sequence of `Row`s it
  prints, and `Render.Lines` gives their text, one string per `println!`.
- The clock becomes a parameter. `Local::now().naive_utc().date()` is the
  `today` parameter.
- Panics become error results. These panics are:
  - `unwrap` on a missing id;
  - `tags[0]` on a task without tags;
  - `max + 1` overflowing `u32`.

  The affected operations return `None` or `ok == false` and leave the state
  as it was.

Ids are `max + 1`. They are not a counter, so removing any task except the
newest leaves the next id unchanged (ids 1, 2, 3 without 2: the next task gets
4). Removing the newest task hands its id out again
(`Store.RemovingNewestReusesItsId`).

The by-due comparator reads `tags[0]` only when two due dates tie. Suppose a
task without tags shares its due day with other tasks, and the sort never
compares it with any of them. Then nothing fixes its place among them: their
tags could be chosen to put it first or last among them, and the sort would
give the same result either way. So the sort must read its `tags[0]`, and the
by-due listing fails exactly when a task without tags shares its due day with
another task (`Render.DueComparable`). The by-tag comparator and the
by-tag walk read `tags[0]` of every task. So the by-tag listing fails exactly
when some selected task has no tags (`Render.AllTagged`).

## Model

| member | source | states |
|---|---|---|
| Filter.NewFilters | src/task_manager.rs:21-31 | `ViewFilters::new()` holds no criterion and no view: all six fields are `None` |
| Store.TaskManager.constructor | src/task_manager.rs:35-37 | a new manager has no tasks |
| Store.MaxId | src/task_manager.rs:39-47 | the largest id is at least every task's id, is 0 for an empty list, and is the id of some task otherwise |
| Store.MaxIdAtLeast | src/task_manager.rs:39-47 | every task in the list has an id no larger than the largest id |
| Store.MaxIdOfSublist | src/task_manager.rs:39-47 | a list whose tasks all occur in another has no larger maximum id |
| Store.TaskManager.GetMaxId | src/task_manager.rs:39-47 | the running-maximum loop returns `MaxId` of the store: at least every id, 0 when empty, attained by some task |
| Store.NewTask | src/task_manager.rs:62-106 | the new task has the given id and description and status Todo. Its tags are at least one and join back, with `,`, to the answer. Priority is Low unless the answer is `2` or `3`. Due choice `1` gives today and `4` the fixed 2023-12-31 |
| Store.AddKeepsIdsUnique | src/task_manager.rs:64 | appending a task with id `max + 1` keeps ids unique and makes that id the new maximum |
| Store.TaskManager.AddTask | src/task_manager.rs:61-107 | succeeds exactly when `max + 1` fits in `u32`, and then appends the task built from the answers with id `max + 1`. On overflow nothing changes |
| Text.Split | src/task_manager.rs:65-68 | `split(',')` yields at least one part, and no part contains the separator |
| Text.JoinSplit | src/task_manager.rs:65-68 | joining the parts of a split with the separator gives back the text |
| Text.SplitJoin | src/task_manager.rs:65-68 | splitting a join of separator-free parts gives back the parts |
| Resolve.ResolveAddDue | src/task_manager.rs:69-93 | due choice `1` is today, `2` one day later, `3` seven days later, `4` 2023-12-31. Any other answer takes the custom date when it parses, else 2023-01-01 |
| Resolve.PriorityFromChoice | src/task_manager.rs:94-104 | High exactly for `3`, Medium exactly for `2`, Low for every other answer |
| Dates.AddDays | src/task_manager.rs:80-82 | adding `n` days moves the day number by exactly `n`, and a positive `n` gives a later date |
| Dates.NextDay | src/task_manager.rs:81 | the next day is later and one day number on |
| Dates.NextDayIsSuccessor | src/task_manager.rs:81 | no date lies strictly between a day and the next |
| Dates.ParseIsoDateOfIsoDate | src/task_manager.rs:84-87 | every date of years 0 to 9999 parses back from its `%Y-%m-%d` text |
| Dates.IsoDateOfParseIsoDate | src/task_manager.rs:84-87 | whatever parses is exactly the text of the parsed date |
| Store.Without | src/task_manager.rs:109-112 | `retain` keeps exactly the tasks whose id differs, and never lengthens the list |
| Store.WithoutIsSubsequence | src/task_manager.rs:111 | the kept tasks stay in their order |
| Store.WithoutKeepsCounts | src/task_manager.rs:111 | every task with another id is kept as often as it occurred |
| Store.WithoutAbsent | src/task_manager.rs:111 | removing an id no task has changes nothing |
| Store.RemoveKeepsIdsUnique | src/task_manager.rs:109-112 | removing keeps ids unique |
| Store.RemoveKeepsMaxId | src/task_manager.rs:109-112 | removing any id but the largest leaves the largest id, and so the next id, unchanged |
| Store.RemovingNewestReusesItsId | src/task_manager.rs:64 | after the newest task is removed, the next id handed out is that task's id again |
| Store.TaskManager.RemoveTask | src/task_manager.rs:109-112 | the store becomes `Without(old tasks, id)` |
| Store.FindById | src/task_manager.rs:116 | `find` gives the first position holding the id, or none exactly when no task has it |
| Store.FindByIdUnique | src/task_manager.rs:116 | with unique ids the position found is the one task with that id |
| Store.NextStatus | src/task_manager.rs:118-126 | the new status is the requested one, or Todo exactly when Hold or Done is requested for a task already in it |
| Store.HoldOrDoneTwice | src/task_manager.rs:118-126 | requesting Hold, or Done, twice on a task in another status leaves it Todo |
| Store.TodoOrBlockedTwice | src/task_manager.rs:118-126 | a request for Todo or Blocked always takes effect, and repeating it changes nothing |
| Store.ToggleHasPeriodTwo | src/task_manager.rs:118-126 | the third identical request has the effect of the first |
| Store.TaskManager.AdjustStatus | src/task_manager.rs:114-127 | succeeds exactly when some task has the id. Only the first such task changes, and only its status, to `NextStatus`. Otherwise nothing changes |
| Store.TaskManager.GetTask | src/task_manager.rs:367-369 | none exactly when no task has the id. Otherwise the first task with that id |
| Tasks.PrimaryTag | src/task_manager.rs:224 | the first tag of a task that has tags |
| Tasks.StatusNameInjective | src/task_manager.rs:153 | filtering by status text is filtering by status: distinct statuses have distinct texts |
| Tasks.PriorityNameInjective | src/task_manager.rs:188 | distinct priorities have distinct texts |
| Text.ContainsIffOccurs | src/task_manager.rs:193 | the description criterion holds exactly when the needle occurs at some position |
| Resolve.ResolveFilterDue | src/task_manager.rs:157-186 | `today` is today, `tomorrow` one day on, `thisweek` seven days on, `sometime` 2023-12-31. Any other text is the date it parses to, else 2023-12-31 |
| Resolve.AliasesAgree | src/task_manager.rs:158-168 | each filter alias names the same day as the add-flow shortcut for the same offset |
| Resolve.CustomDateFallbacksDiffer | src/task_manager.rs:170-181 | on parseable text the filter and the add flow agree. On other text the filter falls back to 2023-12-31 and the add flow to 2023-01-01, different days |
| Resolve.ResolveFilterDueOfIsoDate | src/task_manager.rs:173-174 | the ISO text of any date of years 0 to 9999 filters for exactly that date |
| Resolve.ResolveFilterDueOrder | src/task_manager.rs:159-165 | `tomorrow` is after today, `thisweek` is after `tomorrow`, and six days separate them |
| Store.IsFound | src/task_manager.rs:132-196 | the `found` flag survives the criteria exactly when the task matches every criterion present |
| Filter.TagCriterion | src/task_manager.rs:145-150 | an absent tag criterion passes every task. A present one passes only tagged tasks, and never with an empty list |
| Filter.StatusCriterion | src/task_manager.rs:151-156 | an absent status criterion passes every task, and an empty list rejects every task |
| Filter.DueCriterion | src/task_manager.rs:157-186 | an absent due criterion passes every task. `today` keeps exactly the tasks due today, `sometime` exactly those due 2023-12-31 |
| Filter.PriorityCriterion | src/task_manager.rs:187-191 | an absent priority criterion passes every task, and an empty list rejects every task |
| Filter.DescriptionCriterion | src/task_manager.rs:192-196 | an absent or empty needle passes every task. A needle that passes is no longer than the description |
| Filter.Matches | src/task_manager.rs:145-196 | with no criterion every task matches, and a tag criterion matches only tagged tasks |
| Filter.SelectCounts | src/task_manager.rs:197-199 | every matching task is collected as often as it occurs in the store, and no other task is collected |
| Filter.Select | src/task_manager.rs:130-200 | the collected tasks are never more than the store's |
| Filter.SelectMembers | src/task_manager.rs:130-200 | a task is collected exactly when it is in the store and matches |
| Filter.SelectSnoc | src/task_manager.rs:197-199 | one more task is collected exactly when it matches |
| Filter.SelectIsSubsequence | src/task_manager.rs:130-200 | the collected tasks keep the store's order |
| Filter.SelectAll | src/task_manager.rs:145-196 | with no criterion every task is collected, in order |
| Filter.NarrowedMatches | src/task_manager.rs:145-196 | adding criteria can only turn a match into a non-match |
| Filter.NarrowedSelect | src/task_manager.rs:145-196 | filtering with more criteria is filtering the wider selection again, and never collects more |
| Store.Grouped | src/task_manager.rs:202-206 | the `due` view succeeds exactly when `DueComparable`, any other view exactly when `AllTagged`. On success the listed tasks are a permutation of the selection |
| Store.Listing | src/task_manager.rs:129-207 | with `ViewFilters::new()` the raw lines of all tasks. Otherwise a listing whose tasks are a permutation of the matching ones |
| Store.ListingShowsMatches | src/task_manager.rs:129-207 | a task appears in a grouped listing exactly when it is in the store and matches |
| Store.UnfilteredListsAll | src/task_manager.rs:134-143 | the unfiltered listing shows every task once, in store order |
| Store.ViewOnlyGroupsAll | src/task_manager.rs:134 | a filter that only names a view groups every task instead of dumping raw lines |
| Store.ListingFailsOnMissingTag | src/task_manager.rs:222-234 | a listing fails only when some matching task has no tags |
| Store.NarrowerListingIsShorter | src/task_manager.rs:145-199 | more criteria never list more tasks |
| Store.CollectFound | src/task_manager.rs:130-200 | the loop yields every task's raw line and collects nothing for `ViewFilters::new()`, and otherwise collects exactly `Select` and prints nothing |
| Store.PrintGrouped | src/task_manager.rs:202-206 | the view dispatch prints exactly `Grouped`: the by-due listing for `due`, the by-tag one otherwise, none where it would panic |
| Store.ListingOfWalk | src/task_manager.rs:129-207 | raw lines followed by the dispatched grouped listing are `Listing` |
| Store.TaskManager.ListTasks | src/task_manager.rs:129-207 | the walk prints exactly `Listing(tasks, filters, today)`, and fails where a grouped listing would panic |
| Comparators.Compare | src/task_manager.rs:222-230 | a comparator answers Equal exactly when first tag, due date and priority all agree; the by-due one, at lines 283-291, reads the same keys in another order |
| Comparators.CompareText | src/task_manager.rs:224-225 | `String::cmp` is Equal exactly on equal texts |
| Comparators.CompareDate | src/task_manager.rs:227 | date comparison is Equal exactly on equal dates |
| Comparators.ComparePriority | src/task_manager.rs:229 | priority comparison is Equal exactly on equal priorities |
| Comparators.CompareTextReverse | src/task_manager.rs:224-225 | swapping the texts reverses the comparison |
| Comparators.CompareTextTransitive | src/task_manager.rs:224-225 | text comparison is transitive, strictly when either step is strict |
| Comparators.CompareReverse | src/task_manager.rs:222-230 | both three-key comparators are antisymmetric |
| Comparators.CompareTransitive | src/task_manager.rs:222-230 | both three-key comparators are transitive |
| Comparators.Precedes | src/task_manager.rs:222-230 | "sorts strictly before" is the comparator answering Less |
| Comparators.PrecedesIsStrictWeakOrder | src/task_manager.rs:283-291 | both comparators are strict weak orders, as `sort_by` requires |
| Text.LexLessIrreflexive | src/task_manager.rs:224-225 | no text sorts before itself |
| Text.LexLessAsymmetric | src/task_manager.rs:224-225 | two texts never each sort before the other |
| Text.LexLessTransitive | src/task_manager.rs:224-225 | text order is transitive |
| Text.LexLessTotal | src/task_manager.rs:224-225 | of two different texts one sorts before the other |
| Sorting.SortBySpec | src/task_manager.rs:221-230 | the sorted list is a permutation of the input, of the same length, in comparator order |
| Sorting.SortBy | src/task_manager.rs:221-230 | sorting keeps the length |
| Sorting.SortBySorted | src/task_manager.rs:221-230 | a list already in order is left as it is |
| Sorting.Ties | src/task_manager.rs:221-230 | the tasks that tie with a given one under the comparator, in list order, are at most the list |
| Sorting.InsertTies | src/task_manager.rs:221-230 | inserting an element places it behind every element it ties with |
| Sorting.SortByStable | src/task_manager.rs:221-230 | stability: tasks whose keys tie keep their input order in the sorted list |
| Sorting.TiesFromList | src/task_manager.rs:221-230 | a tie class holds only elements of the list |
| Sorting.TiesOfLast | src/task_manager.rs:221-230 | the last element of a list ties with itself, so its tie class is not empty |
| Sorting.SortedTiesSameLast | src/task_manager.rs:221-230 | two ordered lists with the same tie classes end with the same element |
| Sorting.SortedTiesUnique | src/task_manager.rs:221-230 | two ordered lists with the same tie classes are equal |
| Sorting.StableSortUnique | src/task_manager.rs:221-230 | any ordered arrangement that keeps tied tasks in input order is `SortBy`, so every stable sort gives the same list |
| Sorting.SortByIdempotent | src/task_manager.rs:221-230 | sorting twice is sorting once |
| Sorting.SortInPlace | src/task_manager.rs:221-230 | the array, sorted in place, holds `SortBy` of its old contents |
| Render.ListingOrder | src/task_manager.rs:221-291 | each grouped listing shows the tasks in sorted order: a permutation of the selection, ordered by its comparator |
| Render.SortedTagged | src/task_manager.rs:221-230 | sorting keeps every task tagged |
| Render.PrintByTag | src/task_manager.rs:209-248 | on tagged tasks the walk prints exactly `TagListing`, the by-tag rows of the sorted list |
| Render.AllTagged | src/task_manager.rs:224 | every task has a first tag, which the by-tag comparator and walk read |
| Render.TagRows | src/task_manager.rs:232-247 | the rows of the by-tag walk: a header when the first tag changes, then the task line |
| Render.TagRowsLength | src/task_manager.rs:232-247 | the walk prints each task's line and at most one header before it |
| Render.TagListing | src/task_manager.rs:221-247 | `n` tasks give between `n` and `2n` rows |
| Render.TagWalkStep | src/task_manager.rs:233-247 | one step of the walk adds a header exactly when the first tag differs from the previous one, then the task line |
| Render.TagRowsEntries | src/task_manager.rs:232-247 | the task lines show every task of the sorted list once, in order |
| Render.SectionTagOfTagRows | src/task_manager.rs:232-238 | after the walk, the last header is `current_tag` |
| Render.TagLinesUnderOwnHeader | src/task_manager.rs:232-247 | every task line stands under the header of its own first tag |
| Render.TagHeadersNameTasks | src/task_manager.rs:234-237 | every header names the first tag of a listed task |
| Render.TagHeadersCoverTags | src/task_manager.rs:232-237 | every first tag other than the empty text gets a header |
| Render.SortedByTagTags | src/task_manager.rs:222-230 | in by-tag order a later task never has a smaller first tag |
| Render.SortedTagsInOrder | src/task_manager.rs:222-230 | along a list sorted by tag, first tags never decrease |
| Render.TagHeadersIncreasing | src/task_manager.rs:232-238 | when first tags never decrease, the headers are strictly increasing and none is above the last tag |
| Render.TagListingHeadersIncreasing | src/task_manager.rs:221-238 | in the by-tag listing no tag heads two sections |
| Render.TagHeaderLines | src/task_manager.rs:236-237 | the header prints a blank line, `# ` and the tag, then a divider |
| Render.GlyphBox | src/task_manager.rs:240-241 | the status glyph between brackets |
| Render.TagTaskLine | src/task_manager.rs:239-246 | a by-tag task line opens with the glyph box and then `[` |
| Render.PrintByDue | src/task_manager.rs:267-315 | on comparable tasks the walk prints exactly `DueListing`, the by-due rows of the sorted list |
| Render.DueComparable | src/task_manager.rs:283-291 | every task that shares its due day with another task has a first tag, which the by-due comparator reads on a tie |
| Render.TaggedIsDueComparable | src/task_manager.rs:283-291 | a list the by-tag listing accepts is accepted by the by-due one, and so is a list whose days all differ |
| Render.CurrentTag | src/task_manager.rs:303-306 | `current_tag` after a prefix of the walk, which only tagged tasks update |
| Render.CurrentTagOfLatestTagged | src/task_manager.rs:295-306 | `current_tag` is empty until a tagged task is printed, and then the first tag of the latest one |
| Render.DueRows | src/task_manager.rs:297-314 | the rows of the by-due walk: a day header when the day changes, a tag sub-header when the tag changes, then the task line |
| Render.DueRowsLength | src/task_manager.rs:297-314 | the walk prints each task's line and at most two headers before it |
| Render.DueListing | src/task_manager.rs:282-314 | `n` tasks give between `n` and `3n` rows |
| Render.DueWalkStep | src/task_manager.rs:297-314 | one step adds a day header exactly when the ISO text differs from `current_due`, a tag sub-header when the first tag changes, then the task line |
| Render.DueHeaderWhenDayChanges | src/task_manager.rs:298-302 | comparing ISO texts is comparing days: the text differs exactly when the day does |
| Render.DueRowsEntries | src/task_manager.rs:297-314 | the task lines show every task of the sorted list once, in order |
| Render.SectionDueOfDueRows | src/task_manager.rs:297-302 | after the walk, the last day header is the last task's day |
| Render.DueLinesUnderOwnHeader | src/task_manager.rs:297-314 | every task line stands under the header of its own due day |
| Render.SubSectionTagOfDueRows | src/task_manager.rs:303-306 | after the walk, the last tag sub-header is `current_tag` |
| Render.DueLinesUnderOwnTag | src/task_manager.rs:303-313 | every tagged task line stands under the sub-header of its own first tag |
| Render.SubHeaderCarriesOver | src/task_manager.rs:303-306 | a new day whose first task has the previous task's tag prints no tag sub-header, because `current_tag` is not reset |
| Render.SortedByDueDays | src/task_manager.rs:283-291 | in by-due order a later task is never due earlier |
| Render.SortedDaysInOrder | src/task_manager.rs:283-291 | along a list sorted by due date, days never decrease |
| Render.DueHeadersChronological | src/task_manager.rs:297-302 | when days never decrease, the day headers are strictly increasing and none is after the last task's day |
| Render.DueListingHeadersChronological | src/task_manager.rs:283-302 | in the by-due listing no day heads two sections |
| Render.DueHeaderLines | src/task_manager.rs:299-300 | the header prints a blank line, `Due: ` and the ISO date, then a divider |
| Render.DueTagLine | src/task_manager.rs:304 | the sub-header is `# ` and the tag |
| Render.DueTaskLine | src/task_manager.rs:307-313 | a by-due task line opens with the glyph box and then `[#` |
| Render.RawTaskLine | src/task_manager.rs:135-142 | a raw line opens with the id's first digit |
| Render.RawRows | src/task_manager.rs:131-143 | one raw line per task, in store order |
| Render.RawRowsEntries | src/task_manager.rs:131-143 | the raw lines show every task once, in order |
| Render.RowLines | src/task_manager.rs:236-313 | a header row prints two lines, every other row one, and no line is empty |
| Render.Flatten | src/task_manager.rs:233-314 | the lines of a sequence of items, each item printing its own lines, in order |
| Render.FlattenSnoc | src/task_manager.rs:233-314 | one more item adds exactly its own lines at the end |
| Render.FlattenAppend | src/task_manager.rs:233-314 | the lines of two sequences one after the other are their lines one after the other |
| Render.Lines | src/task_manager.rs:233-314 | the text of a listing: the lines of its rows, in order |
| Render.LinesLength | src/task_manager.rs:233-314 | `n` rows print between `n` and `2n` lines |
| Render.LinesAppend | src/task_manager.rs:233-314 | the text of two listings in a row is their texts in a row |
| Render.LineOpenings | src/task_manager.rs:135-308 | the first character of a row's text tells its kind: `[` a task line, a line break a header, `#` a tag sub-header, a digit a raw line |
| Text.NumDigits | src/task_manager.rs:242 | the digit count is the least width the number fits in |
| Text.LeadingDigitNonZero | src/task_manager.rs:242 | a number that needs its full width starts with a non-zero digit |
| Text.Decimal | src/task_manager.rs:242 | an id prints as its digit count of digits that read back as the id, with no leading zero except for 0 itself |
| Text.Join | src/task_manager.rs:141 | `parts.join(sep)`: the parts with the separator between each two |
| Text.JoinShape | src/task_manager.rs:141 | a join opens with the first part, followed by the separator when there are more parts, and ends with the last part |
| Text.Contains | src/task_manager.rs:193 | a needle at the start, and so the empty needle, is found. A needle longer than the text never is |
| Text.LexLess | src/task_manager.rs:224-225 | no text sorts before itself, and a proper prefix sorts before the longer text |
| Dates.IsoDate | src/task_manager.rs:298 | the date text has the year's width plus six characters |
| Dates.IsoDateInjective | src/task_manager.rs:298-301 | different days have different ISO texts |
| Dates.MonthDay | src/task_manager.rs:245 | `%m-%d` is two digits reading as the month, a dash, and two digits reading as the day |
| Dates.Weekday | src/task_manager.rs:299 | the weekday index is in 0..6 |
| Dates.WeekdayOfNextDay | src/task_manager.rs:299 | the weekday advances by one, cyclically, with the day |
| Dates.WeekdayEpoch | src/task_manager.rs:299 | 1970-01-01 is day 0 and a Thursday |
| Dates.WeekdayName | src/task_manager.rs:299 | `%A` is a full English weekday name, ending in `day` |
| Dates.YearText | src/task_manager.rs:298 | years 0 to 9999 print as exactly four digits reading as the year. Later years start with `+` and earlier ones with `-` |
| Dates.ParseIsoDate | src/task_manager.rs:173 | an accepted text has ten characters, dashes at positions 4 and 7, and digit groups that read as the year, month and day of the result |
| Dates.MarchYear | src/task_manager.rs:80-82 | the March-based year is the calendar year, or the one before for January and February |
| Dates.MarchOffset | src/task_manager.rs:80-82 | a day lies within its March-based year, and its day number is that year's start plus its offset |
| Dates.MarchStartIncreasing | src/task_manager.rs:80-82 | each March-based year starts at least a full year after any earlier one |
| Dates.DayNumberIncreasing | src/task_manager.rs:80-82 | a later date has a larger day number |
| Dates.DayNumberInjective | src/task_manager.rs:80-82 | different dates have different day numbers, so adding days names one date |
| Labels.TaskSymbol | src/task_manager.rs:250-257 | every glyph is one character |
| Labels.TaskSymbolInjective | src/task_manager.rs:250-257 | different statuses show different glyphs |
| Labels.ColorCode | src/task_manager.rs:322-332 | every colour code is non-empty and free of `m`, so the escape ends at the first `m` |
| Labels.ColorString | src/task_manager.rs:317-334 | the coloured text opens with ESC `[`, the colour's SGR code and `m`; it is seven characters plus the code longer than the text, and stripping the escape and the reset gives the text back |
| Labels.PriorityColor | src/task_manager.rs:261-263 | every priority's colour has a real ANSI code, never the reset fallback |
| Labels.PriorityLabel | src/task_manager.rs:259-265 | the label, uncoloured, is the priority's name |
| Labels.PriorityLabelInjective | src/task_manager.rs:259-265 | different priorities show different labels |

## Left out

- Prompting (`get_input`) and reading standard input: the answers are parameters of `Store.TaskManager.AddTask`.
- Printing: listings return the rows they would print, and `Render.Lines` gives their text. Terminal rendering of the ANSI escapes is not modelled.
- The clock: `today` is a parameter. The source reads the clock once per due criterion and per task, so a listing running across midnight could mix two days. The model uses one day per call.
- `from_file` and the CSV format (`Task::from_record`): file I/O, and `src/task.rs` is not part of this model.
- `src/main.rs` (argument parsing and the command dispatch) is not part of this model.
- The `Display` texts of `Status` and `Priority` (`Todo`, `Low`, …) live in `src/task.rs`, which is not part of this model. The model takes the variant names.
- Store.TaskManager.AddTask: an id overflowing `u32` (a panic in a debug build, wrap-around to 0 in a release build) is modelled as a failed add that changes nothing.
- Dates.ParseIsoDate: chrono's `%Y-%m-%d` parser is more lenient than the model. It also accepts, for instance, a signed year or a one-digit month. The model accepts exactly `YYYY-MM-DD` naming a real day, and every other text takes the fallback day.
- Dates.AddDays: chrono's `NaiveDate + Duration` panics past the end of its year range (about 262000 years either way). The model's years are unbounded, so adding days never fails.
- Dates.IsoDate: only years 0 to 9999 are proved to round-trip through the parser. Dates outside that range are printed with a sign, as chrono does, but are not parsed back.
- Sorting.SortInPlace: `sort_by` is a merge sort. The model sorts by stable insertion. Both give the same result: the comparators are proved to be strict weak orders, insertion sort is proved stable (`Sorting.SortByStable`), and any ordered arrangement that keeps tied elements in input order is proved to be the insertion sort (`Sorting.StableSortUnique`).
- Store.TaskManager.GetTask and Store.TaskManager.AdjustStatus: the `unwrap` panic on a missing id is a `None` or `false` result.
- Render.TagTaskLine, Render.DueTaskLine, Render.RawTaskLine: the contracts fix how each line opens. The rest of each line (id, coloured label, description, date) is the function's definition, in the `format!` order of the source.
- Labels.TaskSymbol: the contract fixes one character per glyph and injectivity. The four glyphs themselves are the definition.
