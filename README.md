# TaskMaster dashboard: a Dafny model of its task logic

TaskMaster is a single-page React task dashboard. Tasks have a title, a
description, a completion flag, a due date, one of three priorities and a
category. The page keeps the task list and the state of the task form. It
offers two views of the same tasks:

- a **list view** that filters the tasks by a search term, a category, a
  status and a priority, sorts them by due date, priority or title, and
  shows an empty-state hint when nothing is left;
- a **calendar view** that marks every day cell with one dot per priority due
  that day, lists the tasks of the selected day, and steps the displayed
  month backwards and forwards with JavaScript's `Date.prototype.setMonth`.

This project models that logic in Dafny and proves properties of the model.

| file | module | models |
|---|---|---|
| `seqs.dfy` | `Seqs` | `Array.prototype.filter`, `map` and `some` on sequences, and the subsequence relation |
| `sorting.dfy` | `Sorting` | the stable sort ECMAScript (2019 edition onwards) requires of `Array.prototype.sort`, for a comparator that compares an integer key |
| `types.dfy` | `Types` | `src/lib/types.ts`: priorities, categories, tasks and the seed data |
| `task_list.dfy` | `TaskList` | `src/components/TaskList.tsx`: the filter, the sort, the category lookup and the empty state |
| `calendar_view.dfy` | `Calendar` | `src/components/CalendarView.tsx`: day bucketing, priority marks, the detail panel and month stepping, plus the view's `selectedDate`/`currentMonth` state as a class |
| `index_store.dfy` | `TaskStore` | `src/pages/Index.tsx`: the page state `tasks`/`editingTask`/`isFormOpen` as a class, and its handlers as methods |

Modelling choices:

- A task's `dueDate` is the instant its ISO string denotes, in milliseconds
  since the epoch. This is the value `new Date(task.dueDate).getTime()` returns.
- The local time zone is a parameter `local: int -> LocalDateTime`. It maps an
  instant to the local year, the 0-based month, the day and the time of day.
  `isSameDay` compares year, month and day of the two local dates.
- The title sort's `localeCompare` is the sign of the difference of two
  values of an abstract collation rank `titleRank: string -> int`. Every
  comparator case then compares an integer key, and the model's sort is a
  stable insertion sort by that key.
- The clock reading the seed due dates are relative to is a parameter `now`.
- The list view's filter menus hold strings, as in the source. An unknown
  status selection keeps nothing. An unknown sort selection keeps the
  filtered order.
- `getCategoryById` returns an `Option<Category>`. It is `None` only for an
  empty category list, where JavaScript yields `undefined`.
- Month stepping carries a day of month that the target month lacks into the
  following month. For example, January 31 steps to March 3 in a common year.
  This is the behaviour `setMonth` has, and the model keeps it.

## Model

| member | source | states |
|---|---|---|
| `Seqs.Filter` | src/components/TaskList.tsx:46-64 | the result holds exactly the elements of the input that pass the predicate, and is no longer than the input |
| `Seqs.Map` | src/pages/Index.tsx:19-21 | the result has the input's length and holds the function's value at each position |
| `Seqs.Exists` | src/components/CalendarView.tsx:44-46 | `some` is true exactly when some position satisfies the predicate |
| `Seqs.FilterConcat` | src/components/TaskList.tsx:46-64 | filtering a concatenation is concatenating the filtered parts |
| `Seqs.FilterIsSubsequence` | src/components/TaskList.tsx:46-64 | a filter result is a subsequence of its input |
| `Seqs.SubsequenceMultiset` | src/components/TaskList.tsx:46-64 | a subsequence fabricates and duplicates nothing: its multiset is contained in the input's |
| `Seqs.FilterCount` | src/components/TaskList.tsx:46-64 | an element passing the predicate occurs in the filter result exactly as often as in the input; an element failing it does not occur |
| `Seqs.FilterAll` | src/components/TaskList.tsx:46-64 | a predicate true on every element keeps the whole input |
| `Seqs.FilterCongruent` | src/components/CalendarView.tsx:33 | predicates that agree on the input's elements select the same elements |
| `Seqs.FilterCommutes` | src/components/CalendarView.tsx:43 | two filters commute |
| `Sorting.Insert` | src/components/TaskList.tsx:67-79 | inserting into a key-sorted sequence keeps it sorted and adds exactly the one element |
| `Sorting.SortByKey` | src/components/TaskList.tsx:67-79 | the sort's result is ordered by the key and is a permutation of its input |
| `Sorting.WithKeyCons` | src/components/TaskList.tsx:67-79 | the key class of a sequence with one element in front |
| `Sorting.SwapHeads` | src/components/TaskList.tsx:67-79 | two neighbours with different keys can trade places without changing any key class |
| `Sorting.InsertStable` | src/components/TaskList.tsx:67-79 | insertion places the element ahead of nothing of its own key class |
| `Sorting.SortStable` | src/components/TaskList.tsx:67-79 | the sort is stable: elements with equal keys keep their input order |
| `Sorting.SortSortedIdentity` | src/components/TaskList.tsx:67-79 | an already sorted sequence is left as it is |
| `Sorting.ConstantKeyIdentity` | src/components/TaskList.tsx:76-77 | with a constant key, that is a comparator that always returns 0, the order is unchanged |
| `Sorting.SortIdempotent` | src/components/TaskList.tsx:67-79 | sorting twice is sorting once |
| `Types.Task` | src/lib/types.ts:10-18 | definition: the task record; `dueDate` is the integer instant, in milliseconds, its ISO string denotes |
| `Types.AllPriorities` | src/lib/types.ts:2 | the priorities are low, medium and high, three in all |
| `Types.PriorityExhaustive` | src/lib/types.ts:2 | no priority lies outside those three |
| `Types.PriorityName` | src/lib/types.ts:2 | definition: the string literal each priority is stored and compared as, "low", "medium" or "high" |
| `Types.SampleCategories` | src/lib/types.ts:21-27 | definition: the five seed categories with their ids, names and colours |
| `Types.SampleTasks` | src/lib/types.ts:29-75 | definition: the five seed tasks, due `now` plus 2, 1, 0, 3 and 4 days |
| `Types.SampleCategoriesWellFormed` | src/lib/types.ts:21-27 | the five seed categories have pairwise distinct ids, so the list is non-empty |
| `Types.SampleTaskIdsUnique` | src/lib/types.ts:29-75 | the seed tasks have pairwise distinct ids |
| `Types.SampleTasksResolve` | src/lib/types.ts:29-75 | every seed task's `categoryId` names a seed category |
| `Types.SampleTasksOneCompleted` | src/lib/types.ts:29-75 | exactly one seed task starts completed, the one with id "3" |
| `TaskList.LowerChar` | src/components/TaskList.tsx:48-49 | definition: maps an ASCII capital to its small letter and leaves every other character alone |
| `TaskList.Lower` | src/components/TaskList.tsx:48-49 | `toLowerCase` keeps the length, turns each ASCII capital into its own small letter (code + 32), leaves no capital, and changes no character that was not one |
| `TaskList.Includes` | src/components/TaskList.tsx:48-49 | definition: `includes`, the needle is a prefix of the haystack or of one of its suffixes; characterised by `IncludesIsSubstring` |
| `TaskList.IncludesIsSubstring` | src/components/TaskList.tsx:48-49 | `includes` holds exactly when the needle occurs at some position of the haystack |
| `TaskList.MatchesSearch` | src/components/TaskList.tsx:48-49 | definition: the lower-cased term occurs in the lower-cased title or the lower-cased description |
| `TaskList.MatchesCategory` | src/components/TaskList.tsx:52 | definition: the selection is "all" or equals the task's `categoryId` |
| `TaskList.MatchesStatus` | src/components/TaskList.tsx:55-58 | definition: the selection is "all", or "completed" on a completed task, or "active" on an open one |
| `TaskList.MatchesPriority` | src/components/TaskList.tsx:61 | definition: the selection is "all" or equals the task's priority string |
| `TaskList.Keeps` | src/components/TaskList.tsx:63 | definition: the conjunction of the four conditions |
| `TaskList.KeepsFor` | src/components/TaskList.tsx:46-64 | definition: the filter callback as a function value |
| `TaskList.FilteredTasks` | src/components/TaskList.tsx:46-64 | a task is kept exactly when it is in the input and passes search, category, status and priority together; the result is a subsequence of the input and keeps each passing task's multiplicity |
| `TaskList.EmptySearchMatchesAll` | src/components/TaskList.tsx:48-49 | an empty search term matches every task |
| `TaskList.EqualIgnoringCase` | src/components/TaskList.tsx:48-49 | definition: equal length, and at each position equal characters or a capital and its own small letter |
| `TaskList.SearchIgnoresCase` | src/components/TaskList.tsx:48-49 | the search is case-insensitive: two terms that differ only in the case of letters match the same tasks |
| `TaskList.LowerPrefix` | src/components/TaskList.tsx:48 | lower-casing commutes with taking a prefix |
| `TaskList.LowerGro` | src/components/TaskList.tsx:48-49 | "Gro", "gro" and "GRO" lower-case to "gro" |
| `TaskList.GroceryStartsWithGro` | src/components/TaskList.tsx:48 | the lower-cased title "Grocery shopping" starts with "gro" |
| `TaskList.GroFindsGrocery` | src/components/TaskList.tsx:48-49 | searching "gro" or "GRO" finds the seed task "Grocery shopping" |
| `TaskList.StatusFilterMeaning` | src/components/TaskList.tsx:55-58 | "all" keeps every task, "completed" exactly the completed ones, "active" exactly the others; any other selection keeps none |
| `TaskList.PriorityFilterMeaning` | src/components/TaskList.tsx:61 | selecting a priority's name keeps exactly the tasks of that priority |
| `TaskList.InactiveFiltersKeepAll` | src/components/TaskList.tsx:46-64 | with an empty search term and the three menus at "all", the filter returns the task list unchanged |
| `TaskList.PriorityRank` | src/components/TaskList.tsx:72 | definition: the rank table, high 0, medium 1, low 2 |
| `TaskList.PriorityRankOrder` | src/components/TaskList.tsx:72 | high ranks before medium and medium before low |
| `TaskList.LocaleCompare` | src/components/TaskList.tsx:75 | the comparison is -1, 0 or 1, negative exactly when the first title collates first, zero exactly when both collate alike |
| `TaskList.Comparator` | src/components/TaskList.tsx:67-79 | definition: the comparator's switch, due-date difference, rank difference, title comparison, and 0 for any other selection |
| `TaskList.SortKey` | src/components/TaskList.tsx:67-79 | definition: the key each comparator case compares: timestamp, rank, collation rank, or 0 |
| `TaskList.KeyFor` | src/components/TaskList.tsx:67-79 | definition: the sort key as a function value |
| `TaskList.ComparatorAgreesWithKey` | src/components/TaskList.tsx:67-79 | for every sort selection, the comparator is negative or zero exactly when the sort key is smaller or equal |
| `TaskList.SortedTasks` | src/components/TaskList.tsx:67-79 | the sorted list is a permutation of the filtered list and its sort keys are non-decreasing |
| `TaskList.SortedTasksStable` | src/components/TaskList.tsx:67-79 | tasks with equal sort keys keep their order in the filtered list |
| `TaskList.PrioritySortOrder` | src/components/TaskList.tsx:71-73 | sorted by priority, every high task comes before every medium one and every medium before every low |
| `TaskList.DueDateSortOrder` | src/components/TaskList.tsx:69-70 | sorted by due date, the timestamps are non-decreasing |
| `TaskList.UnknownSortKeepsOrder` | src/components/TaskList.tsx:76-77 | an unrecognised sort selection keeps the filtered order |
| `TaskList.TwoTaskScenario` | src/components/TaskList.tsx:67-79 | two tasks, one high and later, one low and earlier, come out high first by priority and earlier first by due date |
| `TaskList.FindCategory` | src/components/TaskList.tsx:83 | `find` yields nothing exactly when no category has the id, and otherwise the first category that has it |
| `TaskList.GetCategoryById` | src/components/TaskList.tsx:82-84 | the first category with the id when there is one, `categories[0]` when there is none, and nothing only for an empty category list |
| `TaskList.SeedLookupNeverFallsBack` | src/components/TaskList.tsx:82-84 | on the seed data every task's lookup finds the task's own category |
| `TaskList.FiltersActive` | src/components/TaskList.tsx:199 | definition: the search term is non-empty or some filter is not "all"; the sort selection plays no part |
| `TaskList.Body` | src/components/TaskList.tsx:185-206 | tasks are shown exactly when the filtered list is non-empty, and they are the sorted filtered list; "Try adjusting your filters" appears exactly when nothing passes and the search term or some filter is set |
| `TaskList.AddFirstMeansNoTasks` | src/components/TaskList.tsx:196-206 | "Add your first task" appears exactly when there are no tasks and no filter is set |
| `TaskList.DefaultConfig` | src/components/TaskList.tsx:39-43 | definition: the initial selections, empty search, every menu at "all", sort by due date |
| `TaskList.DefaultShowsEverything` | src/components/TaskList.tsx:39-43 | the initial selections filter nothing, sort by due date and show every task |
| `Calendar.ValidDate` | src/components/CalendarView.tsx:70-83 | definition: a normalised `Date`, 0-based month below 12, a day the month has, a time of day within one day |
| `Calendar.MonthIndex` | src/components/CalendarView.tsx:72 | definition: year times 12 plus the month, so neighbouring months differ by one across a year boundary |
| `Calendar.DaysInMonth` | src/components/CalendarView.tsx:72 | every month has between 28 and 31 days |
| `Calendar.IsLeapYear` | src/components/CalendarView.tsx:72 | definition: the Gregorian leap-year rule `setMonth` normalises with |
| `Calendar.SameDay` | src/components/CalendarView.tsx:33 | definition: `isSameDay`, equal local year, month and day, whatever the time of day |
| `Calendar.OnDay` | src/components/CalendarView.tsx:33 | definition: the filter callback, the task's local due day is the given instant's local day |
| `Calendar.TasksOnDay` | src/components/CalendarView.tsx:43 | a day's tasks are exactly the tasks due on the same local day, as a subsequence, each as often as in the input |
| `Calendar.TasksForSelectedDate` | src/components/CalendarView.tsx:32-34 | empty when no date is selected; otherwise exactly the tasks due on the selected local day, whatever the time of day, as a subsequence, each as often as in the input |
| `Calendar.TasksOnDayIdempotent` | src/components/CalendarView.tsx:43 | bucketing a day's tasks by the same day again gives them back unchanged |
| `Calendar.GridAgreesWithPanel` | src/components/CalendarView.tsx:32-43 | for two instants on the same local day, the day cell and the detail panel list the same tasks |
| `Calendar.BucketingCommutesWithFilters` | src/components/CalendarView.tsx:43 | bucketing by day and the list view's filter give the same result in either order |
| `Calendar.HasPriority` | src/components/CalendarView.tsx:44-46 | definition: the `some` callback, the task has the given priority |
| `Calendar.PriorityDueOn` | src/components/CalendarView.tsx:43-46 | definition: some task due on the local day has the given priority |
| `Calendar.SomeOnDay` | src/components/CalendarView.tsx:43-46 | `some` over a day's filtered tasks finds a priority exactly when a task of that priority is due that day |
| `Calendar.DayIndicators` | src/components/CalendarView.tsx:43-46 | each of the three flags is true exactly when some task due that day has that priority |
| `Calendar.MarksOf` | src/components/CalendarView.tsx:53-61 | the set of dots the three flags draw |
| `Calendar.MarksOfMeaning` | src/components/CalendarView.tsx:53-61 | each priority's dot is drawn exactly when its flag is set |
| `Calendar.NonEmptyDayMarks` | src/components/CalendarView.tsx:43-61 | on a day with a task due, the dots drawn are exactly the priorities due that day, and there is at least one |
| `Calendar.EmptyDayHasNoPriority` | src/components/CalendarView.tsx:43-51 | a day whose filtered list is empty has no task of the input due on it |
| `Calendar.NonEmptyDayHasIndicator` | src/components/CalendarView.tsx:44-62 | a day with tasks has at least one flag set |
| `Calendar.CellMarks` | src/components/CalendarView.tsx:51-62 | a cell carries a priority's mark exactly when some task due that day has that priority, and carries none exactly when the day has no tasks |
| `Calendar.Panel` | src/components/CalendarView.tsx:145-163 | "Select a date" exactly when no date is selected; "No tasks for this date" exactly when the selected day has no tasks; otherwise that day's tasks |
| `Calendar.PanelAgreesWithCell` | src/components/CalendarView.tsx:43-63 | the panel lists tasks for a selected day exactly when that day's cell is marked |
| `Calendar.SetMonth` | src/components/CalendarView.tsx:72 | the result is a valid date with the same time of day; the day is kept in the target month when it fits there, and otherwise runs on into the following month as day 1 to 3 |
| `Calendar.NextMonth` | src/components/CalendarView.tsx:81 | stepping forward gives a valid date |
| `Calendar.PreviousMonth` | src/components/CalendarView.tsx:72 | stepping back gives a valid date |
| `Calendar.SameIndexSameDate` | src/components/CalendarView.tsx:70-83 | dates with the same month index, day and time are equal |
| `Calendar.NextMonthKeepsDay` | src/components/CalendarView.tsx:78-84 | when the day fits the next month, the month index rises by one, December runs into January of the next year, and day and time are kept |
| `Calendar.PreviousMonthKeepsDay` | src/components/CalendarView.tsx:69-75 | when the day fits the previous month, the month index falls by one, January runs into December of the previous year, and day and time are kept |
| `Calendar.NextThenPrevious` | src/components/CalendarView.tsx:69-84 | when the day fits the next month, next then previous restores the date |
| `Calendar.PreviousThenNext` | src/components/CalendarView.tsx:69-84 | when the day fits the previous month, previous then next restores the date |
| `Calendar.NextMonthOverflows` | src/components/CalendarView.tsx:81 | when the day does not fit the next month, the date lands two months on, by the excess days, at the same time of day |
| `Calendar.PreviousMonthOverflows` | src/components/CalendarView.tsx:72 | when the day does not fit the previous month, the date stays in its own month, by the excess days, at the same time of day |
| `Calendar.OverflowExamples` | src/components/CalendarView.tsx:70-83 | January 31 steps to March 3 in 2025 and to March 2 in 2024; March 31 steps back to March 3 |
| `Calendar.CalendarView.constructor` | src/components/CalendarView.tsx:28-29 | both the selection and the displayed month start at the current instant |
| `Calendar.CalendarView.Select` | src/components/CalendarView.tsx:112 | selecting sets the selection, possibly to nothing, and leaves the month |
| `Calendar.CalendarView.GoToPreviousMonth` | src/components/CalendarView.tsx:69-75 | the displayed month becomes its previous-month step and the selection is unchanged |
| `Calendar.CalendarView.GoToNextMonth` | src/components/CalendarView.tsx:78-84 | the displayed month becomes its next-month step and the selection is unchanged |
| `Calendar.CalendarView.SelectedDayTasks` | src/components/CalendarView.tsx:32-34 | empty without a selection, otherwise exactly the tasks due on the selected local day, as a subsequence, each as often as in the task list |
| `TaskStore.Toggled` | src/pages/Index.tsx:20 | definition: the `map` callback, flip `completed` on the task with the id, keep every other task |
| `TaskStore.HasOtherId` | src/pages/Index.tsx:33 | definition: the `filter` callback, the task's id differs from the deleted one |
| `TaskStore.Replacing` | src/pages/Index.tsx:47 | definition: the `map` callback, the saved task in place of the one with its id, every other task kept |
| `TaskStore.ToggleById` | src/pages/Index.tsx:17-23 | the length is kept; each task's `completed` flips exactly when its id matches, and nothing else about any task changes |
| `TaskStore.RemoveById` | src/pages/Index.tsx:32-34 | exactly the tasks with the id are removed, the rest keep their order and multiplicity, and an absent id changes nothing |
| `TaskStore.ReplaceById` | src/pages/Index.tsx:44-48 | the length and ids are kept, every task with the saved id becomes the saved task, the others are unchanged, no match changes nothing, and distinct ids stay distinct |
| `TaskStore.ToggleTwice` | src/pages/Index.tsx:17-23 | toggling the same id twice restores the list |
| `TaskStore.ToggleAbsent` | src/pages/Index.tsx:17-23 | toggling an absent id changes nothing |
| `TaskStore.ReplaceUnique` | src/pages/Index.tsx:44-48 | with distinct ids, saving replaces exactly the one position holding the id |
| `TaskStore.ToggleKeepsUniqueIds` | src/pages/Index.tsx:17-23 | toggling keeps ids distinct |
| `TaskStore.SubsequenceKeepsUniqueIds` | src/pages/Index.tsx:33 | dropping tasks keeps ids distinct |
| `TaskStore.RemoveKeepsUniqueIds` | src/pages/Index.tsx:32-34 | deleting keeps ids distinct |
| `TaskStore.AppendUniqueIffFresh` | src/pages/Index.tsx:49-51 | appending keeps ids distinct exactly when the new id is fresh |
| `TaskStore.AddThenUpdate` | src/pages/Index.tsx:43-53 | adding a task with a fresh id and then saving an edit of it gives the list with the edited task appended |
| `TaskStore.Index.constructor` | src/pages/Index.tsx:11-13 | the page starts with the seed tasks, no task being edited and the form closed; the seed ids are distinct |
| `TaskStore.Index.HandleToggleComplete` | src/pages/Index.tsx:17-23 | the task list becomes its toggle, the form state is unchanged, and distinct ids stay distinct |
| `TaskStore.Index.HandleEditTask` | src/pages/Index.tsx:26-29 | the task becomes the one being edited, the form opens, and the task list is unchanged |
| `TaskStore.Index.HandleDeleteTask` | src/pages/Index.tsx:32-34 | the task list loses exactly the tasks with the id, the form state is unchanged, and distinct ids stay distinct |
| `TaskStore.Index.HandleAddTask` | src/pages/Index.tsx:37-40 | no task is being edited, the form opens, and the task list is unchanged |
| `TaskStore.Index.HandleSaveTask` | src/pages/Index.tsx:43-53 | while a task is being edited, the list replaces by id; otherwise the saved task is appended; the form state is unchanged |
| `TaskStore.Index.CloseForm` | src/pages/Index.tsx:102 | the form closes and nothing else changes |
| `TaskStore.AddThenSave` | src/pages/Index.tsx:37-53 | "Add Task" followed by a save appends the saved task |
| `TaskStore.EditThenSave` | src/pages/Index.tsx:26-53 | editing followed by a save replaces by id and keeps the length |

## Left out

- Rendering: all JSX, class names, icons, the badge components, `TaskItem` and the routing and layout shell. They are presentation only.
- ISO-8601 parsing and formatting (`new Date(str)`, `toISOString`, `format`). A due date is taken to be its millisecond timestamp.
- Local time-zone resolution and `isSameDay` from `date-fns` are foreign library calls. They become the parameter `local` and a comparison of year, month and day.
- Calendar.SetMonth: does not model daylight-saving transitions, where `setMonth` may move the time of day; it keeps the time of day unchanged.
- Calendar.NextMonth, Calendar.PreviousMonth: their own contracts say only that the result is valid; the month arithmetic is in `SetMonth`'s contract and the lemmas about the two steps.
- TaskList.LocaleCompare: locale collation is replaced by the sign of an abstract rank difference, which makes it a total preorder on titles. No integer rank reproduces collation on all strings: "a" < "aa" < "aaa" < … < "b" puts infinitely many titles between two. A matching rank exists for each finite set of titles, such as the list being sorted, and the model holds for that one.
- TaskList.Lower: `toLowerCase` is modelled for ASCII letters only; other characters are left as they are.
- Calendar.CalendarView.constructor: the source reads the clock once for `selectedDate` and once more for `currentMonth`; the model starts both from one reading `now`.
- Types.SampleTasks: the source reads the clock separately for each seed task; the model uses one clock reading `now` for all five.
- NaN due dates and the comparator that a NaN difference would give are not modelled; every due date is an integer.
- The `TaskForm` component is not part of this model: only its `onClose` callback (`CloseForm`) and `onSave` (`HandleSaveTask`) appear. The `activeTab` state is not modelled either: it only selects the view.
- The calendar widget's `onMonthChange` sets `currentMonth` directly and is not modelled separately from the assignment itself.
- React's state-update scheduling and re-rendering are not modelled; each handler's update is applied at once.
- The sort runs on a spread copy, so the filtered list is not modified. In a model over values this holds automatically, and there is nothing to state.
- `getCategoryById` in `CalendarView.tsx` (lines 37-39) is the same function as in `TaskList.tsx` and is modelled once, as `TaskList.GetCategoryById`.
