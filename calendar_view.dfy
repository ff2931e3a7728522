/**
 * The calendar view: which tasks fall on a day, which priority marks a day
 * cell shows, the task list of the selected day, and month navigation with
 * the day-of-month overflow that JavaScript's `Date.prototype.setMonth` has.
 */
module Calendar {
  import opened Types
  import opened Seqs
  import TaskList

  // ---------------------------------------------------------------- dates

  /**
   * A date-time as a JavaScript `Date` presents it in local time. `month` is
   * 0-based (January is 0), as `getMonth` returns it.
   */
  datatype LocalDateTime = LocalDateTime(year: int, month: int, day: int, msOfDay: int)

  predicate IsLeapYear(y: int) {
    y % 4 == 0 && (y % 100 != 0 || y % 400 == 0)
  }

  function DaysInMonth(year: int, month: int): (n: int)
    requires 0 <= month < 12
    ensures 28 <= n <= 31
  {
    if month == 1 then (if IsLeapYear(year) then 29 else 28)
    else if month == 3 || month == 5 || month == 8 || month == 10 then 30
    else 31
  }

  /** Months counted from year 0: consecutive months have consecutive indices. */
  function MonthIndex(d: LocalDateTime): int {
    d.year * 12 + d.month
  }

  /** The length of the month with index `k`. */
  function DaysInMonthAt(k: int): int {
    DaysInMonth(k / 12, k % 12)
  }

  /** A normalised date: every `Date` value is one. */
  predicate ValidDate(d: LocalDateTime) {
    && 0 <= d.month < 12
    && 1 <= d.day <= DaysInMonth(d.year, d.month)
    && 0 <= d.msOfDay < MsPerDay
  }

  /** `isSameDay`: same local year, month and day; the time of day plays no part. */
  predicate SameDay(a: LocalDateTime, b: LocalDateTime) {
    a.year == b.year && a.month == b.month && a.day == b.day
  }

  // ---------------------------------------------------------------- bucketing

  /** `task => isSameDay(new Date(task.dueDate), day)`; `local` resolves an instant in the local time zone. */
  function OnDay(local: int -> LocalDateTime, day: int): Task -> bool {
    (t: Task) => SameDay(local(t.dueDate), local(day))
  }

  /** `tasksOnDay`: the tasks due on the same local calendar day as `day`, in their order. */
  function TasksOnDay(local: int -> LocalDateTime, tasks: seq<Task>, day: int): (r: seq<Task>)
    ensures forall t :: t in r <==> t in tasks && SameDay(local(t.dueDate), local(day))
    ensures IsSubsequence(r, tasks)
    ensures forall t :: multiset(r)[t] == if SameDay(local(t.dueDate), local(day)) then multiset(tasks)[t] else 0
  {
    FilterIsSubsequence(OnDay(local, day), tasks);
    FilterCount(OnDay(local, day), tasks);
    Filter(OnDay(local, day), tasks)
  }

  /** `tasksForSelectedDate`: nothing when no date is selected, else that day's tasks. */
  function TasksForSelectedDate(local: int -> LocalDateTime, tasks: seq<Task>, selected: Option<int>): (r: seq<Task>)
    ensures selected.None? ==> r == []
    ensures selected.Some? ==>
      forall t :: t in r <==> t in tasks && SameDay(local(t.dueDate), local(selected.value))
    ensures selected.Some? ==>
      forall t :: multiset(r)[t] == if SameDay(local(t.dueDate), local(selected.value)) then multiset(tasks)[t] else 0
    ensures IsSubsequence(r, tasks)
  {
    match selected
    case None => []
    case Some(d) => TasksOnDay(local, tasks, d)
  }

  /** Bucketing a day's tasks by the same day again changes nothing. */
  lemma TasksOnDayIdempotent(local: int -> LocalDateTime, tasks: seq<Task>, day: int)
    ensures TasksOnDay(local, TasksOnDay(local, tasks, day), day) == TasksOnDay(local, tasks, day)
  {
    var r := TasksOnDay(local, tasks, day);
    forall i | 0 <= i < |r| ensures OnDay(local, day)(r[i]) {
      assert r[i] in r;
    }
    FilterAll(OnDay(local, day), r);
  }

  /**
   * A day cell and the detail panel use the same test, so for any two
   * instants on the same local day, at whatever time, they list the same tasks.
   */
  lemma GridAgreesWithPanel(local: int -> LocalDateTime, tasks: seq<Task>, cell: int, selected: int)
    requires SameDay(local(cell), local(selected))
    ensures TasksOnDay(local, tasks, cell) == TasksForSelectedDate(local, tasks, Some(selected))
  {
    forall i | 0 <= i < |tasks|
      ensures OnDay(local, cell)(tasks[i]) == OnDay(local, selected)(tasks[i])
    {
      assert OnDay(local, cell)(tasks[i]) == SameDay(local(tasks[i].dueDate), local(cell));
      assert OnDay(local, selected)(tasks[i]) == SameDay(local(tasks[i].dueDate), local(selected));
    }
    FilterCongruent(OnDay(local, cell), OnDay(local, selected), tasks);
  }

  /** Bucketing by day and the list view's filters can be applied in either order. */
  lemma BucketingCommutesWithFilters(local: int -> LocalDateTime, tasks: seq<Task>, cfg: TaskList.FilterConfig, day: int)
    ensures TasksOnDay(local, TaskList.FilteredTasks(tasks, cfg), day)
         == TaskList.FilteredTasks(TasksOnDay(local, tasks, day), cfg)
  {
    FilterCommutes(OnDay(local, day), TaskList.KeepsFor(cfg), tasks);
  }

  // ---------------------------------------------------------------- indicators

  /** The three flags `renderDay` computes for a cell. */
  datatype Indicators = Indicators(hasHigh: bool, hasMedium: bool, hasLow: bool)

  function HasPriority(p: Priority): Task -> bool {
    (t: Task) => t.priority == p
  }

  /** Some task in `tasks` with priority `p` is due on the local day of `day`. */
  ghost predicate PriorityDueOn(local: int -> LocalDateTime, tasks: seq<Task>, day: int, p: Priority) {
    exists t :: t in tasks && SameDay(local(t.dueDate), local(day)) && t.priority == p
  }

  /** `some` over a day's tasks finds a priority exactly when a task of that priority is due that day. */
  lemma SomeOnDay(local: int -> LocalDateTime, tasks: seq<Task>, day: int, p: Priority)
    ensures Exists(HasPriority(p), TasksOnDay(local, tasks, day)) <==> PriorityDueOn(local, tasks, day, p)
  {
    var onDay := TasksOnDay(local, tasks, day);
    if Exists(HasPriority(p), onDay) {
      var i :| 0 <= i < |onDay| && HasPriority(p)(onDay[i]);
      assert onDay[i] in onDay;
      assert onDay[i].priority == p;
    }
    if PriorityDueOn(local, tasks, day, p) {
      var t :| t in tasks && SameDay(local(t.dueDate), local(day)) && t.priority == p;
      assert t in onDay;
      var i :| 0 <= i < |onDay| && onDay[i] == t;
      assert HasPriority(p)(onDay[i]);
    }
  }

  /** `tasksOnDay.some(task => task.priority === p)`, for each of the three priorities. */
  function DayIndicators(local: int -> LocalDateTime, tasks: seq<Task>, day: int): (ind: Indicators)
    ensures ind.hasHigh <==> PriorityDueOn(local, tasks, day, High)
    ensures ind.hasMedium <==> PriorityDueOn(local, tasks, day, Medium)
    ensures ind.hasLow <==> PriorityDueOn(local, tasks, day, Low)
  {
    var onDay := TasksOnDay(local, tasks, day);
    SomeOnDay(local, tasks, day, High);
    SomeOnDay(local, tasks, day, Medium);
    SomeOnDay(local, tasks, day, Low);
    Indicators(Exists(HasPriority(High), onDay), Exists(HasPriority(Medium), onDay), Exists(HasPriority(Low), onDay))
  }

  /** A day with tasks has at least one flag set, since every task has one of the three priorities. */
  lemma NonEmptyDayHasIndicator(local: int -> LocalDateTime, tasks: seq<Task>, day: int)
    requires TasksOnDay(local, tasks, day) != []
    ensures var ind := DayIndicators(local, tasks, day); ind.hasHigh || ind.hasMedium || ind.hasLow
  {
    var t := TasksOnDay(local, tasks, day)[0];
    assert t in TasksOnDay(local, tasks, day);
    match t.priority
    case High =>
    case Medium =>
    case Low =>
  }

  /** One mark per flag set. */
  function MarksOf(ind: Indicators): set<Priority> {
    (if ind.hasHigh then {High} else {})
      + (if ind.hasMedium then {Medium} else {})
      + (if ind.hasLow then {Low} else {})
  }

  lemma MarksOfMeaning(ind: Indicators)
    ensures High in MarksOf(ind) <==> ind.hasHigh
    ensures Medium in MarksOf(ind) <==> ind.hasMedium
    ensures Low in MarksOf(ind) <==> ind.hasLow
  {
  }

  /** On a day some task is due, the flags' marks are the priorities due that day, and there is at least one. */
  lemma NonEmptyDayMarks(local: int -> LocalDateTime, tasks: seq<Task>, day: int, due: Task)
    requires due in tasks && SameDay(local(due.dueDate), local(day))
    ensures forall p :: p in MarksOf(DayIndicators(local, tasks, day)) <==> PriorityDueOn(local, tasks, day, p)
    ensures MarksOf(DayIndicators(local, tasks, day)) != {}
  {
    var ind := DayIndicators(local, tasks, day);
    MarksOfMeaning(ind);
    forall p ensures p in MarksOf(ind) <==> PriorityDueOn(local, tasks, day, p) {
      match p
      case High =>
      case Medium =>
      case Low =>
    }
    assert PriorityDueOn(local, tasks, day, due.priority);
  }

  /** A day without tasks has no task due on it. */
  lemma EmptyDayHasNoPriority(local: int -> LocalDateTime, tasks: seq<Task>, day: int)
    requires TasksOnDay(local, tasks, day) == []
    ensures forall t :: t in tasks ==> !SameDay(local(t.dueDate), local(day))
  {
    forall t | t in tasks ensures !SameDay(local(t.dueDate), local(day)) {
      assert t !in TasksOnDay(local, tasks, day);
    }
  }

  /** The marks a cell renders: none unless the day has tasks, then one per flag set. */
  function CellMarks(local: int -> LocalDateTime, tasks: seq<Task>, day: int): (marks: set<Priority>)
    ensures forall p :: p in marks <==>
      exists t :: t in tasks && SameDay(local(t.dueDate), local(day)) && t.priority == p
    ensures marks == {} <==> TasksOnDay(local, tasks, day) == []
  {
    var onDay := TasksOnDay(local, tasks, day);
    if |onDay| > 0 then
      assert onDay[0] in onDay;
      NonEmptyDayMarks(local, tasks, day, onDay[0]);
      MarksOf(DayIndicators(local, tasks, day))
    else
      EmptyDayHasNoPriority(local, tasks, day);
      {}
  }

  // ---------------------------------------------------------------- detail panel

  /** What the detail panel shows: the day's tasks, or one of its two empty-state messages. */
  datatype PanelBody = DayTasks(shown: seq<Task>) | NoTasksForDate | SelectADate

  function Panel(local: int -> LocalDateTime, tasks: seq<Task>, selected: Option<int>): (b: PanelBody)
    ensures b == SelectADate <==> selected.None?
    ensures b == NoTasksForDate <==> selected.Some? && TasksOnDay(local, tasks, selected.value) == []
    ensures b.DayTasks? ==> b.shown != [] && b.shown == TasksForSelectedDate(local, tasks, selected)
  {
    var shown := TasksForSelectedDate(local, tasks, selected);
    if |shown| > 0 then DayTasks(shown)
    else if selected.Some? then NoTasksForDate
    else SelectADate
  }

  /** The panel lists tasks for a selected day exactly when that day's cell carries a mark. */
  lemma PanelAgreesWithCell(local: int -> LocalDateTime, tasks: seq<Task>, day: int)
    ensures Panel(local, tasks, Some(day)).DayTasks? <==> CellMarks(local, tasks, day) != {}
  {
  }

  // ---------------------------------------------------------------- month navigation

  /**
   * `date.setMonth(m)` on a copy of `d`: the year absorbs `m`'s multiples of
   * twelve, the day of month and the time are kept, and a day of month the
   * target month does not have runs on into the month after it.
   */
  function SetMonth(d: LocalDateTime, m: int): (r: LocalDateTime)
    requires ValidDate(d)
    ensures ValidDate(r)
    ensures r.msOfDay == d.msOfDay
    ensures var target := d.year * 12 + m;
      if d.day <= DaysInMonthAt(target) then MonthIndex(r) == target && r.day == d.day
      else MonthIndex(r) == target + 1 && r.day == d.day - DaysInMonthAt(target) && 1 <= r.day <= 3
  {
    var y := d.year + m / 12;
    var mo := m % 12;
    assert y == (d.year * 12 + m) / 12 && mo == (d.year * 12 + m) % 12;
    if d.day <= DaysInMonth(y, mo) then LocalDateTime(y, mo, d.day, d.msOfDay)
    else if mo == 11 then LocalDateTime(y + 1, 0, d.day - DaysInMonth(y, mo), d.msOfDay)
    else LocalDateTime(y, mo + 1, d.day - DaysInMonth(y, mo), d.msOfDay)
  }

  /** `goToNextMonth`'s updater. */
  function NextMonth(d: LocalDateTime): (r: LocalDateTime)
    requires ValidDate(d)
    ensures ValidDate(r)
  {
    SetMonth(d, d.month + 1)
  }

  /** `goToPreviousMonth`'s updater. */
  function PreviousMonth(d: LocalDateTime): (r: LocalDateTime)
    requires ValidDate(d)
    ensures ValidDate(r)
  {
    SetMonth(d, d.month - 1)
  }

  /** Dates in range are determined by month index, day and time. */
  lemma SameIndexSameDate(a: LocalDateTime, b: LocalDateTime)
    requires 0 <= a.month < 12 && 0 <= b.month < 12
    requires MonthIndex(a) == MonthIndex(b) && a.day == b.day && a.msOfDay == b.msOfDay
    ensures a == b
  {
  }

  /** When the day fits the next month, the month index moves by one (December runs into January) and the rest is kept. */
  lemma NextMonthKeepsDay(d: LocalDateTime)
    requires ValidDate(d) && d.day <= DaysInMonthAt(MonthIndex(d) + 1)
    ensures var r := NextMonth(d);
      MonthIndex(r) == MonthIndex(d) + 1 && r.day == d.day && r.msOfDay == d.msOfDay
    ensures d.month == 11 ==> NextMonth(d).year == d.year + 1 && NextMonth(d).month == 0
  {
  }

  /** When the day fits the previous month, the month index moves back by one (January runs into December). */
  lemma PreviousMonthKeepsDay(d: LocalDateTime)
    requires ValidDate(d) && d.day <= DaysInMonthAt(MonthIndex(d) - 1)
    ensures var r := PreviousMonth(d);
      MonthIndex(r) == MonthIndex(d) - 1 && r.day == d.day && r.msOfDay == d.msOfDay
    ensures d.month == 0 ==> PreviousMonth(d).year == d.year - 1 && PreviousMonth(d).month == 11
  {
  }

  /** When the day fits the next month, next then previous gives the original date back. */
  lemma NextThenPrevious(d: LocalDateTime)
    requires ValidDate(d) && d.day <= DaysInMonthAt(MonthIndex(d) + 1)
    ensures PreviousMonth(NextMonth(d)) == d
  {
    var n := NextMonth(d);
    NextMonthKeepsDay(d);
    assert DaysInMonthAt(MonthIndex(n) - 1) == DaysInMonth(d.year, d.month);
    SameIndexSameDate(PreviousMonth(n), d);
  }

  /** When the day fits the previous month, previous then next gives the original date back. */
  lemma PreviousThenNext(d: LocalDateTime)
    requires ValidDate(d) && d.day <= DaysInMonthAt(MonthIndex(d) - 1)
    ensures NextMonth(PreviousMonth(d)) == d
  {
    var p := PreviousMonth(d);
    PreviousMonthKeepsDay(d);
    assert DaysInMonthAt(MonthIndex(p) + 1) == DaysInMonth(d.year, d.month);
    SameIndexSameDate(NextMonth(p), d);
  }

  /** When the day does not fit the next month, the date lands early in the month after it. */
  lemma NextMonthOverflows(d: LocalDateTime)
    requires ValidDate(d) && d.day > DaysInMonthAt(MonthIndex(d) + 1)
    ensures var r := NextMonth(d);
      && MonthIndex(r) == MonthIndex(d) + 2
      && r.day == d.day - DaysInMonthAt(MonthIndex(d) + 1)
      && r.msOfDay == d.msOfDay
  {
  }

  /** When the day does not fit the previous month, the date comes back into its own month. */
  lemma PreviousMonthOverflows(d: LocalDateTime)
    requires ValidDate(d) && d.day > DaysInMonthAt(MonthIndex(d) - 1)
    ensures var r := PreviousMonth(d);
      && MonthIndex(r) == MonthIndex(d)
      && r.day == d.day - DaysInMonthAt(MonthIndex(d) - 1)
      && r.msOfDay == d.msOfDay
  {
  }

  /** January 31 steps to March 3 in a common year and to March 2 in a leap year; March 31 steps back to March 3. */
  lemma OverflowExamples()
    ensures NextMonth(LocalDateTime(2025, 0, 31, 0)) == LocalDateTime(2025, 2, 3, 0)
    ensures NextMonth(LocalDateTime(2024, 0, 31, 0)) == LocalDateTime(2024, 2, 2, 0)
    ensures PreviousMonth(LocalDateTime(2025, 2, 31, 0)) == LocalDateTime(2025, 2, 3, 0)
  {
  }

  // ---------------------------------------------------------------- view state

  /** The calendar view's own state: the selected day and the month shown. */
  class CalendarView {
    var selectedDate: Option<int>
    var currentMonth: LocalDateTime

    ghost predicate Valid()
      reads this
    {
      ValidDate(currentMonth)
    }

    /** Both start at the current instant `now`. */
    constructor(local: int -> LocalDateTime, now: int)
      requires ValidDate(local(now))
      ensures Valid()
      ensures selectedDate == Some(now) && currentMonth == local(now)
    {
      selectedDate := Some(now);
      currentMonth := local(now);
    }

    /** The calendar widget's `onSelect`; `None` clears the selection. */
    method Select(date: Option<int>)
      requires Valid()
      modifies this
      ensures Valid()
      ensures selectedDate == date && currentMonth == old(currentMonth)
    {
      selectedDate := date;
    }

    method GoToPreviousMonth()
      requires Valid()
      modifies this
      ensures Valid()
      ensures currentMonth == PreviousMonth(old(currentMonth)) && selectedDate == old(selectedDate)
    {
      var newDate := currentMonth;
      newDate := SetMonth(newDate, newDate.month - 1);
      currentMonth := newDate;
    }

    method GoToNextMonth()
      requires Valid()
      modifies this
      ensures Valid()
      ensures currentMonth == NextMonth(old(currentMonth)) && selectedDate == old(selectedDate)
    {
      var newDate := currentMonth;
      newDate := SetMonth(newDate, newDate.month + 1);
      currentMonth := newDate;
    }

    /** The detail panel's list for the current selection. */
    function SelectedDayTasks(local: int -> LocalDateTime, tasks: seq<Task>): (r: seq<Task>)
      reads this
      ensures selectedDate.None? ==> r == []
      ensures selectedDate.Some? ==>
        forall t :: t in r <==> t in tasks && SameDay(local(t.dueDate), local(selectedDate.value))
      ensures selectedDate.Some? ==>
        forall t :: multiset(r)[t] == if SameDay(local(t.dueDate), local(selectedDate.value)) then multiset(tasks)[t] else 0
      ensures IsSubsequence(r, tasks)
    {
      TasksForSelectedDate(local, tasks, selectedDate)
    }
  }
}
