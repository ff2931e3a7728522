/**
 * The list view's filter/sort engine: which tasks are shown for the current
 * search term and filter selections, in which order, which category badge a
 * task gets, and what the empty list says.
 */
module TaskList {
  import opened Types
  import opened Seqs
  import opened Sorting

  /** The list view's selections: search box, three filter menus and the sort menu. */
  datatype FilterConfig = FilterConfig(
    searchTerm: string,
    categoryFilter: string,
    statusFilter: string,
    priorityFilter: string,
    sortBy: string)

  /** The selections the list view starts with. */
  const DefaultConfig := FilterConfig("", "all", "all", "all", "dueDate")

  // ---------------------------------------------------------------- search

  /** ASCII lower-casing of one character. */
  function LowerChar(c: char): char {
    if 'A' <= c <= 'Z' then (c as int + 32) as char else c
  }

  /** `s.toLowerCase()`, restricted to ASCII letters. */
  function Lower(s: string): (r: string)
    ensures |r| == |s|
    ensures forall i :: 0 <= i < |s| ==> !('A' <= r[i] <= 'Z')
    ensures forall i :: 0 <= i < |s| && 'A' <= s[i] <= 'Z' ==> r[i] as int == s[i] as int + 32
    ensures forall i :: 0 <= i < |s| ==> !('A' <= s[i] <= 'Z') ==> r[i] == s[i]
  {
    Map(LowerChar, s)
  }

  predicate StartsWith(s: string, prefix: string) {
    |prefix| <= |s| && s[..|prefix|] == prefix
  }

  /** `hay.includes(needle)`. */
  function Includes(hay: string, needle: string): bool
    decreases |hay|
  {
    StartsWith(hay, needle) || (hay != [] && Includes(hay[1..], needle))
  }

  /** `needle` occurs in `hay` starting at position `i`. */
  ghost predicate OccursAt(hay: string, needle: string, i: int) {
    0 <= i <= |hay| - |needle| && hay[i..i + |needle|] == needle
  }

  /** `includes` is substring search. */
  lemma {:induction false} IncludesIsSubstring(hay: string, needle: string)
    ensures Includes(hay, needle) <==> exists i :: OccursAt(hay, needle, i)
    decreases |hay|
  {
    if StartsWith(hay, needle) {
      assert OccursAt(hay, needle, 0);
    }
    if hay != [] {
      IncludesIsSubstring(hay[1..], needle);
      if Includes(hay[1..], needle) {
        var i :| OccursAt(hay[1..], needle, i);
        assert hay[i + 1..i + 1 + |needle|] == hay[1..][i..i + |needle|];
        assert OccursAt(hay, needle, i + 1);
      }
      if i :| OccursAt(hay, needle, i) {
        if i > 0 {
          assert hay[1..][i - 1..i - 1 + |needle|] == hay[i..i + |needle|];
          assert OccursAt(hay[1..], needle, i - 1);
        } else {
          assert StartsWith(hay, needle);
        }
      }
    } else {
      if i :| OccursAt(hay, needle, i) {
        assert needle == [];
        assert StartsWith(hay, needle);
      }
    }
  }

  /** The search box matches the title or the description, ignoring case. */
  predicate MatchesSearch(t: Task, term: string) {
    Includes(Lower(t.title), Lower(term)) || Includes(Lower(t.description), Lower(term))
  }

  // ---------------------------------------------------------------- filters

  predicate MatchesCategory(t: Task, categoryFilter: string) {
    categoryFilter == "all" || t.categoryId == categoryFilter
  }

  predicate MatchesStatus(t: Task, statusFilter: string) {
    statusFilter == "all"
    || (statusFilter == "completed" && t.completed)
    || (statusFilter == "active" && !t.completed)
  }

  predicate MatchesPriority(t: Task, priorityFilter: string) {
    priorityFilter == "all" || PriorityName(t.priority) == priorityFilter
  }

  /** The filter callback: all four conditions at once. */
  predicate Keeps(cfg: FilterConfig, t: Task) {
    && MatchesSearch(t, cfg.searchTerm)
    && MatchesCategory(t, cfg.categoryFilter)
    && MatchesStatus(t, cfg.statusFilter)
    && MatchesPriority(t, cfg.priorityFilter)
  }

  function KeepsFor(cfg: FilterConfig): Task -> bool {
    t => Keeps(cfg, t)
  }

  /**
   * `filteredTasks`: the tasks passing all four filters, in their original
   * order, each as often as in `tasks`.
   */
  function FilteredTasks(tasks: seq<Task>, cfg: FilterConfig): (r: seq<Task>)
    ensures forall t :: t in r <==>
      && t in tasks
      && MatchesSearch(t, cfg.searchTerm)
      && MatchesCategory(t, cfg.categoryFilter)
      && MatchesStatus(t, cfg.statusFilter)
      && MatchesPriority(t, cfg.priorityFilter)
    ensures IsSubsequence(r, tasks)
    ensures forall t :: multiset(r)[t] == if Keeps(cfg, t) then multiset(tasks)[t] else 0
  {
    FilterIsSubsequence(KeepsFor(cfg), tasks);
    FilterCount(KeepsFor(cfg), tasks);
    Filter(KeepsFor(cfg), tasks)
  }

  /** An empty search term matches every task. */
  lemma EmptySearchMatchesAll(t: Task)
    ensures MatchesSearch(t, "")
  {
    assert Lower("") == "";
    assert StartsWith(Lower(t.title), "");
  }

  /**
   * `a` and `b` differ at most in the case of ASCII letters: at each position
   * the characters are equal, or one is a capital and the other its small letter.
   */
  ghost predicate EqualIgnoringCase(a: string, b: string) {
    && |a| == |b|
    && forall i :: 0 <= i < |a| ==>
      || a[i] == b[i]
      || ('A' <= a[i] <= 'Z' && b[i] as int == a[i] as int + 32)
      || ('A' <= b[i] <= 'Z' && a[i] as int == b[i] as int + 32)
  }

  /** The search is case-insensitive: terms that differ only in letter case match the same tasks. */
  lemma SearchIgnoresCase(t: Task, a: string, b: string)
    requires EqualIgnoringCase(a, b)
    ensures MatchesSearch(t, a) == MatchesSearch(t, b)
  {
    forall i | 0 <= i < |a| ensures Lower(a)[i] == Lower(b)[i] {
      assert Lower(a)[i] == LowerChar(a[i]);
      assert Lower(b)[i] == LowerChar(b[i]);
    }
    assert Lower(a) == Lower(b);
  }

  /** Lower-casing commutes with taking a prefix. */
  lemma LowerPrefix(s: string, n: nat)
    requires n <= |s|
    ensures Lower(s)[..n] == Lower(s[..n])
  {
  }

  lemma LowerGro()
    ensures Lower("Gro") == Lower("gro") == Lower("GRO") == "gro"
  {
    assert Lower("Gro") == "gro";
    assert Lower("gro") == "gro";
    assert Lower("GRO") == "gro";
  }

  lemma GroceryStartsWithGro()
    ensures StartsWith(Lower("Grocery shopping"), "gro")
  {
    var title := "Grocery shopping";
    assert title[..3] == "Gro";
    LowerPrefix(title, 3);
    LowerGro();
  }

  /** `"gro"` and `"GRO"` both find the seed task titled "Grocery shopping". */
  lemma GroFindsGrocery(now: int)
    ensures SampleTasks(now)[1].title == "Grocery shopping"
    ensures MatchesSearch(SampleTasks(now)[1], "gro")
    ensures MatchesSearch(SampleTasks(now)[1], "GRO")
  {
    GroceryStartsWithGro();
    LowerGro();
  }

  /** What each status selection keeps; an unknown one keeps nothing. */
  lemma StatusFilterMeaning(t: Task, f: string)
    ensures MatchesStatus(t, "all")
    ensures MatchesStatus(t, "completed") <==> t.completed
    ensures MatchesStatus(t, "active") <==> !t.completed
    ensures f != "all" && f != "completed" && f != "active" ==> !MatchesStatus(t, f)
  {
  }

  /** Selecting a priority keeps exactly the tasks of that priority. */
  lemma PriorityFilterMeaning(t: Task, p: Priority)
    ensures MatchesPriority(t, PriorityName(p)) <==> t.priority == p
  {
  }

  /** Filters left at their defaults keep every task. */
  lemma {:induction false} InactiveFiltersKeepAll(tasks: seq<Task>, cfg: FilterConfig)
    requires cfg.searchTerm == "" && cfg.categoryFilter == "all"
    requires cfg.statusFilter == "all" && cfg.priorityFilter == "all"
    ensures FilteredTasks(tasks, cfg) == tasks
  {
    forall i | 0 <= i < |tasks| ensures Keeps(cfg, tasks[i]) {
      EmptySearchMatchesAll(tasks[i]);
    }
    FilterAll(KeepsFor(cfg), tasks);
  }

  // ---------------------------------------------------------------- sorting

  /** The rank the priority sort uses: high first. */
  function PriorityRank(p: Priority): int {
    match p
    case High => 0
    case Medium => 1
    case Low => 2
  }

  /** High ranks before medium, medium before low. */
  lemma PriorityRankOrder()
    ensures PriorityRank(High) < PriorityRank(Medium) < PriorityRank(Low)
  {
  }

  /**
   * `a.localeCompare(b)`. Collation is locale-dependent; the model takes it
   * as the sign of the difference of two collation ranks.
   */
  function LocaleCompare(titleRank: string -> int, a: string, b: string): (r: int)
    ensures r < 0 <==> titleRank(a) < titleRank(b)
    ensures r == 0 <==> titleRank(a) == titleRank(b)
    ensures r > 0 <==> titleRank(b) < titleRank(a)
    ensures -1 <= r <= 1
  {
    if titleRank(a) < titleRank(b) then -1
    else if titleRank(a) > titleRank(b) then 1
    else 0
  }

  /** The comparator passed to `sort`, one case per `sortBy` value. */
  function Comparator(sortBy: string, titleRank: string -> int, a: Task, b: Task): int {
    if sortBy == "dueDate" then a.dueDate - b.dueDate
    else if sortBy == "priority" then PriorityRank(a.priority) - PriorityRank(b.priority)
    else if sortBy == "title" then LocaleCompare(titleRank, a.title, b.title)
    else 0
  }

  /** The key whose order each comparator case expresses. */
  function SortKey(sortBy: string, titleRank: string -> int, t: Task): int {
    if sortBy == "dueDate" then t.dueDate
    else if sortBy == "priority" then PriorityRank(t.priority)
    else if sortBy == "title" then titleRank(t.title)
    else 0
  }

  function KeyFor(sortBy: string, titleRank: string -> int): Task -> int {
    t => SortKey(sortBy, titleRank, t)
  }

  /** The comparator's sign is that of the key difference, so sorting with it is sorting by the key. */
  lemma ComparatorAgreesWithKey(sortBy: string, titleRank: string -> int, a: Task, b: Task)
    ensures Comparator(sortBy, titleRank, a, b) < 0 <==> SortKey(sortBy, titleRank, a) < SortKey(sortBy, titleRank, b)
    ensures Comparator(sortBy, titleRank, a, b) == 0 <==> SortKey(sortBy, titleRank, a) == SortKey(sortBy, titleRank, b)
  {
  }

  /** `sortedTasks`: a stably sorted copy of the filtered list. */
  function SortedTasks(filtered: seq<Task>, sortBy: string, titleRank: string -> int): (r: seq<Task>)
    ensures multiset(r) == multiset(filtered)
    ensures forall i, j :: 0 <= i < j < |r| ==>
      SortKey(sortBy, titleRank, r[i]) <= SortKey(sortBy, titleRank, r[j])
  {
    var r := SortByKey(KeyFor(sortBy, titleRank), filtered);
    assert SortedBy(KeyFor(sortBy, titleRank), r);
    r
  }

  /** Tasks with equal sort keys keep their order in the filtered list. */
  lemma SortedTasksStable(filtered: seq<Task>, sortBy: string, titleRank: string -> int)
    ensures StableWrt(KeyFor(sortBy, titleRank), SortedTasks(filtered, sortBy, titleRank), filtered)
  {
    SortStable(KeyFor(sortBy, titleRank), filtered);
  }

  /** Sorting by priority puts every high before every medium before every low. */
  lemma PrioritySortOrder(filtered: seq<Task>, titleRank: string -> int)
    ensures var r := SortedTasks(filtered, "priority", titleRank);
      forall i, j :: 0 <= i < j < |r| ==>
        && (r[j].priority == High ==> r[i].priority == High)
        && (r[j].priority == Medium ==> r[i].priority != Low)
  {
    var r := SortedTasks(filtered, "priority", titleRank);
    forall i, j | 0 <= i < j < |r|
      ensures r[j].priority == High ==> r[i].priority == High
      ensures r[j].priority == Medium ==> r[i].priority != Low
    {
      assert SortKey("priority", titleRank, r[i]) <= SortKey("priority", titleRank, r[j]);
    }
  }

  /** Sorting by due date gives non-decreasing timestamps. */
  lemma DueDateSortOrder(filtered: seq<Task>, titleRank: string -> int)
    ensures var r := SortedTasks(filtered, "dueDate", titleRank);
      forall i, j :: 0 <= i < j < |r| ==> r[i].dueDate <= r[j].dueDate
  {
    var r := SortedTasks(filtered, "dueDate", titleRank);
    forall i, j | 0 <= i < j < |r| ensures r[i].dueDate <= r[j].dueDate {
      assert SortKey("dueDate", titleRank, r[i]) <= SortKey("dueDate", titleRank, r[j]);
    }
  }

  /** An unrecognised `sortBy` makes every comparison 0, so the filtered order stays. */
  lemma UnknownSortKeepsOrder(filtered: seq<Task>, sortBy: string, titleRank: string -> int)
    requires sortBy != "dueDate" && sortBy != "priority" && sortBy != "title"
    ensures SortedTasks(filtered, sortBy, titleRank) == filtered
  {
    ConstantKeyIdentity(KeyFor(sortBy, titleRank), filtered, 0);
  }

  /** Two tasks: by priority the high one comes first, by due date the earlier one. */
  lemma TwoTaskScenario(titleRank: string -> int)
    ensures var t1 := Task("1", "A", "", false, 1704240000000, High, "1");
      var t2 := Task("2", "B", "", false, 1704067200000, Low, "1");
      && SortedTasks([t1, t2], "priority", titleRank) == [t1, t2]
      && SortedTasks([t1, t2], "dueDate", titleRank) == [t2, t1]
  {
    var t1 := Task("1", "A", "", false, 1704240000000, High, "1");
    var t2 := Task("2", "B", "", false, 1704067200000, Low, "1");
    assert [t1, t2][1..] == [t2];
    assert SortByKey(KeyFor("priority", titleRank), [t2]) == [t2];
    assert SortByKey(KeyFor("dueDate", titleRank), [t2]) == [t2];
  }

  // ---------------------------------------------------------------- categories

  /** Position `i` holds the first category whose id is `id`. */
  ghost predicate FirstWithId(categories: seq<Category>, id: string, i: int) {
    && 0 <= i < |categories|
    && categories[i].id == id
    && forall j :: 0 <= j < i ==> categories[j].id != id
  }

  /** `categories.find(cat => cat.id === id)`: the first category with that id. */
  function FindCategory(categories: seq<Category>, id: string): (r: Option<Category>)
    ensures r.None? <==> !Resolves(categories, id)
    ensures r.Some? ==> exists i :: FirstWithId(categories, id, i) && categories[i] == r.value
    decreases |categories|
  {
    if categories == [] then None
    else if categories[0].id == id then
      assert FirstWithId(categories, id, 0);
      Some(categories[0])
    else
      var r := FindCategory(categories[1..], id);
      assert Resolves(categories, id) ==> Resolves(categories[1..], id) by {
        if Resolves(categories, id) {
          var i :| 0 <= i < |categories| && categories[i].id == id;
          assert categories[1..][i - 1].id == id;
        }
      }
      assert r.Some? ==> exists i :: FirstWithId(categories, id, i) && categories[i] == r.value by {
        if r.Some? {
          var i :| FirstWithId(categories[1..], id, i) && categories[1..][i] == r.value;
          forall j | 0 <= j < i + 1 ensures categories[j].id != id {
            if j > 0 { assert categories[j] == categories[1..][j - 1]; }
          }
          assert FirstWithId(categories, id, i + 1);
        }
      }
      r
  }

  /**
   * `getCategoryById`: the first category with the id, else `categories[0]`;
   * with no categories at all JavaScript gives `undefined`, here `None`.
   */
  function GetCategoryById(categories: seq<Category>, id: string): (r: Option<Category>)
    ensures r.None? <==> categories == []
    ensures Resolves(categories, id) ==> r == FindCategory(categories, id)
    ensures !Resolves(categories, id) && categories != [] ==> r == Some(categories[0])
  {
    match FindCategory(categories, id)
    case Some(c) => Some(c)
    case None => if categories == [] then None else Some(categories[0])
  }

  /** On the seed data the lookup always finds the task's own category. */
  lemma SeedLookupNeverFallsBack(now: int)
    ensures forall i :: 0 <= i < |SampleTasks(now)| ==>
      var c := GetCategoryById(SampleCategories(), SampleTasks(now)[i].categoryId);
      c.Some? && c.value.id == SampleTasks(now)[i].categoryId
  {
    SampleTasksResolve(now);
  }

  // ---------------------------------------------------------------- empty state

  /** What the list area shows. */
  datatype ListBody = Items(shown: seq<Task>) | TryAdjustingFilters | AddFirstTask

  /** The search term is non-empty or some filter is not "all"; the sort choice plays no part. */
  predicate FiltersActive(cfg: FilterConfig) {
    cfg.searchTerm != "" || cfg.categoryFilter != "all" || cfg.statusFilter != "all" || cfg.priorityFilter != "all"
  }

  /** The list area for the given tasks and selections. */
  function Body(tasks: seq<Task>, cfg: FilterConfig, titleRank: string -> int): (b: ListBody)
    ensures b.Items? <==> FilteredTasks(tasks, cfg) != []
    ensures b.Items? ==> b.shown == SortedTasks(FilteredTasks(tasks, cfg), cfg.sortBy, titleRank)
    ensures b.Items? ==> multiset(b.shown) == multiset(FilteredTasks(tasks, cfg))
    ensures b == TryAdjustingFilters <==> FilteredTasks(tasks, cfg) == [] && FiltersActive(cfg)
  {
    var shown := SortedTasks(FilteredTasks(tasks, cfg), cfg.sortBy, titleRank);
    assert |shown| == |multiset(shown)|;
    if |shown| > 0 then Items(shown)
    else if FiltersActive(cfg) then TryAdjustingFilters
    else AddFirstTask
  }

  /** "Add your first task" appears exactly when there are no tasks and no filter is set. */
  lemma AddFirstMeansNoTasks(tasks: seq<Task>, cfg: FilterConfig, titleRank: string -> int)
    ensures Body(tasks, cfg, titleRank) == AddFirstTask <==> tasks == [] && !FiltersActive(cfg)
  {
    if !FiltersActive(cfg) {
      InactiveFiltersKeepAll(tasks, cfg);
    }
  }

  /** The default selections show every task. */
  lemma DefaultShowsEverything(tasks: seq<Task>)
    ensures !FiltersActive(DefaultConfig) && DefaultConfig.sortBy == "dueDate"
    ensures FilteredTasks(tasks, DefaultConfig) == tasks
  {
    InactiveFiltersKeepAll(tasks, DefaultConfig);
  }
}
