/**
 * The dashboard's shared data model: priorities, categories, tasks, and the
 * sample data the application starts from.
 */
module Types {

  datatype Option<T> = None | Some(value: T)

  /** The three priority levels. */
  datatype Priority = Low | Medium | High

  datatype Category = Category(id: string, name: string, color: string)

  /**
   * A task. `dueDate` is the instant the stored date string denotes, in
   * milliseconds since the epoch (what `new Date(dueDate).getTime()` returns).
   */
  datatype Task = Task(
    id: string,
    title: string,
    description: string,
    completed: bool,
    dueDate: int,
    priority: Priority,
    categoryId: string)

  /** Every priority level, and there are exactly three. */
  function AllPriorities(): (r: set<Priority>)
    ensures Low in r && Medium in r && High in r
    ensures |r| == 3
  {
    {Low, Medium, High}
  }

  /** No priority lies outside those three. */
  lemma PriorityExhaustive(p: Priority)
    ensures p in AllPriorities()
  {
    match p
    case Low =>
    case Medium =>
    case High =>
  }

  /** The string a priority is stored and filtered as. */
  function PriorityName(p: Priority): string {
    match p
    case Low => "low"
    case Medium => "medium"
    case High => "high"
  }

  /** Task ids are pairwise distinct. */
  ghost predicate UniqueIds(s: seq<Task>) {
    forall i, j :: 0 <= i < j < |s| ==> s[i].id != s[j].id
  }

  /** Category ids are pairwise distinct. */
  ghost predicate UniqueCategoryIds(cs: seq<Category>) {
    forall i, j :: 0 <= i < j < |cs| ==> cs[i].id != cs[j].id
  }

  /** Some category of `cs` has id `id`. */
  ghost predicate Resolves(cs: seq<Category>, id: string) {
    exists i :: 0 <= i < |cs| && cs[i].id == id
  }

  const MsPerDay := 86400000

  function SampleCategories(): seq<Category> {
    [ Category("1", "Work", "#4f46e5"),
      Category("2", "Personal", "#ec4899"),
      Category("3", "Health", "#10b981"),
      Category("4", "Learning", "#f59e0b"),
      Category("5", "Errands", "#6366f1") ]
  }

  /** The seed tasks; `now` is the clock reading at start-up. */
  function SampleTasks(now: int): seq<Task> {
    [ Task("1", "Complete project proposal", "Finish the quarterly project proposal for the client",
           false, now + MsPerDay * 2, High, "1"),
      Task("2", "Grocery shopping", "Buy fruits, vegetables, and other essentials",
           false, now + MsPerDay, Medium, "5"),
      Task("3", "Morning jog", "30 minutes jogging in the park",
           true, now, Low, "3"),
      Task("4", "Read React documentation", "Study the new React features and hooks",
           false, now + MsPerDay * 3, Medium, "4"),
      Task("5", "Call mom", "Weekly call with mom to catch up",
           false, now + MsPerDay * 4, High, "2") ]
  }

  /** The category list is non-empty and its ids are distinct. */
  lemma SampleCategoriesWellFormed()
    ensures |SampleCategories()| == 5
    ensures UniqueCategoryIds(SampleCategories())
  {
  }

  /** The seed tasks have distinct ids. */
  lemma SampleTaskIdsUnique(now: int)
    ensures UniqueIds(SampleTasks(now))
  {
  }

  /** Every seed task names an existing category. */
  lemma SampleTasksResolve(now: int)
    ensures forall i :: 0 <= i < |SampleTasks(now)| ==>
      Resolves(SampleCategories(), SampleTasks(now)[i].categoryId)
  {
    var cs := SampleCategories();
    assert cs[0].id == "1" && cs[1].id == "2" && cs[2].id == "3" && cs[3].id == "4" && cs[4].id == "5";
  }

  /** Exactly one seed task starts completed: the one with id "3". */
  lemma SampleTasksOneCompleted(now: int)
    ensures forall i :: 0 <= i < |SampleTasks(now)| ==>
      (SampleTasks(now)[i].completed <==> SampleTasks(now)[i].id == "3")
    ensures SampleTasks(now)[2].id == "3"
  {
  }
}
