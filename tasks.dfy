/**
 * The entities of the student task list: the fixed subject categories, the
 * fixed priorities, and the task record itself.
 */
module Tasks {

  datatype Option<T> = None | Some(value: T)

  /** The six subjects a task can belong to, in the order the form lists them. */
  datatype Category = Math | Science | History | English | Art | LabReport

  /** The three priorities, in the order the form lists them. */
  datatype Priority = High | Medium | Low

  /** The subject names as the user interface shows and compares them. */
  function CategoryName(c: Category): string
  {
    match c
    case Math => "Math"
    case Science => "Science"
    case History => "History"
    case English => "English"
    case Art => "Art"
    case LabReport => "Lab Report"
  }

  /** The priority keys, which are also their display labels. */
  function PriorityName(p: Priority): string
  {
    match p
    case High => "High"
    case Medium => "Medium"
    case Low => "Low"
  }

  /** All categories, in the order of the subject list. */
  const Categories: seq<Category> := [Math, Science, History, English, Art, LabReport]

  /** All priorities, in the order of the priority table. */
  const Priorities: seq<Priority> := [High, Medium, Low]

  /** The category a subject name stands for, if any. */
  function ParseCategory(name: string): (r: Option<Category>)
    ensures r.Some? ==> CategoryName(r.value) == name
  {
    if name == "Math" then Some(Math)
    else if name == "Science" then Some(Science)
    else if name == "History" then Some(History)
    else if name == "English" then Some(English)
    else if name == "Art" then Some(Art)
    else if name == "Lab Report" then Some(LabReport)
    else None
  }

  /** The priority a priority key stands for, if any. */
  function ParsePriority(name: string): (r: Option<Priority>)
    ensures r.Some? ==> PriorityName(r.value) == name
  {
    if name == "High" then Some(High)
    else if name == "Medium" then Some(Medium)
    else if name == "Low" then Some(Low)
    else None
  }

  /**
   * Category names are distinct, so comparing names is comparing
   * categories, and no name is the filter sentinel "All".
   */
  lemma CategoryNamesRoundTrip(c: Category)
    ensures ParseCategory(CategoryName(c)) == Some(c)
    ensures CategoryName(c) != "All"
    ensures c in Categories
  {
  }

  /**
   * Priority names are distinct, so comparing names is comparing
   * priorities, and no name is the filter sentinel "All".
   */
  lemma PriorityNamesRoundTrip(p: Priority)
    ensures ParsePriority(PriorityName(p)) == Some(p)
    ensures PriorityName(p) != "All"
    ensures p in Priorities
  {
  }

  /** A task's identifier; new tasks draw theirs from the millisecond clock. */
  type TaskId = int

  /** One task; `dueDate` is the raw date-input string, empty when unset. */
  datatype Task = Task(
    id: TaskId,
    text: string,
    category: Category,
    priority: Priority,
    completed: bool,
    dueDate: string)

  /** The identifiers present in a list. */
  function Ids(tasks: seq<Task>): set<TaskId>
  {
    set k | 0 <= k < |tasks| :: tasks[k].id
  }

  /** No two tasks of the list share an identifier. */
  predicate UniqueIds(tasks: seq<Task>)
  {
    forall i, j :: 0 <= i < j < |tasks| ==> tasks[i].id != tasks[j].id
  }
}
