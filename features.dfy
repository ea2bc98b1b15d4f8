/** The stateful managers of features.js: the task list, the light/dark
    theme and the notification icon table. The identifiers and timestamps
    that the source takes from `crypto.randomUUID()` and
    `new Date().toISOString()` are parameters here. */
module Features {
  import opened Wrappers
  import opened WebStorage
  import opened Tasks
  import Storage

  /** `TaskManager`: the ordered task list, newest first. */
  class TaskManager {
    var tasks: seq<Task>
    var categories: seq<string>
    var priorities: seq<string>

    constructor ()
      ensures tasks == []
      ensures categories == ["Study", "Assignment", "Exam", "Reading", "Project"]
      ensures priorities == ["High", "Medium", "Low"]
    {
      tasks := [];
      categories := ["Study", "Assignment", "Exam", "Reading", "Project"];
      priorities := ["High", "Medium", "Low"];
    }

    /** `loadTasks`: the decoded `tasks` item, or `[]` when the item is
        missing or empty, or when reading or decoding throws. This is
        exactly what `Utils.storage.get('tasks', [])` returns. */
    method LoadTasks(ls: Store, decode: string -> Option<seq<Task>>, fault: bool)
      modifies this`tasks
      ensures tasks == Storage.Read(ls.items, "tasks", [], decode, fault)
      ensures fault || "tasks" !in ls.items || ls.items["tasks"] == "" ==> tasks == []
      ensures !fault && "tasks" in ls.items && ls.items["tasks"] != "" ==>
        tasks == match decode(ls.items["tasks"]) case Some(ts) => ts case None => []
    {
      var thrown, stored := ls.GetItem("tasks", fault);
      if thrown {
        tasks := [];
      } else if stored.Some? && stored.value != "" {
        match decode(stored.value)
        case Some(ts) => tasks := ts;
        case None => tasks := [];
      } else {
        tasks := [];
      }
    }

    /** `addTask(taskData)`: build the record and put it in front. */
    method AddTask(taskData: Task, id: string, now: string) returns (task: Task)
      modifies this`tasks
      ensures task == NewTask(taskData, id, now)
      ensures tasks == [task] + old(tasks)
    {
      task := NewTask(taskData, id, now);
      tasks := [task] + tasks;
    }

    /** `updateTask(taskId, updates)`: `thrown` is the message of the
        `Error` when no task matches; the list is then untouched. */
    method UpdateTask(taskId: Option<Value>, updates: Task, now: string) returns (thrown: Option<string>)
      modifies this`tasks
      ensures match Update(old(tasks), taskId, updates, now)
        case Thrown(message) => thrown == Some(message) && tasks == old(tasks)
        case Done(ts) => thrown == None && tasks == ts
    {
      var i := FindIndex(tasks, taskId);
      if i == -1 {
        return Some("Task not found");
      }
      tasks := tasks[i := Merged(tasks[i], updates, now)];
      thrown := None;
    }

    /** `deleteTask(taskId)`: keep the tasks whose `id` differs. */
    method DeleteTask(taskId: Option<Value>)
      modifies this`tasks
      ensures tasks == Without(old(tasks), taskId)
    {
      tasks := Without(tasks, taskId);
    }
  }

  /** Adding A, then B, then C to a fresh list gives [C, B, A]. */
  method AddThreeNewestFirst(a: Task, b: Task, c: Task, idA: string, idB: string, idC: string, now: string)
    returns (ts: seq<Task>)
    ensures ts == [NewTask(c, idC, now), NewTask(b, idB, now), NewTask(a, idA, now)]
  {
    var m := new TaskManager();
    var ta := m.AddTask(a, idA, now);
    var tb := m.AddTask(b, idB, now);
    var tc := m.AddTask(c, idC, now);
    ts := m.tasks;
    assert ts == [tc] + ([tb] + [ta]);
  }

  /** The theme a fresh `ThemeManager` starts with:
      `localStorage.getItem('theme') || 'light'`, so a missing or empty item
      gives 'light' and any other stored string is taken as it is. */
  function InitialTheme(items: map<string, string>): (theme: string)
    ensures theme != ""
    ensures "theme" !in items || items["theme"] == "" ==> theme == "light"
    ensures "theme" in items && items["theme"] != "" ==> theme == items["theme"]
  {
    if "theme" in items && items["theme"] != "" then items["theme"] else "light"
  }

  /** `this.theme === 'light' ? 'dark' : 'light'`. */
  function Toggled(theme: string): (r: string)
    ensures r == "light" || r == "dark"
    ensures r == "dark" <==> theme == "light"
  {
    if theme == "light" then "dark" else "light"
  }

  /** Two toggles give back 'light' or 'dark'. */
  lemma ToggleTwice(theme: string)
    requires theme == "light" || theme == "dark"
    ensures Toggled(Toggled(theme)) == theme
  {
  }

  /** Any other stored theme is not restored: two toggles end on 'dark'. */
  lemma ToggleTwiceUnknown(theme: string)
    requires theme != "light" && theme != "dark"
    ensures Toggled(theme) == "light" && Toggled(Toggled(theme)) == "dark"
  {
  }

  /** `ThemeManager`: the current theme name. */
  class ThemeManager {
    var theme: string

    constructor (ls: Store)
      ensures theme == InitialTheme(ls.items)
    {
      var thrown, stored := ls.GetItem("theme", false);
      theme := if stored.Some? && stored.value != "" then stored.value else "light";
    }

    /** `toggleTheme`: flip the theme, then store it. When `setItem` throws
        the flip has already happened and the exception propagates. */
    method ToggleTheme(ls: Store, fault: bool) returns (thrown: bool)
      modifies this, ls
      ensures theme == Toggled(old(theme))
      ensures thrown == fault
      ensures ls.items == if thrown then old(ls.items) else old(ls.items)["theme" := theme]
    {
      theme := if theme == "light" then "dark" else "light";
      thrown := ls.SetItem("theme", theme, fault);
    }
  }

  /** The icon table of `NotificationManager.getIcon`; the source has the
      same placeholder markup for all four kinds. */
  const Icons: map<string, string> := map[
    "success" := "<svg>...</svg>",
    "error" := "<svg>...</svg>",
    "warning" := "<svg>...</svg>",
    "info" := "<svg>...</svg>"
  ]

  /** `NotificationManager.getIcon(type)`: `icons[type] || icons.info`. */
  function GetIcon(kind: string): (icon: string)
    ensures kind in Icons ==> icon == Icons[kind]
    ensures kind !in Icons ==> icon == Icons["info"]
    ensures icon in Icons.Values
  {
    if kind in Icons && Icons[kind] != "" then Icons[kind] else Icons["info"]
  }
}
