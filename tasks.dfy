/** The task records that `TaskManager` in features.js keeps, and the pure
    functions its methods apply to the task list. A task is a JavaScript
    object, so it is a map from property name to value: the spread
    `{...a, ...b}` is `a + b` (later properties win), and a property the
    object lacks is a key the map lacks. */
module Tasks {
  import opened Wrappers

  /** The property values a task can hold. Numbers are integers here. */
  datatype Value = Null | Bool(b: bool) | Num(n: int) | Str(s: string)

  type Task = map<string, Value>

  /** What `throw` and normal completion leave behind. */
  datatype Outcome<T> = Done(value: T) | Thrown(message: string)

  /** `task.id`: the property's value, or `None` (`undefined`) when the
      task has no `id`. */
  function IdOf(t: Task): Option<Value> {
    if "id" in t then Some(t["id"]) else None
  }

  /** `task.id === taskId`, where `taskId` is any value or `None` for
      `undefined`. Strict equality on these values is plain equality, so a
      task without `id` matches exactly an `undefined` `taskId`. */
  predicate HasId(t: Task, id: Option<Value>) {
    IdOf(t) == id
  }

  /** The properties `addTask` writes after spreading `taskData`. */
  const Stamped: set<string> := {"createdAt", "status", "progress"}

  /** The record `addTask` builds:
      `{ id: <fresh id>, ...taskData, createdAt: now, status: 'pending', progress: 0 }`.
      The last three always win; an `id` inside `taskData` beats the
      generated one; no `updatedAt` is added. */
  function NewTask(taskData: Task, id: string, now: string): (t: Task)
    ensures t.Keys == taskData.Keys + {"id"} + Stamped
    ensures t["status"] == Str("pending") && t["progress"] == Num(0) && t["createdAt"] == Str(now)
    ensures forall k | k in taskData && k !in Stamped :: t[k] == taskData[k]
    ensures t["id"] == if "id" in taskData then taskData["id"] else Str(id)
    ensures "updatedAt" in t <==> "updatedAt" in taskData
  {
    map["id" := Str(id)] + taskData
      + map["createdAt" := Str(now), "status" := Str("pending"), "progress" := Num(0)]
  }

  /** The record `updateTask` stores: `{ ...task, ...updates, updatedAt: now }`. */
  function Merged(t: Task, updates: Task, now: string): (r: Task)
    ensures r.Keys == t.Keys + updates.Keys + {"updatedAt"}
    ensures r["updatedAt"] == Str(now)
    ensures forall k | k in updates && k != "updatedAt" :: r[k] == updates[k]
    ensures forall k | k in t && k !in updates && k != "updatedAt" :: r[k] == t[k]
  {
    t + updates + map["updatedAt" := Str(now)]
  }

  /** Two merges in a row are one merge of both update sets, the later
      winning on shared keys, stamped with the later time. */
  lemma MergedTwice(t: Task, u1: Task, u2: Task, now1: string, now2: string)
    ensures Merged(Merged(t, u1, now1), u2, now2) == Merged(t, u1 + u2, now2)
  {
    var lhs, rhs := Merged(Merged(t, u1, now1), u2, now2), Merged(t, u1 + u2, now2);
    assert lhs.Keys == rhs.Keys;
    forall k | k in lhs ensures lhs[k] == rhs[k] {
      if k == "updatedAt" {
      } else if k in u2 {
      } else if k in u1 {
      } else {
      }
    }
  }

  /** `tasks.findIndex(task => task.id === taskId)`: the first match, or -1. */
  function FindIndex(ts: seq<Task>, id: Option<Value>): (i: int)
    ensures -1 <= i < |ts|
    ensures i >= 0 ==> HasId(ts[i], id)
    ensures forall j | 0 <= j < i || (i == -1 && 0 <= j < |ts|) :: !HasId(ts[j], id)
  {
    if ts == [] then -1
    else if HasId(ts[0], id) then 0
    else
      var i := FindIndex(ts[1..], id);
      if i == -1 then -1 else i + 1
  }

  /** What `updateTask` does to the list: throw "Task not found" when no
      task matches, otherwise replace the first match by its merge with
      `updates`. */
  function Update(ts: seq<Task>, id: Option<Value>, updates: Task, now: string): (r: Outcome<seq<Task>>)
    ensures r.Thrown? <==> forall j | 0 <= j < |ts| :: !HasId(ts[j], id)
    ensures r.Thrown? ==> r.message == "Task not found"
    ensures r.Done? ==>
      var i := FindIndex(ts, id);
      && |r.value| == |ts|
      && r.value[i] == Merged(ts[i], updates, now)
      && forall j | 0 <= j < |ts| && j != i :: r.value[j] == ts[j]
  {
    var i := FindIndex(ts, id);
    if i == -1 then Thrown("Task not found")
    else Done(ts[i := Merged(ts[i], updates, now)])
  }

  /** Two successful updates of the same task, the first leaving its `id`
      alone, are one update with the union of both update sets. */
  lemma {:induction false} UpdateTwice(ts: seq<Task>, id: Option<Value>, u1: Task, u2: Task, now1: string, now2: string)
    requires Update(ts, id, u1, now1).Done?
    requires "id" !in u1
    ensures Update(Update(ts, id, u1, now1).value, id, u2, now2) == Update(ts, id, u1 + u2, now2)
  {
    var i := FindIndex(ts, id);
    var ts1 := Update(ts, id, u1, now1).value;
    assert HasId(ts1[i], id);
    FirstMatch(ts1, id, i);
    MergedTwice(ts[i], u1, u2, now1, now2);
    assert ts1[i := Merged(ts1[i], u2, now2)] == ts[i := Merged(ts[i], u1 + u2, now2)];
  }

  /** `FindIndex` is determined by where the first match is. */
  lemma {:induction false} FirstMatch(ts: seq<Task>, id: Option<Value>, i: int)
    requires 0 <= i < |ts| && HasId(ts[i], id)
    requires forall j | 0 <= j < i :: !HasId(ts[j], id)
    ensures FindIndex(ts, id) == i
  {
    if i > 0 {
      assert !HasId(ts[0], id);
      FirstMatch(ts[1..], id, i - 1);
    }
  }

  /** `tasks.filter(task => task.id !== taskId)`. */
  function Without(ts: seq<Task>, id: Option<Value>): (r: seq<Task>)
    ensures |r| <= |ts|
    ensures forall j | 0 <= j < |r| :: !HasId(r[j], id)
  {
    if ts == [] then []
    else
      var rest := Without(ts[1..], id);
      var r := (if HasId(ts[0], id) then [] else [ts[0]]) + rest;
      assert forall j | 0 < j < |r| && !HasId(ts[0], id) :: r[j] == rest[j - 1];
      r
  }

  /** The survivors are exactly the tasks of the list that do not carry the id. */
  lemma {:induction false} WithoutMembers(ts: seq<Task>, id: Option<Value>, t: Task)
    ensures t in Without(ts, id) <==> t in ts && !HasId(t, id)
  {
    if ts != [] {
      WithoutMembers(ts[1..], id, t);
      assert t in ts <==> t == ts[0] || t in ts[1..];
    }
  }

  /** Filtering goes element by element, so the survivors keep their order. */
  lemma {:induction false} WithoutConcat(a: seq<Task>, b: seq<Task>, id: Option<Value>)
    ensures Without(a + b, id) == Without(a, id) + Without(b, id)
  {
    if a == [] {
      assert a + b == b;
    } else {
      assert (a + b)[0] == a[0];
      assert (a + b)[1..] == a[1..] + b;
      WithoutConcat(a[1..], b, id);
    }
  }

  /** Deleting an id no task carries changes nothing. */
  lemma {:induction false} WithoutAbsent(ts: seq<Task>, id: Option<Value>)
    requires forall j | 0 <= j < |ts| :: !HasId(ts[j], id)
    ensures Without(ts, id) == ts
  {
    if ts != [] {
      assert !HasId(ts[0], id);
      WithoutAbsent(ts[1..], id);
    }
  }

  /** `deleteTask(undefined)` keeps exactly the tasks that have an `id`. */
  lemma DeleteUndefined(ts: seq<Task>, t: Task)
    ensures t in Without(ts, None) <==> t in ts && "id" in t
  {
    WithoutMembers(ts, None, t);
  }

  /** `updateTask(undefined, …)` throws exactly when every task has an `id`. */
  lemma UpdateUndefined(ts: seq<Task>, updates: Task, now: string)
    ensures Update(ts, None, updates, now).Thrown? <==> forall j | 0 <= j < |ts| :: "id" in ts[j]
  {
    assert forall j | 0 <= j < |ts| :: HasId(ts[j], None) <==> "id" !in ts[j];
  }

  /** Deleting twice is deleting once. */
  lemma WithoutIdempotent(ts: seq<Task>, id: Option<Value>)
    ensures Without(Without(ts, id), id) == Without(ts, id)
  {
    WithoutAbsent(Without(ts, id), id);
  }
}
