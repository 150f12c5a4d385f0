/**
 * The Tasks table and the LINQ queries the task repositories run against it. The table is the
 * sequence of rows in primary-key order, which is the order in which the unordered queries of
 * the repositories return them.
 */
module TaskTable {
  import opened Wrappers

  /**
   * A task row (AppTask, and the identical legacy Tasks entity). DueDate is a point in time in
   * seconds. A task without an owner is represented by the empty UserId: it matches no user id
   * the controllers accept, and it interpolates into cache keys as a null does.
   */
  datatype AppTask = AppTask(Id: int, Title: string, Description: string, Status: string, DueDate: int, UserId: string)

  /** The task DTO of the current API (TaskInformation with its Id). */
  datatype TaskInformation = TaskInformation(Id: int, Title: string, Description: string, Status: string, DueDate: int)

  /** The task DTO of the legacy API, which has no Id. */
  datatype LegacyTaskInformation = LegacyTaskInformation(Title: string, Description: string, Status: string, DueDate: int)

  /** Rows are in strictly increasing key order, so no two rows share a key. */
  ghost predicate KeyOrdered(rows: seq<AppTask>) {
    forall i, j :: 0 <= i < j < |rows| ==> rows[i].Id < rows[j].Id
  }

  /** Every key in the table is below `bound`: the identity column's next value. */
  ghost predicate KeysBelow(rows: seq<AppTask>, bound: int) {
    forall i :: 0 <= i < |rows| ==> rows[i].Id < bound
  }

  /** DbSet.FindAsync: the row whose key is `id`, or null. */
  function Find(rows: seq<AppTask>, id: int): (r: Option<AppTask>)
    ensures r.Some? ==> r.value in rows && r.value.Id == id
    ensures r.None? <==> forall i :: 0 <= i < |rows| ==> rows[i].Id != id
  {
    if rows == [] then None
    else if rows[0].Id == id then Some(rows[0])
    else Find(rows[1..], id)
  }

  /** FirstOrDefault(t => t.Id == taskId && t.UserId == userId). */
  function FirstOwned(rows: seq<AppTask>, taskId: int, userId: string): (r: Option<AppTask>)
    ensures r.Some? ==> r.value in rows && r.value.Id == taskId && r.value.UserId == userId
    ensures r.None? <==> forall i :: 0 <= i < |rows| ==> !(rows[i].Id == taskId && rows[i].UserId == userId)
  {
    if rows == [] then None
    else if rows[0].Id == taskId && rows[0].UserId == userId then Some(rows[0])
    else FirstOwned(rows[1..], taskId, userId)
  }

  /** AnyAsync(t => t.Id == taskId && t.UserId == userId). */
  predicate AnyOwned(rows: seq<AppTask>, taskId: int, userId: string) {
    exists i :: 0 <= i < |rows| && rows[i].Id == taskId && rows[i].UserId == userId
  }

  /** Where(x => x.UserId == userId), order preserved. */
  function OwnedBy(rows: seq<AppTask>, userId: string): (r: seq<AppTask>)
    ensures |r| <= |rows|
    ensures forall t :: t in r <==> t in rows && t.UserId == userId
  {
    if rows == [] then []
    else if rows[0].UserId == userId then [rows[0]] + OwnedBy(rows[1..], userId)
    else OwnedBy(rows[1..], userId)
  }

  /** CountAsync(t => t.UserId == userId). */
  function CountOwned(rows: seq<AppTask>, userId: string): nat {
    if rows == [] then 0
    else (if rows[0].UserId == userId then 1 else 0) + CountOwned(rows[1..], userId)
  }

  /** The table after Remove(entity) for the entity with key `id` has been saved. */
  function Without(rows: seq<AppTask>, id: int): (r: seq<AppTask>)
    ensures |r| <= |rows|
    ensures forall t :: t in r <==> t in rows && t.Id != id
  {
    if rows == [] then []
    else if rows[0].Id == id then Without(rows[1..], id)
    else [rows[0]] + Without(rows[1..], id)
  }

  /** The table after Update(entity) has been saved: the row with the entity's key takes its values. */
  function Replaced(rows: seq<AppTask>, task: AppTask): (r: seq<AppTask>)
    ensures |r| == |rows|
  {
    if rows == [] then []
    else [if rows[0].Id == task.Id then task else rows[0]] + Replaced(rows[1..], task)
  }

  /** The projection GetUserTasksPaginationAsync selects: Id, Title, Description, Status, DueDate. */
  function Information(t: AppTask): TaskInformation {
    TaskInformation(t.Id, t.Title, t.Description, t.Status, t.DueDate)
  }

  /** The projection the legacy GetUserTasksAsync selects: Title, Description, Status, DueDate. */
  function LegacyInformation(t: AppTask): LegacyTaskInformation {
    LegacyTaskInformation(t.Title, t.Description, t.Status, t.DueDate)
  }

  function InformationOf(rows: seq<AppTask>): (r: seq<TaskInformation>)
    ensures |r| == |rows|
    ensures forall i :: 0 <= i < |rows| ==> r[i] == Information(rows[i])
  {
    seq(|rows|, i requires 0 <= i < |rows| => Information(rows[i]))
  }

  function LegacyInformationOf(rows: seq<AppTask>): (r: seq<LegacyTaskInformation>)
    ensures |r| == |rows|
    ensures forall i :: 0 <= i < |rows| ==> r[i] == LegacyInformation(rows[i])
  {
    seq(|rows|, i requires 0 <= i < |rows| => LegacyInformation(rows[i]))
  }

  // ---------------------------------------------------------------------------------------------
  // Properties of the queries

  /** Count with a predicate agrees with the length of the matching Where. */
  lemma {:induction false} CountOwnedIsLengthOfOwnedBy(rows: seq<AppTask>, userId: string)
    ensures CountOwned(rows, userId) == |OwnedBy(rows, userId)|
  {
    if rows != [] {
      CountOwnedIsLengthOfOwnedBy(rows[1..], userId);
    }
  }

  /** Any with a predicate holds exactly when FirstOrDefault with it finds a row. */
  lemma AnyOwnedIffFirstOwned(rows: seq<AppTask>, taskId: int, userId: string)
    ensures AnyOwned(rows, taskId, userId) <==> FirstOwned(rows, taskId, userId).Some?
  {
  }

  /** With unique keys, the ownership lookup is the key lookup followed by an owner check. */
  lemma {:induction false} FirstOwnedIsOwnerCheckedFind(rows: seq<AppTask>, taskId: int, userId: string)
    requires KeyOrdered(rows)
    ensures FirstOwned(rows, taskId, userId) ==
            if Find(rows, taskId).Some? && Find(rows, taskId).value.UserId == userId then Find(rows, taskId) else None
  {
    if rows != [] && rows[0].Id != taskId {
      FirstOwnedIsOwnerCheckedFind(rows[1..], taskId, userId);
    }
  }

  /** A key lookup in a key-ordered table is the unique row with that key. */
  lemma FindUnique(rows: seq<AppTask>, i: int)
    requires KeyOrdered(rows) && 0 <= i < |rows|
    ensures Find(rows, rows[i].Id) == Some(rows[i])
    decreases i
  {
    if i > 0 {
      FindUnique(rows[1..], i - 1);
    }
  }

  /** Removing a key keeps the table key-ordered and the identity bound. */
  lemma {:induction false} WithoutKeepsOrder(rows: seq<AppTask>, id: int, bound: int)
    requires KeyOrdered(rows) && KeysBelow(rows, bound)
    ensures KeyOrdered(Without(rows, id)) && KeysBelow(Without(rows, id), bound)
  {
    if rows != [] {
      var tail := rows[1..];
      TailKeepsOrder(rows, bound);
      WithoutKeepsOrder(tail, id, bound);
      if rows[0].Id != id {
        var rest := Without(tail, id);
        forall t | t in rest ensures rows[0].Id < t.Id {
          var j :| 0 <= j < |tail| && tail[j] == t;
          assert rows[j + 1] == t;
        }
        ConsKeepsOrder(rows[0], rest, bound);
      }
    }
  }

  lemma TailKeepsOrder(rows: seq<AppTask>, bound: int)
    requires KeyOrdered(rows) && KeysBelow(rows, bound) && rows != []
    ensures KeyOrdered(rows[1..]) && KeysBelow(rows[1..], bound)
  {
    var tail := rows[1..];
    forall i, j | 0 <= i < j < |tail| ensures tail[i].Id < tail[j].Id {
      assert tail[i] == rows[i + 1] && tail[j] == rows[j + 1];
    }
  }

  lemma ConsKeepsOrder(head: AppTask, rest: seq<AppTask>, bound: int)
    requires KeyOrdered(rest) && KeysBelow(rest, bound) && head.Id < bound
    requires forall t | t in rest :: head.Id < t.Id
    ensures KeyOrdered([head] + rest) && KeysBelow([head] + rest, bound)
  {
    var r := [head] + rest;
    forall i, j | 0 <= i < j < |r| ensures r[i].Id < r[j].Id {
      assert r[j] == rest[j - 1] && r[j] in rest;
      if i > 0 {
        assert r[i] == rest[i - 1];
      }
    }
  }

  /** After removal the key is gone and every other key finds what it found before. */
  lemma {:induction false} FindWithout(rows: seq<AppTask>, id: int, key: int)
    ensures Find(Without(rows, id), key) == if key == id then None else Find(rows, key)
  {
    if rows != [] {
      FindWithout(rows[1..], id, key);
    }
  }

  /** Updating a row keeps the keys, hence the order and the identity bound. */
  lemma {:induction false} ReplacedKeepsKeys(rows: seq<AppTask>, task: AppTask)
    ensures forall i :: 0 <= i < |rows| ==> Replaced(rows, task)[i].Id == rows[i].Id
  {
    if rows != [] {
      ReplacedKeepsKeys(rows[1..], task);
    }
  }

  /** After an update the updated key finds the new values; every other key is unaffected. */
  lemma {:induction false} FindReplaced(rows: seq<AppTask>, task: AppTask, key: int)
    ensures Find(Replaced(rows, task), key) ==
            if key == task.Id && Find(rows, key).Some? then Some(task) else Find(rows, key)
  {
    if rows != [] {
      FindReplaced(rows[1..], task, key);
    }
  }

  /** Appending a row with a key above every existing key keeps the table key-ordered. */
  lemma AppendKeepsOrder(rows: seq<AppTask>, task: AppTask, bound: int)
    requires KeyOrdered(rows) && KeysBelow(rows, bound) && task.Id == bound
    ensures KeyOrdered(rows + [task]) && KeysBelow(rows + [task], bound + 1)
  {
  }
}
