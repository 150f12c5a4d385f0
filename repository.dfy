/**
 * BaseRepository<T> and TaskRepository over the Tasks table, through an Entity Framework context.
 * The same class models the current repositories and the legacy ones, whose shared operations are
 * the same code line for line.
 *
 * Reads go to the database and see `committed`. AddAsync, UpdateAsync and DeleteAsync only stage a
 * change in the context: they change `pending`, the database as it will be once the context saves.
 * SaveAsync commits `pending`; disposing the context at the end of the request drops whatever was
 * staged and not saved.
 */
module Repositories {
  import opened Wrappers
  import opened TaskTable
  import Pagination

  class TaskRepository {
    /** The rows in the database, in key order. */
    var committed: seq<AppTask>
    /** The rows as they will be after the context saves its staged changes. */
    var pending: seq<AppTask>
    /** The value the identity column gives the next inserted row. */
    var nextId: int

    ghost predicate Valid()
      reads this
    {
      && KeyOrdered(committed) && KeysBelow(committed, nextId)
      && KeyOrdered(pending) && KeysBelow(pending, nextId)
    }

    /** No change is staged: the state of a context at the start of a request. */
    predicate Clean()
      reads this
    {
      pending == committed
    }

    constructor (rows: seq<AppTask>, identity: int)
      requires KeyOrdered(rows) && KeysBelow(rows, identity)
      ensures Valid() && Clean()
      ensures committed == rows && nextId == identity
    {
      committed, pending, nextId := rows, rows, identity;
    }

    // ------------------------------------------------------------------------------------------
    // Queries (they read the database)

    /** GetByIdAsync: the task whose key is `id`, or null. */
    function GetByIdAsync(id: int): (r: Option<AppTask>)
      reads this
      ensures r.Some? ==> r.value in committed && r.value.Id == id
      ensures r.None? <==> forall i :: 0 <= i < |committed| ==> committed[i].Id != id
    {
      Find(committed, id)
    }

    /** ExistsAsync: whether GetByIdAsync finds an entity. */
    function ExistsAsync(id: int): (r: bool)
      reads this
      ensures r <==> GetByIdAsync(id) != None
      ensures r <==> exists i :: 0 <= i < |committed| && committed[i].Id == id
    {
      var entity := GetByIdAsync(id);
      entity != None
    }

    /** GetAllAsync (legacy): every stored task. */
    function GetAllAsync(): (r: seq<AppTask>)
      reads this
      ensures forall t :: t in r <==> t in committed
      ensures |r| == |committed|
    {
      committed
    }

    /** GetAllPaginationAsync: one page over every stored task, in key order. */
    function GetAllPaginationAsync(pageNumber: Pagination.Int32, pageSize: Pagination.Int32): (r: Pagination.PagedList<AppTask>)
      reads this
      requires pageSize > 0 && Pagination.Offset(pageNumber, pageSize) >= 0
      ensures r.TotalCount == |committed|
      ensures r == Pagination.CreateAsync(committed, pageNumber, pageSize)
    {
      Pagination.CreateAsync(committed, pageNumber, pageSize)
    }

    /** GetTaskByIdAsync: the task with key `taskId` if and only if `userId` owns it. */
    function GetTaskByIdAsync(taskId: int, userId: string): (r: Option<AppTask>)
      reads this
      requires Valid()
      ensures r.Some? ==> r.value.Id == taskId && r.value.UserId == userId && r.value in committed
      ensures r == if GetByIdAsync(taskId).Some? && GetByIdAsync(taskId).value.UserId == userId
                   then GetByIdAsync(taskId) else None
    {
      FirstOwnedIsOwnerCheckedFind(committed, taskId, userId);
      FirstOwned(committed, taskId, userId)
    }

    /** IsTaskOwnedByUserAsync: agrees with GetTaskByIdAsync finding the task. */
    function IsTaskOwnedByUserAsync(taskId: int, userId: string): (r: bool)
      reads this
      requires Valid()
      ensures r <==> GetTaskByIdAsync(taskId, userId).Some?
    {
      AnyOwnedIffFirstOwned(committed, taskId, userId);
      AnyOwned(committed, taskId, userId)
    }

    /** GetUserTasksEntitiesAsync: exactly the tasks `userId` owns, in key order. */
    function GetUserTasksEntitiesAsync(userId: string): (r: seq<AppTask>)
      reads this
      ensures forall t :: t in r <==> t in committed && t.UserId == userId
    {
      OwnedBy(committed, userId)
    }

    /** GetUserTaskCountAsync: the number of tasks `userId` owns. */
    function GetUserTaskCountAsync(userId: string): (r: nat)
      reads this
      ensures r == |GetUserTasksEntitiesAsync(userId)|
    {
      CountOwnedIsLengthOfOwnedBy(committed, userId);
      CountOwned(committed, userId)
    }

    /**
     * GetUserTasksPaginationAsync: one page over the user's tasks projected to TaskInformation;
     * its total is the user's task count.
     */
    function GetUserTasksPaginationAsync(userId: string, pageNumber: Pagination.Int32, pageSize: Pagination.Int32): (r: Pagination.PagedList<TaskInformation>)
      reads this
      requires pageSize > 0 && Pagination.Offset(pageNumber, pageSize) >= 0
      ensures r.TotalCount == GetUserTaskCountAsync(userId)
      ensures r == Pagination.CreateAsync(InformationOf(GetUserTasksEntitiesAsync(userId)), pageNumber, pageSize)
    {
      Pagination.CreateAsync(InformationOf(OwnedBy(committed, userId)), pageNumber, pageSize)
    }

    /** GetUserTasksAsync (legacy): one projected entry per task the user owns, in the same order. */
    function GetUserTasksAsync(userId: string): (r: seq<LegacyTaskInformation>)
      reads this
      ensures |r| == GetUserTaskCountAsync(userId)
      ensures forall i :: 0 <= i < |r| ==> r[i] == LegacyInformation(GetUserTasksEntitiesAsync(userId)[i])
    {
      LegacyInformationOf(OwnedBy(committed, userId))
    }

    // ------------------------------------------------------------------------------------------
    // Staged changes and the commit

    /**
     * AddAsync: stage the insertion of `task`. The database's identity column gives the row its
     * key; the key given with the entity is not used.
     */
    method AddAsync(task: AppTask) returns (id: int)
      requires Valid()
      modifies this
      ensures Valid()
      ensures id == old(nextId) && nextId == old(nextId) + 1
      ensures pending == old(pending) + [task.(Id := id)]
      ensures committed == old(committed)
    {
      id := nextId;
      AppendKeepsOrder(pending, task.(Id := id), id);
      pending := pending + [task.(Id := id)];
      nextId := nextId + 1;
    }

    /** UpdateAsync: stage the new values of the row with the entity's key. */
    method UpdateAsync(task: AppTask)
      requires Valid()
      modifies this
      ensures Valid()
      ensures pending == Replaced(old(pending), task)
      ensures committed == old(committed) && nextId == old(nextId)
    {
      ReplacedKeepsKeys(pending, task);
      pending := Replaced(pending, task);
    }

    /** DeleteAsync: stage the removal of the entity. */
    method DeleteAsync(task: AppTask)
      requires Valid()
      modifies this
      ensures Valid()
      ensures pending == Without(old(pending), task.Id)
      ensures committed == old(committed) && nextId == old(nextId)
    {
      WithoutKeepsOrder(pending, task.Id, nextId);
      pending := Without(pending, task.Id);
    }

    /** DeleteByIdAsync: false and nothing staged for an unknown key, else stage the removal. */
    method DeleteByIdAsync(id: int) returns (deleted: bool)
      requires Valid()
      modifies this
      ensures Valid()
      ensures deleted <==> old(ExistsAsync(id))
      ensures pending == if deleted then Without(old(pending), id) else old(pending)
      ensures committed == old(committed) && nextId == old(nextId)
    {
      var entity := GetByIdAsync(id);
      if entity == None {
        return false;
      }
      DeleteAsync(entity.value);
      deleted := true;
    }

    /**
     * DeleteTaskByIdAsync: false and nothing staged unless `userId` owns task `taskId`, else stage
     * its removal. It does not save.
     */
    method DeleteTaskByIdAsync(taskId: int, userId: string) returns (deleted: bool)
      requires Valid()
      modifies this
      ensures Valid()
      ensures deleted <==> old(IsTaskOwnedByUserAsync(taskId, userId))
      ensures pending == if deleted then Without(old(pending), taskId) else old(pending)
      ensures committed == old(committed) && nextId == old(nextId)
    {
      var task := GetTaskByIdAsync(taskId, userId);
      if task == None {
        return false;
      }
      DeleteAsync(task.value);
      deleted := true;
    }

    /** SaveAsync: commit every staged change. */
    method SaveAsync()
      requires Valid()
      modifies this
      ensures Valid() && Clean()
      ensures committed == old(pending) && nextId == old(nextId)
    {
      committed := pending;
    }

    /** The end of the request's scope: the context is disposed and unsaved changes are lost. */
    method DisposeContext()
      requires Valid()
      modifies this
      ensures Valid() && Clean()
      ensures committed == old(committed) && nextId == old(nextId)
    {
      pending := committed;
    }
  }
}
