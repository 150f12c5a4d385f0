/**
 * TaskController: the task endpoints over the task repository and the object cache. Reads try the
 * cache first and, on a miss, query the repository and cache the response; mutations save through
 * the repository and then remove a fixed set of cache keys.
 *
 * What the user repository says about the caller is passed in: the caller's id from the token
 * ("" when the token carries none), whether that user exists and whether the user is in the Admin
 * role. Every action starts on a fresh context (nothing staged). An exception inside an action is
 * caught and answered with status 500: with the arguments modelled, that happens when a page
 * size below 1 or a negative page offset reaches the database, which refuses an empty FETCH and a
 * negative OFFSET. The offset is computed in unchecked `int` arithmetic, so a large page number
 * can wrap around to a page inside the table.
 */
module TaskControllers {
  import opened Wrappers
  import opened TaskTable
  import opened WebCache
  import opened Cache
  import opened Repositories
  import Pagination

  /** The action results, reduced to their status and body. */
  datatype ActionResult =
    | Ok(Body: CachedObject)
    | CreatedAt(Id: int, Body: CachedObject)
    | BadRequest
    | Unauthorized
    | NotFound
    | ServerError

  /** How long each read endpoint caches its response. */
  const AllTasksLifetime: int := 5 * 60
  const UserTasksLifetime: int := 10 * 60
  const TaskLifetime: int := 15 * 60
  const CountLifetime: int := 5 * 60

  // ---------------------------------------------------------------------------------------------
  // Responses and invalidation sets

  function PageInfoOf<T>(page: Pagination.PagedList<T>): PageInfo
    requires page.PageSize > 0
  {
    PageInfo(page.CurrentPage, page.PageSize, page.TotalCount, Pagination.TotalPages(page))
  }

  function AllTasksPage(page: Pagination.PagedList<AppTask>): CachedObject
    requires page.PageSize > 0
  {
    AllTasksResponse("Tasks retrieved successfully.", page.Items, PageInfoOf(page))
  }

  function UserTasksPage(page: Pagination.PagedList<TaskInformation>): CachedObject
    requires page.PageSize > 0
  {
    UserTasksResponse(if |page.Items| > 0 then "Tasks retrieved successfully." else "No tasks found for this user.",
                      page.Items, PageInfoOf(page))
  }

  /** The TaskInformation a response carries: the task's fields without its Id, which stays 0. */
  function Shown(t: AppTask): TaskInformation {
    Information(t).(Id := 0)
  }

  /** The task AddTask builds from the request body for the caller. */
  function NewTask(body: TaskInformation, userId: string): AppTask {
    AppTask(0, body.Title, body.Description, body.Status, body.DueDate, userId)
  }

  /** The stored task with the four fields UpdateTask copies from the request body. */
  function Edited(t: AppTask, body: TaskInformation): AppTask {
    t.(Title := body.Title, Description := body.Description, Status := body.Status, DueDate := body.DueDate)
  }

  function DeletedMessage(taskId: int): string {
    "Task with ID " + IntToString(taskId) + " deleted successfully."
  }

  /** The keys AddTask removes. */
  function AddTaskInvalidations(userId: string): set<string> {
    {UserTasksKey(userId), UserTaskCountKey(userId)}
  }

  /** The keys UpdateTask removes: the caller's copy of the task and both users' task lists. */
  function UpdateTaskInvalidations(taskId: int, userId: string, ownerId: string): set<string> {
    {TaskKey(taskId, userId), UserTasksKey(userId), UserTasksKey(ownerId)}
  }

  /** The keys DeleteTask removes: the caller's copy of the task, both users' lists and counts. */
  function DeleteTaskInvalidations(taskId: int, userId: string, ownerId: string): set<string> {
    {TaskKey(taskId, userId), UserTasksKey(userId), UserTasksKey(ownerId), UserTaskCountKey(userId), UserTaskCountKey(ownerId)}
  }

  // ---------------------------------------------------------------------------------------------
  // Which cached responses survive a mutation

  /** Two keys of these shapes differ at one of their first ten characters. */
  lemma KeyShapesDiffer(userId: string, ownerId: string, taskId: int, pageNumber: int, pageSize: int, pageOwner: string)
    ensures UserTaskCountKey(userId) != UserTasksPageKey(pageOwner, pageNumber, pageSize)
    ensures UserTaskCountKey(userId) != AllTasksKey(pageNumber, pageSize)
    ensures UserTasksKey(userId) != AllTasksKey(pageNumber, pageSize)
    ensures TaskKey(taskId, userId) != UserTasksPageKey(pageOwner, pageNumber, pageSize)
    ensures TaskKey(taskId, userId) != AllTasksKey(pageNumber, pageSize)
    ensures TaskKey(taskId, userId) != UserTasksKey(ownerId) && TaskKey(taskId, userId) != UserTaskCountKey(ownerId)
  {
    assert UserTaskCountKey(userId)[9] == '_' && UserTasksPageKey(pageOwner, pageNumber, pageSize)[9] == 's';
    assert UserTaskCountKey(userId)[0] == 'u' && UserTasksKey(userId)[0] == 'u' && AllTasksKey(pageNumber, pageSize)[0] == 'a';
    assert TaskKey(taskId, userId)[0] == 't' && UserTasksPageKey(pageOwner, pageNumber, pageSize)[0] == 'u';
    assert UserTasksKey(ownerId)[0] == 'u' && UserTaskCountKey(ownerId)[0] == 'u';
  }

  /**
   * None of the mutations removes a cached page: not a page of the admin listing, not a page of
   * the caller's own list and, for user ids without '_' (identity ids are GUIDs), not a page of
   * anyone's list.
   */
  lemma InvalidationsMissPages(taskId: int, userId: string, ownerId: string, pageOwner: string, pageNumber: int, pageSize: int)
    ensures AllTasksKey(pageNumber, pageSize) !in DeleteTaskInvalidations(taskId, userId, ownerId)
    ensures UserTasksPageKey(userId, pageNumber, pageSize) !in AddTaskInvalidations(userId)
    ensures '_' !in userId && '_' !in ownerId ==>
              UserTasksPageKey(pageOwner, pageNumber, pageSize) !in DeleteTaskInvalidations(taskId, userId, ownerId)
  {
    KeyShapesDiffer(userId, ownerId, taskId, pageNumber, pageSize, pageOwner);
    KeyShapesDiffer(ownerId, userId, taskId, pageNumber, pageSize, pageOwner);
    KeyShapesDiffer(userId, ownerId, taskId, pageNumber, pageSize, userId);
    UserTasksKeyIsNoPageKey(userId, pageOwner, pageNumber, pageSize);
    UserTasksKeyIsNoPageKey(ownerId, pageOwner, pageNumber, pageSize);
  }

  /** The sets of UpdateTask and AddTask are parts of the set of DeleteTask. */
  lemma InvalidationsNested(taskId: int, userId: string, ownerId: string)
    ensures UpdateTaskInvalidations(taskId, userId, ownerId) <= DeleteTaskInvalidations(taskId, userId, ownerId)
    ensures AddTaskInvalidations(userId) <= DeleteTaskInvalidations(taskId, userId, userId)
  {
  }

  /**
   * When an admin changes or deletes another user's task, the owner's cached copy of the task,
   * task_{id}_user_{owner}, is not removed: only the caller's copy is.
   */
  lemma OwnerCopyKept(taskId: int, userId: string, ownerId: string)
    ensures TaskKey(taskId, ownerId) in DeleteTaskInvalidations(taskId, userId, ownerId) <==> ownerId == userId
    ensures TaskKey(taskId, ownerId) in UpdateTaskInvalidations(taskId, userId, ownerId) <==> ownerId == userId
  {
    KeyShapesDiffer(ownerId, userId, taskId, 0, 0, "");
    KeyShapesDiffer(ownerId, ownerId, taskId, 0, 0, "");
    if TaskKey(taskId, ownerId) == TaskKey(taskId, userId) {
      var p := "task_" + IntToString(taskId) + "_user_";
      assert TaskKey(taskId, ownerId) == p + ownerId && TaskKey(taskId, userId) == p + userId;
      assert ownerId == TaskKey(taskId, ownerId)[|p|..] == TaskKey(taskId, userId)[|p|..] == userId;
    }
  }

  /**
   * A page of the caller's list cached before AddTask is served unchanged after it, until its
   * ten minutes are over: the new task does not show in "MyTasks" meanwhile. The same holds for the
   * admin listing, for its five minutes.
   */
  lemma PagesStaleAfterAddTask(entries: map<string, Entry<CachedObject>>, userId: string, pageNumber: int, pageSize: int,
                               page: CachedObject, listing: CachedObject, cachedAt: int, now: int)
    requires cachedAt <= now
    ensures var key := UserTasksPageKey(userId, pageNumber, pageSize);
            var e := Removed(Written(entries, true, key, page, UserTasksLifetime, cachedAt), true, AddTaskInvalidations(userId));
            Cached(e, true, key, now) == if now < cachedAt + UserTasksLifetime then Some(page) else None
    ensures var key := AllTasksKey(pageNumber, pageSize);
            var e := Removed(Written(entries, true, key, listing, AllTasksLifetime, cachedAt), true, AddTaskInvalidations(userId));
            Cached(e, true, key, now) == if now < cachedAt + AllTasksLifetime then Some(listing) else None
  {
    InvalidationsMissPages(0, userId, userId, userId, pageNumber, pageSize);
    InvalidationsNested(0, userId, userId);
    GetAfterSet(entries, UserTasksPageKey(userId, pageNumber, pageSize), page, UserTasksLifetime, cachedAt, now);
    GetAfterSet(entries, AllTasksKey(pageNumber, pageSize), listing, AllTasksLifetime, cachedAt, now);
  }

  /**
   * GET api/Task/Get without paging arguments looks up and caches the first page of ten tasks
   * under "all_tasks_page_1_size_10".
   */
  lemma DefaultAllTasksRequest(source: seq<AppTask>)
    ensures var p := Pagination.DefaultParams;
            AllTasksKey(p.PageNumber, Pagination.ValidatedPageSize(p)) == "all_tasks_page_1_size_10"
            && Pagination.CreateAsync(source, p.PageNumber, Pagination.ValidatedPageSize(p)).Items
               == source[..Pagination.Min(|source|, 10)]
  {
    Pagination.DefaultParamsFirstPage(source);
  }

  // ---------------------------------------------------------------------------------------------
  // The controller

  class TaskController {
    const repo: TaskRepository
    const cache: RedisCacheService<CachedObject>

    constructor (taskRepository: TaskRepository, cacheService: RedisCacheService<CachedObject>)
      ensures repo == taskRepository && cache == cacheService
    {
      repo := taskRepository;
      cache := cacheService;
    }

    /**
     * The task an action may see: an admin reaches any task by its id, anyone else only a task
     * whose owner they are.
     */
    function VisibleTask(taskId: int, userId: string, isAdmin: bool): (r: Option<AppTask>)
      reads repo
      requires repo.Valid()
      ensures r.Some? ==> r.value in repo.committed && r.value.Id == taskId
      ensures r.Some? <==> repo.GetByIdAsync(taskId).Some? && (isAdmin || repo.GetByIdAsync(taskId).value.UserId == userId)
      ensures r.Some? ==> r == repo.GetByIdAsync(taskId)
    {
      if isAdmin then repo.GetByIdAsync(taskId) else repo.GetTaskByIdAsync(taskId, userId)
    }

    /** GET api/Task/Get: one page of all tasks, keyed and queried with the validated page size. */
    method GetAllTasks(p: Pagination.PaginationParams, now: int) returns (r: ActionResult)
      requires repo.Valid()
      modifies cache.store
      ensures cache.store.available == old(cache.store.available)
      ensures var size := Pagination.ValidatedPageSize(p);
              var key := AllTasksKey(p.PageNumber, size);
              var hit := Cached(old(cache.store.entries), old(cache.store.available), key, now);
              if hit.Some? then r == Ok(hit.value) && cache.store.entries == old(cache.store.entries)
              else if size < 1 || Pagination.Offset(p.PageNumber, size) < 0 then r == ServerError && cache.store.entries == old(cache.store.entries)
              else
                var page := Pagination.CreateAsync(repo.committed, p.PageNumber, size);
                if |page.Items| == 0 then r == Ok(NoTasksResponse("No tasks found.")) && cache.store.entries == old(cache.store.entries)
                else r == Ok(AllTasksPage(page))
                     && cache.store.entries == Written(old(cache.store.entries), old(cache.store.available), key, AllTasksPage(page), AllTasksLifetime, now)
    {
      var size := Pagination.ValidatedPageSize(p);
      var key := AllTasksKey(p.PageNumber, size);
      var cached := cache.GetAsync(key, now);
      if cached.Some? {
        return Ok(cached.value);
      }
      if size < 1 || Pagination.Offset(p.PageNumber, size) < 0 {
        return ServerError;
      }
      var page := repo.GetAllPaginationAsync(p.PageNumber, size);
      if |page.Items| == 0 {
        return Ok(NoTasksResponse("No tasks found."));
      }
      var response := AllTasksPage(page);
      cache.SetAsync(key, response, Some(AllTasksLifetime), now);
      r := Ok(response);
    }

    /** GET api/Task/MyTasks: one page of the caller's tasks, keyed and queried with the raw page size. */
    method GetUserTasks(p: Pagination.PaginationParams, userId: string, userExists: bool, now: int) returns (r: ActionResult)
      requires repo.Valid()
      modifies cache.store
      ensures cache.store.available == old(cache.store.available)
      ensures var key := UserTasksPageKey(userId, p.PageNumber, p.PageSize);
              var hit := Cached(old(cache.store.entries), old(cache.store.available), key, now);
              if userId == "" then r == Unauthorized && cache.store.entries == old(cache.store.entries)
              else if !userExists then r == NotFound && cache.store.entries == old(cache.store.entries)
              else if hit.Some? then r == Ok(hit.value) && cache.store.entries == old(cache.store.entries)
              else if p.PageSize < 1 || Pagination.Offset(p.PageNumber, p.PageSize) < 0 then r == ServerError && cache.store.entries == old(cache.store.entries)
              else
                var page := Pagination.CreateAsync(InformationOf(OwnedBy(repo.committed, userId)), p.PageNumber, p.PageSize);
                r == Ok(UserTasksPage(page))
                && cache.store.entries == Written(old(cache.store.entries), old(cache.store.available), key, UserTasksPage(page), UserTasksLifetime, now)
    {
      if userId == "" {
        return Unauthorized;
      }
      if !userExists {
        return NotFound;
      }
      var key := UserTasksPageKey(userId, p.PageNumber, p.PageSize);
      var cached := cache.GetAsync(key, now);
      if cached.Some? {
        return Ok(cached.value);
      }
      if p.PageSize < 1 || Pagination.Offset(p.PageNumber, p.PageSize) < 0 {
        return ServerError;
      }
      var page := repo.GetUserTasksPaginationAsync(userId, p.PageNumber, p.PageSize);
      var response := UserTasksPage(page);
      cache.SetAsync(key, response, Some(UserTasksLifetime), now);
      r := Ok(response);
    }

    /** GET api/Task/{id}: the task, if the caller may see it; a miss is not cached. */
    method GetTaskById(id: int, userId: string, isAdmin: bool, now: int) returns (r: ActionResult)
      requires repo.Valid()
      modifies cache.store
      ensures cache.store.available == old(cache.store.available)
      ensures var key := TaskKey(id, userId);
              var hit := Cached(old(cache.store.entries), old(cache.store.available), key, now);
              if userId == "" then r == Unauthorized && cache.store.entries == old(cache.store.entries)
              else if hit.Some? then r == Ok(hit.value) && cache.store.entries == old(cache.store.entries)
              else if VisibleTask(id, userId, isAdmin).None? then r == NotFound && cache.store.entries == old(cache.store.entries)
              else
                var response := TaskResponse("Task retrieved successfully.", Shown(VisibleTask(id, userId, isAdmin).value));
                r == Ok(response)
                && cache.store.entries == Written(old(cache.store.entries), old(cache.store.available), key, response, TaskLifetime, now)
    {
      if userId == "" {
        return Unauthorized;
      }
      var key := TaskKey(id, userId);
      var cached := cache.GetAsync(key, now);
      if cached.Some? {
        return Ok(cached.value);
      }
      var task: Option<AppTask>;
      if isAdmin {
        task := repo.GetByIdAsync(id);
      } else {
        task := repo.GetTaskByIdAsync(id, userId);
      }
      if task.None? {
        return NotFound;
      }
      var response := TaskResponse("Task retrieved successfully.", Shown(task.value));
      cache.SetAsync(key, response, Some(TaskLifetime), now);
      r := Ok(response);
    }

    /**
     * POST api/Task/Add: the caller's new task is saved under the next key; the caller's list and
     * count keys are removed.
     */
    method AddTask(body: Option<TaskInformation>, modelValid: bool, userId: string, userExists: bool) returns (r: ActionResult)
      requires repo.Valid() && repo.Clean()
      modifies repo, cache.store
      ensures repo.Valid() && repo.Clean()
      ensures cache.store.available == old(cache.store.available)
      ensures if body.None? || !modelValid || userId == "" || !userExists then
                && r == (if body.None? || !modelValid then BadRequest else if userId == "" then Unauthorized else NotFound)
                && repo.committed == old(repo.committed) && repo.nextId == old(repo.nextId)
                && cache.store.entries == old(cache.store.entries)
              else
                var task := NewTask(body.value, userId).(Id := old(repo.nextId));
                && r == CreatedAt(task.Id, TaskResponse("Task created successfully.", Shown(task)))
                && repo.committed == old(repo.committed) + [task] && repo.nextId == old(repo.nextId) + 1
                && cache.store.entries == Removed(old(cache.store.entries), old(cache.store.available), AddTaskInvalidations(userId))
    {
      if body.None? || !modelValid {
        return BadRequest;
      }
      if userId == "" {
        return Unauthorized;
      }
      if !userExists {
        return NotFound;
      }
      var task := NewTask(body.value, userId);
      var id := repo.AddAsync(task);
      repo.SaveAsync();
      cache.RemoveAsync(UserTasksKey(userId));
      cache.RemoveAsync(UserTaskCountKey(userId));
      r := CreatedAt(id, TaskResponse("Task created successfully.", Shown(task.(Id := id))));
    }

    /**
     * PUT api/Task/Update/{id}: the four fields of a task the caller may see are overwritten and
     * saved; the caller's copy of the task and both users' lists are removed from the cache.
     */
    method UpdateTask(id: int, body: Option<TaskInformation>, modelValid: bool, userId: string, isAdmin: bool) returns (r: ActionResult)
      requires repo.Valid() && repo.Clean()
      modifies repo, cache.store
      ensures repo.Valid() && repo.Clean() && repo.nextId == old(repo.nextId)
      ensures cache.store.available == old(cache.store.available)
      ensures if body.None? || !modelValid || userId == "" || old(VisibleTask(id, userId, isAdmin)).None? then
                && r == (if body.None? || !modelValid then BadRequest else if userId == "" then Unauthorized else NotFound)
                && repo.committed == old(repo.committed) && cache.store.entries == old(cache.store.entries)
              else
                var stored := old(VisibleTask(id, userId, isAdmin)).value;
                var updated := Edited(stored, body.value);
                && r == Ok(TaskResponse("Task updated successfully.", Shown(updated)))
                && repo.committed == Replaced(old(repo.committed), updated)
                && cache.store.entries == Removed(old(cache.store.entries), old(cache.store.available),
                                                  UpdateTaskInvalidations(id, userId, stored.UserId))
    {
      if body.None? || !modelValid {
        return BadRequest;
      }
      if userId == "" {
        return Unauthorized;
      }
      var stored: Option<AppTask>;
      if isAdmin {
        stored := repo.GetByIdAsync(id);
      } else {
        stored := repo.GetTaskByIdAsync(id, userId);
      }
      if stored.None? {
        return NotFound;
      }
      var updated := Edited(stored.value, body.value);
      repo.UpdateAsync(updated);
      repo.SaveAsync();
      RemoveUpdateKeys(id, userId, updated.UserId);
      r := Ok(TaskResponse("Task updated successfully.", Shown(updated)));
    }

    /**
     * DELETE api/Task/Delete/{taskId}, as written: an admin's deletion is saved, while the
     * owner's path only stages the removal (DeleteTaskByIdAsync does not save and the action does
     * not either), so it is dropped with the context at the end of the request. Both paths answer
     * Ok and remove the same keys.
     */
    method DeleteTask(taskId: int, userId: string, isAdmin: bool) returns (r: ActionResult)
      requires repo.Valid() && repo.Clean()
      modifies repo, cache.store
      ensures repo.Valid() && repo.nextId == old(repo.nextId)
      ensures cache.store.available == old(cache.store.available)
      ensures if userId == "" || old(VisibleTask(taskId, userId, isAdmin)).None? then
                && r == (if userId == "" then Unauthorized else NotFound)
                && repo.committed == old(repo.committed) && repo.Clean() && cache.store.entries == old(cache.store.entries)
              else
                var ownerId := old(VisibleTask(taskId, userId, isAdmin)).value.UserId;
                && r == Ok(MessageResponse(DeletedMessage(taskId)))
                && repo.pending == Without(old(repo.committed), taskId)
                && repo.committed == (if isAdmin then Without(old(repo.committed), taskId) else old(repo.committed))
                && cache.store.entries == Removed(old(cache.store.entries), old(cache.store.available),
                                                  DeleteTaskInvalidations(taskId, userId, ownerId))
    {
      if userId == "" {
        return Unauthorized;
      }
      var deleted := false;
      var ownerId := userId;
      if isAdmin {
        var task := repo.GetByIdAsync(taskId);
        if task.Some? {
          ownerId := task.value.UserId;
          repo.DeleteAsync(task.value);
          repo.SaveAsync();
          deleted := true;
        }
      } else {
        deleted := repo.DeleteTaskByIdAsync(taskId, userId);
      }
      if !deleted {
        return NotFound;
      }
      RemoveDeleteKeys(taskId, userId, ownerId);
      r := Ok(MessageResponse(DeletedMessage(taskId)));
    }

    /** DeleteTask with the owner's path saving its removal, as the admin's path does. */
    method DeleteTaskCommitted(taskId: int, userId: string, isAdmin: bool) returns (r: ActionResult)
      requires repo.Valid() && repo.Clean()
      modifies repo, cache.store
      ensures repo.Valid() && repo.Clean() && repo.nextId == old(repo.nextId)
      ensures cache.store.available == old(cache.store.available)
      ensures if userId == "" || old(VisibleTask(taskId, userId, isAdmin)).None? then
                && r == (if userId == "" then Unauthorized else NotFound)
                && repo.committed == old(repo.committed) && cache.store.entries == old(cache.store.entries)
              else
                var ownerId := old(VisibleTask(taskId, userId, isAdmin)).value.UserId;
                && r == Ok(MessageResponse(DeletedMessage(taskId)))
                && repo.committed == Without(old(repo.committed), taskId)
                && cache.store.entries == Removed(old(cache.store.entries), old(cache.store.available),
                                                  DeleteTaskInvalidations(taskId, userId, ownerId))
    {
      if userId == "" {
        return Unauthorized;
      }
      var deleted := false;
      var ownerId := userId;
      if isAdmin {
        var task := repo.GetByIdAsync(taskId);
        if task.Some? {
          ownerId := task.value.UserId;
          repo.DeleteAsync(task.value);
          deleted := true;
        }
      } else {
        deleted := repo.DeleteTaskByIdAsync(taskId, userId);
      }
      if !deleted {
        return NotFound;
      }
      repo.SaveAsync();
      RemoveDeleteKeys(taskId, userId, ownerId);
      r := Ok(MessageResponse(DeletedMessage(taskId)));
    }

    /** The three RemoveAsync calls that follow an update. */
    method RemoveUpdateKeys(taskId: int, userId: string, ownerId: string)
      modifies cache.store
      ensures cache.store.available == old(cache.store.available)
      ensures cache.store.entries == Removed(old(cache.store.entries), old(cache.store.available),
                                             UpdateTaskInvalidations(taskId, userId, ownerId))
    {
      cache.RemoveAsync(TaskKey(taskId, userId));
      cache.RemoveAsync(UserTasksKey(userId));
      cache.RemoveAsync(UserTasksKey(ownerId));
    }

    /** The five RemoveAsync calls that follow a deletion. */
    method RemoveDeleteKeys(taskId: int, userId: string, ownerId: string)
      modifies cache.store
      ensures cache.store.available == old(cache.store.available)
      ensures cache.store.entries == Removed(old(cache.store.entries), old(cache.store.available),
                                             DeleteTaskInvalidations(taskId, userId, ownerId))
    {
      cache.RemoveAsync(TaskKey(taskId, userId));
      cache.RemoveAsync(UserTasksKey(userId));
      cache.RemoveAsync(UserTasksKey(ownerId));
      cache.RemoveAsync(UserTaskCountKey(userId));
      cache.RemoveAsync(UserTaskCountKey(ownerId));
    }

    /** GET api/Task/Count: the number of the caller's tasks. */
    method GetTaskCount(userId: string, now: int) returns (r: ActionResult)
      modifies cache.store
      ensures cache.store.available == old(cache.store.available)
      ensures var key := UserTaskCountKey(userId);
              var hit := Cached(old(cache.store.entries), old(cache.store.available), key, now);
              var response := CountResponse("Task count retrieved successfully.", |OwnedBy(repo.committed, userId)|);
              if userId == "" then r == Unauthorized && cache.store.entries == old(cache.store.entries)
              else if hit.Some? then r == Ok(hit.value) && cache.store.entries == old(cache.store.entries)
              else r == Ok(response)
                   && cache.store.entries == Written(old(cache.store.entries), old(cache.store.available), key, response, CountLifetime, now)
    {
      if userId == "" {
        return Unauthorized;
      }
      var key := UserTaskCountKey(userId);
      var cached := cache.GetAsync(key, now);
      if cached.Some? {
        return Ok(cached.value);
      }
      var count := repo.GetUserTaskCountAsync(userId);
      var response := CountResponse("Task count retrieved successfully.", count);
      cache.SetAsync(key, response, Some(CountLifetime), now);
      r := Ok(response);
    }

    /**
     * A whole DELETE request by the owner of a task, as written: the action answers Ok, then the
     * request's context is disposed, and the task is still in the database.
     */
    method OwnerDeleteRequest(taskId: int, userId: string) returns (r: ActionResult)
      requires repo.Valid() && repo.Clean() && userId != ""
      requires repo.IsTaskOwnedByUserAsync(taskId, userId)
      modifies repo, cache.store
      ensures r == Ok(MessageResponse(DeletedMessage(taskId)))
      ensures repo.committed == old(repo.committed) && repo.GetByIdAsync(taskId).Some?
    {
      r := DeleteTask(taskId, userId, false);
      repo.DisposeContext();
    }

    /** The same request with the removal saved: after the context is disposed the task is gone. */
    method OwnerDeleteRequestCommitted(taskId: int, userId: string) returns (r: ActionResult)
      requires repo.Valid() && repo.Clean() && userId != ""
      requires repo.IsTaskOwnedByUserAsync(taskId, userId)
      modifies repo, cache.store
      ensures r == Ok(MessageResponse(DeletedMessage(taskId)))
      ensures repo.committed == Without(old(repo.committed), taskId) && repo.GetByIdAsync(taskId).None?
    {
      r := DeleteTaskCommitted(taskId, userId, false);
      repo.DisposeContext();
      FindWithout(old(repo.committed), taskId, taskId);
    }
  }
}
