/**
 * What TaskController and AccountController keep in the distributed cache: the response objects,
 * serialized as they were returned, and the names of the keys they are stored under.
 */
module WebCache {
  import opened Wrappers
  import opened TaskTable
  import opened Cache

  /** The PageInfo / Pagination part of a paged response. */
  datatype PageInfo = PageInfo(CurrentPage: int, PageSize: int, TotalCount: int, TotalPages: int)

  /** The anonymous response objects the controllers return and cache. */
  datatype CachedObject =
    | AllTasksResponse(Message: string, Tasks: seq<AppTask>, Info: PageInfo)
    | NoTasksResponse(Message: string)
    | UserTasksResponse(Message: string, UserTasks: seq<TaskInformation>, Info: PageInfo)
    | TaskResponse(Message: string, Task: TaskInformation)
    | CountResponse(Message: string, Count: int)
    | MessageResponse(Message: string)
      /** A bare string value, as AccountController.Logout writes it. */
    | Text(Value: string)

  // ---------------------------------------------------------------------------------------------
  // Decimal text of an integer, as string interpolation writes it

  function DigitChar(d: int): char
    requires 0 <= d < 10
  {
    ('0' as int + d) as char
  }

  predicate IsDecimalDigit(c: char) {
    '0' <= c <= '9'
  }

  function NatToString(n: nat): (s: string)
    ensures |s| >= 1 && forall i :: 0 <= i < |s| ==> IsDecimalDigit(s[i])
  {
    if n < 10 then [DigitChar(n)] else NatToString(n / 10) + [DigitChar(n % 10)]
  }

  /** int.ToString(): the decimal digits, after a minus sign when negative. */
  function IntToString(i: int): (s: string)
    ensures '_' !in s
  {
    if i < 0 then "-" + NatToString(-i) else NatToString(i)
  }

  /** The value of a non-empty string of decimal digits. */
  function ParseNat(s: string): nat
    requires |s| >= 1 && forall i :: 0 <= i < |s| ==> IsDecimalDigit(s[i])
  {
    assert IsDecimalDigit(s[|s| - 1]);
    var last: nat := s[|s| - 1] as int - '0' as int;
    if |s| == 1 then last else ParseNat(s[..|s| - 1]) * 10 + last
  }

  /** int.Parse on the text int.ToString() writes. */
  function ParseInt(s: string): Option<int> {
    if |s| >= 2 && s[0] == '-' && forall i :: 1 <= i < |s| ==> IsDecimalDigit(s[i]) then Some(-(ParseNat(s[1..]) as int))
    else if |s| >= 1 && forall i :: 0 <= i < |s| ==> IsDecimalDigit(s[i]) then Some(ParseNat(s))
    else None
  }

  lemma {:induction false} ParseNatToString(n: nat)
    ensures ParseNat(NatToString(n)) == n
  {
    if n >= 10 {
      ParseNatToString(n / 10);
      var s := NatToString(n);
      assert s[..|s| - 1] == NatToString(n / 10);
    }
  }

  /** The decimal text reads back as the integer written: distinct integers give distinct texts. */
  lemma IntToStringRoundTrip(i: int)
    ensures ParseInt(IntToString(i)) == Some(i)
  {
    var s := IntToString(i);
    if i < 0 {
      ParseNatToString(-i);
      assert s[1..] == NatToString(-i);
    } else {
      ParseNatToString(i);
      assert s[0] != '-';
    }
  }

  lemma IntToStringInjective(i: int, j: int)
    requires IntToString(i) == IntToString(j)
    ensures i == j
  {
    IntToStringRoundTrip(i);
    IntToStringRoundTrip(j);
  }

  // ---------------------------------------------------------------------------------------------
  // Cache keys

  /** GetAllTasks: all_tasks_page_{PageNumber}_size_{ValidatedPageSize}. */
  function AllTasksKey(pageNumber: int, pageSize: int): string {
    "all_tasks_page_" + IntToString(pageNumber) + "_size_" + IntToString(pageSize)
  }

  /** GetUserTasks: user_tasks_{userId}_page{PageNumber}_size{PageSize}. */
  function UserTasksPageKey(userId: string, pageNumber: int, pageSize: int): string {
    "user_tasks_" + userId + "_page" + IntToString(pageNumber) + "_size" + IntToString(pageSize)
  }

  /** GetTaskById: task_{id}_user_{userId}. */
  function TaskKey(id: int, userId: string): string {
    "task_" + IntToString(id) + "_user_" + userId
  }

  /** What AddTask, UpdateTask and DeleteTask remove: user_tasks_{userId}. */
  function UserTasksKey(userId: string): string {
    "user_tasks_" + userId
  }

  /** GetTaskCount: user_task_count_{userId}. */
  function UserTaskCountKey(userId: string): string {
    "user_task_count_" + userId
  }

  /** The position of the first '_' (the length when there is none). */
  function FirstUnderscore(s: string): nat {
    if |s| == 0 then 0 else if s[0] == '_' then 0 else 1 + FirstUnderscore(s[1..])
  }

  lemma {:induction false} FirstUnderscoreAfter(x: string, rest: string)
    requires '_' !in x && |rest| >= 1 && rest[0] == '_'
    ensures FirstUnderscore(x + rest) == |x|
  {
    if |x| > 0 {
      assert (x + rest)[1..] == x[1..] + rest;
      FirstUnderscoreAfter(x[1..], rest);
    }
  }

  /** Two strings joined by a separator that starts with '_' split back uniquely when neither holds '_'. */
  lemma SplitAtUnderscore(x: string, y: string, x': string, y': string, sep: string)
    requires '_' !in x && '_' !in x' && |sep| >= 1 && sep[0] == '_'
    requires x + (sep + y) == x' + (sep + y')
    ensures x == x' && y == y'
  {
    FirstUnderscoreAfter(x, sep + y);
    FirstUnderscoreAfter(x', sep + y');
    var s, s' := x + (sep + y), x' + (sep + y');
    assert x == s[..|x|] == s'[..|x|] == x';
    assert y == s[|x| + |sep|..] == s'[|x| + |sep|..] == y';
  }

  /** Different pages, or the same page in a different size, are cached under different keys. */
  lemma AllTasksKeysDistinct(n: int, s: int, n': int, s': int)
    requires AllTasksKey(n, s) == AllTasksKey(n', s')
    ensures n == n' && s == s'
  {
    var x, y, x', y' := IntToString(n), IntToString(s), IntToString(n'), IntToString(s');
    var p, sep := "all_tasks_page_", "_size_";
    Regroup(p, x, sep, y);
    Regroup(p, x', sep, y');
    DropPrefix(p, x + (sep + y), x' + (sep + y'));
    SplitAtUnderscore(x, y, x', y', sep);
    IntToStringInjective(n, n');
    IntToStringInjective(s, s');
  }

  lemma Regroup(p: string, x: string, sep: string, y: string)
    ensures p + x + sep + y == p + (x + (sep + y))
  {
  }

  lemma DropPrefix(p: string, a: string, b: string)
    requires p + a == p + b
    ensures a == b
  {
    assert a == (p + a)[|p|..] && b == (p + b)[|p|..];
  }

  /**
   * The key the mutations remove is never the key a page of the same user's tasks is cached
   * under, and, for a user id without '_' (ids are GUIDs), never a page key of any user: removing
   * it leaves every cached page in place.
   */
  lemma UserTasksKeyIsNoPageKey(userId: string, owner: string, pageNumber: int, pageSize: int)
    ensures UserTasksKey(userId) != UserTasksPageKey(userId, pageNumber, pageSize)
    ensures '_' !in userId ==> UserTasksKey(userId) != UserTasksPageKey(owner, pageNumber, pageSize)
  {
    var k := UserTasksKey(userId);
    var pk := UserTasksPageKey(owner, pageNumber, pageSize);
    assert |UserTasksPageKey(userId, pageNumber, pageSize)| > |k|;
    if '_' !in userId && |userId| > |owner| {
      var i := |"user_tasks_"| + |owner|;
      assert k[i] == userId[|owner|] && pk[i] == '_';
    }
  }

  // ---------------------------------------------------------------------------------------------
  // The cache as the controller sees it through RedisCacheService

  /** GetAsync: the cached object, or null when the store cannot be reached or has none. */
  function Cached(entries: map<string, Entry<CachedObject>>, available: bool, key: string, now: int): Option<CachedObject> {
    if available then CacheGet(entries, key, now) else None
  }

  /** The store after SetAsync with lifetime `ttl` (no change when the store cannot be reached). */
  function Written(entries: map<string, Entry<CachedObject>>, available: bool, key: string, value: CachedObject, ttl: int, now: int): map<string, Entry<CachedObject>> {
    if available then CacheSet(entries, key, value, ttl, now) else entries
  }

  /** The store after one RemoveAsync per key (no change when the store cannot be reached). */
  function Removed(entries: map<string, Entry<CachedObject>>, available: bool, keys: set<string>): map<string, Entry<CachedObject>> {
    if available then entries - keys else entries
  }
}
