# TaskManagementAPI in Dafny

A model of the core of TaskManagementAPI, an ASP.NET Core Web API. Users register, log in for a
bearer token (a JSON Web Token, RFC 7519, signed HS256 as in section 3.2 of RFC 7518) and log
out again. Each user keeps a list of tasks. Administrators see and change every task. Reads go
through a Redis object cache and mutations remove cache keys.

The model has one module per component:

| file | module | what it models |
|---|---|---|
| `pagination.dfy` | `Pagination` | `PaginationListHelper<T>` / `PaginationParams`, and the legacy `PaginatedList<T>` / `PaginationParams`, which are the same code line for line |
| `task_table.dfy` | `TaskTable` | the `AppTask` entity, its DTO projections, and the LINQ queries the repositories run, over a table held in key order |
| `repository.dfy` | `Repositories` | `BaseRepository` and `TaskRepository` (current and legacy) as a class over an Entity Framework context: queries read `committed`; Add/Update/Remove stage into `pending`; `SaveAsync` commits; disposing the context drops what was not saved |
| `cache.dfy` | `Cache` | the distributed store, `RedisCacheService`, `TokenBlacklistService`, and the blacklist check the bearer handler runs on each validated token |
| `web_cache.dfy` | `WebCache` | the response objects the controllers cache, and their cache-key names (decimal text of integers included) |
| `tokens.dfy` | `Tokens` | claims, tokens as values, and the case-insensitive algorithm comparison |
| `base64.dfy` | `Base64` | the Base64 encoding (section 4 of RFC 4648) that refresh tokens use |
| `identity.dfy` | `Identity` | the part of ASP.NET Identity's `UserManager`/`RoleManager` the core calls |
| `auth_service.dfy` | `Auth` | `AuthService`: the access-token claims, refresh tokens, the RefreshTokens table, and reading back an expired token |
| `role_seeder.dfy` | `RoleSeeder` | `RoleSeederService`: the start-up seeding of roles and administrators |
| `task_controller.dfy` | `TaskControllers` | `TaskController`: the seven task endpoints |
| `account_controller.dfy` | `AccountControllers` | `AccountController`: Register, Login and Logout |

Modelling conventions:

- Times are instants in whole seconds. Cache lifetimes are the source's minutes times 60.
- A table is a sequence in key order. `FirstOrDefault` therefore finds the row with the lowest key.
- A null `UserId` is the empty string. It matches the same rows and prints the same in a key.
- JSON serialisation is an exact round trip. A value the object cache writes is stored as the value itself.
- What a controller learns from the user repository is passed in as a parameter: the caller's id from the token, whether that user exists, and whether the user is in the Admin role.
- What the JWT library makes of a header's token is also passed in.
- The random bytes behind a refresh token, and whether the database accepts a save, are parameters too.

The blacklist check fails closed. In Program.cs:77-86 an exception from the store escapes the
`OnTokenValidated` event, so authentication fails and the token is refused. The check only runs
when the bearer handler's validated token is a `JwtSecurityToken`; a token of another type is
accepted without it. `Cache.TokenBlacklistService.OnTokenValidated` states both.

Page offsets are `int` arithmetic. `(pageNumber - 1) * pageSize` wraps around at 2^32, so a page
number far past the last page can land inside the table, and a negative page number can give a
valid offset. The model computes the offset the same way (`Pagination.Offset`).

## Model

| member | source | states |
|---|---|---|
| Pagination.ValidatedPageSize | Task-Management-Api.Application/Pagination/PaginationParams.cs:14-16 | the validated size is at most 50, is either the requested size or 50, and differs from the request exactly when the request exceeds 50, so any size of at most 50, zero and negative sizes included, passes through unchanged (legacy copy: Task-Management-API/Pagination/PaginationParams.cs:8-10) |
| Pagination.DefaultParamsFirstPage | Task-Management-Api.Application/Pagination/PaginationParams.cs:11-16 | omitted arguments are page 1 of size 10 (legacy copy: Task-Management-API/Pagination/PaginationParams.cs:5-6): the validated size is 10, the offset 0, and the page is the first ten elements |
| Pagination.ValidatedPageSizeIdempotent | Task-Management-Api.Application/Pagination/PaginationParams.cs:16 | validating an already validated size gives the same size |
| Pagination.TotalPages | Task-Management-Api.Application/Pagination/PaginationListHelper.cs:17 | for a positive page size, the page count is the integer ceiling of TotalCount / PageSize: the smallest n with TotalCount <= n * PageSize |
| Pagination.CeilingDivision | Task-Management-Api.Application/Pagination/PaginationListHelper.cs:17 | (q - 1) * b < a <= q * b, which is what Math.Ceiling of the quotient gives |
| Pagination.Wrap32 | Task-Management-Api.Application/Pagination/PaginationListHelper.cs:31 | unchecked `int` arithmetic: the result is an `int` congruent to the exact value modulo 2^32, and is the exact value when that fits |
| Pagination.UnwrappedOffset | Task-Management-Api.Application/Pagination/PaginationListHelper.cs:31 | for page numbers from 1 while (pageNumber - 1) * pageSize fits in an `int`, the offset is that product and is not negative |
| Pagination.WrappedOffsets | Task-Management-Api.Application/Pagination/PaginationListHelper.cs:31-32 | over 20 elements, page 429496731 of size 10 is elements 5 to 14 and page -858993458 of size 10 is elements 3 to 12: the offset wraps |
| Pagination.CreateAsync | Task-Management-Api.Application/Pagination/PaginationListHelper.cs:27-35 | TotalCount is the length of the source; CurrentPage and PageSize echo the arguments; Items are the source elements from the offset (pageNumber - 1) * pageSize, wrapped to an `int`, on, in source order, at most pageSize of them and exactly as many as remain (legacy copy: Task-Management-API/Pagination/PaginatedListHelper.cs:21-29) |
| Pagination.PagesPastTheLastAreEmpty | Task-Management-Api.Application/Pagination/PaginationListHelper.cs:17-33 | a page number beyond TotalPages yields no items, as long as its offset does not wrap |
| Pagination.PagesUpToIsPrefix | Task-Management-Api.Application/Pagination/PaginationListHelper.cs:30-33 | while no offset wraps, pages 1..k concatenated are the first k * pageSize source elements |
| Pagination.AllPagesPartitionSource | Task-Management-Api.Application/Pagination/PaginationListHelper.cs:17-33 | for a source whose count fits in an `int`, pages 1..TotalPages concatenated are the whole source: every element exactly once, in order |
| TaskTable.Find | Task-Management-API.Infrastructure/Repositories/BaseRepository.cs:26-29 | FindAsync returns a row with the key when there is one, and null exactly when no row has it |
| TaskTable.FirstOwned | Task-Management-API.Infrastructure/Repositories/TaskRepository.cs:48-52 | the first row with the key and the owner, or null exactly when there is none |
| TaskTable.OwnedBy | Task-Management-API.Infrastructure/Repositories/TaskRepository.cs:40-45 | exactly the rows of the owner, and no more rows than the table |
| TaskTable.Without | Task-Management-API.Infrastructure/Repositories/BaseRepository.cs:46-50 | removal keeps exactly the rows with another key |
| TaskTable.InformationOf | Task-Management-API.Infrastructure/Repositories/TaskRepository.cs:28-35 | one projection per task, in order, copying Id, Title, Description, Status and DueDate |
| TaskTable.LegacyInformationOf | Task-Management-API/Repository/TaskRepository.cs:27-33 | one projection per task, in order, copying Title, Description, Status and DueDate |
| TaskTable.CountOwnedIsLengthOfOwnedBy | Task-Management-API.Infrastructure/Repositories/TaskRepository.cs:62-66 | Count with the owner predicate equals the length of the matching Where |
| TaskTable.AnyOwnedIffFirstOwned | Task-Management-API.Infrastructure/Repositories/TaskRepository.cs:55-59 | Any with the ownership predicate holds exactly when FirstOrDefault with it finds a row |
| TaskTable.FirstOwnedIsOwnerCheckedFind | Task-Management-API.Infrastructure/Repositories/TaskRepository.cs:48-52 | with unique keys, the ownership lookup is the key lookup followed by an owner check |
| TaskTable.FindUnique | Task-Management-API.Infrastructure/Repositories/BaseRepository.cs:26-29 | in a key-ordered table the key lookup finds the one row with that key |
| TaskTable.WithoutKeepsOrder | Task-Management-API.Infrastructure/Repositories/BaseRepository.cs:46-50 | removal keeps the table key-ordered and under the identity bound |
| TaskTable.FindWithout | Task-Management-API.Infrastructure/Repositories/BaseRepository.cs:52-59 | after removal the key finds nothing and every other key finds what it found before |
| TaskTable.ReplacedKeepsKeys | Task-Management-API.Infrastructure/Repositories/BaseRepository.cs:40-44 | an update keeps the keys, hence the key order and the identity bound |
| TaskTable.FindReplaced | Task-Management-API.Infrastructure/Repositories/BaseRepository.cs:40-44 | after an update the key finds the new values and every other key is unaffected |
| TaskTable.AppendKeepsOrder | Task-Management-API.Infrastructure/Repositories/BaseRepository.cs:35-38 | a row inserted under the next identity value keeps the table key-ordered |
| Repositories.TaskRepository.constructor | Task-Management-API.Infrastructure/Repositories/BaseRepository.cs:13-17 | a fresh context over a key-ordered table has nothing staged |
| Repositories.TaskRepository.GetByIdAsync | Task-Management-API.Infrastructure/Repositories/BaseRepository.cs:26-29 | the stored task with the key, or null exactly when no stored task has it (legacy copy: Task-Management-API/Repository/BaseRepository.cs:18-21) |
| Repositories.TaskRepository.ExistsAsync | Task-Management-API.Infrastructure/Repositories/BaseRepository.cs:62-66 | true exactly when GetByIdAsync finds the task, that is when a stored task has the key |
| Repositories.TaskRepository.GetAllAsync | Task-Management-API/Repository/BaseRepository.cs:23-26 | every stored task, once each |
| Repositories.TaskRepository.GetAllPaginationAsync | Task-Management-API.Infrastructure/Repositories/BaseRepository.cs:19-23 | the page over the whole table, whose total is the number of stored tasks |
| Repositories.TaskRepository.GetTaskByIdAsync | Task-Management-API.Infrastructure/Repositories/TaskRepository.cs:48-52 | the task with the key when its owner is the user, else null (legacy copy: Task-Management-API/Repository/TaskRepository.cs:47-51) |
| Repositories.TaskRepository.IsTaskOwnedByUserAsync | Task-Management-API.Infrastructure/Repositories/TaskRepository.cs:55-59 | true exactly when GetTaskByIdAsync finds the task |
| Repositories.TaskRepository.GetUserTasksEntitiesAsync | Task-Management-API.Infrastructure/Repositories/TaskRepository.cs:40-45 | exactly the stored tasks of the user |
| Repositories.TaskRepository.GetUserTaskCountAsync | Task-Management-API.Infrastructure/Repositories/TaskRepository.cs:62-66 | the number of the user's tasks (legacy copy: Task-Management-API/Repository/TaskRepository.cs:61-65) |
| Repositories.TaskRepository.GetUserTasksPaginationAsync | Task-Management-API.Infrastructure/Repositories/TaskRepository.cs:23-37 | the page over the projections of the user's tasks, whose total is the user's task count |
| Repositories.TaskRepository.GetUserTasksAsync | Task-Management-API/Repository/TaskRepository.cs:21-36 | one projection per task of the user, in the same order: as many as the user's task count |
| Repositories.TaskRepository.AddAsync | Task-Management-API.Infrastructure/Repositories/BaseRepository.cs:35-38 | stages the task under the next identity value; the database is unchanged until a save |
| Repositories.TaskRepository.UpdateAsync | Task-Management-API.Infrastructure/Repositories/BaseRepository.cs:40-44 | stages the new values of the row with the entity's key; the database is unchanged |
| Repositories.TaskRepository.DeleteAsync | Task-Management-API.Infrastructure/Repositories/BaseRepository.cs:46-50 | stages the removal of the entity; the database is unchanged |
| Repositories.TaskRepository.DeleteByIdAsync | Task-Management-API.Infrastructure/Repositories/BaseRepository.cs:52-60 | true exactly when a task has the key; then its removal is staged, otherwise nothing is (legacy copy: Task-Management-API/Repository/BaseRepository.cs:45-53) |
| Repositories.TaskRepository.DeleteTaskByIdAsync | Task-Management-API.Infrastructure/Repositories/TaskRepository.cs:69-77 | true exactly when the user owns the task; then its removal is staged and not saved, otherwise nothing is staged (legacy copy: Task-Management-API/Repository/TaskRepository.cs:68-76) |
| Repositories.TaskRepository.SaveAsync | Task-Management-API.Infrastructure/Repositories/BaseRepository.cs:68-71 | the database becomes the staged state and nothing remains staged |
| Repositories.TaskRepository.DisposeContext | Task-Management-API/Program.cs:31 | at the end of the request's scope the changes staged and not saved are lost; the database is unchanged |
| Cache.CacheGet | Task-Management-API.Infrastructure/Services/RedisCacheService.cs:32-47 | a hit exactly when a live entry written by the serializer holds the key, and then its value; an absent, expired or non-JSON entry gives null |
| Cache.GetAfterSet | Task-Management-API.Infrastructure/Services/RedisCacheService.cs:49-59 | after a set with a positive lifetime the value is read back until the lifetime ends, and not after |
| Cache.SetLeavesOtherKeys | Task-Management-API.Infrastructure/Services/RedisCacheService.cs:59 | a set changes no other key |
| Cache.GetAfterRemove | Task-Management-API.Infrastructure/Services/RedisCacheService.cs:67-72 | a removed key is a miss and every other key is unaffected |
| Cache.BlacklistedUntilExpiry | Task-Management-API.Infrastructure/Services/TokenBlacklistService.cs:14-28 | a blacklisted token is found at every instant before its absolute expiry, and not from then on |
| Cache.DistributedCache.Put | Task-Management-API.Infrastructure/Services/TokenBlacklistService.cs:21 | the key's entry is replaced and nothing else changes |
| Cache.DistributedCache.Delete | Task-Management-API.Infrastructure/Services/RedisCacheService.cs:71 | the key is forgotten and nothing else changes |
| Cache.RedisCacheService.constructor | Task-Management-API.Infrastructure/Services/RedisCacheService.cs:21-31 | the default lifetime is the configured one or 15 minutes; the instance name is the configured one or "TaskManagementAPI" |
| Cache.RedisCacheService.GetAsync | Task-Management-API.Infrastructure/Services/RedisCacheService.cs:32-47 | never fails: an unreachable store, a miss and a value that is not JSON all give null; a hit is the live serialized value under the unprefixed key |
| Cache.RedisCacheService.SetAsync | Task-Management-API.Infrastructure/Services/RedisCacheService.cs:49-65 | the value replaces the key's entry until now plus the given lifetime, or the default one; an unreachable store or a non-positive lifetime leaves the store as it was and nothing is raised |
| Cache.RedisCacheService.RemoveAsync | Task-Management-API.Infrastructure/Services/RedisCacheService.cs:67-77 | the key is forgotten; an unreachable store leaves everything as it was and nothing is raised |
| Cache.TokenBlacklistService.AddTokenToBlacklistAsync | Task-Management-API.Infrastructure/Services/TokenBlacklistService.cs:14-22 | marks the token under its own text until the absolute instant given; store failures reach the caller, and an expiry not in the future is refused |
| Cache.TokenBlacklistService.IsTokenBlacklistedAsync | Task-Management-API.Infrastructure/Services/TokenBlacklistService.cs:24-28 | true exactly when a live value of any kind is stored under the token; an unreachable store raises |
| Cache.TokenBlacklistService.OnTokenValidated | Task-Management-API/Program.cs:77-86 | a validated token that is not a JwtSecurityToken is accepted without a lookup; a JwtSecurityToken is accepted exactly when the store is reachable and holds nothing live under its raw text |
| WebCache.IntToStringRoundTrip | Task-Management-API/Controllers/TaskController.cs:39 | the decimal text of an integer in a key reads back as that integer |
| WebCache.AllTasksKeysDistinct | Task-Management-API/Controllers/TaskController.cs:39 | two admin pages share a cache key only when they have the same number and size |
| WebCache.UserTasksKeyIsNoPageKey | Task-Management-API/Controllers/TaskController.cs:252 | the list key the mutations remove is never the key of one of the user's pages, nor, for ids without '_', the key of anyone's page |
| Tokens.EqualsIgnoreCaseAtEveryPosition | Task-Management-API.Infrastructure/Services/AuthService.cs:104 | the model's case-insensitive comparison, ordinal with ASCII case folding, holds exactly when the lengths agree and the upper cases agree at every position |
| Tokens.AcceptedAlgorithms | Task-Management-API.Infrastructure/Services/AuthService.cs:103-105 | under ordinal ASCII case folding, the algorithm names that pass the HS256 check are exactly HS256, hS256, Hs256 and hs256 |
| Tokens.FindFirst | Task-Management-API/Controllers/AccountController.cs:185 | the value of the first claim of the type, or null exactly when there is none |
| Base64.EncodedLength | Task-Management-API.Infrastructure/Services/AuthService.cs:83 | n bytes encode to 4 * ceiling(n / 3) characters |
| Base64.EncodedAlphabet | Task-Management-API.Infrastructure/Services/AuthService.cs:83 | the text holds only alphabet digits, with '=' padding only at the end |
| Base64.DecodeEncode | Task-Management-API.Infrastructure/Services/AuthService.cs:83 | the encoding decodes back to the bytes encoded |
| Identity.FindByName | Task-Management-API/Controllers/AccountController.cs:127 | the first user whose normalised name matches, or null exactly when none does |
| Identity.FindByEmail | Task-Management-API.Infrastructure/Services/RoleSeederService.cs:83 | the one user with a matching normalised address, null when there is none, and an error exactly when there are several |
| Identity.CreateRole | Task-Management-API.Infrastructure/Services/RoleSeederService.cs:55-56 | the role exists afterwards and no other role or user changes |
| Identity.CreateUser | Task-Management-API/Controllers/AccountController.cs:70 | succeeds exactly when the password meets the default policy, the name uses the allowed characters and no user has that name; the password is checked first, then the name; the user is stored last |
| Identity.AddClaims | Task-Management-API/Controllers/AccountController.cs:90 | the claims are appended to that user's claims, the user is otherwise unchanged (name, password, roles), no other user changes and the roles are kept |
| Identity.AddToRole | Task-Management-API/Controllers/AccountController.cs:92 | a missing role is an error, a role the user has is an error, and otherwise the role is appended and no other user changes |
| Identity.CreatedUserIsFound | Task-Management-API/Controllers/AccountController.cs:70-72 | a created user is found by its name at the end of the store, and its password checks |
| Identity.CreateUserKeepsNamesUnique | Task-Management-API/Controllers/AccountController.cs:70 | creating users keeps normalised user names unique |
| RoleSeeder.DefaultAdminPasswordAccepted | Task-Management-Api.Application/DTO/AdminSetting.cs:12 | the built-in administrator password meets the default policy |
| Identity.IdentityStore.CreateAsync | Task-Management-API/Controllers/AccountController.cs:70 | the store changes exactly as CreateUser says; success gives the new user's position and failure its error |
| Identity.IdentityStore.AddToRoleAsync | Task-Management-API.Infrastructure/Services/RoleSeederService.cs:99 | the store changes exactly as AddToRole says, and a failure reports its error |
| Auth.GetClaims | Task-Management-API.Infrastructure/Services/AuthService.cs:110-117 | exactly two claims: the user's id as NameIdentifier and its address as Email, and no Role claim |
| Auth.GenerateAccessToken | Task-Management-API.Infrastructure/Services/AuthService.cs:61-75 | an HS256 token for the claims, signed with the configured key, for the configured issuer and audience, expiring the configured minutes after issue |
| Auth.GenerateRefreshToken | Task-Management-API.Infrastructure/Services/AuthService.cs:77-85 | the Base64 text of the 64 random bytes: 88 characters of the alphabet with padding only at the end, decoding back to those bytes |
| Auth.GetPrincipalFromExpiredToken | Task-Management-API.Infrastructure/Services/AuthService.cs:87-108 | validation fails exactly when the key, the audience or the issuer does not match, checked in that order; the lifetime is not checked; a validated token yields its claims exactly when its algorithm is HS256 in any case |
| Auth.IssuedTokenReadsBack | Task-Management-API.Infrastructure/Services/AuthService.cs:61-108 | a token this service issued reads back with its claims whenever it expired; under other settings it is refused unless key, audience and issuer all agree |
| Auth.ReplaceRowRows | Task-Management-API.Infrastructure/Services/AuthService.cs:34-51 | issuing a row for a user (ReplaceRow: FirstOrDefault, Remove, Add) leaves other users' rows unchanged; the user's rows lose their first and gain the new row at the end |
| Auth.ReplaceRowKeepsAtMostOne | Task-Management-API.Infrastructure/Services/AuthService.cs:34-51 | when every user has at most one row, this still holds afterwards and the user's one row is the new one |
| Auth.ReplaceRowDoesNotRepair | Task-Management-API.Infrastructure/Services/AuthService.cs:34-40 | a user with two rows keeps two: only the first is replaced, so the at-most-one invariant is kept but not restored |
| Auth.AuthService.GenerateTokenAsync | Task-Management-API.Infrastructure/Services/AuthService.cs:29-59 | on a successful save: the access token for GetClaims and the refresh token are returned, and the table is ReplaceRow with the row holding that token, the user's id, the caller's address, the issue instant and an expiry the configured days later; a failed save changes nothing and raises |
| RoleSeeder.EnsureRole | Task-Management-API.Infrastructure/Services/RoleSeederService.cs:51-68 | the roles afterwards are exactly the old roles plus this one, and no user changes; an existing role changes nothing |
| RoleSeeder.AdminStep | Task-Management-API.Infrastructure/Services/RoleSeederService.cs:81-117 | an address with several users raises and changes nothing; with none, the user (name and address the email, confirmed, country "System") is created and put in the Admin role, or nothing changes when creation fails; with one, that user gains the Admin role if missing and nothing else changes |
| RoleSeeder.SeedRoles | Task-Management-API.Infrastructure/Services/RoleSeederService.cs:35-37 | the roles afterwards are exactly the old roles plus Admin, User and Manager, and no user changes |
| RoleSeeder.SeedAdminsAppend | Task-Management-API.Infrastructure/Services/RoleSeederService.cs:75-78 | seeding a list in two parts is seeding the first part, then, unless that raised, the second part from the store the first left |
| RoleSeeder.FailureStops | Task-Management-API.Infrastructure/Services/RoleSeederService.cs:75-78 | after an exception the remaining addresses are not processed: the result is that of the part that raised |
| RoleSeeder.StepMakesDone | Task-Management-API.Infrastructure/Services/RoleSeederService.cs:81-117 | after a step that does not raise, its address has an administrator or cannot get a user |
| RoleSeeder.StepKeepsDone | Task-Management-API.Infrastructure/Services/RoleSeederService.cs:81-117 | a step for one address undoes nothing done for another |
| RoleSeeder.SeedAdminsMakesDone | Task-Management-API.Infrastructure/Services/RoleSeederService.cs:70-79 | after seeding without an exception, every configured address has been handled |
| RoleSeeder.SeedAdminsKeepsDone | Task-Management-API.Infrastructure/Services/RoleSeederService.cs:70-79 | a seeding without an exception undoes nothing done for any address |
| RoleSeeder.SeedAdminsOnDone | Task-Management-API.Infrastructure/Services/RoleSeederService.cs:70-79 | seeding addresses that are all handled changes nothing |
| RoleSeeder.SeedIdempotent | Task-Management-API.Infrastructure/Services/RoleSeederService.cs:30-49 | seeding again after a successful seeding leaves the roles and users exactly as they are |
| RoleSeeder.RoleSeederService.CreateRoleIfNotExistsAsync | Task-Management-API.Infrastructure/Services/RoleSeederService.cs:51-68 | the store becomes EnsureRole of the role |
| RoleSeeder.RoleSeederService.CreateAdminUserAsync | Task-Management-API.Infrastructure/Services/RoleSeederService.cs:81-117 | the store and outcome are those of AdminStep |
| RoleSeeder.RoleSeederService.CreateAdminUsersAsync | Task-Management-API.Infrastructure/Services/RoleSeederService.cs:70-79 | the loop processes the addresses in order, each once, and stops at an exception: the store and outcome are those of SeedAdmins |
| RoleSeeder.RoleSeederService.SeedRolesAndAdminAsync | Task-Management-API.Infrastructure/Services/RoleSeederService.cs:30-49 | the store and outcome are those of Seed: the three roles, then the administrators, with an exception passed on |
| TaskControllers.DefaultAllTasksRequest | Task-Management-API/Controllers/TaskController.cs:39-52 | a request to GET api/Task/Get without paging arguments uses the key "all_tasks_page_1_size_10" and the page of the first ten tasks |
| TaskControllers.KeyShapesDiffer | Task-Management-API/Controllers/TaskController.cs:39-417 | keys of the different shapes the controller uses never coincide |
| TaskControllers.InvalidationsMissPages | Task-Management-API/Controllers/TaskController.cs:252-253 | no mutation removes a cached page of the admin listing or of the caller's list (nor, for ids without '_', of anyone's list) |
| TaskControllers.InvalidationsNested | Task-Management-API/Controllers/TaskController.cs:326-391 | the keys an update or an addition removes are among those a deletion removes |
| TaskControllers.OwnerCopyKept | Task-Management-API/Controllers/TaskController.cs:326-391 | when an admin changes or deletes another user's task, the owner's cached copy of the task is not removed |
| TaskControllers.PagesStaleAfterAddTask | Task-Management-API/Controllers/TaskController.cs:252-253 | after AddTask a cached page of the caller's list, and of the admin listing, is still served unchanged until its lifetime ends |
| TaskControllers.TaskController.VisibleTask | Task-Management-API/Controllers/TaskController.cs:175-182 | an admin reaches any stored task by its id; anyone else only a task they own |
| TaskControllers.TaskController.GetAllTasks | Task-Management-API/Controllers/TaskController.cs:33-90 | a hit is returned without the repository; otherwise the page for the validated size, or "No tasks found." (not cached) for an empty page, or status 500 for a size below 1 or a negative wrapped offset, which the database refuses; a non-empty page is cached for 5 minutes under the key of the validated size |
| TaskControllers.TaskController.GetUserTasks | Task-Management-API/Controllers/TaskController.cs:92-146 | no caller id: Unauthorized, then an unknown user: NotFound, both before the cache; then a hit, or status 500 for a raw size below 1 or a negative wrapped offset, or the page of the caller's tasks for the raw page size, cached for 10 minutes |
| TaskControllers.TaskController.GetTaskById | Task-Management-API/Controllers/TaskController.cs:151-210 | no caller id: Unauthorized; a hit; a task the caller may not see: NotFound and nothing cached; otherwise the task without its id, cached for 15 minutes under the caller's key |
| TaskControllers.TaskController.AddTask | Task-Management-API/Controllers/TaskController.cs:213-277 | bad body, no caller id, unknown user: refused with nothing changed; otherwise the caller's task is saved under the next key and exactly the caller's list and count keys are removed |
| TaskControllers.TaskController.UpdateTask | Task-Management-API/Controllers/TaskController.cs:280-347 | only the four fields of a task the caller may see are overwritten and saved; the caller's copy and both users' list keys are removed; otherwise nothing changes |
| TaskControllers.TaskController.DeleteTask | Task-Management-API/Controllers/TaskController.cs:350-402 | as written: the admin path saves its removal, the owner's path only stages it; both answer Ok and remove the five keys for caller and owner; NotFound removes nothing |
| TaskControllers.TaskController.DeleteTaskCommitted | Task-Management-API/Controllers/TaskController.cs:350-402 | corrected: both paths save the removal, and the five keys are removed |
| TaskControllers.TaskController.RemoveUpdateKeys | Task-Management-API/Controllers/TaskController.cs:326-328 | exactly the three update keys are removed |
| TaskControllers.TaskController.RemoveDeleteKeys | Task-Management-API/Controllers/TaskController.cs:387-391 | exactly the five delete keys are removed |
| TaskControllers.TaskController.GetTaskCount | Task-Management-API/Controllers/TaskController.cs:405-440 | no caller id: Unauthorized; a hit; otherwise the number of the caller's tasks, cached for 5 minutes |
| TaskControllers.TaskController.OwnerDeleteRequest | Task-Management-API/Controllers/TaskController.cs:378 | as written, an owner's deletion answers Ok and the task is still in the database after the request |
| TaskControllers.TaskController.OwnerDeleteRequestCommitted | Task-Management-API/Controllers/TaskController.cs:365-379 | with the removal saved, the task is gone after the request |
| AccountControllers.RoleClaims | Task-Management-API/Controllers/AccountController.cs:157-160 | one Role claim per role, in role order |
| AccountControllers.RoleClaimsValues | Task-Management-API/Controllers/AccountController.cs:157-160 | the Role claims read back give the roles, in order |
| AccountControllers.LoginClaimsCarryIdentityAndRoles | Task-Management-API/Controllers/AccountController.cs:151-160 | the login claims keep the user's identifier claim, and for a user without stored Role claims their roles are exactly the user's roles |
| AccountControllers.LastPiece | Task-Management-API/Controllers/AccountController.cs:197 | Split(" ").Last() is the longest suffix without a space: the text after the last space, or the whole text |
| AccountControllers.LastPieceAfterSpace | Task-Management-API/Controllers/AccountController.cs:197 | whatever the scheme before the space, the token is what follows it: the scheme is not checked |
| AccountControllers.LoggedOutTokenBlacklisted | Task-Management-API/Controllers/AccountController.cs:197-219 | after a logout with "Bearer t" and a token not yet expired, t is found in the store exactly until its expiry |
| AccountControllers.AccountController.Register | Task-Management-API/Controllers/AccountController.cs:34-97 | a null body or invalid model: BadRequest before the store is touched; a refused creation: BadRequest with nothing stored; otherwise the user is stored with its password, exactly the NameIdentifier and Name claims and the User role, or, with no User role, the exception gives status 500 after the user and claims are stored |
| AccountControllers.AccountController.BuildAuthClaims | Task-Management-API/Controllers/AccountController.cs:151-160 | the loop yields the user's claims followed by one Role claim per role, in role order |
| AccountControllers.AccountController.Login | Task-Management-API/Controllers/AccountController.cs:99-179 | an unknown name and a wrong password get the same Unauthorized; otherwise an HS256 token with the user's claims and roles, expiring 30 minutes after issue, and the expiry returned is the token's |
| AccountControllers.AccountController.Logout | Task-Management-API/Controllers/AccountController.cs:180-233 | no caller id: Unauthorized, no header token: BadRequest, an unreadable token: status 500, all with nothing cached; otherwise "blacklisted" is stored under the raw token for the token's remaining lifetime |
| AccountControllers.AccountController.LogoutThenPresent | Task-Management-API/Controllers/AccountController.cs:180-233 | a token logged out and presented again before it expires is refused by the bearer handler's blacklist check when the handler hands it over as a JwtSecurityToken, and accepted when it hands over a token of another type |
| AccountControllers.AccountController.RegisterThenLogin | Task-Management-API/Controllers/AccountController.cs:34-179 | a user registered with an accepted password logs in at once, with its id, name and the User role as claims |

## Left out

- Signing and signature checking of tokens are not modelled. A token is the value the JWT library would serialize, and the signing key is recorded in it. `ReadJwtToken` in Logout is a parameter: the token it reads, or none when it throws.
- The random number generator is not modelled. `GenerateRefreshToken` takes the 64 bytes as an argument.
- JSON serialisation is modelled as an exact round trip. Anonymous response objects are the `CachedObject` variants.
- Redis and SQL Server are the distributed store and the committed table. A store that cannot be reached is the `available` flag. Database failures, other than a refused save in `GenerateTokenAsync`, are not modelled.
- Concurrency between requests is not modelled. Each action runs alone, on a fresh context.
- Configuration parsing is not modelled. `AccessTokenExpirationMinutes`, parsed as a double, is a whole number of minutes; `TimeSpan.Parse` of the cache lifetime is a number of seconds.
- ASP.NET Identity is modelled only as far as the core uses it. Password hashing is not modelled: the stored password is compared as is. Name and address normalisation folds ASCII letters only. Options are the defaults, so e-mail addresses need not be unique.
- Identity.CreateRole: creating a role is taken to succeed; the logged failure branch (RoleSeederService.cs:58-61) is not modelled.
- Logging is left out.
- The X-Pagination header and the shape of HTTP responses beyond their status and body are left out.
- The user repository and UserController are not part of this model. Their answers (the caller's id, whether the user exists and whether it is an admin) are parameters of the controller actions.
- Role-based `[Authorize]` attributes and the bearer handler's signature and lifetime checks are not modelled. The actions assume a caller who passed them.
- Roles (the role-name constants) is not part of this model. Its names are taken as "Admin", "User" and "Manager".
- There is no refresh endpoint in the code, so no token rotation is modelled.
- TaskControllers.TaskController.AddTask: the unawaited `AddAsync` is taken to complete before the save.
- Date arithmetic is on whole seconds. `DateTime` limits and time zones are not modelled.
- Pagination.CreateAsync requires a positive page size and an offset that is not negative. The database refuses other values with an exception, which the controller actions catch and answer with 500; the model's actions take that branch before paging. Which exact values the database refuses is taken from SQL Server's OFFSET/FETCH rules.
- Query-string values that do not fit in an `int` are refused by model binding before an action runs and are not modelled: page arguments are `Int32` values.
- Tables of 2^31 rows or more, whose count overflows `CountAsync`, are not modelled.
- Tokens.EqualsIgnoreCase: the comparison is ordinal with ASCII case folding. The source's `StringComparison.InvariantCultureIgnoreCase` is a culture-sensitive comparison that also folds non-ASCII letters and ignores ignorable code points (a soft hyphen, say), so it accepts more spellings of "HS256" than the model does.
- Tokens.AcceptedAlgorithms: the four spellings hold for the model's ordinal ASCII comparison only; under the culture-sensitive comparison, "HS256" followed by an ignorable code point also passes.
- Tokens.EqualsIgnoreCaseAtEveryPosition: describes the model's ordinal ASCII comparison, not the culture-sensitive one.
- AccountControllers.AccountController.LogoutThenPresent: which SecurityToken type the bearer handler hands to `OnTokenValidated` depends on the handler's configuration and package version, which are not part of this model. The logout guarantee holds only for a JwtSecurityToken; for any other type the blacklist is never consulted, and the method's contract says so.

## Findings

| source | as written | input that shows it | evidently intended | confidence | as-written member | corrected member |
|---|---|---|---|---|---|---|
| Task-Management-API/Controllers/TaskController.cs:378 | the non-admin branch of DeleteTask calls `DeleteTaskByIdAsync`, which only stages the removal; nothing saves it, so it is dropped when the request's context is disposed, while the action answers Ok and clears the cache keys | a user who owns task 7 sends DELETE api/Task/Delete/7: the answer is "Task with ID 7 deleted successfully." and the task is still in the database | the owner's deletion is saved, as the admin branch does at line 372 | not executed | TaskControllers.TaskController.OwnerDeleteRequest | TaskControllers.TaskController.OwnerDeleteRequestCommitted |
