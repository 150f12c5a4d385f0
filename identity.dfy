/**
 * The ASP.NET Core Identity user and role store as the services use it through UserManager and
 * RoleManager, with the default options: user names and e-mail addresses are compared after
 * upper-casing, user names are limited to the default character set, and passwords must meet the
 * default policy. A user is referred to by its position in the store, which never changes
 * because no user is ever deleted. Password hashing is not modelled: a user keeps its password.
 */
module Identity {
  import opened Wrappers
  import opened Tokens

  datatype User = User(
    Id: string, UserName: string, Email: string, PhoneNumber: string, Country: string,
    EmailConfirmed: bool, Password: string, Claims: seq<Claim>, Roles: seq<string>)

  /** The roles and the users, in insertion order. */
  datatype Directory = Directory(roles: set<string>, users: seq<User>)

  datatype IdentityError =
    | PasswordTooWeak
    | InvalidUserName
    | DuplicateUserName
    | UserAlreadyInRole
      /** AddToRoleAsync throws when the role does not exist. */
    | RoleNotFound
      /** FindByEmailAsync throws when more than one user has the address. */
    | MoreThanOneUserWithEmail

  /** A new user as the callers build it: no claims, no roles, no password yet. */
  function NewUser(id: string, userName: string, email: string, phoneNumber: string, country: string, emailConfirmed: bool): User {
    User(id, userName, email, phoneNumber, country, emailConfirmed, "", [], [])
  }

  // ---------------------------------------------------------------------------------------------
  // Validation with the default IdentityOptions

  /** ToUpperInvariant on the characters a user name or address can hold. */
  function Normalize(s: string): (r: string)
    ensures |r| == |s| && forall i :: 0 <= i < |s| ==> r[i] == AsciiUpper(s[i])
  {
    seq(|s|, i requires 0 <= i < |s| => AsciiUpper(s[i]))
  }

  predicate IsAsciiDigit(c: char) { '0' <= c <= '9' }
  predicate IsAsciiLower(c: char) { 'a' <= c <= 'z' }
  predicate IsAsciiUpper(c: char) { 'A' <= c <= 'Z' }

  /** PasswordOptions defaults: six characters, a digit, a lower- and an upper-case letter and a symbol. */
  predicate MeetsPasswordPolicy(p: string) {
    && |p| >= 6
    && (exists i :: 0 <= i < |p| && IsAsciiDigit(p[i]))
    && (exists i :: 0 <= i < |p| && IsAsciiLower(p[i]))
    && (exists i :: 0 <= i < |p| && IsAsciiUpper(p[i]))
    && (exists i :: 0 <= i < |p| && !IsAsciiDigit(p[i]) && !IsAsciiLower(p[i]) && !IsAsciiUpper(p[i]))
  }

  /** UserOptions.AllowedUserNameCharacters by default. */
  const AllowedUserNameCharacters: string := "abcdefghijklmnopqrstuvwxyzABCDEFGHIJKLMNOPQRSTUVWXYZ0123456789-._@+"

  /** A user name the default validator accepts: not empty, and made of the allowed characters. */
  predicate UserNameAllowed(name: string) {
    |name| > 0 && forall i :: 0 <= i < |name| ==> name[i] in AllowedUserNameCharacters
  }

  predicate HasUserName(u: User, name: string) {
    Normalize(u.UserName) == Normalize(name)
  }

  predicate HasEmail(u: User, email: string) {
    Normalize(u.Email) == Normalize(email)
  }

  /** No two users share a (normalized) user name: what the validator keeps. */
  ghost predicate UniqueUserNames(d: Directory) {
    forall i, j :: 0 <= i < j < |d.users| ==> !HasUserName(d.users[i], d.users[j].UserName)
  }

  // ---------------------------------------------------------------------------------------------
  // Queries

  /** FindByNameAsync: the first user with the name, or null. */
  function FindByName(d: Directory, name: string): (r: Option<nat>)
    ensures r.Some? ==> r.value < |d.users| && HasUserName(d.users[r.value], name)
    ensures r.Some? ==> forall j :: 0 <= j < r.value ==> !HasUserName(d.users[j], name)
    ensures r.None? <==> forall j :: 0 <= j < |d.users| ==> !HasUserName(d.users[j], name)
  {
    FindByNameFrom(d.users, name, 0)
  }

  function FindByNameFrom(users: seq<User>, name: string, from: nat): (r: Option<nat>)
    requires from <= |users|
    requires forall j :: 0 <= j < from ==> !HasUserName(users[j], name)
    ensures r.Some? ==> r.value < |users| && HasUserName(users[r.value], name)
    ensures r.Some? ==> forall j :: 0 <= j < r.value ==> !HasUserName(users[j], name)
    ensures r.None? <==> forall j :: 0 <= j < |users| ==> !HasUserName(users[j], name)
    decreases |users| - from
  {
    if from == |users| then None
    else if HasUserName(users[from], name) then Some(from)
    else FindByNameFrom(users, name, from + 1)
  }

  /** The positions of the users with the address, in increasing order. */
  function EmailMatches(users: seq<User>, email: string): (r: seq<nat>)
    ensures forall k: nat :: k in r <==> k < |users| && HasEmail(users[k], email)
    ensures forall a, b :: 0 <= a < b < |r| ==> r[a] < r[b]
    decreases |users|
  {
    if |users| == 0 then []
    else
      var last := |users| - 1;
      var front := EmailMatches(users[..last], email);
      assert forall a :: 0 <= a < |front| ==> front[a] < last by {
        forall a | 0 <= a < |front|
          ensures front[a] < last
        {
          assert front[a] in front && |users[..last]| == last;
        }
      }
      front + if HasEmail(users[last], email) then [last] else []
  }

  /** How many users have the address: none, exactly the one at m[0], or at least two. */
  lemma EmailMatchesCount(users: seq<User>, email: string)
    ensures var m := EmailMatches(users, email);
            (|m| >= 2 <==> exists i, j :: 0 <= i < j < |users| && HasEmail(users[i], email) && HasEmail(users[j], email))
            && (|m| == 0 <==> forall j :: 0 <= j < |users| ==> !HasEmail(users[j], email))
            && (|m| == 1 ==> m[0] < |users| && HasEmail(users[m[0]], email)
                              && forall j :: 0 <= j < |users| && j != m[0] ==> !HasEmail(users[j], email))
  {
    var m := EmailMatches(users, email);
    if |m| >= 2 {
      assert m[0] in m && m[1] in m;
    } else if |m| == 1 {
      assert m[0] in m;
      assert forall j :: 0 <= j < |users| && HasEmail(users[j], email) ==> j in m;
    } else {
      assert forall j :: 0 <= j < |users| && HasEmail(users[j], email) ==> j in m;
    }
  }

  /** FindByEmailAsync (a SingleOrDefault): the one user with the address, null, or an error for several. */
  function FindByEmail(d: Directory, email: string): (r: Result<Option<nat>, IdentityError>)
    ensures r.Failure? <==> exists i, j :: 0 <= i < j < |d.users| && HasEmail(d.users[i], email) && HasEmail(d.users[j], email)
    ensures r.Failure? ==> r.error == MoreThanOneUserWithEmail
    ensures r == Success(None) <==> forall j :: 0 <= j < |d.users| ==> !HasEmail(d.users[j], email)
    ensures r.Success? && r.value.Some? ==>
              r.value.value < |d.users| && HasEmail(d.users[r.value.value], email)
              && forall j :: 0 <= j < |d.users| && j != r.value.value ==> !HasEmail(d.users[j], email)
  {
    var m := EmailMatches(d.users, email);
    EmailMatchesCount(d.users, email);
    if |m| >= 2 then Failure(MoreThanOneUserWithEmail)
    else if |m| == 1 then Success(Some(m[0]))
    else Success(None)
  }

  /** FindByEmail finds the one user whose address matches. */
  lemma FoundByEmail(d: Directory, email: string, i: nat)
    requires EmailMatches(d.users, email) == [i]
    ensures FindByEmail(d, email) == Success(Some(i))
  {
  }

  /** FindByEmail returns null only when no address matches. */
  lemma NotFoundByEmail(d: Directory, email: string)
    requires FindByEmail(d, email) == Success(None)
    ensures EmailMatches(d.users, email) == []
  {
  }

  function RoleExists(d: Directory, role: string): bool {
    role in d.roles
  }

  function IsInRole(d: Directory, i: nat, role: string): bool
    requires i < |d.users|
  {
    role in d.users[i].Roles
  }

  /** CheckPasswordAsync. */
  function CheckPassword(d: Directory, i: nat, password: string): bool
    requires i < |d.users|
  {
    d.users[i].Password == password
  }

  // ---------------------------------------------------------------------------------------------
  // Changes

  /** RoleManager.CreateAsync. */
  function CreateRole(d: Directory, role: string): (r: Directory)
    ensures RoleExists(r, role) && r.users == d.users
    ensures forall other :: RoleExists(r, other) <==> other == role || RoleExists(d, other)
  {
    d.(roles := d.roles + {role})
  }

  /**
   * UserManager.CreateAsync(user, password): the password is validated first, then the user
   * name; the user is stored at the end with the password.
   */
  function CreateUser(d: Directory, user: User, password: string): (r: Result<Directory, IdentityError>)
    ensures r.Success? <==> MeetsPasswordPolicy(password) && UserNameAllowed(user.UserName) && FindByName(d, user.UserName).None?
    ensures !MeetsPasswordPolicy(password) ==> r == Failure(PasswordTooWeak)
    ensures MeetsPasswordPolicy(password) && !UserNameAllowed(user.UserName) ==> r == Failure(InvalidUserName)
    ensures r.Success? ==> r.value.roles == d.roles && r.value.users == d.users + [user.(Password := password)]
  {
    if !MeetsPasswordPolicy(password) then Failure(PasswordTooWeak)
    else if !UserNameAllowed(user.UserName) then Failure(InvalidUserName)
    else if FindByName(d, user.UserName).Some? then Failure(DuplicateUserName)
    else Success(d.(users := d.users + [user.(Password := password)]))
  }

  /** AddClaimsAsync: the claims are appended to the user's claims. */
  function AddClaims(d: Directory, i: nat, claims: seq<Claim>): (r: Directory)
    requires i < |d.users|
    ensures |r.users| == |d.users| && r.roles == d.roles
    ensures r.users[i].Claims == d.users[i].Claims + claims
    ensures r.users[i] == d.users[i].(Claims := d.users[i].Claims + claims)
    ensures forall j :: 0 <= j < |d.users| && j != i ==> r.users[j] == d.users[j]
  {
    d.(users := d.users[i := d.users[i].(Claims := d.users[i].Claims + claims)])
  }

  /** AddToRoleAsync: an error for a missing role (thrown) or a role the user already has (returned). */
  function AddToRole(d: Directory, i: nat, role: string): (r: Result<Directory, IdentityError>)
    requires i < |d.users|
    ensures !RoleExists(d, role) ==> r == Failure(RoleNotFound)
    ensures RoleExists(d, role) && IsInRole(d, i, role) ==> r == Failure(UserAlreadyInRole)
    ensures r.Success? <==> RoleExists(d, role) && !IsInRole(d, i, role)
    ensures r.Success? ==> (|r.value.users| == |d.users| && r.value.roles == d.roles
                          && r.value.users[i] == d.users[i].(Roles := d.users[i].Roles + [role])
                          && forall j :: 0 <= j < |d.users| && j != i ==> r.value.users[j] == d.users[j])
  {
    if role !in d.roles then Failure(RoleNotFound)
    else if role in d.users[i].Roles then Failure(UserAlreadyInRole)
    else Success(d.(users := d.users[i := d.users[i].(Roles := d.users[i].Roles + [role])]))
  }

  // ---------------------------------------------------------------------------------------------
  // Properties

  /** A created user is found by its name, at the end of the store, and its password checks. */
  lemma CreatedUserIsFound(d: Directory, user: User, password: string)
    requires CreateUser(d, user, password).Success?
    ensures var d' := CreateUser(d, user, password).value;
            FindByName(d', user.UserName) == Some(|d.users|) && CheckPassword(d', |d.users|, password)
  {
    var d' := CreateUser(d, user, password).value;
    assert d'.users[|d.users|] == user.(Password := password);
    assert forall j :: 0 <= j < |d.users| ==> d'.users[j] == d.users[j];
  }

  /** Creating users keeps user names unique. */
  lemma CreateUserKeepsNamesUnique(d: Directory, user: User, password: string)
    requires UniqueUserNames(d) && CreateUser(d, user, password).Success?
    ensures UniqueUserNames(CreateUser(d, user, password).value)
  {
    var d' := CreateUser(d, user, password).value;
    forall i, j | 0 <= i < j < |d'.users|
      ensures !HasUserName(d'.users[i], d'.users[j].UserName)
    {
      if j == |d.users| {
        assert !HasUserName(d.users[i], user.UserName);
      }
    }
  }

  /** A store the application changes through the identity managers. */
  class IdentityStore {
    var directory: Directory

    constructor (initial: Directory)
      ensures directory == initial
    {
      directory := initial;
    }

    method CreateRoleAsync(role: string)
      modifies this
      ensures directory == CreateRole(old(directory), role)
    {
      directory := CreateRole(directory, role);
    }

    /** UserManager.CreateAsync: the new user's position, or the validation error. */
    method CreateAsync(user: User, password: string) returns (r: Result<nat, IdentityError>)
      modifies this
      ensures r.Success? <==> CreateUser(old(directory), user, password).Success?
      ensures r.Success? ==> r.value == |old(directory).users| && directory == CreateUser(old(directory), user, password).value
      ensures r.Failure? ==> r.error == CreateUser(old(directory), user, password).error && directory == old(directory)
    {
      var created := CreateUser(directory, user, password);
      if created.Failure? {
        return Failure(created.error);
      }
      r := Success(|directory.users|);
      directory := created.value;
    }

    method AddClaimsAsync(i: nat, claims: seq<Claim>)
      requires i < |directory.users|
      modifies this
      ensures directory == AddClaims(old(directory), i, claims)
    {
      directory := AddClaims(directory, i, claims);
    }

    method AddToRoleAsync(i: nat, role: string) returns (r: Outcome<IdentityError>)
      requires i < |directory.users|
      modifies this
      ensures var added := AddToRole(old(directory), i, role);
              (r.Pass? <==> added.Success?) && (r.Fail? ==> r.error == added.error)
              && directory == if added.Success? then added.value else old(directory)
    {
      var added := AddToRole(directory, i, role);
      if added.Failure? {
        return Fail(added.error);
      }
      directory := added.value;
      r := Pass;
    }
  }
}
