/**
 * RoleSeederService: at start-up, make sure the three roles exist and that every configured
 * administrator address belongs to a user in the Admin role. Creating a role is taken to
 * succeed. An exception (FindByEmailAsync finding several users) stops the seeding; the changes
 * made before it stay, since every identity call saves at once.
 */
module RoleSeeder {
  import opened Wrappers
  import opened Identity

  const AdminRole: string := "Admin"
  const UserRole: string := "User"
  const ManagerRole: string := "Manager"

  /** The AdminSettings configuration section. */
  datatype AdminSetting = AdminSetting(AdminEmails: seq<string>, DefaultAdminPassword: string)

  /** An AdminSetting the configuration does not fill: no addresses and the built-in password. */
  const DefaultAdminSetting: AdminSetting := AdminSetting([], "Admin@123456")

  /** The built-in administrator password meets the default password policy. */
  lemma DefaultAdminPasswordAccepted()
    ensures MeetsPasswordPolicy(DefaultAdminSetting.DefaultAdminPassword)
  {
    var p := DefaultAdminSetting.DefaultAdminPassword;
    assert IsAsciiUpper(p[0]) && IsAsciiLower(p[1]) && IsAsciiDigit(p[6]);
    assert !IsAsciiDigit(p[5]) && !IsAsciiLower(p[5]) && !IsAsciiUpper(p[5]);
  }

  /** Where seeding got to: the store, and whether an exception stopped it. */
  datatype Seeded = Seeded(directory: Directory, outcome: Outcome<IdentityError>)

  /** The user CreateAdminUserAsync builds for `email`; `id` is the identifier its constructor draws. */
  function AdminAccount(id: string, email: string): User {
    NewUser(id, email, email, "", "System", true)
  }

  /** CreateRoleIfNotExistsAsync. */
  function EnsureRole(d: Directory, role: string): (r: Directory)
    ensures RoleExists(r, role) && r.users == d.users && d.roles <= r.roles
    ensures RoleExists(d, role) ==> r == d
    ensures r.roles == d.roles + {role}
  {
    if RoleExists(d, role) then d else CreateRole(d, role)
  }

  /** CreateAdminUserAsync for one address. */
  function AdminStep(d: Directory, email: string, password: string, id: string): (r: Seeded)
    requires RoleExists(d, AdminRole)
    ensures r.directory.roles == d.roles
    ensures r.outcome.Fail? <==> FindByEmail(d, email).Failure?
    ensures r.outcome.Fail? ==> r == Seeded(d, Fail(MoreThanOneUserWithEmail))
    // a new user: created as an administrator, or, when the store refuses it, nothing changes
    ensures FindByEmail(d, email) == Success(None) ==>
              r.directory.users == if CreateUser(d, AdminAccount(id, email), password).Success?
                                   then d.users + [AdminAccount(id, email).(Password := password, Roles := [AdminRole])]
                                   else d.users
    // an existing user: the Admin role is added when missing, and nothing else changes
    ensures FindByEmail(d, email).Success? && FindByEmail(d, email).value.Some? ==>
              var i := FindByEmail(d, email).value.value;
              && |r.directory.users| == |d.users|
              && r.directory.users[i] == d.users[i].(Roles := d.users[i].Roles + if IsInRole(d, i, AdminRole) then [] else [AdminRole])
              && forall j :: 0 <= j < |d.users| && j != i ==> r.directory.users[j] == d.users[j]
  {
    match FindByEmail(d, email)
    case Failure(e) => Seeded(d, Fail(e))
    case Success(None) =>
      (match CreateUser(d, AdminAccount(id, email), password)
       case Failure(_) => Seeded(d, Pass)
       case Success(d1) =>
         var d2 := AddToRole(d1, |d.users|, AdminRole).value;
         var u := AdminAccount(id, email).(Password := password, Roles := [AdminRole]);
         assert forall j :: 0 <= j < |d.users| ==> d2.users[j] == d.users[j];
         assert d2.users[|d.users|] == u;
         assert d2.users == d.users + [u];
         Seeded(d2, Pass))
    case Success(Some(i)) =>
      if IsInRole(d, i, AdminRole) then Seeded(d, Pass)
      else Seeded(AddToRole(d, i, AdminRole).value, Pass)
  }

  /** CreateAdminUsersAsync: the addresses in order, each once, until one throws. */
  function SeedAdmins(d: Directory, emails: seq<string>, password: string, ids: seq<string>): (r: Seeded)
    requires |ids| == |emails| && RoleExists(d, AdminRole)
    ensures r.directory.roles == d.roles
    decreases |emails|
  {
    if |emails| == 0 then Seeded(d, Pass)
    else
      var first := AdminStep(d, emails[0], password, ids[0]);
      if first.outcome.Fail? then first
      else SeedAdmins(first.directory, emails[1..], password, ids[1..])
  }

  /** The three CreateRoleIfNotExistsAsync calls. */
  function SeedRoles(d: Directory): (r: Directory)
    ensures RoleExists(r, AdminRole) && RoleExists(r, UserRole) && RoleExists(r, ManagerRole)
    ensures r.users == d.users
    ensures r.roles == d.roles + {AdminRole, UserRole, ManagerRole}
  {
    EnsureRole(EnsureRole(EnsureRole(d, AdminRole), UserRole), ManagerRole)
  }

  /** SeedRolesAndAdminAsync. */
  function Seed(d: Directory, emails: seq<string>, password: string, ids: seq<string>): (r: Seeded)
    requires |ids| == |emails|
  {
    SeedAdmins(SeedRoles(d), emails, password, ids)
  }

  // ---------------------------------------------------------------------------------------------
  // Properties

  /**
   * Seeding a list is seeding its first part and then, unless an exception stopped it there, the
   * rest from where the first part left the store.
   */
  lemma {:induction false} SeedAdminsAppend(d: Directory, a: seq<string>, b: seq<string>, password: string, ids: seq<string>, ids': seq<string>)
    requires |ids| == |a| && |ids'| == |b| && RoleExists(d, AdminRole)
    ensures var front := SeedAdmins(d, a, password, ids);
            SeedAdmins(d, a + b, password, ids + ids') == if front.outcome.Fail? then front else SeedAdmins(front.directory, b, password, ids')
    decreases |a|
  {
    if |a| == 0 {
      assert a + b == b && ids + ids' == ids';
    } else {
      var first := AdminStep(d, a[0], password, ids[0]);
      FirstStepOfAppend(d, a, b, password, ids, ids');
      if first.outcome.Pass? {
        SeedAdminsAppend(first.directory, a[1..], b, password, ids[1..], ids');
      }
    }
  }

  lemma FirstStepOfAppend(d: Directory, a: seq<string>, b: seq<string>, password: string, ids: seq<string>, ids': seq<string>)
    requires |ids| == |a| && |ids'| == |b| && RoleExists(d, AdminRole) && |a| > 0
    ensures var first := AdminStep(d, a[0], password, ids[0]);
            SeedAdmins(d, a + b, password, ids + ids') ==
              if first.outcome.Fail? then first else SeedAdmins(first.directory, a[1..] + b, password, ids[1..] + ids')
  {
    assert (a + b)[0] == a[0] && (a + b)[1..] == a[1..] + b;
    assert (ids + ids')[0] == ids[0] && (ids + ids')[1..] == ids[1..] + ids';
  }

  /** Once an exception has stopped the seeding, the later addresses are not processed. */
  lemma FailureStops(d: Directory, a: seq<string>, b: seq<string>, password: string, ids: seq<string>, ids': seq<string>)
    requires |ids| == |a| && |ids'| == |b| && RoleExists(d, AdminRole)
    requires SeedAdmins(d, a, password, ids).outcome.Fail?
    ensures SeedAdmins(d, a + b, password, ids + ids') == SeedAdmins(d, a, password, ids)
  {
    SeedAdminsAppend(d, a, b, password, ids, ids');
  }

  /** The addresses from the k-th on: the step for the k-th, then, unless it raised, the rest. */
  lemma SeedAdminsFrom(d: Directory, emails: seq<string>, password: string, ids: seq<string>, k: nat)
    requires |ids| == |emails| && RoleExists(d, AdminRole) && k < |emails|
    ensures var first := AdminStep(d, emails[k], password, ids[k]);
            SeedAdmins(d, emails[k..], password, ids[k..]) ==
              if first.outcome.Fail? then first else SeedAdmins(first.directory, emails[k + 1..], password, ids[k + 1..])
  {
    assert emails[k..][0] == emails[k] && emails[k..][1..] == emails[k + 1..];
    assert ids[k..][0] == ids[k] && ids[k..][1..] == ids[k + 1..];
  }

  /**
   * An address needs no further work: its one user is an administrator, or it has no user and
   * creating one is refused (by the password policy, the user-name rules or a user of that name).
   */
  predicate Done(d: Directory, email: string, password: string) {
    match FindByEmail(d, email)
    case Failure(_) => false
    case Success(None) => !(MeetsPasswordPolicy(password) && UserNameAllowed(email) && FindByName(d, email).None?)
    case Success(Some(i)) => IsInRole(d, i, AdminRole)
  }

  lemma {:induction false} SameEmailsSameMatches(users: seq<User>, users': seq<User>, email: string)
    requires |users| == |users'| && forall j :: 0 <= j < |users| ==> users[j].Email == users'[j].Email
    ensures EmailMatches(users, email) == EmailMatches(users', email)
    decreases |users|
  {
    if |users| > 0 {
      var n := |users| - 1;
      SameEmailsSameMatches(users[..n], users'[..n], email);
    }
  }

  lemma AppendedMatches(users: seq<User>, u: User, email: string)
    ensures EmailMatches(users + [u], email) == EmailMatches(users, email) + if HasEmail(u, email) then [|users|] else []
  {
    assert (users + [u])[..|users|] == users;
  }

  /** An address that is done stays done, and its step changes nothing. */
  lemma StepOnDone(d: Directory, email: string, password: string, id: string)
    requires RoleExists(d, AdminRole) && Done(d, email, password)
    ensures AdminStep(d, email, password, id) == Seeded(d, Pass)
  {
  }

  /** After its step, an address is done. */
  lemma StepMakesDone(d: Directory, email: string, password: string, id: string)
    requires RoleExists(d, AdminRole) && AdminStep(d, email, password, id).outcome.Pass?
    ensures Done(AdminStep(d, email, password, id).directory, email, password)
  {
    var d' := AdminStep(d, email, password, id).directory;
    if FindByEmail(d, email) == Success(None) && CreateUser(d, AdminAccount(id, email), password).Success? {
      NewAdministratorIsDone(d, d', AdminAccount(id, email).(Password := password, Roles := [AdminRole]), email, email, password);
    } else if FindByEmail(d, email).Success? && FindByEmail(d, email).value.Some? {
      RoleAddedIsDone(d, d', FindByEmail(d, email).value.value, email, password);
    }
  }

  /** The user found for the address now has the Admin role, and no address changed. */
  lemma RoleAddedIsDone(d: Directory, d': Directory, i: nat, email: string, password: string)
    requires FindByEmail(d, email) == Success(Some(i)) && |d'.users| == |d.users|
    requires forall j :: 0 <= j < |d.users| ==> d'.users[j].Email == d.users[j].Email
    requires i < |d.users| && AdminRole in d'.users[i].Roles
    ensures Done(d', email, password)
  {
    SameEmailsSameMatches(d.users, d'.users, email);
    assert FindByEmail(d', email) == FindByEmail(d, email);
  }

  /** The step for one address leaves every other address that was done, done. */
  lemma StepKeepsDone(d: Directory, email: string, other: string, password: string, id: string)
    requires RoleExists(d, AdminRole) && AdminStep(d, email, password, id).outcome.Pass?
    requires Done(d, other, password)
    ensures Done(AdminStep(d, email, password, id).directory, other, password)
  {
    var d' := AdminStep(d, email, password, id).directory;
    if FindByEmail(d, email) == Success(None) && CreateUser(d, AdminAccount(id, email), password).Success? {
      var u := AdminAccount(id, email).(Password := password, Roles := [AdminRole]);
      CreatedKeepsDone(d, d', u, email, other, password);
    } else if FindByEmail(d, email).Success? && FindByEmail(d, email).value.Some? {
      RoleAddedKeepsDone(d, d', other, password);
    }
  }

  /** Adding the new administrator `u` for `email` keeps every other done address done. */
  lemma CreatedKeepsDone(d: Directory, d': Directory, u: User, email: string, other: string, password: string)
    requires FindByEmail(d, email) == Success(None) && u.Email == email && AdminRole in u.Roles
    requires d'.users == d.users + [u] && Done(d, other, password)
    ensures Done(d', other, password)
  {
    AppendedMatches(d.users, u, other);
    if HasEmail(u, other) {
      NewAdministratorIsDone(d, d', u, email, other, password);
    } else {
      assert FindByEmail(d', other) == FindByEmail(d, other);
      if FindByName(d, other).Some? {
        var j := FindByName(d, other).value;
        assert d'.users[j] == d.users[j];
      }
    }
  }

  /** An address that is `email` up to case has the new administrator as its only user. */
  lemma NewAdministratorIsDone(d: Directory, d': Directory, u: User, email: string, other: string, password: string)
    requires FindByEmail(d, email) == Success(None) && u.Email == email && AdminRole in u.Roles
    requires d'.users == d.users + [u] && HasEmail(u, other)
    ensures Done(d', other, password)
  {
    NotFoundByEmail(d, email);
    EquivalentAddressesSameMatches(d.users, email, other);
    AppendedMatches(d.users, u, other);
    FoundByEmail(d', other, |d.users|);
    assert d'.users[|d.users|] == u;
  }

  lemma {:induction false} EquivalentAddressesSameMatches(users: seq<User>, email: string, other: string)
    requires Normalize(email) == Normalize(other)
    ensures EmailMatches(users, email) == EmailMatches(users, other)
    decreases |users|
  {
    if |users| > 0 {
      EquivalentAddressesSameMatches(users[..|users| - 1], email, other);
    }
  }

  /** Adding a role to existing users keeps every done address done. */
  lemma RoleAddedKeepsDone(d: Directory, d': Directory, other: string, password: string)
    requires |d'.users| == |d.users| && Done(d, other, password)
    requires forall j :: 0 <= j < |d.users| ==> d'.users[j].Email == d.users[j].Email && d'.users[j].UserName == d.users[j].UserName
    requires forall j :: 0 <= j < |d.users| ==> (AdminRole in d.users[j].Roles ==> AdminRole in d'.users[j].Roles)
    ensures Done(d', other, password)
  {
    SameEmailsSameMatches(d.users, d'.users, other);
    assert FindByEmail(d', other) == FindByEmail(d, other);
    if FindByName(d, other).Some? {
      var j := FindByName(d, other).value;
      assert HasUserName(d'.users[j], other);
    }
  }

  /** After a seeding that succeeds, every configured address is done. */
  lemma {:induction false} SeedAdminsMakesDone(d: Directory, emails: seq<string>, password: string, ids: seq<string>)
    requires |ids| == |emails| && RoleExists(d, AdminRole)
    requires SeedAdmins(d, emails, password, ids).outcome.Pass?
    ensures AllDone(SeedAdmins(d, emails, password, ids).directory, emails, password)
    decreases |emails|
  {
    if |emails| > 0 {
      var first := AdminStep(d, emails[0], password, ids[0]);
      PassedFirstStep(d, emails, password, ids);
      SeedAdminsMakesDone(first.directory, emails[1..], password, ids[1..]);
      StepMakesDone(d, emails[0], password, ids[0]);
      SeedAdminsKeepsDone(first.directory, emails[1..], emails[0], password, ids[1..]);
      AllDoneCons(SeedAdmins(first.directory, emails[1..], password, ids[1..]).directory, emails, password);
    }
  }

  /** A seeding that succeeds starts with a step that succeeds. */
  lemma PassedFirstStep(d: Directory, emails: seq<string>, password: string, ids: seq<string>)
    requires |ids| == |emails| && RoleExists(d, AdminRole) && |emails| > 0
    requires SeedAdmins(d, emails, password, ids).outcome.Pass?
    ensures var first := AdminStep(d, emails[0], password, ids[0]);
            first.outcome.Pass? && SeedAdmins(d, emails, password, ids) == SeedAdmins(first.directory, emails[1..], password, ids[1..])
  {
  }

  /** A seeding that succeeds leaves every address that was done, done. */
  lemma {:induction false} SeedAdminsKeepsDone(d: Directory, emails: seq<string>, other: string, password: string, ids: seq<string>)
    requires |ids| == |emails| && RoleExists(d, AdminRole) && Done(d, other, password)
    requires SeedAdmins(d, emails, password, ids).outcome.Pass?
    ensures Done(SeedAdmins(d, emails, password, ids).directory, other, password)
    decreases |emails|
  {
    if |emails| > 0 {
      var first := AdminStep(d, emails[0], password, ids[0]);
      PassedFirstStep(d, emails, password, ids);
      StepKeepsDone(d, emails[0], other, password, ids[0]);
      SeedAdminsKeepsDone(first.directory, emails[1..], other, password, ids[1..]);
    }
  }

  /** Every address of the list is done. */
  ghost predicate AllDone(d: Directory, emails: seq<string>, password: string) {
    forall k :: 0 <= k < |emails| ==> Done(d, emails[k], password)
  }

  lemma AllDoneCons(d: Directory, emails: seq<string>, password: string)
    requires |emails| > 0 && Done(d, emails[0], password) && AllDone(d, emails[1..], password)
    ensures AllDone(d, emails, password)
  {
    assert forall k :: 1 <= k < |emails| ==> emails[k] == emails[1..][k - 1];
  }

  lemma AllDoneTail(d: Directory, emails: seq<string>, password: string)
    requires AllDone(d, emails, password) && |emails| > 0
    ensures Done(d, emails[0], password) && AllDone(d, emails[1..], password)
  {
    assert forall k :: 0 <= k < |emails| - 1 ==> emails[1..][k] == emails[k + 1];
  }

  /** Seeding a store where every address is done changes nothing. */
  lemma {:induction false} SeedAdminsOnDone(d: Directory, emails: seq<string>, password: string, ids: seq<string>)
    requires |ids| == |emails| && RoleExists(d, AdminRole)
    requires AllDone(d, emails, password)
    ensures SeedAdmins(d, emails, password, ids) == Seeded(d, Pass)
    decreases |emails|
  {
    if |emails| > 0 {
      AllDoneTail(d, emails, password);
      StepOnDone(d, emails[0], password, ids[0]);
      SeedAdminsOnDone(d, emails[1..], password, ids[1..]);
    }
  }

  /**
   * Seeding is idempotent: after a seeding that succeeds, seeding again with the same settings
   * (and whatever identifiers) leaves the roles and users exactly as they are.
   */
  lemma SeedIdempotent(d: Directory, emails: seq<string>, password: string, ids: seq<string>, ids': seq<string>)
    requires |ids| == |emails| && |ids'| == |emails|
    requires Seed(d, emails, password, ids).outcome.Pass?
    ensures var once := Seed(d, emails, password, ids).directory;
            Seed(once, emails, password, ids') == Seeded(once, Pass)
  {
    var once := Seed(d, emails, password, ids).directory;
    SeedAdminsMakesDone(SeedRoles(d), emails, password, ids);
    assert SeedRoles(once) == once;
    SeedAdminsOnDone(once, emails, password, ids');
  }

  // ---------------------------------------------------------------------------------------------
  // The service

  class RoleSeederService {
    const identity: IdentityStore
    const adminSettings: AdminSetting

    constructor (store: IdentityStore, settings: AdminSetting)
      ensures identity == store && adminSettings == settings
    {
      identity := store;
      adminSettings := settings;
    }

    method CreateRoleIfNotExistsAsync(role: string)
      modifies identity
      ensures identity.directory == EnsureRole(old(identity.directory), role)
    {
      if !RoleExists(identity.directory, role) {
        identity.CreateRoleAsync(role);
      }
    }

    method CreateAdminUserAsync(email: string, password: string, id: string) returns (r: Outcome<IdentityError>)
      requires RoleExists(identity.directory, AdminRole)
      modifies identity
      ensures Seeded(identity.directory, r) == AdminStep(old(identity.directory), email, password, id)
    {
      var existing := FindByEmail(identity.directory, email);
      if existing.Failure? {
        return Fail(existing.error);
      }
      if existing.value.None? {
        var created := identity.CreateAsync(AdminAccount(id, email), password);
        if created.Success? {
          var _ := identity.AddToRoleAsync(created.value, AdminRole);
        }
      } else {
        var i := existing.value.value;
        if !IsInRole(identity.directory, i, AdminRole) {
          var _ := identity.AddToRoleAsync(i, AdminRole);
        }
      }
      r := Pass;
    }

    /** CreateAdminUsersAsync: `ids` are the identifiers the new users' constructors would draw. */
    method CreateAdminUsersAsync(ids: seq<string>) returns (r: Outcome<IdentityError>)
      requires |ids| == |adminSettings.AdminEmails| && RoleExists(identity.directory, AdminRole)
      modifies identity
      ensures Seeded(identity.directory, r) == SeedAdmins(old(identity.directory), adminSettings.AdminEmails, adminSettings.DefaultAdminPassword, ids)
    {
      var emails, password := adminSettings.AdminEmails, adminSettings.DefaultAdminPassword;
      ghost var start := identity.directory;
      assert emails[0..] == emails && ids[0..] == ids;
      for k := 0 to |emails|
        invariant RoleExists(identity.directory, AdminRole)
        invariant SeedAdmins(start, emails, password, ids) == SeedAdmins(identity.directory, emails[k..], password, ids[k..])
      {
        ghost var before := identity.directory;
        r := CreateAdminUserAsync(emails[k], password, ids[k]);
        SeedAdminsFrom(before, emails, password, ids, k);
        if r.Fail? {
          return;
        }
      }
      r := Pass;
    }

    /** SeedRolesAndAdminAsync: the roles, then the administrators; an exception is passed on. */
    method SeedRolesAndAdminAsync(ids: seq<string>) returns (r: Outcome<IdentityError>)
      requires |ids| == |adminSettings.AdminEmails|
      modifies identity
      ensures Seeded(identity.directory, r) == Seed(old(identity.directory), adminSettings.AdminEmails, adminSettings.DefaultAdminPassword, ids)
    {
      CreateRoleIfNotExistsAsync(AdminRole);
      CreateRoleIfNotExistsAsync(UserRole);
      CreateRoleIfNotExistsAsync(ManagerRole);
      r := CreateAdminUsersAsync(ids);
    }
  }
}
