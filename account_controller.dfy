/**
 * AccountController: registration and login through the identity store, and logout by
 * blacklisting the caller's bearer token in the object cache until the token expires.
 */
module AccountControllers {
  import opened Wrappers
  import opened Tokens
  import opened Identity
  import opened Cache
  import opened WebCache
  import RoleSeeder
  import Auth

  /** The Register request body. */
  datatype UserRegister = UserRegister(UserName: string, Password: string, Email: string, PhoneNumber: string, Country: string)

  /** The Login request body. */
  datatype UserLogin = UserLogin(UserName: string, Password: string)

  /** The action results, reduced to their status and what the body tells the client. */
  datatype AccountResult =
    | Registered(UserId: string)
    | LoggedIn(Token: Jwt, Expiration: int)
    | LoggedOut
    | BadRequest
    | Unauthorized
    | ServerError

  /** A login token is valid for 30 minutes. */
  const LoginLifetime: int := 30 * 60

  /** The claims Register gives a new user. */
  function RegisterClaims(id: string, userName: string): seq<Claim> {
    [Claim(NameIdentifier, id), Claim(Name, userName)]
  }

  /** One Role claim per role, in the order of the roles. */
  function RoleClaims(roles: seq<string>): (r: seq<Claim>)
    ensures |r| == |roles| && forall i :: 0 <= i < |roles| ==> r[i] == Claim(Role, roles[i])
  {
    seq(|roles|, i requires 0 <= i < |roles| => Claim(Role, roles[i]))
  }

  /** The Role claims read back give the roles they were made from, in order. */
  lemma {:induction false} RoleClaimsValues(roles: seq<string>)
    ensures ValuesOf(RoleClaims(roles), Role) == roles
  {
    if |roles| > 0 {
      assert RoleClaims(roles) == [Claim(Role, roles[0])] + RoleClaims(roles[1..]);
      ValuesOfAppend([Claim(Role, roles[0])], RoleClaims(roles[1..]), Role);
      RoleClaimsValues(roles[1..]);
    }
  }

  /**
   * The claims Login puts in a token keep the user's identifier claim, and, for a user whose
   * stored claims hold no role, the token's roles are exactly the user's roles: what the
   * role-based authorization of the other controllers reads back.
   */
  lemma LoginClaimsCarryIdentityAndRoles(userClaims: seq<Claim>, roles: seq<string>)
    requires forall i :: 0 <= i < |userClaims| ==> userClaims[i].Type != Role
    ensures FindFirst(userClaims + RoleClaims(roles), NameIdentifier) == FindFirst(userClaims, NameIdentifier)
    ensures ValuesOf(userClaims + RoleClaims(roles), Role) == roles
  {
    FindFirstAppend(userClaims, RoleClaims(roles), NameIdentifier);
    ValuesOfAppend(userClaims, RoleClaims(roles), Role);
    RoleClaimsValues(roles);
    NoValuesOf(userClaims, Role);
  }

  /** The token Login issues for the claims at `now`. */
  function LoginToken(settings: Auth.JwtSettings, claims: seq<Claim>, now: int): Jwt {
    Jwt(HmacSha256, settings.IssuerIP, settings.AudienceIP, claims, now + LoginLifetime, settings.SecritKey)
  }

  /**
   * Split(" ").Last(): the text after the last space, or the whole text when it has none. It is
   * the longest suffix without a space.
   */
  function LastPiece(s: string): (r: string)
    ensures ' ' !in r
    ensures |r| <= |s| && r == s[|s| - |r|..]
    ensures |r| < |s| ==> s[|s| - |r| - 1] == ' '
  {
    if |s| == 0 then ""
    else if s[|s| - 1] == ' ' then ""
    else
      var front := LastPiece(s[..|s| - 1]);
      assert s[..|s| - 1][|s| - 1 - |front|..] + [s[|s| - 1]] == s[|s| - |front| - 1..];
      front + [s[|s| - 1]]
  }

  /** The token Logout reads from the Authorization header; "" when there is no header. */
  function HeaderToken(authorization: Option<string>): string {
    match authorization
    case None => ""
    case Some(header) => LastPiece(header)
  }

  /**
   * Whatever the scheme before the last space, the token is what follows it: "Bearer t" and
   * "Basic t" both give t (the scheme is not checked).
   */
  lemma {:induction false} LastPieceAfterSpace(scheme: string, token: string)
    requires |scheme| > 0 && scheme[|scheme| - 1] == ' ' && ' ' !in token
    ensures LastPiece(scheme + token) == token
  {
    var s := scheme + token;
    if |token| == 0 {
      assert s == scheme;
    } else {
      var front := token[..|token| - 1];
      assert s[..|s| - 1] == scheme + front;
      assert s[|s| - 1] == token[|token| - 1];
      LastPieceAfterSpace(scheme, front);
      assert front + [token[|token| - 1]] == token;
    }
  }

  /**
   * After a logout with "Bearer t", the token t is marked in the store until its expiry: the
   * bearer handler's blacklist check (which reads the same store) refuses it at every instant
   * before then, and finds nothing once it has expired. A token already expired is not written.
   */
  lemma LoggedOutTokenBlacklisted(entries: map<string, Entry<CachedObject>>, t: string, validTo: int, now: int, at: int)
    requires ' ' !in t
    ensures var e := Written(entries, true, HeaderToken(Some("Bearer " + t)), Text(BlacklistMarker), validTo - now, now);
            validTo > now ==> (Lookup(e, t, at).Some? <==> at < validTo)
  {
    LastPieceAfterSpace("Bearer ", t);
  }

  class AccountController {
    const identity: IdentityStore
    const cache: RedisCacheService<CachedObject>
    const settings: Auth.JwtSettings

    constructor (userManager: IdentityStore, cacheService: RedisCacheService<CachedObject>, configuration: Auth.JwtSettings)
      ensures identity == userManager && cache == cacheService && settings == configuration
    {
      identity := userManager;
      cache := cacheService;
      settings := configuration;
    }

    /**
     * POST api/Account/Register: a missing or invalid body is refused before the store is
     * touched; otherwise the user is created, given its id and name as claims, and put in the
     * User role. A missing User role makes AddToRoleAsync throw, after the user and its claims
     * are stored; the exception is not caught and the request fails with status 500.
     */
    method Register(body: Option<UserRegister>, modelValid: bool, id: string) returns (r: AccountResult)
      modifies identity
      ensures body.None? || !modelValid ==> r == BadRequest && identity.directory == old(identity.directory)
      ensures body.Some? && modelValid ==>
                var b := body.value;
                var user := NewUser(id, b.UserName, b.Email, b.PhoneNumber, b.Country, false);
                var created := CreateUser(old(identity.directory), user, b.Password);
                var n := |old(identity.directory).users|;
                if created.Failure? then r == BadRequest && identity.directory == old(identity.directory)
                else
                  var withClaims := AddClaims(created.value, n, RegisterClaims(id, b.UserName));
                  if RoleExists(old(identity.directory), RoleSeeder.UserRole)
                  then r == Registered(id) && identity.directory == AddToRole(withClaims, n, RoleSeeder.UserRole).value
                  else r == ServerError && identity.directory == withClaims
      ensures r.Registered? ==>
                var b := body.value;
                && identity.directory.users == old(identity.directory).users + [identity.directory.users[|old(identity.directory).users|]]
                && identity.directory.users[|old(identity.directory).users|] ==
                   NewUser(id, b.UserName, b.Email, b.PhoneNumber, b.Country, false)
                     .(Password := b.Password, Claims := RegisterClaims(id, b.UserName), Roles := [RoleSeeder.UserRole])
    {
      if body.None? || !modelValid {
        return BadRequest;
      }
      var b := body.value;
      var user := NewUser(id, b.UserName, b.Email, b.PhoneNumber, b.Country, false);
      var created := identity.CreateAsync(user, b.Password);
      if created.Failure? {
        return BadRequest;
      }
      var n := created.value;
      identity.AddClaimsAsync(n, RegisterClaims(id, b.UserName));
      var added := identity.AddToRoleAsync(n, RoleSeeder.UserRole);
      if added.Fail? && added.error == RoleNotFound {
        return ServerError;
      }
      assert identity.directory.users[..n] == old(identity.directory).users;
      r := Registered(id);
    }

    /** The foreach of Login: the user's claims followed by one Role claim per role. */
    method BuildAuthClaims(userClaims: seq<Claim>, roles: seq<string>) returns (claims: seq<Claim>)
      ensures claims == userClaims + RoleClaims(roles)
    {
      claims := userClaims;
      for k := 0 to |roles|
        invariant claims == userClaims + RoleClaims(roles[..k])
      {
        assert RoleClaims(roles[..k + 1]) == RoleClaims(roles[..k]) + [Claim(Role, roles[k])];
        claims := claims + [Claim(Role, roles[k])];
      }
      assert roles[..|roles|] == roles;
    }

    /**
     * POST api/Account/Login: an unknown user name and a wrong password get the same
     * Unauthorized answer; a good login gets an HS256 token with the user's claims and roles,
     * valid for 30 minutes, and its expiry.
     */
    method Login(body: Option<UserLogin>, modelValid: bool, now: int) returns (r: AccountResult)
      ensures body.None? || !modelValid ==> r == BadRequest
      ensures body.Some? && modelValid ==>
                var found := FindByName(identity.directory, body.value.UserName);
                (r == Unauthorized <==> found.None? || !CheckPassword(identity.directory, found.value, body.value.Password))
                && (r != Unauthorized ==> r.LoggedIn?)
      ensures r.LoggedIn? ==>
                var u := identity.directory.users[FindByName(identity.directory, body.value.UserName).value];
                && r.Token == LoginToken(settings, u.Claims + RoleClaims(u.Roles), now)
                && r.Token.Alg == HmacSha256 && r.Token.ValidTo == now + LoginLifetime
                && r.Expiration == r.Token.ValidTo
    {
      if body.None? || !modelValid {
        return BadRequest;
      }
      var found := FindByName(identity.directory, body.value.UserName);
      if found.None? {
        return Unauthorized;
      }
      var i := found.value;
      if !CheckPassword(identity.directory, i, body.value.Password) {
        return Unauthorized;
      }
      var userClaims := identity.directory.users[i].Claims;
      var roles := identity.directory.users[i].Roles;
      var authClaims := BuildAuthClaims(userClaims, roles);
      var token := LoginToken(settings, authClaims, now);
      r := LoggedIn(token, token.ValidTo);
    }

    /**
     * POST api/Account/logout: `principal` holds the claims of the authenticated caller,
     * `authorization` the Authorization header, and `readToken` what ReadJwtToken makes of the
     * header's token (None when it throws). The token is stored, as the string "blacklisted",
     * under its own text until its expiry.
     */
    method Logout(principal: seq<Claim>, authorization: Option<string>, readToken: Option<Jwt>, now: int) returns (r: AccountResult)
      modifies cache.store
      ensures cache.store.available == old(cache.store.available)
      ensures var userId := FindFirst(principal, NameIdentifier);
              var token := HeaderToken(authorization);
              if userId.None? || userId.value == "" then r == Unauthorized && cache.store.entries == old(cache.store.entries)
              else if token == "" then r == BadRequest && cache.store.entries == old(cache.store.entries)
              else if readToken.None? then r == ServerError && cache.store.entries == old(cache.store.entries)
              else r == LoggedOut
                   && cache.store.entries == Written(old(cache.store.entries), old(cache.store.available), token,
                                                     Text(BlacklistMarker), readToken.value.ValidTo - now, now)
    {
      var userId := FindFirst(principal, NameIdentifier);
      if userId.None? || userId.value == "" {
        return Unauthorized;
      }
      var token := HeaderToken(authorization);
      if token == "" {
        return BadRequest;
      }
      if readToken.None? {
        return ServerError;
      }
      var expiration := readToken.value.ValidTo;
      cache.SetAsync(token, Text(BlacklistMarker), Some(expiration - now), now);
      r := LoggedOut;
    }

    /**
     * A caller who logs out with "Bearer t" and presents t again before t expires is refused when
     * the bearer handler hands the blacklist check a JwtSecurityToken, which is looked up in the
     * store Logout wrote to; a validated token of another type is not looked up and gets through.
     */
    method LogoutThenPresent(gate: TokenBlacklistService<CachedObject>, principal: seq<Claim>, t: string, jwt: Jwt,
                             asJwtSecurityToken: bool, now: int, at: int)
      returns (r: AccountResult, accepted: bool)
      requires gate.store == cache.store && cache.store.available
      requires FindFirst(principal, NameIdentifier).Some? && FindFirst(principal, NameIdentifier).value != ""
      requires t != "" && ' ' !in t && now < jwt.ValidTo && at < jwt.ValidTo
      modifies cache.store
      ensures r == LoggedOut
      ensures accepted <==> !asJwtSecurityToken
    {
      LastPieceAfterSpace("Bearer ", t);
      r := Logout(principal, Some("Bearer " + t), Some(jwt), now);
      var presented := if asJwtSecurityToken then JwtSecurityToken(t) else OtherToken;
      accepted := gate.OnTokenValidated(presented, at);
    }

    /**
     * A user registered with a password the store accepts can log in with it at once, and the
     * token carries the user's id, name and the User role, in that order.
     */
    method RegisterThenLogin(b: UserRegister, id: string, now: int) returns (registered: AccountResult, loggedIn: AccountResult)
      requires RoleExists(identity.directory, RoleSeeder.UserRole)
      requires CreateUser(identity.directory, NewUser(id, b.UserName, b.Email, b.PhoneNumber, b.Country, false), b.Password).Success?
      modifies identity
      ensures registered == Registered(id)
      ensures loggedIn == LoggedIn(LoginToken(settings, RegisterClaims(id, b.UserName) + [Claim(Role, RoleSeeder.UserRole)], now),
                                   now + LoginLifetime)
    {
      ghost var before := identity.directory;
      CreatedUserIsFound(before, NewUser(id, b.UserName, b.Email, b.PhoneNumber, b.Country, false), b.Password);
      registered := Register(Some(b), true, id);
      ghost var n := |before.users|;
      assert identity.directory.users[..n] == before.users;
      NameStillFound(before, identity.directory, b.UserName, n);
      loggedIn := Login(Some(UserLogin(b.UserName, b.Password)), true, now);
      assert RoleClaims([RoleSeeder.UserRole]) == [Claim(Role, RoleSeeder.UserRole)];
    }
  }

  /** Adding the new user's claims and role does not change which user a name finds. */
  lemma NameStillFound(before: Directory, after: Directory, name: string, n: nat)
    requires n == |before.users| && |after.users| == n + 1 && after.users[..n] == before.users
    requires FindByName(before, name).None? && HasUserName(after.users[n], name)
    ensures FindByName(after, name) == Some(n)
  {
    var r := FindByName(after, name);
    assert r.Some?;
  }
}
