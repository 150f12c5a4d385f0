/**
 * AuthService: access tokens carrying the user's identifier and address, refresh tokens drawn
 * from 64 random bytes, and the RefreshTokens table, where issuing a token for a user replaces
 * that user's first existing row. Times are instants in seconds.
 */
module Auth {
  import opened Wrappers
  import opened Tokens
  import Base64
  import Identity

  /** The JWT configuration section. */
  datatype JwtSettings = JwtSettings(
    SecritKey: string, AudienceIP: string, IssuerIP: string,
    AccessTokenExpirationMinutes: int, RefreshTokenExpirationDays: int)

  /** A row of the RefreshTokens table. */
  datatype RefreshToken = RefreshToken(
    Id: int, Token: string, UserId: string, ExpiryDate: int, CreatedDate: int, CreatedByIp: string)

  /** AuthResultDTO: the access token and the refresh token handed to the client. */
  datatype AuthResult = AuthResult(AccessToken: Jwt, RefreshToken: string)

  /** Why ValidateToken throws: the checks it makes, in the order it makes them. */
  datatype TokenError = InvalidSignature | InvalidAudience | InvalidIssuer

  /** The exception SaveChangesAsync raises when the database refuses the changes. */
  datatype SaveError = SaveFailed

  const SecondsPerMinute: int := 60
  const SecondsPerDay: int := 24 * 60 * 60

  /** The number of random bytes behind a refresh token. */
  const RefreshTokenBytes: nat := 64

  // ---------------------------------------------------------------------------------------------
  // Tokens

  /** GetClaims: the user's identifier and e-mail address, and no role. */
  function GetClaims(user: Identity.User): (r: seq<Claim>)
    ensures |r| == 2
    ensures FindFirst(r, NameIdentifier) == Some(user.Id) && FindFirst(r, ClaimType.Email) == Some(user.Email)
    ensures forall c :: c in r ==> c.Type != Role
  {
    [Claim(NameIdentifier, user.Id), Claim(ClaimType.Email, user.Email)]
  }

  /** GenerateAccessToken: an HS256 token for the claims, valid for the configured minutes from `now`. */
  function GenerateAccessToken(settings: JwtSettings, claims: seq<Claim>, now: int): (t: Jwt)
    ensures t.Alg == HmacSha256 && t.Claims == claims && t.SigningKey == settings.SecritKey
    ensures t.Issuer == settings.IssuerIP && t.Audience == settings.AudienceIP
    ensures t.ValidTo == now + settings.AccessTokenExpirationMinutes * SecondsPerMinute
  {
    Jwt(HmacSha256, settings.IssuerIP, settings.AudienceIP, claims,
        now + settings.AccessTokenExpirationMinutes * SecondsPerMinute, settings.SecritKey)
  }

  /**
   * GenerateRefreshToken: the Base64 text (section 4 of RFC 4648) of 64 bytes that the random
   * number generator supplies as `random`. It is 88 characters long and decodes to those bytes.
   */
  function GenerateRefreshToken(random: seq<Base64.byte>): (r: string)
    requires |random| == RefreshTokenBytes
    ensures |r| == 88
    ensures Base64.Decode(r) == Some(random)
    ensures forall i :: 0 <= i < |r| ==> Base64.IsDigit(r[i]) || (r[i] == '=' && i >= 86)
  {
    Base64.EncodedLength(random);
    Base64.EncodedAlphabet(random);
    Base64.DecodeEncode(random);
    Base64.Encode(random)
  }

  /**
   * GetPrincipalFromExpiredToken: ValidateToken checks the signing key, the audience and the issuer
   * and throws when one does not match; the lifetime is not checked. A validated token yields its
   * claims only when its header algorithm is HS256, compared without regard to case.
   */
  function GetPrincipalFromExpiredToken(settings: JwtSettings, token: Jwt): (r: Result<Option<seq<Claim>>, TokenError>)
    ensures r.Success? <==> token.SigningKey == settings.SecritKey && token.Audience == settings.AudienceIP
                            && token.Issuer == settings.IssuerIP
    ensures token.SigningKey != settings.SecritKey ==> r == Failure(InvalidSignature)
    ensures token.SigningKey == settings.SecritKey && token.Audience != settings.AudienceIP ==> r == Failure(InvalidAudience)
    ensures token.SigningKey == settings.SecritKey && token.Audience == settings.AudienceIP && token.Issuer != settings.IssuerIP ==>
              r == Failure(InvalidIssuer)
    ensures r.Success? ==> (r.value.Some? <==> EqualsIgnoreCase(token.Alg, HmacSha256))
    ensures r.Success? && r.value.Some? ==> r.value.value == token.Claims
  {
    if token.SigningKey != settings.SecritKey then Failure(InvalidSignature)
    else if token.Audience != settings.AudienceIP then Failure(InvalidAudience)
    else if token.Issuer != settings.IssuerIP then Failure(InvalidIssuer)
    else if !EqualsIgnoreCase(token.Alg, HmacSha256) then Success(None)
    else Success(Some(token.Claims))
  }

  /**
   * An access token this service issued gives back its claims, at any time: expiry does not
   * matter, and a token issued under other settings is refused.
   */
  lemma IssuedTokenReadsBack(settings: JwtSettings, claims: seq<Claim>, now: int, other: JwtSettings)
    ensures GetPrincipalFromExpiredToken(settings, GenerateAccessToken(settings, claims, now)) == Success(Some(claims))
    ensures GetPrincipalFromExpiredToken(other, GenerateAccessToken(settings, claims, now)).Success? <==>
              other.SecritKey == settings.SecritKey && other.AudienceIP == settings.AudienceIP && other.IssuerIP == settings.IssuerIP
  {
    AcceptedAlgorithms(HmacSha256);
  }

  // ---------------------------------------------------------------------------------------------
  // The RefreshTokens table, in key order

  /** The rows of one user, in table order. */
  function RowsOf(rows: seq<RefreshToken>, userId: string): seq<RefreshToken> {
    if |rows| == 0 then []
    else (if rows[0].UserId == userId then [rows[0]] else []) + RowsOf(rows[1..], userId)
  }

  /** FirstOrDefaultAsync(t => t.UserId == userId): the position of the user's first row. */
  function FirstRowOf(rows: seq<RefreshToken>, userId: string): (r: Option<nat>)
    ensures r.None? <==> forall i :: 0 <= i < |rows| ==> rows[i].UserId != userId
    ensures r.Some? ==> r.value < |rows| && rows[r.value].UserId == userId
                        && forall j :: 0 <= j < r.value ==> rows[j].UserId != userId
  {
    if |rows| == 0 then None
    else if rows[0].UserId == userId then Some(0)
    else
      match FirstRowOf(rows[1..], userId)
      case None => None
      case Some(i) => Some(i + 1)
  }

  /** The table after issuing `row`: the owner's first row, if any, is removed and `row` added. */
  function ReplaceRow(rows: seq<RefreshToken>, row: RefreshToken): seq<RefreshToken> {
    match FirstRowOf(rows, row.UserId)
    case None => rows + [row]
    case Some(i) => rows[..i] + rows[i + 1..] + [row]
  }

  /** The invariant the table is meant to keep: no user has more than one refresh token. */
  ghost predicate AtMostOneRowPerUser(rows: seq<RefreshToken>) {
    forall userId :: |RowsOf(rows, userId)| <= 1
  }

  lemma {:induction false} RowsOfConcat(a: seq<RefreshToken>, b: seq<RefreshToken>, userId: string)
    ensures RowsOf(a + b, userId) == RowsOf(a, userId) + RowsOf(b, userId)
    decreases |a|
  {
    if |a| == 0 {
      assert a + b == b;
    } else {
      var head := if a[0].UserId == userId then [a[0]] else [];
      calc {
        RowsOf(a + b, userId);
        { assert (a + b)[0] == a[0] && (a + b)[1..] == a[1..] + b; }
        head + RowsOf(a[1..] + b, userId);
        { RowsOfConcat(a[1..], b, userId); }
        head + (RowsOf(a[1..], userId) + RowsOf(b, userId));
        RowsOf(a, userId) + RowsOf(b, userId);
      }
    }
  }

  /** The table split around the user's first row. */
  lemma SplitAtFirstRow(rows: seq<RefreshToken>, i: nat, userId: string, other: string)
    requires i < |rows| && rows[i].UserId == userId && forall j :: 0 <= j < i ==> rows[j].UserId != userId
    ensures RowsOf(rows, other) == RowsOf(rows[..i], other) + RowsOf([rows[i]], other) + RowsOf(rows[i + 1..], other)
    ensures RowsOf(rows[..i], userId) == []
  {
    assert rows == rows[..i] + ([rows[i]] + rows[i + 1..]);
    RowsOfConcat(rows[..i], [rows[i]] + rows[i + 1..], other);
    RowsOfConcat([rows[i]], rows[i + 1..], other);
    NoRowsOf(rows[..i], userId);
  }

  lemma {:induction false} NoRowsOf(rows: seq<RefreshToken>, userId: string)
    requires forall j :: 0 <= j < |rows| ==> rows[j].UserId != userId
    ensures RowsOf(rows, userId) == []
    decreases |rows|
  {
    if |rows| > 0 {
      NoRowsOf(rows[1..], userId);
    }
  }

  /**
   * Issuing for one user leaves the rows of every other user as they were; the owner loses its
   * first row (if any) and gains the new one.
   */
  lemma ReplaceRowRows(rows: seq<RefreshToken>, row: RefreshToken, userId: string)
    ensures userId != row.UserId ==> RowsOf(ReplaceRow(rows, row), userId) == RowsOf(rows, userId)
    ensures userId == row.UserId ==>
              RowsOf(ReplaceRow(rows, row), userId) ==
              (if |RowsOf(rows, userId)| == 0 then [] else RowsOf(rows, userId)[1..]) + [row]
  {
    match FirstRowOf(rows, row.UserId)
    case None =>
      AppendedRowRows(rows, row, userId);
    case Some(i) =>
      assert ReplaceRow(rows, row) == rows[..i] + rows[i + 1..] + [row];
      ReplacedRowRows(rows, i, row, userId);
      if userId == row.UserId {
        assert RowsOf(rows, userId)[1..] == RowsOf(rows[i + 1..], userId);
      }
  }

  /** The owner had no row: the new one is appended. */
  lemma AppendedRowRows(rows: seq<RefreshToken>, row: RefreshToken, userId: string)
    requires forall i :: 0 <= i < |rows| ==> rows[i].UserId != row.UserId
    ensures RowsOf(rows + [row], userId) == RowsOf(rows, userId) + if userId == row.UserId then [row] else []
    ensures userId == row.UserId ==> RowsOf(rows, userId) == []
  {
    RowsOfConcat(rows, [row], userId);
    assert [row][1..] == [];
    if userId == row.UserId {
      NoRowsOf(rows, userId);
    }
  }

  /** The owner's first row is at `i`: it is removed and the new one appended. */
  lemma ReplacedRowRows(rows: seq<RefreshToken>, i: nat, row: RefreshToken, userId: string)
    requires i < |rows| && rows[i].UserId == row.UserId && forall j :: 0 <= j < i ==> rows[j].UserId != row.UserId
    ensures userId != row.UserId ==> RowsOf(rows[..i] + rows[i + 1..] + [row], userId) == RowsOf(rows, userId)
    ensures userId == row.UserId ==> RowsOf(rows, userId) == [rows[i]] + RowsOf(rows[i + 1..], userId)
    ensures userId == row.UserId ==> RowsOf(rows[..i] + rows[i + 1..] + [row], userId) == RowsOf(rows[i + 1..], userId) + [row]
  {
    if userId == row.UserId {
      OwnerRowReplaced(rows, i, row);
    } else {
      OtherRowsKept(rows, i, row, userId);
    }
  }

  lemma OwnerRowReplaced(rows: seq<RefreshToken>, i: nat, row: RefreshToken)
    requires i < |rows| && rows[i].UserId == row.UserId && forall j :: 0 <= j < i ==> rows[j].UserId != row.UserId
    ensures RowsOf(rows, row.UserId) == [rows[i]] + RowsOf(rows[i + 1..], row.UserId)
    ensures RowsOf(rows[..i] + rows[i + 1..] + [row], row.UserId) == RowsOf(rows[i + 1..], row.UserId) + [row]
  {
    var u := row.UserId;
    SplitAtFirstRow(rows, i, u, u);
    RowsOfOne(rows[i], u);
    assert [] + [rows[i]] == [rows[i]];
    OwnerRowAppended(rows[..i], rows[i + 1..], row);
  }

  /** Rows without the owner, then the owner's later rows, then its new row. */
  lemma OwnerRowAppended(pre: seq<RefreshToken>, post: seq<RefreshToken>, row: RefreshToken)
    requires forall j :: 0 <= j < |pre| ==> pre[j].UserId != row.UserId
    ensures RowsOf(pre + post + [row], row.UserId) == RowsOf(post, row.UserId) + [row]
  {
    var u := row.UserId;
    RowsOfConcat(pre + post, [row], u);
    RowsOfConcat(pre, post, u);
    RowsOfOne(row, u);
    NoRowsOf(pre, u);
    assert [] + RowsOf(post, u) == RowsOf(post, u);
  }

  lemma OtherRowsKept(rows: seq<RefreshToken>, i: nat, row: RefreshToken, userId: string)
    requires i < |rows| && rows[i].UserId == row.UserId && forall j :: 0 <= j < i ==> rows[j].UserId != row.UserId
    requires userId != row.UserId
    ensures RowsOf(rows[..i] + rows[i + 1..] + [row], userId) == RowsOf(rows, userId)
  {
    var pre, post := rows[..i], rows[i + 1..];
    var left := RowsOf(pre, userId) + RowsOf(post, userId);
    assert RowsOf(pre + post + [row], userId) == left by {
      RowsOfConcat(pre + post, [row], userId);
      RowsOfConcat(pre, post, userId);
      RowsOfOne(row, userId);
      assert left + [] == left;
    }
    assert RowsOf(rows, userId) == left by {
      SplitAtFirstRow(rows, i, row.UserId, userId);
      RowsOfOne(rows[i], userId);
      assert RowsOf(pre, userId) + [] == RowsOf(pre, userId);
    }
  }

  lemma RowsOfOne(row: RefreshToken, userId: string)
    ensures RowsOf([row], userId) == if row.UserId == userId then [row] else []
  {
    assert [row][1..] == [];
  }

  /** Issuing a token keeps "at most one row per user", and leaves the owner with the new row only. */
  lemma ReplaceRowKeepsAtMostOne(rows: seq<RefreshToken>, row: RefreshToken)
    requires AtMostOneRowPerUser(rows)
    ensures AtMostOneRowPerUser(ReplaceRow(rows, row))
    ensures RowsOf(ReplaceRow(rows, row), row.UserId) == [row]
  {
    forall userId
      ensures |RowsOf(ReplaceRow(rows, row), userId)| <= 1
    {
      ReplaceRowRows(rows, row, userId);
    }
    ReplaceRowRows(rows, row, row.UserId);
  }

  /**
   * Only the first row is removed, so the invariant is kept but not restored: a user with two rows
   * still has two after a new token is issued.
   */
  lemma ReplaceRowDoesNotRepair(a: RefreshToken, b: RefreshToken, row: RefreshToken)
    requires a.UserId == row.UserId && b.UserId == row.UserId
    ensures !AtMostOneRowPerUser([a, b])
    ensures RowsOf(ReplaceRow([a, b], row), row.UserId) == [b, row]
  {
    assert [a, b][1..] == [b] && [b][1..] == [];
    assert RowsOf([b], row.UserId) == [b];
    assert RowsOf([a, b], row.UserId) == [a, b];
    ReplaceRowRows([a, b], row, row.UserId);
  }

  // ---------------------------------------------------------------------------------------------
  // The service

  class AuthService {
    /** The committed RefreshTokens table, in key order. */
    var refreshTokens: seq<RefreshToken>
    /** The identity value the next row receives. */
    var nextId: int
    const settings: JwtSettings

    constructor (configuration: JwtSettings, rows: seq<RefreshToken>, identity: int)
      ensures settings == configuration && refreshTokens == rows && nextId == identity
    {
      settings := configuration;
      refreshTokens := rows;
      nextId := identity;
    }

    /**
     * GenerateTokenAsync: an access token for the user's claims and a new refresh token, recorded
     * as the user's row. The removal of the old row and the insertion of the new one are staged
     * and committed by one SaveChangesAsync: when it fails (`saveSucceeds` false) the exception
     * reaches the caller and the table is as it was.
     */
    method GenerateTokenAsync(user: Identity.User, ipAddress: string, random: seq<Base64.byte>, now: int, saveSucceeds: bool)
      returns (r: Result<AuthResult, SaveError>)
      requires |random| == RefreshTokenBytes
      modifies this
      ensures r.Success? <==> saveSucceeds
      ensures r.Success? ==> r.value == AuthResult(GenerateAccessToken(settings, GetClaims(user), now), GenerateRefreshToken(random))
      ensures refreshTokens ==
                if saveSucceeds
                then ReplaceRow(old(refreshTokens), RefreshToken(old(nextId), GenerateRefreshToken(random), user.Id,
                                                                  now + settings.RefreshTokenExpirationDays * SecondsPerDay, now, ipAddress))
                else old(refreshTokens)
      ensures nextId == if saveSucceeds then old(nextId) + 1 else old(nextId)
    {
      var accessToken := GenerateAccessToken(settings, GetClaims(user), now);
      var refreshToken := GenerateRefreshToken(random);
      var staged := refreshTokens;
      var existing := FirstRowOf(staged, user.Id);
      if existing.Some? {
        var i := existing.value;
        staged := staged[..i] + staged[i + 1..];
      }
      var entity := RefreshToken(nextId, refreshToken, user.Id,
                                 now + settings.RefreshTokenExpirationDays * SecondsPerDay, now, ipAddress);
      staged := staged + [entity];
      if !saveSucceeds {
        return Failure(SaveFailed);
      }
      refreshTokens, nextId := staged, nextId + 1;
      r := Success(AuthResult(accessToken, refreshToken));
    }
  }
}
