/**
 * Claims and JSON Web Tokens (RFC 7519) as the services see them. Signing and signature checking
 * are not modelled: a token is the value the library would serialize, and "signed with a key"
 * is the key recorded in it.
 */
module Tokens {
  import opened Wrappers

  /** The ClaimTypes the application uses. */
  datatype ClaimType = NameIdentifier | Name | Email | Role

  datatype Claim = Claim(Type: ClaimType, Value: string)

  /** A JSON Web Token: header algorithm, issuer, audience, claims, expiry instant and signing key. */
  datatype Jwt = Jwt(Alg: string, Issuer: string, Audience: string, Claims: seq<Claim>, ValidTo: int, SigningKey: string)

  /** SecurityAlgorithms.HmacSha256: "alg" of HMAC with SHA-256 (section 3.2 of RFC 7518). */
  const HmacSha256: string := "HS256"

  /** Upper-casing of the ASCII letters; every other character is its own upper case. */
  function AsciiUpper(c: char): (u: char)
    ensures 'a' <= c <= 'z' ==> u as int == c as int - 32
    ensures !('a' <= c <= 'z') ==> u == c
  {
    if 'a' <= c <= 'z' then (c as int - 32) as char else c
  }

  /** Case-insensitive equality, character by character. */
  predicate EqualsIgnoreCase(a: string, b: string)
    decreases |a|
  {
    if |a| != |b| then false
    else if |a| == 0 then true
    else AsciiUpper(a[0]) == AsciiUpper(b[0]) && EqualsIgnoreCase(a[1..], b[1..])
  }

  /** The recursive comparison is "same length and equal upper case at every position". */
  lemma {:induction false} EqualsIgnoreCaseAtEveryPosition(a: string, b: string)
    ensures EqualsIgnoreCase(a, b) <==> |a| == |b| && forall i :: 0 <= i < |a| ==> AsciiUpper(a[i]) == AsciiUpper(b[i])
    decreases |a|
  {
    if |a| == |b| && |a| > 0 {
      EqualsIgnoreCaseAtEveryPosition(a[1..], b[1..]);
      if EqualsIgnoreCase(a, b) {
        forall i | 0 <= i < |a|
          ensures AsciiUpper(a[i]) == AsciiUpper(b[i])
        {
          if i > 0 {
            assert a[i] == a[1..][i - 1] && b[i] == b[1..][i - 1];
          }
        }
      } else if AsciiUpper(a[0]) == AsciiUpper(b[0]) {
        var j :| 0 <= j < |a| - 1 && AsciiUpper(a[1..][j]) != AsciiUpper(b[1..][j]);
        assert AsciiUpper(a[j + 1]) != AsciiUpper(b[j + 1]);
      }
    }
  }

  /** The algorithm names that pass the HS256 check: "HS256", "hS256", "Hs256" and "hs256". */
  lemma AcceptedAlgorithms(alg: string)
    ensures EqualsIgnoreCase(alg, HmacSha256) <==>
            |alg| == 5 && (alg[0] == 'H' || alg[0] == 'h') && (alg[1] == 'S' || alg[1] == 's') && alg[2..] == "256"
  {
    EqualsIgnoreCaseAtEveryPosition(alg, HmacSha256);
    if |alg| == 5 && alg[2..] == "256" {
      assert alg[2] == '2' && alg[3] == '5' && alg[4] == '6';
    }
    if |alg| == 5 && (forall i :: 0 <= i < 5 ==> AsciiUpper(alg[i]) == AsciiUpper(HmacSha256[i])) {
      assert AsciiUpper(alg[2]) == '2' && AsciiUpper(alg[3]) == '5' && AsciiUpper(alg[4]) == '6';
      assert alg[2..] == [alg[2], alg[3], alg[4]];
    }
  }

  /** FindFirst: the value of the first claim of the given type, or null when there is none. */
  function FindFirst(claims: seq<Claim>, claimType: ClaimType): (r: Option<string>)
    ensures r.None? <==> forall i :: 0 <= i < |claims| ==> claims[i].Type != claimType
    ensures r.Some? ==> exists i :: 0 <= i < |claims| && claims[i] == Claim(claimType, r.value)
                                   && forall j :: 0 <= j < i ==> claims[j].Type != claimType
  {
    if |claims| == 0 then None
    else if claims[0].Type == claimType then Some(claims[0].Value)
    else
      var rest := FindFirst(claims[1..], claimType);
      assert rest.Some? ==> exists i :: 0 <= i < |claims[1..]| && claims[1..][i] == Claim(claimType, rest.value)
                                         && forall j :: 0 <= j < i ==> claims[1..][j].Type != claimType;
      assert forall i :: 1 <= i < |claims| ==> claims[i] == claims[1..][i - 1];
      rest
  }

  /** The claims of one type, in order: what a principal's roles are read from. */
  function ValuesOf(claims: seq<Claim>, claimType: ClaimType): (r: seq<string>)
    ensures forall v :: v in r <==> Claim(claimType, v) in claims
  {
    if |claims| == 0 then []
    else (if claims[0].Type == claimType then [claims[0].Value] else []) + ValuesOf(claims[1..], claimType)
  }

  /** The first claim of a type in a concatenation comes from the front part when it has one. */
  lemma {:induction false} FindFirstAppend(a: seq<Claim>, b: seq<Claim>, claimType: ClaimType)
    ensures FindFirst(a + b, claimType) == if FindFirst(a, claimType).Some? then FindFirst(a, claimType) else FindFirst(b, claimType)
  {
    if |a| == 0 {
      assert a + b == b;
    } else {
      assert (a + b)[1..] == a[1..] + b;
      FindFirstAppend(a[1..], b, claimType);
    }
  }

  /** The values of a type in a concatenation are those of the front part, then those of the rest. */
  lemma {:induction false} ValuesOfAppend(a: seq<Claim>, b: seq<Claim>, claimType: ClaimType)
    ensures ValuesOf(a + b, claimType) == ValuesOf(a, claimType) + ValuesOf(b, claimType)
  {
    if |a| == 0 {
      assert a + b == b;
    } else {
      assert (a + b)[1..] == a[1..] + b;
      ValuesOfAppend(a[1..], b, claimType);
    }
  }

  /** Claims with no claim of a type have no values of it. */
  lemma {:induction false} NoValuesOf(claims: seq<Claim>, claimType: ClaimType)
    requires forall i :: 0 <= i < |claims| ==> claims[i].Type != claimType
    ensures ValuesOf(claims, claimType) == []
  {
    if |claims| > 0 {
      NoValuesOf(claims[1..], claimType);
    }
  }
}
