/**
 * The `protect` middleware of `src/auth/authMiddleware.js`: the bearer
 * header check, the token extraction and the hand-off of the decoded
 * identity. jsonwebtoken's `verify` is an oracle returning the decoded
 * payload, or nothing when it throws.
 */
module Guard {
  import opened Js

  const BearerPrefix := "Bearer "

  /**
   * The middleware's outcome: `Allow` is the one path on which `req.user` is
   * set and `next()` is called (once); `Deny` answers the request itself.
   */
  datatype Verdict<P> = Allow(user: P) | Deny(status: nat, message: string)

  /** `header.split(" ")[1]`; the prefix check guarantees the second piece exists. */
  function BearerToken(header: string): (token: string)
    requires StartsWith(header, BearerPrefix)
    ensures token == TakeUntil(header[|BearerPrefix|..], ' ')
  {
    var rest := header[|BearerPrefix|..];
    assert header == "Bearer" + (" " + rest);
    SplitPrefix("Bearer", " " + rest, ' ');
    assert (" " + rest)[1..] == rest;
    SplitHead(rest, ' ');
    Split(header, ' ')[1]
  }

  /**
   * `protect`: a missing header or one without the exact, case-sensitive
   * prefix `"Bearer "` is refused with "Not authorized"; a token the verifier
   * rejects with "Invalid or expired token"; otherwise the decoded payload is
   * passed on.
   */
  function Protect<P>(header: Option<string>, verify: string -> Option<P>): (r: Verdict<P>)
    ensures !Truthy(header) || !StartsWith(header.value, BearerPrefix) ==>
              r == Deny(401, "Not authorized")
    ensures Truthy(header) && StartsWith(header.value, BearerPrefix) ==>
              var token := TakeUntil(header.value[|BearerPrefix|..], ' ');
              match verify(token)
              case None => r == Deny(401, "Invalid or expired token")
              case Some(payload) => r == Allow(payload)
  {
    if !Truthy(header) || !StartsWith(header.value, BearerPrefix) then Deny(401, "Not authorized")
    else match verify(BearerToken(header.value))
      case None => Deny(401, "Invalid or expired token")
      case Some(payload) => Allow(payload)
  }

  /** The identity handed on is always one the verifier produced for some token. */
  lemma AllowOnlyVerified<P>(header: Option<string>, verify: string -> Option<P>)
    requires Protect(header, verify).Allow?
    ensures header.Some? && StartsWith(header.value, BearerPrefix)
    ensures exists token :: verify(token) == Some(Protect(header, verify).user)
  {
    var token := TakeUntil(header.value[|BearerPrefix|..], ' ');
    assert verify(token) == Some(Protect(header, verify).user);
  }

  /** A doubled space after the scheme makes the extracted token empty. */
  lemma DoubleSpaceGivesEmptyToken(rest: string)
    ensures BearerToken("Bearer  " + rest) == ""
  {
    var header := "Bearer  " + rest;
    assert header[|BearerPrefix|..] == " " + rest;
  }

  /** The scheme is matched case-sensitively: a lower-case "bearer" is refused before any verification. */
  lemma LowerCaseSchemeRefused<P>(rest: string, verify: string -> Option<P>)
    ensures Protect(Some("bearer " + rest), verify) == Deny(401, "Not authorized")
  {
    var header := "bearer " + rest;
    assert header[0] != BearerPrefix[0];
  }

  /** The token is the text after the prefix up to the next space: anything after it is ignored. */
  lemma TokenStopsAtSpace(token: string, trailer: string)
    requires ' ' !in token
    ensures BearerToken(BearerPrefix + token + " " + trailer) == token
  {
    var header := BearerPrefix + token + " " + trailer;
    assert header[|BearerPrefix|..] == token + (" " + trailer);
    TakeUntilPrefix(token, " " + trailer, ' ');
  }

  /** `TakeUntil` stops at the first separator past a separator-free head. */
  lemma {:induction false} TakeUntilPrefix(a: string, t: string, sep: char)
    requires sep !in a && |t| > 0 && t[0] == sep
    ensures TakeUntil(a + t, sep) == a
    decreases |a|
  {
    if |a| > 0 {
      assert (a + t)[1..] == a[1..] + t;
      TakeUntilPrefix(a[1..], t, sep);
      assert a == [a[0]] + a[1..];
    } else {
      assert a + t == t;
    }
  }
}
