/** Authentication: the login-secret hash, the signed token that carries a
    user id, and the `authenticateToken` middleware that reads the token
    from the Authorization header.

    Hashing and signing are foreign code; both are replaced by stand-ins
    that keep only the properties the routes rely on: a secret matches the
    hash made from it, and so does any secret that fills bcrypt's 72-byte
    key the same way; a token verifies to exactly the id it was signed for. */
module Auth {
  import opened Http
  import Ids

  type UserId = nat

  // ---------------------------------------------------------------------
  // Login-secret hashing (bcrypt with a fixed work factor)

  /** Work factor passed to the hash at registration. */
  const SaltRounds: nat := 10

  /** bcrypt's key is this many bytes; the rest of a secret is ignored. */
  const MaxSecretLength: nat := 72

  const Nul: char := 0 as char

  predicate NoNul(s: string) {
    forall k :: 0 <= k < |s| ==> s[k] != Nul
  }

  /** The key the hash depends on: the secret with a NUL appended, repeated
      cyclically to fill 72 characters (72 bytes for an ASCII secret). */
  function Significant(secret: string): (key: string)
    ensures |key| == MaxSecretLength
    ensures forall k :: 0 <= k < MaxSecretLength && k < |secret| ==> key[k] == secret[k]
    ensures |secret| < MaxSecretLength ==> key[|secret|] == Nul
  {
    var padded := secret + [Nul];
    SmallRemainders(|padded|);
    seq(MaxSecretLength, k requires 0 <= k < MaxSecretLength => padded[k % |padded|])
  }

  lemma SmallRemainders(n: nat)
    ensures forall k :: 0 <= k < n ==> k % n == k
  {
  }

  /** A stored hash. The stand-in keeps the significant part of the secret
      inside an opaque value; the model reads it only through `Compare`. The
      hash is a different type from a string, so a stored hash is never the
      plaintext secret. */
  datatype PasswordHash = PasswordHash(cost: nat, preimage: string)

  function Hash(secret: string): (h: PasswordHash)
    ensures h.cost == SaltRounds
  {
    PasswordHash(SaltRounds, Significant(secret))
  }

  /** `bcrypt.compare`: whether `secret` matches the hash `h`. Only hashes
      made at the fixed work factor from a full 72-character key match. */
  predicate Compare(secret: string, h: PasswordHash)
    ensures Compare(secret, h) ==> h.cost == SaltRounds && |h.preimage| == MaxSecretLength
  {
    h == Hash(secret)
  }

  /** A secret matches its own hash. Another secret matches it exactly when
      the two give the same 72-character key; for two secrets without NUL,
      one of them shorter than 72 characters, that means they are equal. */
  lemma CompareHash(secret: string, other: string)
    ensures Compare(secret, Hash(secret))
    ensures Compare(other, Hash(secret)) <==> Significant(other) == Significant(secret)
    ensures |secret| < MaxSecretLength && NoNul(secret) && NoNul(other) ==>
      (Compare(other, Hash(secret)) <==> other == secret)
  {
    if |secret| < MaxSecretLength && NoNul(secret) && NoNul(other) && Compare(other, Hash(secret)) {
      var a, b := Significant(secret), Significant(other);
      assert a == b;
      assert forall k :: 0 <= k < |secret| ==> other[k] == b[k] == a[k] == secret[k];
    }
  }

  /** The appended NUL lets secrets that contain NUL collide below 72
      characters: "a" and "a\0a" both fill the key with "a\0a\0...". */
  lemma NulCollision()
    ensures "a" + [Nul] + "a" != "a"
    ensures Compare("a" + [Nul] + "a", Hash("a"))
  {
    var longer := "a" + [Nul] + "a";
    forall k | 0 <= k < MaxSecretLength
      ensures Significant(longer)[k] == Significant("a")[k]
    {
      assert (longer + [Nul])[k % 4] == ("a" + [Nul])[k % 2];
    }
  }

  /** Characters after the 72nd do not count: a long secret with anything
      appended still matches the hash of the secret. */
  lemma CompareIgnoresTail(secret: string, extra: string)
    requires |secret| >= MaxSecretLength
    ensures Compare(secret + extra, Hash(secret))
  {
    assert (secret + extra)[..MaxSecretLength] == secret[..MaxSecretLength];
  }

  // ---------------------------------------------------------------------
  // Signed tokens (a JSON Web Token whose one claim is the user id)

  /** Marks text produced by `Sign`; stands for the signature check. */
  const TokenTag := "jwt."

  function Sign(u: UserId): (t: string)
    ensures |t| > |TokenTag|
    ensures NoSpace(t)
  {
    var t := TokenTag + Ids.Show(u);
    assert forall k :: |TokenTag| <= k < |t| ==> t[k] == Ids.Show(u)[k - |TokenTag|];
    t
  }

  /** The user id a token was signed for, or None for a token that fails
      verification. Only the exact text `Sign` produces is accepted. */
  function Verify(t: string): (r: Option<UserId>)
    ensures r.Some? ==> t == Sign(r.value)
  {
    if |t| > |TokenTag| && t[..|TokenTag|] == TokenTag then
      var claim := t[|TokenTag|..];
      assert t == TokenTag + claim;
      match Ids.Parse(claim)
      case Some(u) => if Ids.Show(u) == claim then Some(u) else None
      case None => None
    else
      None
  }

  /** Signing and verifying are inverse: a token verifies to an id exactly
      when it is that id's signed token. */
  lemma VerifySign(t: string, u: UserId)
    ensures Verify(Sign(u)) == Some(u)
    ensures Verify(t) == Some(u) <==> t == Sign(u)
  {
    var s := Sign(u);
    assert s[..|TokenTag|] == TokenTag && s[|TokenTag|..] == Ids.Show(u);
    Ids.ParseShow(u);
    if Verify(t) == Some(u) {
      assert t == t[..|TokenTag|] + t[|TokenTag|..];
    }
  }

  // ---------------------------------------------------------------------
  // The Authorization header

  predicate NoSpace(s: string) {
    forall k :: 0 <= k < |s| ==> s[k] != ' '
  }

  /** Index of the first space of `s`, or `|s|` when there is none. */
  function FirstSpace(s: string): (i: nat)
    ensures i <= |s|
    ensures NoSpace(s[..i])
    ensures i < |s| ==> s[i] == ' '
  {
    if s == [] || s[0] == ' ' then 0 else 1 + FirstSpace(s[1..])
  }

  /** String.prototype.split(" "): the pieces between single spaces, so two
      adjacent spaces give an empty piece and there is always one piece. */
  function Split(s: string): (pieces: seq<string>)
    ensures |pieces| >= 1
    decreases |s|
  {
    var i := FirstSpace(s);
    if i == |s| then [s] else [s[..i]] + Split(s[i + 1..])
  }

  /** Array.prototype.join(" "), the inverse of `Split`. */
  function Join(pieces: seq<string>): string
    requires |pieces| >= 1
  {
    if |pieces| == 1 then pieces[0] else pieces[0] + " " + Join(pieces[1..])
  }

  /** `authHeader && authHeader.split(" ")[1]`, followed by the `!token`
      test: an absent header, a header with no second piece and an empty
      second piece all give no token. The first word is never examined. */
  function TokenOf(authHeader: Option<string>): (token: Option<string>)
    ensures authHeader.None? ==> token.None?
    ensures token.Some? ==> token.value != "" && NoSpace(token.value)
  {
    match authHeader
    case None => None
    case Some(h) =>
      var pieces := Split(h);
      SplitJoin(h);
      if |pieces| >= 2 && pieces[1] != "" then Some(pieces[1]) else None
  }

  /** The middleware: no token is 401, a token that fails verification is
      403, otherwise the request proceeds as the token's user. */
  function Authenticate(authHeader: Option<string>): (r: Result<UserId>)
    ensures r == Err(Unauthorized) <==> TokenOf(authHeader).None?
    ensures r.Err? ==> r.failure == Unauthorized || r.failure == Forbidden
    ensures r.Ok? ==> TokenOf(authHeader) == Some(Sign(r.value))
  {
    match TokenOf(authHeader)
    case None => Err(Unauthorized)
    case Some(t) =>
      match Verify(t)
      case None => Err(Forbidden)
      case Some(u) => Ok(u)
  }

  lemma FirstSpaceOfJoin(w: string, rest: string)
    requires NoSpace(w)
    ensures FirstSpace(w + " " + rest) == |w|
    ensures (w + " " + rest)[|w| + 1..] == rest
  {
    var s := w + " " + rest;
    var i := FirstSpace(s);
    assert s[|w|] == ' ';
    assert s[..|w|] == w;
  }

  lemma NoSpaceIsFirstSpace(s: string)
    requires NoSpace(s)
    ensures FirstSpace(s) == |s|
  {
  }

  /** Split is exact: its pieces hold no space and joining them with single
      spaces gives back the header. */
  lemma {:induction false} SplitJoin(s: string)
    ensures forall k :: 0 <= k < |Split(s)| ==> NoSpace(Split(s)[k])
    ensures Join(Split(s)) == s
    decreases |s|
  {
    var i := FirstSpace(s);
    var pieces := Split(s);
    if i < |s| {
      var tail := s[i + 1..];
      SplitJoin(tail);
      var rest := Split(tail);
      assert pieces == [s[..i]] + rest;
      forall k | 0 <= k < |pieces| ensures NoSpace(pieces[k]) {
        if k > 0 {
          assert pieces[k] == rest[k - 1];
        }
      }
      assert pieces[1..] == rest;
      assert Join(pieces) == s[..i] + " " + Join(rest);
      assert s == s[..i] + " " + tail;
    } else {
      assert s[..i] == s;
    }
  }

  /** The token is the second piece: for a header `w t rest` where `w` and
      `t` hold no space and `rest` is empty or starts at the next space, the
      token is `t`, or there is none when `t` is empty. Every header with a
      space has exactly one such form, whatever its first word is. */
  lemma TokenIsSecondPiece(w: string, t: string, rest: string)
    requires NoSpace(w) && NoSpace(t)
    requires rest == [] || rest[0] == ' '
    ensures TokenOf(Some(w + " " + t + rest)) == if t == [] then None else Some(t)
  {
    var h := w + " " + t + rest;
    assert h == w + " " + (t + rest);
    FirstSpaceOfJoin(w, t + rest);
    var tail := t + rest;
    if rest == [] {
      assert tail == t;
      NoSpaceIsFirstSpace(t);
    } else {
      assert tail == t + " " + rest[1..];
      FirstSpaceOfJoin(t, rest[1..]);
      assert tail[..|t|] == t;
    }
    assert Split(tail)[0] == t;
    assert h[..|w|] == w;
    assert Split(h) == [w] + Split(tail);
    assert Split(h)[1] == t;
  }

  /** A header without a space carries no token, so the request gets 401. */
  lemma NoSpaceNoToken(h: string)
    requires NoSpace(h)
    ensures TokenOf(Some(h)) == None
    ensures Authenticate(Some(h)) == Err(Unauthorized)
  {
    NoSpaceIsFirstSpace(h);
  }

  /** The header a client builds from the token of a successful login
      authenticates as that user. */
  lemma BearerRoundTrip(u: UserId)
    ensures Authenticate(Some("Bearer " + Sign(u))) == Ok(u)
  {
    var t := Sign(u);
    assert "Bearer " + t == "Bearer" + " " + t + [];
    TokenIsSecondPiece("Bearer", t, []);
    VerifySign(t, u);
  }

  /** A request is let through as user `u` only with that user's signed
      token in second position. */
  lemma AuthenticatedMeansSigned(authHeader: Option<string>, u: UserId)
    ensures Authenticate(authHeader) == Ok(u) <==> TokenOf(authHeader) == Some(Sign(u))
  {
    if TokenOf(authHeader).Some? {
      VerifySign(TokenOf(authHeader).value, u);
    }
  }
}
