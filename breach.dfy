/** The `/api/check-password` route: the SHA-1 hex digest of the candidate
    is split into an upper-cased ten-character prefix and the upper-cased
    rest, sent to a remote leak-check service, and the service's reply is
    read with defaults for missing fields. The digest and the remote service
    are inputs: `remote` maps the payload sent to the reply received, or to
    None when the call fails. */
module Breach {
  import opened Http

  const PrefixLength: nat := 10

  /** String.prototype.toUpperCase on the characters of a hex digest. */
  function UpperChar(c: char): char {
    if 'a' <= c <= 'z' then (c as int - 32) as char else c
  }

  function LowerChar(c: char): char {
    if 'A' <= c <= 'Z' then (c as int + 32) as char else c
  }

  function Upper(s: string): (u: string)
    ensures |u| == |s|
    ensures forall k :: 0 <= k < |s| ==> u[k] == UpperChar(s[k])
  {
    if s == [] then [] else [UpperChar(s[0])] + Upper(s[1..])
  }

  function Lower(s: string): (l: string)
    ensures |l| == |s|
  {
    if s == [] then [] else [LowerChar(s[0])] + Lower(s[1..])
  }

  predicate IsLowerHex(s: string) {
    forall k :: 0 <= k < |s| ==> '0' <= s[k] <= '9' || 'a' <= s[k] <= 'f'
  }

  predicate IsUpperHex(s: string) {
    forall k :: 0 <= k < |s| ==> '0' <= s[k] <= '9' || 'A' <= s[k] <= 'F'
  }

  /** The JSON body sent to the leak-check service. */
  datatype Payload = Payload(hashPrefix: string, hashSuffix: string)

  /** `substring(0, 10)` and `substring(10)` (both clamp to the length of
      the digest), each upper-cased. */
  function BuildPayload(digest: string): (p: Payload)
    ensures |p.hashPrefix| <= PrefixLength
    ensures |p.hashPrefix| + |p.hashSuffix| == |digest|
    ensures |digest| >= PrefixLength ==> |p.hashPrefix| == PrefixLength
  {
    var cut := if |digest| < PrefixLength then |digest| else PrefixLength;
    Payload(Upper(digest[..cut]), Upper(digest[cut..]))
  }

  /** The fields of the service's reply; either may be missing. */
  datatype LeakReply = LeakReply(isLeaked: Option<bool>, breachCount: Option<int>)

  /** The route's answer. */
  datatype Verdict = Verdict(isLeaked: bool, breachCount: int)

  /** `isLeaked || false` and `breachCount || 0`; a count of 0 is falsy
      but defaults to the same 0. */
  function Summarize(reply: LeakReply): (v: Verdict)
    ensures v.isLeaked <==> reply.isLeaked == Some(true)
    ensures reply.breachCount.Some? ==> v.breachCount == reply.breachCount.value
    ensures reply.breachCount.None? ==> v.breachCount == 0
  {
    Verdict(
      match reply.isLeaked case Some(b) => b case None => false,
      match reply.breachCount case Some(n) => n case None => 0)
  }

  /** The whole route, given the digest of the candidate and the service. A
      failed call is answered with 500. */
  function CheckPassword(digest: string, remote: Payload -> Option<LeakReply>): (r: Result<Verdict>)
    ensures r.Err? <==> remote(BuildPayload(digest)).None?
    ensures r.Err? ==> r.failure == Failure(500, "Error checking password")
    ensures r.Ok? ==> r.value == Summarize(remote(BuildPayload(digest)).value)
  {
    match remote(BuildPayload(digest))
    case None => Err(Failure(500, "Error checking password"))
    case Some(reply) => Ok(Summarize(reply))
  }

  lemma {:induction false} UpperAppend(a: string, b: string)
    ensures Upper(a + b) == Upper(a) + Upper(b)
  {
    if a == [] {
      assert a + b == b;
    } else {
      assert (a + b)[0] == a[0] && (a + b)[1..] == a[1..] + b;
      UpperAppend(a[1..], b);
    }
  }

  lemma {:induction false} LowerUpperHex(s: string)
    requires IsLowerHex(s)
    ensures IsUpperHex(Upper(s))
    ensures Lower(Upper(s)) == s
  {
    if s != [] {
      LowerUpperHex(s[1..]);
      assert Upper(s)[1..] == Upper(s[1..]);
    }
  }

  /** The two halves are the upper-cased digest cut after ten characters:
      their concatenation is the whole upper-cased digest, and a 40-digit
      SHA-1 digest gives a 10-character prefix and a 30-character suffix. */
  lemma PayloadSplitsDigest(digest: string)
    ensures BuildPayload(digest).hashPrefix + BuildPayload(digest).hashSuffix == Upper(digest)
    ensures |BuildPayload(digest).hashPrefix| == if |digest| < PrefixLength then |digest| else PrefixLength
    ensures |digest| == 40 ==> |BuildPayload(digest).hashPrefix| == 10 && |BuildPayload(digest).hashSuffix| == 30
  {
    var cut := if |digest| < PrefixLength then |digest| else PrefixLength;
    assert digest == digest[..cut] + digest[cut..];
    UpperAppend(digest[..cut], digest[cut..]);
  }

  /** For a lower-case hex digest both halves are upper-case hex, and the
      service can rebuild the full digest from them: the split hides no
      part of the hash. */
  lemma PayloadRevealsDigest(digest: string)
    requires IsLowerHex(digest)
    ensures IsUpperHex(BuildPayload(digest).hashPrefix) && IsUpperHex(BuildPayload(digest).hashSuffix)
    ensures Lower(BuildPayload(digest).hashPrefix + BuildPayload(digest).hashSuffix) == digest
  {
    var cut := if |digest| < PrefixLength then |digest| else PrefixLength;
    assert IsLowerHex(digest[..cut]) && IsLowerHex(digest[cut..]);
    LowerUpperHex(digest[..cut]);
    LowerUpperHex(digest[cut..]);
    PayloadSplitsDigest(digest);
    LowerUpperHex(digest);
  }
}
