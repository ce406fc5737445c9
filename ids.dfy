/** Record identifiers and their textual form.

    The persistence engine gives every user and every saved entry a
    system-assigned identifier; routes see it as text (`_id.toString()`,
    the `:passwordId` path parameter, the token claim). Identifiers are
    modelled as natural numbers written in decimal. What matters for the
    store is that the textual form is injective, which follows from the
    round trip `Parse(Show(n)) == Some(n)`. */
module Ids {
  import opened Http

  predicate IsDigit(c: char) {
    '0' <= c <= '9'
  }

  predicate AllDigits(s: string) {
    forall k :: 0 <= k < |s| ==> IsDigit(s[k])
  }

  function DigitChar(d: nat): (c: char)
    requires d < 10
    ensures IsDigit(c)
  {
    ('0' as int + d) as char
  }

  function DigitValue(c: char): (d: nat)
    requires IsDigit(c)
    ensures d < 10
  {
    c as int - '0' as int
  }

  /** The decimal text of an identifier, most significant digit first. */
  function Show(n: nat): (s: string)
    ensures s != [] && AllDigits(s)
  {
    if n < 10 then [DigitChar(n)] else Show(n / 10) + [DigitChar(n % 10)]
  }

  /** The number a non-empty string of digits denotes. */
  function Value(s: string): nat
    requires AllDigits(s)
  {
    if s == [] then 0 else 10 * Value(s[..|s| - 1]) + DigitValue(s[|s| - 1])
  }

  /** Reads an identifier back from its text; anything but digits is refused. */
  function Parse(s: string): (r: Option<nat>)
    ensures r.Some? <==> s != [] && AllDigits(s)
  {
    if s != [] && AllDigits(s) then Some(Value(s)) else None
  }

  lemma {:induction false} ValueShow(n: nat)
    ensures Value(Show(n)) == n
  {
    if n >= 10 {
      var s := Show(n);
      assert s[..|s| - 1] == Show(n / 10);
      ValueShow(n / 10);
    }
  }

  /** Rendering an identifier and reading it back gives the identifier. */
  lemma ParseShow(n: nat)
    ensures Parse(Show(n)) == Some(n)
  {
    ValueShow(n);
  }

  /** Two identifiers have the same text only if they are the same. */
  lemma ShowInjective(n: nat, m: nat)
    ensures Show(n) == Show(m) <==> n == m
  {
    ParseShow(n);
    ParseShow(m);
  }
}
