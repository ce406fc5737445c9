/** The `/api/generate-password` route: a loop that appends one character
    of a fixed alphabet per position. The random draw
    `Math.floor(Math.random() * charset.length)` is an oracle `pick` that
    supplies, for the i-th draw, an index into the alphabet. */
module Generator {

  /** The 74 characters a generated password is drawn from. */
  const Charset: string := "abcdefghijklmnopqrstuvwxyzABCDEFGHIJKLMNOPQRSTUVWXYZ0123456789!@#$%^&*()_+"

  const DefaultLength: int := 16

  /** What `parseInt` makes of the `length` query parameter: not a number,
      or an integer (possibly zero or negative). */
  datatype ParsedInt = NaN | Int(value: int)

  /** `parseInt(req.query.length) || 16`: NaN and 0 are falsy. */
  function RequestedLength(q: ParsedInt): (n: int)
    ensures n != 0
    ensures q.Int? && q.value != 0 ==> n == q.value
  {
    if q == NaN || q == Int(0) then DefaultLength else q.value
  }

  method GeneratePassword(q: ParsedInt, pick: nat -> nat) returns (password: string)
    requires forall i :: pick(i) < |Charset|
    ensures q == NaN || q == Int(0) ==> |password| == DefaultLength
    ensures q.Int? && q.value > 0 ==> |password| == q.value
    ensures q.Int? && q.value < 0 ==> password == ""
    ensures forall k :: 0 <= k < |password| ==> password[k] == Charset[pick(k)]
    ensures forall k :: 0 <= k < |password| ==> password[k] in Charset
  {
    var length := RequestedLength(q);
    password := "";
    var i := 0;
    while i < length
      invariant 0 <= i && (length >= 0 ==> i <= length) && (length < 0 ==> i == 0)
      invariant |password| == i
      invariant forall k :: 0 <= k < i ==> password[k] == Charset[pick(k)]
    {
      var randomIndex := pick(i);
      password := password + [Charset[randomIndex]];
      i := i + 1;
    }
  }
}
