/**
 * int.TryParse(string, out int) with its default NumberStyles.Integer and the
 * invariant culture: optional white space (U+0009..U+000D, U+0020) at both
 * ends, an optional leading '+' or '-', one or more ASCII digits, and a value
 * that fits in a 32-bit signed int. Anything else fails here; the runtime's
 * tolerance of trailing '\0' characters is not part of this model.
 */
module IntParse {
  import opened Wrappers
  import opened Text

  const Int32Min: int := -0x8000_0000
  const Int32Max: int := 0x7FFF_FFFF

  predicate IsInt32(n: int) {
    Int32Min <= n <= Int32Max
  }

  /** The white space NumberStyles.AllowLeadingWhite/AllowTrailingWhite accept. */
  predicate IsNumberWhiteSpace(c: char) {
    ('\U{9}' <= c <= '\U{D}') || c == ' '
  }

  predicate IsDigit(c: char) {
    '0' <= c <= '9'
  }

  predicate AllDigits(s: string) {
    forall i :: 0 <= i < |s| ==> IsDigit(s[i])
  }

  /** A character that may appear somewhere in a string int.TryParse accepts. */
  predicate IsNumberChar(c: char) {
    IsNumberWhiteSpace(c) || IsDigit(c) || c == '+' || c == '-'
  }

  /** The decimal value of a digit string, most significant digit first. */
  function DigitsValue(d: string): (n: nat)
    requires AllDigits(d)
  {
    if d == [] then 0
    else 10 * DigitsValue(d[..|d| - 1]) + (d[|d| - 1] as int - '0' as int)
  }

  /** The value of an optional sign followed by one or more digits, if `t` is that. */
  function SignedValue(t: string): (r: Option<int>)
    ensures r.Some? ==> forall i :: 0 <= i < |t| ==> IsNumberChar(t[i])
  {
    var signed := |t| > 0 && (t[0] == '-' || t[0] == '+');
    var digits := if signed then t[1..] else t;
    if digits == [] || !AllDigits(digits) then None
    else
      assert forall i :: 0 < i < |t| ==> t[i] == digits[i - 1] || !signed;
      var magnitude: int := DigitsValue(digits);
      Some(if signed && t[0] == '-' then -magnitude else magnitude)
  }

  /** int.TryParse: Some(value) on success, None where it returns false. */
  function TryParseInt(s: string): (r: Option<int>)
    ensures r.Some? ==> IsInt32(r.value)
  {
    match SignedValue(Strip(s, IsNumberWhiteSpace))
    case Some(v) => if IsInt32(v) then Some(v) else None
    case None => None
  }

  /** A plain digit string within range parses to its decimal value. */
  lemma TryParseDigits(d: string)
    requires d != [] && AllDigits(d) && DigitsValue(d) <= Int32Max
    ensures TryParseInt(d) == Some(DigitsValue(d))
  {
    assert Strip(d, IsNumberWhiteSpace) == d;
  }

  /** A string with any character outside the number alphabet, a ':' say, fails to parse. */
  lemma TryParseRejects(s: string, i: int)
    requires 0 <= i < |s| && !IsNumberChar(s[i])
    ensures TryParseInt(s) == None
  {
    StripKeeps(s, IsNumberWhiteSpace);
  }
}
