/**
 * ScoreSaver.ParseTimeToSeconds: the displayed time ("m:ss", or whole
 * seconds) turned into the int that orders the leaderboard.
 */
module TimeCodec {
  import opened Wrappers
  import opened Text
  import opened IntParse

  const TwoTo32: int := 0x1_0000_0000

  /** C#'s unchecked int arithmetic: the 32-bit signed value congruent to `x` modulo 2^32. */
  function Wrap32(x: int): (r: int)
    ensures IsInt32(r)
    ensures (x - r) % TwoTo32 == 0
    ensures IsInt32(x) ==> r == x
    decreases if x > Int32Max then x - Int32Max else if x < Int32Min then Int32Min - x else 0
  {
    if x > Int32Max then Wrap32(x - TwoTo32)
    else if x < Int32Min then Wrap32(x + TwoTo32)
    else x
  }

  /** The "m:ss" reading: exactly two ':'-separated pieces that both parse as ints. */
  function MinutesAndSeconds(s: string): Option<int> {
    var parts := Split(s, ':');
    if |parts| != 2 then None
    else
      match (TryParseInt(parts[0]), TryParseInt(parts[1]))
      case (Some(m), Some(x)) => Some(Wrap32(m * 60 + x))
      case _ => None
  }

  /**
   * Blank input gives 0; two ':'-separated integers give minutes * 60 + seconds;
   * otherwise the whole string as an integer; otherwise 0.
   */
  function ParseTimeToSeconds(s: string): (r: int)
    ensures IsInt32(r)
  {
    if IsBlank(s) then 0
    else
      match MinutesAndSeconds(s)
      case Some(v) => v
      case None => TryParseInt(s).GetOr(0)
  }

  /** Without a ':' the time is the whole string read as an integer, or 0; blank input is 0. */
  lemma ParseWithoutColon(s: string)
    requires ':' !in s
    ensures ParseTimeToSeconds(s) == TryParseInt(s).GetOr(0)
    ensures IsBlank(s) ==> ParseTimeToSeconds(s) == 0
  {
    SplitFindsSeparator(s, ':');
    if IsBlank(s) {
      var t := Strip(s, IsNumberWhiteSpace);
      StripKeeps(s, IsNumberWhiteSpace);
      if t != [] {
        assert t[0] in s;
        assert !IsNumberWhiteSpace(t[0]);
      }
    }
  }

  /** With exactly one ':', both sides must parse; then minutes * 60 + seconds (wrapped to 32 bits), else 0. */
  lemma ParseOneColon(a: string, b: string)
    requires ':' !in a && ':' !in b
    ensures ParseTimeToSeconds(a + ":" + b) ==
      if TryParseInt(a).Some? && TryParseInt(b).Some?
      then Wrap32(TryParseInt(a).value * 60 + TryParseInt(b).value)
      else 0
    ensures (TryParseInt(a).Some? && TryParseInt(b).Some? &&
             IsInt32(TryParseInt(a).value * 60 + TryParseInt(b).value)) ==>
      ParseTimeToSeconds(a + ":" + b) == TryParseInt(a).value * 60 + TryParseInt(b).value
  {
    var s := a + ":" + b;
    MinutesAndSecondsAtColon(a, b);
    assert !IsBlank(s) by {
      assert s[|a|] == ':';
    }
    if MinutesAndSeconds(s).None? {
      TryParseRejects(s, |a|);
      assert ParseTimeToSeconds(s) == 0;
    } else {
      assert ParseTimeToSeconds(s) == MinutesAndSeconds(s).value;
    }
  }

  /** The "m:ss" reading of a string with one ':' is defined exactly when both sides parse. */
  lemma MinutesAndSecondsAtColon(a: string, b: string)
    requires ':' !in a && ':' !in b
    ensures MinutesAndSeconds(a + ":" + b) ==
      if TryParseInt(a).Some? && TryParseInt(b).Some?
      then Some(Wrap32(TryParseInt(a).value * 60 + TryParseInt(b).value))
      else None
  {
    SplitAtColon(a, b);
  }

  /** A string with one ':' splits into the text before it and the text after it. */
  lemma SplitAtColon(a: string, b: string)
    requires ':' !in a && ':' !in b
    ensures Split(a + ":" + b, ':') == [a, b]
  {
    assert Join([a, b], ':') == a + ":" + b;
    SplitJoin([a, b], ':');
  }

  /** Two or more ':' always give 0: neither the "m:ss" form nor a plain integer. */
  lemma ParseManyColons(s: string, i: int, j: int)
    requires 0 <= i < j < |s| && s[i] == ':' && s[j] == ':'
    ensures ParseTimeToSeconds(s) == 0
  {
    var parts := Split(s, ':');
    if |parts| == 2 {
      JoinFirstSeparator(parts, ':');
      assert false;
    }
    assert !IsWhiteSpace(s[i]);
    TryParseRejects(s, i);
  }

  /** "1:23" is one minute and 23 seconds: 83. */
  lemma ParseMinutesExample()
    ensures ParseTimeToSeconds("1:23") == 83
  {
    assert DigitsValue("1") == 1;
    assert DigitsValue("23") == 23 by { assert "23"[..1] == "2"; }
    TryParseDigits("1");
    TryParseDigits("23");
    assert "1:23" == "1" + ":" + "23";
    ParseOneColon("1", "23");
  }

  /** A negative minute count is accepted: "-1:30" is -60 + 30. */
  lemma ParseNegativeExample()
    ensures ParseTimeToSeconds("-1:30") == -30
  {
    assert DigitsValue("30") == 30 by { assert "30"[..1] == "3"; }
    TryParseDigits("30");
    assert "-1"[1..] == "1";
    assert DigitsValue("1") == 1;
    assert "-1:30" == "-1" + ":" + "30";
    ParseOneColon("-1", "30");
  }

  /** Whole seconds: "45" is 45. */
  lemma ParseSecondsExample()
    ensures ParseTimeToSeconds("45") == 45
  {
    assert DigitsValue("45") == 45 by { assert "45"[..1] == "4"; }
    TryParseDigits("45");
    ParseWithoutColon("45");
  }

  /** The fallbacks: blank input, text and a second ':' all give 0. */
  lemma ParseZeroExamples()
    ensures ParseTimeToSeconds("") == 0
    ensures ParseTimeToSeconds("abc") == 0
    ensures ParseTimeToSeconds("1:2:3") == 0
  {
    ParseWithoutColon("");
    TryParseRejects("abc", 0);
    ParseWithoutColon("abc");
    ParseManyColons("1:2:3", 1, 3);
  }
}
