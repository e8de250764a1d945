/** The text handling the date decoder relies on: `bytes.decode("ASCII")`,
    slicing with Python's clamped bounds, and `int(str)` in base 10. */
module Text {
  import opened Wrappers
  import opened BigEndian

  /** Python's `s[lo:hi]` for non-negative bounds: each bound is clamped to
      the length, and a slice whose end is before its start is empty. */
  function Slice<T>(s: seq<T>, lo: nat, hi: nat): (r: seq<T>)
    ensures |r| == if hi <= lo || lo >= |s| then 0 else (if hi <= |s| then hi else |s|) - lo
    ensures forall i :: 0 <= i < |r| ==> r[i] == s[lo + i]
  {
    var start := if lo <= |s| then lo else |s|;
    var end := if hi <= |s| then hi else |s|;
    if end <= start then [] else s[start..end]
  }

  /** `bytes.decode("ASCII")`: fails on any byte of 0x80 or above. */
  function Ascii(bytes: seq<Byte>): (r: Option<string>)
    ensures r.Some? <==> forall i :: 0 <= i < |bytes| ==> bytes[i] < 0x80
    ensures r.Some? ==> |r.value| == |bytes|
    ensures r.Some? ==> forall i :: 0 <= i < |bytes| ==> r.value[i] as int == bytes[i]
  {
    if |bytes| == 0 then Some([])
    else if bytes[0] >= 0x80 then None
    else
      var rest :- Ascii(bytes[1..]);
      Some([bytes[0] as char] + rest)
  }

  /** The ASCII whitespace `int()` skips around a number: tab, line feed,
      vertical tab, form feed, carriage return and space. */
  predicate IsSpace(c: char) {
    '\t' <= c <= '\r' || c == ' '
  }

  predicate IsDigit(c: char) {
    '0' <= c <= '9'
  }

  function DigitValue(c: char): (v: nat)
    requires IsDigit(c)
    ensures v < 10
  {
    c as int - '0' as int
  }

  function DigitChar(v: nat): (c: char)
    requires v < 10
    ensures IsDigit(c) && DigitValue(c) == v
  {
    ('0' as int + v) as char
  }

  predicate AllDigits(s: string) {
    forall i :: 0 <= i < |s| ==> IsDigit(s[i])
  }

  /** `s` without its leading whitespace. */
  function StripLeading(s: string): (t: string)
    ensures |t| <= |s|
  {
    if |s| > 0 && IsSpace(s[0]) then StripLeading(s[1..]) else s
  }

  /** `s` without its trailing whitespace. */
  function StripTrailing(s: string): (t: string)
    ensures |t| <= |s|
  {
    if |s| > 0 && IsSpace(s[|s| - 1]) then StripTrailing(s[..|s| - 1]) else s
  }

  /** The digit groups `int()` accepts after the sign: digits, with single
      underscores allowed between two digits. */
  predicate DigitGroups(s: string) {
    && |s| > 0 && IsDigit(s[0]) && IsDigit(s[|s| - 1])
    && forall i :: 0 <= i < |s| ==> GroupChar(s, i)
  }

  /** Character `i` of `s` is a digit, or an underscore followed by a digit. */
  predicate GroupChar(s: string, i: nat)
    requires i < |s|
  {
    IsDigit(s[i]) || (s[i] == '_' && i + 1 < |s| && IsDigit(s[i + 1]))
  }

  lemma GroupsAreDigits(s: string)
    requires DigitGroups(s)
    ensures forall i :: 0 <= i < |s| ==> IsDigit(s[i]) || s[i] == '_'
  {
    forall i | 0 <= i < |s|
      ensures IsDigit(s[i]) || s[i] == '_'
    {
      assert GroupChar(s, i);
    }
  }

  /** Digit strings are digit groups. */
  lemma DigitsAreGroups(s: string)
    requires |s| > 0 && AllDigits(s)
    ensures DigitGroups(s)
  {
    forall i | 0 <= i < |s|
      ensures GroupChar(s, i)
    {
    }
  }

  /** The digits of `s`, underscores dropped. */
  function DigitsOf(s: string): (d: string)
    ensures |d| <= |s|
    ensures (forall i :: 0 <= i < |s| ==> IsDigit(s[i]) || s[i] == '_') ==> AllDigits(d)
    ensures AllDigits(s) ==> d == s
  {
    if |s| == 0 then []
    else if s[0] == '_' then DigitsOf(s[1..])
    else [s[0]] + DigitsOf(s[1..])
  }

  function Pow10(k: nat): (p: nat)
    ensures p >= 1
  {
    if k == 0 then 1 else 10 * Pow10(k - 1)
  }

  /** The value of a decimal digit string, most significant digit first. */
  function DecimalValue(s: string): (v: nat)
    requires AllDigits(s)
    ensures v < Pow10(|s|)
  {
    if |s| == 0 then 0 else DecimalValue(s[..|s| - 1]) * 10 + DigitValue(s[|s| - 1])
  }

  /** Python's `int(s)` for a string `s`: surrounding whitespace is
      skipped, one optional `+` or `-` sign may lead, and the rest must be
      digit groups; anything else raises `ValueError`. */
  function ParseInt(s: string): (r: Option<int>)
  {
    ParseNumber(StripTrailing(StripLeading(s)))
  }

  /** `int()` on text with no surrounding whitespace. */
  function ParseNumber(t: string): (r: Option<int>)
  {
    var signed := |t| > 0 && (t[0] == '+' || t[0] == '-');
    var body := if signed then t[1..] else t;
    if !DigitGroups(body) then None
    else
      GroupsAreDigits(body);
      var magnitude: int := DecimalValue(DigitsOf(body));
      Some(if signed && t[0] == '-' then -magnitude else magnitude)
  }

  /** Text that neither starts nor ends with whitespace is not stripped. */
  lemma NothingToStrip(s: string)
    requires |s| > 0 && !IsSpace(s[0]) && !IsSpace(s[|s| - 1])
    ensures StripTrailing(StripLeading(s)) == s
  {
    assert StripLeading(s) == s;
  }

  /** A digit string without a sign is read as its decimal value. */
  lemma ParseNumberOfDigits(body: string)
    requires |body| > 0 && AllDigits(body)
    ensures ParseNumber(body) == Some(DecimalValue(body))
  {
    DigitsAreGroups(body);
  }

  /** A sign followed by a digit string is read as the signed decimal value. */
  lemma ParseNumberOfSignedDigits(sign: char, body: string)
    requires sign == '-' || sign == '+'
    requires |body| > 0 && AllDigits(body)
    ensures ParseNumber([sign] + body)
      == Some(if sign == '-' then -(DecimalValue(body) as int) else DecimalValue(body))
  {
    var t := [sign] + body;
    assert t[0] == sign && t[1..] == body;
    DigitsAreGroups(body);
    assert DigitsOf(body) == body;
  }

  /** The two-character decimal form of `v`, zero-padded. */
  function TwoDigits(v: nat): (s: string)
    requires v < 100
    ensures |s| == 2 && AllDigits(s)
  {
    [DigitChar(v / 10), DigitChar(v % 10)]
  }

  /** A string of two digits is read as its decimal value. */
  lemma ParseTwoDigits(s: string)
    requires |s| == 2 && AllDigits(s)
    ensures ParseInt(s) == Some(10 * DigitValue(s[0]) + DigitValue(s[1]))
  {
    NothingToStrip(s);
    ParseNumberOfDigits(s);
    assert s[..1] == [s[0]];
    assert [s[0]][..0] == [];
    assert DecimalValue(s[..1]) == DigitValue(s[0]);
  }

  /** `int()` reads back the zero-padded two-digit form of every value below 100. */
  lemma ParseIntOfTwoDigits(v: nat)
    requires v < 100
    ensures ParseInt(TwoDigits(v)) == Some(v)
  {
    var s := TwoDigits(v);
    assert DigitValue(s[0]) == v / 10 && DigitValue(s[1]) == v % 10;
    ParseTwoDigits(s);
  }

  /** Any string of at most two characters that `int()` accepts denotes a
      value in [-9, 99]: two digits, or one digit with a sign or whitespace. */
  lemma ShortIntRange(s: string)
    requires |s| <= 2
    ensures ParseInt(s).Some? ==> -9 <= ParseInt(s).value <= 99
  {
    var t := StripTrailing(StripLeading(s));
    var signed := |t| > 0 && (t[0] == '+' || t[0] == '-');
    var body := if signed then t[1..] else t;
    if DigitGroups(body) {
      var d := DigitsOf(body);
      if signed {
        assert |d| <= 1;
        assert Pow10(1) == 10;
      } else {
        assert |d| <= 2;
        assert Pow10(2) == 100;
      }
    }
  }

  /** A one-digit string is read as its digit. */
  lemma ParseOneDigit(digit: char)
    requires IsDigit(digit)
    ensures ParseInt([digit]) == Some(DigitValue(digit))
  {
    NothingToStrip([digit]);
    ParseNumberOfDigits([digit]);
    assert [digit][..0] == [];
  }

  /** `int()` skips whitespace before a digit. */
  lemma ParseSpacedDigit(space: char, digit: char)
    requires IsSpace(space) && IsDigit(digit)
    ensures ParseInt([space, digit]) == Some(DigitValue(digit))
  {
    assert [space, digit][1..] == [digit];
    assert StripLeading([space, digit]) == StripLeading([digit]);
    ParseOneDigit(digit);
  }

  /** `int()` accepts a leading sign before a digit. */
  lemma ParseSignedDigit(sign: char, digit: char)
    requires (sign == '-' || sign == '+') && IsDigit(digit)
    ensures ParseInt([sign, digit])
      == Some(if sign == '-' then -(DigitValue(digit) as int) else DigitValue(digit))
  {
    NothingToStrip([sign, digit]);
    assert [sign, digit] == [sign] + [digit];
    ParseNumberOfSignedDigits(sign, [digit]);
    assert [digit][..0] == [];
  }

  /** `int()` rejects a field that is empty or all whitespace. */
  lemma ParseRejectsBlank(s: string)
    requires forall i :: 0 <= i < |s| ==> IsSpace(s[i])
    ensures ParseInt(s) == None
  {
    StripBlank(s);
  }

  /** `int()` reads whitespace, an optional sign, a digit string and more
      whitespace as the signed decimal value of the digits. */
  lemma ParseIntOfPadded(lead: string, sign: string, digits: string, trail: string)
    requires forall i :: 0 <= i < |lead| ==> IsSpace(lead[i])
    requires forall i :: 0 <= i < |trail| ==> IsSpace(trail[i])
    requires sign == "" || sign == "+" || sign == "-"
    requires |digits| > 0 && AllDigits(digits)
    ensures ParseInt(lead + (sign + digits) + trail)
      == Some(if sign == "-" then -(DecimalValue(digits) as int) else DecimalValue(digits))
  {
    var core := sign + digits;
    assert core[|core| - 1] == digits[|digits| - 1];
    StripPadding(lead, core, trail);
    if sign == "" {
      assert core == digits;
      ParseNumberOfDigits(digits);
    } else {
      assert core == [sign[0]] + digits;
      ParseNumberOfSignedDigits(sign[0], digits);
    }
  }

  /** Whitespace around a text that neither starts nor ends with whitespace
      is stripped, and nothing else. */
  lemma StripPadding(lead: string, core: string, trail: string)
    requires forall i :: 0 <= i < |lead| ==> IsSpace(lead[i])
    requires forall i :: 0 <= i < |trail| ==> IsSpace(trail[i])
    requires |core| > 0 && !IsSpace(core[0]) && !IsSpace(core[|core| - 1])
    ensures StripTrailing(StripLeading(lead + core + trail)) == core
  {
    assert lead + core + trail == lead + (core + trail);
    assert (core + trail)[0] == core[0];
    StripLeadingSpaces(lead, core + trail);
    StripTrailingSpaces(core, trail);
  }

  lemma {:induction false} StripLeadingSpaces(lead: string, t: string)
    requires forall i :: 0 <= i < |lead| ==> IsSpace(lead[i])
    requires |t| > 0 && !IsSpace(t[0])
    ensures StripLeading(lead + t) == t
    decreases |lead|
  {
    if |lead| > 0 {
      assert (lead + t)[1..] == lead[1..] + t;
      StripLeadingSpaces(lead[1..], t);
    } else {
      assert lead + t == t;
    }
  }

  lemma {:induction false} StripTrailingSpaces(t: string, trail: string)
    requires forall i :: 0 <= i < |trail| ==> IsSpace(trail[i])
    requires |t| > 0 && !IsSpace(t[|t| - 1])
    ensures StripTrailing(t + trail) == t
    decreases |trail|
  {
    if |trail| > 0 {
      var u := t + trail;
      assert u[..|u| - 1] == t + trail[..|trail| - 1];
      StripTrailingSpaces(t, trail[..|trail| - 1]);
    } else {
      assert t + trail == t;
    }
  }

  lemma {:induction false} StripBlank(s: string)
    requires forall i :: 0 <= i < |s| ==> IsSpace(s[i])
    ensures StripLeading(s) == []
  {
    if |s| > 0 {
      StripBlank(s[1..]);
    }
  }
}
