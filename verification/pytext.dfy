/**
 * The few Python text builtins the two scripts rely on, restricted to ASCII:
 * `str.split(sep)` and `int(s)` in base 10, with the whitespace it skips
 * around the number. `str(n)` is modelled only to state the round trip.
 */
module PyText {
  import opened Wrappers

  predicate IsDigit(c: char) {
    '0' <= c <= '9'
  }

  predicate AllDigits(s: string) {
    forall i :: 0 <= i < |s| ==> IsDigit(s[i])
  }

  function DigitValue(c: char): (d: nat)
    requires IsDigit(c)
    ensures d < 10
  {
    (c as int) - ('0' as int)
  }

  function DigitChar(d: nat): (c: char)
    requires d < 10
    ensures IsDigit(c) && DigitValue(c) == d
  {
    (d + '0' as int) as char
  }

  /** The number a string of decimal digits spells, most significant first. */
  function DigitsValue(s: string): nat
    requires AllDigits(s)
  {
    if s == [] then 0 else 10 * DigitsValue(s[..|s| - 1]) + DigitValue(s[|s| - 1])
  }

  /**
   * The ASCII whitespace `int()` skips around a number: space and \t \n \v \f \r.
   * (This is narrower than `str.isspace()`, which also accepts \x1c..\x1f.)
   */
  predicate IsSpace(c: char) {
    c == ' ' || 9 <= c as int <= 13
  }

  /** How many whitespace characters `s` starts with. */
  function LeadingSpaces(s: string): (n: nat)
    ensures n <= |s| && (n == |s| || !IsSpace(s[n]))
    ensures forall i :: 0 <= i < n ==> IsSpace(s[i])
  {
    if s != [] && IsSpace(s[0]) then 1 + LeadingSpaces(s[1..]) else 0
  }

  /** How many whitespace characters `s` ends with. */
  function TrailingSpaces(s: string): (n: nat)
    ensures n <= |s| && (n == |s| || !IsSpace(s[|s| - 1 - n]))
    ensures forall i :: |s| - n <= i < |s| ==> IsSpace(s[i])
  {
    if s != [] && IsSpace(s[|s| - 1]) then 1 + TrailingSpaces(s[..|s| - 1]) else 0
  }

  function TrimLeft(s: string): (r: string)
    ensures |r| <= |s| && r == s[|s| - |r|..]
    ensures r == [] || !IsSpace(r[0])
    ensures forall i :: 0 <= i < |s| - |r| ==> IsSpace(s[i])
  {
    s[LeadingSpaces(s)..]
  }

  function TrimRight(s: string): (r: string)
    ensures |r| <= |s| && r == s[..|r|]
    ensures r == [] || !IsSpace(r[|r| - 1])
    ensures forall i :: |r| <= i < |s| ==> IsSpace(s[i])
  {
    s[..|s| - TrailingSpaces(s)]
  }

  /** The text `int()` converts: its argument without the whitespace around it. */
  function Strip(s: string): string {
    TrimRight(TrimLeft(s))
  }

  /** `Strip(s)` sits in `s` between a whitespace prefix and a whitespace suffix. */
  lemma StripSlice(s: string)
    ensures var lo := |s| - |TrimLeft(s)|;
      && lo + |Strip(s)| <= |s|
      && (forall k :: 0 <= k < |Strip(s)| ==> Strip(s)[k] == s[lo + k])
      && (forall i :: 0 <= i < lo ==> IsSpace(s[i]))
      && (forall i :: lo + |Strip(s)| <= i < |s| ==> IsSpace(s[i]))
  {
    var l := TrimLeft(s);
    var lo := |s| - |l|;
    var t := TrimRight(l);
    forall k | 0 <= k < |t|
      ensures t[k] == s[lo + k]
    {
      assert t[k] == l[k];
    }
    forall i | lo + |t| <= i < |s|
      ensures IsSpace(s[i])
    {
      assert s[i] == l[i - lo];
    }
  }

  /**
   * Python's `int(s)`: surrounding whitespace is ignored, then an optional
   * sign and at least one decimal digit. `None` stands for the `ValueError`
   * that `int` raises on anything else: a string `int` accepts holds only
   * whitespace, digits and signs, ends its number with a digit, and is
   * negative only when it holds a minus sign.
   */
  function ParseInt(s: string): (r: Option<int>)
    ensures r.Some? ==> forall i :: 0 <= i < |s| ==> IsSpace(s[i]) || IsDigit(s[i]) || s[i] == '+' || s[i] == '-'
    ensures r.Some? ==> exists i :: 0 <= i < |s| && IsDigit(s[i])
    ensures r.Some? && r.value < 0 ==> '-' in s
  {
    ParsedCharacters(s);
    ParseSigned(Strip(s))
  }

  /** The characters of a string `int` accepts, read off the slice it converts. */
  lemma ParsedCharacters(s: string)
    ensures var r := ParseSigned(Strip(s));
      && (r.Some? ==> forall i :: 0 <= i < |s| ==> IsSpace(s[i]) || IsDigit(s[i]) || s[i] == '+' || s[i] == '-')
      && (r.Some? ==> exists i :: 0 <= i < |s| && IsDigit(s[i]))
      && (r.Some? && r.value < 0 ==> '-' in s)
  {
    StripSlice(s);
    var lo := |s| - |TrimLeft(s)|;
    var t := Strip(s);
    var r := ParseSigned(t);
    if r.Some? {
      forall i | 0 <= i < |s|
        ensures IsSpace(s[i]) || IsDigit(s[i]) || s[i] == '+' || s[i] == '-'
      {
        if lo <= i < lo + |t| {
          assert s[i] == t[i - lo];
        }
      }
      assert s[lo + |t| - 1] == t[|t| - 1];
      if r.value < 0 {
        assert s[lo] == t[0];
      }
    }
  }

  /**
   * `s` is a spelling `int` reads: whitespace, an optional sign, at least one
   * digit, whitespace.
   */
  predicate IsSpelling(s: string, lead: string, sign: string, digits: string, trail: string) {
    && s == lead + sign + digits + trail
    && (forall i :: 0 <= i < |lead| ==> IsSpace(lead[i]))
    && (forall i :: 0 <= i < |trail| ==> IsSpace(trail[i]))
    && (sign == "" || sign == "+" || sign == "-")
    && digits != [] && AllDigits(digits)
  }

  /** The integer a sign and digits denote. */
  function SpelledValue(sign: string, digits: string): int
    requires AllDigits(digits)
  {
    if sign == "-" then -(DigitsValue(digits) as int) else DigitsValue(digits)
  }

  /** `int` accepts every spelling and returns the value it denotes. */
  lemma ParseIntAccepts(s: string, lead: string, sign: string, digits: string, trail: string)
    requires IsSpelling(s, lead, sign, digits, trail)
    ensures ParseInt(s) == Some(SpelledValue(sign, digits))
  {
    var t := sign + digits;
    assert s == lead + t + trail;
    SignedSpelling(sign, digits);
    StripAround(lead, t, trail);
  }

  /** `int` accepts nothing but spellings, and returns the value the spelling denotes. */
  lemma ParseIntOnlyAccepts(s: string)
    requires ParseInt(s).Some?
    ensures exists lead, sign, digits, trail ::
      IsSpelling(s, lead, sign, digits, trail) && ParseInt(s).value == SpelledValue(sign, digits)
  {
    var lead, t, trail := StripParts(s);
    StripByCounts(s);
    assert ParseInt(s) == ParseSigned(t);
    var sign, digits := SignedParts(t);
    Regroup(lead, sign, digits);
    assert IsSpelling(s, lead, sign, digits, trail);
  }

  /** Padding and a plus sign: `int(" +7 ") == 7`. */
  lemma PaddedPlusExample()
    ensures ParseInt(" +7 ") == Some(7)
  {
    assert " +7 " == " " + "+" + "7" + " ";
    assert DigitsValue("7") == 7;
    ParseIntAccepts(" +7 ", " ", "+", "7", " ");
  }

  /** Leading zeros after a minus sign: `int("-007") == -7`. */
  lemma LeadingZerosExample()
    ensures ParseInt("-007") == Some(-7)
  {
    assert "-007" == "" + "-" + "007" + "";
    assert "007"[..2] == "00" && "00"[..1] == "0";
    assert DigitsValue("007") == 7;
    ParseIntAccepts("-007", "", "-", "007", "");
  }

  /** Inner whitespace is not skipped: `int("5 5")` raises. */
  lemma InnerSpaceExample()
    ensures ParseInt("5 5") == None
  {
    StripUnpadded("5 5");
    assert !IsDigit("5 5"[1]);
    assert ParseSigned("5 5") == ParseDigitString("5 5");
  }

  /** Whitespace around a text that starts and ends with a non-space is exactly what `int` skips. */
  lemma StripAround(lead: string, t: string, trail: string)
    requires forall i :: 0 <= i < |lead| ==> IsSpace(lead[i])
    requires forall i :: 0 <= i < |trail| ==> IsSpace(trail[i])
    requires t != [] && !IsSpace(t[0]) && !IsSpace(t[|t| - 1])
    ensures Strip(lead + t + trail) == t
  {
    assert lead + t + trail == lead + (t + trail);
    assert (t + trail)[0] == t[0];
    TrimLeftDropsPad(lead, t + trail);
    TrimRightDropsPad(t, trail);
  }

  /** A sign and digits, with nothing around them, read as the value they denote. */
  lemma SignedSpelling(sign: string, digits: string)
    requires sign == "" || sign == "+" || sign == "-"
    requires digits != [] && AllDigits(digits)
    ensures var t := sign + digits;
      t != [] && !IsSpace(t[0]) && !IsSpace(t[|t| - 1]) && ParseSigned(t) == Some(SpelledValue(sign, digits))
  {
    var t := sign + digits;
    assert t[|t| - 1] == digits[|digits| - 1];
    if sign == "" {
      assert t == digits;
    } else {
      assert t[0] == sign[0] && t[1..] == digits;
    }
  }

  /** A string is its leading whitespace, the text between, and its trailing whitespace. */
  lemma StripParts(s: string) returns (lead: string, t: string, trail: string)
    ensures var l := s[LeadingSpaces(s)..]; t == l[..|l| - TrailingSpaces(l)]
    ensures s == lead + t + trail
    ensures forall i :: 0 <= i < |lead| ==> IsSpace(lead[i])
    ensures forall i :: 0 <= i < |trail| ==> IsSpace(trail[i])
  {
    var lo := LeadingSpaces(s);
    var l := s[lo..];
    var hi := |l| - TrailingSpaces(l);
    lead, t, trail := s[..lo], l[..hi], l[hi..];
    SpacePrefix(s, lo);
    SpaceSuffix(l, hi);
    Rejoin(s, lo);
    Rejoin(l, hi);
    Regroup(lead, t, trail);
  }

  /** The text `int` converts, in terms of the two counts. */
  lemma StripByCounts(s: string)
    ensures var l := s[LeadingSpaces(s)..]; Strip(s) == l[..|l| - TrailingSpaces(l)]
  {
    var l := TrimLeft(s);
    assert l == s[LeadingSpaces(s)..];
    assert Strip(s) == TrimRight(l);
  }

  lemma Regroup(a: string, b: string, c: string)
    ensures a + (b + c) == a + b + c
  {
  }

  /** Cutting a string at `k` and joining the halves gives it back. */
  lemma Rejoin(s: string, k: nat)
    requires k <= |s|
    ensures s == s[..k] + s[k..]
  {
  }

  lemma SpacePrefix(s: string, n: nat)
    requires n <= |s| && forall i :: 0 <= i < n ==> IsSpace(s[i])
    ensures forall i :: 0 <= i < n ==> IsSpace(s[..n][i])
  {
  }

  lemma SpaceSuffix(s: string, n: nat)
    requires n <= |s| && forall i :: n <= i < |s| ==> IsSpace(s[i])
    ensures forall i :: 0 <= i < |s| - n ==> IsSpace(s[n..][i])
  {
  }

  /** A signed spelling `int` accepts splits into its sign and its digits. */
  lemma SignedParts(t: string) returns (sign: string, digits: string)
    requires ParseSigned(t).Some?
    ensures t == sign + digits
    ensures sign == "" || sign == "+" || sign == "-"
    ensures digits != [] && AllDigits(digits)
    ensures ParseSigned(t).value == SpelledValue(sign, digits)
  {
    sign := if t[0] == '+' || t[0] == '-' then t[..1] else [];
    digits := t[|sign|..];
    assert t == sign + digits;
    if sign != [] {
      assert t[1..] == digits;
      assert sign == [t[0]];
    } else {
      assert t == digits;
    }
  }

  /** Leading whitespace before a body that starts with a non-space is exactly what `int` skips. */
  lemma {:induction false} TrimLeftDropsPad(pad: string, body: string)
    requires forall i :: 0 <= i < |pad| ==> IsSpace(pad[i])
    requires body != [] && !IsSpace(body[0])
    ensures LeadingSpaces(pad + body) == |pad|
    ensures TrimLeft(pad + body) == body
  {
    var s := pad + body;
    if pad != [] {
      assert s[1..] == pad[1..] + body;
      TrimLeftDropsPad(pad[1..], body);
    } else {
      assert s == body;
    }
    assert s[|pad|..] == body;
  }

  /** `int("\x1c5")` raises: the information separators are not whitespace to `int`. */
  lemma SeparatorIsNotSkipped()
    ensures ParseInt([28 as char, '5']) == None
  {
  }

  /** An optional sign followed by digits, with nothing around them. */
  function ParseSigned(t: string): (r: Option<int>)
    ensures r.Some? ==> t != [] && IsDigit(t[|t| - 1])
    ensures r.Some? ==> forall i :: 0 <= i < |t| ==> IsDigit(t[i]) || (i == 0 && (t[0] == '+' || t[0] == '-'))
    ensures r.Some? && r.value < 0 ==> t[0] == '-'
  {
    if t != [] && (t[0] == '+' || t[0] == '-') then
      match ParseDigitString(t[1..])
      case Some(magnitude) => Some(if t[0] == '-' then -magnitude else magnitude)
      case None => None
    else ParseDigitString(t)
  }

  /** A non-empty run of digits, with nothing else. */
  function ParseDigitString(d: string): Option<int> {
    if d != [] && AllDigits(d) then Some(DigitsValue(d)) else None
  }

  /** Decimal spelling of a natural number, without leading zeros. */
  function FormatNat(n: nat): (s: string)
    ensures s != [] && AllDigits(s)
  {
    if n < 10 then [DigitChar(n)] else FormatNat(n / 10) + [DigitChar(n % 10)]
  }

  /** Decimal spelling of an integer, as Python's `str(n)` writes it. */
  function FormatInt(n: int): (s: string)
    ensures s != [] && IsDigit(s[|s| - 1])
    ensures s[0] == '-' <==> n < 0
    ensures n >= 0 ==> IsDigit(s[0])
  {
    if n < 0 then "-" + FormatNat(-n) else FormatNat(n)
  }

  lemma {:induction false} FormatNatValue(n: nat)
    ensures DigitsValue(FormatNat(n)) == n
  {
    var s := FormatNat(n);
    if n >= 10 {
      FormatNatValue(n / 10);
      assert s[..|s| - 1] == FormatNat(n / 10);
    }
  }

  /** `int(str(n)) == n` for every integer. */
  lemma ParseFormatRoundTrip(n: int)
    ensures ParseInt(FormatInt(n)) == Some(n)
  {
    var s := FormatInt(n);
    StripUnpadded(s);
    SignedFormatRoundTrip(n);
  }

  /** Without the surrounding whitespace, the sign and digits of `str(n)` read back as `n`. */
  lemma SignedFormatRoundTrip(n: int)
    ensures ParseSigned(FormatInt(n)) == Some(n)
  {
    var s := FormatInt(n);
    var digits := FormatNat(if n < 0 then -n else n);
    FormatNatValue(if n < 0 then -n else n);
    assert ParseDigitString(digits) == Some(if n < 0 then -n else n);
    if n < 0 {
      assert s[1..] == digits;
    }
  }

  /** A string that neither starts nor ends with whitespace is what `int` converts. */
  lemma StripUnpadded(s: string)
    requires s != [] && !IsSpace(s[0]) && !IsSpace(s[|s| - 1])
    ensures Strip(s) == s
  {
    assert TrimLeft(s) == s;
  }

  /** A string of digits followed by whitespace parses as the number the digits spell. */
  lemma ParseDigitsWithTrailingSpace(digits: string, pad: string)
    requires digits != [] && AllDigits(digits)
    requires forall i :: 0 <= i < |pad| ==> IsSpace(pad[i])
    ensures ParseInt(digits + pad) == Some(DigitsValue(digits))
  {
    var s := digits + pad;
    assert s[0] == digits[0] && !IsSpace(s[0]);
    assert TrimLeft(s) == s;
    TrimRightDropsPad(digits, pad);
    assert Strip(s) == digits;
    assert digits[0] != '+' && digits[0] != '-';
    assert ParseSigned(digits) == ParseDigitString(digits);
  }

  lemma {:induction false} TrimRightDropsPad(body: string, pad: string)
    requires body != [] && !IsSpace(body[|body| - 1])
    requires forall i :: 0 <= i < |pad| ==> IsSpace(pad[i])
    ensures TrailingSpaces(body + pad) == |pad|
    ensures TrimRight(body + pad) == body
  {
    var s := body + pad;
    if pad == [] {
      assert s == body;
    } else {
      assert s[..|s| - 1] == body + pad[..|pad| - 1];
      TrimRightDropsPad(body, pad[..|pad| - 1]);
    }
    assert s[..|body|] == body;
  }

  /** A string of digits parses as the number it spells. */
  lemma ParseDigits(digits: string)
    requires digits != [] && AllDigits(digits)
    ensures ParseInt(digits) == Some(DigitsValue(digits))
  {
    assert !IsSpace(digits[0]) && !IsSpace(digits[|digits| - 1]);
    assert TrimLeft(digits) == digits;
    assert TrimRight(digits) == digits;
    assert digits[0] != '+' && digits[0] != '-';
  }

  /** A two-digit string denotes ten times its first digit plus its second. */
  lemma TwoDigitsValue(s: string)
    requires |s| == 2 && AllDigits(s)
    ensures DigitsValue(s) == 10 * DigitValue(s[0]) + DigitValue(s[1])
  {
    var first := s[..1];
    assert first == [s[0]] && first[..0] == [];
    assert DigitsValue(first) == DigitValue(s[0]);
  }

  /**
   * Python's `s.split(sep)`: the maximal separator-free pieces, in order,
   * including empty ones (`"".split(':') == [""]`).
   */
  function Split(s: string, sep: char): (parts: seq<string>)
    ensures |parts| >= 1
    ensures Join(parts, sep) == s
    ensures forall k :: 0 <= k < |parts| ==> sep !in parts[k]
  {
    if s == [] then [[]]
    else
      var rest := Split(s[1..], sep);
      if s[0] == sep then [[]] + rest
      else [[s[0]] + rest[0]] + rest[1..]
  }

  /** Python's `sep.join(parts)`; it undoes `Split`, and `SplitJoin` shows `Split` undoes it. */
  function Join(parts: seq<string>, sep: char): string
    requires |parts| >= 1
  {
    if |parts| == 1 then parts[0] else parts[0] + [sep] + Join(parts[1..], sep)
  }

  /** Text up to the first separator becomes the first piece; the rest splits on its own. */
  lemma {:induction false} SplitAfterPiece(a: string, rest: string, sep: char)
    requires sep !in a
    ensures Split(a + [sep] + rest, sep) == [a] + Split(rest, sep)
  {
    var s := a + [sep] + rest;
    if a == [] {
      assert s[1..] == rest;
    } else {
      assert s[1..] == a[1..] + [sep] + rest;
      SplitAfterPiece(a[1..], rest, sep);
      assert [a[0]] + a[1..] == a;
    }
  }

  /** A string with exactly one separator splits into the text before and after it. */
  lemma SplitAtSingleSeparator(a: string, b: string, sep: char)
    requires sep !in a && sep !in b
    ensures Split(a + [sep] + b, sep) == [a, b]
  {
    SplitAfterPiece(a, b, sep);
    SplitWithoutSeparator(b, sep);
  }

  /** Splitting a join of separator-free pieces gives back the pieces. */
  lemma {:induction false} SplitJoin(parts: seq<string>, sep: char)
    requires |parts| >= 1
    requires forall k :: 0 <= k < |parts| ==> sep !in parts[k]
    ensures Split(Join(parts, sep), sep) == parts
  {
    if |parts| == 1 {
      SplitWithoutSeparator(parts[0], sep);
    } else {
      SplitJoin(parts[1..], sep);
      SplitAfterPiece(parts[0], Join(parts[1..], sep), sep);
      assert [parts[0]] + parts[1..] == parts;
    }
  }

  /** `s[i]` is the only separator in `s`. */
  predicate SoleSeparatorAt(s: string, sep: char, i: int) {
    0 <= i < |s| && s[i] == sep && sep !in s[..i] && sep !in s[i + 1..]
  }

  /** `s.split(sep)` has two pieces exactly when `s` holds one separator, and they are the text around it. */
  lemma SplitInTwo(s: string, sep: char)
    ensures |Split(s, sep)| == 2 <==> exists i :: SoleSeparatorAt(s, sep, i)
    ensures forall i :: SoleSeparatorAt(s, sep, i) ==> Split(s, sep) == [s[..i], s[i + 1..]]
  {
    forall i | SoleSeparatorAt(s, sep, i)
      ensures Split(s, sep) == [s[..i], s[i + 1..]]
    {
      assert s == s[..i] + [sep] + s[i + 1..];
      SplitAtSingleSeparator(s[..i], s[i + 1..], sep);
    }
    var parts := Split(s, sep);
    if |parts| == 2 {
      var i := |parts[0]|;
      assert Join(parts[1..], sep) == parts[1];
      assert s == parts[0] + [sep] + parts[1];
      assert s[..i] == parts[0] && s[i + 1..] == parts[1];
      assert SoleSeparatorAt(s, sep, i);
    }
  }

  /** A string without the separator splits into itself alone. */
  lemma {:induction false} SplitWithoutSeparator(s: string, sep: char)
    requires sep !in s
    ensures Split(s, sep) == [s]
  {
    if s != [] {
      SplitWithoutSeparator(s[1..], sep);
      assert [s[0]] + s[1..] == s;
    }
  }
}
