/**
 * The few operations on Python `str` values that the OCR core relies on:
 * `strip()`, `' '.join(...)`, `lower()`, `upper()` and the `{n:03d}` format.
 */
module Text {

  /** Whitespace as Python's `str.isspace` defines it (the code points of
      bidirectional class WS, B or S, or of category Zs). */
  predicate IsSpace(c: char) {
    var n := c as int;
    (0x09 <= n <= 0x0D) || (0x1C <= n <= 0x20) || n == 0x85 || n == 0xA0 || n == 0x1680
    || (0x2000 <= n <= 0x200A) || n == 0x2028 || n == 0x2029 || n == 0x202F || n == 0x205F
    || n == 0x3000
  }

  /** The characters `s[lo..hi]` are all whitespace. */
  predicate SpaceBetween(s: string, lo: nat, hi: nat)
    requires lo <= hi <= |s|
  {
    forall m :: lo <= m < hi ==> IsSpace(s[m])
  }

  /** The first index among the last `n` positions of `s` that does not
      hold whitespace, or `|s|` (the forward scan of `str.strip`, started
      from `n` characters before the end). */
  function FirstNonSpace(s: string, n: nat): (k: nat)
    requires n <= |s|
    ensures |s| - n <= k <= |s|
    ensures SpaceBetween(s, |s| - n, k)
    ensures k < |s| ==> !IsSpace(s[k])
    decreases n
  {
    if n > 0 && IsSpace(s[|s| - n]) then FirstNonSpace(s, n - 1) else |s| - n
  }

  /** One past the last index below `j`, and not below `i`, that does not hold
      whitespace, or `i` (the backward scan of `str.strip`). */
  function EndOfText(s: string, i: nat, j: nat): (k: nat)
    requires i <= j <= |s|
    ensures i <= k <= j
    ensures SpaceBetween(s, k, j)
    ensures k > i ==> !IsSpace(s[k - 1])
    decreases j
  {
    if j > i && IsSpace(s[j - 1]) then EndOfText(s, i, j - 1) else j
  }

  /** `s.strip()`. */
  function Strip(s: string): string {
    var i := FirstNonSpace(s, |s|);
    s[i..EndOfText(s, i, |s|)]
  }

  /** `not s.strip()`: the text is empty once stripped. */
  predicate IsBlank(s: string) {
    Strip(s) == []
  }

  /** Neither the first nor the last character of `s` is whitespace. */
  predicate Trimmed(s: string) {
    s == [] || (!IsSpace(s[0]) && !IsSpace(s[|s| - 1]))
  }

  /** Any split of `s` into whitespace `s[..i]`, a middle part `s[i..j]` that
      neither starts nor ends with whitespace, and whitespace `s[j..]`, has
      `Strip(s)` as its middle part: Strip removes exactly the leading and the
      trailing whitespace, and nothing else. */
  lemma StripUnique(s: string, i: nat, j: nat)
    requires i <= j <= |s|
    requires SpaceBetween(s, 0, i) && SpaceBetween(s, j, |s|)
    requires i < j ==> !IsSpace(s[i]) && !IsSpace(s[j - 1])
    ensures Strip(s) == s[i..j]
  {
    var i' := FirstNonSpace(s, |s|);
    if i == j {
      assert SpaceBetween(s, 0, |s|);
      assert i' == |s|;
    } else {
      assert i' == i;
      var j' := EndOfText(s, i, |s|);
      assert j' == j;
    }
  }

  /** Strip leaves a middle part that neither starts nor ends with
      whitespace, and everything it removes is whitespace. */
  lemma StripSlice(s: string)
    ensures Strip(s) == s[FirstNonSpace(s, |s|)..EndOfText(s, FirstNonSpace(s, |s|), |s|)]
    ensures SpaceBetween(s, 0, FirstNonSpace(s, |s|))
    ensures SpaceBetween(s, EndOfText(s, FirstNonSpace(s, |s|), |s|), |s|)
    ensures Trimmed(Strip(s))
  {
    StripTrimmed(s);
  }

  /** The stripped text neither starts nor ends with whitespace. */
  lemma StripTrimmed(s: string)
    ensures Trimmed(Strip(s))
  {
    var i := FirstNonSpace(s, |s|);
    var j := EndOfText(s, i, |s|);
    var r := s[i..j];
    assert Strip(s) == r;
    if i < j {
      SliceEnds(s, i, j);
      assert !IsSpace(r[0]) && !IsSpace(r[|r| - 1]);
    }
  }

  /** The first and last characters of a non-empty slice. */
  lemma SliceEnds(s: string, i: nat, j: nat)
    requires i < j <= |s|
    ensures s[i..j][0] == s[i] && s[i..j][j - i - 1] == s[j - 1]
  {
  }

  /** A text is blank exactly when every character of it is whitespace. */
  lemma StripOfSpace(s: string)
    ensures IsBlank(s) <==> SpaceBetween(s, 0, |s|)
  {
    var i := FirstNonSpace(s, |s|);
    var j := EndOfText(s, i, |s|);
    if IsBlank(s) {
      assert i == j;
    }
  }

  /** Stripping twice is stripping once. */
  lemma StripIdempotent(s: string)
    ensures Strip(Strip(s)) == Strip(s)
  {
    StripTrimmed(s);
    TrimmedIsStripped(Strip(s));
  }

  /** A text with no whitespace at either end is its own `strip()`. */
  lemma TrimmedIsStripped(r: string)
    requires Trimmed(r)
    ensures Strip(r) == r
  {
    assert SpaceBetween(r, 0, 0) && SpaceBetween(r, |r|, |r|);
    StripUnique(r, 0, |r|);
    assert r[0..|r|] == r;
  }

  /** `' '.join(parts)`. */
  function JoinSpaced(parts: seq<string>): string
  {
    if |parts| == 0 then ""
    else if |parts| == 1 then parts[0]
    else parts[0] + " " + JoinSpaced(parts[1..])
  }

  /** Joining one more part appends a single space and that part. */
  lemma {:induction false} JoinSpacedAppend(parts: seq<string>, p: string)
    ensures JoinSpaced(parts + [p]) == if parts == [] then p else JoinSpaced(parts) + " " + p
  {
    if |parts| > 1 {
      assert (parts + [p])[1..] == parts[1..] + [p];
      JoinSpacedAppend(parts[1..], p);
    } else if |parts| == 1 {
      assert (parts + [p])[1..] == [p];
    }
  }

  function TotalLength(parts: seq<string>): nat
  {
    if parts == [] then 0 else |parts[0]| + TotalLength(parts[1..])
  }

  /** The joined text holds every character of every part plus one separator
      between each two neighbouring parts. */
  lemma {:induction false} JoinSpacedLength(parts: seq<string>)
    requires parts != []
    ensures |JoinSpaced(parts)| == TotalLength(parts) + |parts| - 1
  {
    if |parts| > 1 {
      JoinSpacedLength(parts[1..]);
    }
  }

  /** The joined text is empty exactly when there is no part, or a single
      empty one. */
  lemma JoinSpacedEmpty(parts: seq<string>)
    ensures JoinSpaced(parts) == "" <==> parts == [] || parts == [""]
  {
    if |parts| > 1 {
      assert |JoinSpaced(parts)| >= 1;
    }
  }

  function LowerChar(c: char): char {
    if 'A' <= c <= 'Z' then (c as int - 'A' as int + 'a' as int) as char else c
  }

  function UpperChar(c: char): char {
    if 'a' <= c <= 'z' then (c as int - 'a' as int + 'A' as int) as char else c
  }

  /** `s.lower()` on ASCII letters. */
  function ToLower(s: string): (r: string)
    ensures |r| == |s|
    ensures forall i :: 0 <= i < |s| ==> r[i] == LowerChar(s[i])
  {
    if s == [] then [] else [LowerChar(s[0])] + ToLower(s[1..])
  }

  /** `s.upper()` on ASCII letters. */
  function ToUpper(s: string): (r: string)
    ensures |r| == |s|
    ensures forall i :: 0 <= i < |s| ==> r[i] == UpperChar(s[i])
  {
    if s == [] then [] else [UpperChar(s[0])] + ToUpper(s[1..])
  }

  predicate IsDigit(c: char) {
    '0' <= c <= '9'
  }

  predicate AllDigits(s: string) {
    forall i :: 0 <= i < |s| ==> IsDigit(s[i])
  }

  function DigitChar(d: nat): (c: char)
    requires d < 10
    ensures IsDigit(c) && c as int - '0' as int == d
  {
    ('0' as int + d) as char
  }

  /** The decimal representation of `n`, without leading zeros (`str(n)`). */
  function Digits(n: nat): (r: string)
    ensures |r| >= 1 && AllDigits(r)
    ensures n >= 10 <==> |r| >= 2
    ensures n > 0 ==> r[0] != '0'
    decreases n
  {
    if n < 10 then [DigitChar(n)] else Digits(n / 10) + [DigitChar(n % 10)]
  }

  /** The number a string of decimal digits denotes. */
  function DecimalValue(s: string): nat
    requires AllDigits(s)
  {
    if s == [] then 0 else DecimalValue(s[..|s| - 1]) * 10 + (s[|s| - 1] as int - '0' as int)
  }

  /** Reading back a decimal representation gives the number again. */
  lemma {:induction false} DigitsRoundTrip(n: nat)
    ensures DecimalValue(Digits(n)) == n
    decreases n
  {
    if n >= 10 {
      var d := Digits(n);
      assert d[..|d| - 1] == Digits(n / 10);
      DigitsRoundTrip(n / 10);
    }
  }

  /** `s` padded on the left with zeros to at least `width` characters. */
  function ZeroPad(s: string, width: nat): string
    decreases width - |s|
  {
    if |s| >= width then s else ZeroPad("0" + s, width)
  }

  /** Padding keeps `s` as the tail, adds only zeros in front of it, and stops
      at `width` characters (or at `|s|` when `s` is already that long). */
  lemma {:induction false} ZeroPadSpec(s: string, width: nat)
    ensures var r := ZeroPad(s, width);
            && |r| == (if |s| >= width then |s| else width)
            && r[|r| - |s|..] == s
            && forall i :: 0 <= i < |r| - |s| ==> r[i] == '0'
    decreases width - |s|
  {
    if |s| < width {
      ZeroPadSpec("0" + s, width);
      var r := ZeroPad(s, width);
      assert r[|r| - |s|..] == r[|r| - |s| - 1..][1..];
    }
  }

  /** Leading zeros do not change the value of a decimal numeral. */
  lemma {:induction false} LeadingZeros(z: nat, s: string)
    requires AllDigits(s)
    ensures AllDigits(seq(z, _ => '0') + s)
    ensures DecimalValue(seq(z, _ => '0') + s) == DecimalValue(s)
  {
    var p := seq(z, _ => '0') + s;
    if s == [] {
      assert p == seq(z, _ => '0');
      ZerosValue(z);
    } else {
      assert p[..|p| - 1] == seq(z, _ => '0') + s[..|s| - 1];
      LeadingZeros(z, s[..|s| - 1]);
    }
  }

  lemma {:induction false} ZerosValue(z: nat)
    ensures AllDigits(seq(z, _ => '0'))
    ensures DecimalValue(seq(z, _ => '0')) == 0
  {
    if z > 0 {
      assert seq(z, _ => '0')[..z - 1] == seq(z - 1, _ => '0');
      ZerosValue(z - 1);
    }
  }

  /** `f"{n:03d}"` for a non-negative `n`. */
  function FormatIndex(n: nat): string {
    ZeroPad(Digits(n), 3)
  }

  /** `f"{n:03d}"` is a numeral of at least three digits that reads back as
      `n`; it has exactly three digits when `n < 1000`. */
  lemma FormatIndexRoundTrip(n: nat)
    ensures AllDigits(FormatIndex(n))
    ensures |FormatIndex(n)| >= 3
    ensures n < 1000 ==> |FormatIndex(n)| == 3
    ensures DecimalValue(FormatIndex(n)) == n
    ensures |FormatIndex(n)| == if |Digits(n)| >= 3 then |Digits(n)| else 3
    ensures n >= 100 ==> FormatIndex(n) == Digits(n)
  {
    var d := Digits(n);
    var f := FormatIndex(n);
    var z := |f| - |d|;
    ZeroPadSpec(d, 3);
    PaddedIsZerosThen(d, 3);
    assert f == seq(z, _ => '0') + d;
    LeadingZeros(z, d);
    DigitsRoundTrip(n);
    if n < 1000 {
      DigitsBound(n);
    }
    if n >= 100 {
      DigitsAtLeastThree(n);
    }
  }

  /** Numbers from 100 on have at least three digits. */
  lemma DigitsAtLeastThree(n: nat)
    requires n >= 100
    ensures |Digits(n)| >= 3
  {
    assert Digits(n) == Digits(n / 10) + [DigitChar(n % 10)];
    assert |Digits(n / 10)| >= 2;
  }

  lemma PaddedIsZerosThen(s: string, width: nat)
    ensures var r := ZeroPad(s, width); |s| <= |r| && r == seq(|r| - |s|, _ => '0') + s
  {
    var r := ZeroPad(s, width);
    ZeroPadSpec(s, width);
    var z := |r| - |s|;
    assert r == r[..z] + r[z..];
    assert r[..z] == seq(z, _ => '0');
  }

  lemma {:induction false} DigitsBound(n: nat)
    requires n < 1000
    ensures |Digits(n)| <= 3
  {
    if n >= 10 {
      DigitsBound(n / 10);
      if n / 10 >= 10 {
        assert |Digits(n / 10 / 10)| == 1;
      }
    }
  }
}
