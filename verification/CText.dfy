/** C strings as the applications use them: NUL-free character sequences, the hexadecimal and
    decimal conversions of printf, and the library scanners strtoul, strcasecmp and isxdigit. */
module CText {

  datatype Option<+T> = None | Some(value: T)

  predicate IsDigit(c: char) { '0' <= c <= '9' }

  predicate IsSpace(c: char) { c == ' ' || '\t' <= c <= '\r' }

  predicate IsXDigit(c: char) {
    '0' <= c <= '9' || 'a' <= c <= 'f' || 'A' <= c <= 'F'
  }

  /** OPENSSL_hexchar2int on a hexadecimal digit. */
  function HexValue(c: char): (v: nat)
    requires IsXDigit(c)
    ensures v < 16
  {
    if '0' <= c <= '9' then c as int - '0' as int
    else if 'a' <= c <= 'f' then c as int - 'a' as int + 10
    else c as int - 'A' as int + 10
  }

  function LowerHexDigit(v: nat): (c: char)
    requires v < 16
    ensures IsXDigit(c) && HexValue(c) == v
  {
    if v < 10 then ('0' as int + v) as char else ('a' as int + v - 10) as char
  }

  function DecimalDigit(v: nat): (c: char)
    requires v < 10
    ensures IsDigit(c) && c as int - '0' as int == v
  {
    ('0' as int + v) as char
  }

  function ToLower(c: char): char {
    if 'A' <= c <= 'Z' then (c as int + 32) as char else c
  }

  function ToUpper(c: char): char {
    if 'a' <= c <= 'z' then (c as int - 32) as char else c
  }

  /** strcasecmp(a, b) == 0 */
  predicate SameIgnoringCase(a: string, b: string) {
    |a| == |b| && forall i :: 0 <= i < |a| ==> ToLower(a[i]) == ToLower(b[i])
  }

  /** Printing a number with %u or %d (for a value that is not negative). */
  function Decimal(n: nat): (s: string)
    ensures |s| > 0
    ensures forall i :: 0 <= i < |s| ==> IsDigit(s[i])
  {
    if n < 10 then [DecimalDigit(n)] else Decimal(n / 10) + [DecimalDigit(n % 10)]
  }

  function DecimalValue(s: string): (v: nat)
    requires forall i :: 0 <= i < |s| ==> IsDigit(s[i])
  {
    if s == "" then 0
    else
      assert IsDigit(s[|s| - 1]);
      10 * DecimalValue(s[..|s| - 1]) + (s[|s| - 1] as int - '0' as int)
  }

  lemma {:induction false} DecimalRoundTrip(n: nat)
    ensures DecimalValue(Decimal(n)) == n
  {
    if n < 10 {
      assert Decimal(n)[..0] == "";
    } else {
      DecimalRoundTrip(n / 10);
      assert Decimal(n)[..|Decimal(n)| - 1] == Decimal(n / 10);
    }
  }

  /** Number of leading characters of s that are decimal digits. */
  function DigitSpan(s: string): (k: nat)
    ensures k <= |s|
    ensures forall i :: 0 <= i < k ==> IsDigit(s[i])
    ensures k < |s| ==> !IsDigit(s[k])
  {
    if s == "" || !IsDigit(s[0]) then 0 else 1 + DigitSpan(s[1..])
  }

  function SpaceSpan(s: string): (k: nat)
    ensures k <= |s|
    ensures forall i :: 0 <= i < k ==> IsSpace(s[i])
    ensures k < |s| ==> !IsSpace(s[k])
  {
    if s == "" || !IsSpace(s[0]) then 0 else 1 + SpaceSpan(s[1..])
  }

  const ULONG_RANGE: nat := 0x1_0000_0000_0000_0000

  datatype Scan = Scan(value: nat, end: nat)

  /** strtoul(s, &end, 10): white space, an optional sign, digits.  Too large a number gives
      ULONG_MAX; with no digits at all the value is 0 and nothing is consumed. */
  function Strtoul(s: string): (r: Scan)
    ensures r.end <= |s| && r.value < ULONG_RANGE
    ensures forall i :: 0 <= i < r.end ==> IsSpace(s[i]) || s[i] == '+' || s[i] == '-' || IsDigit(s[i])
  {
    var blank := SpaceSpan(s);
    var signed := blank < |s| && (s[blank] == '+' || s[blank] == '-');
    var first := if signed then blank + 1 else blank;
    var digits := DigitSpan(s[first..]);
    if digits == 0 then Scan(0, 0)
    else
      var v := DecimalValue(s[first..][..digits]);
      var value :=
        if v >= ULONG_RANGE then ULONG_RANGE - 1
        else if signed && s[blank] == '-' && v > 0 then ULONG_RANGE - v
        else v;
      Scan(value, first + digits)
  }

  lemma {:induction false} StrtoulDecimal(n: nat)
    requires n < ULONG_RANGE
    ensures Strtoul(Decimal(n)) == Scan(n, |Decimal(n)|)
  {
    var s := Decimal(n);
    assert SpaceSpan(s) == 0;
    assert s[0..] == s;
    assert DigitSpan(s) == |s|;
    assert s[..|s|] == s;
    DecimalRoundTrip(n);
  }

  predicate AllSpace(s: string) { forall i :: 0 <= i < |s| ==> IsSpace(s[i]) }
  predicate AllDigits(s: string) { forall i :: 0 <= i < |s| ==> IsDigit(s[i]) }

  /** The number that strtoul makes of a sign and digits. */
  function SignedValue(sign: string, digits: string): nat
    requires AllDigits(digits)
  {
    var v := DecimalValue(digits);
    if v >= ULONG_RANGE then ULONG_RANGE - 1 else if sign == "-" && v > 0 then ULONG_RANGE - v else v
  }

  predicate IsSign(sign: string) { sign == "" || sign == "+" || sign == "-" }

  lemma {:induction false} SpaceSpanOf(blank: string, rest: string)
    requires AllSpace(blank) && (rest == "" || !IsSpace(rest[0]))
    ensures SpaceSpan(blank + rest) == |blank|
  {
    var s := blank + rest;
    assert forall i :: 0 <= i < |blank| ==> s[i] == blank[i];
    assert |s| > |blank| ==> s[|blank|] == rest[0];
  }

  lemma {:induction false} DigitSpanOf(digits: string, tail: string)
    requires AllDigits(digits) && (tail == "" || !IsDigit(tail[0]))
    ensures DigitSpan(digits + tail) == |digits| && (digits + tail)[..|digits|] == digits
  {
    var s := digits + tail;
    assert forall i :: 0 <= i < |digits| ==> s[i] == digits[i];
    assert |s| > |digits| ==> s[|digits|] == tail[0];
  }

  lemma {:induction false} Joined(blank: string, sign: string, rest: string)
    requires rest != ""
    ensures var s := blank + sign + rest;
      && s == blank + (sign + rest) && s[|blank| + |sign|..] == rest
      && s[|blank|] == (sign + rest)[0] == if sign == "" then rest[0] else sign[0]
  {
    assert blank + sign + rest == blank + (sign + rest);
  }

  lemma {:induction false} SpansOf(blank: string, sign: string, digits: string, rest: string)
    requires AllSpace(blank) && IsSign(sign) && AllDigits(digits) && digits != "" && digits <= rest
    ensures var s := blank + sign + rest;
      && |s| > |blank| && SpaceSpan(s) == |blank| && s[|blank| + |sign|..] == rest
      && if sign == "" then s[|blank|] != '+' && s[|blank|] != '-' else s[|blank|] == sign[0]
  {
    assert rest[0] == digits[0] && IsDigit(rest[0]);
    Joined(blank, sign, rest);
    SpaceSpanOf(blank, sign + rest);
  }

  /** strtoul on blanks, a sign, digits and a tail that does not continue them. */
  lemma {:induction false} StrtoulReads(blank: string, sign: string, digits: string, tail: string)
    requires AllSpace(blank) && IsSign(sign) && AllDigits(digits) && digits != "" && (tail == "" || !IsDigit(tail[0]))
    ensures Strtoul(blank + sign + (digits + tail)) == Scan(SignedValue(sign, digits), |blank| + |sign| + |digits|)
  {
    SpansOf(blank, sign, digits, digits + tail);
    DigitSpanOf(digits, tail);
    StrtoulAt(blank + sign + (digits + tail), |blank|, sign, digits + tail, digits);
  }

  lemma {:induction false} StrtoulAt(s: string, k: nat, sign: string, rest: string, digits: string)
    requires k < |s| && SpaceSpan(s) == k && IsSign(sign) && k + |sign| <= |s| && s[k + |sign|..] == rest
    requires if sign == "" then s[k] != '+' && s[k] != '-' else s[k] == sign[0]
    requires AllDigits(digits) && digits != "" && DigitSpan(rest) == |digits| && rest[..|digits|] == digits
    ensures Strtoul(s) == Scan(SignedValue(sign, digits), k + |sign| + |digits|)
  {
  }

  lemma {:induction false} CutThree(s: string, k: nat, first: nat, n: nat)
    requires k <= first <= first + n <= |s|
    ensures s[..first + n] == s[..k] + s[k..first] + s[first..][..n]
  {
    assert s[first..][..n] == s[first..first + n];
    assert s[..first] == s[..k] + s[k..first];
  }

  lemma {:induction false} StrtoulSpans(s: string) returns (k: nat, first: nat, n: nat)
    ensures k <= first <= first + n <= |s|
    ensures AllSpace(s[..k]) && IsSign(s[k..first]) && AllDigits(s[first..][..n])
    ensures Strtoul(s).end == if n == 0 then 0 else first + n
  {
    k := SpaceSpan(s);
    first := if k < |s| && (s[k] == '+' || s[k] == '-') then k + 1 else k;
    n := DigitSpan(s[first..]);
    assert s[k..first] == if first == k then "" else [s[k]];
  }

  /** Where a scan divides the text. */
  lemma {:induction false} StrtoulParts(s: string) returns (blank: string, sign: string, digits: string)
    ensures AllSpace(blank) && IsSign(sign) && AllDigits(digits) && (digits == "" ==> blank == "" && sign == "")
    ensures s[..Strtoul(s).end] == blank + sign + digits
  {
    var k, first, n := StrtoulSpans(s);
    if n == 0 {
      blank, sign, digits := "", "", "";
    } else {
      blank, sign, digits := s[..k], s[k..first], s[first..][..n];
      CutThree(s, k, first, n);
    }
  }

  /** The hexadecimal digits of printf's %0<width>x for a value below 16^width. */
  function HexFixed(v: nat, width: nat): (s: string)
    ensures |s| == width
    ensures forall i :: 0 <= i < |s| ==> IsXDigit(s[i])
  {
    if width == 0 then "" else HexFixed(v / 16, width - 1) + [LowerHexDigit(v % 16)]
  }

  predicate IsLowerHexDigit(c: char) { '0' <= c <= '9' || 'a' <= c <= 'f' }

  lemma {:induction false} HexFixedLower(v: nat, width: nat)
    ensures forall i :: 0 <= i < width ==> IsLowerHexDigit(HexFixed(v, width)[i])
  {
    if width > 0 { HexFixedLower(v / 16, width - 1); }
  }

  /** The first digit is the most significant. */
  lemma {:induction false} HexDigits(a: nat, b: nat, c: nat, d: nat)
    requires a < 16 && b < 16 && c < 16 && d < 16
    ensures HexFixed(4096 * a + 256 * b + 16 * c + d, 4) == [LowerHexDigit(a), LowerHexDigit(b), LowerHexDigit(c), LowerHexDigit(d)]
  {
    HexDigit(256 * a + 16 * b + c, d, 3);
    HexDigit(16 * a + b, c, 2);
    HexDigit(a, b, 1);
    HexDigit(0, a, 0);
  }

  lemma {:induction false} HexDigit(v: nat, d: nat, width: nat)
    requires d < 16
    ensures HexFixed(16 * v + d, width + 1) == HexFixed(v, width) + [LowerHexDigit(d)]
  {
    assert (16 * v + d) / 16 == v && (16 * v + d) % 16 == d;
  }

  /** No leading zero. */
  lemma {:induction false} DecimalHead(n: nat)
    ensures n > 0 ==> Decimal(n)[0] != '0'
    ensures n < 10 ==> |Decimal(n)| == 1
  {
    if n >= 10 { DecimalHead(n / 10); }
  }

  function Pow16(width: nat): (p: nat)
    ensures p > 0
  {
    if width == 0 then 1 else 16 * Pow16(width - 1)
  }

  /** The value read digit by digit, as handle_symlink accumulates it. */
  function HexNumber(s: string): (v: nat)
    requires forall i :: 0 <= i < |s| ==> IsXDigit(s[i])
  {
    if s == "" then 0 else 16 * HexNumber(s[..|s| - 1]) + HexValue(s[|s| - 1])
  }

  lemma {:induction false} HexNumberBound(s: string)
    requires forall i :: 0 <= i < |s| ==> IsXDigit(s[i])
    ensures HexNumber(s) < Pow16(|s|)
  {
    if s != "" {
      HexNumberBound(s[..|s| - 1]);
    }
  }

  lemma {:induction false} HexFixedRoundTrip(v: nat, width: nat)
    requires v < Pow16(width)
    ensures HexNumber(HexFixed(v, width)) == v
  {
    if width > 0 {
      HexFixedRoundTrip(v / 16, width - 1);
      var s := HexFixed(v, width);
      assert s[..width - 1] == HexFixed(v / 16, width - 1);
    }
  }

  /** Index of the first c in s, or |s|. */
  function IndexOf(s: string, c: char): (k: nat)
    ensures k <= |s|
    ensures forall i :: 0 <= i < k ==> s[i] != c
    ensures k < |s| ==> s[k] == c
  {
    if s == "" || s[0] == c then 0 else 1 + IndexOf(s[1..], c)
  }
}
