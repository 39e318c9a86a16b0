/** Serial numbers as the CA database writes, compares and looks them up. */
module Serial {
  import opened CText

  /** The text compared and hashed by the serial index: leading zeros do not count. */
  function StripZeros(s: string): string {
    if s != "" && s[0] == '0' then StripZeros(s[1..]) else s
  }

  /** The pointer scan over leading zeros. */
  method SkipZeros(s: string) returns (k: nat)
    ensures k <= |s| && s[k..] == StripZeros(s)
  {
    k := 0;
    while k < |s| && s[k] == '0'
      invariant k <= |s| && StripZeros(s[k..]) == StripZeros(s)
    {
      assert s[k..][1..] == s[k + 1..];
      k := k + 1;
    }
  }

  /** index_serial_cmp on the serial columns: is strcmp zero after the scans? */
  method IndexSerialCmp(a: string, b: string) returns (same: bool)
    ensures same <==> StripZeros(a) == StripZeros(b)
  {
    var aa := SkipZeros(a);
    var bb := SkipZeros(b);
    same := a[aa..] == b[bb..];
  }

  predicate IsUpperHexDigit(c: char) { '0' <= c <= '9' || 'A' <= c <= 'F' }

  predicate UpperHex(s: string) { forall i :: 0 <= i < |s| ==> IsUpperHexDigit(s[i]) }

  predicate AllHex(s: string) { forall i :: 0 <= i < |s| ==> IsXDigit(s[i]) }

  lemma {:induction false} StripKeepsValue(s: string)
    requires AllHex(s)
    ensures AllHex(StripZeros(s)) && HexNumber(StripZeros(s)) == HexNumber(s)
    ensures StripZeros(s) != "" ==> StripZeros(s)[0] != '0'
    ensures UpperHex(s) ==> UpperHex(StripZeros(s))
  {
    if s != "" && s[0] == '0' {
      StripKeepsValue(s[1..]);
      ZeroHead(s);
    }
  }

  lemma {:induction false} ZeroHead(s: string)
    requires AllHex(s) && s != "" && s[0] == '0'
    ensures HexNumber(s) == HexNumber(s[1..])
  {
    if |s| > 1 {
      var front := s[..|s| - 1];
      ZeroHead(front);
      assert s[1..][..|s| - 2] == front[1..];
    } else {
      assert s[..0] == "" && s[1..] == "";
    }
  }

  lemma {:induction false} NonzeroHead(s: string)
    requires AllHex(s) && s != "" && s[0] != '0'
    ensures HexNumber(s) > 0
  {
    if |s| > 1 {
      NonzeroHead(s[..|s| - 1]);
    } else {
      assert s[..0] == "";
    }
  }

  lemma {:induction false} UpperDigitInjective(c: char, d: char)
    requires IsUpperHexDigit(c) && IsUpperHexDigit(d) && HexValue(c) == HexValue(d)
    ensures c == d
  {
  }

  lemma {:induction false} CanonicalUnique(a: string, b: string)
    requires UpperHex(a) && UpperHex(b) && HexNumber(a) == HexNumber(b)
    requires (a != "" ==> a[0] != '0') && (b != "" ==> b[0] != '0')
    ensures a == b
  {
    if a == "" || b == "" {
      if a != "" { NonzeroHead(a); }
      if b != "" { NonzeroHead(b); }
    } else {
      var x, y := a[..|a| - 1], b[..|b| - 1];
      assert HexNumber(a) == 16 * HexNumber(x) + HexValue(a[|a| - 1]);
      assert HexNumber(b) == 16 * HexNumber(y) + HexValue(b[|b| - 1]);
      CanonicalUnique(x, y);
      UpperDigitInjective(a[|a| - 1], b[|b| - 1]);
      assert a == x + [a[|a| - 1]] && b == y + [b[|b| - 1]];
    }
  }

  /** On upper-case hexadecimal serials the index compares numbers. */
  lemma {:induction false} SameKeySameNumber(a: string, b: string)
    requires UpperHex(a) && UpperHex(b)
    ensures StripZeros(a) == StripZeros(b) <==> HexNumber(a) == HexNumber(b)
  {
    StripKeepsValue(a);
    StripKeepsValue(b);
    if HexNumber(a) == HexNumber(b) { CanonicalUnique(StripZeros(a), StripZeros(b)); }
  }

  lemma {:induction false} StripKeepsCase(s: string)
    ensures UpperHex(s) <==> UpperHex(StripZeros(s))
  {
    if s != "" && s[0] == '0' {
      StripKeepsCase(s[1..]);
      assert UpperHex(s[1..]) ==> forall i :: 0 < i < |s| ==> s[i] == s[1..][i - 1];
    }
  }

  /** What an upper-case key finds among texts of any kind: exactly the upper-case spellings of its
      number.  Lower-case and negative serials are never found by it. */
  lemma {:induction false} SameKeyExactly(key: string, s: string)
    requires UpperHex(key)
    ensures StripZeros(key) == StripZeros(s) <==> UpperHex(s) && HexNumber(s) == HexNumber(key)
  {
    StripKeepsCase(key);
    StripKeepsCase(s);
    if UpperHex(s) { SameKeySameNumber(key, s); }
  }

  /** index_serial_hash for any string hash: equal keys hash equally. */
  function IndexSerialHash(strhash: string -> nat, s: string): nat { strhash(StripZeros(s)) }

  lemma {:induction false} EqualSerialsHashEqually(strhash: string -> nat, a: string, b: string)
    requires UpperHex(a) && UpperHex(b) && HexNumber(a) == HexNumber(b)
    ensures IndexSerialHash(strhash, a) == IndexSerialHash(strhash, b)
  {
    SameKeySameNumber(a, b);
  }

  function UpperHexDigit(v: nat): (c: char)
    requires v < 16
    ensures IsUpperHexDigit(c) && HexValue(c) == v
  {
    if v < 10 then ('0' as int + v) as char else ('A' as int + v - 10) as char
  }

  /** BN_bn2hex on a positive number: whole bytes, no leading zero byte. */
  function HexBytes(n: nat): (s: string)
    ensures UpperHex(s) && |s| % 2 == 0 && (n > 0 ==> |s| >= 2)
  {
    if n == 0 then "" else HexBytes(n / 256) + [UpperHexDigit(n % 256 / 16), UpperHexDigit(n % 16)]
  }

  /** The serial column for a number: BN_bn2hex, except that zero is written with two digits. */
  function SerialText(n: int): (s: string)
    ensures s != ""
  {
    if n == 0 then "00" else if n < 0 then "-" + HexBytes(-n) else HexBytes(n)
  }

  lemma {:induction false} TwoNibbles(n: nat)
    ensures n == 256 * (n / 256) + 16 * (n % 256 / 16) + n % 16
  {
  }

  lemma {:induction false} AppendDigit(s: string, c: char)
    requires AllHex(s) && IsXDigit(c)
    ensures HexNumber(s + [c]) == 16 * HexNumber(s) + HexValue(c)
  {
    assert (s + [c])[..|s|] == s;
  }

  lemma {:induction false} HexBytesValue(n: nat)
    ensures HexNumber(HexBytes(n)) == n
  {
    if n > 0 {
      HexBytesValue(n / 256);
      var front, hi, lo := HexBytes(n / 256), UpperHexDigit(n % 256 / 16), UpperHexDigit(n % 16);
      assert HexBytes(n) == front + [hi] + [lo];
      AppendDigit(front, hi);
      AppendDigit(front + [hi], lo);
      TwoNibbles(n);
    }
  }

  lemma {:induction false} SerialTextValue(n: nat)
    ensures UpperHex(SerialText(n)) && HexNumber(SerialText(n)) == n
  {
    if n == 0 {
      assert "00"[..1] == "0" && "0"[..0] == "";
    } else {
      HexBytesValue(n);
    }
  }

  /** The key under which the CA and the responder look for a number: it finds a serial column if and
      only if that spells the number in upper case. */
  lemma {:induction false} NumberFindsUpperCaseOnly(n: nat, s: string)
    ensures StripZeros(SerialText(n)) == StripZeros(s) <==> UpperHex(s) && HexNumber(s) == n
  {
    SerialTextValue(n);
    SameKeyExactly(SerialText(n), s);
  }

  /** So the same number in lower case is another key. */
  lemma {:induction false} LowerCaseIsAnotherKey(s: string)
    requires AllHex(s)
    ensures StripZeros(SerialText(HexNumber(s))) != StripZeros(s) <==> !UpperHex(s)
  {
    NumberFindsUpperCaseOnly(HexNumber(s), s);
  }

  function Upper(s: string): (r: string)
    ensures |r| == |s| && forall i :: 0 <= i < |s| ==> r[i] == ToUpper(s[i])
  {
    if s == "" then "" else Upper(s[..|s| - 1]) + [ToUpper(s[|s| - 1])]
  }

  /** The key that get_certificate_status builds from what the user typed. */
  function StatusKey(serial: string): string {
    Upper(if |serial| % 2 == 1 then "0" + serial else serial)
  }

  /** get_certificate_status' buffer: room for one more digit, copied, then upper-cased in place. */
  method BuildStatusKey(serial: string) returns (key: string)
    ensures key == StatusKey(serial)
  {
    var shift := |serial| % 2;
    var buf := new char[|serial| + 2](_ => '\0');
    if shift == 1 {
      buf[0] := '0';
    }
    forall i | 0 <= i < |serial| { buf[i + shift] := serial[i]; }
    ghost var text := if shift == 1 then "0" + serial else serial;
    var len := |serial| + shift;
    forall j | 0 <= j < len ensures buf[j] == text[j] {
      if j >= shift { assert buf[(j - shift) + shift] == serial[j - shift]; }
    }
    for i := 0 to len
      invariant forall j :: 0 <= j < len ==> buf[j] == if j < i then ToUpper(text[j]) else text[j]
    {
      buf[i] := ToUpper(buf[i]);
    }
    key := buf[..len];
  }

  lemma {:induction false} UpperValue(s: string)
    requires AllHex(s)
    ensures UpperHex(Upper(s)) && HexNumber(Upper(s)) == HexNumber(s)
  {
    if s != "" {
      UpperValue(s[..|s| - 1]);
      assert Upper(s)[..|s| - 1] == Upper(s[..|s| - 1]);
    }
  }

  /** Any spelling, in any case, of odd or even length, with any leading zeros. */
  lemma {:induction false} StatusKeyValue(serial: string)
    requires AllHex(serial)
    ensures UpperHex(StatusKey(serial)) && HexNumber(StatusKey(serial)) == HexNumber(serial)
  {
    var text := if |serial| % 2 == 1 then "0" + serial else serial;
    if |serial| % 2 == 1 {
      assert text[1..] == serial;
      ZeroHead(text);
    }
    UpperValue(text);
  }
}
