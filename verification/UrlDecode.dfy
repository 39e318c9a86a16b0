/** Percent-decoding of a request path in place. */
module UrlDecode {
  import opened CText

  /** Bytes are characters below 256; a C string holds no zero. */
  predicate IsByteString(s: string) { forall i :: 0 <= i < |s| ==> s[i] as int < 256 }

  function HexPair(a: char, b: char): (c: char)
    requires IsXDigit(a) && IsXDigit(b)
    ensures c as int < 256
  {
    (16 * HexValue(a) + HexValue(b)) as char
  }

  predicate Escape(s: string) { |s| >= 3 && s[0] == '%' && IsXDigit(s[1]) && IsXDigit(s[2]) }

  /** What the left-to-right scan makes of a string; none at a '%' that no two digits follow. */
  function Decode(s: string): Option<string> {
    if s == "" then Some("")
    else if s[0] != '%' then
      var rest := Decode(s[1..]);
      if rest.Some? then Some([s[0]] + rest.value) else None
    else if Escape(s) then
      var rest := Decode(s[3..]);
      if rest.Some? then Some([HexPair(s[1], s[2])] + rest.value) else None
    else None
  }

  /** e is a percent-encoding of x (section 2.1 of RFC 3986): each byte stands for itself, unless it
      is '%' or zero, or is written as '%' and two hexadecimal digits of either case. */
  predicate Encodes(e: string, x: string)
    decreases |x|
  {
    if x == "" then e == ""
    else
      || (e != "" && e[0] == x[0] && x[0] != '%' && x[0] != '\0' && Encodes(e[1..], x[1..]))
      || (Escape(e) && HexPair(e[1], e[2]) == x[0] && Encodes(e[3..], x[1..]))
  }

  /** Decoding inverts every encoding, and whatever decodes is an encoding of the result. */
  lemma {:induction false} DecodeInvertsEncoding(e: string, x: string)
    requires '\0' !in e
    ensures Encodes(e, x) <==> Decode(e) == Some(x)
    decreases |e|
  {
    if e == "" {
    } else if e[0] != '%' {
      assert '\0' !in e[1..];
      if x != "" {
        DecodeInvertsEncoding(e[1..], x[1..]);
        assert x == [x[0]] + x[1..];
      }
    } else if Escape(e) {
      assert '\0' !in e[3..];
      if x != "" {
        DecodeInvertsEncoding(e[3..], x[1..]);
        assert x == [x[0]] + x[1..];
      }
    }
  }

  /** The encoding with every byte escaped. */
  function EscapeAll(x: string): (e: string)
    requires IsByteString(x)
  {
    if x == "" then ""
    else ['%', LowerHexDigit(x[0] as int / 16), LowerHexDigit(x[0] as int % 16)] + EscapeAll(x[1..])
  }

  /** So every byte string, zero bytes included, has an encoding that is read back. */
  lemma {:induction false} EveryStringIsEncodable(x: string)
    requires IsByteString(x)
    ensures Decode(EscapeAll(x)) == Some(x)
  {
    if x != "" {
      EveryStringIsEncodable(x[1..]);
      var e := EscapeAll(x);
      assert e[3..] == EscapeAll(x[1..]);
      assert x == [x[0]] + x[1..];
    }
  }

  predicate Bad(s: string) { s != "" && s[0] == '%' && !Escape(s) }

  /** The scan meets a '%' without two digits. */
  predicate ReachesBad(s: string) {
    s != "" && (Bad(s) || (if Escape(s) then ReachesBad(s[3..]) else ReachesBad(s[1..])))
  }

  lemma {:induction false} FailsExactlyAtBad(s: string)
    ensures Decode(s).None? <==> ReachesBad(s)
  {
    if s != "" && !Bad(s) {
      if Escape(s) { FailsExactlyAtBad(s[3..]); } else { FailsExactlyAtBad(s[1..]); }
    }
  }

  lemma {:induction false} DecodeShrinks(s: string)
    ensures Decode(s).Some? ==> |Decode(s).value| <= |s|
  {
    if s != "" {
      if Escape(s) { DecodeShrinks(s[3..]); } else { DecodeShrinks(s[1..]); }
    }
  }

  /** After p characters have been read, done is what they decode to. */
  predicate Progress(s: string, p: nat, done: string)
    requires p <= |s|
  {
    Decode(s) == if Decode(s[p..]).Some? then Some(done + Decode(s[p..]).value) else None
  }

  lemma {:induction false} StepLiteral(s: string, p: nat, done: string)
    requires p < |s| && s[p] != '%' && Progress(s, p, done)
    ensures Progress(s, p + 1, done + [s[p]])
  {
    assert s[p..][1..] == s[p + 1..];
    if Decode(s[p + 1..]).Some? {
      assert done + ([s[p]] + Decode(s[p + 1..]).value) == done + [s[p]] + Decode(s[p + 1..]).value;
    }
  }

  lemma {:induction false} StepEscape(s: string, p: nat, done: string)
    requires p + 3 <= |s| && Escape(s[p..]) && Progress(s, p, done)
    ensures Progress(s, p + 3, done + [HexPair(s[p + 1], s[p + 2])])
  {
    assert s[p..][3..] == s[p + 3..];
    var c := HexPair(s[p + 1], s[p + 2]);
    if Decode(s[p + 3..]).Some? {
      assert done + ([c] + Decode(s[p + 3..]).value) == done + [c] + Decode(s[p + 3..]).value;
    }
  }

  /** Writing behind the read position extends what has been written and leaves the rest. */
  method Put(buf: array<char>, out: nat, c: char)
    requires out < buf.Length
    modifies buf
    ensures buf[..out + 1] == old(buf[..out]) + [c]
    ensures forall i :: out < i < buf.Length ==> buf[i] == old(buf[i])
  {
    buf[out] := c;
  }

  /** urldecode: the buffer holds a C string; the write position never passes the read position, so
      unread input is never overwritten. */
  method Urldecode(buf: array<char>) returns (n: int)
    requires '\0' in buf[..]
    modifies buf
    ensures var s := old(buf[..IndexOf(buf[..], '\0')]);
      if Decode(s).Some? then n == |Decode(s).value| < buf.Length && buf[..n] == Decode(s).value && buf[n] == '\0'
      else n == -1
  {
    ghost var len := IndexOf(buf[..], '\0');
    ghost var s := buf[..len];
    var p, out := 0, 0;
    assert Progress(s, 0, buf[..0]) by {
      assert s[0..] == s && buf[..0] == "";
      if Decode(s).Some? { assert "" + Decode(s).value == Decode(s).value; }
    }
    while buf[p] != '\0'
      invariant 0 <= out <= p <= len < buf.Length && |s| == len && forall i :: 0 <= i < len ==> s[i] != '\0'
      invariant buf[len] == '\0' && forall i :: p <= i < len ==> buf[i] == s[i]
      invariant Progress(s, p, buf[..out])
      decreases len - p
    {
      if buf[p] != '%' {
        StepLiteral(s, p, buf[..out]);
        Put(buf, out, buf[p]);
        p := p + 1;
      } else {
        var ok := EscapeAt(buf, p, len);
        assert buf[p..len] == s[p..];
        if !ok {
          assert Bad(s[p..]);
          return -1;
        }
        StepEscape(s, p, buf[..out]);
        Put(buf, out, HexPair(buf[p + 1], buf[p + 2]));
        p := p + 3;
      }
      out := out + 1;
    }
    assert s[p..] == "" && buf[..out] + "" == buf[..out];
    Put(buf, out, '\0');
    assert buf[..out + 1][..out] == buf[..out];
    return out;
  }

  /** The two tests after a '%'; the first fails at the terminator, so nothing beyond it is read. */
  method EscapeAt(buf: array<char>, p: nat, ghost len: nat) returns (ok: bool)
    requires p < len < buf.Length && buf[len] == '\0' && buf[p] == '%' && forall i :: p <= i < len ==> buf[i] != '\0'
    ensures ok <==> Escape(buf[p..len])
    ensures ok ==> p + 3 <= len
  {
    ok := IsXDigit(buf[p + 1]) && IsXDigit(buf[p + 2]);
  }
}
