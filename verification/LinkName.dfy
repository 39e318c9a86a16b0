/** The names of hash links, as rehash prints them ("%08x.%s%d") and reads them back. */
module LinkName {
  import opened CText

  datatype Kind = Cert | Crl

  /** The bucket a link belongs to. */
  datatype Key = Key(kind: Kind, hash: nat) {
    predicate Valid() { hash < 0x1_0000_0000 }
  }

  datatype Parsed = Parsed(key: Key, id: nat)

  function Suffix(kind: Kind): string { if kind.Cert? then "" else "r" }

  function Print(key: Key, id: nat): string {
    HexFixed(key.hash, 8) + "." + Suffix(key.kind) + Decimal(id)
  }

  predicate HexPrefix(name: string) {
    |name| >= 8 && forall i :: 0 <= i < 8 ==> IsXDigit(name[i])
  }

  /** What follows the '.', without the optional suffix letter in either case. */
  function IdText(name: string): string
    requires |name| > 8
  {
    if |name| > 9 && ToLower(name[9]) == 'r' then name[10..] else name[9..]
  }

  function Parse(name: string): (r: Option<Parsed>)
    ensures r.Some? ==> r.value.key.Valid() && r.value.id < 65536
  {
    if !HexPrefix(name) || |name| == 8 || name[8] != '.' then None
    else
      var kind := if |name| > 9 && ToLower(name[9]) == 'r' then Crl else Cert;
      var scan := Strtoul(IdText(name));
      if scan.end != |IdText(name)| then None
      else
        HexWord(name[..8]);
        Some(Parsed(Key(kind, HexNumber(name[..8])), scan.value % 65536))
  }

  lemma {:induction false} Pow16Eight()
    ensures Pow16(8) == 0x1_0000_0000
  {
    assert Pow16(2) == 256;
    assert Pow16(4) == 0x1_0000;
    assert Pow16(6) == 0x100_0000;
  }

  lemma {:induction false} HexWord(s: string)
    requires |s| == 8 && forall i :: 0 <= i < 8 ==> IsXDigit(s[i])
    ensures HexNumber(s) < 0x1_0000_0000
  {
    HexNumberBound(s);
    Pow16Eight();
  }

  /** Where the parts of a printed name are. */
  lemma {:induction false} PrintParts(key: Key, id: nat)
    ensures var name := Print(key, id);
      && HexPrefix(name) && |name| > 9 && name[8] == '.' && name[..8] == HexFixed(key.hash, 8)
      && IdText(name) == Decimal(id) && (ToLower(name[9]) == 'r' <==> key.kind.Crl?)
  {
    var name, tail := Print(key, id), Suffix(key.kind) + Decimal(id);
    assert name == HexFixed(key.hash, 8) + ("." + tail);
    assert name[9..] == tail;
    assert name[9] == tail[0];
    if key.kind.Cert? {
      assert tail == Decimal(id) && IsDigit(tail[0]);
    } else {
      assert tail[1..] == Decimal(id) == name[10..];
    }
  }

  /** What a printed name looks like: the hash in eight lower-case hexadecimal digits, a dot, an r for
      a CRL, and the number in decimal without leading zeros. */
  lemma {:induction false} PrintText(key: Key, id: nat) returns (h: string, d: string)
    requires key.Valid()
    ensures Print(key, id) == h + "." + (if key.kind.Crl? then "r" else "") + d
    ensures |h| == 8 && (forall i :: 0 <= i < |h| ==> IsXDigit(h[i]) && IsLowerHexDigit(h[i])) && HexNumber(h) == key.hash
    ensures d != "" && AllDigits(d) && (id > 0 ==> d[0] != '0') && (id == 0 ==> |d| == 1) && DecimalValue(d) == id
  {
    h, d := HexFixed(key.hash, 8), Decimal(id);
    HexFixedLower(key.hash, 8);
    Pow16Eight();
    HexFixedRoundTrip(key.hash, 8);
    DecimalRoundTrip(id);
    DecimalHead(id);
  }

  /** Every printed name is read back to the bucket and the number it was printed for. */
  lemma {:induction false} ParseInvertsPrint(key: Key, id: nat)
    requires key.Valid() && id < 65536
    ensures Parse(Print(key, id)) == Some(Parsed(key, id))
  {
    PrintParts(key, id);
    Pow16Eight();
    HexFixedRoundTrip(key.hash, 8);
    StrtoulDecimal(id);
    ParseParts(Print(key, id), key, id);
  }

  lemma {:induction false} ParseParts(name: string, key: Key, id: nat)
    requires HexPrefix(name) && |name| > 9 && name[8] == '.' && HexNumber(name[..8]) == key.hash && id < 65536
    requires (ToLower(name[9]) == 'r' <==> key.kind.Crl?) && Strtoul(IdText(name)) == Scan(id, |IdText(name)|)
    ensures Parse(name) == Some(Parsed(key, id))
  {
  }

  /** The texts of a link name: eight hexadecimal digits, a dot, an optional r in either case, and
      what strtoul reads as a number, or nothing. */
  predicate LinkText(h: string, letter: string, blank: string, sign: string, digits: string) {
    && |h| == 8 && (forall i :: 0 <= i < 8 ==> IsXDigit(h[i])) && (letter == "" || letter == "r" || letter == "R")
    && AllSpace(blank) && IsSign(sign) && AllDigits(digits) && (digits == "" ==> blank == "" && sign == "")
  }

  lemma {:induction false} LinkTextParts(h: string, letter: string, number: string)
    requires |h| == 8 && (forall i :: 0 <= i < 8 ==> IsXDigit(h[i])) && (letter == "" || letter == "r" || letter == "R")
    requires number == "" || ToLower(number[0]) != 'r'
    ensures var name := h + "." + letter + number;
      && HexPrefix(name) && |name| > 8 && name[8] == '.' && name[..8] == h && IdText(name) == number
      && (|name| > 9 && ToLower(name[9]) == 'r' <==> letter != "")
  {
    var name := h + "." + letter + number;
    assert name == h + ("." + (letter + number));
    assert name[9..] == letter + number;
    assert forall i :: 0 <= i < 8 ==> name[i] == h[i];
    if letter == "" {
      assert letter + number == number;
      if number != "" { assert name[9] == number[0]; }
    } else {
      assert name[9] == letter[0];
      assert name[10..] == number;
    }
  }

  /** What such a name means, however it is spelled. */
  lemma {:induction false} LinkTextMeans(h: string, letter: string, blank: string, sign: string, digits: string)
    requires LinkText(h, letter, blank, sign, digits)
    ensures Parse(h + "." + letter + (blank + sign + digits))
         == Some(Parsed(Key(if letter == "" then Cert else Crl, HexNumber(h)), SignedValue(sign, digits) % 65536))
  {
    var number := blank + sign + digits;
    NumberText(blank, sign, digits);
    LinkTextParts(h, letter, number);
    ParseText(h + "." + letter + number, h, number, letter != "", SignedValue(sign, digits));
  }

  lemma {:induction false} NumberText(blank: string, sign: string, digits: string)
    requires AllSpace(blank) && IsSign(sign) && AllDigits(digits) && (digits == "" ==> blank == "" && sign == "")
    ensures var number := blank + sign + digits;
      Strtoul(number) == Scan(SignedValue(sign, digits), |number|) && (number == "" || ToLower(number[0]) != 'r')
  {
    var number := blank + sign + digits;
    if digits != "" {
      StrtoulReads(blank, sign, digits, "");
      assert digits + "" == digits;
      assert number[0] == if blank != "" then blank[0] else if sign != "" then sign[0] else digits[0];
    } else {
      assert number == "" && Strtoul("") == Scan(0, 0);
    }
  }

  lemma {:induction false} ParseText(name: string, h: string, number: string, crl: bool, v: nat)
    requires HexPrefix(name) && |name| > 8 && name[8] == '.' && name[..8] == h && IdText(name) == number
    requires (|name| > 9 && ToLower(name[9]) == 'r' <==> crl) && Strtoul(number) == Scan(v, |number|)
    ensures Parse(name) == Some(Parsed(Key(if crl then Crl else Cert, HexNumber(h)), v % 65536))
  {
  }

  lemma {:induction false} NameParts(name: string) returns (h: string, letter: string)
    requires HexPrefix(name) && |name| > 8 && name[8] == '.'
    ensures h == name[..8] && (letter == "" || letter == "r" || letter == "R") && name == h + "." + letter + IdText(name)
  {
    h := name[..8];
    assert name == h + "." + name[9..];
    if |name| > 9 && ToLower(name[9]) == 'r' {
      letter := [name[9]];
      assert name[9..] == letter + name[10..];
    } else {
      letter := "";
      assert letter + name[9..] == name[9..];
    }
  }

  /** And no other name is read. */
  lemma {:induction false} LinkTextOnly(name: string) returns (h: string, letter: string, blank: string, sign: string, digits: string)
    requires Parse(name).Some?
    ensures LinkText(h, letter, blank, sign, digits) && name == h + "." + letter + (blank + sign + digits)
  {
    var number := IdText(name);
    h, letter := NameParts(name);
    blank, sign, digits := StrtoulParts(number);
    assert number[..|number|] == number;
  }

  /** Printed names differ for different buckets or numbers, whatever their size. */
  lemma {:induction false} PrintInjective(k: Key, i: nat, k': Key, i': nat)
    requires k.Valid() && k'.Valid() && Print(k, i) == Print(k', i')
    ensures k == k' && i == i'
  {
    PrintParts(k, i);
    PrintParts(k', i');
    Pow16Eight();
    HexFixedRoundTrip(k.hash, 8);
    HexFixedRoundTrip(k'.hash, 8);
    DecimalRoundTrip(i);
    DecimalRoundTrip(i');
  }

  /** handle_symlink up to the readlink call; the hash is a 32-bit accumulator. */
  method ReadName(filename: string) returns (r: Option<Parsed>)
    ensures r == Parse(filename)
  {
    var hash: nat := 0;
    var i := 0;
    while i < 8
      invariant 0 <= i <= 8 && i <= |filename|
      invariant forall j :: 0 <= j < i ==> IsXDigit(filename[j])
      invariant hash == HexNumber(filename[..i]) < 0x1_0000_0000
    {
      if i == |filename| || !IsXDigit(filename[i]) {
        return None;
      }
      assert filename[..i + 1][..i] == filename[..i];
      HexNumberBound(filename[..i + 1]);
      Pow16Mono(i + 1, 8);
      Pow16Eight();
      hash := (hash * 16) % 0x1_0000_0000;
      hash := hash + HexValue(filename[i]);
      i := i + 1;
    }
    if i == |filename| || filename[i] != '.' {
      return None;
    }
    var kind := Cert;
    var at := i + 1;
    if at < |filename| && ToLower(filename[at]) == 'r' {
      kind, at := Crl, at + 1;
    }
    var scan := Strtoul(filename[at..]);
    if scan.end != |filename[at..]| {
      return None;
    }
    return Some(Parsed(Key(kind, hash), scan.value % 65536));
  }

  lemma {:induction false} Pow16Mono(i: nat, j: nat)
    requires i <= j
    ensures Pow16(i) <= Pow16(j)
    decreases j - i
  {
    if i < j { Pow16Mono(i, j - 1); }
  }

  /** strrchr: position of the last c, or |s|. */
  function LastIndexOf(s: string, c: char): (k: nat)
    ensures k <= |s|
    ensures k < |s| ==> s[k] == c && forall i :: k < i < |s| ==> s[i] != c
    ensures k == |s| ==> c !in s
  {
    if s == "" then 0
    else if s[|s| - 1] == c then |s| - 1
    else
      var k := LastIndexOf(s[..|s| - 1], c);
      if k == |s| - 1 then |s| else k
  }

  /** Files that do_file opens: those ending in .pem, .crt, .cer or .crl in any case. */
  predicate HasCertExtension(name: string) {
    var k := LastIndexOf(name, '.');
    && k < |name|
    && exists e :: e in ["pem", "crt", "cer", "crl"] && SameIgnoringCase(e, name[k + 1..])
  }

  /** Which files that is: the last dot is followed by one of the four extensions. */
  lemma {:induction false} ExtensionIff(base: string, ext: string)
    requires '.' !in ext
    ensures HasCertExtension(base + "." + ext) <==>
      || SameIgnoringCase("pem", ext) || SameIgnoringCase("crt", ext)
      || SameIgnoringCase("cer", ext) || SameIgnoringCase("crl", ext)
  {
    var name := base + "." + ext;
    assert name[|base|] == '.' && forall i :: |base| < i < |name| ==> name[i] == ext[i - |base| - 1];
    assert LastIndexOf(name, '.') == |base|;
    assert name[|base| + 1..] == ext;
    FourExtensions(ext);
  }

  lemma {:induction false} FourExtensions(ext: string)
    ensures (exists e :: e in ["pem", "crt", "cer", "crl"] && SameIgnoringCase(e, ext)) <==>
      || SameIgnoringCase("pem", ext) || SameIgnoringCase("crt", ext)
      || SameIgnoringCase("cer", ext) || SameIgnoringCase("crl", ext)
  {
    assert "pem" in ["pem", "crt", "cer", "crl"] && "crt" in ["pem", "crt", "cer", "crl"];
    assert "cer" in ["pem", "crt", "cer", "crl"] && "crl" in ["pem", "crt", "cer", "crl"];
  }

  lemma {:induction false} NoDotNoExtension(name: string)
    requires '.' !in name
    ensures !HasCertExtension(name)
  {
    assert LastIndexOf(name, '.') == |name|;
  }

  /** What follows the dot of a hash link: no further dot, and no letter but an r at its start. */
  lemma {:induction false} LinkTail(name: string)
    requires Parse(name).Some?
    ensures |name| > 8 && name[8] == '.'
    ensures forall i :: 9 <= i < |name| ==> name[i] != '.' && ToLower(name[i]) != 'p' && ToLower(name[i]) != 'c'
  {
    var rest := IdText(name);
    var at := |name| - |rest|;
    forall i | at <= i < |name| ensures name[i] != '.' && ToLower(name[i]) != 'p' && ToLower(name[i]) != 'c' {
      assert name[i] == rest[i - at];
    }
    assert at == 10 ==> ToLower(name[9]) == 'r';
  }

  /** No name is both a hash link and a certificate file. */
  lemma {:induction false} LinkNamesAreNotFiles(name: string)
    requires Parse(name).Some?
    ensures !HasCertExtension(name)
  {
    LinkTail(name);
    NoExtension(name);
  }

  lemma {:induction false} NoExtension(name: string)
    requires |name| > 8 && name[8] == '.'
    requires forall i :: 9 <= i < |name| ==> name[i] != '.' && ToLower(name[i]) != 'p' && ToLower(name[i]) != 'c'
    ensures !HasCertExtension(name)
  {
    assert LastIndexOf(name, '.') == 8;
    forall e | e in ["pem", "crt", "cer", "crl"] ensures !SameIgnoringCase(e, name[9..]) {
      assert ToLower(e[0]) == 'p' || ToLower(e[0]) == 'c';
      assert |name[9..]| > 0 ==> name[9..][0] == name[9];
    }
  }
}
