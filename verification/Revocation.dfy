/** The revocation column of the CA database: revtime[,reason[,extra]], written by
    make_revocation_str and read by unpack_revinfo. */
module Revocation {
  import opened CText
  import opened SeqFacts

  /** What the ASN.1 library accepts; its code is a parameter of the model. */
  datatype Library = Library(
    isUtcTime: string -> bool,
    isGeneralizedTime: string -> bool,
    isObjectId: string -> bool,
    isTime: string -> bool)

  datatype RevType = RevValid | RevNone | RevCrlReason | RevHold | RevKeyCompromise | RevCaCompromise

  function CrlReasons(): (r: seq<string>)
    ensures |r| == 11
  {
    ["unspecified", "keyCompromise", "CACompromise", "affiliationChanged", "superseded",
     "cessationOfOperation", "certificateHold", "removeFromCRL",
     "holdInstruction", "keyTime", "CAkeyTime"]
  }

  /** Position of a reason among the first n, ignoring case; n without one. */
  function FindReason(text: string, n: nat): (k: nat)
    requires n <= 11
    ensures k <= n
    ensures k < n ==> SameIgnoringCase(text, CrlReasons()[k])
    ensures forall i :: 0 <= i < k ==> !SameIgnoringCase(text, CrlReasons()[i])
  {
    if n == 0 then 0
    else
      var k := FindReason(text, n - 1);
      if k < n - 1 || SameIgnoringCase(text, CrlReasons()[n - 1]) then k else n
  }

  datatype Parts = Parts(reason: Option<string>, other: Option<string>)

  /** The switch on the revocation type: what to write after the time, or a refusal. */
  function ChooseParts(lib: Library, revType: RevType, arg: string): Option<Parts> {
    match revType
    case RevValid => Some(Parts(None, None))
    case RevNone => Some(Parts(None, None))
    case RevCrlReason =>
      var k := FindReason(arg, 8);
      if k == 8 then None else Some(Parts(Some(CrlReasons()[k]), None))
    case RevHold =>
      if lib.isObjectId(arg) then Some(Parts(Some("holdInstruction"), Some(arg))) else None
    case RevKeyCompromise =>
      if lib.isGeneralizedTime(arg) then Some(Parts(Some("keyTime"), Some(arg))) else None
    case RevCaCompromise =>
      if lib.isGeneralizedTime(arg) then Some(Parts(Some("CAkeyTime"), Some(arg))) else None
  }

  function PartText(part: Option<string>): string { if part.Some? then "," + part.value else "" }

  function Assemble(now: string, p: Parts): string {
    now + PartText(p.reason) + PartText(p.other)
  }

  function MakeRevocation(lib: Library, now: string, revType: RevType, arg: string): Option<string> {
    var p := ChooseParts(lib, revType, arg);
    if p.None? then None else Some(Assemble(now, p.value))
  }

  /** What unpack_revinfo hands back; reason -1 stands for none. */
  datatype RevInfo = RevInfo(time: string, reason: int, hold: Option<string>, invalidity: Option<string>)

  /** The three pieces that the two calls of strchr cut out. */
  datatype Cut = Cut(time: string, reason: Option<string>, arg: Option<string>)

  function CutAtCommas(s: string): Cut {
    var p := IndexOf(s, ',');
    if p == |s| then Cut(s, None, None)
    else
      var rest := s[p + 1..];
      var q := IndexOf(rest, ',');
      if q == |rest| then Cut(s[..p], Some(rest), None)
      else Cut(s[..p], Some(rest[..q]), Some(rest[q + 1..]))
  }

  /** What the switch makes of the reason at position k with its argument. */
  function Decode(lib: Library, time: string, k: nat, arg: Option<string>): Option<RevInfo> {
    if k >= 11 then None
    else if k < 7 then Some(RevInfo(time, k, None, None))
    else if k == 7 then Some(RevInfo(time, 8, None, None))
    else if k == 8 then
      if arg.Some? && lib.isObjectId(arg.value) then Some(RevInfo(time, 6, arg, None)) else None
    else if arg.Some? && lib.isGeneralizedTime(arg.value) then
      Some(RevInfo(time, if k == 9 then 1 else 2, None, arg))
    else None
  }

  function Unpack(lib: Library, s: string): Option<RevInfo> {
    var c := CutAtCommas(s);
    if !lib.isUtcTime(c.time) then None
    else if c.reason.None? then Some(RevInfo(c.time, -1, None, None))
    else Decode(lib, c.time, FindReason(c.reason.value, 11), c.arg)
  }

  /** The CRLReason numbers of section 5.3.1 of RFC 5280, by name. */
  function RfcNumber(name: string): int {
    if SameIgnoringCase(name, "unspecified") then 0
    else if SameIgnoringCase(name, "keyCompromise") then 1
    else if SameIgnoringCase(name, "cACompromise") then 2
    else if SameIgnoringCase(name, "affiliationChanged") then 3
    else if SameIgnoringCase(name, "superseded") then 4
    else if SameIgnoringCase(name, "cessationOfOperation") then 5
    else if SameIgnoringCase(name, "certificateHold") then 6
    else if SameIgnoringCase(name, "removeFromCRL") then 8
    else -1
  }

  /** What a revocation request means to those who read the database. */
  function Meaning(now: string, revType: RevType, arg: string): RevInfo {
    match revType
    case RevValid => RevInfo(now, -1, None, None)
    case RevNone => RevInfo(now, -1, None, None)
    case RevCrlReason => RevInfo(now, RfcNumber(arg), None, None)
    case RevHold => RevInfo(now, RfcNumber("certificateHold"), Some(arg), None)
    case RevKeyCompromise => RevInfo(now, RfcNumber("keyCompromise"), None, Some(arg))
    case RevCaCompromise => RevInfo(now, RfcNumber("cACompromise"), None, Some(arg))
  }

  predicate NoComma(s: string) { ',' !in s }

  lemma {:induction false} CutOnce(a: string, b: string)
    requires NoComma(a)
    ensures var s := a + "," + b; IndexOf(s, ',') == |a| && s[..|a|] == a && s[|a| + 1..] == b
    ensures IndexOf(a, ',') == |a|
  {
    var s := a + "," + b;
    assert s[|a|] == ',' && forall i :: 0 <= i < |a| ==> s[i] == a[i];
  }

  lemma {:induction false} CutTwice(a: string, b: string, c: string)
    requires NoComma(a) && NoComma(b)
    ensures CutAtCommas(a + ("," + b) + ("," + c)) == Cut(a, Some(b), Some(c))
  {
    CommaRegroup(a, b, c);
    CutOnce(a, b + "," + c);
    CutOnce(b, c);
  }

  lemma {:induction false} CommaRegroup(a: string, b: string, c: string)
    ensures a + ("," + b) + ("," + c) == a + "," + (b + "," + c)
  {
  }

  lemma {:induction false} CutPair(a: string, b: string)
    requires NoComma(a) && NoComma(b)
    ensures CutAtCommas(a + ("," + b) + "") == Cut(a, Some(b), None)
  {
    assert a + ("," + b) + "" == a + "," + b;
    CutOnce(a, b);
    CutOnce(b, "");
  }

  lemma {:induction false} CutAlone(a: string)
    requires NoComma(a)
    ensures CutAtCommas(a + "" + "") == Cut(a, None, None)
  {
    assert a + "" + "" == a;
    CutOnce(a, "");
  }

  lemma {:induction false} CutAssembled(now: string, p: Parts)
    requires NoComma(now) && (p.other.Some? ==> p.reason.Some?) && (p.reason.Some? ==> NoComma(p.reason.value))
    ensures CutAtCommas(Assemble(now, p)) == Cut(now, p.reason, p.other)
  {
    if p.reason.None? {
      CutAlone(now);
    } else if p.other.None? {
      CutPair(now, p.reason.value);
    } else {
      CutTwice(now, p.reason.value, p.other.value);
    }
  }

  /** The reason words differ from each other in length or in their first letter. */
  lemma {:induction false} ReasonsDiffer(i: nat, j: nat)
    requires i < 11 && j < 11 && i != j
    ensures !SameIgnoringCase(CrlReasons()[i], CrlReasons()[j])
    ensures forall s :: SameIgnoringCase(s, CrlReasons()[i]) ==> !SameIgnoringCase(s, CrlReasons()[j])
  {
    var a, b := CrlReasons()[i], CrlReasons()[j];
    assert |a| != |b| || ToLower(a[0]) != ToLower(b[0]);
  }

  lemma {:induction false} FindOwnReason(k: nat, n: nat)
    requires k < n <= 11
    ensures FindReason(CrlReasons()[k], n) == k
  {
    forall i | 0 <= i < n && i != k ensures !SameIgnoringCase(CrlReasons()[k], CrlReasons()[i]) {
      ReasonsDiffer(k, i);
    }
    assert SameIgnoringCase(CrlReasons()[k], CrlReasons()[k]);
  }

  predicate IsLetter(c: char) { 'a' <= c <= 'z' || 'A' <= c <= 'Z' }

  predicate Word(s: string) { forall i :: 0 <= i < |s| ==> IsLetter(s[i]) }

  lemma {:induction false} ReasonsAreWords(k: nat)
    requires k < 11
    ensures Word(CrlReasons()[k])
  {
    if k > 5 {
      LaterReasonsAreWords(k);
      return;
    }
    match k
    case 0 => assert Word("unspecified");
    case 1 => assert Word("keyCompromise");
    case 2 => assert Word("CACompromise");
    case 3 => assert Word("affiliationChanged");
    case 4 => assert Word("superseded");
    case 5 => assert Word("cessationOfOperation");
  }

  lemma {:induction false} LaterReasonsAreWords(k: nat)
    requires 5 < k < 11
    ensures Word(CrlReasons()[k])
  {
    match k
    case 6 => assert Word("certificateHold");
    case 7 => assert Word("removeFromCRL");
    case 8 => assert Word("holdInstruction");
    case 9 => assert Word("keyTime");
    case 10 => assert Word("CAkeyTime");
  }

  lemma {:induction false} ReasonsHaveNoComma(k: nat)
    requires k < 11
    ensures NoComma(CrlReasons()[k])
  {
    ReasonsAreWords(k);
  }

  lemma {:induction false} RfcNumberOf(arg: string)
    requires FindReason(arg, 8) < 8
    ensures var k := FindReason(arg, 8); RfcNumber(arg) == if k == 7 then 8 else k
  {
    var k, r := FindReason(arg, 8), CrlReasons();
    forall i | 0 <= i < 8 && i != k ensures !SameIgnoringCase(arg, r[i]) { ReasonsDiffer(k, i); }
    assert SameIgnoringCase(r[2], "cACompromise");
    assert SameIgnoringCase(arg, r[2]) <==> SameIgnoringCase(arg, "cACompromise");
    assert r[0] == "unspecified" && r[1] == "keyCompromise" && r[3] == "affiliationChanged" && r[4] == "superseded";
    assert r[5] == "cessationOfOperation" && r[6] == "certificateHold" && r[7] == "removeFromCRL";
  }

  lemma {:induction false} UnpackAssembled(lib: Library, now: string, k: nat, other: Option<string>)
    requires lib.isUtcTime(now) && NoComma(now) && k < 11
    ensures Unpack(lib, Assemble(now, Parts(Some(CrlReasons()[k]), other))) == Decode(lib, now, k, other)
  {
    ReasonsHaveNoComma(k);
    CutAssembled(now, Parts(Some(CrlReasons()[k]), other));
    FindOwnReason(k, 11);
  }

  lemma {:induction false} UnpackReason(lib: Library, now: string, arg: string)
    requires lib.isUtcTime(now) && NoComma(now) && FindReason(arg, 8) < 8
    ensures Unpack(lib, MakeRevocation(lib, now, RevCrlReason, arg).value) == Some(RevInfo(now, RfcNumber(arg), None, None))
  {
    UnpackAssembled(lib, now, FindReason(arg, 8), None);
    RfcNumberOf(arg);
  }

  /** Reading back what was written gives the same time, the same extra argument, commas and all,
      and the reason number of RFC 5280. */
  lemma {:induction false} UnpackInvertsMake(lib: Library, now: string, revType: RevType, arg: string)
    requires lib.isUtcTime(now) && NoComma(now)
    requires MakeRevocation(lib, now, revType, arg).Some?
    ensures Unpack(lib, MakeRevocation(lib, now, revType, arg).value) == Some(Meaning(now, revType, arg))
  {
    match revType
    case RevCrlReason => UnpackReason(lib, now, arg);
    case RevHold => UnpackHold(lib, now, arg);
    case RevKeyCompromise => UnpackKeyTime(lib, now, arg);
    case RevCaCompromise => UnpackCaKeyTime(lib, now, arg);
    case _ => CutAssembled(now, Parts(None, None));
  }

  lemma {:induction false} UnpackHold(lib: Library, now: string, arg: string)
    requires lib.isUtcTime(now) && NoComma(now) && lib.isObjectId(arg)
    ensures Unpack(lib, MakeRevocation(lib, now, RevHold, arg).value) == Some(Meaning(now, RevHold, arg))
  {
    UnpackAssembled(lib, now, 8, Some(arg));
    RfcNames();
  }

  lemma {:induction false} UnpackKeyTime(lib: Library, now: string, arg: string)
    requires lib.isUtcTime(now) && NoComma(now) && lib.isGeneralizedTime(arg)
    ensures Unpack(lib, MakeRevocation(lib, now, RevKeyCompromise, arg).value) == Some(Meaning(now, RevKeyCompromise, arg))
  {
    UnpackAssembled(lib, now, 9, Some(arg));
    RfcNames();
  }

  lemma {:induction false} UnpackCaKeyTime(lib: Library, now: string, arg: string)
    requires lib.isUtcTime(now) && NoComma(now) && lib.isGeneralizedTime(arg)
    ensures Unpack(lib, MakeRevocation(lib, now, RevCaCompromise, arg).value) == Some(Meaning(now, RevCaCompromise, arg))
  {
    UnpackAssembled(lib, now, 10, Some(arg));
    RfcNames();
  }

  lemma {:induction false} RfcNames()
    ensures RfcNumber("certificateHold") == 6 && RfcNumber("keyCompromise") == 1 && RfcNumber("cACompromise") == 2
  {
    assert "keyCompromise"[0] == 'k' && "unspecified"[0] == 'u';
  }

  lemma {:induction false} ReasonIs(text: string, j: nat)
    requires j < 11
    ensures FindReason(text, 11) == j <==> SameIgnoringCase(text, CrlReasons()[j])
  {
    var k := FindReason(text, 11);
    if SameIgnoringCase(text, CrlReasons()[j]) && k < j { ReasonsDiffer(k, j); }
  }

  lemma {:induction false} FindAmongFirst(text: string)
    ensures FindReason(text, 8) == if FindReason(text, 11) < 8 then FindReason(text, 11) else 8
  {
    var k := FindReason(text, 11);
    if k < 8 { assert SameIgnoringCase(text, CrlReasons()[k]); }
  }

  lemma {:induction false} PlainReason(text: string)
    ensures RfcNumber(text) == var k := FindReason(text, 11); if k < 7 then k else if k == 7 then 8 else -1
  {
    FindAmongFirst(text);
    var k, r := FindReason(text, 11), CrlReasons();
    if k < 8 {
      RfcNumberOf(text);
    } else {
      assert forall i :: 0 <= i < 8 ==> !SameIgnoringCase(text, r[i]);
      assert SameIgnoringCase(r[2], "cACompromise");
      assert SameIgnoringCase(text, r[2]) <==> SameIgnoringCase(text, "cACompromise");
      assert r[0] == "unspecified" && r[1] == "keyCompromise" && r[3] == "affiliationChanged" && r[4] == "superseded";
      assert r[5] == "cessationOfOperation" && r[6] == "certificateHold" && r[7] == "removeFromCRL";
    }
  }

  /** What a revocation field means, whoever wrote it: a reason of RFC 5280 under any spelling, with or
      without an argument, or one of the three that need theirs. */
  lemma {:induction false} UnpackMeans(lib: Library, time: string, reason: string, arg: Option<string>)
    requires NoComma(time) && NoComma(reason)
    ensures var r := Unpack(lib, time + ("," + reason) + (if arg.Some? then "," + arg.value else ""));
      if !lib.isUtcTime(time) then r == None
      else if RfcNumber(reason) >= 0 then r == Some(RevInfo(time, RfcNumber(reason), None, None))
      else if SameIgnoringCase(reason, "holdInstruction") && arg.Some? && lib.isObjectId(arg.value) then r == Some(RevInfo(time, 6, arg, None))
      else if SameIgnoringCase(reason, "keyTime") && arg.Some? && lib.isGeneralizedTime(arg.value) then r == Some(RevInfo(time, 1, None, arg))
      else if SameIgnoringCase(reason, "CAkeyTime") && arg.Some? && lib.isGeneralizedTime(arg.value) then r == Some(RevInfo(time, 2, None, arg))
      else r == None
  {
    CutAssembled(time, Parts(Some(reason), arg));
    DecodeMeans(lib, time, reason, arg);
  }

  lemma {:induction false} DecodeMeans(lib: Library, time: string, reason: string, arg: Option<string>)
    ensures var r := Decode(lib, time, FindReason(reason, 11), arg);
      if RfcNumber(reason) >= 0 then r == Some(RevInfo(time, RfcNumber(reason), None, None))
      else if SameIgnoringCase(reason, "holdInstruction") && arg.Some? && lib.isObjectId(arg.value) then r == Some(RevInfo(time, 6, arg, None))
      else if SameIgnoringCase(reason, "keyTime") && arg.Some? && lib.isGeneralizedTime(arg.value) then r == Some(RevInfo(time, 1, None, arg))
      else if SameIgnoringCase(reason, "CAkeyTime") && arg.Some? && lib.isGeneralizedTime(arg.value) then r == Some(RevInfo(time, 2, None, arg))
      else r == None
  {
    PlainReason(reason);
    ReasonIs(reason, 8);
    ReasonIs(reason, 9);
    ReasonIs(reason, 10);
  }

  // ---- the code that works on buffers ----

  /** The search loops over crl_reasons. */
  method SearchReasons(text: string, n: nat) returns (k: nat)
    requires n <= 11
    ensures k == FindReason(text, n)
  {
    k := 0;
    while k < n
      invariant k <= n
      invariant forall i :: 0 <= i < k ==> !SameIgnoringCase(text, CrlReasons()[i])
    {
      if SameIgnoringCase(text, CrlReasons()[k]) {
        return;
      }
      k := k + 1;
    }
  }

  /** The C string held by a buffer. */
  function CString(buf: seq<char>): string { buf[..IndexOf(buf, '\0')] }

  predicate NoNul(s: string) { '\0' !in s }

  lemma {:induction false} CStringIs(buf: seq<char>, s: string)
    requires |s| < |buf| && NoNul(s) && buf[|s|] == '\0' && forall i :: 0 <= i < |s| ==> buf[i] == s[i]
    ensures CString(buf) == s
  {
    assert IndexOf(buf, '\0') == |s|;
  }

  /** OPENSSL_strlcat: appends at most what leaves room for the terminator. */
  method Strlcat(buf: array<char>, src: string)
    requires '\0' in buf[..] && NoNul(src)
    modifies buf
    ensures '\0' in buf[..]
    ensures var whole := CString(old(buf[..])) + src;
      CString(buf[..]) == if |whole| < buf.Length then whole else whole[..buf.Length - 1]
  {
    ghost var was := buf[..];
    var at := IndexOf(buf[..], '\0');
    var n := 0;
    while n < |src| && at + n + 1 < buf.Length
      invariant 0 <= n <= |src| && at + n < buf.Length
      invariant buf[..at + n] == was[..at] + src[..n]
    {
      buf[at + n] := src[n];
      n := n + 1;
    }
    buf[at + n] := '\0';
    assert buf[..][at + n] == '\0';
    CStringIs(buf[..], was[..at] + src[..n]);
    assert (was[..at] + src)[..at + n] == was[..at] + src[..n];
    if n == |src| { Whole(was[..at] + src); }
  }

  /** make_revocation_str: the length computed before the appends is exactly what they need. */
  method MakeRevocationStr(lib: Library, now: string, revType: RevType, arg: string)
    returns (r: Option<string>, size: nat)
    requires NoNul(now) && NoNul(arg)
    ensures r == MakeRevocation(lib, now, revType, arg)
    ensures r.Some? ==> size == |r.value| + 1
  {
    var reason: Option<string> := None;
    var other: Option<string> := None;
    size := 0;
    match revType {
      case RevValid =>
      case RevNone =>
      case RevCrlReason =>
        var k := SearchReasons(arg, 8);
        if k == 8 {
          return None, 0;
        }
        ReasonsHaveNoNul(k);
        reason := Some(CrlReasons()[k]);
      case RevHold =>
        if !lib.isObjectId(arg) {
          return None, 0;
        }
        reason, other := Some("holdInstruction"), Some(arg);
      case RevKeyCompromise =>
        if !lib.isGeneralizedTime(arg) {
          return None, 0;
        }
        reason, other := Some("keyTime"), Some(arg);
      case RevCaCompromise =>
        if !lib.isGeneralizedTime(arg) {
          return None, 0;
        }
        reason, other := Some("CAkeyTime"), Some(arg);
    }
    assert reason.Some? ==> NoNul(reason.value);
    var text: string;
    text, size := Compose(now, Parts(reason, other));
    r := Some(text);
  }

  lemma {:induction false} ReasonsHaveNoNul(k: nat)
    requires k < 11
    ensures NoNul(CrlReasons()[k])
  {
    ReasonsAreWords(k);
  }

  /** The allocation and the appends. */
  method Compose(now: string, p: Parts) returns (text: string, size: nat)
    requires NoNul(now) && (p.reason.Some? ==> NoNul(p.reason.value)) && (p.other.Some? ==> NoNul(p.other.value))
    ensures text == Assemble(now, p) && size == |text| + 1
  {
    size := |now| + 1;
    if p.reason.Some? { size := size + |p.reason.value| + 1; }
    if p.other.Some? { size := size + |p.other.value| + 1; }
    var str := new char[size](_ => '\0');
    assert str[..][0] == '\0';
    Strlcat(str, now);
    AppendPart(str, now, p.reason);
    AppendPart(str, now + PartText(p.reason), p.other);
    text := CString(str[..]);
  }

  /** A comma and a piece, when there is one. */
  method AppendPart(str: array<char>, ghost text: string, part: Option<string>)
    requires '\0' in str[..] && CString(str[..]) == text && |text + PartText(part)| < str.Length
    requires part.Some? ==> NoNul(part.value)
    modifies str
    ensures '\0' in str[..] && CString(str[..]) == text + PartText(part)
  {
    if part.Some? {
      Strlcat(str, ",");
      assert CString(str[..]) == text + ",";
      Strlcat(str, part.value);
      Assoc(text, ",", part.value);
    }
  }

  /** unpack_revinfo: a copy of the column is cut at its first two commas. */
  method UnpackRevinfo(lib: Library, str: string) returns (r: Option<RevInfo>)
    ensures r == Unpack(lib, str)
  {
    var tmp := new char[|str|];
    forall i | 0 <= i < |str| { tmp[i] := str[i]; }
    assert tmp[..] == str;
    var p := IndexOf(tmp[..], ',');
    var rtime := str;
    var reason: Option<string> := None;
    var arg: Option<string> := None;
    if p < tmp.Length {
      tmp[p] := '\0';
      assert tmp[..p] == str[..p] && tmp[p + 1..] == str[p + 1..];
      rtime := tmp[..p];
      var q := IndexOf(tmp[p + 1..], ',');
      reason := Some(tmp[p + 1..][..q]);
      assert q == |str[p + 1..]| ==> str[p + 1..][..q] == str[p + 1..];
      if q < |tmp[p + 1..]| {
        arg := Some(tmp[p + 1..][q + 1..]);
        tmp[p + 1 + q] := '\0';
      }
    }
    assert Cut(rtime, reason, arg) == CutAtCommas(str);
    if !lib.isUtcTime(rtime) {
      return None;
    }
    var code: int := -1;
    var hold: Option<string> := None;
    var invalidity: Option<string> := None;
    if reason.Some? {
      var k := SearchReasons(reason.value, 11);
      if k == 11 {
        return None;
      }
      code := k;
      if code == 7 {
        code := 8;
      } else if code == 8 {
        if arg.None? || !lib.isObjectId(arg.value) {
          return None;
        }
        code, hold := 6, arg;
      } else if code == 9 || code == 10 {
        if arg.None? || !lib.isGeneralizedTime(arg.value) {
          return None;
        }
        invalidity := arg;
        code := if code == 9 then 1 else 2;
      }
    }
    return Some(RevInfo(rtime, code, hold, invalidity));
  }
}
