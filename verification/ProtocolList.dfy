/** next_protos_parse: a comma-separated list becomes the length-prefixed list of ALPN. */
module ProtocolList {
  import opened CText
  import opened SeqFacts

  type Bytes = seq<nat>

  /** The comma-separated elements, empty ones included. */
  function Split(s: string): (r: seq<string>)
    ensures |r| >= 1
  {
    if s == "" then [""]
    else
      var front, c := Split(s[..|s| - 1]), s[|s| - 1];
      if c == ',' then front + [""]
      else front[..|front| - 1] + [front[|front| - 1] + [c]]
  }

  function NonEmpty(elems: seq<string>): seq<string> {
    if elems == [] then []
    else
      var front, e := NonEmpty(elems[..|elems| - 1]), elems[|elems| - 1];
      if e == "" then front else front + [e]
  }

  function Join(elems: seq<string>): string {
    if elems == [] then ""
    else if |elems| == 1 then elems[0]
    else Join(elems[..|elems| - 1]) + "," + elems[|elems| - 1]
  }

  predicate NoCommas(elems: seq<string>) { forall i :: 0 <= i < |elems| ==> ',' !in elems[i] }

  lemma {:induction false} JoinSnoc(elems: seq<string>, e: string)
    requires elems != []
    ensures Join(elems + [e]) == Join(elems) + "," + e
  {
    Snoc(elems, e);
  }

  lemma {:induction false} JoinLonger(front: seq<string>, e: string, c: char)
    ensures Join(front + [e + [c]]) == Join(front + [e]) + [c]
  {
    Snoc(front, e);
    Snoc(front, e + [c]);
    if front != [] { Assoc(Join(front) + ",", e, [c]); }
  }

  /** The elements are what stands between the commas. */
  lemma {:induction false} SplitJoins(s: string)
    ensures Join(Split(s)) == s && NoCommas(Split(s))
  {
    if s != "" {
      SplitJoins(s[..|s| - 1]);
      FrontLast(s);
      SplitStep(Split(s[..|s| - 1]), s[|s| - 1]);
    }
  }

  lemma {:induction false} SplitStep(front: seq<string>, c: char)
    requires front != [] && NoCommas(front)
    ensures var r := if c == ',' then front + [""] else front[..|front| - 1] + [front[|front| - 1] + [c]];
      Join(r) == Join(front) + [c] && NoCommas(r)
  {
    if c == ',' {
      JoinSnoc(front, "");
      Whole(Join(front) + ",");
    } else {
      FrontLast(front);
      JoinLonger(front[..|front| - 1], front[|front| - 1], c);
    }
  }

  function IsNonEmpty(): string -> bool { (e: string) => e != "" }

  /** The names are the elements that are not empty, in order. */
  lemma {:induction false} NonEmptyInOrder(elems: seq<string>) returns (m: seq<nat>)
    ensures Kept(elems, NonEmpty(elems), m, IsNonEmpty())
  {
    m := [];
    if elems != [] {
      var k := |elems| - 1;
      m := NonEmptyInOrder(elems[..k]);
      FrontLast(elems);
      KeptSnoc(elems[..k], NonEmpty(elems[..k]), m, IsNonEmpty(), elems[k]);
      if elems[k] != "" { m := m + [k]; }
    }
  }

  function Codes(e: string): (r: Bytes)
    ensures |r| == |e| && forall i :: 0 <= i < |e| ==> r[i] == e[i] as nat
  {
    if e == "" then [] else Codes(e[..|e| - 1]) + [e[|e| - 1] as nat]
  }

  /** One length byte and the name, for each name (section 3.1 of RFC 7301). */
  function Encode(names: seq<string>): Bytes {
    if names == [] then []
    else
      var e := names[|names| - 1];
      Encode(names[..|names| - 1]) + [|e|] + Codes(e)
  }

  function TotalSize(names: seq<string>): nat {
    if names == [] then 0 else TotalSize(names[..|names| - 1]) + |names[|names| - 1]| + 1
  }

  lemma {:induction false} EncodeSize(names: seq<string>)
    ensures |Encode(names)| == TotalSize(names)
  {
    if names != [] { EncodeSize(names[..|names| - 1]); }
  }

  /** Reading the wire format from the front. */
  function Decode(w: Bytes): Option<seq<Bytes>>
    decreases |w|
  {
    if w == [] then Some([])
    else if w[0] == 0 || 1 + w[0] > |w| then None
    else
      var rest := Decode(w[1 + w[0]..]);
      if rest.None? then None else Some([w[1..1 + w[0]]] + rest.value)
  }

  predicate FitsByte(names: seq<string>) { forall i :: 0 <= i < |names| ==> 1 <= |names[i]| <= 255 }

  lemma {:induction false} EncodeHead(names: seq<string>)
    requires names != []
    ensures Encode(names) == [|names[0]|] + Codes(names[0]) + Encode(names[1..])
  {
    var n := |names| - 1;
    if n == 0 {
      assert names[..0] == [] && names[1..] == [];
    } else {
      EncodeHead(names[..n]);
      assert names[..n][1..] == names[1..][..n - 1];
      var e := names[n];
      assert [|names[0]|] + Codes(names[0]) + Encode(names[1..n]) + [|e|] + Codes(e)
          == [|names[0]|] + Codes(names[0]) + (Encode(names[1..n]) + [|e|] + Codes(e));
    }
  }

  function AllCodes(names: seq<string>): (r: seq<Bytes>)
    ensures |r| == |names| && forall i :: 0 <= i < |names| ==> r[i] == Codes(names[i])
  {
    if names == [] then [] else [Codes(names[0])] + AllCodes(names[1..])
  }

  /** The receiver reads back the names, in order. */
  lemma {:induction false} DecodeInvertsEncode(names: seq<string>)
    requires FitsByte(names)
    ensures Decode(Encode(names)) == Some(AllCodes(names))
  {
    if names != [] {
      var w, e := Encode(names), names[0];
      EncodeHead(names);
      DecodeInvertsEncode(names[1..]);
      assert w[1..1 + |e|] == Codes(e);
      assert w[1 + |e|..] == Encode(names[1..]);
    }
  }

  function Names(s: string): seq<string> { NonEmpty(Split(s)) }

  // ---- the loop ----

  /** What the loop has seen: the closed elements of s, and the open one at its end. */
  function Closed(s: string): seq<string> { Split(s)[..|Split(s)| - 1] }
  function Open(s: string): string { Split(s)[|Split(s)| - 1] }

  lemma {:induction false} SeeComma(s: string)
    ensures Closed(s + ",") == Closed(s) + [Open(s)] && Open(s + ",") == ""
  {
    assert (s + ",")[..|s|] == s;
    assert Split(s) == Closed(s) + [Open(s)];
  }

  lemma {:induction false} SeeOther(s: string, c: char)
    requires c != ','
    ensures Closed(s + [c]) == Closed(s) && Open(s + [c]) == Open(s) + [c]
  {
    assert (s + [c])[..|s|] == s;
  }

  lemma {:induction false} NonEmptySnoc(elems: seq<string>, e: string)
    ensures NonEmpty(elems + [e]) == if e == "" then NonEmpty(elems) else NonEmpty(elems) + [e]
  {
    assert (elems + [e])[..|elems|] == elems;
  }

  lemma {:induction false} EncodeSnoc(names: seq<string>, e: string)
    ensures Encode(names + [e]) == Encode(names) + [|e|] + Codes(e)
  {
    assert (names + [e])[..|names|] == names;
  }

  lemma {:induction false} CodesSnoc(e: string, c: char)
    ensures Codes(e + [c]) == Codes(e) + [c as nat]
  {
    assert (e + [c])[..|e|] == e;
  }

  lemma {:induction false} ClosedGrows(t: string, i: nat, j: nat)
    requires i <= j <= |t|
    ensures NonEmpty(Closed(t[..i])) <= NonEmpty(Closed(t[..j]))
    decreases j - i
  {
    if i < j {
      ClosedGrows(t, i, j - 1);
      assert t[..j] == t[..j - 1] + [t[j - 1]];
      if t[j - 1] == ',' {
        SeeComma(t[..j - 1]);
        NonEmptySnoc(Closed(t[..j - 1]), Open(t[..j - 1]));
      } else {
        SeeOther(t[..j - 1], t[j - 1]);
      }
    }
  }

  lemma {:induction false} NamesAreClosed(s: string)
    ensures Names(s) == NonEmpty(Closed(s + ","))
  {
    SeeComma(s);
    assert Split(s) == Closed(s) + [Open(s)];
  }

  /** Every character, comma or not, has been either written or skipped. */
  predicate Balanced(seen: string, start: nat, skipped: nat) {
    && |Open(seen)| <= |seen| && start == |seen| - |Open(seen)| && skipped <= start
    && |Encode(NonEmpty(Closed(seen)))| == start - skipped
    && (skipped == start <==> NonEmpty(Closed(seen)) == [])
  }

  /** The part of the buffer that is settled while the scan goes on. */
  ghost predicate Written(out: Bytes, seen: string, start: nat, skipped: nat) {
    && Balanced(seen, start, skipped) && FitsByte(NonEmpty(Closed(seen)))
    && start - skipped <= |out| && out[..start - skipped] == Encode(NonEmpty(Closed(seen)))
    && (Open(seen) != "" ==>
          && |seen| - skipped + 1 <= |out|
          && out[start - skipped + 1..|seen| - skipped + 1] == Codes(Open(seen)))
  }

  /** An extra comma is skipped. */
  lemma {:induction false} SkipComma(out: Bytes, seen: string, start: nat, skipped: nat)
    requires Written(out, seen, start, skipped) && |seen| == start
    ensures Written(out, seen + ",", start + 1, skipped + 1)
  {
    SeeComma(seen);
    NonEmptySnoc(Closed(seen), Open(seen));
  }

  /** Storing one byte of the open element. */
  method StoreByte(out: array<nat>, ghost seen: string, i: nat, start: nat, skipped: nat, c: char)
    requires i == |seen| && Written(out[..], seen, start, skipped) && i + 1 - skipped < out.Length && c != ','
    modifies out
    ensures Written(out[..], seen + [c], start, skipped)
  {
    SeeOther(seen, c);
    CodesSnoc(Open(seen), c);
    ghost var was := out[..];
    out[i + 1 - skipped] := c as nat;
    assert out[..][..start - skipped] == was[..start - skipped];
    assert out[..][start - skipped + 1..i - skipped + 2] == was[start - skipped + 1..i - skipped + 1] + [c as nat];
  }

  /** Storing the length byte completes an element. */
  method CloseElement(out: array<nat>, ghost seen: string, i: nat, start: nat, skipped: nat)
    requires i == |seen| && Written(out[..], seen, start, skipped) && start < i <= start + 255
    modifies out
    ensures Written(out[..], seen + ",", i + 1, skipped)
  {
    ghost var names, e := NonEmpty(Closed(seen)), Open(seen);
    SeeComma(seen);
    NonEmptySnoc(Closed(seen), e);
    EncodeSnoc(names, e);
    ghost var was := out[..];
    var len: nat := i - start;
    out[start - skipped] := len;
    assert out[..] == was[start - skipped := len];
    Patched(was, start - skipped, i - skipped + 1, len);
  }

  lemma {:induction false} Patched(was: Bytes, at: nat, end: nat, x: nat)
    requires at < end <= |was|
    ensures was[at := x][..end] == was[..at] + [x] + was[at + 1..end]
  {
  }

  /** An element that is too long shows in the list of names. */
  lemma {:induction false} TooLong(t: string, i: nat)
    requires i < |t| && t[i] == ',' && |Open(t[..i])| > 255
    ensures !FitsByte(NonEmpty(Closed(t)))
  {
    assert t[..i + 1] == t[..i] + "," && t[..|t|] == t;
    SeeComma(t[..i]);
    NonEmptySnoc(Closed(t[..i]), Open(t[..i]));
    ClosedGrows(t, i + 1, |t|);
    var k := |NonEmpty(Closed(t[..i]))|;
    assert NonEmpty(Closed(t))[k] == NonEmpty(Closed(t[..i + 1]))[k] == Open(t[..i]);
  }

  lemma {:induction false} Finished(out: Bytes, text: string, start: nat, skipped: nat)
    requires Written(out, text + ",", start, skipped)
    ensures |text| <= skipped <==> Names(text) == []
    ensures FitsByte(Names(text)) && skipped <= |text| + 1
    ensures |text| + 1 - skipped == TotalSize(Names(text)) <= |out|
    ensures out[..|text| + 1 - skipped] == Encode(Names(text))
  {
    NamesAreClosed(text);
    EncodeSize(Names(text));
    SeeComma(text);
    if Names(text) != [] { EncodeHead(Names(text)); }
  }

  lemma {:induction false} WrittenStart(out: Bytes)
    ensures Written(out, "", 0, 0)
  {
    assert Closed("") == [] && Open("") == "";
  }

  lemma {:induction false} WrittenBounds(out: Bytes, seen: string, start: nat, skipped: nat)
    requires Written(out, seen, start, skipped)
    ensures skipped <= start <= |seen| && |Open(seen)| == |seen| - start
  {
  }

  /** One turn of the loop, at the character after seen. */
  method Turn(out: array<nat>, ghost seen: string, i: nat, start: nat, skipped: nat, comma: bool, c: char)
    returns (fits: bool, start': nat, skipped': nat)
    requires i == |seen| && Written(out[..], seen, start, skipped)
    requires (comma <==> c == ',') && (!comma ==> i + 1 < out.Length)
    modifies out
    ensures fits ==> Written(out[..], seen + [c], start', skipped')
    ensures !fits ==> comma && |Open(seen)| > 255
  {
    fits, start', skipped' := true, start, skipped;
    WrittenBounds(out[..], seen, start, skipped);
    if comma {
      if i == start {
        SkipComma(out[..], seen, start, skipped);
        start', skipped' := start + 1, skipped + 1;
      } else {
        if i - start > 255 {
          return false, start, skipped;
        }
        CloseElement(out, seen, i, start, skipped);
        start' := i + 1;
      }
    } else {
      StoreByte(out, seen, i, start, skipped, c);
    }
  }

  /** The loop body at position i, where i == |text| stands for a last comma. */
  method TurnAt(text: string, out: array<nat>, i: nat, start: nat, skipped: nat)
    returns (fits: bool, start': nat, skipped': nat)
    requires i <= |text| && out.Length == |text| + 1 && Written(out[..], (text + ",")[..i], start, skipped)
    modifies out
    ensures fits ==> Written(out[..], (text + ",")[..i + 1], start', skipped')
    ensures !fits ==> !FitsByte(Names(text))
  {
    ghost var t := text + ",";
    TakeOneMore(t, i);
    var comma := i == |text| || text[i] == ',';
    var c := if comma then ',' else text[i];
    assert t[i] == c;
    fits, start', skipped' := Turn(out, t[..i], i, start, skipped, comma, c);
    if !fits {
      TooLong(t, i);
      NamesAreClosed(text);
    }
  }

  /** The loop. */
  method ScanList(text: string, out: array<nat>) returns (fits: bool, skipped: nat, start: nat)
    requires out.Length == |text| + 1
    modifies out
    ensures fits ==> Written(out[..], text + ",", start, skipped)
    ensures !fits ==> !FitsByte(Names(text))
  {
    start, skipped, fits := 0, 0, true;
    WrittenStart(out[..]);
    for i := 0 to |text| + 1
      invariant Written(out[..], (text + ",")[..i], start, skipped)
    {
      fits, start, skipped := TurnAt(text, out, i, start, skipped);
      if !fits {
        return;
      }
    }
    Whole(text + ",");
    fits := true;
  }

  /** next_protos_parse: the result buffer and outlen, or NULL. */
  method NextProtosParse(text: string) returns (r: Option<Bytes>, outlen: nat)
    ensures r.Some? <==> 0 < |text| < 65535 && Names(text) != [] && FitsByte(Names(text))
    ensures r.Some? ==> outlen == TotalSize(Names(text)) <= |r.value| == |text| + 1
    ensures r.Some? ==> r.value[..outlen] == Encode(Names(text))
  {
    if |text| == 0 || |text| >= 65535 {
      return None, 0;
    }
    var out := new nat[|text| + 1](_ => 0);
    var fits, skipped, start := ScanList(text, out);
    if !fits {
      return None, 0;
    }
    Finished(out[..], text, start, skipped);
    if |text| <= skipped {
      return None, 0;
    }
    outlen := |text| + 1 - skipped;
    return Some(out[..]), outlen;
  }
}
