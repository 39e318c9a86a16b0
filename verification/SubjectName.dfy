/** parse_name: subject names written as /type0=value0/type1=value1+type2=value2. */
module SubjectName {
  import opened CText
  import opened SeqFacts

  /** An entry of the name; multi says that it joins the entry before it. */
  datatype Entry = Entry(kind: string, value: string, multi: bool)

  /** What the library knows: attribute types, and which values it accepts for them. */
  datatype Library = Library(known: string -> bool, accepts: (string, string) -> bool)

  /** A value and the number of characters it takes up. */
  datatype Piece = Piece(value: string, used: nat)

  predicate EndsValue(c: char, canMulti: bool) { c == '/' || (canMulti && c == '+') }

  function Push(c: char, width: nat, r: Option<Piece>): Option<Piece> {
    if r.None? then None else Some(Piece([c] + r.value.value, width + r.value.used))
  }

  /** Collecting a value: up to an unescaped separator; none when an escape ends the string. */
  function ScanValue(s: string, canMulti: bool): Option<Piece> {
    if s == "" || EndsValue(s[0], canMulti) then Some(Piece("", 0))
    else if s[0] == '\\' then
      if |s| == 1 then None else Push(s[1], 2, ScanValue(s[2..], canMulti))
    else Push(s[0], 1, ScanValue(s[1..], canMulti))
  }

  /** The first entry of a text and what follows its separator. */
  datatype Head = Head(kind: string, value: string, rest: string, plus: bool)

  lemma {:induction false} ScanBounds(s: string, canMulti: bool)
    ensures var r := ScanValue(s, canMulti); r.Some? ==> |r.value.value| <= r.value.used <= |s|
  {
    if s == "" || EndsValue(s[0], canMulti) {
    } else if s[0] == '\\' {
      if |s| > 1 { ScanBounds(s[2..], canMulti); }
    } else {
      ScanBounds(s[1..], canMulti);
    }
  }

  /** The entry of a type whose value begins the body. */
  function HeadOfBody(kind: string, body: string, canMulti: bool): (r: Option<Head>)
    ensures r.Some? ==> |r.value.rest| <= |body|
  {
    var v := ScanValue(body, canMulti);
    if v.None? then None
    else
      ScanBounds(body, canMulti);
      var after := body[v.value.used..];
      Some(Head(kind, v.value.value, if after == "" then "" else after[1..], after != "" && canMulti && after[0] == '+'))
  }

  function HeadOf(s: string, canMulti: bool): (r: Option<Head>)
    ensures r.Some? ==> |r.value.rest| < |s|
  {
    var eq := IndexOf(s, '=');
    if eq == |s| then None else HeadOfBody(s[..eq], s[eq + 1..], canMulti)
  }

  /** What an entry adds: nothing for an unknown type or an empty value, a failure for a value that
      the library refuses. */
  function AddEntry(lib: Library, e: Entry, rest: Option<seq<Entry>>): Option<seq<Entry>> {
    if !lib.known(e.kind) || e.value == "" then rest
    else if rest.None? || !lib.accepts(e.kind, e.value) then None
    else Some([e] + rest.value)
  }

  /** The entries from a position between entries on. */
  function ParseFrom(lib: Library, s: string, canMulti: bool, multi: bool): Option<seq<Entry>>
    decreases |s|
  {
    if s == "" then Some([])
    else
      var h := HeadOf(s, canMulti);
      if h.None? then None
      else AddEntry(lib, Entry(h.value.kind, h.value.value, multi), ParseFrom(lib, h.value.rest, canMulti, h.value.plus))
  }

  function Parse(lib: Library, text: string, canMulti: bool): Option<seq<Entry>> {
    if text == "" || text[0] != '/' then None else ParseFrom(lib, text[1..], canMulti, false)
  }

  // ---- the texts of a name ----

  /** An entry and the characters of its value that are written with a backslash. */
  datatype Written = Written(entry: Entry, escaped: seq<bool>)

  function WriteChar(c: char, escaped: bool): string { if escaped then ['\\', c] else [c] }

  function WriteValue(v: string, escaped: seq<bool>): string {
    if v == "" || escaped == [] then "" else WriteChar(v[0], escaped[0]) + WriteValue(v[1..], escaped[1..])
  }

  /** Any character may be escaped; a backslash and what ends a value must be. */
  predicate LegalValue(v: string, escaped: seq<bool>, canMulti: bool) {
    |escaped| == |v| && forall i :: 0 <= i < |v| && !escaped[i] ==> v[i] != '\\' && v[i] != '/' && !(canMulti && v[i] == '+')
  }

  predicate Legal(w: Written, canMulti: bool) {
    '=' !in w.entry.kind && LegalValue(w.entry.value, w.escaped, canMulti) && (w.entry.multi ==> canMulti)
  }

  function RenderEntry(w: Written): string { w.entry.kind + "=" + WriteValue(w.entry.value, w.escaped) }

  /** Entries behind their separators, and what ends the text. */
  function RenderTail(ws: seq<Written>, end: string): string {
    if ws == [] then end else (if ws[0].entry.multi then "+" else "/") + RenderEntry(ws[0]) + RenderTail(ws[1..], end)
  }

  function Render(ws: seq<Written>, end: string): string {
    if ws == [] then "/" else "/" + RenderEntry(ws[0]) + RenderTail(ws[1..], end)
  }

  /** A last separator without an entry may stand at the end. */
  predicate Ends(end: string, canMulti: bool) { end == "" || end == "/" || (canMulti && end == "+") }

  predicate AllLegal(ws: seq<Written>, canMulti: bool) {
    (forall i :: 0 <= i < |ws| ==> Legal(ws[i], canMulti)) && (ws != [] ==> !ws[0].entry.multi)
  }

  function Entries(ws: seq<Written>): (es: seq<Entry>)
    ensures |es| == |ws| && forall i :: 0 <= i < |ws| ==> es[i] == ws[i].entry
  {
    if ws == [] then [] else [ws[0].entry] + Entries(ws[1..])
  }

  lemma {:induction false} ScanStep(c: char, s: string, canMulti: bool)
    ensures ScanValue(['\\', c] + s, canMulti) == Push(c, 2, ScanValue(s, canMulti))
    ensures !EndsValue(c, canMulti) && c != '\\' ==> ScanValue([c] + s, canMulti) == Push(c, 1, ScanValue(s, canMulti))
  {
    assert (['\\', c] + s)[2..] == s;
    assert ([c] + s)[1..] == s;
  }

  lemma {:induction false} ScanWrittenChar(c: char, escaped: bool, s: string, canMulti: bool)
    requires !escaped ==> c != '\\' && !EndsValue(c, canMulti)
    ensures ScanValue(WriteChar(c, escaped) + s, canMulti) == Push(c, |WriteChar(c, escaped)|, ScanValue(s, canMulti))
  {
    ScanStep(c, s, canMulti);
  }

  lemma {:induction false} LegalTail(v: string, escaped: seq<bool>, canMulti: bool)
    requires LegalValue(v, escaped, canMulti) && v != ""
    ensures LegalValue(v[1..], escaped[1..], canMulti) && (!escaped[0] ==> v[0] != '\\' && !EndsValue(v[0], canMulti))
  {
  }

  lemma {:induction false} ScanWritten(v: string, escaped: seq<bool>, tail: string, canMulti: bool)
    requires LegalValue(v, escaped, canMulti) && (tail == "" || EndsValue(tail[0], canMulti))
    ensures ScanValue(WriteValue(v, escaped) + tail, canMulti) == Some(Piece(v, |WriteValue(v, escaped)|))
  {
    if v == "" {
      Whole(tail);
    } else {
      var rest := WriteValue(v[1..], escaped[1..]);
      LegalTail(v, escaped, canMulti);
      ScanWritten(v[1..], escaped[1..], tail, canMulti);
      ScanWrittenChar(v[0], escaped[0], rest + tail, canMulti);
      Assoc(WriteChar(v[0], escaped[0]), rest, tail);
      HeadTail(v);
    }
  }

  /** Whatever is scanned is such a value, up to its end. */
  lemma {:induction false} ScanReads(s: string, canMulti: bool) returns (escaped: seq<bool>)
    requires ScanValue(s, canMulti).Some?
    ensures var r := ScanValue(s, canMulti).value;
      && LegalValue(r.value, escaped, canMulti) && r.used <= |s| && s[..r.used] == WriteValue(r.value, escaped)
      && (r.used < |s| ==> EndsValue(s[r.used], canMulti))
  {
    if s == "" || EndsValue(s[0], canMulti) {
      escaped := [];
    } else {
      var esc := s[0] == '\\';
      var at := if esc then 1 else 0;
      var rest := s[at + 1..];
      var front := ScanReads(rest, canMulti);
      escaped := [esc] + front;
      var r := ScanValue(rest, canMulti).value;
      assert s == WriteChar(s[at], esc) + rest;
      LegalCons(s[at], esc, r.value, front, canMulti);
      assert s[..at + 1 + r.used] == WriteChar(s[at], esc) + rest[..r.used];
    }
  }

  lemma {:induction false} LegalCons(c: char, esc: bool, v: string, escaped: seq<bool>, canMulti: bool)
    requires LegalValue(v, escaped, canMulti) && (!esc ==> c != '\\' && !EndsValue(c, canMulti))
    ensures LegalValue([c] + v, [esc] + escaped, canMulti)
    ensures WriteValue([c] + v, [esc] + escaped) == WriteChar(c, esc) + WriteValue(v, escaped)
  {
    assert ([c] + v)[1..] == v && ([esc] + escaped)[1..] == escaped;
  }

  lemma {:induction false} HeadAtEquals(kind: string, body: string, canMulti: bool)
    requires '=' !in kind
    ensures HeadOf(kind + "=" + body, canMulti) == HeadOfBody(kind, body, canMulti)
  {
    var s := kind + "=" + body;
    assert s[|kind|] == '=' && forall i :: 0 <= i < |kind| ==> s[i] == kind[i];
    assert IndexOf(s, '=') == |kind|;
    assert s[..|kind|] == kind && s[|kind| + 1..] == body;
  }

  lemma {:induction false} HeadOfRendered(w: Written, tail: string, canMulti: bool)
    requires Legal(w, canMulti) && (tail == "" || EndsValue(tail[0], canMulti))
    ensures HeadOf(RenderEntry(w) + tail, canMulti)
         == Some(Head(w.entry.kind, w.entry.value, if tail == "" then "" else tail[1..], tail != "" && canMulti && tail[0] == '+'))
  {
    var text := WriteValue(w.entry.value, w.escaped);
    var body := text + tail;
    assert RenderEntry(w) + tail == w.entry.kind + "=" + body;
    HeadAtEquals(w.entry.kind, body, canMulti);
    ScanWritten(w.entry.value, w.escaped, tail, canMulti);
    assert body[|text|..] == tail;
  }

  lemma {:induction false} AfterFirst(c: char, a: string, b: string)
    ensures ([c] + a + b)[0] == c && ([c] + a + b)[1..] == a + b
  {
  }

  lemma {:induction false} TailParts(ws: seq<Written>, end: string)
    requires ws != []
    ensures RenderTail(ws, end) != "" && RenderTail(ws, end)[0] == (if ws[0].entry.multi then '+' else '/')
    ensures RenderTail(ws, end)[1..] == RenderEntry(ws[0]) + RenderTail(ws[1..], end)
  {
    AfterFirst(if ws[0].entry.multi then '+' else '/', RenderEntry(ws[0]), RenderTail(ws[1..], end));
  }

  lemma {:induction false} RenderParts(ws: seq<Written>, end: string)
    requires ws != []
    ensures Render(ws, end)[0] == '/' && Render(ws, end)[1..] == RenderEntry(ws[0]) + RenderTail(ws[1..], end)
  {
    AfterFirst('/', RenderEntry(ws[0]), RenderTail(ws[1..], end));
  }

  // ---- what a name text means ----

  /** The entries that go into the name, in order, or none if one of them is refused. */
  function AddAll(lib: Library, es: seq<Entry>): Option<seq<Entry>> {
    if es == [] then Some([]) else AddEntry(lib, es[0], AddAll(lib, es[1..]))
  }

  /** The entries that are not skipped: of a known type and with a value. */
  function Counts(lib: Library): Entry -> bool { (e: Entry) => lib.known(e.kind) && e.value != "" }

  predicate Refused(lib: Library, e: Entry) { lib.known(e.kind) && e.value != "" && !lib.accepts(e.kind, e.value) }

  predicate NoneRefused(lib: Library, es: seq<Entry>) { forall i :: 0 <= i < |es| ==> !Refused(lib, es[i]) }

  lemma {:induction false} AddAllKeeps(lib: Library, es: seq<Entry>) returns (m: seq<nat>)
    ensures AddAll(lib, es).Some? <==> NoneRefused(lib, es)
    ensures NoneRefused(lib, es) ==> Kept(es, AddAll(lib, es).value, m, Counts(lib))
  {
    m := [];
    if es != [] {
      var rest := AddAllKeeps(lib, es[1..]);
      HeadTail(es);
      if NoneRefused(lib, es) {
        KeptCons(es[0], es[1..], AddAll(lib, es[1..]).value, rest, Counts(lib));
        m := if Counts(lib)(es[0]) then [0] + Shifted(rest) else Shifted(rest);
      }
    }
  }

  lemma {:induction false} ParseTail(lib: Library, w: Written, ws: seq<Written>, end: string, canMulti: bool)
    requires Legal(w, canMulti) && Ends(end, canMulti) && forall i :: 0 <= i < |ws| ==> Legal(ws[i], canMulti)
    ensures ParseFrom(lib, RenderEntry(w) + RenderTail(ws, end), canMulti, w.entry.multi)
         == AddEntry(lib, w.entry, AddAll(lib, Entries(ws)))
    decreases |ws|
  {
    var rest := RenderTail(ws, end);
    if ws != [] {
      TailParts(ws, end);
      ParseTail(lib, ws[0], ws[1..], end, canMulti);
      assert Entries(ws)[1..] == Entries(ws[1..]);
    } else if end != "" {
      assert end[1..] == "";
    }
    HeadOfRendered(w, rest, canMulti);
  }

  lemma {:induction false} ParseRendered(lib: Library, ws: seq<Written>, end: string, canMulti: bool)
    requires AllLegal(ws, canMulti) && Ends(end, canMulti)
    ensures Parse(lib, Render(ws, end), canMulti) == AddAll(lib, Entries(ws))
  {
    if ws == [] {
      assert Render(ws, end)[1..] == "";
    } else {
      ParseTail(lib, ws[0], ws[1..], end, canMulti);
      RenderParts(ws, end);
      assert Entries(ws)[1..] == Entries(ws[1..]);
    }
  }

  /** However a list of entries is written, unknown and empty entries drop out, the others come in
      order with their flags, and the parse fails exactly if the library refuses one of these. */
  lemma {:induction false} ParseMeans(lib: Library, ws: seq<Written>, end: string, canMulti: bool) returns (m: seq<nat>)
    requires AllLegal(ws, canMulti) && Ends(end, canMulti)
    ensures var r := Parse(lib, Render(ws, end), canMulti);
      && (r.Some? <==> NoneRefused(lib, Entries(ws)))
      && (r.Some? ==> Kept(Entries(ws), r.value, m, Counts(lib)))
  {
    ParseRendered(lib, ws, end, canMulti);
    m := AddAllKeeps(lib, Entries(ws));
  }

  predicate Renderable(lib: Library, e: Entry) {
    lib.known(e.kind) && e.value != "" && lib.accepts(e.kind, e.value)
  }

  lemma {:induction false} AddAllWhole(lib: Library, es: seq<Entry>)
    requires forall i :: 0 <= i < |es| ==> Renderable(lib, es[i])
    ensures AddAll(lib, es) == Some(es)
  {
    if es != [] {
      AddAllWhole(lib, es[1..]);
      HeadTail(es);
    }
  }

  /** Parsing any text of a list of proper entries gives the list back, flags included. */
  lemma {:induction false} ParseInvertsRender(lib: Library, ws: seq<Written>, end: string, canMulti: bool)
    requires AllLegal(ws, canMulti) && Ends(end, canMulti) && forall i :: 0 <= i < |ws| ==> Renderable(lib, ws[i].entry)
    ensures Parse(lib, Render(ws, end), canMulti) == Some(Entries(ws))
  {
    ParseRendered(lib, ws, end, canMulti);
    AddAllWhole(lib, Entries(ws));
  }

  // ---- which texts are names ----

  lemma {:induction false} AtEquals(s: string, eq: nat, used: nat)
    requires eq < |s| && s[eq] == '=' && used <= |s[eq + 1..]|
    ensures s == s[..eq] + "=" + s[eq + 1..][..used] + s[eq + 1..][used..]
  {
  }

  lemma {:induction false} HeadReads(s: string, canMulti: bool, multi: bool) returns (w: Written, tail: string)
    requires HeadOf(s, canMulti).Some? && (multi ==> canMulti)
    ensures Legal(w, canMulti) && w.entry.multi == multi && s == RenderEntry(w) + tail
    ensures var h := HeadOf(s, canMulti).value;
      && (tail == "" ==> h.rest == "")
      && (tail != "" ==> EndsValue(tail[0], canMulti) && h.rest == tail[1..] && (h.plus <==> canMulti && tail[0] == '+'))
  {
    var eq := IndexOf(s, '=');
    var kind, body := s[..eq], s[eq + 1..];
    var escaped := ScanReads(body, canMulti);
    var v := ScanValue(body, canMulti).value;
    w, tail := Written(Entry(kind, v.value, multi), escaped), body[v.used..];
    AtEquals(s, eq, v.used);
  }

  lemma {:induction false} TailReads(lib: Library, s: string, canMulti: bool, multi: bool) returns (w: Written, ws: seq<Written>, end: string)
    requires s != "" && ParseFrom(lib, s, canMulti, multi).Some? && (multi ==> canMulti)
    ensures Legal(w, canMulti) && w.entry.multi == multi && Ends(end, canMulti) && forall i :: 0 <= i < |ws| ==> Legal(ws[i], canMulti)
    ensures s == RenderEntry(w) + RenderTail(ws, end)
    decreases |s|
  {
    var tail;
    w, tail := HeadReads(s, canMulti, multi);
    var h := HeadOf(s, canMulti).value;
    if h.rest == "" {
      ws, end := [], tail;
      if tail != "" { HeadTail(tail); }
    } else {
      var w', ws';
      w', ws', end := TailReads(lib, h.rest, canMulti, h.plus);
      ws := [w'] + ws';
      TailParts(ws, end);
      HeadTail(tail);
      HeadTail(RenderTail(ws, end));
      assert ws[1..] == ws';
    }
  }

  /** Every text that is accepted is one of these, so ParseMeans says what any text means. */
  lemma {:induction false} ParseReads(lib: Library, text: string, canMulti: bool) returns (ws: seq<Written>, end: string)
    requires Parse(lib, text, canMulti).Some?
    ensures AllLegal(ws, canMulti) && Ends(end, canMulti) && text == Render(ws, end) && NoneRefused(lib, Entries(ws))
  {
    if text == "/" {
      ws, end := [], "";
    } else {
      var w, rest;
      w, rest, end := TailReads(lib, text[1..], canMulti, false);
      ws := [w] + rest;
      assert ws[1..] == rest;
      RenderParts(ws, end);
      HeadTail(text);
      HeadTail(Render(ws, end));
      ghost var _ := ParseMeans(lib, ws, end, canMulti);
    }
  }

  /** A text of these entries. */
  ghost predicate Spells(text: string, canMulti: bool, ws: seq<Written>, end: string) {
    AllLegal(ws, canMulti) && Ends(end, canMulti) && text == Render(ws, end)
  }

  /** The texts that parse_name accepts. */
  lemma {:induction false} AcceptedIff(lib: Library, text: string, canMulti: bool)
    ensures Parse(lib, text, canMulti).Some? <==>
      exists ws, end :: Spells(text, canMulti, ws, end) && NoneRefused(lib, Entries(ws))
  {
    if Parse(lib, text, canMulti).Some? {
      var ws, end := ParseReads(lib, text, canMulti);
      assert Spells(text, canMulti, ws, end);
    }
    if ws, end :| Spells(text, canMulti, ws, end) && NoneRefused(lib, Entries(ws)) {
      var _ := ParseMeans(lib, ws, end, canMulti);
    }
  }

  // ---- the code, with its cursor and its work buffer ----

  /** The first loop: the type, up to '='. */
  method CollectType(text: string, from: nat, work: array<char>) returns (cp: nat, bp: nat)
    requires 1 <= from <= |text| == work.Length
    modifies work
    ensures from <= cp <= |text| && bp == cp - from
    ensures work[..bp] == text[from..cp]
    ensures cp == from + IndexOf(text[from..], '=')
  {
    cp, bp := from, 0;
    while cp < |text| && text[cp] != '='
      invariant from <= cp <= |text| && bp == cp - from
      invariant work[..bp] == text[from..cp]
      invariant forall i :: from <= i < cp ==> text[i] != '='
    {
      work[bp] := text[cp];
      cp, bp := cp + 1, bp + 1;
    }
    assert forall i :: 0 <= i < cp - from ==> text[from..][i] == text[from + i];
  }

  /** The second loop: the value, from bp on; the writes stay within the copy of the input. */
  method CollectValue(text: string, from: nat, work: array<char>, start: nat, canMulti: bool)
    returns (ok: bool, cp: nat, bp: nat, plus: bool)
    requires start < from <= |text| == work.Length
    modifies work
    ensures ok <==> ScanValue(text[from..], canMulti).Some?
    ensures ok ==> var v := ScanValue(text[from..], canMulti).value;
      && cp == from + v.used <= |text| && bp == start + |v.value| < |text|
      && work[start..bp] == v.value
      && (plus <==> cp < |text| && canMulti && text[cp] == '+')
  {
    cp, bp, plus := from, start, false;
    ghost var whole := ScanValue(text[from..], canMulti);
    assert work[start..bp] == "";
    Began(whole);
    while cp < |text| && text[cp] != '/'
      invariant from <= cp <= |text| && start <= bp && bp - start <= cp - from
      invariant Extends(whole, work[start..bp], cp - from, ScanValue(text[cp..], canMulti))
    {
      if canMulti && text[cp] == '+' {
        plus := true;
        break;
      }
      ghost var sofar, was := work[start..bp], cp;
      if text[cp] == '\\' {
        cp := cp + 1;
        if cp == |text| {
          assert text[cp - 1..] == "\\";
          return false, cp, bp, false;
        }
      }
      TakeChar(text, was, cp, canMulti, whole, sofar, was - from);
      work[bp] := text[cp];
      assert work[start..bp + 1] == sofar + [text[cp]];
      cp, bp := cp + 1, bp + 1;
    }
    ok := true;
  }

  /** One character of a value, at cp behind the escape that may stand at was. */
  lemma {:induction false} TakeChar(text: string, was: nat, cp: nat, canMulti: bool, whole: Option<Piece>, sofar: string, used: nat)
    requires was <= cp < |text| && !EndsValue(text[was], canMulti)
    requires cp == if text[was] == '\\' then was + 1 else was
    requires Extends(whole, sofar, used, ScanValue(text[was..], canMulti))
    ensures Extends(whole, sofar + [text[cp]], used + cp + 1 - was, ScanValue(text[cp + 1..], canMulti))
  {
    var rest := text[cp + 1..];
    assert text[was..] == if was < cp then ['\\', text[cp]] + rest else [text[cp]] + rest;
    ScanStep(text[cp], rest, canMulti);
    Advance(whole, sofar, used, text[cp], cp + 1 - was, ScanValue(rest, canMulti));
  }

  /** The whole scan is what has been collected and the scan of the rest. */
  ghost predicate Extends(whole: Option<Piece>, sofar: string, used: nat, rest: Option<Piece>) {
    && (whole.Some? <==> rest.Some?)
    && (whole.Some? ==> whole.value.value == sofar + rest.value.value && whole.value.used == used + rest.value.used)
  }

  lemma {:induction false} Began(whole: Option<Piece>)
    ensures Extends(whole, "", 0, whole)
  {
  }

  lemma {:induction false} Advance(whole: Option<Piece>, sofar: string, used: nat, c: char, width: nat, rest: Option<Piece>)
    requires Extends(whole, sofar, used, Push(c, width, rest))
    ensures Extends(whole, sofar + [c], used + width, rest)
  {
    if rest.Some? { assert sofar + ([c] + rest.value.value) == sofar + [c] + rest.value.value; }
  }

  lemma {:induction false} HeadAt(text: string, from: nat, eq: nat, canMulti: bool)
    requires from <= eq < |text| && eq == from + IndexOf(text[from..], '=')
    ensures HeadOf(text[from..], canMulti) == HeadOfBody(text[from..eq], text[eq + 1..], canMulti)
  {
    var s := text[from..];
    assert s[..eq - from] == text[from..eq] && s[eq - from + 1..] == text[eq + 1..];
  }

  lemma {:induction false} HeadOfBodyAt(kind: string, text: string, at: nat, canMulti: bool, value: string, end: nat, next: nat, plus: bool)
    requires at <= end <= |text| && ScanValue(text[at..], canMulti) == Some(Piece(value, end - at))
    requires next == (if end < |text| then end + 1 else end) && (plus <==> end < |text| && canMulti && text[end] == '+')
    ensures HeadOfBody(kind, text[at..], canMulti) == Some(Head(kind, value, text[next..], plus))
  {
    assert text[at..][end - at..] == text[end..];
    if end < |text| {
      assert text[end..][1..] == text[next..];
    } else {
      assert text[end..] == "";
    }
  }

  /** The value of an entry and the step over its separator. */
  method CollectBody(kind: string, text: string, from: nat, work: array<char>, start: nat, canMulti: bool)
    returns (head: Option<Head>, cp: nat)
    requires start < from <= |text| == work.Length
    modifies work
    ensures head == HeadOfBody(kind, text[from..], canMulti)
    ensures head.Some? ==> from <= cp <= |text| && head.value.rest == text[cp..]
  {
    var ok, end, bp, plus;
    ok, end, bp, plus := CollectValue(text, from, work, start, canMulti);
    cp := end;
    if !ok {
      return None, cp;
    }
    var value := work[start..bp];
    work[bp] := '\0';
    if cp < |text| {
      cp := cp + 1;
    }
    HeadOfBodyAt(kind, text, from, canMulti, value, end, cp, plus);
    head := Some(Head(kind, value, text[cp..], plus));
  }

  /** One turn of the outer loop: an entry is collected in the work buffer. */
  method CollectEntry(text: string, from: nat, work: array<char>, canMulti: bool)
    returns (head: Option<Head>, cp: nat)
    requires 1 <= from < |text| == work.Length
    modifies work
    ensures head == HeadOf(text[from..], canMulti)
    ensures head.Some? ==> from < cp <= |text| && head.value.rest == text[cp..]
  {
    var bp;
    cp, bp := CollectType(text, from, work);
    if cp == |text| {
      return None, cp;
    }
    HeadAt(text, from, cp, canMulti);
    var kind := work[..bp];
    work[bp] := '\0';
    head, cp := CollectBody(kind, text, cp + 1, work, bp + 1, canMulti);
  }

  /** The entries collected so far and those still to come. */
  ghost predicate Continues(whole: Option<seq<Entry>>, acc: seq<Entry>, rest: Option<seq<Entry>>) {
    && (whole.Some? <==> rest.Some?)
    && (whole.Some? ==> whole.value == acc + rest.value)
  }

  lemma {:induction false} ContinueWith(lib: Library, whole: Option<seq<Entry>>, acc: seq<Entry>, e: Entry, rest: Option<seq<Entry>>)
    requires Continues(whole, acc, AddEntry(lib, e, rest))
    ensures lib.known(e.kind) && e.value != "" && lib.accepts(e.kind, e.value) ==> Continues(whole, acc + [e], rest)
  {
    if rest.Some? { assert acc + ([e] + rest.value) == acc + [e] + rest.value; }
  }

  /** One turn of the outer loop with its decision about the entry. */
  method TakeEntry(lib: Library, text: string, from: nat, work: array<char>, canMulti: bool, multi: bool, acc: seq<Entry>,
                   ghost whole: Option<seq<Entry>>)
    returns (ok: bool, cp: nat, plus: bool, acc': seq<Entry>)
    requires 1 <= from < |text| == work.Length
    requires Continues(whole, acc, ParseFrom(lib, text[from..], canMulti, multi))
    modifies work
    ensures ok ==> from < cp <= |text| && Continues(whole, acc', ParseFrom(lib, text[cp..], canMulti, plus))
    ensures !ok ==> whole.None?
  {
    var head;
    head, cp := CollectEntry(text, from, work, canMulti);
    if head.None? {
      return false, cp, false, acc;
    }
    var e := Entry(head.value.kind, head.value.value, multi);
    plus := head.value.plus;
    ContinueWith(lib, whole, acc, e, ParseFrom(lib, text[cp..], canMulti, plus));
    if !lib.known(e.kind) || e.value == "" {
      return true, cp, plus, acc;
    }
    if !lib.accepts(e.kind, e.value) {
      return false, cp, plus, acc;
    }
    return true, cp, plus, acc + [e];
  }

  method ParseName(lib: Library, text: string, canMulti: bool) returns (r: Option<seq<Entry>>)
    ensures r == Parse(lib, text, canMulti)
  {
    if text == "" || text[0] != '/' {
      return None;
    }
    ghost var whole := ParseFrom(lib, text[1..], canMulti, false);
    var work := new char[|text|](_ => '\0');
    var acc: seq<Entry> := [];
    var cp, multi, ok := 1, false, true;
    NothingYet(whole);
    while cp < |text|
      invariant 1 <= cp <= |text|
      invariant Continues(whole, acc, ParseFrom(lib, text[cp..], canMulti, multi))
    {
      ok, cp, multi, acc := TakeEntry(lib, text, cp, work, canMulti, multi, acc, whole);
      if !ok {
        return None;
      }
    }
    assert text[cp..] == "" && acc + [] == acc;
    return Some(acc);
  }

  lemma {:induction false} NothingYet(whole: Option<seq<Entry>>)
    ensures Continues(whole, [], whole)
  {
  }
}
