/** The line-prefix filter BIO: every line that passes through gets the prefix once, however the
    text is cut into writes and however little the next BIO takes at a time. */
module PrefixFilter {
  import opened CText

  /** Is the next byte after the text the first of a line?  start says so for the empty text. */
  predicate AtStart(start: bool, text: string) {
    if text == "" then start else text[|text| - 1] == '\n'
  }

  /** The text with the prefix before the first byte of each line. */
  function Render(prefix: string, start: bool, text: string): string {
    if text == "" then ""
    else
      var front := text[..|text| - 1];
      Render(prefix, start, front) + (if AtStart(start, front) then prefix else "") + [text[|text| - 1]]
  }

  /** Rendering can be done piece by piece. */
  lemma {:induction false} RenderSplit(prefix: string, start: bool, a: string, b: string)
    ensures Render(prefix, start, a + b) == Render(prefix, start, a) + Render(prefix, AtStart(start, a), b)
    ensures AtStart(start, a + b) == AtStart(AtStart(start, a), b)
  {
    if b == "" {
      assert a + b == a;
    } else {
      var b', c := b[..|b| - 1], b[|b| - 1];
      RenderSplit(prefix, start, a, b');
      assert (a + b)[..|a + b| - 1] == a + b' && (a + b)[|a + b| - 1] == c;
      var mid := if AtStart(start, a + b') then prefix else "";
      Associate(Render(prefix, start, a), Render(prefix, AtStart(start, a), b'), mid, [c]);
    }
  }

  lemma {:induction false} Associate(a: string, b: string, c: string, d: string)
    ensures a + b + c + d == a + (b + c + d)
  {
  }

  /** Inside a line nothing is added. */
  lemma {:induction false} RenderInLine(prefix: string, text: string)
    requires forall i :: 0 <= i < |text| - 1 ==> text[i] != '\n'
    ensures Render(prefix, false, text) == text
  {
    if text != "" {
      var front := text[..|text| - 1];
      RenderInLine(prefix, front);
      assert text == front + [text[|text| - 1]];
    }
  }

  /** A line is rendered as the prefix and the line; then a new line begins. */
  lemma {:induction false} RenderLine(prefix: string, line: string, rest: string)
    requires '\n' !in line
    ensures Render(prefix, true, line + "\n" + rest) == prefix + line + "\n" + Render(prefix, true, rest)
  {
    var text := line + "\n";
    RenderSplit(prefix, true, text, rest);
    RenderSplit(prefix, true, text[..1], text[1..]);
    assert text == text[..1] + text[1..];
    assert text[..1][..0] == "";
    assert Render(prefix, true, text[..1]) == prefix + text[..1];
    if line == "" {
      assert text[1..] == "";
    } else {
      assert text[0] != '\n';
      RenderInLine(prefix, text[1..]);
    }
    assert prefix + text[..1] + text[1..] == prefix + text;
  }

  /** The next BIO.  It may refuse a write, or take any nonempty part of it. */
  class Sink {
    var data: string

    constructor ()
      ensures data == ""
    {
      data := "";
    }

    method Write(bytes: string) returns (ok: bool, num: nat)
      modifies this
      ensures num <= |bytes| && data == old(data) + bytes[..num]
      ensures ok && bytes != "" ==> num > 0
      ensures !ok ==> num == 0
    {
      ok, num := *, 0;
      if ok && bytes != "" {
        num :| 1 <= num <= |bytes|;
      }
      data := data + bytes[..num];
    }

    /** A write that is taken whole or not at all. */
    method WriteWhole(bytes: string) returns (ok: bool)
      modifies this
      ensures data == if ok then old(data) + bytes else old(data)
    {
      ok := *;
      if ok { data := data + bytes; }
    }
  }

  class Filter {
    const next: Sink
    var prefix: Option<string>
    var linestart: bool
    /** What was in the sink when the prefix was set, whether a line began there, and the text
        accepted since then. */
    ghost var base: string
    ghost var begun: bool
    ghost var consumed: string

    ghost function Prefix(): string
      reads this
    {
      if prefix.Some? then prefix.value else ""
    }

    /** The sink holds the accepted text rendered, plus the prefix of a line whose first byte is
        still to come. */
    ghost predicate Valid()
      reads this, next
    {
      && next.data == Shown(base, Prefix(), begun, consumed, !linestart)
      && (Prefix() != "" && linestart ==> AtStart(begun, consumed))
    }

    constructor (next: Sink)
      ensures Valid() && this.next == next && prefix == None && linestart && consumed == ""
    {
      this.next, prefix, linestart := next, None, true;
      base, begun, consumed := next.data, true, "";
    }

    /** PREFIX_CTRL_SET_PREFIX */
    method SetPrefix(p: string)
      modifies this
      ensures Valid() && prefix == Some(p) && linestart == old(linestart)
      ensures base == next.data && begun == linestart && consumed == ""
    {
      prefix := Some(p);
      base, begun, consumed := next.data, linestart, "";
    }

    /** prefix_write: the bytes counted as written are the bytes accepted; on failure the caller
        hands in the rest again. */
    method PrefixWrite(out: string) returns (ret: bool, numwritten: nat)
      requires Valid()
      modifies this, next
      ensures Valid() && prefix == old(prefix) && base == old(base) && begun == old(begun)
      ensures numwritten <= |out| && consumed == old(consumed) + out[..numwritten]
      ensures Prefix() != "" ==> (ret <==> numwritten == |out|)
      ensures ret && out != "" ==> linestart == (out[|out| - 1] == '\n')
    {
      if prefix.None? || prefix.value == "" {
        ret, numwritten := PassThrough(out);
        return;
      }
      numwritten := 0;
      Resume(old(consumed), out, 0, 0);
      while numwritten < |out|
        invariant Valid() && prefix == old(prefix) && base == old(base) && begun == old(begun)
        invariant numwritten <= |out| && consumed == old(consumed) + out[..numwritten]
        invariant 0 < numwritten == |out| ==> linestart == (out[|out| - 1] == '\n')
      {
        var num;
        ret, num := WriteLine(out[numwritten..]);
        Resume(old(consumed), out, numwritten, num);
        numwritten := numwritten + num;
        if !ret {
          return;
        }
      }
      ret := true;
    }

    /** Without a prefix the filter only notes whether a line begins next. */
    method PassThrough(out: string) returns (ret: bool, numwritten: nat)
      requires Valid() && Prefix() == ""
      modifies this, next
      ensures Valid() && prefix == old(prefix) && base == old(base) && begun == old(begun)
      ensures numwritten <= |out| && consumed == old(consumed) + out[..numwritten]
      ensures out != "" ==> linestart == (out[|out| - 1] == '\n')
      ensures out == "" ==> linestart == old(linestart)
    {
      if |out| > 0 {
        linestart := out[|out| - 1] == '\n';
      }
      ret, numwritten := next.Write(out);
      ShownPlain(base, begun, consumed, out[..numwritten], old(!linestart), !linestart);
      consumed := consumed + out[..numwritten];
    }

    /** The prefix, if a line begins. */
    method BeginLine() returns (ok: bool)
      requires Valid() && Prefix() != ""
      modifies `linestart, next
      ensures Valid() && (if ok then !linestart else linestart)
    {
      ok := true;
      if linestart {
        ok := next.WriteWhole(prefix.value);
        if ok {
          ShownReady(base, Prefix(), begun, consumed);
          linestart := false;
        }
      }
    }

    /** One round of the outer loop: the prefix if a line begins, then the bytes up to and including
        the next newline. */
    method WriteLine(out: string) returns (ok: bool, num: nat)
      requires Valid() && Prefix() != "" && out != ""
      modifies this, next
      ensures Valid() && prefix == old(prefix) && base == old(base) && begun == old(begun)
      ensures num <= |out| && consumed == old(consumed) + out[..num]
      ensures ok ==> num > 0 && linestart == (out[num - 1] == '\n')
      ensures !ok ==> num < |out|
    {
      Resume(consumed, out, 0, 0);
      ok := BeginLine();
      if !ok {
        return false, 0;
      }
      ok, num := WriteToNewline(out);
    }

    /** The bytes up to and including the next newline, behind the prefix. */
    method WriteToNewline(out: string) returns (ok: bool, num: nat)
      requires Valid() && Prefix() != "" && out != "" && !linestart
      modifies `linestart, `consumed, next
      ensures Valid()
      ensures num <= |out| && consumed == old(consumed) + out[..num]
      ensures ok ==> num > 0 && linestart == (out[num - 1] == '\n')
      ensures !ok ==> num < |out|
    {
      var i := IndexOf(out, '\n');
      var newline := i < |out|;
      if newline {
        i := i + 1;
      }
      ok, num := WritePart(out[..i]);
      assert out[..i][..num] == out[..num];
      if num > 0 { AtStartAfter(begun, old(consumed), out[..num]); }
      if ok && newline {
        linestart := true;
      }
    }

    /** The loop that writes one line, or the piece of it at hand, behind its prefix. */
    method WritePart(part: string) returns (ok: bool, written: nat)
      requires Valid() && Prefix() != "" && !linestart && InLine(part)
      modifies `consumed, next
      ensures written <= |part| && consumed == old(consumed) + part[..written]
      ensures ok <==> written == |part|
      ensures next.data == Shown(base, Prefix(), begun, consumed, written == 0)
    {
      written := 0;
      ghost var start := consumed;
      Resume(start, part, 0, 0);
      while written < |part|
        invariant written <= |part| && consumed == start + part[..written]
        invariant next.data == Shown(base, Prefix(), begun, consumed, written == 0)
        invariant 0 < written < |part| ==> !AtStart(begun, consumed)
      {
        var num;
        ok, num := next.Write(part[written..]);
        if !ok {
          return;
        }
        PieceInLine(part, written, num);
        ShownMore(base, Prefix(), begun, consumed, part[written..][..num], written == 0);
        Resume(start, part, written, num);
        consumed := consumed + part[written..][..num];
        written := written + num;
        InsideLine(begun, start, part, written);
      }
      ok := true;
    }
  }

  /** Inside a line no new one begins. */
  lemma {:induction false} InsideLine(begun: bool, before: string, part: string, at: nat)
    requires InLine(part) && 0 < at <= |part|
    ensures at < |part| ==> !AtStart(begun, before + part[..at])
  {
    AtStartAfter(begun, before, part[..at]);
  }

  /** The accepted text, rendered behind what was there before, and the prefix of a line that has
      begun without a byte yet. */
  function Shown(base: string, prefix: string, begun: bool, consumed: string, ready: bool): string {
    base + Render(prefix, begun, consumed) + if ready && AtStart(begun, consumed) then prefix else ""
  }

  lemma {:induction false} AtStartAfter(begun: bool, before: string, piece: string)
    requires piece != ""
    ensures AtStart(begun, before + piece) <==> piece[|piece| - 1] == '\n'
  {
  }

  lemma {:induction false} ShownReady(base: string, prefix: string, begun: bool, consumed: string)
    requires AtStart(begun, consumed)
    ensures Shown(base, prefix, begun, consumed, false) + prefix == Shown(base, prefix, begun, consumed, true)
  {
  }

  /** With no prefix the text passes unchanged. */
  lemma {:induction false} RenderEmpty(start: bool, text: string)
    ensures Render("", start, text) == text
  {
    if text != "" {
      RenderEmpty(start, text[..|text| - 1]);
      assert text == text[..|text| - 1] + [text[|text| - 1]];
    }
  }

  lemma {:induction false} ShownPlain(base: string, begun: bool, consumed: string, more: string, r: bool, r': bool)
    ensures Shown(base, "", begun, consumed, r) + more == Shown(base, "", begun, consumed + more, r')
  {
    RenderEmpty(begun, consumed);
    RenderEmpty(begun, consumed + more);
    Associate(base, consumed, "", more);
    assert base + (consumed + "" + more) == base + (consumed + more) + "";
  }

  /** A write continues where the last one stopped. */
  lemma {:induction false} Resume(before: string, text: string, at: nat, num: nat)
    requires at <= |text| && num <= |text| - at
    ensures before + text[..at] + text[at..][..num] == before + text[..at + num]
    ensures before + text[..0] == before
  {
    assert text[..at] + text[at..][..num] == text[..at + num];
  }

  /** A piece of a line at the start of one: the prefix and the piece. */
  lemma {:induction false} RenderFirst(prefix: string, piece: string)
    requires InLine(piece)
    ensures Render(prefix, true, piece) == prefix + piece
  {
    var head, tail := piece[..1], piece[1..];
    assert piece == head + tail;
    RenderSplit(prefix, true, head, tail);
    assert head[..0] == "";
    assert Render(prefix, true, head) == "" + prefix + head;
    if tail != "" { RenderInLine(prefix, tail); }
    assert prefix + head + tail == prefix + piece;
  }

  lemma {:induction false} RegroupPrefix(a: string, b: string, c: string, d: string)
    ensures a + b + c + d == a + (b + (c + d)) + ""
  {
  }

  lemma {:induction false} RegroupPlain(a: string, b: string, d: string)
    ensures a + b + "" + d == a + (b + d) + ""
  {
  }

  /** Writing a piece of a line adds its bytes to what is shown. */
  lemma {:induction false} ShownMore(base: string, prefix: string, begun: bool, consumed: string, piece: string, ready: bool)
    requires InLine(piece)
    requires !ready ==> !AtStart(begun, consumed)
    ensures Shown(base, prefix, begun, consumed, ready) + piece == Shown(base, prefix, begun, consumed + piece, false)
  {
    RenderSplit(prefix, begun, consumed, piece);
    if AtStart(begun, consumed) {
      RenderFirst(prefix, piece);
      RegroupPrefix(base, Render(prefix, begun, consumed), prefix, piece);
    } else {
      RenderInLine(prefix, piece);
      RegroupPlain(base, Render(prefix, begun, consumed), piece);
    }
  }

  /** Part of one line, its newline perhaps included. */
  predicate InLine(piece: string) { piece != "" && forall i :: 0 <= i < |piece| - 1 ==> piece[i] != '\n' }

  lemma {:induction false} PieceInLine(part: string, at: nat, num: nat)
    requires InLine(part) && at < |part| && 0 < num <= |part| - at
    ensures InLine(part[at..][..num]) && part[..at] + part[at..][..num] == part[..at + num]
  {
    var piece := part[at..][..num];
    assert forall i :: 0 <= i < num ==> piece[i] == part[at + i];
  }

  /** A caller that hands in the unwritten tail after each failure: once all is taken, the sink has
      grown by the rendered text and nothing else, whatever failed on the way. */
  method WriteAll(f: Filter, text: string, attempts: nat) returns (done: bool)
    requires f.Valid() && f.Prefix() != "" && f.linestart
    modifies f, f.next
    ensures f.Valid() && f.base == old(f.base) && f.begun == old(f.begun) && f.prefix == old(f.prefix)
    ensures done ==> f.consumed == old(f.consumed) + text
    ensures done ==> f.next.data == old(f.next.data) + Render(f.Prefix(), true, text)
  {
    var at, tries := 0, attempts;
    ghost var before := f.consumed;
    Resume(before, text, 0, 0);
    if text == "" {
      return true;
    }
    while tries > 0
      invariant f.Valid() && f.base == old(f.base) && f.begun == old(f.begun) && f.prefix == old(f.prefix)
      invariant 0 <= at < |text| && f.consumed == before + text[..at]
    {
      var ret, num := f.PrefixWrite(text[at..]);
      Resume(before, text, at, num);
      at := at + num;
      if ret {
        assert text[..at] == text;
        ShownWhole(f.base, f.Prefix(), f.begun, before, text);
        return true;
      }
      tries := tries - 1;
    }
    return false;
  }

  /** At a line start nothing is pending, and after the text only a newline ends one. */
  lemma {:induction false} ShownWhole(base: string, prefix: string, begun: bool, before: string, text: string)
    requires AtStart(begun, before) && text != ""
    ensures Shown(base, prefix, begun, before + text, text[|text| - 1] != '\n')
         == Shown(base, prefix, begun, before, false) + Render(prefix, true, text)
  {
    RenderSplit(prefix, begun, before, text);
    Associate(base, Render(prefix, begun, before), "", Render(prefix, true, text));
  }
}
