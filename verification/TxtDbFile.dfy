/** The text file of the CA database: one line per row, columns separated by tabs, tabs inside a
    column escaped by a backslash.  When does reading a written file give the rows back? */
module TxtDbFile {
  import opened CText
  import opened SeqFacts

  type Fields = seq<string>

  // ---- writing ----

  function EscapeTabs(f: string): string {
    if f == "" then ""
    else
      var front, c := EscapeTabs(f[..|f| - 1]), f[|f| - 1];
      if c == '\t' then front + ['\\', '\t'] else front + [c]
  }

  function WriteRow(r: Fields): string {
    if r == [] then "" else if |r| == 1 then EscapeTabs(r[0]) else EscapeTabs(r[0]) + "\t" + WriteRow(r[1..])
  }

  function WriteRows(rows: seq<Fields>): string {
    if rows == [] then "" else WriteRow(rows[0]) + "\n" + WriteRows(rows[1..])
  }

  /** The format: a tab inside a column is written with a backslash before it, every other character
      as it is; columns are separated by tabs, and every row ends in a newline. */
  lemma {:induction false} EscapeAppend(a: string, b: string)
    ensures EscapeTabs(a + b) == EscapeTabs(a) + EscapeTabs(b)
  {
    if b == "" {
      Whole(a);
      Whole(EscapeTabs(a));
    } else {
      var n := |b| - 1;
      EscapeAppend(a, b[..n]);
      FrontLast(b);
      Assoc(a, b[..n], [b[n]]);
      EscapeSnoc(a + b[..n], b[n]);
      EscapeSnoc(b[..n], b[n]);
      Assoc(EscapeTabs(a), EscapeTabs(b[..n]), if b[n] == '\t' then ['\\', '\t'] else [b[n]]);
    }
  }

  lemma {:induction false} EscapePlain(f: string)
    ensures '\t' !in f ==> EscapeTabs(f) == f
    ensures EscapeTabs("\t") == "\\\t"
  {
    if f != "" && '\t' !in f {
      EscapePlain(f[..|f| - 1]);
      FrontLast(f);
    }
    EscapeSnoc("", '\t');
    assert "" + ['\t'] == "\t";
  }

  lemma {:induction false} WriteRowAppend(a: Fields, b: Fields)
    requires a != [] && b != []
    ensures WriteRow(a + b) == WriteRow(a) + "\t" + WriteRow(b)
    ensures WriteRow([a[0]]) == EscapeTabs(a[0])
  {
    if |a| == 1 {
      WriteRowCons(a[0], b);
      assert a == [a[0]];
    } else {
      WriteRowAppend(a[1..], b);
      HeadTail(a);
      Assoc([a[0]], a[1..], b);
      WriteRowCons(a[0], a[1..] + b);
      WriteRowCons(a[0], a[1..]);
      Assoc(EscapeTabs(a[0]) + "\t", WriteRow(a[1..]) + "\t", WriteRow(b));
      Assoc(EscapeTabs(a[0]) + "\t", WriteRow(a[1..]), "\t");
    }
  }

  lemma {:induction false} WriteRowsAppend(a: seq<Fields>, b: seq<Fields>, r: Fields)
    ensures WriteRows(a + b) == WriteRows(a) + WriteRows(b)
    ensures WriteRows([r]) == WriteRow(r) + "\n"
  {
    if a == [] {
      Whole(b);
      Whole(WriteRows(b));
    } else {
      WriteRowsAppend(a[1..], b, r);
      HeadTail(a);
      Assoc([a[0]], a[1..], b);
      WriteRowsCons(a[0], a[1..] + b);
      WriteRowsCons(a[0], a[1..]);
      Assoc(WriteRow(a[0]) + "\n", WriteRows(a[1..]), WriteRows(b));
    }
    WriteRowsCons(r, []);
    Whole([r]);
    Whole(WriteRow(r) + "\n");
  }

  lemma {:induction false} WriteRowsCons(r: Fields, rows: seq<Fields>)
    ensures WriteRows([r] + rows) == WriteRow(r) + "\n" + WriteRows(rows)
  {
    assert ([r] + rows)[0] == r && ([r] + rows)[1..] == rows;
  }

  // ---- reading ----

  predicate EndsInBackslash(s: string) { s != "" && s[|s| - 1] == '\\' }

  /** The columns of what is left of a line, cur being the column begun; a tab right after a
      backslash replaces it instead of ending the column. */
  function SplitLine(s: string, cur: string): (r: Fields)
    ensures |r| >= 1
    decreases |s|
  {
    if s == "" then [cur]
    else if s[0] == '\t' then
      if EndsInBackslash(cur) then SplitLine(s[1..], cur[..|cur| - 1] + "\t") else [cur] + SplitLine(s[1..], "")
    else SplitLine(s[1..], cur + [s[0]])
  }

  /** A line must have num columns; one more, empty column is overlooked. */
  function ReadLine(num: nat, line: string): Option<Fields> {
    var r := SplitLine(line, "");
    if |r| == num then Some(r)
    else if |r| == num + 1 && r[num] == "" then Some(r[..num])
    else None
  }

  const BUFSIZE: nat := 512

  /** The read buffer after a line of that length, newline included, was put together in it. */
  function Grown(size: nat, length: nat): (r: nat)
    ensures r >= size && r > length
    decreases length - size
  {
    if length < size then size else Grown(size + BUFSIZE, length)
  }

  /** It grows by 512 bytes at a time, and no more often than it must. */
  lemma {:induction false} GrownIs(size: nat, length: nat)
    ensures var r := Grown(size, length); (r - size) % 512 == 0 && (r == size || r <= length + 512)
    decreases length - size
  {
    if length >= size { GrownIs(size + BUFSIZE, length); }
  }

  /** What one BIO_gets takes: a line with its newline, or as much as the buffer holds. */
  function Gulp(text: string, size: nat): (c: nat)
    requires text != "" && size >= 2
    ensures 1 <= c <= |text|
  {
    var k := IndexOf(text, '\n');
    if k < size - 1 && k < |text| then k + 1 else if size - 1 < |text| then size - 1 else |text|
  }

  /** A comment is what one read from a '#' on takes; where it is longer than the buffer, the rest of
      its line is read as a line of its own.  A last line without a newline is dropped. */
  function ReadRows(num: nat, text: string, size: nat): Option<seq<Fields>>
    requires size >= 2
    decreases |text|
  {
    var k := IndexOf(text, '\n');
    if text != "" && text[0] == '#' then ReadRows(num, text[Gulp(text, size)..], size)
    else if k == |text| then Some([])
    else
      var r, rest := ReadLine(num, text[..k]), ReadRows(num, text[k + 1..], Grown(size, k + 1));
      if r.None? || rest.None? then None else Some([r.value] + rest.value)
  }

  /** A file is read with the buffer's first size. */
  function ReadFile(num: nat, text: string): Option<seq<Fields>> { ReadRows(num, text, BUFSIZE) }

  // ---- writing what was read gives the line back ----

  lemma {:induction false} EscapeSnoc(f: string, c: char)
    ensures EscapeTabs(f + [c]) == if c == '\t' then EscapeTabs(f) + ['\\', '\t'] else EscapeTabs(f) + [c]
  {
    assert (f + [c])[..|f|] == f;
  }

  lemma {:induction false} WriteSplit(s: string, cur: string)
    ensures WriteRow(SplitLine(s, cur)) == EscapeTabs(cur) + s
    decreases |s|
  {
    if s == "" {
      Whole(EscapeTabs(cur));
    } else if s[0] != '\t' {
      WriteSplit(s[1..], cur + [s[0]]);
      EscapeSnoc(cur, s[0]);
      HeadTail(s);
      Assoc(EscapeTabs(cur), [s[0]], s[1..]);
    } else if EndsInBackslash(cur) {
      WriteSplit(s[1..], cur[..|cur| - 1] + "\t");
      EscapedTab(s, cur);
    } else {
      WriteSplit(s[1..], "");
      Whole(s[1..]);
      HeadTail(s);
      WriteRowCons(cur, SplitLine(s[1..], ""));
      Assoc(EscapeTabs(cur), "\t", s[1..]);
    }
  }

  lemma {:induction false} WriteRowCons(f: string, tail: Fields)
    requires tail != []
    ensures WriteRow([f] + tail) == EscapeTabs(f) + "\t" + WriteRow(tail)
  {
    assert ([f] + tail)[1..] == tail;
  }

  lemma {:induction false} EscapedTab(s: string, cur: string)
    requires s != "" && s[0] == '\t' && EndsInBackslash(cur)
    ensures EscapeTabs(cur[..|cur| - 1] + "\t") + s[1..] == EscapeTabs(cur) + s
  {
    var front := cur[..|cur| - 1];
    EscapeSnoc(front, '\t');
    EscapeSnoc(front, '\\');
    FrontLast(cur);
    HeadTail(s);
    Regroup(EscapeTabs(front), s[1..]);
  }

  lemma {:induction false} Regroup(a: string, b: string)
    ensures a + ['\\', '\t'] + b == a + ['\\'] + (['\t'] + b)
  {
  }

  lemma {:induction false} WriteRowSnocEmpty(r: Fields)
    requires r != []
    ensures WriteRow(r + [""]) == WriteRow(r) + "\t"
  {
    if |r| == 1 {
      assert (r + [""])[1..] == [""];
      assert EscapeTabs(r[0]) + "\t" + "" == EscapeTabs(r[0]) + "\t";
    } else {
      WriteRowSnocEmpty(r[1..]);
      assert (r + [""])[1..] == r[1..] + [""];
      assert EscapeTabs(r[0]) + "\t" + (WriteRow(r[1..]) + "\t") == EscapeTabs(r[0]) + "\t" + WriteRow(r[1..]) + "\t";
    }
  }

  /** An accepted line is at least as long as its row written. */
  lemma {:induction false} ReadLineSize(num: nat, line: string)
    requires num >= 1 && ReadLine(num, line).Some?
    ensures |WriteRow(ReadLine(num, line).value)| <= |line|
  {
    WriteSplit(line, "");
    var r := SplitLine(line, "");
    if |r| == num + 1 {
      WriteRowSnocEmpty(r[..num]);
      assert r == r[..num] + [""];
    }
  }

  // ---- counting lines ----

  function Newlines(s: string): nat {
    if s == "" then 0 else (if s[0] == '\n' then 1 else 0) + Newlines(s[1..])
  }

  lemma {:induction false} NewlinesAppend(a: string, b: string)
    ensures Newlines(a + b) == Newlines(a) + Newlines(b)
  {
    if a == "" {
      assert a + b == b;
    } else {
      NewlinesAppend(a[1..], b);
      assert (a + b)[1..] == a[1..] + b;
    }
  }

  lemma {:induction false} NoNewlines(s: string)
    ensures Newlines(s) == 0 <==> '\n' !in s
  {
    if s != "" {
      NoNewlines(s[1..]);
      assert s == [s[0]] + s[1..];
    }
  }

  /** There are at most as many rows as lines, and as much text as there are rows; when nothing of
      the text was left over, every line was a row. */
  predicate SizeOk(rows: seq<Fields>, text: string) {
    && |rows| <= Newlines(text) && |WriteRows(rows)| <= |text|
    && (|WriteRows(rows)| == |text| ==> |rows| == Newlines(text))
  }

  lemma {:induction false} SizeSkips(rows: seq<Fields>, a: string, b: string)
    requires SizeOk(rows, b) && a != ""
    ensures SizeOk(rows, a + b)
  {
    NewlinesAppend(a, b);
  }

  lemma {:induction false} SizeCons(r: Fields, rows: seq<Fields>, line: string, rest: string)
    requires SizeOk(rows, rest) && |WriteRow(r)| <= |line| && '\n' !in line
    ensures SizeOk([r] + rows, line + "\n" + rest)
  {
    WriteRowsCons(r, rows);
    NewlinesAppend(line + "\n", rest);
    NewlinesAppend(line, "\n");
    NoNewlines(line);
    assert "\n"[1..] == "";
  }

  lemma {:induction false} SkipComment(num: nat, text: string, size: nat)
    requires text != "" && text[0] == '#' && size >= 2
    ensures ReadRows(num, text, size) == ReadRows(num, text[Gulp(text, size)..], size)
  {
  }

  lemma {:induction false} DivideAt(text: string, k: nat)
    requires k <= |text|
    ensures text == text[..k] + text[k..]
    ensures k < |text| && text[k] == '\n' ==> text == text[..k] + "\n" + text[k + 1..]
  {
  }

  lemma {:induction false} ReadSize(num: nat, text: string, size: nat)
    requires num >= 1 && size >= 2 && ReadRows(num, text, size).Some?
    ensures SizeOk(ReadRows(num, text, size).value, text)
    decreases |text|, 1
  {
    var k := IndexOf(text, '\n');
    if text != "" && text[0] == '#' {
      SkipComment(num, text, size);
      ReadSizeRest(num, text, size, Gulp(text, size));
    } else if k < |text| {
      ReadAt(num, text, text[..k], text[k + 1..], size);
      ReadSize(num, text[k + 1..], Grown(size, k + 1));
      ReadSizeRow(num, text, k, ReadRows(num, text[k + 1..], Grown(size, k + 1)).value);
    }
  }

  lemma {:induction false} ReadSizeRest(num: nat, text: string, size: nat, c: nat)
    requires num >= 1 && size >= 2 && 1 <= c <= |text| && ReadRows(num, text[c..], size).Some?
    ensures SizeOk(ReadRows(num, text[c..], size).value, text)
    decreases |text|, 0
  {
    ReadSize(num, text[c..], size);
    DivideAt(text, c);
    SizeSkips(ReadRows(num, text[c..], size).value, text[..c], text[c..]);
  }

  lemma {:induction false} ReadSizeRow(num: nat, text: string, k: nat, rows: seq<Fields>)
    requires num >= 1 && k < |text| && text[k] == '\n' && '\n' !in text[..k]
    requires ReadLine(num, text[..k]).Some? && SizeOk(rows, text[k + 1..])
    ensures SizeOk([ReadLine(num, text[..k]).value] + rows, text)
  {
    ReadLineSize(num, text[..k]);
    DivideAt(text, k);
    SizeCons(ReadLine(num, text[..k]).value, rows, text[..k], text[k + 1..]);
  }

  // ---- reading what was written ----

  lemma {:induction false} SplitChar(c: char, rest: string, cur: string)
    ensures SplitLine(EscapeTabs([c]) + rest, cur) == SplitLine(rest, cur + [c])
  {
    assert [c][..0] == "";
    if c == '\t' {
      var s := ['\\', '\t'] + rest;
      assert EscapeTabs([c]) + rest == s;
      assert s[1..] == "\t" + rest && s[1..][1..] == rest;
      assert (cur + "\\")[..|cur|] == cur;
      assert SplitLine(s, cur) == SplitLine(s[1..], cur + "\\");
    } else {
      assert EscapeTabs([c]) + rest == [c] + rest;
      assert ([c] + rest)[1..] == rest;
    }
  }

  lemma {:induction false} EscapeOne(f: string)
    requires f != ""
    ensures EscapeTabs(f) == EscapeTabs(f[..|f| - 1]) + EscapeTabs([f[|f| - 1]])
  {
    var c := f[|f| - 1];
    assert [c][..0] == "";
    assert EscapeTabs([c]) == if c == '\t' then ['\\', '\t'] else [c];
  }

  lemma {:induction false} SplitField(f: string, rest: string, cur: string)
    ensures SplitLine(EscapeTabs(f) + rest, cur) == SplitLine(rest, cur + f)
  {
    if f == "" {
      Whole(rest);
      Whole(cur);
    } else {
      var front, c := f[..|f| - 1], f[|f| - 1];
      var e := EscapeTabs([c]);
      EscapeOne(f);
      Assoc(EscapeTabs(front), e, rest);
      SplitField(front, e + rest, cur);
      SplitChar(c, rest, cur + front);
      FrontLast(f);
      Assoc(cur, front, [c]);
    }
  }

  /** No column but the last ends in a backslash, which would swallow the separator. */
  predicate ColumnsApart(r: Fields) {
    forall i :: 0 <= i < |r| - 1 ==> !EndsInBackslash(r[i])
  }

  lemma {:induction false} SplitWritten(r: Fields, cur: string)
    requires r != [] && !EndsInBackslash(cur)
    ensures |SplitLine(WriteRow(r), cur)| <= |r|
    ensures |SplitLine(WriteRow(r), cur)| == |r| <==> ColumnsApart(r)
    ensures ColumnsApart(r) ==> SplitLine(WriteRow(r), cur) == [cur + r[0]] + r[1..]
    decreases |r|
  {
    var f := r[0];
    if |r| == 1 {
      SplitField(f, "", cur);
      assert EscapeTabs(f) + "" == EscapeTabs(f);
    } else {
      var tail := r[1..];
      var w := "\t" + WriteRow(tail);
      assert WriteRow(r) == EscapeTabs(f) + w;
      SplitField(f, w, cur);
      assert w[1..] == WriteRow(tail);
      assert EndsInBackslash(cur + f) <==> EndsInBackslash(f);
      ApartCons(r);
      if EndsInBackslash(f) {
        SplitWritten(tail, (cur + f)[..|cur + f| - 1] + "\t");
      } else {
        SplitWritten(tail, "");
        assert "" + tail[0] == tail[0] && [tail[0]] + tail[1..] == tail;
      }
    }
  }

  lemma {:induction false} ApartCons(r: Fields)
    requires |r| > 1
    ensures ColumnsApart(r) <==> !EndsInBackslash(r[0]) && ColumnsApart(r[1..])
  {
    var tail := r[1..];
    assert forall i :: 0 <= i < |tail| ==> tail[i] == r[i + 1];
    if !EndsInBackslash(r[0]) && ColumnsApart(tail) {
      forall i | 0 <= i < |r| - 1 ensures !EndsInBackslash(r[i]) {
        if i > 0 { assert tail[i - 1] == r[i]; }
      }
    }
  }

  /** A written row is read back exactly when no column swallows a separator. */
  lemma {:induction false} RowRoundTrip(r: Fields)
    requires r != []
    ensures ReadLine(|r|, WriteRow(r)) == Some(r) <==> ColumnsApart(r)
  {
    SplitWritten(r, "");
    assert "" + r[0] == r[0] && [r[0]] + r[1..] == r;
  }

  // ---- whole files ----

  predicate OneLine(r: Fields) { forall i :: 0 <= i < |r| ==> '\n' !in r[i] }

  predicate IsComment(r: Fields) { r != [] && r[0] != "" && r[0][0] == '#' }

  /** A row that survives being written and read. */
  predicate Storable(r: Fields) { OneLine(r) && ColumnsApart(r) && !IsComment(r) }

  lemma {:induction false} NewlinesOne(c: char)
    ensures Newlines([c]) == (if c == '\n' then 1 else 0) && Newlines(['\\', '\t']) == 0
  {
    assert [c][1..] == "" && ['\\', '\t'][1..] == "\t" && "\t"[1..] == "";
  }

  lemma {:induction false} EscapeNewlines(f: string)
    ensures Newlines(EscapeTabs(f)) == Newlines(f)
  {
    if f != "" {
      var front, c := f[..|f| - 1], f[|f| - 1];
      EscapeNewlines(front);
      assert f == front + [c];
      NewlinesAppend(front, [c]);
      NewlinesAppend(EscapeTabs(front), [c]);
      NewlinesAppend(EscapeTabs(front), ['\\', '\t']);
      NewlinesOne(c);
    }
  }

  lemma {:induction false} EscapeHead(f: string)
    ensures EscapeTabs(f) == "" <==> f == ""
    ensures f != "" ==> EscapeTabs(f)[0] == if f[0] == '\t' then '\\' else f[0]
  {
    if |f| > 1 {
      EscapeHead(f[..|f| - 1]);
    } else if |f| == 1 {
      assert f[..0] == "";
    }
  }

  lemma {:induction false} WriteRowNewlines(r: Fields)
    ensures Newlines(WriteRow(r)) == 0 <==> OneLine(r)
    ensures r != [] ==> (WriteRow(r) != "" && WriteRow(r)[0] == '#' <==> IsComment(r))
  {
    if r != [] {
      EscapeNewlines(r[0]);
      EscapeHead(r[0]);
      NoNewlines(r[0]);
      if |r| > 1 {
        var tail := r[1..];
        WriteRowNewlines(tail);
        NewlinesAppend(EscapeTabs(r[0]) + "\t", WriteRow(tail));
        NewlinesAppend(EscapeTabs(r[0]), "\t");
        assert "\t"[1..] == "";
        assert forall i :: 0 <= i < |tail| ==> tail[i] == r[i + 1];
        assert OneLine(r) <==> '\n' !in r[0] && OneLine(tail) by {
          if '\n' !in r[0] && OneLine(tail) {
            forall i | 0 <= i < |r| ensures '\n' !in r[i] { if i > 0 { assert tail[i - 1] == r[i]; } }
          }
        }
      }
    }
  }

  lemma {:induction false} WriteRowsNewlines(rows: seq<Fields>)
    ensures Newlines(WriteRows(rows)) >= |rows|
    ensures Newlines(WriteRows(rows)) == |rows| <==> forall i :: 0 <= i < |rows| ==> OneLine(rows[i])
  {
    if rows != [] {
      var tail := rows[1..];
      WriteRowsNewlines(tail);
      WriteRowNewlines(rows[0]);
      NewlinesAppend(WriteRow(rows[0]) + "\n", WriteRows(tail));
      NewlinesAppend(WriteRow(rows[0]), "\n");
      assert "\n"[1..] == "";
      assert forall i :: 0 <= i < |tail| ==> tail[i] == rows[i + 1];
      if OneLine(rows[0]) && forall i :: 0 <= i < |tail| ==> OneLine(tail[i]) {
        forall i | 0 <= i < |rows| ensures OneLine(rows[i]) { if i > 0 { assert tail[i - 1] == rows[i]; } }
      }
    }
  }

  /** How a file of one-line rows is read: the first line is the first row. */
  lemma {:induction false} ReadFirst(num: nat, rows: seq<Fields>, size: nat)
    requires rows != [] && OneLine(rows[0]) && !IsComment(rows[0]) && |rows[0]| == num >= 1 && size >= 2
    ensures var line := WriteRow(rows[0]);
      var rest := ReadRows(num, WriteRows(rows[1..]), Grown(size, |line| + 1));
      ReadRows(num, WriteRows(rows), size) ==
        if ReadLine(num, line).None? || rest.None? then None else Some([ReadLine(num, line).value] + rest.value)
  {
    FirstWritten(rows);
    NoCommentWritten(rows);
    ReadAt(num, WriteRows(rows), WriteRow(rows[0]), WriteRows(rows[1..]), size);
  }

  lemma {:induction false} NoCommentWritten(rows: seq<Fields>)
    requires rows != [] && OneLine(rows[0]) && !IsComment(rows[0])
    ensures WriteRows(rows) != "" && WriteRows(rows)[0] != '#'
  {
    FirstWritten(rows);
    WriteRowNewlines(rows[0]);
  }

  lemma {:induction false} ReadAt(num: nat, text: string, line: string, rest: string, size: nat)
    requires IndexOf(text, '\n') == |line| < |text| && text[..|line|] == line && text[|line| + 1..] == rest
    requires text[0] != '#' && size >= 2
    ensures var more := ReadRows(num, rest, Grown(size, |line| + 1));
      ReadRows(num, text, size) == if ReadLine(num, line).None? || more.None? then None else Some([ReadLine(num, line).value] + more.value)
  {
  }

  lemma {:induction false} FirstWritten(rows: seq<Fields>)
    requires rows != [] && OneLine(rows[0])
    ensures var text, line := WriteRows(rows), WriteRow(rows[0]);
      && IndexOf(text, '\n') == |line| < |text|
      && text[..|line|] == line && text[|line| + 1..] == WriteRows(rows[1..])
      && text[0] == (if line == "" then '\n' else line[0])
  {
    var line, rest := WriteRow(rows[0]), WriteRows(rows[1..]);
    var text := WriteRows(rows);
    WriteRowNewlines(rows[0]);
    NoNewlines(line);
    assert text == line + ("\n" + rest);
    assert text[|line|] == '\n' && forall i :: 0 <= i < |line| ==> text[i] == line[i];
  }

  /** A first row that looks like a comment is lost: what is read is shorter than what was written. */
  lemma {:induction false} CommentIsLost(num: nat, rows: seq<Fields>, size: nat)
    requires rows != [] && OneLine(rows[0]) && IsComment(rows[0]) && num >= 1 && size >= 2
    ensures ReadRows(num, WriteRows(rows), size) != Some(rows)
  {
    var text := WriteRows(rows);
    FirstWritten(rows);
    WriteRowNewlines(rows[0]);
    assert text[0] == '#';
    var rest := text[Gulp(text, size)..];
    assert ReadRows(num, text, size) == ReadRows(num, rest, size);
    if ReadRows(num, rest, size).Some? { ReadSize(num, rest, size); }
  }

  lemma {:induction false} ReadWrittenLines(num: nat, rows: seq<Fields>, size: nat)
    requires num >= 1 && size >= 2 && forall i :: 0 <= i < |rows| ==> |rows[i]| == num && OneLine(rows[i])
    ensures ReadRows(num, WriteRows(rows), size) == Some(rows) <==> forall i :: 0 <= i < |rows| ==> Storable(rows[i])
    decreases |rows|
  {
    if rows != [] {
      var r, tail := rows[0], rows[1..];
      assert forall i :: 0 <= i < |tail| ==> tail[i] == rows[i + 1];
      if IsComment(r) {
        CommentIsLost(num, rows, size);
        assert !Storable(rows[0]);
      } else {
        ReadFirst(num, rows, size);
        RowRoundTrip(r);
        ReadWrittenLines(num, tail, Grown(size, |WriteRow(r)| + 1));
        HeadTail(rows);
        AllStorable(rows);
      }
    }
  }

  lemma {:induction false} AllStorable(rows: seq<Fields>)
    requires rows != []
    ensures (forall i :: 0 <= i < |rows| ==> Storable(rows[i])) <==>
            Storable(rows[0]) && forall i :: 0 <= i < |rows[1..]| ==> Storable(rows[1..][i])
  {
    var tail := rows[1..];
    assert forall i :: 0 <= i < |tail| ==> tail[i] == rows[i + 1];
    if Storable(rows[0]) && forall i :: 0 <= i < |tail| ==> Storable(tail[i]) {
      forall i | 0 <= i < |rows| ensures Storable(rows[i]) { if i > 0 { assert tail[i - 1] == rows[i]; } }
    }
  }

  /** Reading a written database gives the rows back if and only if every row is storable: no
      column holds a newline, no column but the last ends in a backslash, and the first column does
      not begin with '#'. */
  lemma {:induction false} FileRoundTrip(num: nat, rows: seq<Fields>)
    requires num >= 1 && forall i :: 0 <= i < |rows| ==> |rows[i]| == num
    ensures ReadFile(num, WriteRows(rows)) == Some(rows) <==> forall i :: 0 <= i < |rows| ==> Storable(rows[i])
  {
    if ReadFile(num, WriteRows(rows)) == Some(rows) {
      ReadSize(num, WriteRows(rows), BUFSIZE);
      WriteRowsNewlines(rows);
      ReadWrittenLines(num, rows, BUFSIZE);
    } else if forall i :: 0 <= i < |rows| ==> Storable(rows[i]) {
      ReadWrittenLines(num, rows, BUFSIZE);
    }
  }

  /** A comment line of at least the buffer's size is not skipped as a whole: from character 511 on it
      is read as a row. */
  lemma {:induction false} LongCommentIsRead(num: nat, line: string, rest: string)
    requires |line| >= BUFSIZE && line[0] == '#' && '\n' !in line
    ensures ReadFile(num, line + "\n" + rest) == ReadRows(num, line[BUFSIZE - 1..] + "\n" + rest, BUFSIZE)
  {
    var text := line + "\n" + rest;
    assert forall i :: 0 <= i < |line| ==> text[i] == line[i];
    assert text[|line|] == '\n' && IndexOf(text, '\n') == |line|;
    assert text[BUFSIZE - 1..] == line[BUFSIZE - 1..] + "\n" + rest;
  }

  /** Where a text divides at its first newline. */
  lemma {:induction false} LineAt(line: string, rest: string)
    requires '\n' !in line
    ensures var text := line + "\n" + rest;
      IndexOf(text, '\n') == |line| < |text| && text[..|line|] == line && text[|line| + 1..] == rest && (line != "" ==> text[0] == line[0])
  {
    var text := line + "\n" + rest;
    assert forall i :: 0 <= i < |line| ==> text[i] == line[i];
    assert text[|line|] == '\n';
  }

  /** A comment line that fits the buffer leaves nothing behind. */
  lemma {:induction false} CommentIsSkipped(num: nat, line: string, rest: string, size: nat)
    requires line != "" && line[0] == '#' && '\n' !in line && |line| + 1 < size
    ensures ReadRows(num, line + "\n" + rest, size) == ReadRows(num, rest, size)
  {
    LineAt(line, rest);
  }

  /** Any other line is a row or makes the file unreadable. */
  lemma {:induction false} LineIsRow(num: nat, line: string, rest: string, size: nat)
    requires '\n' !in line && (line == "" || line[0] != '#') && size >= 2
    ensures var more := ReadRows(num, rest, Grown(size, |line| + 1));
      ReadRows(num, line + "\n" + rest, size)
        == if ReadLine(num, line).None? || more.None? then None else Some([ReadLine(num, line).value] + more.value)
  {
    LineAt(line, rest);
    var text := line + "\n" + rest;
    if line == "" { assert text[0] == '\n'; }
    ReadAt(num, text, line, rest, size);
  }

  /** What follows the last newline is dropped. */
  lemma {:induction false} NoNewlineNoRow(num: nat, tail: string, size: nat)
    requires '\n' !in tail && size >= 2
    ensures ReadRows(num, tail, size) == Some([])
    decreases |tail|
  {
    if tail != "" && tail[0] == '#' { NoNewlineNoRow(num, tail[Gulp(tail, size)..], size); }
  }

  // ---- whatever is read can be stored ----

  lemma {:induction false} SplitApart(s: string, cur: string)
    ensures ColumnsApart(SplitLine(s, cur))
    decreases |s|
  {
    if s != "" {
      if s[0] != '\t' {
        SplitApart(s[1..], cur + [s[0]]);
      } else if EndsInBackslash(cur) {
        SplitApart(s[1..], cur[..|cur| - 1] + "\t");
      } else {
        SplitApart(s[1..], "");
        ConsApart(cur, SplitLine(s[1..], ""));
      }
    }
  }

  lemma {:induction false} ConsApart(f: string, tail: Fields)
    requires !EndsInBackslash(f) && ColumnsApart(tail)
    ensures ColumnsApart([f] + tail)
  {
    var r := [f] + tail;
    forall i | 0 <= i < |r| - 1 ensures !EndsInBackslash(r[i]) {
      if i > 0 { assert r[i] == tail[i - 1]; }
    }
  }

  lemma {:induction false} ReadLineStorable(num: nat, line: string)
    requires num >= 1 && ReadLine(num, line).Some? && '\n' !in line && (line != "" ==> line[0] != '#')
    ensures Storable(ReadLine(num, line).value) && |ReadLine(num, line).value| == num
  {
    var r := SplitLine(line, "");
    WriteSplit(line, "");
    Whole(line);
    SplitApart(line, "");
    NoNewlines(line);
    WriteRowNewlines(r);
    assert forall i :: 0 <= i < num ==> r[..num][i] == r[i];
  }

  /** Storable rows of num columns. */
  predicate AllOf(num: nat, rows: seq<Fields>) { forall i :: 0 <= i < |rows| ==> Storable(rows[i]) && |rows[i]| == num }

  lemma {:induction false} AllOfCons(num: nat, r: Fields, rows: seq<Fields>)
    requires Storable(r) && |r| == num && AllOf(num, rows)
    ensures AllOf(num, [r] + rows)
  {
  }

  /** The rows of any file that can be read are storable, so they survive being written and read. */
  lemma {:induction false} ReadIsStorable(num: nat, text: string, size: nat)
    requires num >= 1 && size >= 2 && ReadRows(num, text, size).Some?
    ensures AllOf(num, ReadRows(num, text, size).value)
    decreases |text|
  {
    var k := IndexOf(text, '\n');
    if text != "" && text[0] == '#' {
      ReadIsStorable(num, text[Gulp(text, size)..], size);
    } else if k < |text| {
      ReadIsStorable(num, text[k + 1..], Grown(size, k + 1));
      ReadLineStorable(num, text[..k]);
      AllOfCons(num, ReadLine(num, text[..k]).value, ReadRows(num, text[k + 1..], Grown(size, k + 1)).value);
    }
  }

  /** Whatever can be read is a fixed point: written and read again, it is the same. */
  lemma {:induction false} ReadWriteRead(num: nat, text: string)
    requires num >= 1 && ReadFile(num, text).Some?
    ensures ReadFile(num, WriteRows(ReadFile(num, text).value)) == ReadFile(num, text)
  {
    ReadIsStorable(num, text, BUFSIZE);
    FileRoundTrip(num, ReadFile(num, text).value);
  }

  // ---- the code ----

  /** Each column with a tab behind it. */
  function Terminated(r: Fields): string {
    if r == [] then "" else Terminated(r[..|r| - 1]) + EscapeTabs(r[|r| - 1]) + "\t"
  }

  lemma {:induction false} TerminatedIs(r: Fields)
    requires r != []
    ensures Terminated(r) == WriteRow(r) + "\t"
  {
    if |r| == 1 {
      assert r[..0] == [];
      assert "" + EscapeTabs(r[0]) == EscapeTabs(r[0]);
    } else {
      TerminatedCons(r);
      TerminatedIs(r[1..]);
      assert EscapeTabs(r[0]) + "\t" + (WriteRow(r[1..]) + "\t") == EscapeTabs(r[0]) + "\t" + WriteRow(r[1..]) + "\t";
    }
  }

  lemma {:induction false} TerminatedCons(r: Fields)
    requires r != []
    ensures Terminated(r) == EscapeTabs(r[0]) + "\t" + Terminated(r[1..])
  {
    if |r| == 1 {
      assert r[..0] == [] && r[1..] == [];
      assert "" + EscapeTabs(r[0]) + "\t" == EscapeTabs(r[0]) + "\t" + "";
    } else {
      var front, f := r[..|r| - 1], r[|r| - 1];
      TerminatedCons(front);
      assert front[1..] == r[1..][..|r| - 2];
      var t := Terminated(front[1..]);
      assert EscapeTabs(r[0]) + "\t" + t + EscapeTabs(f) + "\t" == EscapeTabs(r[0]) + "\t" + (t + EscapeTabs(f) + "\t");
    }
  }

  /** TXT_DB_write on one row: every column is followed by a tab, and the last tab is overwritten
      with the newline. */
  method PutRow(r: Fields) returns (line: string)
    requires r != []
    ensures line == WriteRow(r) + "\n"
  {
    line := "";
    for j := 0 to |r|
      invariant line == Terminated(r[..j])
    {
      assert r[..j + 1][..j] == r[..j];
      var before, f := line, r[j];
      assert before + EscapeTabs(f[..0]) == before;
      for i := 0 to |f|
        invariant line == before + EscapeTabs(f[..i])
      {
        assert f[..i + 1] == f[..i] + [f[i]];
        EscapeSnoc(f[..i], f[i]);
        if f[i] == '\t' {
          line := line + "\\";
        }
        line := line + [f[i]];
      }
      assert f[..|f|] == f;
      line := line + "\t";
    }
    assert r[..|r|] == r;
    TerminatedIs(r);
    line := line[..|line| - 1] + "\n";
  }

  lemma {:induction false} OnlyEmptyIsEmpty(s: string)
    ensures SplitLine(s, "") == [""] <==> s == ""
  {
    WriteSplit(s, "");
    assert EscapeTabs("") + s == s;
  }

  /** The inner loop of TXT_DB_read: n columns have been begun, esc remembers a backslash. */
  method TakeLine(num: nat, line: string) returns (r: Option<Fields>)
    requires num >= 1
    ensures r == ReadLine(num, line)
  {
    var done: Fields := [];
    var cur, esc, f := "", false, 0;
    assert [] + SplitLine(line, "") == SplitLine(line, "") && line[0..] == line;
    while f < |line|
      invariant 0 <= f <= |line| && |done| < num
      invariant esc <==> EndsInBackslash(cur)
      invariant done + SplitLine(line[f..], cur) == SplitLine(line, "")
      decreases |line| - f
    {
      var rest := line[f..];
      assert rest[0] == line[f] && rest[1..] == line[f + 1..];
      if line[f] == '\t' {
        if esc {
          cur := cur[..|cur| - 1];
        } else {
          assert done + ([cur] + SplitLine(line[f + 1..], "")) == done + [cur] + SplitLine(line[f + 1..], "");
          done := done + [cur];
          f := f + 1;
          if |done| >= num {
            OnlyEmptyIsEmpty(line[f..]);
            TooMany(done, SplitLine(line[f..], ""));
            if f < |line| {
              return None;
            }
            return Some(done);
          }
          cur := "";
          continue;
        }
      }
      esc := line[f] == '\\';
      cur := cur + [line[f]];
      f := f + 1;
    }
    assert line[f..] == "";
    done := done + [cur];
    if |done| != num {
      return None;
    }
    return Some(done);
  }

  lemma {:induction false} TooMany(done: Fields, tail: Fields)
    requires tail != []
    ensures (done + tail)[..|done|] == done
    ensures |done + tail| == |done| + 1 && (done + tail)[|done|] == "" <==> tail == [""]
  {
  }

  /** The rows taken so far and those of the text still to come. */
  ghost predicate Continues(whole: Option<seq<Fields>>, acc: seq<Fields>, more: Option<seq<Fields>>) {
    (whole.Some? <==> more.Some?) && (whole.Some? ==> whole.value == acc + more.value)
  }

  lemma {:induction false} ContinueWith(whole: Option<seq<Fields>>, acc: seq<Fields>, r: Fields, more: Option<seq<Fields>>)
    requires Continues(whole, acc, if more.None? then None else Some([r] + more.value))
    ensures Continues(whole, acc + [r], more)
  {
    if more.Some? { assert acc + ([r] + more.value) == acc + [r] + more.value; }
  }

  /** One line of the outer loop, put together in the buffer and taken apart. */
  method TakeFirst(num: nat, rest: string, k: nat, size: nat, acc: seq<Fields>, ghost whole: Option<seq<Fields>>)
    returns (ok: bool, acc': seq<Fields>, size': nat)
    requires num >= 1 && size >= 2 && k == IndexOf(rest, '\n') < |rest| && rest[0] != '#'
    requires Continues(whole, acc, ReadRows(num, rest, size))
    ensures size' >= size
    ensures ok ==> Continues(whole, acc', ReadRows(num, rest[k + 1..], size'))
    ensures !ok ==> whole.None?
  {
    size' := GrowBuffer(k + 1, size);
    var r := TakeLine(num, rest[..k]);
    if r.None? {
      return false, acc, size';
    }
    ContinueWith(whole, acc, r.value, ReadRows(num, rest[k + 1..], size'));
    return true, acc + [r.value], size';
  }

  /** The reads that a line of that length takes: the buffer grows until the newline has come. */
  method GrowBuffer(length: nat, size: nat) returns (size': nat)
    requires size >= 2
    ensures size' == Grown(size, length)
  {
    size' := size;
    var offset := if length < size then length else size - 1;
    while offset < length
      invariant size' >= 2 && offset <= length && (offset == length || offset == size' - 1)
      invariant offset == length ==> length < size'
      invariant Grown(size', length) == Grown(size, length)
      decreases length - offset
    {
      size' := size' + BUFSIZE;
      offset := if length - offset <= size' - offset - 1 then length else size' - 1;
    }
  }

  /** The outer loop of TXT_DB_read. */
  method TakeRows(num: nat, text: string) returns (rows: Option<seq<Fields>>)
    requires num >= 1
    ensures rows == ReadFile(num, text)
  {
    var acc: seq<Fields> := [];
    var rest, ok, size := text, true, BUFSIZE;
    ghost var whole := ReadFile(num, text);
    assert whole.Some? ==> [] + whole.value == whole.value;
    while rest != ""
      invariant size >= 2
      invariant Continues(whole, acc, ReadRows(num, rest, size))
      decreases |rest|
    {
      if rest[0] == '#' {
        rest := rest[Gulp(rest, size)..];
        continue;
      }
      var k := IndexOf(rest, '\n');
      if k == |rest| {
        break;
      }
      ok, acc, size := TakeFirst(num, rest, k, size, acc, whole);
      if !ok {
        return None;
      }
      rest := rest[k + 1..];
    }
    Whole(acc);
    return Some(acc);
  }
}
