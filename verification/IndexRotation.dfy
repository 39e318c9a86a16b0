/** rotate_index and rotate_serial: renaming staged files into place, with rollback.  The file
    system maps names to contents; any rename may fail. */
module IndexRotation {

  type Files = map<string, string>

  const BSIZE: nat := 256

  datatype Outcome = Renamed | Missing | Failed

  /** rename(2): a fault of the environment, ENOENT, or success replacing the target. */
  function RenameOutcome(fs: Files, src: string, fault: bool): Outcome {
    if fault then Failed else if src !in fs then Missing else Renamed
  }

  function Rename(fs: Files, src: string, dst: string, fault: bool): Files {
    if RenameOutcome(fs, src, fault) == Renamed then (fs - {src})[dst := fs[src]] else fs
  }

  /** The names in buf[0..4] and dbfile. */
  datatype Names = Names(live: string, staged: string, kept: string, attr: string, attrStaged: string, attrKept: string)

  function NamesOf(dbfile: string, newSuffix: string, oldSuffix: string): Names {
    Names(dbfile, dbfile + "." + newSuffix, dbfile + "." + oldSuffix,
          dbfile + ".attr", dbfile + ".attr." + newSuffix, dbfile + ".attr." + oldSuffix)
  }

  predicate Distinct(n: Names) {
    && n.live != n.staged && n.live != n.kept && n.live != n.attr && n.live != n.attrStaged && n.live != n.attrKept
    && n.staged != n.kept && n.staged != n.attr && n.staged != n.attrStaged && n.staged != n.attrKept
    && n.kept != n.attr && n.kept != n.attrStaged && n.kept != n.attrKept
    && n.attr != n.attrStaged && n.attr != n.attrKept && n.attrStaged != n.attrKept
  }

  /** The suffixes that keep the six names apart. */
  predicate SuffixesApart(newSuffix: string, oldSuffix: string) {
    && newSuffix != oldSuffix && newSuffix != "attr" && oldSuffix != "attr"
    && newSuffix != "attr." + oldSuffix && oldSuffix != "attr." + newSuffix
  }

  lemma {:induction false} SameTail(dbfile: string, s: string, t: string)
    ensures dbfile + s == dbfile + t <==> s == t
  {
    assert (dbfile + s)[|dbfile|..] == s && (dbfile + t)[|dbfile|..] == t;
  }

  lemma {:induction false} DottedTail(dbfile: string, s: string, t: string)
    ensures dbfile + "." + s == dbfile + "." + t <==> s == t
  {
    SameTail(dbfile + ".", s, t);
  }

  lemma {:induction false} AttrTail(dbfile: string, s: string)
    ensures dbfile + ".attr" == dbfile + "." + "attr" && dbfile + ".attr." + s == dbfile + "." + ("attr." + s)
      && dbfile + ".attr." + s == dbfile + ".attr" + "." + s
  {
  }

  /** The six names differ if and only if the suffixes are such. */
  lemma {:induction false} DistinctIff(dbfile: string, newSuffix: string, oldSuffix: string)
    ensures Distinct(NamesOf(dbfile, newSuffix, oldSuffix)) <==> SuffixesApart(newSuffix, oldSuffix)
  {
    AttrTail(dbfile, newSuffix);
    AttrTail(dbfile, oldSuffix);
    DottedTail(dbfile, newSuffix, oldSuffix);
    DottedTail(dbfile, newSuffix, "attr");
    DottedTail(dbfile, oldSuffix, "attr");
    DottedTail(dbfile, newSuffix, "attr." + oldSuffix);
    DottedTail(dbfile, oldSuffix, "attr." + newSuffix);
    SameTail(dbfile + ".attr.", newSuffix, oldSuffix);
  }

  /** The suffixes that ca and the responder use are. */
  lemma {:induction false} CallersNamesDistinct(dbfile: string)
    ensures Distinct(NamesOf(dbfile, "new", "old"))
  {
    assert "new"[0] == 'n' && "old"[0] == 'o';
    DistinctIff(dbfile, "new", "old");
  }

  /** A faulty environment: the k-th rename of the run fails. */
  type Faults = nat -> bool

  /** The states after each rename, in order, and the answer. */
  datatype Run = Run(states: seq<Files>, ok: bool) {
    function Last(start: Files): Files { if states == [] then start else states[|states| - 1] }
  }

  predicate TooLong(dbfile: string, newSuffix: string, oldSuffix: string, extra: nat) {
    var longest := if |oldSuffix| > |newSuffix| then |oldSuffix| else |newSuffix|;
    |dbfile| + longest + extra >= BSIZE
  }

  /** rotate_index on given names. */
  function Rotate(fs: Files, n: Names, f: Faults): Run {
    var a := Rename(fs, n.live, n.kept, f(0));
    if RenameOutcome(fs, n.live, f(0)) == Failed then Run([a], false)
    else
      var b := Rename(a, n.staged, n.live, f(1));
      if RenameOutcome(a, n.staged, f(1)) != Renamed then
        Run([a, b, Rename(b, n.kept, n.live, f(2))], false)
      else
        var c := Rename(b, n.attr, n.attrKept, f(2));
        if RenameOutcome(b, n.attr, f(2)) == Failed then
          var c1 := Rename(c, n.live, n.staged, f(3));
          Run([a, b, c, c1, Rename(c1, n.kept, n.live, f(4))], false)
        else
          var d := Rename(c, n.attrStaged, n.attr, f(3));
          if RenameOutcome(c, n.attrStaged, f(3)) != Renamed then
            var d1 := Rename(d, n.attrKept, n.attr, f(4));
            var d2 := Rename(d1, n.live, n.staged, f(5));
            Run([a, b, c, d, d1, d2, Rename(d2, n.kept, n.live, f(6))], false)
          else Run([a, b, c, d], true)
  }

  /** The second half, from the k-th rename on: the attribute file. */
  function RotateAttr(b: Files, n: Names, f: Faults, k: nat): (run: Run)
    ensures run.states != []
  {
    var c := Rename(b, n.attr, n.attrKept, f(k));
    if RenameOutcome(b, n.attr, f(k)) == Failed then
      var c1 := Rename(c, n.live, n.staged, f(k + 1));
      Run([c, c1, Rename(c1, n.kept, n.live, f(k + 2))], false)
    else
      var d := Rename(c, n.attrStaged, n.attr, f(k + 1));
      if RenameOutcome(c, n.attrStaged, f(k + 1)) != Renamed then
        var d1 := Rename(d, n.attrKept, n.attr, f(k + 2));
        var d2 := Rename(d1, n.live, n.staged, f(k + 3));
        Run([c, d, d1, d2, Rename(d2, n.kept, n.live, f(k + 4))], false)
      else Run([c, d], true)
  }

  /** rotate_index is the database's half followed by the attribute file's. */
  lemma {:induction false} RotateInHalves(fs: Files, n: Names, f: Faults)
    ensures var a := Rename(fs, n.live, n.kept, f(0));
      var b := Rename(a, n.staged, n.live, f(1));
      RenameOutcome(fs, n.live, f(0)) != Failed && RenameOutcome(a, n.staged, f(1)) == Renamed ==>
        Rotate(fs, n, f) == Run([a, b] + RotateAttr(b, n, f, 2).states, RotateAttr(b, n, f, 2).ok)
  {
  }

  /** rotate_serial: the same with one pair of files. */
  function RotateOne(fs: Files, live: string, staged: string, kept: string, f: Faults): Run {
    var a := Rename(fs, live, kept, f(0));
    if RenameOutcome(fs, live, f(0)) == Failed then Run([a], false)
    else
      var b := Rename(a, staged, live, f(1));
      if RenameOutcome(a, staged, f(1)) != Renamed then Run([a, b, Rename(b, kept, live, f(2))], false)
      else Run([a, b], true)
  }

  /** Two directories agree about a name. */
  predicate Same(fs: Files, fs': Files, name: string) {
    (name in fs <==> name in fs') && (name in fs ==> fs'[name] == fs[name])
  }

  // ---- success ----

  /** On success each live file holds what was staged, and .old what was live before. */
  lemma {:induction false} SuccessRotates(fs: Files, n: Names, f: Faults)
    requires Distinct(n) && Rotate(fs, n, f).ok
    ensures var fs' := Rotate(fs, n, f).Last(fs);
      && n.staged in fs && n.attrStaged in fs
      && n.live in fs' && fs'[n.live] == fs[n.staged] && n.staged !in fs'
      && n.attr in fs' && fs'[n.attr] == fs[n.attrStaged] && n.attrStaged !in fs'
      && (if n.live in fs then n.kept in fs' && fs'[n.kept] == fs[n.live] else Same(fs, fs', n.kept))
      && (if n.attr in fs then n.attrKept in fs' && fs'[n.attrKept] == fs[n.attr] else Same(fs, fs', n.attrKept))
      && forall x :: x !in {n.live, n.staged, n.kept, n.attr, n.attrStaged, n.attrKept} ==> Same(fs, fs', x)
  {
  }

  // ---- failure ----

  /** The forward rename that failed: 1 to 4. */
  function FailedAt(fs: Files, n: Names, f: Faults): nat
    requires !Rotate(fs, n, f).ok
  {
    var k := |Rotate(fs, n, f).states|;
    if k == 1 then 1 else if k == 3 then 2 else if k == 5 then 3 else 4
  }

  /** The renames that undo earlier ones meet no fault. */
  predicate RollbackWorks(fs: Files, n: Names, f: Faults)
    requires !Rotate(fs, n, f).ok
  {
    match FailedAt(fs, n, f)
    case 1 => true
    case 2 => !f(2)
    case 3 => !f(3) && !f(4)
    case _ => !f(4) && !f(5) && !f(6)
  }

  predicate Restored(fs: Files, fs': Files, n: Names) {
    Same(fs, fs', n.live) && Same(fs, fs', n.staged) && Same(fs, fs', n.attr) && Same(fs, fs', n.attrStaged)
  }

  /** After one run with a failure and a working rollback the live and staged files are as they were
      if and only if no left-over .old file was mistaken for one that the rotation had put aside: the
      database, once the first rename is past, and its attributes, once the third is. */
  lemma {:induction false} RestoredAfter(fs: Files, n: Names, f: Faults)
    requires Distinct(n) && !Rotate(fs, n, f).ok && RollbackWorks(fs, n, f)
    ensures var at := FailedAt(fs, n, f);
      Restored(fs, Rotate(fs, n, f).Last(fs), n) <==>
        && (at >= 2 ==> n.live in fs || n.kept !in fs)
        && (at == 4 ==> n.attr in fs || n.attrKept !in fs)
  {
    var at := FailedAt(fs, n, f);
    if at == 3 {
      RestoredThird(fs, n, f);
    } else if at == 4 {
      RestoredLast(fs, n, f);
    }
  }

  lemma {:induction false} RestoredThird(fs: Files, n: Names, f: Faults)
    requires Distinct(n) && !Rotate(fs, n, f).ok && RollbackWorks(fs, n, f) && FailedAt(fs, n, f) == 3
    ensures Restored(fs, Rotate(fs, n, f).Last(fs), n) <==> n.live in fs || n.kept !in fs
  {
  }

  lemma {:induction false} RestoredLast(fs: Files, n: Names, f: Faults)
    requires Distinct(n) && !Rotate(fs, n, f).ok && RollbackWorks(fs, n, f) && FailedAt(fs, n, f) == 4
    ensures Restored(fs, Rotate(fs, n, f).Last(fs), n) <==>
      (n.live in fs || n.kept !in fs) && (n.attr in fs || n.attrKept !in fs)
  {
  }

  /** The directories that no failure can damage: no left-over .old file stands for a missing live
      one, of the database, or of its attributes if there is a staged database to come that far. */
  predicate NoLeftOver(fs: Files, n: Names) {
    && (n.live in fs || n.kept !in fs)
    && (n.staged in fs ==> n.attr in fs || n.attrKept !in fs)
  }

  /** Whatever fails, the rollback restores the live and staged files, if and only if the directory
      has no such left-over before the rotation. */
  lemma {:induction false} FailureRestores(fs: Files, n: Names)
    requires Distinct(n)
    ensures NoLeftOver(fs, n) <==>
      forall f: Faults :: !Rotate(fs, n, f).ok && RollbackWorks(fs, n, f) ==> Restored(fs, Rotate(fs, n, f).Last(fs), n)
  {
    if NoLeftOver(fs, n) {
      forall f: Faults | !Rotate(fs, n, f).ok && RollbackWorks(fs, n, f)
        ensures Restored(fs, Rotate(fs, n, f).Last(fs), n)
      {
        RestoredAfter(fs, n, f);
      }
    } else if n.live !in fs && n.kept in fs {
      var f: Faults := k => k == 1;
      RestoredAfter(fs, n, f);
      assert !Rotate(fs, n, f).ok && RollbackWorks(fs, n, f);
    } else {
      var f: Faults := k => k == 3;
      LastRenameFails(fs, n, f);
      RestoredAfter(fs, n, f);
    }
  }

  lemma {:induction false} LastRenameFails(fs: Files, n: Names, f: Faults)
    requires Distinct(n) && n.staged in fs && !f(0) && !f(1) && !f(2) && f(3) && !f(4) && !f(5) && !f(6)
    ensures !Rotate(fs, n, f).ok && FailedAt(fs, n, f) == 4 && RollbackWorks(fs, n, f)
  {
  }

  /** So a database with its attribute file is never damaged by a rotation that fails. */
  lemma {:induction false} ExistingIndexSurvives(fs: Files, n: Names, f: Faults)
    requires Distinct(n) && !Rotate(fs, n, f).ok && RollbackWorks(fs, n, f)
    requires n.live in fs && n.attr in fs
    ensures Restored(fs, Rotate(fs, n, f).Last(fs), n)
  {
    RestoredAfter(fs, n, f);
  }

  /** After every single rename, forward or back and whatever fails, the previous database is still
      stored under its own name or under .old. */
  lemma {:induction false} NeverLost(fs: Files, n: Names, f: Faults, k: nat)
    requires Distinct(n) && n.live in fs && k < |Rotate(fs, n, f).states|
    ensures var s := Rotate(fs, n, f).states[k];
      (n.live in s && s[n.live] == fs[n.live]) || (n.kept in s && s[n.kept] == fs[n.live])
  {
  }

  lemma {:induction false} RenameLeaves(fs: Files, src: string, dst: string, fault: bool, x: string)
    requires x != src && x != dst
    ensures Same(fs, Rename(fs, src, dst, fault), x)
  {
  }

  /** What the attribute file held, where it is while the database is renamed or renamed back. */
  predicate AttrHeld(fs: Files, s: Files, n: Names)
    requires n.attr in fs
  {
    (n.attr in s && s[n.attr] == fs[n.attr]) || (n.attrKept in s && s[n.attrKept] == fs[n.attr])
  }

  lemma {:induction false} DatabaseRenameKeeps(fs: Files, s: Files, n: Names, src: string, dst: string, fault: bool)
    requires n.attr in fs && AttrHeld(fs, s, n)
    requires n.attr != src && n.attr != dst && n.attrKept != src && n.attrKept != dst
    ensures AttrHeld(fs, Rename(s, src, dst, fault), n)
  {
  }

  lemma {:induction false} AttrRenameKeeps(fs: Files, s: Files, n: Names, f: bool, g: bool, h: bool)
    requires Distinct(n) && n.attr in fs && Same(fs, s, n.attr)
    ensures var c := Rename(s, n.attr, n.attrKept, f);
      var d := Rename(c, n.attrStaged, n.attr, g);
      AttrHeld(fs, c, n) && (!f ==> AttrHeld(fs, d, n) && AttrHeld(fs, Rename(d, n.attrKept, n.attr, h), n))
  {
  }

  lemma {:induction false} AttrHalfKeeps(fs: Files, b: Files, n: Names, f: Faults, i: nat, k: nat)
    requires Distinct(n) && n.attr in fs && Same(fs, b, n.attr) && k < |RotateAttr(b, n, f, i).states|
    ensures AttrHeld(fs, RotateAttr(b, n, f, i).states[k], n)
  {
    AttrRenameKeeps(fs, b, n, f(i), f(i + 1), f(i + 2));
    var c := Rename(b, n.attr, n.attrKept, f(i));
    if f(i) {
      DatabaseRenameKeeps(fs, c, n, n.live, n.staged, f(i + 1));
      DatabaseRenameKeeps(fs, Rename(c, n.live, n.staged, f(i + 1)), n, n.kept, n.live, f(i + 2));
    } else {
      var d1 := Rename(Rename(c, n.attrStaged, n.attr, f(i + 1)), n.attrKept, n.attr, f(i + 2));
      DatabaseRenameKeeps(fs, d1, n, n.live, n.staged, f(i + 3));
      DatabaseRenameKeeps(fs, Rename(d1, n.live, n.staged, f(i + 3)), n, n.kept, n.live, f(i + 4));
    }
  }

  /** The same of its attributes. */
  lemma {:induction false} AttrNeverLost(fs: Files, n: Names, f: Faults, k: nat)
    requires Distinct(n) && n.attr in fs && k < |Rotate(fs, n, f).states|
    ensures AttrHeld(fs, Rotate(fs, n, f).states[k], n)
  {
    var a := Rename(fs, n.live, n.kept, f(0));
    var b := Rename(a, n.staged, n.live, f(1));
    RenameLeaves(fs, n.live, n.kept, f(0), n.attr);
    RenameLeaves(a, n.staged, n.live, f(1), n.attr);
    if RenameOutcome(fs, n.live, f(0)) != Failed && RenameOutcome(a, n.staged, f(1)) == Renamed {
      RotateInHalves(fs, n, f);
      if k >= 2 {
        AttrHalfKeeps(fs, b, n, f, 2, k - 2);
      }
    } else {
      RenameLeaves(b, n.kept, n.live, f(2), n.attr);
    }
  }

  predicate AllSame(fs: Files, states: seq<Files>, x: string) {
    forall k :: 0 <= k < |states| ==> Same(fs, states[k], x)
  }

  lemma {:induction false} OthersInAttrHalf(b: Files, n: Names, f: Faults, i: nat, x: string)
    requires x !in {n.live, n.staged, n.kept, n.attr, n.attrStaged, n.attrKept}
    ensures AllSame(b, RotateAttr(b, n, f, i).states, x)
  {
    var c := Rename(b, n.attr, n.attrKept, f(i));
    RenameLeaves(b, n.attr, n.attrKept, f(i), x);
    if f(i) {
      RenameLeaves(c, n.live, n.staged, f(i + 1), x);
      RenameLeaves(Rename(c, n.live, n.staged, f(i + 1)), n.kept, n.live, f(i + 2), x);
    } else {
      var d := Rename(c, n.attrStaged, n.attr, f(i + 1));
      var d1 := Rename(d, n.attrKept, n.attr, f(i + 2));
      var d2 := Rename(d1, n.live, n.staged, f(i + 3));
      RenameLeaves(c, n.attrStaged, n.attr, f(i + 1), x);
      RenameLeaves(d, n.attrKept, n.attr, f(i + 2), x);
      RenameLeaves(d1, n.live, n.staged, f(i + 3), x);
      RenameLeaves(d2, n.kept, n.live, f(i + 4), x);
    }
  }

  /** No rename touches any other file. */
  lemma {:induction false} OthersUntouched(fs: Files, n: Names, f: Faults, x: string)
    requires x !in {n.live, n.staged, n.kept, n.attr, n.attrStaged, n.attrKept}
    ensures AllSame(fs, Rotate(fs, n, f).states, x)
  {
    var a := Rename(fs, n.live, n.kept, f(0));
    var b := Rename(a, n.staged, n.live, f(1));
    RenameLeaves(fs, n.live, n.kept, f(0), x);
    RenameLeaves(a, n.staged, n.live, f(1), x);
    if RenameOutcome(fs, n.live, f(0)) != Failed && RenameOutcome(a, n.staged, f(1)) == Renamed {
      RotateInHalves(fs, n, f);
      OthersInAttrHalf(b, n, f, 2, x);
    } else {
      RenameLeaves(b, n.kept, n.live, f(2), x);
    }
  }

  // ---- the serial file ----

  lemma {:induction false} SerialRotates(fs: Files, live: string, staged: string, kept: string, f: Faults)
    requires live != staged && live != kept && staged != kept
    ensures var r := RotateOne(fs, live, staged, kept, f);
      var fs' := r.Last(fs);
      && (r.ok ==> staged in fs && live in fs' && fs'[live] == fs[staged] && staged !in fs'
                   && (live in fs ==> kept in fs' && fs'[kept] == fs[live]))
      && (!r.ok && (|r.states| == 1 || !f(2)) ==>
            (Same(fs, fs', live) && Same(fs, fs', staged) <==> |r.states| == 1 || live in fs || kept !in fs))
      && (live in fs ==> forall k :: 0 <= k < |r.states| ==>
            (live in r.states[k] && r.states[k][live] == fs[live]) || (kept in r.states[k] && r.states[k][kept] == fs[live]))
      && forall x :: x !in {live, staged, kept} ==> Same(fs, fs', x)
  {
  }

  // ---- the same in file names ----

  /** A file holds what stood under its new name, and its old name what the file held. */
  predicate InPlace(before: Files, after: Files, file: string, newSuffix: string, oldSuffix: string) {
    var staged, kept := file + "." + newSuffix, file + "." + oldSuffix;
    && staged in before && file in after && after[file] == before[staged] && staged !in after
    && (if file in before then kept in after && after[kept] == before[file] else Same(before, after, kept))
  }

  /** What a file held is under its own name or its old one. */
  predicate Held(before: Files, now: Files, file: string, oldSuffix: string)
    requires file in before
  {
    (file in now && now[file] == before[file]) || (file + "." + oldSuffix in now && now[file + "." + oldSuffix] == before[file])
  }

  predicate PutBack(before: Files, after: Files, file: string, newSuffix: string) {
    Same(before, after, file) && Same(before, after, file + "." + newSuffix)
  }

  /** No left-over under the old name would be taken for the file. */
  predicate Clear(fs: Files, file: string, oldSuffix: string) {
    file in fs || file + "." + oldSuffix !in fs
  }

  /** A run that fails at the i-th forward rename has 2 * i - 1 renames in all, and those that undo
      meet no fault. */
  predicate UndoWorks(f: Faults, renames: nat) {
    forall k: nat :: (renames + 1) / 2 <= k < renames ==> !f(k)
  }

  lemma {:induction false} RollbackRenames(fs: Files, n: Names, f: Faults)
    requires !Rotate(fs, n, f).ok
    ensures var r := |Rotate(fs, n, f).states|;
      && r == 2 * FailedAt(fs, n, f) - 1 && 1 <= FailedAt(fs, n, f) <= 4
      && (UndoWorks(f, r) ==> RollbackWorks(fs, n, f))
  {
  }

  /** rotate_index succeeds if and only if both staged files exist and no rename meets a fault. */
  lemma {:induction false} RotateSucceeds(fs: Files, n: Names, f: Faults)
    requires Distinct(n)
    ensures Rotate(fs, n, f).ok <==> n.staged in fs && n.attrStaged in fs && !f(0) && !f(1) && !f(2) && !f(3)
  {
  }

  lemma {:induction false} RotateInNames(fs: Files, dbfile: string, newSuffix: string, oldSuffix: string, f: Faults)
    requires SuffixesApart(newSuffix, oldSuffix)
    ensures var run := Rotate(fs, NamesOf(dbfile, newSuffix, oldSuffix), f);
      run.ok <==> dbfile + "." + newSuffix in fs && dbfile + ".attr." + newSuffix in fs && !f(0) && !f(1) && !f(2) && !f(3)
  {
    DistinctIff(dbfile, newSuffix, oldSuffix);
    RotateSucceeds(fs, NamesOf(dbfile, newSuffix, oldSuffix), f);
  }

  /** Success: database and attributes are in place, and no other file is touched. */
  lemma {:induction false} SuccessInNames(fs: Files, dbfile: string, newSuffix: string, oldSuffix: string, f: Faults)
    requires SuffixesApart(newSuffix, oldSuffix) && Rotate(fs, NamesOf(dbfile, newSuffix, oldSuffix), f).ok
    ensures var fs' := Rotate(fs, NamesOf(dbfile, newSuffix, oldSuffix), f).Last(fs);
      InPlace(fs, fs', dbfile, newSuffix, oldSuffix) && InPlace(fs, fs', dbfile + ".attr", newSuffix, oldSuffix)
  {
    DistinctIff(dbfile, newSuffix, oldSuffix);
    SuccessRotates(fs, NamesOf(dbfile, newSuffix, oldSuffix), f);
    AttrTail(dbfile, newSuffix);
    AttrTail(dbfile, oldSuffix);
  }

  /** Failure: both files and what was staged are as before if and only if no left-over came in. */
  lemma {:induction false} FailureInNames(fs: Files, dbfile: string, newSuffix: string, oldSuffix: string, f: Faults)
    requires SuffixesApart(newSuffix, oldSuffix) && !Rotate(fs, NamesOf(dbfile, newSuffix, oldSuffix), f).ok
    requires UndoWorks(f, |Rotate(fs, NamesOf(dbfile, newSuffix, oldSuffix), f).states|)
    ensures var run := Rotate(fs, NamesOf(dbfile, newSuffix, oldSuffix), f);
      PutBack(fs, run.Last(fs), dbfile, newSuffix) && PutBack(fs, run.Last(fs), dbfile + ".attr", newSuffix) <==>
        (|run.states| >= 3 ==> Clear(fs, dbfile, oldSuffix)) && (|run.states| == 7 ==> Clear(fs, dbfile + ".attr", oldSuffix))
  {
    var n := NamesOf(dbfile, newSuffix, oldSuffix);
    DistinctIff(dbfile, newSuffix, oldSuffix);
    RollbackRenames(fs, n, f);
    RestoredAfter(fs, n, f);
    AttrTail(dbfile, newSuffix);
    AttrTail(dbfile, oldSuffix);
  }

  lemma {:induction false} NeverLostInNames(fs: Files, dbfile: string, newSuffix: string, oldSuffix: string, f: Faults, k: nat)
    requires SuffixesApart(newSuffix, oldSuffix) && dbfile in fs
    requires k < |Rotate(fs, NamesOf(dbfile, newSuffix, oldSuffix), f).states|
    ensures Held(fs, Rotate(fs, NamesOf(dbfile, newSuffix, oldSuffix), f).states[k], dbfile, oldSuffix)
  {
    DistinctIff(dbfile, newSuffix, oldSuffix);
    NeverLost(fs, NamesOf(dbfile, newSuffix, oldSuffix), f, k);
  }

  lemma {:induction false} AttrHeldInNames(fs: Files, dbfile: string, newSuffix: string, oldSuffix: string, f: Faults, k: nat)
    requires SuffixesApart(newSuffix, oldSuffix) && dbfile + ".attr" in fs
    requires k < |Rotate(fs, NamesOf(dbfile, newSuffix, oldSuffix), f).states|
    ensures Held(fs, Rotate(fs, NamesOf(dbfile, newSuffix, oldSuffix), f).states[k], dbfile + ".attr", oldSuffix)
  {
    DistinctIff(dbfile, newSuffix, oldSuffix);
    AttrTail(dbfile, oldSuffix);
    AttrNeverLost(fs, NamesOf(dbfile, newSuffix, oldSuffix), f, k);
  }

  /** All of it for one run. */
  lemma {:induction false} RotationInNames(fs: Files, dbfile: string, newSuffix: string, oldSuffix: string, f: Faults)
    requires SuffixesApart(newSuffix, oldSuffix)
    ensures var run := Rotate(fs, NamesOf(dbfile, newSuffix, oldSuffix), f);
      var fs' := run.Last(fs);
      && (run.ok <==> && dbfile + "." + newSuffix in fs && dbfile + ".attr." + newSuffix in fs
                      && !f(0) && !f(1) && !f(2) && !f(3))
      && (run.ok ==> InPlace(fs, fs', dbfile, newSuffix, oldSuffix) && InPlace(fs, fs', dbfile + ".attr", newSuffix, oldSuffix))
      && (!run.ok && UndoWorks(f, |run.states|) ==>
            (PutBack(fs, fs', dbfile, newSuffix) && PutBack(fs, fs', dbfile + ".attr", newSuffix) <==>
              && (|run.states| >= 3 ==> Clear(fs, dbfile, oldSuffix))
              && (|run.states| == 7 ==> Clear(fs, dbfile + ".attr", oldSuffix))))
      && (dbfile in fs ==> forall k :: 0 <= k < |run.states| ==> Held(fs, run.states[k], dbfile, oldSuffix))
      && (dbfile + ".attr" in fs ==> forall k :: 0 <= k < |run.states| ==> Held(fs, run.states[k], dbfile + ".attr", oldSuffix))
  {
    var run := Rotate(fs, NamesOf(dbfile, newSuffix, oldSuffix), f);
    RotateInNames(fs, dbfile, newSuffix, oldSuffix, f);
    if run.ok {
      SuccessInNames(fs, dbfile, newSuffix, oldSuffix, f);
    } else if UndoWorks(f, |run.states|) {
      FailureInNames(fs, dbfile, newSuffix, oldSuffix, f);
    }
    if dbfile in fs {
      forall k | 0 <= k < |run.states| ensures Held(fs, run.states[k], dbfile, oldSuffix) {
        NeverLostInNames(fs, dbfile, newSuffix, oldSuffix, f, k);
      }
    }
    if dbfile + ".attr" in fs {
      forall k | 0 <= k < |run.states| ensures Held(fs, run.states[k], dbfile + ".attr", oldSuffix) {
        AttrHeldInNames(fs, dbfile, newSuffix, oldSuffix, f, k);
      }
    }
  }

  /** The names that do not fit BSIZE bytes with their terminator. */
  lemma {:induction false} TooLongIff(dbfile: string, newSuffix: string, oldSuffix: string)
    ensures TooLong(dbfile, newSuffix, oldSuffix, 6) <==>
      |dbfile + ".attr." + newSuffix| + 1 > 256 || |dbfile + ".attr." + oldSuffix| + 1 > 256
    ensures TooLong(dbfile, newSuffix, oldSuffix, 1) <==>
      |dbfile + "." + newSuffix| + 1 > 256 || |dbfile + "." + oldSuffix| + 1 > 256
  {
    assert |dbfile + ".attr." + newSuffix| == |dbfile| + 6 + |newSuffix|;
  }

  /** The serial file in its names. */
  lemma {:induction false} SerialInNames(fs: Files, file: string, newSuffix: string, oldSuffix: string, f: Faults)
    requires newSuffix != oldSuffix
    ensures var run := RotateOne(fs, file, file + "." + newSuffix, file + "." + oldSuffix, f);
      var fs' := run.Last(fs);
      && (run.ok <==> file + "." + newSuffix in fs && !f(0) && !f(1))
      && (run.ok ==> InPlace(fs, fs', file, newSuffix, oldSuffix))
      && (!run.ok && UndoWorks(f, |run.states|) ==>
            (PutBack(fs, fs', file, newSuffix) <==> (|run.states| >= 3 ==> Clear(fs, file, oldSuffix))))
      && (file in fs ==> forall k :: 0 <= k < |run.states| ==> Held(fs, run.states[k], file, oldSuffix))
  {
    DottedTail(file, newSuffix, oldSuffix);
    var staged, kept := file + "." + newSuffix, file + "." + oldSuffix;
    assert |staged| > |file| && |kept| > |file|;
    SerialRotates(fs, file, staged, kept, f);
  }

  // ---- the code ----

  lemma {:induction false} Joined(h: seq<Files>, c: Files, c1: Files, c2: Files)
    ensures h + [c] + [c1, c2] == h + [c, c1, c2]
  {
  }

  lemma {:induction false} JoinedRest(h: seq<Files>, c: Files, rest: seq<Files>)
    ensures h + [c] + rest == h + ([c] + rest)
  {
  }

  class FileSystem {
    var files: Files
    /** The states after each rename so far. */
    ghost var history: seq<Files>
    var calls: nat
    const faults: Faults

    constructor (files: Files, faults: Faults)
      ensures this.files == files && this.faults == faults && history == [] && calls == 0
    {
      this.files, this.faults, history, calls := files, faults, [], 0;
    }

    method RenameFile(src: string, dst: string) returns (r: Outcome)
      modifies this
      ensures r == RenameOutcome(old(files), src, faults(old(calls)))
      ensures files == Rename(old(files), src, dst, faults(old(calls)))
      ensures calls == old(calls) + 1 && history == old(history) + [files]
    {
      if faults(calls) {
        r := Failed;
      } else if src !in files {
        r := Missing;
      } else {
        r := Renamed;
        files := (files - {src})[dst := files[src]];
      }
      calls := calls + 1;
      history := history + [files];
    }

    method RotateIndex(dbfile: string, newSuffix: string, oldSuffix: string) returns (ok: bool)
      requires calls == 0 && history == []
      modifies this
      ensures TooLong(dbfile, newSuffix, oldSuffix, 6) ==> !ok && files == old(files) && history == []
      ensures !TooLong(dbfile, newSuffix, oldSuffix, 6) ==>
        var run := Rotate(old(files), NamesOf(dbfile, newSuffix, oldSuffix), faults);
        ok == run.ok && history == run.states && files == run.Last(old(files))
      ensures history == [] <==> |dbfile + ".attr." + newSuffix| + 1 > 256 || |dbfile + ".attr." + oldSuffix| + 1 > 256
      ensures SuffixesApart(newSuffix, oldSuffix) ==>
        && (ok <==> && history != [] && dbfile + "." + newSuffix in old(files) && dbfile + ".attr." + newSuffix in old(files)
                    && !faults(0) && !faults(1) && !faults(2) && !faults(3))
        && (ok ==> && InPlace(old(files), files, dbfile, newSuffix, oldSuffix)
                   && InPlace(old(files), files, dbfile + ".attr", newSuffix, oldSuffix))
        && (!ok && UndoWorks(faults, |history|) ==>
              (PutBack(old(files), files, dbfile, newSuffix) && PutBack(old(files), files, dbfile + ".attr", newSuffix) <==>
                && (|history| >= 3 ==> Clear(old(files), dbfile, oldSuffix))
                && (|history| == 7 ==> Clear(old(files), dbfile + ".attr", oldSuffix))))
        && (dbfile in old(files) ==> forall k :: 0 <= k < |history| ==> Held(old(files), history[k], dbfile, oldSuffix))
        && (dbfile + ".attr" in old(files) ==> forall k :: 0 <= k < |history| ==> Held(old(files), history[k], dbfile + ".attr", oldSuffix))
    {
      TooLongIff(dbfile, newSuffix, oldSuffix);
      if TooLong(dbfile, newSuffix, oldSuffix, 6) {
        return false;
      }
      ok := RotateNames(NamesOf(dbfile, newSuffix, oldSuffix));
      if SuffixesApart(newSuffix, oldSuffix) {
        RotationInNames(old(files), dbfile, newSuffix, oldSuffix, faults);
      }
    }

    /** The rollback of the database's own two renames. */
    method UndoDatabase(n: Names) returns (ghost mid: Files)
      modifies this
      ensures mid == Rename(old(files), n.live, n.staged, faults(old(calls)))
      ensures files == Rename(mid, n.kept, n.live, faults(old(calls) + 1))
      ensures calls == old(calls) + 2 && history == old(history) + [mid, files]
    {
      var r := RenameFile(n.live, n.staged);
      mid := files;
      r := RenameFile(n.kept, n.live);
    }

    /** The rollback of all renames but the last. */
    method UndoAll(n: Names) returns (ghost first: Files, ghost second: Files)
      modifies this
      ensures first == Rename(old(files), n.attrKept, n.attr, faults(old(calls)))
      ensures second == Rename(first, n.live, n.staged, faults(old(calls) + 1))
      ensures files == Rename(second, n.kept, n.live, faults(old(calls) + 2))
      ensures history == old(history) + [first, second, files]
    {
      var r := RenameFile(n.attrKept, n.attr);
      first := files;
      second := UndoDatabase(n);
      Joined(old(history), first, second, files);
    }

    /** The renames of rotate_index. */
    method RotateNames(n: Names) returns (ok: bool)
      requires calls == 0 && history == []
      modifies this
      ensures Run(history, ok) == Rotate(old(files), n, faults) && history != [] && files == history[|history| - 1]
    {
      RotateInHalves(files, n, faults);
      var r := RenameFile(n.live, n.kept);
      ghost var a := files;
      if r == Failed {
        return false;
      }
      r := RenameFile(n.staged, n.live);
      ghost var b := files;
      assert history == [a, b];
      if r != Renamed {
        r := RenameFile(n.kept, n.live);
        assert history == [a, b, files];
        return false;
      }
      ok := RotateAttrNames(n);
    }

    /** The renames of the attribute file, with the rollback of all. */
    method RotateAttrNames(n: Names) returns (ok: bool)
      modifies this
      ensures var run := RotateAttr(old(files), n, faults, old(calls));
        ok == run.ok && history == old(history) + run.states && files == run.states[|run.states| - 1]
    {
      var r := RenameFile(n.attr, n.attrKept);
      ghost var c := files;
      if r == Failed {
        ghost var c1 := UndoDatabase(n);
        Joined(old(history), c, c1, files);
        return false;
      }
      ghost var rest;
      ok, rest := PutAttr(n);
      JoinedRest(old(history), c, rest);
    }

    /** The last rename, or its failure with the rollback of the three before it. */
    method PutAttr(n: Names) returns (ok: bool, ghost rest: seq<Files>)
      modifies this
      ensures history == old(history) + rest && rest != [] && files == rest[|rest| - 1]
      ensures ok <==> RenameOutcome(old(files), n.attrStaged, faults(old(calls))) == Renamed
      ensures var k, d := old(calls), Rename(old(files), n.attrStaged, n.attr, faults(old(calls)));
        var d1 := Rename(d, n.attrKept, n.attr, faults(k + 1));
        var d2 := Rename(d1, n.live, n.staged, faults(k + 2));
        rest == if ok then [d] else [d, d1, d2, Rename(d2, n.kept, n.live, faults(k + 3))]
    {
      var r := RenameFile(n.attrStaged, n.attr);
      ghost var d := files;
      if r != Renamed {
        ghost var d1, d2 := UndoAll(n);
        JoinedRest(old(history), d, [d1, d2, files]);
        return false, [d, d1, d2, files];
      }
      return true, [d];
    }

    method RotateSerial(serialfile: string, newSuffix: string, oldSuffix: string) returns (ok: bool)
      requires calls == 0 && history == []
      modifies this
      ensures TooLong(serialfile, newSuffix, oldSuffix, 1) ==> !ok && files == old(files) && history == []
      ensures !TooLong(serialfile, newSuffix, oldSuffix, 1) ==>
        var run := RotateOne(old(files), serialfile, serialfile + "." + newSuffix, serialfile + "." + oldSuffix, faults);
        ok == run.ok && history == run.states && files == run.Last(old(files))
      ensures history == [] <==> |serialfile + "." + newSuffix| + 1 > 256 || |serialfile + "." + oldSuffix| + 1 > 256
      ensures newSuffix != oldSuffix ==>
        && (ok <==> history != [] && serialfile + "." + newSuffix in old(files) && !faults(0) && !faults(1))
        && (ok ==> InPlace(old(files), files, serialfile, newSuffix, oldSuffix))
        && (!ok && UndoWorks(faults, |history|) ==>
              (PutBack(old(files), files, serialfile, newSuffix) <==> (|history| >= 3 ==> Clear(old(files), serialfile, oldSuffix))))
        && (serialfile in old(files) ==> forall k :: 0 <= k < |history| ==> Held(old(files), history[k], serialfile, oldSuffix))
    {
      TooLongIff(serialfile, newSuffix, oldSuffix);
      if TooLong(serialfile, newSuffix, oldSuffix, 1) {
        return false;
      }
      ok := RotateFile(serialfile, serialfile + "." + newSuffix, serialfile + "." + oldSuffix);
      if newSuffix != oldSuffix {
        SerialInNames(old(files), serialfile, newSuffix, oldSuffix, faults);
      }
    }

    /** The renames of rotate_serial. */
    method RotateFile(live: string, staged: string, kept: string) returns (ok: bool)
      requires calls == 0 && history == []
      modifies this
      ensures Run(history, ok) == RotateOne(old(files), live, staged, kept, faults) && history != [] && files == history[|history| - 1]
    {
      var r := RenameFile(live, kept);
      if r == Failed {
        return false;
      }
      ghost var a := files;
      r := RenameFile(staged, live);
      ghost var b := files;
      assert history == [a, b];
      if r != Renamed {
        r := RenameFile(kept, live);
        assert history == [a, b, files];
        return false;
      }
      return true;
    }
  }
}
