/** From one session to the next: the database that a run of commands saves is read back row for
    row and accepted. */
module CaFile {
  import opened CText
  import opened Serial
  import opened Revocation
  import opened CaDatabase
  import opened CaRuns
  import opened TxtDbFile

  const DB_NUMBER: nat := 6

  function FieldsOf(r: Row): Fields { [r.kind, r.expDate, r.revDate, r.serial, r.file, r.name] }

  function FileOf(rows: seq<Row>): (r: seq<Fields>)
    ensures |r| == |rows| && forall i :: 0 <= i < |rows| ==> r[i] == FieldsOf(rows[i])
  {
    if rows == [] then [] else FileOf(rows[..|rows| - 1]) + [FieldsOf(rows[|rows| - 1])]
  }

  /** A column that may stand anywhere in a row. */
  predicate Clean(s: string) { '\n' !in s && !EndsInBackslash(s) }

  predicate RowStorable(r: Row) {
    && Clean(r.kind) && !(r.kind != "" && r.kind[0] == '#') && Clean(r.expDate) && Clean(r.revDate)
    && Clean(r.serial) && Clean(r.file) && '\n' !in r.name
  }

  lemma {:induction false} StorableRow(r: Row)
    ensures Storable(FieldsOf(r)) <==> RowStorable(r)
  {
    var f := FieldsOf(r);
    assert f[0] == r.kind && f[1] == r.expDate && f[2] == r.revDate && f[3] == r.serial && f[4] == r.file && f[5] == r.name;
    if RowStorable(r) {
      forall i | 0 <= i < 6 ensures '\n' !in f[i] && (i < 5 ==> !EndsInBackslash(f[i])) {
        assert i == 0 || i == 1 || i == 2 || i == 3 || i == 4 || i == 5;
      }
    }
  }

  lemma {:induction false} SixColumns(a: string, b: string, c: string, d: string, e: string, f: string)
    ensures WriteRow([a, b, c, d, e, f])
         == EscapeTabs(a) + "\t" + (EscapeTabs(b) + "\t" + (EscapeTabs(c) + "\t" + (EscapeTabs(d) + "\t" + (EscapeTabs(e) + "\t" + EscapeTabs(f)))))
  {
    WriteRowCons(a, [b, c, d, e, f]);
    WriteRowCons(b, [c, d, e, f]);
    WriteRowCons(c, [d, e, f]);
    WriteRowCons(d, [e, f]);
    WriteRowCons(e, [f]);
    assert [a] + [b, c, d, e, f] == [a, b, c, d, e, f] && [b] + [c, d, e, f] == [b, c, d, e, f];
    assert [c] + [d, e, f] == [c, d, e, f] && [d] + [e, f] == [d, e, f] && [e] + [f] == [e, f];
  }

  /** The columns in their order, for a row without tabs. */
  lemma {:induction false} SavedLine(r: Row)
    requires '\t' !in r.kind && '\t' !in r.expDate && '\t' !in r.revDate && '\t' !in r.serial && '\t' !in r.file && '\t' !in r.name
    ensures WriteRow(FieldsOf(r))
         == r.kind + "\t" + (r.expDate + "\t" + (r.revDate + "\t" + (r.serial + "\t" + (r.file + "\t" + r.name))))
  {
    SixColumns(r.kind, r.expDate, r.revDate, r.serial, r.file, r.name);
    EscapePlain(r.kind);
    EscapePlain(r.expDate);
    EscapePlain(r.revDate);
    EscapePlain(r.serial);
    EscapePlain(r.file);
    EscapePlain(r.name);
  }

  predicate RowsStorable(rows: seq<Row>) { forall i :: 0 <= i < |rows| ==> RowStorable(rows[i]) }

  /** What the commands are given: dates, arguments and clock texts without newline or trailing
      backslash, and subjects, as X509_NAME_oneline prints them, without newline. */
  predicate StepStorable(s: Step) {
    match s
    case IssueStep(c) => Clean(c.notAfter) && '\n' !in c.subject
    case RevokeStep(c, _, arg, now) => Clean(c.notAfter) && '\n' !in c.subject && Clean(arg) && Clean(now)
    case _ => true
  }

  lemma {:induction false} HexIsClean(s: string)
    requires UpperHex(s)
    ensures Clean(s) && Clean("-" + s)
  {
    forall i | 0 <= i < |s| ensures s[i] != '\n' && s[i] != '\\' { assert IsUpperHexDigit(s[i]); }
  }

  lemma {:induction false} CertRowStorable(c: Cert)
    requires Clean(c.notAfter) && '\n' !in c.subject
    ensures RowStorable(CertRow(c))
  {
    HexIsClean(HexBytes(if c.serial < 0 then -c.serial else c.serial));
  }

  lemma {:induction false} WordIsClean(s: string)
    requires Word(s)
    ensures Clean(s)
  {
    forall i | 0 <= i < |s| ensures s[i] != '\n' && s[i] != '\\' { assert IsLetter(s[i]); }
  }

  lemma {:induction false} AppendClean(a: string, part: Option<string>)
    requires Clean(a) && (part.Some? ==> Clean(part.value))
    ensures Clean(a + PartText(part))
  {
    assert part.Some? ==> Clean("," + part.value);
  }

  predicate PartsClean(p: Parts) {
    (p.reason.Some? ==> Clean(p.reason.value)) && (p.other.Some? ==> Clean(p.other.value))
  }

  lemma {:induction false} ChosenPartsClean(lib: Library, t: RevType, arg: string)
    requires Clean(arg) && ChooseParts(lib, t, arg).Some?
    ensures PartsClean(ChooseParts(lib, t, arg).value)
  {
    var k := match t case RevHold => 8 case RevKeyCompromise => 9 case RevCaCompromise => 10 case _ => FindReason(arg, 8);
    ReasonsAreWords(k);
    WordIsClean(CrlReasons()[k]);
  }

  lemma {:induction false} AssembleClean(now: string, p: Parts)
    requires Clean(now) && PartsClean(p)
    ensures Clean(Assemble(now, p))
  {
    AppendClean(now, p.reason);
    AppendClean(now + PartText(p.reason), p.other);
  }

  lemma {:induction false} RevocationClean(lib: Library, now: string, t: RevType, arg: string)
    requires Clean(arg) && Clean(now)
    ensures MakeRevocation(lib, now, t, arg).Some? ==> Clean(MakeRevocation(lib, now, t, arg).value)
  {
    if ChooseParts(lib, t, arg).Some? {
      ChosenPartsClean(lib, t, arg);
      AssembleClean(now, ChooseParts(lib, t, arg).value);
    }
  }

  lemma {:induction false} RevokePresentStorable(lib: Library, now: string, db: Db, c: Cert, t: RevType, arg: string)
    requires SerialsIndexed(db.rows, db.serialIndex) && KeyOf(CertRow(c)) in db.serialIndex && RowsStorable(db.rows)
    requires Clean(arg) && Clean(now)
    ensures RowsStorable(RevokePresent(lib, now, db, c, t, arg).db.rows)
  {
    RevocationClean(lib, now, t, arg);
    var i, str := db.serialIndex[KeyOf(CertRow(c))], MakeRevocation(lib, now, t, arg);
    if str.Some? {
      RevokedRowStorable(db.rows[i], str.value);
      UpdatedStorable(db.rows, i, RevokedRow(db.rows[i], str.value));
    }
  }

  lemma {:induction false} UpdatedStorable(rows: seq<Row>, i: nat, r: Row)
    requires i < |rows| && RowsStorable(rows) && RowStorable(r)
    ensures RowsStorable(rows[i := r])
  {
  }

  lemma {:induction false} RevokedRowStorable(r: Row, str: string)
    requires RowStorable(r) && Clean(str)
    ensures RowStorable(RevokedRow(r, str))
  {
  }

  lemma {:induction false} RevokeStorable(lib: Library, now: string, db: Db, c: Cert, t: RevType, arg: string)
    requires Consistent(db) && RowsStorable(db.rows)
    requires Clean(c.notAfter) && '\n' !in c.subject && Clean(arg) && Clean(now)
    ensures RowsStorable(Revoke(lib, now, db, c, t, arg).db.rows)
  {
    if KeyOf(CertRow(c)) in db.serialIndex {
      RevokePresentStorable(lib, now, db, c, t, arg);
    } else if Insert(db, CertRow(c)).Some? {
      CertRowStorable(c);
      InsertConsistent(db, CertRow(c));
      var d := Insert(db, CertRow(c)).value;
      if t != RevValid { RevokePresentStorable(lib, now, d, c, t, arg); }
    }
  }

  lemma {:induction false} ExpiryStorable(past: set<string>, rows: seq<Row>, n: nat)
    requires RowsStorable(rows) && n <= |rows|
    ensures RowsStorable(ExpireRows(past, rows, n))
  {
    forall i | 0 <= i < |rows| ensures RowStorable(ExpireRow(past, rows[i])) { assert RowStorable(rows[i]); }
  }

  lemma {:induction false} IssueStorable(db: Db, c: Cert)
    requires RowsStorable(db.rows) && Clean(c.notAfter) && '\n' !in c.subject
    ensures RowsStorable(Issue(db, c).db.rows)
  {
    CertRowStorable(c);
  }

  lemma {:induction false} StepKeepsStorable(lib: Library, db: Db, s: Step)
    requires Consistent(db) && RowsStorable(db.rows) && StepStorable(s)
    ensures RowsStorable(Apply(lib, db, s).rows)
  {
    match s
    case IssueStep(c) => IssueStorable(db, c);
    case RevokeStep(c, t, arg, now) => RevokeStorable(lib, now, db, c, t, arg);
    case ExpireStep(past) => ExpiryStorable(past, db.rows, Readable(lib, db.rows));
    case ReloadStep(unique) => LoadCorrect(db.rows, unique);
  }

  lemma {:induction false} RunKeepsStorable(lib: Library, states: seq<Db>, steps: seq<Step>, m: nat)
    requires IsRun(lib, states, steps) && Consistent(states[0]) && m < |states|
    requires RowsStorable(states[0].rows) && forall i :: 0 <= i < |steps| ==> StepStorable(steps[i])
    ensures RowsStorable(states[m].rows)
  {
    if m > 0 {
      RunKeepsStorable(lib, states, steps, m - 1);
      RunStaysConsistent(lib, states, steps, m - 1);
      StepKeepsStorable(lib, states[m - 1], steps[m - 1]);
    }
  }

  /** Rows that were read from a file are storable. */
  lemma {:induction false} LoadedIsStorable(text: string, rows: seq<Row>)
    requires ReadFile(DB_NUMBER, text) == Some(FileOf(rows))
    ensures RowsStorable(rows)
  {
    ReadIsStorable(DB_NUMBER, text, BUFSIZE);
    forall i | 0 <= i < |rows| ensures RowStorable(rows[i]) {
      assert Storable(FileOf(rows)[i]);
      StorableRow(rows[i]);
    }
  }

  /** Whatever commands ran on a database read from a file, and whatever its rows hold, each file they
      save is read back row for row, and both indexes can be built from it. */
  lemma {:induction false} SavedFileIsReadBack(lib: Library, text: string, states: seq<Db>, steps: seq<Step>, m: nat)
    requires IsRun(lib, states, steps) && Consistent(states[0]) && m < |states|
    requires ReadFile(DB_NUMBER, text) == Some(FileOf(states[0].rows))
    requires forall i :: 0 <= i < |steps| ==> StepStorable(steps[i])
    ensures ReadFile(DB_NUMBER, WriteRows(FileOf(states[m].rows))) == Some(FileOf(states[m].rows))
    ensures Load(states[m].rows, states[m].nameIndex.Some?).Some?
  {
    LoadedIsStorable(text, states[0].rows);
    RunKeepsStorable(lib, states, steps, m);
    var file := FileOf(states[m].rows);
    forall i | 0 <= i < |file| ensures Storable(file[i]) { StorableRow(states[m].rows[i]); }
    FileRoundTrip(DB_NUMBER, file);
    RunIsSafe(lib, states, steps, m, m);
    LoadCorrect(states[m].rows, states[m].nameIndex.Some?);
  }

  /** A saved file as the next session sees it: readable, every row accepted, both indexes built. */
  ghost predicate AcceptedAgain(lib: Library, db: Db) {
    && ReadFile(DB_NUMBER, WriteRows(FileOf(db.rows))) == Some(FileOf(db.rows))
    && RowsOk(lib, db.rows) && Load(db.rows, db.nameIndex.Some?).Some?
  }

  /** From any file that was read and accepted, the next session accepts every file of a run, if and
      only if no command of the run revokes a row without a type. */
  lemma {:induction false} SavedFileIsAccepted(lib: Library, text: string, states: seq<Db>, steps: seq<Step>)
    requires IsRun(lib, states, steps) && StepsOk(lib, steps) && Checked(lib, states[0])
    requires ReadFile(DB_NUMBER, text) == Some(FileOf(states[0].rows))
    requires forall i :: 0 <= i < |steps| ==> StepStorable(steps[i])
    ensures (forall m :: 0 <= m < |states| ==> AcceptedAgain(lib, states[m])) <==> SpoilsNothing(lib, states, steps)
  {
    RunAcceptedIff(lib, states, steps);
    forall m | 0 <= m < |states| ensures AcceptedAgain(lib, states[m]) <==> RowsOk(lib, states[m].rows) {
      SavedFileIsReadBack(lib, text, states, steps, m);
    }
  }
}
