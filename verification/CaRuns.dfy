/** Every run of ca commands over one database. */
module CaRuns {
  import opened CText
  import opened Serial
  import opened Revocation
  import opened CaDatabase

  /** A command that changes the database, or the start of a new session, which reads the rows
      back and indexes them again. */
  datatype Step =
    | IssueStep(cert: Cert)
    | RevokeStep(cert: Cert, revType: RevType, arg: string, now: string)
    | ExpireStep(past: set<string>)
    | ReloadStep(unique: bool)

  /** What the environment owes: certificate dates that the library reads back, and a clock that
      prints UTCTime. */
  ghost predicate StepOk(lib: Library, s: Step) {
    match s
    case IssueStep(c) => lib.isTime(c.notAfter)
    case RevokeStep(c, _, _, now) => lib.isTime(c.notAfter) && lib.isUtcTime(now) && NoComma(now)
    case _ => true
  }

  // ---- the checks that ca makes on every row it loads ----

  predicate SerialOk(s: string) {
    var digits := if s != "" && s[0] == '-' then s[1..] else s;
    |digits| % 2 == 0 && |digits| >= 2 && AllHex(digits)
  }

  /** Only a revoked row carries a revocation field, and that can be read. */
  predicate RevOk(lib: Library, r: Row) {
    && (!IsRevokedRow(r) ==> r.revDate == "")
    && (IsRevokedRow(r) ==> Unpack(lib, r.revDate).Some?)
  }

  predicate RowOk(lib: Library, r: Row) {
    && RevOk(lib, r)
    && lib.isTime(r.expDate)
    && SerialOk(r.serial)
  }

  predicate RowsOk(lib: Library, rows: seq<Row>) { forall i :: 0 <= i < |rows| ==> RowOk(lib, rows[i]) }

  /** The serials that pass: an optional minus and a positive even number of hexadecimal digits. */
  lemma {:induction false} SerialOkIff(sign: string, digits: string)
    requires sign == "-" || (sign == "" && (digits == "" || digits[0] != '-'))
    ensures SerialOk(sign + digits) <==>
      |digits| > 0 && |digits| % 2 == 0 && forall i :: 0 <= i < |digits| ==> IsXDigit(digits[i])
  {
    var s := sign + digits;
    if sign == "-" {
      assert s[0] == '-' && s[1..] == digits;
    } else {
      assert s == digits;
    }
  }

  /** Why a row is refused. */
  lemma {:induction false} RowRefusedIff(lib: Library, r: Row)
    ensures !RowOk(lib, r) <==>
      || ((r.kind == "" || r.kind[0] != 'R') && r.revDate != "")
      || (r.kind != "" && r.kind[0] == 'R' && Unpack(lib, r.revDate).None?)
      || !lib.isTime(r.expDate)
      || !SerialOk(r.serial)
  {
  }

  /** The loop over the loaded rows. */
  method CheckRows(lib: Library, rows: seq<Row>) returns (ok: bool)
    ensures ok <==> RowsOk(lib, rows)
  {
    for i := 0 to |rows|
      invariant forall j :: 0 <= j < i ==> RowOk(lib, rows[j])
    {
      if !IsRevokedRow(rows[i]) && rows[i].revDate != "" {
        return false;
      }
      if IsRevokedRow(rows[i]) {
        var r := UnpackRevinfo(lib, rows[i].revDate);
        if r.None? {
          return false;
        }
      }
      if !lib.isTime(rows[i].expDate) {
        return false;
      }
      var good := CheckSerial(rows[i].serial);
      if !good {
        return false;
      }
    }
    return true;
  }

  method CheckSerial(s: string) returns (ok: bool)
    ensures ok <==> SerialOk(s)
  {
    var p := 0;
    var j := |s|;
    if s != "" && s[0] == '-' {
      p, j := 1, j - 1;
    }
    ghost var digits := s[p..];
    if j % 2 == 1 || j < 2 {
      return false;
    }
    while p < |s|
      invariant |s| - j <= p <= |s|
      invariant forall i :: 0 <= i < p - (|s| - j) ==> IsXDigit(digits[i])
    {
      if !IsXDigit(s[p]) {
        assert digits[p - (|s| - j)] == s[p];
        return false;
      }
      p := p + 1;
    }
    return true;
  }

  /** A database as it is after loading: indexed, every row accepted. */
  ghost predicate Checked(lib: Library, db: Db) {
    Consistent(db) && RowsOk(lib, db.rows)
  }

  /** No type column is empty; the load checks do not look at it. */
  predicate Typed(rows: seq<Row>) { forall i :: 0 <= i < |rows| ==> rows[i].kind != "" }

  ghost predicate Inv(lib: Library, db: Db) {
    Checked(lib, db) && Typed(db.rows)
  }

  /** A command that fails ends without saving, so it leaves the database as it was. */
  function Apply(lib: Library, db: Db, s: Step): Db
    requires Consistent(db)
  {
    match s
    case IssueStep(c) => var r := Issue(db, c); if r.ok then r.db else db
    case RevokeStep(c, t, arg, now) => var r := Revoke(lib, now, db, c, t, arg); if r.ok then r.db else db
    case ExpireStep(past) => var r := Expire(lib, past, db); if r.ok then r.db else db
    case ReloadStep(unique) => var d := Load(db.rows, unique); if d.Some? then d.value else db
  }

  // ---- rows only grow and only age ----

  /** What may become of a row: serial, name and file never change, nor does the expiry date of a row
      with a type, which keeps having one; a revoked row never changes at all; no row becomes valid
      again. */
  predicate RowAges(a: Row, b: Row) {
    && b.serial == a.serial && b.name == a.name && b.file == a.file
    && (a.kind != "" ==> b.kind != "" && b.expDate == a.expDate)
    && (IsRevokedRow(a) ==> b == a)
    && (IsValidRow(b) ==> b == a)
  }

  /** Rows only age, and new ones have a type. */
  predicate Grows(rows: seq<Row>, rows': seq<Row>) {
    && |rows| <= |rows'|
    && (forall i :: 0 <= i < |rows| ==> RowAges(rows[i], rows'[i]))
    && (forall i :: |rows| <= i < |rows'| ==> rows'[i].kind != "")
  }

  lemma {:induction false} GrowsTransitive(a: seq<Row>, b: seq<Row>, c: seq<Row>)
    requires Grows(a, b) && Grows(b, c)
    ensures Grows(a, c)
  {
    forall i | 0 <= i < |a| ensures RowAges(a[i], c[i]) {
      assert RowAges(a[i], b[i]) && RowAges(b[i], c[i]);
    }
    forall i | |a| <= i < |c| ensures c[i].kind != "" {
      if i < |b| { assert RowAges(b[i], c[i]); }
    }
  }

  lemma {:induction false} GrowsReflexive(rows: seq<Row>)
    ensures Grows(rows, rows)
  {
  }

  lemma {:induction false} TypedGrows(rows: seq<Row>, rows': seq<Row>)
    requires Typed(rows) && Grows(rows, rows')
    ensures Typed(rows')
  {
    forall i | 0 <= i < |rows'| ensures rows'[i].kind != "" {
      if i < |rows| { assert RowAges(rows[i], rows'[i]); }
    }
  }

  lemma {:induction false} InsertGrows(db: Db, c: Cert)
    requires Insert(db, CertRow(c)).Some?
    ensures Grows(db.rows, Insert(db, CertRow(c)).value.rows)
  {
  }

  lemma {:induction false} RevokePresentGrows(lib: Library, now: string, db: Db, c: Cert, t: RevType, arg: string)
    requires SerialsIndexed(db.rows, db.serialIndex) && KeyOf(CertRow(c)) in db.serialIndex
    ensures Grows(db.rows, RevokePresent(lib, now, db, c, t, arg).db.rows)
  {
    GrowsReflexive(db.rows);
    var i, str := db.serialIndex[KeyOf(CertRow(c))], MakeRevocation(lib, now, t, arg);
    if str.Some? && !IsRevokedRow(db.rows[i]) { RevokedAges(db.rows, i, str.value); }
  }

  lemma {:induction false} RevokedAges(rows: seq<Row>, i: nat, str: string)
    requires i < |rows| && !IsRevokedRow(rows[i])
    ensures Grows(rows, rows[i := RevokedRow(rows[i], str)])
  {
  }

  lemma {:induction false} RevokeGrows(lib: Library, now: string, db: Db, c: Cert, t: RevType, arg: string)
    requires Consistent(db)
    ensures Grows(db.rows, Revoke(lib, now, db, c, t, arg).db.rows)
  {
    GrowsReflexive(db.rows);
    if KeyOf(CertRow(c)) in db.serialIndex {
      RevokePresentGrows(lib, now, db, c, t, arg);
    } else if Insert(db, CertRow(c)).Some? {
      var d := Insert(db, CertRow(c)).value;
      InsertGrows(db, c);
      InsertConsistent(db, CertRow(c));
      RevokePresentGrows(lib, now, d, c, t, arg);
      GrowsTransitive(db.rows, d.rows, RevokePresent(lib, now, d, c, t, arg).db.rows);
    }
  }

  lemma {:induction false} ExpiryGrows(past: set<string>, rows: seq<Row>, n: nat)
    requires n <= |rows|
    ensures Grows(rows, ExpireRows(past, rows, n))
  {
  }

  /** Every command only adds rows and lets rows age, whatever they hold. */
  lemma {:induction false} StepGrows(lib: Library, db: Db, s: Step)
    requires Consistent(db)
    ensures Grows(db.rows, Apply(lib, db, s).rows)
  {
    GrowsReflexive(db.rows);
    match s
    case IssueStep(c) => if Insert(db, CertRow(c)).Some? { InsertGrows(db, c); }
    case RevokeStep(c, t, arg, now) => RevokeGrows(lib, now, db, c, t, arg);
    case ExpireStep(past) => ExpiryGrows(past, db.rows, Readable(lib, db.rows));
    case ReloadStep(unique) => LoadCorrect(db.rows, unique);
  }

  // ---- revocation fields ----

  predicate RevsOk(lib: Library, rows: seq<Row>) { forall i :: 0 <= i < |rows| ==> RevOk(lib, rows[i]) }

  /** The clock prints a UTCTime. */
  ghost predicate ClockOk(lib: Library, s: Step) { s.RevokeStep? ==> lib.isUtcTime(s.now) && NoComma(s.now) }

  lemma {:induction false} RevokePresentKeepsRevs(lib: Library, now: string, db: Db, c: Cert, t: RevType, arg: string)
    requires SerialsIndexed(db.rows, db.serialIndex) && KeyOf(CertRow(c)) in db.serialIndex
    requires RevsOk(lib, db.rows) && lib.isUtcTime(now) && NoComma(now)
    ensures RevsOk(lib, RevokePresent(lib, now, db, c, t, arg).db.rows)
  {
    if MakeRevocation(lib, now, t, arg).Some? { UnpackInvertsMake(lib, now, t, arg); }
  }

  lemma {:induction false} RevokeKeepsRevs(lib: Library, now: string, db: Db, c: Cert, t: RevType, arg: string)
    requires Consistent(db) && RevsOk(lib, db.rows) && lib.isUtcTime(now) && NoComma(now)
    ensures RevsOk(lib, Revoke(lib, now, db, c, t, arg).db.rows)
  {
    if KeyOf(CertRow(c)) in db.serialIndex {
      RevokePresentKeepsRevs(lib, now, db, c, t, arg);
    } else if Insert(db, CertRow(c)).Some? {
      InsertConsistent(db, CertRow(c));
      RevokePresentKeepsRevs(lib, now, Insert(db, CertRow(c)).value, c, t, arg);
    }
  }

  lemma {:induction false} ExpiryKeepsRevs(lib: Library, past: set<string>, rows: seq<Row>, n: nat)
    requires RevsOk(lib, rows) && n <= |rows|
    ensures RevsOk(lib, ExpireRows(past, rows, n))
  {
    forall i | 0 <= i < |rows| ensures RevOk(lib, ExpireRow(past, rows[i])) { assert RevOk(lib, rows[i]); }
  }

  /** The checks on revocation fields are kept by every command, also where a row has no type. */
  lemma {:induction false} StepKeepsRevs(lib: Library, db: Db, s: Step)
    requires Consistent(db) && RevsOk(lib, db.rows) && ClockOk(lib, s)
    ensures RevsOk(lib, Apply(lib, db, s).rows)
  {
    match s
    case IssueStep(c) =>
    case RevokeStep(c, t, arg, now) => RevokeKeepsRevs(lib, now, db, c, t, arg);
    case ExpireStep(past) => ExpiryKeepsRevs(lib, past, db.rows, Readable(lib, db.rows));
    case ReloadStep(unique) => LoadCorrect(db.rows, unique);
  }

  lemma {:induction false} SerialTextOk(n: int)
    ensures SerialOk(SerialText(n))
  {
    var s := SerialText(n);
    if n < 0 {
      assert s[1..] == HexBytes(-n);
    } else if n > 0 {
      assert IsUpperHexDigit(s[0]);
    }
    var digits := if s[0] == '-' then s[1..] else s;
    assert UpperHex(digits);
    forall i | 0 <= i < |digits| ensures IsXDigit(digits[i]) { assert IsUpperHexDigit(digits[i]); }
  }

  lemma {:induction false} InsertStep(lib: Library, db: Db, c: Cert)
    requires RowsOk(lib, db.rows) && lib.isTime(c.notAfter) && Insert(db, CertRow(c)).Some?
    ensures RowsOk(lib, Insert(db, CertRow(c)).value.rows)
  {
    SerialTextOk(c.serial);
  }

  // ---- when does revoking spoil a row? ----

  /** Revoking an acceptable row leaves it acceptable if and only if it has a type; otherwise the
      write of the type has wiped out the expiry date. */
  lemma {:induction false} RevokedRowOk(lib: Library, r: Row, str: string)
    requires RowOk(lib, r) && Unpack(lib, str).Some?
    ensures RowOk(lib, RevokedRow(r, str)) <==> r.kind != "" || lib.isTime("")
  {
  }

  /** The guard of the branch that revokes a row of the database. */
  predicate Revokes(lib: Library, now: string, db: Db, c: Cert, t: RevType, arg: string)
    requires SerialsIndexed(db.rows, db.serialIndex)
  {
    var key := KeyOf(CertRow(c));
    && key in db.serialIndex && CertRow(c).name == db.rows[db.serialIndex[key]].name
    && t != RevValid && !IsRevokedRow(db.rows[db.serialIndex[key]])
    && MakeRevocation(lib, now, t, arg).Some?
  }

  /** It meets a row whose type column is empty. */
  predicate RevokesUntyped(lib: Library, now: string, db: Db, c: Cert, t: RevType, arg: string)
    requires SerialsIndexed(db.rows, db.serialIndex)
  {
    Revokes(lib, now, db, c, t, arg) && db.rows[db.serialIndex[KeyOf(CertRow(c))]].kind == ""
  }

  lemma {:induction false} ReplaceRow(lib: Library, rows: seq<Row>, i: nat, r: Row)
    requires RowsOk(lib, rows) && i < |rows|
    ensures RowsOk(lib, rows[i := r]) <==> RowOk(lib, r)
  {
    assert rows[i := r][i] == r;
    assert forall j :: 0 <= j < |rows| && j != i ==> rows[i := r][j] == rows[j];
  }

  lemma {:induction false} RevokePresentStep(lib: Library, now: string, db: Db, c: Cert, t: RevType, arg: string)
    requires RowsOk(lib, db.rows) && SerialsIndexed(db.rows, db.serialIndex) && KeyOf(CertRow(c)) in db.serialIndex
    requires lib.isUtcTime(now) && NoComma(now)
    ensures RowsOk(lib, RevokePresent(lib, now, db, c, t, arg).db.rows)
            <==> !RevokesUntyped(lib, now, db, c, t, arg) || lib.isTime("")
  {
    if Revokes(lib, now, db, c, t, arg) {
      var i := db.serialIndex[KeyOf(CertRow(c))];
      var str := MakeRevocation(lib, now, t, arg).value;
      UnpackInvertsMake(lib, now, t, arg);
      assert RowOk(lib, db.rows[i]);
      RevokedRowOk(lib, db.rows[i], str);
      ReplaceRow(lib, db.rows, i, RevokedRow(db.rows[i], str));
    }
  }

  /** What do_revoke leaves behind passes the load checks if and only if it did not revoke a row
      without a type. */
  lemma {:induction false} RevokeKeepsRows(lib: Library, now: string, db: Db, c: Cert, t: RevType, arg: string)
    requires Checked(lib, db) && lib.isTime(c.notAfter) && lib.isUtcTime(now) && NoComma(now)
    ensures RowsOk(lib, Revoke(lib, now, db, c, t, arg).db.rows)
            <==> !RevokesUntyped(lib, now, db, c, t, arg) || lib.isTime("")
  {
    if KeyOf(CertRow(c)) in db.serialIndex {
      RevokePresentStep(lib, now, db, c, t, arg);
    } else if Insert(db, CertRow(c)).Some? {
      InsertStep(lib, db, c);
      InsertConsistent(db, CertRow(c));
      if t != RevValid { RevokeInserted(lib, now, db, c, t, arg); }
    }
  }

  /** The row just inserted has a type. */
  lemma {:induction false} RevokeInserted(lib: Library, now: string, db: Db, c: Cert, t: RevType, arg: string)
    requires Checked(lib, db) && Insert(db, CertRow(c)).Some? && Consistent(Insert(db, CertRow(c)).value)
    requires lib.isTime(c.notAfter) && lib.isUtcTime(now) && NoComma(now)
    ensures RowsOk(lib, RevokePresent(lib, now, Insert(db, CertRow(c)).value, c, t, arg).db.rows)
  {
    var d := Insert(db, CertRow(c)).value;
    InsertStep(lib, db, c);
    assert d.rows[d.serialIndex[KeyOf(CertRow(c))]] == CertRow(c);
    RevokePresentStep(lib, now, d, c, t, arg);
  }

  lemma {:induction false} IssueKeepsRows(lib: Library, db: Db, c: Cert)
    requires Checked(lib, db) && lib.isTime(c.notAfter)
    ensures RowsOk(lib, Issue(db, c).db.rows)
  {
    IssueConsistent(db, c);
    if Issue(db, c).ok { InsertStep(lib, db, c); }
  }

  lemma {:induction false} ExpiryKeepsRows(lib: Library, past: set<string>, rows: seq<Row>, n: nat)
    requires RowsOk(lib, rows) && n <= |rows|
    ensures RowsOk(lib, ExpireRows(past, rows, n))
  {
    forall i | 0 <= i < |rows| ensures RowOk(lib, ExpireRow(past, rows[i])) { assert RowOk(lib, rows[i]); }
  }

  /** A step that wipes out an expiry date. */
  ghost predicate Spoils(lib: Library, db: Db, s: Step)
    requires Consistent(db)
  {
    s.RevokeStep? && RevokesUntyped(lib, s.now, db, s.cert, s.revType, s.arg) && !lib.isTime("")
  }

  lemma {:induction false} StepConsistent(lib: Library, db: Db, s: Step)
    requires Consistent(db)
    ensures Consistent(Apply(lib, db, s))
  {
    match s
    case IssueStep(c) => IssueConsistent(db, c);
    case RevokeStep(c, t, arg, now) => RevokeConsistent(lib, now, db, c, t, arg);
    case ExpireStep(past) => ExpireConsistent(lib, past, db);
    case ReloadStep(unique) => LoadCorrect(db.rows, unique);
  }

  /** What a command saves passes the load checks if and only if it revoked no row without a type. */
  lemma {:induction false} StepKeepsChecks(lib: Library, db: Db, s: Step)
    requires Checked(lib, db) && StepOk(lib, s)
    ensures RowsOk(lib, Apply(lib, db, s).rows) <==> !Spoils(lib, db, s)
  {
    match s
    case IssueStep(c) => IssueKeepsRows(lib, db, c);
    case RevokeStep(c, t, arg, now) => RevokeStepKeepsChecks(lib, db, c, t, arg, now);
    case ExpireStep(past) => ExpiryKeepsRows(lib, past, db.rows, Readable(lib, db.rows));
    case ReloadStep(unique) => LoadCorrect(db.rows, unique);
  }

  lemma {:induction false} RevokeStepKeepsChecks(lib: Library, db: Db, c: Cert, t: RevType, arg: string, now: string)
    requires Checked(lib, db) && StepOk(lib, RevokeStep(c, t, arg, now))
    ensures var s := RevokeStep(c, t, arg, now); RowsOk(lib, Apply(lib, db, s).rows) <==> !Spoils(lib, db, s)
  {
    RevokeKeepsRows(lib, now, db, c, t, arg);
    assert Revokes(lib, now, db, c, t, arg) ==> Revoke(lib, now, db, c, t, arg).ok;
  }

  lemma {:induction false} TypedNeverSpoils(lib: Library, db: Db, s: Step)
    requires Consistent(db) && Typed(db.rows)
    ensures !Spoils(lib, db, s)
  {
  }

  /** Every step keeps the invariant and only lets rows age. */
  lemma {:induction false} StepKeepsInv(lib: Library, db: Db, s: Step)
    requires Inv(lib, db) && StepOk(lib, s)
    ensures Inv(lib, Apply(lib, db, s)) && Grows(db.rows, Apply(lib, db, s).rows)
  {
    StepConsistent(lib, db, s);
    StepKeepsChecks(lib, db, s);
    TypedNeverSpoils(lib, db, s);
    StepGrows(lib, db, s);
    TypedGrows(db.rows, Apply(lib, db, s).rows);
  }

  ghost predicate StepsOk(lib: Library, steps: seq<Step>) {
    forall i :: 0 <= i < |steps| ==> StepOk(lib, steps[i])
  }

  /** The databases of a run: states[0] is the first, each other one a step later. */
  ghost predicate IsRun(lib: Library, states: seq<Db>, steps: seq<Step>) {
    && |states| == |steps| + 1
    && forall i :: 0 <= i < |steps| && Consistent(states[i]) ==> states[i + 1] == Apply(lib, states[i], steps[i])
  }

  /** The indexes stay consistent in every run, whatever its rows hold. */
  lemma {:induction false} RunStaysConsistent(lib: Library, states: seq<Db>, steps: seq<Step>, m: nat)
    requires IsRun(lib, states, steps) && Consistent(states[0]) && m < |states|
    ensures Consistent(states[m])
  {
    if m > 0 {
      RunStaysConsistent(lib, states, steps, m - 1);
      StepConsistent(lib, states[m - 1], steps[m - 1]);
    }
  }

  lemma {:induction false} RunKeepsInv(lib: Library, states: seq<Db>, steps: seq<Step>, m: nat)
    requires IsRun(lib, states, steps) && StepsOk(lib, steps) && Inv(lib, states[0]) && m < |states|
    ensures Inv(lib, states[m])
  {
    if m > 0 {
      RunKeepsInv(lib, states, steps, m - 1);
      StepKeepsInv(lib, states[m - 1], steps[m - 1]);
    }
  }

  lemma {:induction false} GrowsAt(lib: Library, states: seq<Db>, steps: seq<Step>, rows: seq<Row>, i: nat)
    requires IsRun(lib, states, steps) && i < |steps| && Consistent(states[i]) && Grows(rows, states[i].rows)
    ensures Grows(rows, states[i + 1].rows)
  {
    StepGrows(lib, states[i], steps[i]);
    GrowsTransitive(rows, states[i].rows, states[i + 1].rows);
  }

  lemma {:induction false} RunGrows(lib: Library, states: seq<Db>, steps: seq<Step>, k: nat, m: nat)
    requires IsRun(lib, states, steps) && Consistent(states[0]) && k <= m < |states|
    ensures Grows(states[k].rows, states[m].rows)
    decreases m - k
  {
    if k < m {
      RunGrows(lib, states, steps, k, m - 1);
      RunStaysConsistent(lib, states, steps, m - 1);
      GrowsAt(lib, states, steps, states[k].rows, m - 1);
    } else {
      GrowsReflexive(states[k].rows);
    }
  }

  ghost predicate ClocksOk(lib: Library, steps: seq<Step>) {
    forall i :: 0 <= i < |steps| ==> ClockOk(lib, steps[i])
  }

  lemma {:induction false} RunKeepsRevs(lib: Library, states: seq<Db>, steps: seq<Step>, m: nat)
    requires IsRun(lib, states, steps) && Consistent(states[0]) && m < |states|
    requires RevsOk(lib, states[0].rows) && ClocksOk(lib, steps)
    ensures RevsOk(lib, states[m].rows)
  {
    if m > 0 {
      RunKeepsRevs(lib, states, steps, m - 1);
      RunStaysConsistent(lib, states, steps, m - 1);
      StepKeepsRevs(lib, states[m - 1], steps[m - 1]);
    }
  }

  /** Over every run from an indexed database, whatever its rows hold: serial numbers stay unique up to
      leading zeros, with unique_subject at most one valid row carries a name, and rows only age; and
      if only revoked rows carried a revocation field that could be read, this stays so. */
  lemma {:induction false} RunIsSafe(lib: Library, states: seq<Db>, steps: seq<Step>, k: nat, m: nat)
    requires IsRun(lib, states, steps) && Consistent(states[0]) && k <= m < |states|
    ensures Consistent(states[m]) && UniqueSerials(states[m].rows)
    ensures states[m].nameIndex.Some? ==> UniqueValidNames(states[m].rows)
    ensures Grows(states[k].rows, states[m].rows)
    ensures RevsOk(lib, states[0].rows) && ClocksOk(lib, steps) ==> RevsOk(lib, states[m].rows)
  {
    RunStaysConsistent(lib, states, steps, m);
    RunGrows(lib, states, steps, k, m);
    ConsistentIsUnique(states[m]);
    if RevsOk(lib, states[0].rows) && ClocksOk(lib, steps) { RunKeepsRevs(lib, states, steps, m); }
  }

  ghost predicate SpoilsNothing(lib: Library, states: seq<Db>, steps: seq<Step>) {
    |states| == |steps| + 1 && forall i :: 0 <= i < |steps| && Consistent(states[i]) ==> !Spoils(lib, states[i], steps[i])
  }

  /** From any loaded database, every database of a run passes the load checks if and only if no
      command of the run revokes a row without a type. */
  lemma {:induction false} RunAcceptedIff(lib: Library, states: seq<Db>, steps: seq<Step>)
    requires IsRun(lib, states, steps) && StepsOk(lib, steps) && Checked(lib, states[0])
    ensures (forall m :: 0 <= m < |states| ==> RowsOk(lib, states[m].rows)) <==> SpoilsNothing(lib, states, steps)
  {
    if SpoilsNothing(lib, states, steps) {
      forall m | 0 <= m < |states| ensures RowsOk(lib, states[m].rows) { AcceptedAt(lib, states, steps, m); }
    } else {
      var i :| 0 <= i < |steps| && Consistent(states[i]) && Spoils(lib, states[i], steps[i]);
      if RowsOk(lib, states[i].rows) {
        StepKeepsChecks(lib, states[i], steps[i]);
        assert !RowsOk(lib, states[i + 1].rows);
      }
    }
  }

  lemma {:induction false} AcceptedAt(lib: Library, states: seq<Db>, steps: seq<Step>, m: nat)
    requires IsRun(lib, states, steps) && StepsOk(lib, steps) && Checked(lib, states[0]) && m < |states|
    requires SpoilsNothing(lib, states, steps)
    ensures RowsOk(lib, states[m].rows)
  {
    if m > 0 {
      AcceptedAt(lib, states, steps, m - 1);
      RunStaysConsistent(lib, states, steps, m - 1);
      StepKeepsChecks(lib, states[m - 1], steps[m - 1]);
    }
  }

  /** A database that loads, and that the next session refuses after one revocation. */
  lemma {:induction false} EmptyTypeIsLost(lib: Library, date: string, now: string)
    requires lib.isTime(date) && !lib.isTime("") && lib.isUtcTime(now) && NoComma(now)
    ensures var rows := [Row("", date, "", "01", "unknown", "/CN=x")];
      && RowsOk(lib, rows) && Load(rows, true).Some? && Consistent(Load(rows, true).value)
      && var db := Load(rows, true).value;
         var r := Revoke(lib, now, db, Cert(1, "/CN=x", date), RevNone, "");
         r.ok && r.db.rows == [Row("R", "", now, "01", "unknown", "/CN=x")] && !RowsOk(lib, r.db.rows)
  {
    var rows := [Row("", date, "", "01", "unknown", "/CN=x")];
    var db := EmptyTypeLoads(lib, date);
    var c := Cert(1, "/CN=x", date);
    SerialOne();
    assert CertRow(c).serial == rows[0].serial && db.rows == rows;
    assert KeyOf(CertRow(c)) == KeyOf(db.rows[0]);
    assert Assemble(now, Parts(None, None)) == now;
    var r := Revoke(lib, now, db, c, RevNone, "");
    assert r.db.rows[0].expDate == "";
  }

  lemma {:induction false} SerialOne()
    ensures SerialText(1) == "01"
  {
    assert HexBytes(0) == "";
    assert HexBytes(1) == "" + ['0', '1'];
  }

  lemma {:induction false} EmptyTypeLoads(lib: Library, date: string) returns (db: Db)
    requires lib.isTime(date)
    ensures var rows := [Row("", date, "", "01", "unknown", "/CN=x")];
      RowsOk(lib, rows) && Load(rows, true) == Some(db) && Consistent(db)
  {
    var rows := [Row("", date, "", "01", "unknown", "/CN=x")];
    assert AllHex("01") && |"01"| == 2;
    LoadCorrect(rows, true);
    db := Load(rows, true).value;
  }

  /** Every database that the commands save passes the checks of the next session: all rows are
      accepted and both indexes can be built. */
  lemma {:induction false} SavedIsLoadable(lib: Library, states: seq<Db>, steps: seq<Step>, m: nat)
    requires IsRun(lib, states, steps) && StepsOk(lib, steps) && Inv(lib, states[0]) && m < |states|
    ensures RowsOk(lib, states[m].rows)
    ensures Load(states[m].rows, states[m].nameIndex.Some?).Some?
    ensures Inv(lib, Load(states[m].rows, states[m].nameIndex.Some?).value)
  {
    RunKeepsInv(lib, states, steps, m);
    ConsistentIsUnique(states[m]);
    LoadCorrect(states[m].rows, states[m].nameIndex.Some?);
  }

  /** A row once revoked is the same row, with the same revocation field, ever after. */
  lemma {:induction false} RevokedForGood(lib: Library, states: seq<Db>, steps: seq<Step>, k: nat, m: nat, i: nat)
    requires IsRun(lib, states, steps) && Consistent(states[0])
    requires k <= m < |states| && i < |states[k].rows| && IsRevokedRow(states[k].rows[i])
    ensures i < |states[m].rows| && states[m].rows[i] == states[k].rows[i]
    ensures KeyOf(states[k].rows[i]) in states[m].serialIndex
         && states[m].serialIndex[KeyOf(states[k].rows[i])] == i
  {
    RunIsSafe(lib, states, steps, k, m);
    assert RowAges(states[k].rows[i], states[m].rows[i]);
  }

  /** A name that a revoked row still holds in the index cannot be issued again in the session
      that revoked it, but can once the database has been loaded anew. */
  lemma {:induction false} ReissueNeedsReload(db: Db, c: Cert, i: nat)
    requires Consistent(db) && db.nameIndex.Some? && i < |db.rows| && !IsValidRow(db.rows[i])
    requires CertRow(c).name in db.nameIndex.value && db.nameIndex.value[CertRow(c).name] == i
    requires KeyOf(CertRow(c)) !in db.serialIndex
    ensures !Issue(db, c).ok
    ensures Load(db.rows, true).Some? && Issue(Load(db.rows, true).value, c).ok
  {
    ConsistentIsUnique(db);
    LoadCorrect(db.rows, true);
    var d, name := Load(db.rows, true).value, CertRow(c).name;
    IndexNamesCorrect(db.rows, |db.rows|);
    assert db.rows[..|db.rows|] == db.rows;
    forall n | n in d.nameIndex.value ensures n != name {
      var j := d.nameIndex.value[n];
      assert IsValidRow(db.rows[j]) && db.nameIndex.value[db.rows[j].name] == j;
    }
    forall k | k in d.serialIndex ensures k != KeyOf(CertRow(c)) {
      assert KeyOf(db.rows[d.serialIndex[k]]) in db.serialIndex;
    }
  }

  // ---- numbers ----

  predicate NonNegative(s: Step) {
    (s.IssueStep? ==> s.cert.serial >= 0) && (s.RevokeStep? ==> s.cert.serial >= 0)
  }

  /** Certificates with numbers that are not negative keep every serial in upper case. */
  lemma {:induction false} StepKeepsUpper(lib: Library, db: Db, s: Step)
    requires Consistent(db) && UpperSerials(db.rows) && NonNegative(s)
    ensures UpperSerials(Apply(lib, db, s).rows)
  {
    match s
    case IssueStep(c) => SerialTextValue(c.serial);
    case RevokeStep(c, t, arg, now) => RevokeKeepsUpper(lib, now, db, c, t, arg);
    case ExpireStep(past) =>
      forall i | 0 <= i < |db.rows| ensures ExpireRow(past, db.rows[i]).serial == db.rows[i].serial {}
    case ReloadStep(unique) => LoadCorrect(db.rows, unique);
  }

  lemma {:induction false} RevokeKeepsUpper(lib: Library, now: string, db: Db, c: Cert, t: RevType, arg: string)
    requires Consistent(db) && UpperSerials(db.rows) && c.serial >= 0
    ensures UpperSerials(Revoke(lib, now, db, c, t, arg).db.rows)
  {
    if KeyOf(CertRow(c)) !in db.serialIndex && Insert(db, CertRow(c)).Some? {
      SerialTextValue(c.serial);
      InsertConsistent(db, CertRow(c));
      assert UpperSerials(Insert(db, CertRow(c)).value.rows);
    }
  }

  lemma {:induction false} RunKeepsUpper(lib: Library, states: seq<Db>, steps: seq<Step>, m: nat)
    requires IsRun(lib, states, steps) && Consistent(states[0]) && UpperSerials(states[0].rows) && m < |states|
    requires forall i :: 0 <= i < |steps| ==> NonNegative(steps[i])
    ensures UpperSerials(states[m].rows)
  {
    if m > 0 {
      RunKeepsUpper(lib, states, steps, m - 1);
      RunStaysConsistent(lib, states, steps, m - 1);
      StepKeepsUpper(lib, states[m - 1], steps[m - 1]);
    }
  }

  // ---- reading the database: the CRL ----

  function HexSpan(s: string): (k: nat)
    ensures k <= |s| && AllHex(s[..k])
    ensures k < |s| ==> !IsXDigit(s[k])
  {
    if s == "" || !IsXDigit(s[0]) then 0
    else
      var k := HexSpan(s[1..]);
      assert forall i :: 0 < i < k + 1 ==> s[i] == s[1..][..k][i - 1];
      k + 1
  }

  /** BN_hex2bn: an optional minus and as many hexadecimal digits as there are, at least one. */
  function HexToNumber(s: string): Option<int> {
    var minus := s != "" && s[0] == '-';
    var digits := if minus then s[1..] else s;
    var k := HexSpan(digits);
    var v: int := HexNumber(digits[..k]);
    if k == 0 then None else Some(if minus then -v else v)
  }

  lemma {:induction false} CheckedSerialHasNumber(s: string)
    requires SerialOk(s)
    ensures HexToNumber(s).Some?
    ensures UpperHex(s) ==> HexToNumber(s) == Some(HexNumber(s))
  {
    var digits := if s[0] == '-' then s[1..] else s;
    assert HexSpan(digits) == |digits|;
    assert digits[..|digits|] == digits;
    if UpperHex(s) { assert IsUpperHexDigit(s[0]); }
  }

  datatype CrlEntry = CrlEntry(serial: int, info: RevInfo)

  function CrlOf(lib: Library, rows: seq<Row>): Option<seq<CrlEntry>> {
    if rows == [] then Some([])
    else
      var front, r := CrlOf(lib, rows[..|rows| - 1]), rows[|rows| - 1];
      if front.None? || !IsRevokedRow(r) then front
      else
        var u, n := Unpack(lib, r.revDate), HexToNumber(r.serial);
        if u.None? || n.None? then None else Some(front.value + [CrlEntry(n.value, u.value)])
  }

  /** The loop of gencrl. */
  method GenCrl(lib: Library, rows: seq<Row>) returns (crl: Option<seq<CrlEntry>>)
    ensures crl == CrlOf(lib, rows)
  {
    var list: seq<CrlEntry> := [];
    for i := 0 to |rows|
      invariant CrlOf(lib, rows[..i]) == Some(list)
    {
      assert rows[..i + 1][..i] == rows[..i];
      if IsRevokedRow(rows[i]) {
        var u := UnpackRevinfo(lib, rows[i].revDate);
        var n := HexToNumber(rows[i].serial);
        if u.None? || n.None? {
          CrlFails(lib, rows, i + 1);
          return None;
        }
        list := list + [CrlEntry(n.value, u.value)];
      }
    }
    assert rows[..|rows|] == rows;
    return Some(list);
  }

  lemma {:induction false} CrlFails(lib: Library, rows: seq<Row>, n: nat)
    requires n <= |rows| && CrlOf(lib, rows[..n]).None?
    ensures CrlOf(lib, rows).None?
    decreases |rows| - n
  {
    if n < |rows| {
      assert rows[..n + 1][..n] == rows[..n];
      CrlFails(lib, rows, n + 1);
    } else {
      assert rows[..n] == rows;
    }
  }

  function RevokedRows(rows: seq<Row>): (r: seq<Row>)
    ensures forall x :: x in r <==> x in rows && IsRevokedRow(x)
  {
    if rows == [] then []
    else
      var front, last := RevokedRows(rows[..|rows| - 1]), rows[|rows| - 1];
      assert rows == rows[..|rows| - 1] + [last];
      if IsRevokedRow(last) then front + [last] else front
  }

  /** On checked rows the CRL can always be made; it lists the revoked rows, all of them and no
      others, in their order, each with what its revocation field says. */
  lemma {:induction false} CrlListsRevoked(lib: Library, rows: seq<Row>)
    requires RowsOk(lib, rows)
    ensures CrlOf(lib, rows).Some? && |CrlOf(lib, rows).value| == |RevokedRows(rows)|
    ensures forall i :: 0 <= i < |RevokedRows(rows)| ==>
      && HexToNumber(RevokedRows(rows)[i].serial) == Some(CrlOf(lib, rows).value[i].serial)
      && Unpack(lib, RevokedRows(rows)[i].revDate) == Some(CrlOf(lib, rows).value[i].info)
  {
    if rows != [] {
      CrlListsRevoked(lib, rows[..|rows| - 1]);
      assert RowOk(lib, rows[|rows| - 1]);
      CheckedSerialHasNumber(rows[|rows| - 1].serial);
    }
  }
}
