/** What each command of the CA does, told without naming how it is computed. */
module CaLaws {
  import opened CText
  import opened SeqFacts
  import opened Serial
  import opened Revocation
  import opened CaDatabase
  import opened CaRuns

  // ---- revocation arguments ----

  /** The argument suits the kind of revocation. */
  predicate ArgumentOk(lib: Library, revType: RevType, arg: string) {
    match revType
    case RevValid => true
    case RevNone => true
    case RevCrlReason => RfcNumber(arg) != -1
    case RevHold => lib.isObjectId(arg)
    case RevKeyCompromise => lib.isGeneralizedTime(arg)
    case RevCaCompromise => lib.isGeneralizedTime(arg)
  }

  /** make_revocation_str succeeds exactly on a reason of RFC 5280 in any case, an object or a time. */
  lemma {:induction false} MakeSucceeds(lib: Library, now: string, revType: RevType, arg: string)
    ensures MakeRevocation(lib, now, revType, arg).Some? <==> ArgumentOk(lib, revType, arg)
  {
    if revType == RevCrlReason { KnownReason(arg); }
  }

  lemma {:induction false} KnownReason(arg: string)
    ensures FindReason(arg, 8) < 8 <==> RfcNumber(arg) != -1
  {
    var k, r := FindReason(arg, 8), CrlReasons();
    if k < 8 {
      RfcNumberOf(arg);
    } else {
      OtherCapital(arg);
      assert r[2] == "CACompromise";
      assert r[0] == "unspecified" && r[1] == "keyCompromise" && r[3] == "affiliationChanged" && r[4] == "superseded";
      assert r[5] == "cessationOfOperation" && r[6] == "certificateHold" && r[7] == "removeFromCRL";
      assert forall i :: 0 <= i < 8 ==> !SameIgnoringCase(arg, r[i]);
    }
  }

  lemma {:induction false} OtherCapital(arg: string)
    ensures SameIgnoringCase(arg, "cACompromise") <==> SameIgnoringCase(arg, "CACompromise")
  {
    assert SameIgnoringCase("cACompromise", "CACompromise");
  }

  /** The texts, spelled out; a reason is written in its own spelling. */
  lemma {:induction false} MadeText(lib: Library, now: string, arg: string)
    ensures MakeRevocation(lib, now, RevNone, arg) == Some(now)
    ensures lib.isObjectId(arg) ==> MakeRevocation(lib, now, RevHold, arg) == Some(now + ",holdInstruction," + arg)
    ensures lib.isGeneralizedTime(arg) ==>
      && MakeRevocation(lib, now, RevKeyCompromise, arg) == Some(now + ",keyTime," + arg)
      && MakeRevocation(lib, now, RevCaCompromise, arg) == Some(now + ",CAkeyTime," + arg)
  {
    assert now + "" + "" == now;
    ThreeParts(now, "holdInstruction", arg);
    ThreeParts(now, "keyTime", arg);
    ThreeParts(now, "CAkeyTime", arg);
    assert "," + "holdInstruction" + "," == ",holdInstruction,";
    assert "," + "keyTime" + "," == ",keyTime,";
    assert "," + "CAkeyTime" + "," == ",CAkeyTime,";
  }

  lemma {:induction false} ThreeParts(now: string, reason: string, arg: string)
    ensures Assemble(now, Parts(Some(reason), Some(arg))) == now + ("," + reason + ",") + arg
  {
  }

  // ---- issuing and adding ----

  /** The row for a certificate, column by column. */
  lemma {:induction false} NewRow(c: Cert)
    ensures var r := CertRow(c);
      && r.kind == "V" && r.expDate == c.notAfter && r.revDate == "" && r.file == "unknown"
      && HexToNumber(r.serial) == Some(c.serial)
      && (c.subject != "" ==> r.name == c.subject) && (c.subject == "" ==> r.name == r.serial)
  {
    SerialTextNumber(c.serial);
  }

  /** The serial column of any number, negative ones included, is read back to it. */
  lemma {:induction false} SerialTextNumber(n: int)
    ensures HexToNumber(SerialText(n)) == Some(n)
  {
    SerialTextOk(n);
    if n >= 0 {
      SerialTextValue(n);
      CheckedSerialHasNumber(SerialText(n));
    } else {
      var d, s := HexBytes(-n), SerialText(n);
      HexBytesValue(-n);
      assert s[0] == '-' && s[1..] == d;
      assert forall i :: 0 <= i < |d| ==> IsUpperHexDigit(d[i]);
      assert HexSpan(d) == |d| && d[..|d|] == d;
    }
  }

  /** The database has grown by the row of the certificate, found under its serial, and by nothing else. */
  ghost predicate Added(db: Db, d: Db, c: Cert) {
    && d.rows == db.rows + [CertRow(c)]
    && KeyOf(CertRow(c)) in d.serialIndex && d.serialIndex[KeyOf(CertRow(c))] == |db.rows|
    && (forall k :: k in db.serialIndex ==> k in d.serialIndex && d.serialIndex[k] == db.serialIndex[k])
  }

  /** Issuing succeeds exactly when serial and name are free; then the certificate has been added, and
      otherwise nothing has changed. */
  lemma {:induction false} IssueMeans(db: Db, c: Cert)
    requires Consistent(db)
    ensures var r := Issue(db, c);
      && (r.ok <==> (forall i :: 0 <= i < |db.rows| ==> KeyOf(db.rows[i]) != KeyOf(CertRow(c)))
                    && (db.nameIndex.Some? ==> CertRow(c).name !in db.nameIndex.value))
      && (if r.ok then Added(db, r.db, c) else r.db == db)
  {
    IssueConsistent(db, c);
    assert KeyOf(CertRow(c)) in db.serialIndex <==> exists i :: 0 <= i < |db.rows| && KeyOf(db.rows[i]) == KeyOf(CertRow(c)) by {
      if KeyOf(CertRow(c)) in db.serialIndex { assert KeyOf(db.rows[db.serialIndex[KeyOf(CertRow(c))]]) == KeyOf(CertRow(c)); }
    }
  }

  // ---- revoking ----

  /** The row at i is revoked and nothing else has changed. */
  ghost predicate RevokedAt(lib: Library, now: string, rows: seq<Row>, rows': seq<Row>, i: nat, revType: RevType, arg: string) {
    && i < |rows| == |rows'|
    && (forall j :: 0 <= j < |rows| && j != i ==> rows'[j] == rows[j])
    && rows'[i].kind == "R" && rows'[i].serial == rows[i].serial && rows'[i].name == rows[i].name && rows'[i].file == rows[i].file
    && (rows[i].kind != "" ==> rows'[i].expDate == rows[i].expDate)
    && (lib.isUtcTime(now) && NoComma(now) ==> Unpack(lib, rows'[i].revDate) == Some(Meaning(now, revType, arg)))
  }

  lemma {:induction false} RevokePresentMeans(lib: Library, now: string, db: Db, c: Cert, revType: RevType, arg: string)
    requires SerialsIndexed(db.rows, db.serialIndex) && KeyOf(CertRow(c)) in db.serialIndex
    ensures var r, i := RevokePresent(lib, now, db, c, revType, arg), db.serialIndex[KeyOf(CertRow(c))];
      && (r.ok <==> CertRow(c).name == db.rows[i].name && revType != RevValid && TypeOf(db.rows[i]) != 'R'
                    && ArgumentOk(lib, revType, arg))
      && r.db.serialIndex == db.serialIndex && r.db.nameIndex == db.nameIndex
      && (if r.ok then RevokedAt(lib, now, db.rows, r.db.rows, i, revType, arg) else r.db == db)
  {
    MakeSucceeds(lib, now, revType, arg);
    if RevokePresent(lib, now, db, c, revType, arg).ok && lib.isUtcTime(now) && NoComma(now) {
      UnpackInvertsMake(lib, now, revType, arg);
    }
  }

  /** A certificate that the database has. */
  ghost predicate Present(db: Db, c: Cert, i: nat) {
    i < |db.rows| && KeyOf(db.rows[i]) == KeyOf(CertRow(c))
  }

  /** do_revoke on a certificate that the database has: it succeeds exactly when the name is the same, the
      row is not revoked yet, a revocation is asked for and its argument suits; then that row is revoked,
      with the time, reason and argument asked for, and nothing else has changed. */
  lemma {:induction false} RevokeKnown(lib: Library, now: string, db: Db, c: Cert, revType: RevType, arg: string, i: nat)
    requires Consistent(db) && Present(db, c, i)
    ensures var r := Revoke(lib, now, db, c, revType, arg);
      && (r.ok <==> CertRow(c).name == db.rows[i].name && revType != RevValid && TypeOf(db.rows[i]) != 'R'
                    && ArgumentOk(lib, revType, arg))
      && (if r.ok then RevokedAt(lib, now, db.rows, r.db.rows, i, revType, arg) else r.db == db)
  {
    RevokePresentMeans(lib, now, db, c, revType, arg);
  }

  /** And on one that it does not have: it succeeds exactly when the name is free and the argument suits;
      the certificate is then added, and revoked unless it was only to be added. */
  lemma {:induction false} RevokeUnknown(lib: Library, now: string, db: Db, c: Cert, revType: RevType, arg: string)
    requires Consistent(db) && forall i :: 0 <= i < |db.rows| ==> !Present(db, c, i)
    ensures var r := Revoke(lib, now, db, c, revType, arg);
      && (r.ok <==> (db.nameIndex.Some? ==> CertRow(c).name !in db.nameIndex.value) && ArgumentOk(lib, revType, arg))
      && (r.ok && revType == RevValid ==> Added(db, r.db, c))
      && (r.ok && revType != RevValid ==>
            RevokedAt(lib, now, db.rows + [CertRow(c)], r.db.rows, |db.rows|, revType, arg))
  {
    var key := KeyOf(CertRow(c));
    if key in db.serialIndex { assert Present(db, c, db.serialIndex[key]); }
    assert TypeOf(CertRow(c)) == 'V';
    if Insert(db, CertRow(c)).Some? {
      InsertConsistent(db, CertRow(c));
      RevokePresentMeans(lib, now, Insert(db, CertRow(c)).value, c, revType, arg);
    }
  }

  /** In both cases the row under the certificate's serial is revoked after a success, as asked for. */
  lemma {:induction false} RevokeRevokes(lib: Library, now: string, db: Db, c: Cert, revType: RevType, arg: string)
    requires Consistent(db) && revType != RevValid && Revoke(lib, now, db, c, revType, arg).ok
    requires lib.isUtcTime(now) && NoComma(now)
    ensures var d := Revoke(lib, now, db, c, revType, arg).db;
      exists i: nat :: Present(d, c, i) && d.rows[i].kind == "R" && d.rows[i].name == CertRow(c).name
                  && Unpack(lib, d.rows[i].revDate) == Some(Meaning(now, revType, arg))
  {
    var d, key := Revoke(lib, now, db, c, revType, arg).db, KeyOf(CertRow(c));
    if key in db.serialIndex {
      RevokeKnown(lib, now, db, c, revType, arg, db.serialIndex[key]);
      assert Present(d, c, db.serialIndex[key]);
    } else {
      forall i | 0 <= i < |db.rows| ensures !Present(db, c, i) { assert KeyOf(db.rows[i]) in db.serialIndex; }
      RevokeUnknown(lib, now, db, c, revType, arg);
      assert Present(d, c, |db.rows|);
    }
  }

  // ---- expiring ----

  /** Where do_updatedb stops: at the first valid row with a date it cannot read. */
  predicate StopsAt(lib: Library, rows: seq<Row>, n: nat) {
    && n <= |rows|
    && (forall i :: 0 <= i < n && TypeOf(rows[i]) == 'V' ==> lib.isTime(rows[i].expDate))
    && (n < |rows| ==> TypeOf(rows[n]) == 'V' && !lib.isTime(rows[n].expDate))
  }

  /** Before that, exactly the valid rows with a past date are marked, and only their type changes; from
      there on nothing changes.  It succeeds exactly when there is no such row, and then no valid row has
      a past date. */
  lemma {:induction false} ExpireMeans(lib: Library, past: set<string>, db: Db, n: nat)
    requires StopsAt(lib, db.rows, n)
    ensures var r := Expire(lib, past, db);
      && (r.ok <==> n == |db.rows|) && |r.db.rows| == |db.rows|
      && r.db.serialIndex == db.serialIndex && r.db.nameIndex == db.nameIndex
      && (forall i :: 0 <= i < |db.rows| ==>
            r.db.rows[i] == if i < n && TypeOf(db.rows[i]) == 'V' && db.rows[i].expDate in past
                            then db.rows[i].(kind := "E") else db.rows[i])
      && (r.ok ==> forall i :: 0 <= i < |db.rows| && TypeOf(r.db.rows[i]) == 'V' ==> r.db.rows[i].expDate !in past)
  {
    assert Readable(lib, db.rows) == n;
  }

  /** There is always one such place. */
  lemma {:induction false} StopsSomewhere(lib: Library, rows: seq<Row>) returns (n: nat)
    ensures StopsAt(lib, rows, n)
  {
    n := Readable(lib, rows);
  }

  // ---- the CRL ----

  /** The entries are the revoked rows at increasing positions, all of them, each with its number and what
      its field says. */
  ghost predicate CrlAt(lib: Library, rows: seq<Row>, crl: seq<CrlEntry>, m: seq<nat>) {
    && Increasing(m, |rows|) && |m| == |crl|
    && (forall k :: 0 <= k < |m| ==> Lists(lib, crl[k], rows[m[k]]))
    && (forall i :: 0 <= i < |rows| && TypeOf(rows[i]) == 'R' ==> i in m)
  }

  predicate Lists(lib: Library, e: CrlEntry, r: Row) {
    TypeOf(r) == 'R' && HexToNumber(r.serial) == Some(e.serial) && Unpack(lib, r.revDate) == Some(e.info)
  }

  lemma {:induction false} CrlAtSnoc(lib: Library, rows: seq<Row>, crl: seq<CrlEntry>, m: seq<nat>, r: Row)
    requires CrlAt(lib, rows, crl, m)
    ensures TypeOf(r) != 'R' ==> CrlAt(lib, rows + [r], crl, m)
    ensures forall e :: Lists(lib, e, r) ==> CrlAt(lib, rows + [r], crl + [e], m + [|rows|])
  {
    IncreasingSnoc(m, |rows|);
    var m' := m + [|rows|];
    assert forall i :: i in m ==> i in m';
    assert m'[|m|] == |rows| && |rows| in m';
  }

  /** On checked rows the CRL can be made, and lists the revoked rows in order. */
  lemma {:induction false} CrlInOrder(lib: Library, rows: seq<Row>) returns (m: seq<nat>)
    requires RowsOk(lib, rows)
    ensures CrlOf(lib, rows).Some? && CrlAt(lib, rows, CrlOf(lib, rows).value, m)
  {
    if rows == [] {
      m := [];
    } else {
      var n := |rows| - 1;
      var front := rows[..n];
      m := CrlInOrder(lib, front);
      assert RowOk(lib, rows[n]);
      FrontLast(rows);
      CrlSnoc(lib, front, rows[n]);
      CrlAtSnoc(lib, front, CrlOf(lib, front).value, m, rows[n]);
      if TypeOf(rows[n]) == 'R' { m := m + [n]; }
    }
  }

  lemma {:induction false} CrlSnoc(lib: Library, rows: seq<Row>, r: Row)
    requires RowOk(lib, r) && CrlOf(lib, rows).Some?
    ensures CrlOf(lib, rows + [r]).Some?
    ensures var old', new' := CrlOf(lib, rows).value, CrlOf(lib, rows + [r]).value;
      if TypeOf(r) == 'R' then |new'| == |old'| + 1 && new' == old' + [new'[|old'|]] && Lists(lib, new'[|old'|], r) else new' == old'
  {
    Snoc(rows, r);
    CheckedSerialHasNumber(r.serial);
  }
}
