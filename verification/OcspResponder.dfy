/** The OCSP responder's answers from the CA database. */
module OcspResponder {
  import opened CText
  import opened SeqFacts
  import opened Serial
  import opened Revocation
  import opened CaDatabase
  import opened CaRuns
  import opened CaLaws

  /** One certificate id of a request; an unknown digest algorithm has no name. */
  datatype Query = Query(digest: Option<string>, issuer: string, serial: int)

  /** The CA certificates served, and the issuer id of one of them under a digest. */
  datatype Authority = Authority(certs: seq<string>, idOf: (string, string) -> string)

  datatype Status = Good | Unknown | Revoked(info: RevInfo)

  datatype Answer = Answer(query: Query, status: Status)

  datatype Response = MalformedRequest | InternalError | Successful(answers: seq<Answer>)

  predicate KnownIssuer(a: Authority, q: Query)
    requires q.digest.Some?
  {
    exists i :: 0 <= i < |a.certs| && a.idOf(q.digest.value, a.certs[i]) == q.issuer
  }

  function QueryKey(q: Query): string { StripZeros(SerialText(q.serial)) }

  /** What the responder says about a revoked row.  When the field cannot be read in full, the
      time alone is reported; without a readable time the status cannot be added at all. */
  function RevokedStatus(lib: Library, r: Row): Option<Status> {
    var u := Unpack(lib, r.revDate);
    if u.Some? then Some(Revoked(u.value))
    else
      var t := CutAtCommas(r.revDate).time;
      if lib.isUtcTime(t) then Some(Revoked(RevInfo(t, -1, None, None))) else None
  }

  /** The status of one query; none for an expired, suspended or otherwise marked row. */
  function StatusOf(lib: Library, a: Authority, db: Db, q: Query): Option<Status>
    requires q.digest.Some? && SerialsIndexed(db.rows, db.serialIndex)
  {
    if !KnownIssuer(a, q) || QueryKey(q) !in db.serialIndex then Some(Unknown)
    else
      var row := db.rows[db.serialIndex[QueryKey(q)]];
      if IsValidRow(row) then Some(Good)
      else if IsRevokedRow(row) then RevokedStatus(lib, row)
      else None
  }

  predicate DigestsKnown(qs: seq<Query>) { forall i :: 0 <= i < |qs| ==> qs[i].digest.Some? }

  /** The answers, in request order, leaving out queries without a status. */
  function Answers(lib: Library, a: Authority, db: Db, qs: seq<Query>): seq<Answer>
    requires DigestsKnown(qs) && SerialsIndexed(db.rows, db.serialIndex)
  {
    if qs == [] then []
    else
      var front, q := Answers(lib, a, db, qs[..|qs| - 1]), qs[|qs| - 1];
      var s := StatusOf(lib, a, db, q);
      if s.Some? then front + [Answer(q, s.value)] else front
  }

  function Respond(lib: Library, a: Authority, db: Db, qs: seq<Query>): Response
    requires SerialsIndexed(db.rows, db.serialIndex)
  {
    if qs == [] then MalformedRequest
    else if !DigestsKnown(qs) then InternalError
    else Successful(Answers(lib, a, db, qs))
  }

  // ---- the loop of make_ocsp_response ----

  method FindIssuer(a: Authority, q: Query) returns (found: bool)
    requires q.digest.Some?
    ensures found <==> KnownIssuer(a, q)
  {
    found := false;
    var jj := 0;
    while jj < |a.certs| && !found
      invariant 0 <= jj <= |a.certs|
      invariant found <==> exists i :: 0 <= i < jj && a.idOf(q.digest.value, a.certs[i]) == q.issuer
    {
      if a.idOf(q.digest.value, a.certs[jj]) == q.issuer {
        found := true;
      }
      jj := jj + 1;
    }
  }

  /** lookup_serial: the row under the number's key, none exactly when no row has that key. */
  method LookupSerial(db: CaDb, serial: int) returns (row: Option<Row>)
    requires db.Valid()
    ensures row.Some? ==> row.value in db.rows && KeyOf(row.value) == StripZeros(SerialText(serial))
    ensures row.None? <==> forall i :: 0 <= i < |db.rows| ==> KeyOf(db.rows[i]) != StripZeros(SerialText(serial))
    ensures serial >= 0 && row.Some? ==> UpperHex(row.value.serial) && HexNumber(row.value.serial) == serial
  {
    var key := StripZeros(SerialText(serial));
    if key in db.serialIndex {
      row := Some(db.rows[db.serialIndex[key]]);
      if serial >= 0 { NumberFindsUpperCaseOnly(serial, row.value.serial); }
    } else {
      row := None;
    }
  }

  /** The status that one query gets, if any. */
  method AnswerOne(lib: Library, a: Authority, db: CaDb, q: Query) returns (st: Option<Status>)
    requires db.Valid() && q.digest.Some?
    ensures st == StatusOf(lib, a, db.View(), q)
  {
    var found := FindIssuer(a, q);
    if !found {
      return Some(Unknown);
    }
    var inf := LookupSerial(db, q.serial);
    if inf.None? {
      return Some(Unknown);
    }
    OneRowPerKey(db.View(), inf.value, QueryKey(q));
    if IsValidRow(inf.value) {
      return Some(Good);
    }
    if IsRevokedRow(inf.value) {
      return RevokedStatus(lib, inf.value);
    }
    return None;
  }

  /** The answers are those of the queries at increasing positions, all that have a status, each with
      the status of its query. */
  ghost predicate AnswersAt(lib: Library, a: Authority, db: Db, qs: seq<Query>, answers: seq<Answer>, m: seq<nat>)
    requires DigestsKnown(qs) && SerialsIndexed(db.rows, db.serialIndex)
  {
    && Increasing(m, |qs|) && |m| == |answers|
    && (forall k :: 0 <= k < |m| ==>
          answers[k].query == qs[m[k]] && StatusOf(lib, a, db, qs[m[k]]) == Some(answers[k].status))
    && (forall i :: 0 <= i < |qs| && StatusOf(lib, a, db, qs[i]).Some? ==> i in m)
  }

  lemma {:induction false} AnswersPlaced(lib: Library, a: Authority, db: Db, qs: seq<Query>) returns (m: seq<nat>)
    requires DigestsKnown(qs) && SerialsIndexed(db.rows, db.serialIndex)
    ensures AnswersAt(lib, a, db, qs, Answers(lib, a, db, qs), m)
  {
    if qs == [] {
      m := [];
    } else {
      var n := |qs| - 1;
      m := AnswersPlaced(lib, a, db, qs[..n]);
      FrontLast(qs);
      AnswersAtSnoc(lib, a, db, qs[..n], Answers(lib, a, db, qs[..n]), m, qs[n]);
      if StatusOf(lib, a, db, qs[n]).Some? { m := m + [n]; }
    }
  }

  lemma {:induction false} AnswersAtSnoc(lib: Library, a: Authority, db: Db, qs: seq<Query>, answers: seq<Answer>, m: seq<nat>, q: Query)
    requires DigestsKnown(qs) && q.digest.Some? && SerialsIndexed(db.rows, db.serialIndex) && AnswersAt(lib, a, db, qs, answers, m)
    ensures DigestsKnown(qs + [q])
    ensures var s := StatusOf(lib, a, db, q);
      if s.Some? then AnswersAt(lib, a, db, qs + [q], answers + [Answer(q, s.value)], m + [|qs|])
      else AnswersAt(lib, a, db, qs + [q], answers, m)
  {
    IncreasingSnoc(m, |qs|);
    var m' := m + [|qs|];
    assert forall i :: i in m ==> i in m';
    assert m'[|m|] == |qs| && |qs| in m';
  }

  /** What a response says: malformed exactly for no query, an internal error exactly for an unknown digest
      among the queries, and otherwise the answers to all queries that have a status, in order. */
  lemma {:induction false} RespondMeans(lib: Library, a: Authority, db: Db, qs: seq<Query>) returns (m: seq<nat>)
    requires SerialsIndexed(db.rows, db.serialIndex)
    ensures var resp := Respond(lib, a, db, qs);
      && (resp.MalformedRequest? <==> qs == [])
      && (resp.InternalError? <==> exists i :: 0 <= i < |qs| && qs[i].digest.None?)
      && (resp.Successful? ==> DigestsKnown(qs) && AnswersAt(lib, a, db, qs, resp.answers, m))
  {
    m := [];
    if qs != [] && DigestsKnown(qs) { m := AnswersPlaced(lib, a, db, qs); }
  }

  lemma {:induction false} AnswersStep(lib: Library, a: Authority, db: Db, qs: seq<Query>, i: nat)
    requires i < |qs| && DigestsKnown(qs[..i]) && qs[i].digest.Some? && SerialsIndexed(db.rows, db.serialIndex)
    ensures DigestsKnown(qs[..i + 1])
    ensures Answers(lib, a, db, qs[..i + 1]) == Answers(lib, a, db, qs[..i])
      + if StatusOf(lib, a, db, qs[i]).Some? then [Answer(qs[i], StatusOf(lib, a, db, qs[i]).value)] else []
  {
    assert qs[..i + 1][..i] == qs[..i];
    Whole(Answers(lib, a, db, qs[..i]));
  }

  method MakeOcspResponse(lib: Library, a: Authority, db: CaDb, qs: seq<Query>) returns (resp: Response)
    requires db.Valid()
    ensures resp == Respond(lib, a, db.View(), qs)
    ensures resp.MalformedRequest? <==> qs == []
    ensures resp.InternalError? <==> exists i :: 0 <= i < |qs| && qs[i].digest.None?
    ensures resp.Successful? ==> DigestsKnown(qs) && exists m :: AnswersAt(lib, a, db.View(), qs, resp.answers, m)
  {
    ghost var _ := RespondMeans(lib, a, db.View(), qs);
    if |qs| == 0 {
      return MalformedRequest;
    }
    var bs: seq<Answer> := [];
    for i := 0 to |qs|
      invariant DigestsKnown(qs[..i])
      invariant bs == Answers(lib, a, db.View(), qs[..i])
    {
      var q := qs[i];
      if q.digest.None? {
        return InternalError;
      }
      AnswersStep(lib, a, db.View(), qs, i);
      var st := AnswerOne(lib, a, db, q);
      if st.Some? {
        bs := bs + [Answer(q, st.value)];
      }
    }
    assert qs[..|qs|] == qs;
    return Successful(bs);
  }

  lemma {:induction false} OneRowPerKey(db: Db, row: Row, key: string)
    requires SerialsIndexed(db.rows, db.serialIndex) && row in db.rows && KeyOf(row) == key
    ensures key in db.serialIndex && db.rows[db.serialIndex[key]] == row
  {
    var i :| 0 <= i < |db.rows| && db.rows[i] == row;
    assert db.serialIndex[KeyOf(db.rows[i])] == i;
  }

  // ---- what the answers mean ----

  /** The queries that get an answer, in order. */
  function Answered(lib: Library, a: Authority, db: Db, qs: seq<Query>): seq<Query>
    requires DigestsKnown(qs) && SerialsIndexed(db.rows, db.serialIndex)
  {
    if qs == [] then []
    else
      var front, q := Answered(lib, a, db, qs[..|qs| - 1]), qs[|qs| - 1];
      if StatusOf(lib, a, db, q).Some? then front + [q] else front
  }

  /** Answers keep the order of the request and each carries the status of its own query. */
  lemma {:induction false} AnswersInOrder(lib: Library, a: Authority, db: Db, qs: seq<Query>)
    requires DigestsKnown(qs) && SerialsIndexed(db.rows, db.serialIndex)
    ensures |Answers(lib, a, db, qs)| == |Answered(lib, a, db, qs)|
    ensures forall i :: 0 <= i < |Answers(lib, a, db, qs)| ==>
      var x := Answers(lib, a, db, qs)[i];
      x.query == Answered(lib, a, db, qs)[i] && x.query in qs && Some(x.status) == StatusOf(lib, a, db, x.query)
  {
    if qs != [] {
      AnswersInOrder(lib, a, db, qs[..|qs| - 1]);
      assert qs == qs[..|qs| - 1] + [qs[|qs| - 1]];
    }
  }

  /** The row of the database that a query is about. */
  predicate About(q: Query, r: Row) { KeyOf(r) == QueryKey(q) }

  /** The time of a revocation field can be read. */
  predicate TimeReadable(lib: Library, r: Row) { lib.isUtcTime(CutAtCommas(r.revDate).time) }

  /** What is said of a revoked row: all of its field if that can be read, otherwise the time alone. */
  function Told(lib: Library, r: Row): RevInfo {
    if Unpack(lib, r.revDate).Some? then Unpack(lib, r.revDate).value
    else RevInfo(CutAtCommas(r.revDate).time, -1, None, None)
  }

  /** Section 2.2 of RFC 6960 on any indexed database; the responder does not check the rows.  Good
      exactly for a valid row of a known issuer, unknown exactly for a foreign issuer or an absent
      serial, revoked exactly for a revoked row whose time can be read, with the time and reason of the
      row, and no answer exactly for any other row. */
  lemma {:induction false} StatusMeaning(lib: Library, a: Authority, db: Db, q: Query)
    requires Consistent(db) && q.digest.Some?
    ensures var s, known := StatusOf(lib, a, db, q), KnownIssuer(a, q);
      && (s == Some(Good) <==> known && exists i :: 0 <= i < |db.rows| && About(q, db.rows[i]) && IsValidRow(db.rows[i]))
      && (s == Some(Unknown) <==> !known || forall i :: 0 <= i < |db.rows| ==> !About(q, db.rows[i]))
      && (s.Some? && s.value.Revoked? <==>
            known && exists i :: 0 <= i < |db.rows| && About(q, db.rows[i]) && IsRevokedRow(db.rows[i]) && TimeReadable(lib, db.rows[i]))
      && (s.Some? && s.value.Revoked? ==>
            forall i :: 0 <= i < |db.rows| && About(q, db.rows[i]) ==> s.value.info == Told(lib, db.rows[i]))
      && (s.None? <==> known && exists i :: 0 <= i < |db.rows| && About(q, db.rows[i]) && !IsValidRow(db.rows[i])
                                            && (IsRevokedRow(db.rows[i]) ==> !TimeReadable(lib, db.rows[i])))
  {
    if QueryKey(q) in db.serialIndex {
      var k := db.serialIndex[QueryKey(q)];
      assert About(q, db.rows[k]);
      assert forall i :: 0 <= i < |db.rows| && About(q, db.rows[i]) ==> i == k;
    } else {
      assert forall i :: 0 <= i < |db.rows| ==> !About(q, db.rows[i]);
    }
  }

  /** On a database that passed the load checks every revoked row is answered, with all of its field. */
  lemma {:induction false} CheckedIsTold(lib: Library, r: Row)
    requires RevOk(lib, r) && IsRevokedRow(r)
    ensures TimeReadable(lib, r) && Unpack(lib, r.revDate) == Some(Told(lib, r))
  {
  }

  /** A revoked row whose time cannot be read gets no answer at all, although the responder loads it. */
  lemma {:induction false} UnreadableIsSilent(lib: Library, a: Authority, q: Query, r: Row, unique: bool)
    requires q.digest.Some? && KnownIssuer(a, q) && About(q, r) && IsRevokedRow(r) && !TimeReadable(lib, r)
    ensures Load([r], unique).Some? && Consistent(Load([r], unique).value)
    ensures StatusOf(lib, a, Load([r], unique).value, q) == None
  {
    LoadCorrect([r], unique);
    var db := Load([r], unique).value;
    assert db.rows[0] == r;
    StatusMeaning(lib, a, db, q);
  }

  /** Asked by number, good means a valid row that spells the number in upper case. */
  lemma {:induction false} GoodByNumber(lib: Library, a: Authority, db: Db, q: Query)
    requires Consistent(db) && q.digest.Some? && q.serial >= 0
    ensures StatusOf(lib, a, db, q) == Some(Good) <==>
      KnownIssuer(a, q) && exists i :: 0 <= i < |db.rows| && SpellsNumber(db.rows[i], q.serial) && IsValidRow(db.rows[i])
  {
    forall i | 0 <= i < |db.rows| ensures KeyOf(db.rows[i]) == QueryKey(q) <==> SpellsNumber(db.rows[i], q.serial) {
      NumberFindsUpperCaseOnly(q.serial, db.rows[i].serial);
    }
    assert forall i :: 0 <= i < |db.rows| ==> db.serialIndex[KeyOf(db.rows[i])] == i;
  }

  predicate SpellsNumber(r: Row, n: int) { UpperHex(r.serial) && HexNumber(r.serial) == n }

  /** A number that the database holds in lower case only is unknown to the responder. */
  lemma {:induction false} LowerCaseIsUnknown(lib: Library, a: Authority, db: Db, q: Query)
    requires Consistent(db) && q.digest.Some? && q.serial >= 0
    requires forall i :: 0 <= i < |db.rows| ==> !SpellsNumber(db.rows[i], q.serial)
    ensures StatusOf(lib, a, db, q) == Some(Unknown)
  {
    if QueryKey(q) in db.serialIndex {
      var i := db.serialIndex[QueryKey(q)];
      NumberFindsUpperCaseOnly(q.serial, db.rows[i].serial);
    }
  }

  /** When such a row is revoked, the CRL still lists the number. */
  lemma {:induction false} LowerCaseReadersDisagree(lib: Library, a: Authority, db: Db, q: Query, i: nat)
    requires Checked(lib, db) && q.digest.Some? && q.serial >= 0
    requires i < |db.rows| && IsRevokedRow(db.rows[i]) && HexToNumber(db.rows[i].serial) == Some(q.serial)
    requires forall j :: 0 <= j < |db.rows| ==> !SpellsNumber(db.rows[j], q.serial)
    ensures StatusOf(lib, a, db, q) == Some(Unknown)
    ensures Unpack(lib, db.rows[i].revDate).Some? && CrlOf(lib, db.rows).Some?
    ensures CrlEntry(q.serial, Unpack(lib, db.rows[i].revDate).value) in CrlOf(lib, db.rows).value
  {
    LowerCaseIsUnknown(lib, a, db, q);
    RevokedRowIsListed(lib, db, i);
  }

  /** On upper-case serials the CRL and the responder say the same of every number and of every
      time and reason. */
  lemma {:induction false} CrlAndResponderAgree(lib: Library, a: Authority, db: Db, q: Query, info: RevInfo)
    requires Checked(lib, db) && UpperSerials(db.rows)
    requires q.digest.Some? && q.serial >= 0 && KnownIssuer(a, q)
    ensures CrlOf(lib, db.rows).Some?
    ensures StatusOf(lib, a, db, q) == Some(Revoked(info)) <==> CrlEntry(q.serial, info) in CrlOf(lib, db.rows).value
  {
    CrlListsRevoked(lib, db.rows);
    if StatusOf(lib, a, db, q) == Some(Revoked(info)) { AnsweredIsListed(lib, a, db, q, info); }
    if CrlEntry(q.serial, info) in CrlOf(lib, db.rows).value { ListedIsAnswered(lib, a, db, q, info); }
  }

  lemma {:induction false} AnsweredIsListed(lib: Library, a: Authority, db: Db, q: Query, info: RevInfo)
    requires Checked(lib, db) && UpperSerials(db.rows)
    requires q.digest.Some? && q.serial >= 0 && StatusOf(lib, a, db, q) == Some(Revoked(info))
    ensures CrlOf(lib, db.rows).Some? && CrlEntry(q.serial, info) in CrlOf(lib, db.rows).value
  {
    var i := db.serialIndex[QueryKey(q)];
    RevokedRowIsListed(lib, db, i);
    NumberFindsUpperCaseOnly(q.serial, db.rows[i].serial);
    assert RowOk(lib, db.rows[i]);
    CheckedSerialHasNumber(db.rows[i].serial);
  }

  lemma {:induction false} ListedIsAnswered(lib: Library, a: Authority, db: Db, q: Query, info: RevInfo)
    requires Checked(lib, db) && UpperSerials(db.rows)
    requires q.digest.Some? && q.serial >= 0 && KnownIssuer(a, q)
    requires CrlOf(lib, db.rows).Some? && CrlEntry(q.serial, info) in CrlOf(lib, db.rows).value
    ensures StatusOf(lib, a, db, q) == Some(Revoked(info))
  {
    CrlListsRevoked(lib, db.rows);
    var crl := CrlOf(lib, db.rows).value;
    var k :| 0 <= k < |crl| && crl[k] == CrlEntry(q.serial, info);
    ListedRowIsRevoked(lib, a, db, q, RevokedRows(db.rows)[k]);
  }

  lemma {:induction false} RevokedRowIsListed(lib: Library, db: Db, i: nat)
    requires Checked(lib, db) && i < |db.rows| && IsRevokedRow(db.rows[i])
    ensures Unpack(lib, db.rows[i].revDate).Some? && HexToNumber(db.rows[i].serial).Some? && CrlOf(lib, db.rows).Some?
    ensures CrlEntry(HexToNumber(db.rows[i].serial).value, Unpack(lib, db.rows[i].revDate).value) in CrlOf(lib, db.rows).value
  {
    CrlListsRevoked(lib, db.rows);
    var row, rs := db.rows[i], RevokedRows(db.rows);
    assert RowOk(lib, row) && row in rs;
    var k :| 0 <= k < |rs| && rs[k] == row;
    CheckedSerialHasNumber(row.serial);
    assert CrlOf(lib, db.rows).value[k] == CrlEntry(HexToNumber(row.serial).value, Unpack(lib, row.revDate).value);
  }

  lemma {:induction false} ListedRowIsRevoked(lib: Library, a: Authority, db: Db, q: Query, row: Row)
    requires Checked(lib, db) && UpperSerials(db.rows) && row in RevokedRows(db.rows)
    requires q.digest.Some? && q.serial >= 0 && KnownIssuer(a, q) && HexToNumber(row.serial) == Some(q.serial)
    ensures Unpack(lib, row.revDate).Some?
    ensures StatusOf(lib, a, db, q) == Some(Revoked(Unpack(lib, row.revDate).value))
  {
    var i :| 0 <= i < |db.rows| && db.rows[i] == row;
    assert RowOk(lib, row) && UpperHex(row.serial);
    CheckedSerialHasNumber(row.serial);
    NumberFindsUpperCaseOnly(q.serial, row.serial);
    OneRowPerKey(db, row, QueryKey(q));
  }

  /** So they agree on every database that a run from upper-case serials reaches. */
  lemma {:induction false} ReadersAgreeInRuns(lib: Library, a: Authority, states: seq<Db>, steps: seq<Step>, m: nat, q: Query, info: RevInfo)
    requires IsRun(lib, states, steps) && StepsOk(lib, steps) && Inv(lib, states[0]) && UpperSerials(states[0].rows)
    requires m < |states| && forall i :: 0 <= i < |steps| ==> NonNegative(steps[i])
    requires q.digest.Some? && q.serial >= 0 && KnownIssuer(a, q)
    ensures Consistent(states[m]) && CrlOf(lib, states[m].rows).Some?
    ensures StatusOf(lib, a, states[m], q) == Some(Revoked(info))
            <==> CrlEntry(q.serial, info) in CrlOf(lib, states[m].rows).value
  {
    RunKeepsInv(lib, states, steps, m);
    RunKeepsUpper(lib, states, steps, m);
    CrlAndResponderAgree(lib, a, states[m], q, info);
  }

  /** After a successful revocation the responder answers with the time, reason and argument asked for. */
  lemma {:induction false} RevokedIsAnswered(lib: Library, a: Authority, now: string, db: Db, c: Cert, revType: RevType, arg: string, q: Query)
    requires Consistent(db) && revType != RevValid && Revoke(lib, now, db, c, revType, arg).ok
    requires lib.isUtcTime(now) && NoComma(now) && q.digest.Some? && KnownIssuer(a, q) && q.serial == c.serial
    ensures Consistent(Revoke(lib, now, db, c, revType, arg).db)
    ensures StatusOf(lib, a, Revoke(lib, now, db, c, revType, arg).db, q) == Some(Revoked(Meaning(now, revType, arg)))
  {
    var d := Revoke(lib, now, db, c, revType, arg).db;
    RevokeConsistent(lib, now, db, c, revType, arg);
    RevokeRevokes(lib, now, db, c, revType, arg);
    var i: nat :| Present(d, c, i) && d.rows[i].kind == "R" && Unpack(lib, d.rows[i].revDate) == Some(Meaning(now, revType, arg));
    OneRowPerKey(d, d.rows[i], QueryKey(q));
  }

  /** A certificate just issued is answered as good, and stays so until a command changes its row. */
  lemma {:induction false} IssuedIsGood(lib: Library, a: Authority, db: Db, c: Cert, q: Query)
    requires Consistent(db) && Issue(db, c).ok && q.digest.Some? && KnownIssuer(a, q) && q.serial == c.serial
    ensures Consistent(Issue(db, c).db) && StatusOf(lib, a, Issue(db, c).db, q) == Some(Good)
  {
    IssueConsistent(db, c);
    IssueMeans(db, c);
  }

  /** A serial once revoked is answered as revoked, with the same time and reason, from every later
      snapshot of the database, whatever commands ran in between. */
  lemma {:induction false} RevokedNeverGood(lib: Library, a: Authority, states: seq<Db>, steps: seq<Step>, k: nat, m: nat, q: Query)
    requires IsRun(lib, states, steps) && Consistent(states[0]) && k <= m < |states|
    requires q.digest.Some? && SerialsIndexed(states[k].rows, states[k].serialIndex)
    requires var s := StatusOf(lib, a, states[k], q); s.Some? && s.value.Revoked?
    ensures SerialsIndexed(states[m].rows, states[m].serialIndex)
    ensures StatusOf(lib, a, states[m], q) == StatusOf(lib, a, states[k], q)
  {
    RunIsSafe(lib, states, steps, k, m);
    var i := states[k].serialIndex[QueryKey(q)];
    RevokedForGood(lib, states, steps, k, m, i);
  }
}
