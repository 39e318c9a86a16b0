/** The CA's certificate database: rows, the serial index, the name index over rows that were
    valid when they were indexed, and the operations that change it. */
module CaDatabase {
  import opened CText
  import opened SeqFacts
  import opened Serial
  import opened Revocation

  datatype Row = Row(kind: string, expDate: string, revDate: string, serial: string, file: string, name: string)

  /** First character of the type column. */
  function TypeOf(r: Row): char { if r.kind == "" then '\0' else r.kind[0] }

  predicate IsValidRow(r: Row) { TypeOf(r) == 'V' }
  predicate IsRevokedRow(r: Row) { TypeOf(r) == 'R' }

  function KeyOf(r: Row): string { StripZeros(r.serial) }

  /** Indexes point at row numbers; without unique_subject there is no name index. */
  datatype Db = Db(rows: seq<Row>, serialIndex: map<string, nat>, nameIndex: Option<map<string, nat>>)

  // ---- consistency ----

  ghost predicate SerialsIndexed(rows: seq<Row>, idx: map<string, nat>) {
    && (forall i :: 0 <= i < |rows| ==> KeyOf(rows[i]) in idx && idx[KeyOf(rows[i])] == i)
    && (forall k :: k in idx ==> idx[k] < |rows| && KeyOf(rows[idx[k]]) == k)
  }

  /** Stale entries are allowed: a row that stopped being valid stays in the index. */
  ghost predicate NamesIndexed(rows: seq<Row>, idx: map<string, nat>) {
    && (forall i :: 0 <= i < |rows| && IsValidRow(rows[i]) ==> rows[i].name in idx && idx[rows[i].name] == i)
    && (forall n :: n in idx ==> idx[n] < |rows| && rows[idx[n]].name == n)
  }

  ghost predicate Consistent(db: Db) {
    && SerialsIndexed(db.rows, db.serialIndex)
    && (db.nameIndex.Some? ==> NamesIndexed(db.rows, db.nameIndex.value))
  }

  predicate UniqueSerials(rows: seq<Row>) {
    forall i, j :: 0 <= i < j < |rows| ==> KeyOf(rows[i]) != KeyOf(rows[j])
  }

  predicate UniqueValidNames(rows: seq<Row>) {
    forall i, j :: 0 <= i < j < |rows| && IsValidRow(rows[i]) && IsValidRow(rows[j]) ==> rows[i].name != rows[j].name
  }

  // ---- loading: index_index ----

  function IndexSerials(rows: seq<Row>, n: nat): Option<map<string, nat>>
    requires n <= |rows|
  {
    if n == 0 then Some(map[])
    else
      var m := IndexSerials(rows, n - 1);
      if m.None? || KeyOf(rows[n - 1]) in m.value then None else Some(m.value[KeyOf(rows[n - 1]) := n - 1])
  }

  function IndexNames(rows: seq<Row>, n: nat): Option<map<string, nat>>
    requires n <= |rows|
  {
    if n == 0 then Some(map[])
    else
      var m := IndexNames(rows, n - 1);
      if m.None? || !IsValidRow(rows[n - 1]) then m
      else if rows[n - 1].name in m.value then None
      else Some(m.value[rows[n - 1].name := n - 1])
  }

  function Load(rows: seq<Row>, unique: bool): Option<Db> {
    var s := IndexSerials(rows, |rows|);
    if s.None? then None
    else if !unique then Some(Db(rows, s.value, None))
    else
      var m := IndexNames(rows, |rows|);
      if m.None? then None else Some(Db(rows, s.value, Some(m.value)))
  }

  lemma {:induction false} IndexSerialsCorrect(rows: seq<Row>, n: nat)
    requires n <= |rows|
    ensures IndexSerials(rows, n).Some? <==> UniqueSerials(rows[..n])
    ensures IndexSerials(rows, n).Some? ==> SerialsIndexed(rows[..n], IndexSerials(rows, n).value)
  {
    if n > 0 {
      IndexSerialsCorrect(rows, n - 1);
      var front, all := rows[..n - 1], rows[..n];
      assert all == front + [rows[n - 1]];
      var m := IndexSerials(rows, n - 1);
      assert UniqueSerials(all) ==> UniqueSerials(front);
      if m.Some? {
        var k := KeyOf(rows[n - 1]);
        if k in m.value {
          assert KeyOf(all[m.value[k]]) == KeyOf(all[n - 1]);
        } else {
          forall i, j | 0 <= i < j < n ensures KeyOf(all[i]) != KeyOf(all[j]) {
            if j == n - 1 { assert KeyOf(front[i]) in m.value; }
          }
        }
      }
    }
  }

  lemma {:induction false} UniqueNamesSnoc(rows: seq<Row>, row: Row, idx: map<string, nat>)
    requires NamesIndexed(rows, idx) && forall k :: k in idx ==> IsValidRow(rows[idx[k]])
    ensures UniqueValidNames(rows + [row]) <==> UniqueValidNames(rows) && (IsValidRow(row) ==> row.name !in idx)
  {
    var all := rows + [row];
    assert forall i :: 0 <= i < |rows| ==> all[i] == rows[i];
    assert all[|rows|] == row;
    if IsValidRow(row) && row.name in idx {
      assert all[idx[row.name]].name == row.name;
    } else if UniqueValidNames(rows) {
      forall i, j | 0 <= i < j < |all| && IsValidRow(all[i]) && IsValidRow(all[j]) ensures all[i].name != all[j].name {
        if j == |rows| { assert rows[i].name in idx; }
      }
    }
  }

  lemma {:induction false} NamesIndexedSnoc(rows: seq<Row>, row: Row, idx: map<string, nat>)
    requires NamesIndexed(rows, idx) && row.name !in idx
    ensures NamesIndexed(rows + [row], idx[row.name := |rows|])
  {
  }

  lemma {:induction false} NamesIndexedSkip(rows: seq<Row>, row: Row, idx: map<string, nat>)
    requires NamesIndexed(rows, idx) && !IsValidRow(row)
    ensures NamesIndexed(rows + [row], idx)
  {
  }

  lemma {:induction false} IndexNamesCorrect(rows: seq<Row>, n: nat)
    requires n <= |rows|
    ensures IndexNames(rows, n).Some? <==> UniqueValidNames(rows[..n])
    ensures IndexNames(rows, n).Some? ==> NamesIndexed(rows[..n], IndexNames(rows, n).value)
    ensures IndexNames(rows, n).Some? ==>
      forall k :: k in IndexNames(rows, n).value ==> IsValidRow(rows[IndexNames(rows, n).value[k]])
  {
    if n > 0 {
      IndexNamesCorrect(rows, n - 1);
      var front, all := rows[..n - 1], rows[..n];
      TakeOneMore(rows, n - 1);
      var m := IndexNames(rows, n - 1);
      if m.Some? {
        UniqueNamesSnoc(front, rows[n - 1], m.value);
        if IsValidRow(rows[n - 1]) && rows[n - 1].name !in m.value {
          NamesIndexedSnoc(front, rows[n - 1], m.value);
        } else if !IsValidRow(rows[n - 1]) {
          NamesIndexedSkip(front, rows[n - 1], m.value);
        }
      } else {
        assert UniqueValidNames(all) ==> UniqueValidNames(front);
      }
    }
  }

  /** index_index succeeds exactly on databases with unique serials and, when asked for, unique
      names of valid rows; what it builds is consistent. */
  lemma {:induction false} LoadCorrect(rows: seq<Row>, unique: bool)
    ensures Load(rows, unique).Some? <==> UniqueSerials(rows) && (unique ==> UniqueValidNames(rows))
    ensures Load(rows, unique).Some? ==>
      var db := Load(rows, unique).value; Consistent(db) && db.rows == rows && (db.nameIndex.Some? <==> unique)
  {
    IndexSerialsCorrect(rows, |rows|);
    IndexNamesCorrect(rows, |rows|);
    assert rows[..|rows|] == rows;
  }

  lemma {:induction false} ConsistentIsUnique(db: Db)
    requires Consistent(db)
    ensures UniqueSerials(db.rows) && (db.nameIndex.Some? ==> UniqueValidNames(db.rows))
  {
  }

  // ---- the operations ----

  /** TXT_DB_insert: a clash on either index refuses the row. */
  function Insert(db: Db, row: Row): Option<Db> {
    if KeyOf(row) in db.serialIndex then None
    else if db.nameIndex.Some? && IsValidRow(row) && row.name in db.nameIndex.value then None
    else
      Some(Db(db.rows + [row],
              db.serialIndex[KeyOf(row) := |db.rows|],
              if db.nameIndex.Some? && IsValidRow(row) then Some(db.nameIndex.value[row.name := |db.rows|])
              else db.nameIndex))
  }

  datatype Cert = Cert(serial: int, subject: string, notAfter: string)

  /** The row do_body and do_revoke make for a certificate; an empty subject is replaced by the
      serial number. */
  function CertRow(c: Cert): Row {
    Row("V", c.notAfter, "", SerialText(c.serial), "unknown", if c.subject == "" then SerialText(c.serial) else c.subject)
  }

  datatype Result = Result(db: Db, ok: bool)

  /** The database part of do_body. */
  function Issue(db: Db, c: Cert): Result {
    var row := CertRow(c);
    if db.nameIndex.Some? && row.name in db.nameIndex.value then Result(db, false)
    else if KeyOf(row) in db.serialIndex then Result(db, false)
    else
      var d := Insert(db, row);
      if d.None? then Result(db, false) else Result(d.value, true)
  }

  /** The two byte writes type[0] = c and type[1] = '\0'.  The columns of a row lie one behind the
      other, so under an empty type the second write falls on the first byte of the expiry date. */
  function Retype(r: Row, c: char): Row {
    r.(kind := [c], expDate := if r.kind == "" then "" else r.expDate)
  }

  /** The first two columns as TXT_DB_read lays them out, before and after the writes. */
  lemma {:induction false} RetypeIsTwoByteWrites(r: Row, c: char)
    requires NoNul(r.kind) && NoNul(r.expDate) && c != '\0'
    ensures var block := r.kind + "\0" + r.expDate + "\0";
      var after := block[0 := c][1 := '\0'];
      && CString(block) == r.kind && CString(block[|r.kind| + 1..]) == r.expDate
      && CString(after) == Retype(r, c).kind && CString(after[|r.kind| + 1..]) == Retype(r, c).expDate
  {
    var block, k := r.kind + "\0" + r.expDate + "\0", |r.kind|;
    var after := block[0 := c][1 := '\0'];
    CStringAt(block, 0, r.kind);
    CStringAt(block, k + 1, r.expDate);
    CStringAt(after, 0, [c]);
    CStringAt(after, k + 1, Retype(r, c).expDate);
    assert block[0..] == block && after[0..] == after;
  }

  lemma {:induction false} CStringAt(block: string, at: nat, s: string)
    requires at + |s| < |block| && NoNul(s)
    requires (forall i :: 0 <= i < |s| ==> block[at + i] == s[i]) && block[at + |s|] == '\0'
    ensures CString(block[at..]) == s
  {
    CStringIs(block[at..], s);
  }

  /** What revoking writes into a row. */
  function RevokedRow(r: Row, str: string): Row { Retype(r, 'R').(revDate := str) }

  function RevokePresent(lib: Library, now: string, db: Db, c: Cert, revType: RevType, arg: string): Result
    requires KeyOf(CertRow(c)) in db.serialIndex && db.serialIndex[KeyOf(CertRow(c))] < |db.rows|
  {
    var i := db.serialIndex[KeyOf(CertRow(c))];
    var row := db.rows[i];
    if CertRow(c).name != row.name || revType == RevValid || IsRevokedRow(row) then Result(db, false)
    else
      var str := MakeRevocation(lib, now, revType, arg);
      if str.None? then Result(db, false)
      else Result(db.(rows := db.rows[i := RevokedRow(row, str.value)]), true)
  }

  /** do_revoke, which adds a certificate it does not know and then tries again. */
  function Revoke(lib: Library, now: string, db: Db, c: Cert, revType: RevType, arg: string): Result
    requires SerialsIndexed(db.rows, db.serialIndex)
  {
    if KeyOf(CertRow(c)) in db.serialIndex then RevokePresent(lib, now, db, c, revType, arg)
    else
      var d := Insert(db, CertRow(c));
      if d.None? then Result(db, false)
      else if revType == RevValid then Result(d.value, true)
      else RevokePresent(lib, now, d.value, c, revType, arg)
  }

  function ExpireRow(past: set<string>, r: Row): Row {
    if IsValidRow(r) && r.expDate in past then Retype(r, 'E') else r
  }

  /** do_updatedb stops at the first valid row whose expiry date it cannot read. */
  function Readable(lib: Library, rows: seq<Row>): (n: nat)
    ensures n <= |rows|
    ensures forall i :: 0 <= i < n && IsValidRow(rows[i]) ==> lib.isTime(rows[i].expDate)
    ensures n < |rows| ==> IsValidRow(rows[n]) && !lib.isTime(rows[n].expDate)
  {
    if rows == [] || (IsValidRow(rows[0]) && !lib.isTime(rows[0].expDate)) then 0
    else 1 + Readable(lib, rows[1..])
  }

  function ExpireRows(past: set<string>, rows: seq<Row>, n: nat): (r: seq<Row>)
    requires n <= |rows|
    ensures |r| == |rows|
    ensures forall i :: 0 <= i < |rows| ==> r[i] == if i < n then ExpireRow(past, rows[i]) else rows[i]
  {
    if n == 0 then rows
    else ExpireRows(past, rows, n - 1)[n - 1 := ExpireRow(past, rows[n - 1])]
  }

  function Expire(lib: Library, past: set<string>, db: Db): Result {
    var n := Readable(lib, db.rows);
    Result(db.(rows := ExpireRows(past, db.rows, n)), n == |db.rows|)
  }

  // ---- each operation keeps the indexes consistent ----

  lemma {:induction false} InsertConsistent(db: Db, row: Row)
    requires Consistent(db) && Insert(db, row).Some?
    ensures Consistent(Insert(db, row).value)
  {
    var d := Insert(db, row).value;
    assert forall i :: 0 <= i < |db.rows| ==> d.rows[i] == db.rows[i];
    assert d.rows[|db.rows|] == row;
  }

  lemma {:induction false} IssueConsistent(db: Db, c: Cert)
    requires Consistent(db)
    ensures Consistent(Issue(db, c).db)
    ensures Issue(db, c).ok ==> Insert(db, CertRow(c)) == Some(Issue(db, c).db)
    ensures Issue(db, c).ok <==>
      KeyOf(CertRow(c)) !in db.serialIndex && (db.nameIndex.Some? ==> CertRow(c).name !in db.nameIndex.value)
  {
    if Insert(db, CertRow(c)).Some? { InsertConsistent(db, CertRow(c)); }
  }

  /** Rows may change everything but serial and name, as long as none becomes valid. */
  predicate Retyped(rows: seq<Row>, rows': seq<Row>) {
    |rows| == |rows'| && forall j :: 0 <= j < |rows| ==>
      rows'[j].serial == rows[j].serial && rows'[j].name == rows[j].name && (IsValidRow(rows'[j]) ==> IsValidRow(rows[j]))
  }

  lemma {:induction false} RetypedSerials(rows: seq<Row>, rows': seq<Row>, idx: map<string, nat>)
    requires Retyped(rows, rows') && SerialsIndexed(rows, idx)
    ensures SerialsIndexed(rows', idx)
  {
    forall j | 0 <= j < |rows| ensures KeyOf(rows'[j]) == KeyOf(rows[j]) {}
  }

  lemma {:induction false} RetypedNames(rows: seq<Row>, rows': seq<Row>, idx: map<string, nat>)
    requires Retyped(rows, rows') && NamesIndexed(rows, idx)
    ensures NamesIndexed(rows', idx)
  {
  }

  lemma {:induction false} RetypeConsistent(db: Db, rows: seq<Row>)
    requires Consistent(db) && Retyped(db.rows, rows)
    ensures Consistent(db.(rows := rows))
  {
    RetypedSerials(db.rows, rows, db.serialIndex);
    if db.nameIndex.Some? { RetypedNames(db.rows, rows, db.nameIndex.value); }
  }

  lemma {:induction false} RevokePresentConsistent(lib: Library, now: string, db: Db, c: Cert, revType: RevType, arg: string)
    requires Consistent(db) && KeyOf(CertRow(c)) in db.serialIndex
    ensures Consistent(RevokePresent(lib, now, db, c, revType, arg).db)
  {
    var i := db.serialIndex[KeyOf(CertRow(c))];
    var str := MakeRevocation(lib, now, revType, arg);
    if str.Some? { RetypeConsistent(db, db.rows[i := RevokedRow(db.rows[i], str.value)]); }
  }

  lemma {:induction false} RevokeConsistent(lib: Library, now: string, db: Db, c: Cert, revType: RevType, arg: string)
    requires Consistent(db)
    ensures Consistent(Revoke(lib, now, db, c, revType, arg).db)
  {
    var row := CertRow(c);
    if KeyOf(row) in db.serialIndex {
      RevokePresentConsistent(lib, now, db, c, revType, arg);
    } else if Insert(db, row).Some? {
      InsertConsistent(db, row);
      if revType != RevValid {
        RevokePresentConsistent(lib, now, Insert(db, row).value, c, revType, arg);
      }
    }
  }

  lemma {:induction false} ExpireConsistent(lib: Library, past: set<string>, db: Db)
    requires Consistent(db)
    ensures Consistent(Expire(lib, past, db).db)
  {
    RetypeConsistent(db, Expire(lib, past, db).db.rows);
  }

  lemma {:induction false} ExpireIs(lib: Library, past: set<string>, db: Db, rows: seq<Row>, ok: bool)
    requires Consistent(db) && rows == ExpireRows(past, db.rows, Readable(lib, db.rows))
    requires ok <==> Readable(lib, db.rows) == |db.rows|
    ensures var d := Db(rows, db.serialIndex, db.nameIndex); Consistent(d) && Result(d, ok) == Expire(lib, past, db)
  {
    ExpireConsistent(lib, past, db);
  }

  // ---- the database as the commands hold it ----

  /** The valid rows among the first n whose date is past. */
  function Due(past: set<string>, rows: seq<Row>, n: nat): set<nat>
    requires n <= |rows|
  {
    set i: nat | i < n && TypeOf(rows[i]) == 'V' && rows[i].expDate in past
  }

  lemma {:induction false} DueSnoc(past: set<string>, rows: seq<Row>, n: nat)
    requires n < |rows|
    ensures Due(past, rows, n + 1) == Due(past, rows, n) + if TypeOf(rows[n]) == 'V' && rows[n].expDate in past then {n} else {}
    ensures n !in Due(past, rows, n)
  {
  }

  /** The first n rows are marked, the others as they were. */
  ghost predicate Marked(past: set<string>, was: seq<Row>, rows: seq<Row>, n: nat) {
    |rows| == |was| && forall j :: 0 <= j < |was| ==> rows[j] == if j < n then ExpireRow(past, was[j]) else was[j]
  }

  lemma {:induction false} MarkedIs(past: set<string>, was: seq<Row>, rows: seq<Row>, n: nat)
    requires n <= |was| && Marked(past, was, rows, n)
    ensures rows == ExpireRows(past, was, n)
  {
  }

  /** A valid row whose date is past gets the type 'E'. */
  method MarkOne(past: set<string>, was: seq<Row>, rows: seq<Row>, i: nat) returns (rows': seq<Row>, hit: bool)
    requires i < |was| && Marked(past, was, rows, i)
    ensures Marked(past, was, rows', i + 1)
    ensures hit <==> TypeOf(was[i]) == 'V' && was[i].expDate in past
  {
    rows', hit := rows, false;
    if IsValidRow(rows[i]) && rows[i].expDate in past {
      rows', hit := rows[i := Retype(rows[i], 'E')], true;
    }
  }

  /** The loop of do_updatedb, and the row it stopped at. */
  method MarkLoop(lib: Library, past: set<string>, was: seq<Row>) returns (rows: seq<Row>, cnt: int, n: nat)
    ensures n == Readable(lib, was) && Marked(past, was, rows, n)
    ensures cnt == if n == |was| then |Due(past, was, n)| else -1
  {
    rows, cnt, n := was, 0, 0;
    while n < |was|
      invariant n <= Readable(lib, was) && Marked(past, was, rows, n) && cnt == |Due(past, was, n)|
    {
      if IsValidRow(rows[n]) && !lib.isTime(rows[n].expDate) {
        return rows, -1, n;
      }
      DueSnoc(past, was, n);
      var hit;
      rows, hit := MarkOne(past, was, rows, n);
      if hit {
        cnt := cnt + 1;
      }
      n := n + 1;
    }
  }

  /** What it makes of the rows, and its count. */
  method MarkExpired(lib: Library, past: set<string>, was: seq<Row>) returns (rows: seq<Row>, cnt: int)
    ensures rows == ExpireRows(past, was, Readable(lib, was))
    ensures cnt >= 0 <==> Readable(lib, was) == |was|
    ensures cnt >= 0 ==> cnt == |Due(past, was, |was|)|
    ensures cnt == 0 ==> rows == was
    ensures cnt > 0 ==> rows != was
  {
    var n;
    rows, cnt, n := MarkLoop(lib, past, was);
    MarkedIs(past, was, rows, n);
    if n == |was| { DueChanges(past, was, rows); }
  }

  lemma {:induction false} DueChanges(past: set<string>, was: seq<Row>, rows: seq<Row>)
    requires |rows| == |was| && forall j :: 0 <= j < |was| ==> rows[j] == ExpireRow(past, was[j])
    ensures |Due(past, was, |was|)| == 0 <==> rows == was
  {
    if j :| 0 <= j < |was| && TypeOf(was[j]) == 'V' && was[j].expDate in past {
      assert j in Due(past, was, |was|) && TypeOf(rows[j]) != TypeOf(was[j]);
    } else {
      assert rows == was;
    }
  }

  /** The same, told of the database. */
  method MarkRows(lib: Library, past: set<string>, rows: seq<Row>, ghost db: Db) returns (marked: seq<Row>, cnt: int)
    requires Consistent(db) && db.rows == rows
    ensures var d := Db(marked, db.serialIndex, db.nameIndex); Consistent(d) && Result(d, cnt >= 0) == Expire(lib, past, db)
    ensures cnt >= 0 ==> cnt == |Due(past, rows, |rows|)|
    ensures (cnt == 0 ==> marked == rows) && (cnt > 0 ==> marked != rows)
  {
    marked, cnt := MarkExpired(lib, past, rows);
    ExpireIs(lib, past, db, marked, cnt >= 0);
  }

  /** TXT_DB_create_index on the serial column. */
  method CreateSerialIndex(rows: seq<Row>) returns (r: Option<map<string, nat>>)
    ensures r == IndexSerials(rows, |rows|)
  {
    var idx: map<string, nat> := map[];
    for i := 0 to |rows|
      invariant IndexSerials(rows, i) == Some(idx)
    {
      if KeyOf(rows[i]) in idx {
        SerialsFail(rows, i + 1);
        return None;
      }
      idx := idx[KeyOf(rows[i]) := i];
    }
    return Some(idx);
  }

  /** TXT_DB_create_index on the name column, over rows that qualify. */
  method CreateNameIndex(rows: seq<Row>) returns (r: Option<map<string, nat>>)
    ensures r == IndexNames(rows, |rows|)
  {
    var idx: map<string, nat> := map[];
    for i := 0 to |rows|
      invariant IndexNames(rows, i) == Some(idx)
    {
      if IsValidRow(rows[i]) {
        if rows[i].name in idx {
          NamesFail(rows, i + 1);
          return None;
        }
        idx := idx[rows[i].name := i];
      }
    }
    return Some(idx);
  }

  class CaDb {
    var rows: seq<Row>
    var serialIndex: map<string, nat>
    var nameIndex: Option<map<string, nat>>

    ghost function View(): Db
      reads this
    {
      Db(rows, serialIndex, nameIndex)
    }

    ghost predicate Valid()
      reads this
    {
      Consistent(View())
    }

    constructor (rows: seq<Row>)
      ensures View() == Db(rows, map[], None)
    {
      this.rows := rows;
      serialIndex := map[];
      nameIndex := None;
    }

    /** TXT_DB_create_index twice: every serial, then the names of valid rows. */
    method IndexIndex(unique: bool) returns (ok: bool)
      modifies this
      ensures rows == old(rows)
      ensures ok <==> Load(rows, unique).Some?
      ensures ok ==> Valid() && View() == Load(rows, unique).value
    {
      LoadCorrect(rows, unique);
      var serials := CreateSerialIndex(rows);
      if serials.None? {
        return false;
      }
      serialIndex, nameIndex := serials.value, None;
      if unique {
        nameIndex := CreateNameIndex(rows);
        return nameIndex.Some?;
      }
      return true;
    }

    method TxtDbInsert(row: Row) returns (ok: bool)
      requires Valid()
      modifies this
      ensures Valid()
      ensures ok <==> Insert(old(View()), row).Some?
      ensures View() == if ok then Insert(old(View()), row).value else old(View())
    {
      if KeyOf(row) in serialIndex {
        return false;
      }
      if nameIndex.Some? && IsValidRow(row) && row.name in nameIndex.value {
        return false;
      }
      InsertConsistent(View(), row);
      serialIndex := serialIndex[KeyOf(row) := |rows|];
      if nameIndex.Some? && IsValidRow(row) {
        nameIndex := Some(nameIndex.value[row.name := |rows|]);
      }
      rows := rows + [row];
      return true;
    }

    /** do_body from the clash check to the insertion. */
    method DoBody(c: Cert) returns (ok: bool)
      requires Valid()
      modifies this
      ensures Valid()
      ensures Result(View(), ok) == Issue(old(View()), c)
    {
      var row := CertRow(c);
      if nameIndex.Some? && row.name in nameIndex.value {
        return false;
      }
      if KeyOf(row) in serialIndex {
        return false;
      }
      ok := TxtDbInsert(row);
    }

    method DoRevoke(lib: Library, now: string, c: Cert, revType: RevType, arg: string) returns (ok: bool)
      requires Valid() && NoNul(now) && NoNul(arg)
      modifies this
      ensures Valid()
      ensures Result(View(), ok) == Revoke(lib, now, old(View()), c, revType, arg)
      decreases KeyOf(CertRow(c)) !in serialIndex
    {
      RevokeConsistent(lib, now, View(), c, revType, arg);
      var row := CertRow(c);
      if KeyOf(row) !in serialIndex {
        ok := TxtDbInsert(row);
        if ok && revType != RevValid {
          // revoke what was just inserted
          ok := DoRevoke(lib, now, c, revType, arg);
        }
        return;
      }
      var i := serialIndex[KeyOf(row)];
      if row.name != rows[i].name || revType == RevValid || IsRevokedRow(rows[i]) {
        return false;
      }
      var str, _ := MakeRevocationStr(lib, now, revType, arg);
      if str.None? {
        return false;
      }
      rows := rows[i := RevokedRow(rows[i], str.value)];
      return true;
    }

    /** do_updatedb; past holds the dates not after the present time.  A count of zero means that
        nothing changed, so the caller need not save. */
    method DoUpdatedb(lib: Library, past: set<string>) returns (cnt: int)
      requires Valid()
      modifies this
      ensures Valid()
      ensures Result(View(), cnt >= 0) == Expire(lib, past, old(View()))
      ensures cnt >= 0 ==> cnt == |Due(past, old(rows), |old(rows)|)|
      ensures cnt == 0 ==> rows == old(rows)
      ensures cnt > 0 ==> rows != old(rows)
    {
      var marked;
      marked, cnt := MarkRows(lib, past, rows, View());
      rows := marked;
    }

    /** get_certificate_status: the row found for what the user typed, and success exactly when its
        type is one of the four known ones. */
    method GetCertificateStatus(serial: string) returns (row: Option<Row>, ok: int)
      requires Valid()
      ensures row.Some? <==> exists i :: 0 <= i < |rows| && KeyOf(rows[i]) == StripZeros(StatusKey(serial))
      ensures row.Some? ==> row.value in rows && KeyOf(row.value) == StripZeros(StatusKey(serial))
      ensures ok == if row.Some? && TypeOf(row.value) in {'V', 'R', 'E', 'S'} then 1 else -1
    {
      var key := BuildStatusKey(serial);
      if StripZeros(key) !in serialIndex {
        return None, -1;
      }
      row, ok := Some(rows[serialIndex[StripZeros(key)]]), 1;
      var c := TypeOf(row.value);
      if c != 'V' && c != 'R' && c != 'E' && c != 'S' {
        ok := -1;
      }
    }
  }

  lemma {:induction false} SerialsFail(rows: seq<Row>, n: nat)
    requires n <= |rows| && IndexSerials(rows, n).None?
    ensures IndexSerials(rows, |rows|).None?
    decreases |rows| - n
  {
    if n < |rows| { SerialsFail(rows, n + 1); }
  }

  lemma {:induction false} NamesFail(rows: seq<Row>, n: nat)
    requires n <= |rows| && IndexNames(rows, n).None?
    ensures IndexNames(rows, |rows|).None?
    decreases |rows| - n
  {
    if n < |rows| { NamesFail(rows, n + 1); }
  }

  // ---- status by number ----

  predicate UpperSerials(rows: seq<Row>) { forall i :: 0 <= i < |rows| ==> UpperHex(rows[i].serial) }

  /** A lookup under an upper-case key finds the row that spells the number in upper case, and none
      exactly when there is no such row. */
  lemma {:induction false} LookupByNumber(db: Db, key: string)
    requires Consistent(db) && UpperHex(key)
    ensures StripZeros(key) in db.serialIndex <==>
      exists i :: 0 <= i < |db.rows| && UpperHex(db.rows[i].serial) && HexNumber(db.rows[i].serial) == HexNumber(key)
    ensures StripZeros(key) in db.serialIndex ==>
      var s := db.rows[db.serialIndex[StripZeros(key)]].serial; UpperHex(s) && HexNumber(s) == HexNumber(key)
  {
    forall i | 0 <= i < |db.rows|
      ensures KeyOf(db.rows[i]) == StripZeros(key)
              <==> UpperHex(db.rows[i].serial) && HexNumber(db.rows[i].serial) == HexNumber(key)
    {
      SameKeyExactly(key, db.rows[i].serial);
    }
    if StripZeros(key) in db.serialIndex {
      var i := db.serialIndex[StripZeros(key)];
      assert KeyOf(db.rows[i]) == StripZeros(key);
    }
  }

  /** So does one under any hexadecimal spelling that the user types. */
  lemma {:induction false} StatusBySpelling(db: Db, serial: string)
    requires Consistent(db) && AllHex(serial)
    ensures StripZeros(StatusKey(serial)) in db.serialIndex <==>
      exists i :: 0 <= i < |db.rows| && UpperHex(db.rows[i].serial) && HexNumber(db.rows[i].serial) == HexNumber(serial)
    ensures StripZeros(StatusKey(serial)) in db.serialIndex ==>
      var s := db.rows[db.serialIndex[StripZeros(StatusKey(serial))]].serial;
      UpperHex(s) && HexNumber(s) == HexNumber(serial)
  {
    StatusKeyValue(serial);
    LookupByNumber(db, StatusKey(serial));
  }

  /** A certificate whose number stands in the database in lower case only is not found: revoking
      adds a second row of the same number. */
  lemma {:induction false} LowerCaseRowIsDoubled(lib: Library, now: string, db: Db, c: Cert, i: nat)
    requires Consistent(db) && i < |db.rows| && c.serial >= 0
    requires AllHex(db.rows[i].serial) && HexNumber(db.rows[i].serial) == c.serial
    requires forall j :: 0 <= j < |db.rows| ==> !(UpperHex(db.rows[j].serial) && HexNumber(db.rows[j].serial) == c.serial)
    requires db.nameIndex.Some? ==> CertRow(c).name !in db.nameIndex.value
    ensures var r := Revoke(lib, now, db, c, RevValid, "");
      r.ok && r.db.rows == db.rows + [CertRow(c)] && HexNumber(CertRow(c).serial) == HexNumber(db.rows[i].serial)
  {
    SerialTextValue(c.serial);
    LookupByNumber(db, CertRow(c).serial);
  }

}
