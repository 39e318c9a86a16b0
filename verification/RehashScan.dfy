/** What a listing enters into the table, and which errors the scan counts. */
module RehashScan {
  import opened CText
  import opened SeqFacts
  import opened RehashBucket
  import opened LinkName
  import opened RehashTable
  import opened RehashDirectory

  // ---- the calls of add_entry ----

  lemma {:induction false} OpsSnoc(dir: Dir, listing: seq<string>, name: string, mode: Mode)
    ensures Ops(dir, listing + [name], mode) == Ops(dir, listing, mode) + OpsOf(dir, name, mode)
  {
    Snoc(listing, name);
  }

  /** They come in the order of the listing. */
  lemma {:induction false} OpsAppend(dir: Dir, a: seq<string>, b: seq<string>, mode: Mode)
    ensures Ops(dir, a + b, mode) == Ops(dir, a, mode) + Ops(dir, b, mode)
  {
    if b == [] {
      Whole(a);
      Whole(Ops(dir, a, mode));
    } else {
      var n := |b| - 1;
      OpsAppend(dir, a, b[..n], mode);
      FrontLast(b);
      Assoc(a, b[..n], [b[n]]);
      OpsSnoc(dir, a + b[..n], b[n], mode);
      Assoc(Ops(dir, a, mode), Ops(dir, b[..n], mode), OpsOf(dir, b[n], mode));
    }
  }

  /** A name calls for an entry: a hash link under its own bucket and number for its target; a
      certificate or CRL under its new hash unless the mode is old, and under its old hash unless the
      mode is new. */
  ghost predicate Entered(dir: Dir, name: string, mode: Mode, op: Op) {
    name in dir &&
    if op.seen.LinkSeen? then
      dir[name].Link? && dir[name].target == op.seen.filename && Parse(name) == Some(Parsed(op.key, op.seen.id))
    else
      && HasCertExtension(name) && dir[name].item.Holding? && op.seen == FileSeen(name, dir[name].item.value.digest)
      && op.key.kind == dir[name].item.value.kind
      && (|| (op.key.hash == dir[name].item.value.hash && mode != HashOld)
          || (op.key.hash == dir[name].item.value.oldHash && mode != HashNew))
  }

  lemma {:induction false} OpsOfName(dir: Dir, name: string, mode: Mode, op: Op)
    ensures op in OpsOf(dir, name, mode) <==> Entered(dir, name, mode, op)
  {
    if name in dir && Parse(name).Some? {
      LinkNamesAreNotFiles(name);
    }
  }

  /** Nothing else is entered. */
  lemma {:induction false} OpIn(dir: Dir, listing: seq<string>, mode: Mode, op: Op)
    ensures op in Ops(dir, listing, mode) <==> exists name :: name in listing && Entered(dir, name, mode, op)
  {
    if listing != [] {
      var n := |listing| - 1;
      OpIn(dir, listing[..n], mode, op);
      OpsOfName(dir, listing[n], mode, op);
      FrontLast(listing);
    }
  }

  /** Where the calls about one bucket stand among all calls. */
  ghost predicate HistAt(ops: seq<Op>, key: Key, hist: seq<Seen>, m: seq<nat>) {
    && Increasing(m, |ops|) && |m| == |hist|
    && (forall k :: 0 <= k < |m| ==> ops[m[k]] == Op(key, hist[k]))
    && (forall i :: 0 <= i < |ops| && ops[i].key == key ==> i in m)
  }

  lemma {:induction false} HistAtSnoc(ops: seq<Op>, key: Key, hist: seq<Seen>, m: seq<nat>, op: Op)
    requires HistAt(ops, key, hist, m)
    ensures if op.key == key then HistAt(ops + [op], key, hist + [op.seen], m + [|ops|]) else HistAt(ops + [op], key, hist, m)
  {
    IncreasingSnoc(m, |ops|);
    var m' := m + [|ops|];
    assert forall i :: i in m ==> i in m';
    assert m'[|m|] == |ops| && |ops| in m';
  }

  lemma {:induction false} HistInOrder(ops: seq<Op>, key: Key) returns (m: seq<nat>)
    ensures HistAt(ops, key, HistOf(ops, key), m)
  {
    m := [];
    if ops != [] {
      var n := |ops| - 1;
      m := HistInOrder(ops[..n], key);
      FrontLast(ops);
      HistAtSnoc(ops[..n], key, HistOf(ops[..n], key), m, ops[n]);
      if ops[n].key == key { m := m + [n]; }
    }
  }

  // ---- the errors ----

  /** The call at a position is about a file that its bucket, filled by the calls before, refuses. */
  ghost predicate RefusedAt(ops: seq<Op>, j: nat)
    requires j < |ops|
  {
    ops[j].seen.FileSeen? && Refuses(Run(HistOf(ops[..j], ops[j].key)), ops[j].seen)
  }

  /** No file from a position on is refused. */
  ghost predicate AllEntered(ops: seq<Op>, from: nat) {
    forall j: nat :: from <= j < |ops| ==> !RefusedAt(ops, j)
  }

  lemma {:induction false} ErrsMean(ops: seq<Op>, op: Op)
    ensures ErrsOf(TableRun(ops), op) == if Refuses(Run(HistOf(ops, op.key)), op.seen) then 1 else 0
  {
    TableRefinesMap(ops, op.key);
    AddRefuses(Run(HistOf(ops, op.key)), op.seen);
  }

  lemma {:induction false} FileErrsZero(files: seq<Op>, ops: seq<Op>)
    requires forall i :: 0 <= i < |files| ==> files[i].seen.FileSeen?
    ensures FileErrs(files, ops) == 0 <==> AllEntered(ops + files, |ops|)
    decreases |files|
  {
    if files != [] {
      var all := ops + files;
      ErrsMean(ops, files[0]);
      FileErrsZero(files[1..], ops + [files[0]]);
      HeadTail(files);
      Assoc(ops, [files[0]], files[1..]);
      assert all[..|ops|] == ops && all[|ops|] == files[0];
      assert AllEntered(all, |ops|) <==> !RefusedAt(all, |ops|) && AllEntered(all, |ops| + 1);
    }
  }

  lemma {:induction false} AllEnteredAppend(a: seq<Op>, b: seq<Op>)
    ensures AllEntered(a + b, 0) <==> AllEntered(a, 0) && AllEntered(a + b, |a|)
  {
    forall j: nat | j < |a| ensures RefusedAt(a + b, j) <==> RefusedAt(a, j) {
      assert (a + b)[..j] == a[..j];
    }
  }

  lemma {:induction false} LinksPass(a: seq<Op>, b: seq<Op>)
    requires forall i :: 0 <= i < |b| ==> b[i].seen.LinkSeen?
    ensures AllEntered(a + b, |a|)
  {
    forall j: nat | |a| <= j < |a + b| ensures !RefusedAt(a + b, j) {
      assert (a + b)[j] == b[j - |a|];
    }
  }

  /** A file whose extension promises a certificate and that cannot be opened or digested. */
  predicate Broken(dir: Dir, name: string) { name in dir && HasCertExtension(name) && dir[name].item.Unreadable? }

  lemma {:induction false} NameErrsZero(dir: Dir, name: string, mode: Mode, ops: seq<Op>)
    ensures NameErrs(dir, name, mode, ops) == 0 <==> !Broken(dir, name) && AllEntered(ops + OpsOf(dir, name, mode), |ops|)
  {
    if name in dir && HasCertExtension(name) && dir[name].item.Holding? {
      if Parse(name).Some? { LinkNamesAreNotFiles(name); }
      FileErrsZero(FileOps(name, dir[name].item.value, mode), ops);
    } else {
      LinksPass(ops, OpsOf(dir, name, mode));
    }
  }

  /** The scan reports no error if and only if no certificate file is broken and none is refused
      for lack of room. */
  lemma {:induction false} ScanErrsZero(dir: Dir, listing: seq<string>, mode: Mode)
    ensures ScanErrs(dir, listing, mode) == 0 <==>
      (forall name :: name in listing ==> !Broken(dir, name)) && AllEntered(Ops(dir, listing, mode), 0)
  {
    if listing != [] {
      var n := |listing| - 1;
      var before, last := Ops(dir, listing[..n], mode), OpsOf(dir, listing[n], mode);
      ScanErrsZero(dir, listing[..n], mode);
      NameErrsZero(dir, listing[n], mode, before);
      FrontLast(listing);
      AllEnteredAppend(before, last);
    }
  }
}
