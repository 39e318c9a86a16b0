/** rehash's chained hash table of buckets, and its refinement to a map from (type, hash) to an
    ordered entry list. */
module RehashTable {
  import opened SeqFacts
  import opened RehashBucket
  import opened LinkName

  const SLOTS: nat := 257

  /** A bucket with its type and hash. */
  datatype Slot = Slot(key: Key, bucket: Bucket)

  type Chains = seq<seq<Slot>>

  /** A call of add_entry. */
  datatype Op = Op(key: Key, seen: Seen)

  function Index(key: Key): (i: nat)
    ensures i < SLOTS
  {
    ((if key.kind.Cert? then 0 else 1) + key.hash) % 0x1_0000_0000 % SLOTS
  }

  function FindKey(chain: seq<Slot>, key: Key): (k: nat)
    ensures k <= |chain|
    ensures k < |chain| ==> chain[k].key == key
    ensures forall i :: 0 <= i < k ==> chain[i].key != key
  {
    FirstIndex(chain, (s: Slot) => s.key == key)
  }

  predicate ChainOk(chain: seq<Slot>, slot: nat) {
    && (forall i :: 0 <= i < |chain| ==> Index(chain[i].key) == slot && DistinctFiles(chain[i].bucket.entries))
    && (forall i, j :: 0 <= i < j < |chain| ==> chain[i].key != chain[j].key)
  }

  /** Each bucket is in the chain of its key, and each key has at most one bucket. */
  predicate WellFormed(t: Chains) {
    |t| == SLOTS && forall i :: 0 <= i < SLOTS ==> ChainOk(t[i], i)
  }

  function ChainGet(chain: seq<Slot>, key: Key): Bucket {
    var k := FindKey(chain, key);
    if k < |chain| then chain[k].bucket else EMPTY
  }

  /** Replaces the bucket of a key, or makes one at the head of the chain. */
  function ChainPut(chain: seq<Slot>, key: Key, b: Bucket): seq<Slot> {
    var k := FindKey(chain, key);
    if k < |chain| then chain[k := Slot(key, b)] else [Slot(key, b)] + chain
  }

  /** The map that the table stands for. */
  function Lookup(t: Chains, key: Key): Bucket
    requires |t| == SLOTS
  {
    ChainGet(t[Index(key)], key)
  }

  function TableAdd(t: Chains, op: Op): Chains
    requires |t| == SLOTS
  {
    t[Index(op.key) := ChainPut(t[Index(op.key)], op.key, Add(Lookup(t, op.key), op.seen).bucket)]
  }

  function EmptyTable(): (t: Chains)
    ensures |t| == SLOTS && forall i :: 0 <= i < SLOTS ==> t[i] == []
  {
    seq(SLOTS, (i: nat) => [])
  }

  function TableRun(ops: seq<Op>): (t: Chains)
    ensures |t| == SLOTS
  {
    if ops == [] then EmptyTable() else TableAdd(TableRun(ops[..|ops| - 1]), ops[|ops| - 1])
  }

  /** The calls about one key, in order. */
  function HistOf(ops: seq<Op>, key: Key): seq<Seen> {
    if ops == [] then []
    else
      var h, op := HistOf(ops[..|ops| - 1], key), ops[|ops| - 1];
      if op.key == key then h + [op.seen] else h
  }

  lemma {:induction false} ChainPutOk(chain: seq<Slot>, key: Key, b: Bucket)
    requires ChainOk(chain, Index(key)) && DistinctFiles(b.entries)
    ensures ChainOk(ChainPut(chain, key, b), Index(key))
  {
  }

  lemma {:induction false} GetAfterPut(chain: seq<Slot>, key: Key, b: Bucket, other: Key)
    ensures ChainGet(ChainPut(chain, key, b), other) == if other == key then b else ChainGet(chain, other)
  {
    var chain' := ChainPut(chain, key, b);
    var k, k' := FindKey(chain, other), FindKey(chain', other);
    if FindKey(chain, key) < |chain| {
      assert |chain'| == |chain| && forall i :: 0 <= i < |chain| ==> chain'[i].key == chain[i].key;
      assert k' == k;
    } else {
      assert chain'[0].key == key && forall i :: 0 <= i < |chain| ==> chain'[i + 1] == chain[i];
      if other != key {
        assert forall i :: 1 <= i < |chain'| ==> chain'[i] == chain[i - 1];
        assert k' == k + 1;
      }
    }
  }

  /** Once the bucket exists, replacing it in the chain is what ChainPut does. */
  lemma {:induction false} PutInPlace(chain: seq<Slot>, key: Key, chain': seq<Slot>, k: nat)
    requires FindKey(chain, key) < |chain| ==> chain' == chain && k == FindKey(chain, key)
    requires FindKey(chain, key) == |chain| ==> chain' == [Slot(key, EMPTY)] + chain && k == 0
    ensures forall b :: ChainPut(chain, key, b) == chain'[k := Slot(key, b)]
  {
  }

  lemma {:induction false} AddedIsDistinct(t: Chains, op: Op)
    requires WellFormed(t)
    ensures WellFormed(TableAdd(t, op))
    ensures DistinctFiles(Lookup(t, op.key).entries)
  {
    var b := Lookup(t, op.key);
    assert DistinctFiles(b.entries);
    AddKeepsNames(b, op.seen);
    ChainPutOk(t[Index(op.key)], op.key, Add(b, op.seen).bucket);
  }

  /** The chained table refines a map of independent buckets: whatever the order in which calls
      for different keys are mixed, a key's bucket is the run of its own calls. */
  lemma {:induction false} TableRefinesMap(ops: seq<Op>, key: Key)
    ensures WellFormed(TableRun(ops))
    ensures Lookup(TableRun(ops), key) == Run(HistOf(ops, key))
  {
    if ops == [] {
    } else {
      var front, op := ops[..|ops| - 1], ops[|ops| - 1];
      TableRefinesMap(front, key);
      GetAfterPut(TableRun(front)[Index(op.key)], op.key, Add(Lookup(TableRun(front), op.key), op.seen).bucket, key);
      AddedIsDistinct(TableRun(front), op);
      if op.key == key {
        var h := HistOf(front, key);
        assert (h + [op.seen])[..|h|] == h;
      }
    }
  }

  class HashTable {
    const chains: array<seq<Slot>>

    ghost predicate Valid()
      reads this, chains
    {
      WellFormed(chains[..])
    }

    constructor ()
      ensures Valid() && fresh(chains) && chains[..] == EmptyTable()
    {
      chains := new seq<Slot>[SLOTS](i => []);
      new;
      assert chains[..] == EmptyTable();
    }

    /** The search along one chain. */
    method FindBucket(ndx: nat, key: Key) returns (k: nat)
      requires ndx < chains.Length
      ensures k == FindKey(chains[ndx], key)
    {
      k := 0;
      while k < |chains[ndx]| && chains[ndx][k].key != key
        invariant 0 <= k <= |chains[ndx]|
        invariant forall i :: 0 <= i < k ==> chains[ndx][i].key != key
      {
        k := k + 1;
      }
    }

    /** add_entry for either of its callers. */
    method AddEntry(key: Key, s: Seen) returns (errs: nat)
      requires Valid()
      modifies chains
      ensures Valid()
      ensures chains[..] == TableAdd(old(chains[..]), Op(key, s))
      ensures errs == Add(Lookup(old(chains[..]), key), s).errs
    {
      var ndx := Index(key);
      ghost var was := chains[..];
      AddedIsDistinct(was, Op(key, s));
      var k := FindBucket(ndx, key);
      if k == |chains[ndx]| {
        chains[ndx] := [Slot(key, EMPTY)] + chains[ndx];
        k := 0;
      }
      PutInPlace(was[ndx], key, chains[ndx], k);
      assert chains[ndx][k].bucket == Lookup(was, key);
      var b;
      b, errs := AddToBucket(chains[ndx][k].bucket, s);
      chains[ndx] := chains[ndx][k := Slot(key, b)];
      assert chains[..] == was[ndx := chains[ndx]];
    }
  }

  /** The loop over the entries of a bucket: a duplicate digest ends it, otherwise the entry of the
      file is looked for. */
  method ScanEntries(es: seq<Entry>, s: Seen) returns (duplicate: bool, found: nat)
    requires DistinctFiles(es)
    ensures duplicate <==> s.FileSeen? && HasDigest(es, s.digest)
    ensures !duplicate ==> found == FindFile(es, s.filename)
  {
    duplicate, found := false, |es|;
    var i := 0;
    while i < |es|
      invariant 0 <= i <= |es|
      invariant s.FileSeen? ==> forall j :: 0 <= j < i ==> es[j].digest != s.digest
      invariant found == |es| || (found < i && es[found].filename == s.filename)
      invariant found == |es| ==> forall j :: 0 <= j < i ==> es[j].filename != s.filename
    {
      if s.FileSeen? && es[i].digest == s.digest {
        return true, found;
      }
      if es[i].filename == s.filename {
        found := i;
        if s.LinkSeen? { break; }
      }
      i := i + 1;
    }
    if found < |es| { FindAt(es, found); }
  }

  /** The part of add_entry that works on the bucket. */
  method AddToBucket(b: Bucket, s: Seen) returns (b': Bucket, errs: nat)
    requires DistinctFiles(b.entries)
    ensures Added(b', errs) == Add(b, s)
  {
    b', errs := b, 0;
    var duplicate, found := ScanEntries(b.entries, s);
    if duplicate {
      return;
    }
    if found == |b.entries| {
      if b.numNeeded >= MAX_COLLISIONS {
        return b, 1;
      }
      b' := b'.(entries := b.entries + [FreshEntry(s.filename)]);
    }
    var e := b'.entries[found];
    match s {
      case LinkSeen(_, id) =>
        if id < e.oldId { e := e.(oldId := id); }
      case FileSeen(_, digest) =>
        if !e.needSymlink {
          e := e.(needSymlink := true, digest := digest);
          b' := b'.(numNeeded := (b'.numNeeded + 1) % 65536);
        }
    }
    b' := b'.(entries := b'.entries[found := e]);
  }
}
