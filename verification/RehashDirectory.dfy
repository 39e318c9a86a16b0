/** A whole rehash run over one directory: scan every name, then renew the links. */
module RehashDirectory {
  import opened CText
  import opened SeqFacts
  import opened RehashBucket
  import opened LinkName
  import opened LinkNumbers
  import opened RehashTable
  import opened IdMask

  /** What a file holds when it holds exactly one certificate or CRL. */
  datatype Item = Item(kind: Kind, hash: nat, oldHash: nat, digest: Digest)

  /** What reading a file (through the link) gives: a certificate or CRL, nothing of use, or an
      error. */
  datatype Content = Holding(value: Item) | Nothing | Unreadable

  datatype Node = Link(target: string, item: Content) | File(item: Content)

  type Dir = map<string, Node>

  datatype Mode = HashOld | HashNew | HashBoth

  /** Subject hashes are 32-bit numbers. */
  predicate HashesFit(dir: Dir) {
    forall name :: name in dir && dir[name].item.Holding? ==>
      dir[name].item.value.hash < 0x1_0000_0000 && dir[name].item.value.oldHash < 0x1_0000_0000
  }

  predicate ValidDir(dir: Dir) {
    && HashesFit(dir)
    && forall name :: name in dir && dir[name].item.Holding? ==> dir[name].item.value.digest != ZERO_DIGEST
  }

  /** The add_entry calls of do_file. */
  function FileOps(name: string, item: Item, mode: Mode): seq<Op> {
    (if mode.HashOld? then [] else [Op(Key(item.kind, item.hash), FileSeen(name, item.digest))])
    + (if mode.HashNew? then [] else [Op(Key(item.kind, item.oldHash), FileSeen(name, item.digest))])
  }

  /** The add_entry calls for one name of the listing. */
  function OpsOf(dir: Dir, name: string, mode: Mode): seq<Op> {
    if name !in dir then []
    else if dir[name].Link? && Parse(name).Some? then
      var p := Parse(name).value;
      [Op(p.key, LinkSeen(dir[name].target, p.id))]
    else if HasCertExtension(name) && dir[name].item.Holding? then FileOps(name, dir[name].item.value, mode)
    else []
  }

  function Ops(dir: Dir, listing: seq<string>, mode: Mode): seq<Op> {
    if listing == [] then []
    else Ops(dir, listing[..|listing| - 1], mode) + OpsOf(dir, listing[|listing| - 1], mode)
  }

  /** The errors of one add_entry call. */
  function ErrsOf(t: Chains, op: Op): nat
    requires |t| == SLOTS
  {
    Add(Lookup(t, op.key), op.seen).errs
  }

  /** What one name adds to the error count, ops being the calls before it: files that cannot be read
      or entered.  A link that cannot be entered is not counted. */
  function NameErrs(dir: Dir, name: string, mode: Mode, ops: seq<Op>): nat {
    if name !in dir || !HasCertExtension(name) then 0
    else if dir[name].item.Unreadable? then 1
    else if dir[name].item.Nothing? then 0
    else FileErrs(FileOps(name, dir[name].item.value, mode), ops)
  }

  function FileErrs(fileOps: seq<Op>, ops: seq<Op>): nat
    decreases |fileOps|
  {
    if fileOps == [] then 0
    else ErrsOf(TableRun(ops), fileOps[0]) + FileErrs(fileOps[1..], ops + [fileOps[0]])
  }

  function ScanErrs(dir: Dir, listing: seq<string>, mode: Mode): nat {
    if listing == [] then 0
    else
      var front, name := listing[..|listing| - 1], listing[|listing| - 1];
      ScanErrs(dir, front, mode) + NameErrs(dir, name, mode, Ops(dir, front, mode))
  }

  /** The directory after one action for a file. */
  function ApplyAction(dir: Dir, key: Key, filename: string, act: Action, remove: bool): Dir {
    match act
    case Keep(_) => dir
    case Create(id) => dir[Print(key, id) := Link(filename, Nothing)]
    case Drop(id) => if remove then dir - {Print(key, id)} else dir
  }

  /** The directory after the first k actions on a bucket. */
  function ApplyPlan(dir: Dir, key: Key, es: seq<Entry>, acts: seq<Action>, remove: bool, k: nat): Dir
    requires k <= |es| == |acts|
  {
    if k == 0 then dir
    else
      ApplyAction(ApplyPlan(dir, key, es, acts, remove, k - 1), key, es[k - 1].filename, acts[k - 1], remove)
  }

  function ApplySlot(dir: Dir, s: Slot, remove: bool): Dir {
    ApplyPlan(dir, s.key, s.bucket.entries, Plan(s.bucket), remove, |s.bucket.entries|)
  }

  function ApplySlots(dir: Dir, slots: seq<Slot>, remove: bool): Dir {
    if slots == [] then dir
    else ApplySlot(ApplySlots(dir, slots[..|slots| - 1], remove), slots[|slots| - 1], remove)
  }

  /** The buckets in the order in which the table is walked. */
  function Walk(t: Chains): seq<Slot> {
    if t == [] then [] else Walk(t[..|t| - 1]) + t[|t| - 1]
  }

  function Buckets(dir: Dir, listing: seq<string>, mode: Mode): seq<Slot> {
    Walk(TableRun(Ops(dir, listing, mode)))
  }

  /** The directory that a run without failing system calls leaves behind. */
  function Rehash(dir: Dir, listing: seq<string>, mode: Mode, remove: bool): Dir {
    ApplySlots(dir, Buckets(dir, listing, mode), remove)
  }

  /** The file system calls; any of them may fail for reasons of its own. */
  class Directory {
    var nodes: Dir

    constructor (nodes: Dir)
      ensures this.nodes == nodes
    {
      this.nodes := nodes;
    }

    /** True also when there was nothing to unlink (ENOENT). */
    method Unlink(name: string) returns (ok: bool)
      modifies this
      ensures nodes == if ok then old(nodes) - {name} else old(nodes)
    {
      ok := *;
      if ok { nodes := nodes - {name}; }
    }

    method Symlink(target: string, name: string) returns (ok: bool)
      modifies this
      ensures ok ==> name !in old(nodes)
      ensures nodes == if ok then old(nodes)[name := Link(target, Nothing)] else old(nodes)
    {
      ok := *;
      ok := ok && name !in nodes;
      if ok { nodes := nodes[name := Link(target, Nothing)]; }
    }
  }

  /** The mask holds exactly the numbers in use, as far as it was cleared. */
  ghost predicate Holds(mask: seq<bv8>, bits: nat, used: set<nat>)
    requires bits <= 8 * |mask|
  {
    forall j: nat :: j < bits ==> (Isset(mask, j) <==> j in used)
  }

  /** The memset and the first loop over the entries. */
  method MarkUsed(mask: array<bv8>, es: seq<Entry>, n: nat)
    requires n <= MAX_COLLISIONS && mask.Length == MAX_COLLISIONS / 8
    modifies mask
    ensures Scanning(mask[..], ClearedBits(n), Used(es, n), 0)
  {
    Clear(mask, (n + 7) / 8);
    for i := 0 to |es|
      invariant Holds(mask[..], ClearedBits(n), Used(es[..i], n))
    {
      if es[i].oldId < n {
        BitSet(mask, es[i].oldId);
      }
      UsedSnoc(es[..i], es[i], n);
      assert es[..i + 1] == es[..i] + [es[i]];
    }
    assert es[..|es|] == es;
    assert Holds(mask[..], ClearedBits(n), Used(es, n));
  }

  /** The scan from nextid; it stops at the least free number without leaving the cleared bits. */
  method NextFree(mask: array<bv8>, nextid: nat, bits: nat, ghost used: set<nat>) returns (id: nat)
    requires bits <= 8 * mask.Length && Holds(mask[..], bits, used)
    requires LeastFree(used, 0) < bits && forall j: nat :: j < nextid ==> j in used
    ensures id == LeastFree(used, 0)
  {
    id := nextid;
    var taken := BitIsset(mask, id);
    while taken
      invariant id <= LeastFree(used, 0)
      invariant taken <==> Isset(mask[..], id)
      decreases LeastFree(used, 0) - id
    {
      id := id + 1;
      taken := BitIsset(mask, id);
    }
  }

  method MakeLink(d: Directory, target: string, name: string) returns (errs: nat)
    modifies d
    ensures errs == 0 ==> d.nodes == old(d.nodes)[name := Link(target, Nothing)]
  {
    errs := 0;
    var ok := d.Unlink(name);
    if !ok { errs := errs + 1; }
    ok := d.Symlink(target, name);
    if !ok { errs := errs + 1; }
    assert errs == 0 ==> (old(d.nodes) - {name})[name := Link(target, Nothing)] == old(d.nodes)[name := Link(target, Nothing)];
  }

  /** What the second loop decides about one entry, and the numbers taken afterwards. */
  function Decide(e: Entry, n: nat, used: set<nat>): Action {
    if e.oldId < n then Keep(e.oldId) else if e.needSymlink then Create(LeastFree(used, 0)) else Drop(e.oldId)
  }

  function Taken(e: Entry, n: nat, used: set<nat>): set<nat> {
    if Wanting(e, n) then used + {LeastFree(used, 0)} else used
  }

  /** The state of the scan: mask and nextid agree with the numbers taken. */
  ghost predicate Scanning(mask: seq<bv8>, bits: nat, used: set<nat>, nextid: nat) {
    && bits <= 8 * |mask| && Holds(mask, bits, used)
    && forall j: nat :: j < nextid ==> j in used
  }

  /** The body of the second loop. */
  method RelinkEntry(d: Directory, key: Key, e: Entry, n: nat, mask: array<bv8>, nextid: nat, bits: nat, remove: bool, ghost used: set<nat>)
    returns (errs: nat, nextid': nat)
    requires Scanning(mask[..], bits, used, nextid) && (Wanting(e, n) ==> LeastFree(used, 0) < bits)
    modifies d, mask
    ensures Scanning(mask[..], bits, Taken(e, n, used), nextid')
    ensures errs == 0 ==> d.nodes == ApplyAction(old(d.nodes), key, e.filename, Decide(e, n, used), remove)
  {
    errs, nextid' := 0, nextid;
    if e.oldId < n {
      // the link exists and is used as it is
    } else if e.needSymlink {
      nextid' := NextFree(mask, nextid, bits, used);
      errs := MakeLink(d, e.filename, Print(key, nextid'));
      BitSet(mask, nextid');
    } else if remove {
      var ok := d.Unlink(Print(key, e.oldId));
      if !ok { errs := 1; }
    }
  }

  /** The two loops of do_dir over the entries of one bucket. */
  method RelinkBucket(d: Directory, key: Key, b: Bucket, mask: array<bv8>, remove: bool) returns (errs: nat)
    requires mask.Length == MAX_COLLISIONS / 8
    requires MaskSuffices(b)
    modifies d, mask
    ensures errs == 0 ==> d.nodes == ApplySlot(old(d.nodes), Slot(key, b), remove)
  {
    PlanFits(b);
    MarkUsed(mask, b.entries, b.numNeeded);
    errs := RelinkEntries(d, key, b.entries, b.numNeeded, mask, ClearedBits(b.numNeeded), remove,
                          Used(b.entries, b.numNeeded), Plan(b));
  }

  lemma {:induction false} PlanFits(b: Bucket)
    requires MaskSuffices(b)
    ensures ClearedBits(b.numNeeded) <= MAX_COLLISIONS && Created(Plan(b)) <= Upto(ClearedBits(b.numNeeded))
  {
    UsedBelow(b.entries, b.numNeeded);
    ScanStaysBelow(b.entries, b.numNeeded, Used(b.entries, b.numNeeded), ClearedBits(b.numNeeded));
  }

  /** The second loop. */
  method RelinkEntries(d: Directory, key: Key, es: seq<Entry>, n: nat, mask: array<bv8>, bits: nat, remove: bool,
                       ghost taken: set<nat>, ghost acts: seq<Action>) returns (errs: nat)
    requires Scanning(mask[..], bits, taken, 0)
    requires acts == Assign(es, n, taken) && Created(acts) <= Upto(bits)
    modifies d, mask
    ensures errs == 0 ==> d.nodes == ApplyPlan(old(d.nodes), key, es, acts, remove, |es|)
  {
    ghost var used := taken;
    var nextid: nat := 0;
    errs := 0;
    assert es[0..] == es && acts[0..] == acts;
    for k := 0 to |es|
      invariant Assign(es[k..], n, used) == acts[k..]
      invariant Scanning(mask[..], bits, used, nextid)
      invariant errs == 0 ==> d.nodes == ApplyPlan(old(d.nodes), key, es, acts, remove, k)
    {
      AssignStep(es, acts, n, used, k);
      var e;
      e, nextid := RelinkStep(d, key, es[k], n, mask, nextid, bits, remove, used, acts, k);
      errs := errs + e;
      used := Taken(es[k], n, used);
    }
  }

  /** The body again, told by the plan. */
  method RelinkStep(d: Directory, key: Key, e: Entry, n: nat, mask: array<bv8>, nextid: nat, bits: nat, remove: bool,
                    ghost used: set<nat>, ghost acts: seq<Action>, ghost k: nat)
    returns (errs: nat, nextid': nat)
    requires Scanning(mask[..], bits, used, nextid)
    requires k < |acts| && acts[k] == Decide(e, n, used) && Created(acts) <= Upto(bits)
    modifies d, mask
    ensures Scanning(mask[..], bits, Taken(e, n, used), nextid')
    ensures errs == 0 ==> d.nodes == ApplyAction(old(d.nodes), key, e.filename, acts[k], remove)
  {
    if acts[k].Create? { InCreated(acts, k); }
    errs, nextid' := RelinkEntry(d, key, e, n, mask, nextid, bits, remove, used);
  }

  lemma {:induction false} InCreated(acts: seq<Action>, k: nat)
    requires k < |acts| && acts[k].Create?
    ensures acts[k].id in Created(acts)
  {
  }

  /** One step of the second loop. */
  lemma {:induction false} AssignStep(es: seq<Entry>, acts: seq<Action>, n: nat, used: set<nat>, k: nat)
    requires k < |es| == |acts| && Assign(es[k..], n, used) == acts[k..]
    ensures acts[k] == Decide(es[k], n, used)
    ensures Assign(es[k + 1..], n, Taken(es[k], n, used)) == acts[k + 1..]
  {
    assert es[k..][0] == es[k] && es[k..][1..] == es[k + 1..];
    assert acts[k..][0] == acts[k] && acts[k..][1..] == acts[k + 1..];
  }

  lemma {:induction false} UsedSnoc(es: seq<Entry>, e: Entry, n: nat)
    ensures Used(es + [e], n) == Used(es, n) + if e.oldId < n then {e.oldId} else {}
  {
    var es' := es + [e];
    forall x | x in Used(es, n) + if e.oldId < n then {e.oldId} else {} ensures x in Used(es', n) {
      if x in Used(es, n) {
        var i :| 0 <= i < |es| && es[i].oldId < n && es[i].oldId == x;
        assert es'[i] == es[i];
      } else {
        assert es'[|es|] == e;
      }
    }
  }

  lemma {:induction false} TableRunSnoc(ops: seq<Op>, op: Op)
    ensures TableRun(ops + [op]) == TableAdd(TableRun(ops), op)
  {
    assert (ops + [op])[..|ops|] == ops;
  }

  /** The two guarded add_entry calls of do_file. */
  method AddFile(table: HashTable, name: string, item: Item, mode: Mode, ghost ops: seq<Op>) returns (errs: nat)
    requires table.Valid() && table.chains[..] == TableRun(ops)
    modifies table.chains
    ensures table.Valid() && table.chains[..] == TableRun(ops + FileOps(name, item, mode))
    ensures errs == FileErrs(FileOps(name, item, mode), ops)
  {
    var newOp := Op(Key(item.kind, item.hash), FileSeen(name, item.digest));
    var oldOp := Op(Key(item.kind, item.oldHash), FileSeen(name, item.digest));
    TwoFileOps(name, item, mode, ops);
    errs := AddWhen(table, !mode.HashOld?, newOp, ops);
    var e := AddWhen(table, !mode.HashNew?, oldOp, ops + When(!mode.HashOld?, newOp));
    errs := errs + e;
  }

  function When(b: bool, op: Op): seq<Op> { if b then [op] else [] }

  lemma {:induction false} TwoFileOps(name: string, item: Item, mode: Mode, ops: seq<Op>)
    ensures var newOp := Op(Key(item.kind, item.hash), FileSeen(name, item.digest));
      var oldOp := Op(Key(item.kind, item.oldHash), FileSeen(name, item.digest));
      var first, second := When(!mode.HashOld?, newOp), When(!mode.HashNew?, oldOp);
      && ops + FileOps(name, item, mode) == ops + first + second
      && FileErrs(FileOps(name, item, mode), ops) == FileErrs(first, ops) + FileErrs(second, ops + first)
  {
    var newOp := Op(Key(item.kind, item.hash), FileSeen(name, item.digest));
    var oldOp := Op(Key(item.kind, item.oldHash), FileSeen(name, item.digest));
    if mode.HashBoth? {
      assert FileOps(name, item, mode) == [newOp, oldOp] && [newOp, oldOp][1..] == [oldOp] && [newOp][1..] == [];
    } else if mode.HashOld? {
      assert FileOps(name, item, mode) == [oldOp] && ops + [] == ops;
    } else {
      assert FileOps(name, item, mode) == [newOp];
    }
  }

  method AddWhen(table: HashTable, when: bool, op: Op, ghost ops: seq<Op>) returns (errs: nat)
    requires table.Valid() && table.chains[..] == TableRun(ops)
    modifies table.chains
    ensures table.Valid() && table.chains[..] == TableRun(ops + When(when, op))
    ensures errs == FileErrs(When(when, op), ops)
  {
    errs := 0;
    if when {
      errs := table.AddEntry(op.key, op.seen);
      TableRunSnoc(ops, op);
      assert [op][1..] == [];
    } else {
      Whole(ops);
    }
  }

  /** do_file: the add_entry calls for a certificate or CRL file, and its errors. */
  method DoFile(d: Directory, table: HashTable, name: string, mode: Mode, ghost ops: seq<Op>) returns (errs: nat)
    requires table.Valid() && table.chains[..] == TableRun(ops)
    requires name in d.nodes
    modifies table.chains
    ensures table.Valid()
    ensures table.chains[..]
         == TableRun(ops + if HasCertExtension(name) && d.nodes[name].item.Holding?
                           then FileOps(name, d.nodes[name].item.value, mode) else [])
    ensures errs == NameErrs(d.nodes, name, mode, ops)
  {
    errs := 0;
    Whole(ops);
    if !HasCertExtension(name) {
      return;
    }
    if d.nodes[name].item.Unreadable? {
      return 1;
    }
    if d.nodes[name].item.Nothing? {
      return;
    }
    errs := AddFile(table, name, d.nodes[name].item.value, mode, ops);
  }

  /** handle_symlink: -1 for a name that is no hash link, otherwise add_entry's answer. */
  method HandleSymlink(d: Directory, table: HashTable, name: string, ghost ops: seq<Op>) returns (r: int)
    requires table.Valid() && table.chains[..] == TableRun(ops)
    requires name in d.nodes && d.nodes[name].Link?
    modifies table.chains
    ensures table.Valid()
    ensures Parse(name).None? ==> r == -1 && table.chains[..] == TableRun(ops)
    ensures Parse(name).Some? ==>
      var op := Op(Parse(name).value.key, LinkSeen(d.nodes[name].target, Parse(name).value.id));
      r == ErrsOf(TableRun(ops), op) && table.chains[..] == TableRun(ops + [op])
  {
    var parsed := ReadName(name);
    if parsed.None? {
      return -1;
    }
    var op := Op(parsed.value.key, LinkSeen(d.nodes[name].target, parsed.value.id));
    r := table.AddEntry(op.key, op.seen);
    TableRunSnoc(ops, op);
  }

  /** The body of the loop over the listing. */
  method ScanName(d: Directory, table: HashTable, name: string, mode: Mode, ghost ops: seq<Op>) returns (errs: nat)
    requires table.Valid() && table.chains[..] == TableRun(ops)
    modifies table.chains
    ensures table.Valid() && table.chains[..] == TableRun(ops + OpsOf(d.nodes, name, mode))
    ensures errs == NameErrs(d.nodes, name, mode, ops)
  {
    errs := 0;
    Whole(ops);
    if name !in d.nodes {
      return;
    }
    ghost var done := ops;
    if d.nodes[name].Link? {
      var r := HandleSymlink(d, table, name, ops);
      if Parse(name).Some? {
        LinkNamesAreNotFiles(name);
        done := ops + OpsOf(d.nodes, name, mode);
        Whole(done);
      }
      if r == 0 {
        return;
      }
    }
    errs := DoFile(d, table, name, mode, done);
  }

  /** The loop over the listing. */
  method ScanNames(d: Directory, table: HashTable, listing: seq<string>, mode: Mode) returns (errs: nat)
    requires table.Valid() && table.chains[..] == EmptyTable()
    modifies table.chains
    ensures table.Valid()
    ensures table.chains[..] == TableRun(Ops(d.nodes, listing, mode))
    ensures errs == ScanErrs(d.nodes, listing, mode)
  {
    errs := 0;
    for n := 0 to |listing|
      invariant table.Valid()
      invariant table.chains[..] == TableRun(Ops(d.nodes, listing[..n], mode))
      invariant errs == ScanErrs(d.nodes, listing[..n], mode)
    {
      assert listing[..n + 1][..n] == listing[..n];
      var e := ScanName(d, table, listing[n], mode, Ops(d.nodes, listing[..n], mode));
      errs := errs + e;
    }
    Whole(listing);
  }

  lemma {:induction false} WalkPrefix(t: Chains, i: nat, k: nat)
    requires i < |t| && k < |t[i]|
    ensures t[i][k] in Walk(t)
    decreases |t|
  {
    if i < |t| - 1 {
      WalkPrefix(t[..|t| - 1], i, k);
    }
  }

  lemma {:induction false} ChainSuffices(t: Chains, i: nat)
    requires i < |t| && forall s :: s in Walk(t) ==> MaskSuffices(s.bucket)
    ensures forall s :: s in t[i] ==> MaskSuffices(s.bucket)
  {
    forall s | s in t[i] ensures MaskSuffices(s.bucket) {
      var k :| 0 <= k < |t[i]| && t[i][k] == s;
      WalkPrefix(t, i, k);
    }
  }

  lemma {:induction false} WalkSnoc(t: Chains, i: nat)
    requires i < |t|
    ensures Walk(t[..i + 1]) == Walk(t[..i]) + t[i]
  {
    assert t[..i + 1][..i] == t[..i];
  }

  /** The buckets of one chain. */
  method RelinkChain(d: Directory, chain: seq<Slot>, mask: array<bv8>, remove: bool) returns (errs: nat)
    requires mask.Length == MAX_COLLISIONS / 8 && forall s :: s in chain ==> MaskSuffices(s.bucket)
    modifies d, mask
    ensures errs == 0 ==> d.nodes == ApplySlots(old(d.nodes), chain, remove)
  {
    errs := 0;
    for k := 0 to |chain|
      invariant errs == 0 ==> d.nodes == ApplySlots(old(d.nodes), chain[..k], remove)
    {
      var e := RelinkBucket(d, chain[k].key, chain[k].bucket, mask, remove);
      errs := errs + e;
      assert chain[..k + 1][..k] == chain[..k];
    }
    assert chain[..|chain|] == chain;
  }

  lemma {:induction false} ApplyAppend(dir: Dir, a: seq<Slot>, b: seq<Slot>, remove: bool)
    ensures ApplySlots(dir, a + b, remove) == ApplySlots(ApplySlots(dir, a, remove), b, remove)
  {
    if b == [] {
      Whole(a);
    } else {
      ApplyAppend(dir, a, b[..|b| - 1], remove);
      FrontLast(b);
      Assoc(a, b[..|b| - 1], [b[|b| - 1]]);
      ApplySnoc(dir, a + b[..|b| - 1], b[|b| - 1], remove);
    }
  }

  lemma {:induction false} ApplySnoc(dir: Dir, slots: seq<Slot>, s: Slot, remove: bool)
    ensures ApplySlots(dir, slots + [s], remove) == ApplySlot(ApplySlots(dir, slots, remove), s, remove)
  {
    Snoc(slots, s);
  }

  /** do_dir on a listing of the directory, in the order in which it was read. */
  method DoDir(d: Directory, listing: seq<string>, mode: Mode, remove: bool) returns (errs: nat)
    requires forall s :: s in Buckets(d.nodes, listing, mode) ==> MaskSuffices(s.bucket)
    modifies d
    ensures errs >= ScanErrs(old(d.nodes), listing, mode)
    ensures errs == ScanErrs(old(d.nodes), listing, mode) ==> d.nodes == Rehash(old(d.nodes), listing, mode, remove)
  {
    var table := new HashTable();
    errs := ScanNames(d, table, listing, mode);
    var e := RelinkAll(d, table, remove);
    errs := errs + e;
  }

  /** The walk over the table. */
  method RelinkAll(d: Directory, table: HashTable, remove: bool) returns (errs: nat)
    requires table.Valid() && forall s :: s in Walk(table.chains[..]) ==> MaskSuffices(s.bucket)
    modifies d
    ensures errs == 0 ==> d.nodes == ApplySlots(old(d.nodes), Walk(table.chains[..]), remove)
  {
    var mask := new bv8[MAX_COLLISIONS / 8];
    ghost var t := table.chains[..];
    errs := 0;
    for i := 0 to SLOTS
      invariant table.chains[..] == t
      invariant errs == 0 ==> d.nodes == ApplySlots(old(d.nodes), Walk(t[..i]), remove)
    {
      var chain := table.chains[i];
      WalkSnoc(t, i);
      ChainSuffices(t, i);
      ApplyAppend(old(d.nodes), Walk(t[..i]), chain, remove);
      var e := RelinkChain(d, chain, mask, remove);
      errs := errs + e;
    }
    assert t[..SLOTS] == t;
  }
}
