/** What a run of rehash leaves under each name, for every directory: kept links, new links, links
    removed, and new links removed again. */
module RehashResult {
  import opened CText
  import opened SeqFacts
  import opened RehashBucket
  import opened LinkName
  import opened LinkNumbers
  import opened RehashTable
  import opened RehashDirectory

  function Hist(dir: Dir, listing: seq<string>, mode: Mode, key: Key): seq<Seen> {
    HistOf(Ops(dir, listing, mode), key)
  }

  // ---- membership in the histories ----

  lemma {:induction false} InHistOf(ops: seq<Op>, key: Key, s: Seen)
    ensures s in HistOf(ops, key) <==> Op(key, s) in ops
  {
    if ops != [] {
      var front, op := ops[..|ops| - 1], ops[|ops| - 1];
      InHistOf(front, key, s);
      assert ops == front + [op];
    }
  }

  lemma {:induction false} InOps(dir: Dir, listing: seq<string>, mode: Mode, op: Op)
    ensures op in Ops(dir, listing, mode) <==> SomeName(dir, listing, mode, op)
  {
    if listing != [] {
      InOps(dir, listing[..|listing| - 1], mode, op);
      InFrontOrLast(dir, listing, mode, op);
    }
  }

  ghost predicate SomeName(dir: Dir, names: seq<string>, mode: Mode, op: Op) {
    exists name :: name in names && op in OpsOf(dir, name, mode)
  }

  lemma {:induction false} InFrontOrLast(dir: Dir, listing: seq<string>, mode: Mode, op: Op)
    requires listing != []
    ensures SomeName(dir, listing, mode, op) <==>
      SomeName(dir, listing[..|listing| - 1], mode, op) || op in OpsOf(dir, listing[|listing| - 1], mode)
  {
    FrontLast(listing);
  }

  lemma {:induction false} InHist(dir: Dir, listing: seq<string>, mode: Mode, key: Key, s: Seen)
    ensures s in Hist(dir, listing, mode, key)
            <==> exists name :: name in listing && Op(key, s) in OpsOf(dir, name, mode)
  {
    InHistOf(Ops(dir, listing, mode), key, s);
    InOps(dir, listing, mode, Op(key, s));
  }

  // ---- the buckets of a run ----

  lemma {:induction false} WalkOf(t: Chains, lo: nat)
    requires lo <= |t| && forall i :: 0 <= i < lo ==> ChainOk(t[i], i)
    ensures forall s :: s in Walk(t[..lo]) <==> exists i, k :: 0 <= i < lo && 0 <= k < |t[i]| && t[i][k] == s
    ensures forall a, b :: 0 <= a < b < |Walk(t[..lo])| ==> Walk(t[..lo])[a].key != Walk(t[..lo])[b].key
  {
    if lo > 0 {
      WalkOf(t, lo - 1);
      assert t[..lo][..lo - 1] == t[..lo - 1];
      var front, chain := Walk(t[..lo - 1]), t[lo - 1];
      var w := front + chain;
      assert w == Walk(t[..lo]);
      forall s | s in w ensures exists i, k :: 0 <= i < lo && 0 <= k < |t[i]| && t[i][k] == s {
        if s in chain {
          var k :| 0 <= k < |chain| && chain[k] == s;
          assert t[lo - 1][k] == s;
        }
      }
      forall a, b | 0 <= a < b < |w| ensures w[a].key != w[b].key {
        if a < |front| <= b {
          assert w[a] in front;
          var i, k :| 0 <= i < lo - 1 && 0 <= k < |t[i]| && t[i][k] == w[a];
          assert Index(w[a].key) == i;
          assert w[b] == chain[b - |front|] && Index(w[b].key) == lo - 1;
        }
      }
    }
  }

  lemma {:induction false} BucketsAre(dir: Dir, listing: seq<string>, mode: Mode)
    ensures var bs := Buckets(dir, listing, mode);
      && (forall s :: s in bs ==> s.bucket == Run(Hist(dir, listing, mode, s.key)))
      && (forall a, b :: 0 <= a < b < |bs| ==> bs[a].key != bs[b].key)
  {
    var t := TableRun(Ops(dir, listing, mode));
    TableRefinesMap(Ops(dir, listing, mode), Key(Cert, 0));
    WalkOf(t, SLOTS);
    assert t[..SLOTS] == t;
    forall s | s in Walk(t) ensures s.bucket == Run(Hist(dir, listing, mode, s.key)) {
      TableRefinesMap(Ops(dir, listing, mode), s.key);
      var i, k :| 0 <= i < SLOTS && 0 <= k < |t[i]| && t[i][k] == s;
      assert ChainOk(t[i], i);
      assert FindKey(t[i], s.key) == k;
    }
  }

  lemma {:induction false} BucketListed(dir: Dir, listing: seq<string>, mode: Mode, key: Key)
    requires Run(Hist(dir, listing, mode, key)).entries != []
    ensures Slot(key, Run(Hist(dir, listing, mode, key))) in Buckets(dir, listing, mode)
  {
    var t := TableRun(Ops(dir, listing, mode));
    TableRefinesMap(Ops(dir, listing, mode), key);
    WalkOf(t, SLOTS);
    assert t[..SLOTS] == t;
    var k := FindKey(t[Index(key)], key);
    assert t[Index(key)][k] == Slot(key, Run(Hist(dir, listing, mode, key)));
  }

  lemma {:induction false} LinkOpOf(dir: Dir, name: string, mode: Mode, op: Op)
    requires op.seen.LinkSeen?
    ensures op in OpsOf(dir, name, mode) <==>
            name in dir && dir[name].Link? && Parse(name) == Some(Parsed(op.key, op.seen.id))
            && dir[name].target == op.seen.filename
  {
  }

  // ---- one name after the actions on a bucket ----

  /** The actions that write or remove the name printed for a number. */
  predicate Touches(act: Action, id: nat, remove: bool) { act == Create(id) || (remove && act == Drop(id)) }

  /** The last of the first k actions that touches a number, -1 without one. */
  function LastTouch(acts: seq<Action>, id: nat, remove: bool, k: nat): (t: int)
    requires k <= |acts|
    ensures -1 <= t < k
    ensures t >= 0 ==> Touches(acts[t], id, remove)
    ensures forall j :: t < j < k ==> !Touches(acts[j], id, remove)
  {
    if k == 0 then -1 else if Touches(acts[k - 1], id, remove) then k - 1 else LastTouch(acts, id, remove, k - 1)
  }

  function At(d: Dir, name: string): Option<Node> { if name in d then Some(d[name]) else None }

  /** What stands under the name of a number after the first k actions. */
  function NodeAfter(before: Option<Node>, es: seq<Entry>, acts: seq<Action>, id: nat, remove: bool, k: nat): Option<Node>
    requires k <= |acts| == |es|
  {
    var t := LastTouch(acts, id, remove, k);
    if t < 0 then before else if acts[t].Create? then Some(Link(es[t].filename, Nothing)) else None
  }

  lemma {:induction false} PlanAt(dir: Dir, key: Key, es: seq<Entry>, acts: seq<Action>, remove: bool, k: nat, id: nat)
    requires key.Valid() && k <= |acts| == |es|
    ensures At(ApplyPlan(dir, key, es, acts, remove, k), Print(key, id))
         == NodeAfter(At(dir, Print(key, id)), es, acts, id, remove, k)
  {
    if k > 0 {
      PlanAt(dir, key, es, acts, remove, k - 1, id);
      ActionAt(ApplyPlan(dir, key, es, acts, remove, k - 1), key, es[k - 1].filename, acts[k - 1], remove, id);
    }
  }

  lemma {:induction false} ActionAt(d: Dir, key: Key, f: string, act: Action, remove: bool, id: nat)
    requires key.Valid()
    ensures At(ApplyAction(d, key, f, act, remove), Print(key, id))
         == if act == Create(id) then Some(Link(f, Nothing))
            else if remove && act == Drop(id) then None else At(d, Print(key, id))
  {
    if !act.Keep? && act.id != id {
      if Print(key, act.id) == Print(key, id) { PrintInjective(key, act.id, key, id); }
    }
  }

  /** The action writes or removes the name. */
  predicate Names(key: Key, act: Action, remove: bool, name: string) {
    (act.Create? || (remove && act.Drop?)) && name == Print(key, act.id)
  }

  lemma {:induction false} PlanElsewhere(dir: Dir, key: Key, es: seq<Entry>, acts: seq<Action>, remove: bool, k: nat, name: string)
    requires k <= |acts| == |es| && forall i :: 0 <= i < k ==> !Names(key, acts[i], remove, name)
    ensures At(ApplyPlan(dir, key, es, acts, remove, k), name) == At(dir, name)
  {
    if k > 0 {
      PlanElsewhere(dir, key, es, acts, remove, k - 1, name);
      assert !Names(key, acts[k - 1], remove, name);
    }
  }

  // ---- and after all buckets ----

  ghost predicate SlotNames(s: Slot, remove: bool, name: string) {
    exists i :: 0 <= i < |s.bucket.entries| && Names(s.key, Plan(s.bucket)[i], remove, name)
  }

  lemma {:induction false} SlotsElsewhere(dir: Dir, slots: seq<Slot>, remove: bool, name: string)
    requires forall s :: s in slots ==> !SlotNames(s, remove, name)
    ensures At(ApplySlots(dir, slots, remove), name) == At(dir, name)
  {
    if slots != [] {
      var front, s := slots[..|slots| - 1], slots[|slots| - 1];
      SlotsElsewhere(dir, front, remove, name);
      assert !SlotNames(s, remove, name);
      PlanElsewhere(ApplySlots(dir, front, remove), s.key, s.bucket.entries, Plan(s.bucket), remove, |s.bucket.entries|, name);
    }
  }

  predicate KeyOk(s: Slot) { s.bucket.entries != [] ==> s.key.Valid() }

  /** Another bucket does not touch the names of this one. */
  lemma {:induction false} OtherSlot(s: Slot, remove: bool, key: Key, id: nat)
    requires KeyOk(s) && key.Valid() && s.key != key
    ensures !SlotNames(s, remove, Print(key, id))
  {
    if i :| 0 <= i < |s.bucket.entries| && Names(s.key, Plan(s.bucket)[i], remove, Print(key, id)) {
      PrintInjective(s.key, Plan(s.bucket)[i].id, key, id);
    }
  }

  lemma {:induction false} SlotsAt(dir: Dir, slots: seq<Slot>, remove: bool, a: nat, id: nat)
    requires a < |slots| && slots[a].key.Valid() && forall s :: s in slots ==> KeyOk(s)
    requires forall x, y :: 0 <= x < y < |slots| ==> slots[x].key != slots[y].key
    ensures var s := slots[a];
      At(ApplySlots(dir, slots, remove), Print(s.key, id))
      == NodeAfter(At(dir, Print(s.key, id)), s.bucket.entries, Plan(s.bucket), id, remove, |s.bucket.entries|)
  {
    var front, last, s := slots[..|slots| - 1], slots[|slots| - 1], slots[a];
    var d := ApplySlots(dir, front, remove);
    if a == |slots| - 1 {
      forall x | x in front ensures !SlotNames(x, remove, Print(s.key, id)) { OtherSlot(x, remove, s.key, id); }
      SlotsElsewhere(dir, front, remove, Print(s.key, id));
      PlanAt(d, s.key, s.bucket.entries, Plan(s.bucket), remove, |s.bucket.entries|, id);
    } else {
      SlotsAt(dir, front, remove, a, id);
      assert last in slots;
      OtherSlot(last, remove, s.key, id);
      PlanElsewhere(d, last.key, last.bucket.entries, Plan(last.bucket), remove, |last.bucket.entries|, Print(s.key, id));
    }
  }

  /** A key that was met is one that names can carry. */
  lemma {:induction false} KeysFit(dir: Dir, ls: seq<string>, mode: Mode, key: Key)
    requires HashesFit(dir)
    ensures Hist(dir, ls, mode, key) != [] ==> key.Valid()
  {
    var h := Hist(dir, ls, mode, key);
    if h != [] {
      assert h[0] in h;
      InHist(dir, ls, mode, key, h[0]);
      var name :| name in ls && Op(key, h[0]) in OpsOf(dir, name, mode);
    }
  }

  lemma {:induction false} BucketKeyOk(dir: Dir, ls: seq<string>, mode: Mode, s: Slot)
    requires HashesFit(dir) && s in Buckets(dir, ls, mode)
    ensures KeyOk(s)
  {
    BucketsAre(dir, ls, mode);
    KeysFit(dir, ls, mode, s.key);
  }

  function BucketOf(dir: Dir, ls: seq<string>, mode: Mode, key: Key): Bucket { Run(Hist(dir, ls, mode, key)) }

  /** The name printed for a bucket and a number, after the run: what the last action on the number
      left there. */
  lemma {:induction false} RehashAt(dir: Dir, ls: seq<string>, mode: Mode, remove: bool, key: Key, id: nat)
    requires HashesFit(dir) && key.Valid()
    ensures var b := BucketOf(dir, ls, mode, key);
      At(Rehash(dir, ls, mode, remove), Print(key, id))
      == NodeAfter(At(dir, Print(key, id)), b.entries, Plan(b), id, remove, |b.entries|)
  {
    var b, slots := BucketOf(dir, ls, mode, key), Buckets(dir, ls, mode);
    BucketsAre(dir, ls, mode);
    forall s | s in slots ensures KeyOk(s) { BucketKeyOk(dir, ls, mode, s); }
    if b.entries != [] {
      BucketListed(dir, ls, mode, key);
      var a :| 0 <= a < |slots| && slots[a] == Slot(key, b);
      SlotsAt(dir, slots, remove, a, id);
    } else {
      forall s | s in slots ensures !SlotNames(s, remove, Print(key, id)) {
        if s.key != key { OtherSlot(s, remove, key, id); }
      }
      SlotsElsewhere(dir, slots, remove, Print(key, id));
    }
  }

  // ---- the directories that do_dir can handle ----

  /** No scan of do_dir leaves the cleared part of the bit mask. */
  ghost predicate Admitted(dir: Dir, ls: seq<string>, mode: Mode) {
    HashesFit(dir) && forall s :: s in Buckets(dir, ls, mode) ==> MaskSuffices(s.bucket)
  }

  lemma {:induction false} BucketAdmitted(dir: Dir, ls: seq<string>, mode: Mode, key: Key)
    requires Admitted(dir, ls, mode)
    ensures MaskSuffices(BucketOf(dir, ls, mode, key))
    ensures Hist(dir, ls, mode, key) != [] ==> key.Valid()
  {
    KeysFit(dir, ls, mode, key);
    var b := BucketOf(dir, ls, mode, key);
    if b.entries != [] {
      BucketListed(dir, ls, mode, key);
    } else {
      RunShape(Hist(dir, ls, mode, key));
      EmptyFits(b);
    }
  }

  lemma {:induction false} EmptyFits(b: Bucket)
    requires b.entries == [] && b.numNeeded == 0
    ensures MaskSuffices(b)
  {
    assert Used(b.entries, 0) == {};
  }

  /** The least number of a file is one that a link to it was read with. */
  predicate OldIdsSeen(h: seq<Seen>, es: seq<Entry>) {
    forall i :: 0 <= i < |es| ==> es[i].oldId == NO_ID || LinkSeen(es[i].filename, es[i].oldId) in h
  }

  lemma {:induction false} RunOldIds(h: seq<Seen>)
    ensures OldIdsSeen(h, Run(h).entries)
  {
    if h != [] {
      var front, s := h[..|h| - 1], h[|h| - 1];
      RunOldIds(front);
      FrontLast(h);
      AddKeepsNames(Run(front), s);
      AddOldIds(front, Run(front), s);
    }
  }

  lemma {:induction false} AddOldIds(h: seq<Seen>, b: Bucket, s: Seen)
    requires OldIdsSeen(h, b.entries)
    ensures OldIdsSeen(h + [s], Add(b, s).bucket.entries)
  {
    var k, es := FindFile(b.entries, s.filename), Add(b, s).bucket.entries;
    forall i | 0 <= i < |es| ensures es[i].oldId == NO_ID || LinkSeen(es[i].filename, es[i].oldId) in h + [s] {
      if i < |b.entries| {
        assert b.entries[i].oldId == NO_ID || LinkSeen(b.entries[i].filename, b.entries[i].oldId) in h;
        assert es[i] == b.entries[i] || (i == k && es[i] == Touch(b.entries[i], s));
      } else {
        assert es[i] == Touch(FreshEntry(s.filename), s);
      }
    }
  }

  /** Numbers of links that were read fit in 16 bits. */
  lemma {:induction false} SeenIdsFit(dir: Dir, ls: seq<string>, mode: Mode, key: Key, f: string, id: nat)
    requires LinkSeen(f, id) in Hist(dir, ls, mode, key)
    ensures id < 65536
    ensures exists name :: name in ls && name in dir && dir[name].Link? && dir[name].target == f
                           && Parse(name) == Some(Parsed(key, id))
  {
    var op := Op(key, LinkSeen(f, id));
    InHist(dir, ls, mode, key, op.seen);
    var name :| name in ls && op in OpsOf(dir, name, mode);
    LinkOpOf(dir, name, mode, op);
  }

  lemma {:induction false} PlanIdsFit(dir: Dir, ls: seq<string>, mode: Mode, key: Key, i: nat)
    requires Admitted(dir, ls, mode) && i < |BucketOf(dir, ls, mode, key).entries|
    ensures key.Valid() && Plan(BucketOf(dir, ls, mode, key))[i].id < 65536
  {
    var h := Hist(dir, ls, mode, key);
    var b := Run(h);
    assert h != [];
    BucketAdmitted(dir, ls, mode, key);
    PlanFits(b);
    RunOldIds(h);
    ActionOf(b.entries, b.numNeeded, Used(b.entries, b.numNeeded), i);
    if Plan(b)[i].Create? {
      InCreated(Plan(b), i);
    } else if b.entries[i].oldId != NO_ID {
      SeenIdsFit(dir, ls, mode, key, b.entries[i].filename, b.entries[i].oldId);
    }
  }

  /** What becomes of every name.  Only names printed for a bucket and a number are written or
      removed, so a name that is no hash link stays, and so does a hash link of other spelling. */
  lemma {:induction false} NameAfterRun(dir: Dir, ls: seq<string>, mode: Mode, remove: bool, name: string)
    requires Admitted(dir, ls, mode)
    ensures var d := Rehash(dir, ls, mode, remove);
      if Parse(name).Some? && name == Print(Parse(name).value.key, Parse(name).value.id) then
        var p := Parse(name).value;
        var b := BucketOf(dir, ls, mode, p.key);
        At(d, name) == NodeAfter(At(dir, name), b.entries, Plan(b), p.id, remove, |b.entries|)
      else At(d, name) == At(dir, name)
  {
    if Parse(name).Some? && name == Print(Parse(name).value.key, Parse(name).value.id) {
      RehashAt(dir, ls, mode, remove, Parse(name).value.key, Parse(name).value.id);
    } else {
      forall s | s in Buckets(dir, ls, mode) ensures !SlotNames(s, remove, name) {
        if i :| 0 <= i < |s.bucket.entries| && Names(s.key, Plan(s.bucket)[i], remove, name) {
          BucketsAre(dir, ls, mode);
          PlanIdsFit(dir, ls, mode, s.key, i);
          ParseInvertsPrint(s.key, Plan(s.bucket)[i].id);
        }
      }
      SlotsElsewhere(dir, Buckets(dir, ls, mode), remove, name);
    }
  }

  // ---- new links ----

  predicate LinkedTo(d: Dir, name: string, f: string) {
    name in d && d[name].Link? && d[name].target == f
  }

  /** The number that an action gave is taken away again by a later one. */
  predicate UndoneAt(acts: seq<Action>, i: nat, remove: bool)
    requires i < |acts|
  {
    remove && exists j :: i < j < |acts| && acts[j] == Drop(acts[i].id)
  }

  /** A new link is there after the run if and only if no later entry of its bucket has a link with
      its number removed; otherwise nothing is left under its name. */
  lemma {:induction false} CreatedStays(dir: Dir, ls: seq<string>, mode: Mode, remove: bool, key: Key, i: nat)
    requires HashesFit(dir)
    requires var b := BucketOf(dir, ls, mode, key); i < |b.entries| && Plan(b)[i].Create?
    ensures var b := BucketOf(dir, ls, mode, key);
      At(Rehash(dir, ls, mode, remove), Print(key, Plan(b)[i].id))
      == if UndoneAt(Plan(b), i, remove) then None else Some(Link(b.entries[i].filename, Nothing))
  {
    var b := BucketOf(dir, ls, mode, key);
    assert Hist(dir, ls, mode, key) != [];
    KeysFit(dir, ls, mode, key);
    RehashAt(dir, ls, mode, remove, key, Plan(b)[i].id);
    LastAfterCreate(b, i, remove);
  }

  lemma {:induction false} LastAfterCreate(b: Bucket, i: nat, remove: bool)
    requires i < |b.entries| && Plan(b)[i].Create?
    ensures var t := LastTouch(Plan(b), Plan(b)[i].id, remove, |b.entries|);
      t >= i && (if UndoneAt(Plan(b), i, remove) then Plan(b)[t].Drop? else t == i)
  {
    var acts := Plan(b);
    var id := acts[i].id;
    var t := LastTouch(acts, id, remove, |b.entries|);
    assert Touches(acts[i], id, remove);
    if t > i && acts[t].Create? {
      CreatedDistinct(b.entries, b.numNeeded, Used(b.entries, b.numNeeded), i, t);
      assert false;
    }
    if UndoneAt(acts, i, remove) {
      var j :| i < j < |acts| && acts[j] == Drop(id);
      assert Touches(acts[j], id, remove);
    }
  }

  /** When the numbers in use leave room below num_needed for every entry that wants one, no new link
      is removed again: numbers handed out are below it, numbers removed are not. */
  lemma {:induction false} RoomKeepsLinks(b: Bucket, i: nat, remove: bool)
    requires i < |b.entries| && Plan(b)[i].Create?
    requires |Used(b.entries, b.numNeeded)| + CountWanting(b.entries, b.numNeeded) <= b.numNeeded
    ensures !UndoneAt(Plan(b), i, remove)
  {
    NewIdsBelowNeeded(b);
    InCreated(Plan(b), i);
    forall j | 0 <= j < |b.entries| && Plan(b)[j].Drop? ensures Plan(b)[j].id >= b.numNeeded { DroppedIsLarge(b, j); }
  }

  lemma {:induction false} DroppedIsLarge(b: Bucket, j: nat)
    requires j < |b.entries| && Plan(b)[j].Drop?
    ensures Plan(b)[j] == Drop(b.entries[j].oldId) && b.entries[j].oldId >= b.numNeeded && !b.entries[j].needSymlink
  {
    ActionOf(b.entries, b.numNeeded, Used(b.entries, b.numNeeded), j);
  }

  // ---- kept links ----

  lemma {:induction false} MadeIsFresh(b: Bucket, i: nat)
    requires i < |b.entries| && Plan(b)[i].Create?
    ensures Plan(b)[i].id !in Used(b.entries, b.numNeeded)
  {
    CreatedAreFresh(b.entries, b.numNeeded, Used(b.entries, b.numNeeded));
    assert Plan(b)[i].id in Created(Plan(b));
  }

  /** A number in use below num_needed is neither handed out nor removed. */
  lemma {:induction false} UsedUntouched(b: Bucket, id: nat, remove: bool)
    requires id in Used(b.entries, b.numNeeded)
    ensures LastTouch(Plan(b), id, remove, |b.entries|) == -1
  {
    var t := LastTouch(Plan(b), id, remove, |b.entries|);
    UsedBelow(b.entries, b.numNeeded);
    if t >= 0 {
      if Plan(b)[t].Create? { MadeIsFresh(b, t); } else { DroppedIsLarge(b, t); }
      assert false;
    }
  }

  /** A kept link is still there, under the same name and with the same target. */
  lemma {:induction false} KeptStays(dir: Dir, ls: seq<string>, mode: Mode, remove: bool, key: Key, id: nat, name: string)
    requires Admitted(dir, ls, mode) && Parse(name) == Some(Parsed(key, id))
    requires var b := BucketOf(dir, ls, mode, key); id in Used(b.entries, b.numNeeded)
    ensures At(Rehash(dir, ls, mode, remove), name) == At(dir, name)
  {
    NameAfterRun(dir, ls, mode, remove, name);
    UsedUntouched(BucketOf(dir, ls, mode, key), id, remove);
  }

  /** Every entry that keeps its number has a link with that number, before and after. */
  lemma {:induction false} KeptName(dir: Dir, ls: seq<string>, mode: Mode, remove: bool, key: Key, k: nat)
    returns (name: string)
    requires Admitted(dir, ls, mode)
    requires var b := BucketOf(dir, ls, mode, key); k < |b.entries| && b.entries[k].oldId < b.numNeeded
    ensures var d, e := Rehash(dir, ls, mode, remove), BucketOf(dir, ls, mode, key).entries[k];
      Parse(name) == Some(Parsed(key, e.oldId)) && LinkedTo(dir, name, e.filename) && At(d, name) == At(dir, name)
  {
    var h := Hist(dir, ls, mode, key);
    var b := Run(h);
    var e := b.entries[k];
    BucketAdmitted(dir, ls, mode, key);
    RunOldIds(h);
    SeenIdsFit(dir, ls, mode, key, e.filename, e.oldId);
    name :| name in ls && name in dir && dir[name].Link? && dir[name].target == e.filename
            && Parse(name) == Some(Parsed(key, e.oldId));
    assert e.oldId in Used(b.entries, b.numNeeded);
    KeptStays(dir, ls, mode, remove, key, e.oldId, name);
  }

  /** After a run a file that needs a link has one with the number it was given, if and only if that
      was not taken away again. */
  lemma {:induction false} NeededIsLinked(dir: Dir, ls: seq<string>, mode: Mode, remove: bool, key: Key, k: nat)
    requires Admitted(dir, ls, mode)
    requires var b := BucketOf(dir, ls, mode, key); k < |b.entries| && b.entries[k].needSymlink
    ensures var d, b := Rehash(dir, ls, mode, remove), BucketOf(dir, ls, mode, key);
      (exists name :: LinkedTo(d, name, b.entries[k].filename) && Parse(name) == Some(Parsed(key, Plan(b)[k].id)))
      <==> Plan(b)[k].Keep? || !UndoneAt(Plan(b), k, remove) || OtherLink(dir, key, Plan(b)[k].id, b.entries[k].filename)
  {
    var d, b := Rehash(dir, ls, mode, remove), BucketOf(dir, ls, mode, key);
    var e, id := b.entries[k], Plan(b)[k].id;
    ActionOf(b.entries, b.numNeeded, Used(b.entries, b.numNeeded), k);
    if Plan(b)[k].Keep? {
      var name := KeptName(dir, ls, mode, remove, key, k);
      assert LinkedTo(d, name, e.filename);
    } else {
      CreatedIsLinked(dir, ls, mode, remove, key, k);
    }
  }

  /** A link to the file with that number, but of other spelling than printed. */
  ghost predicate OtherLink(dir: Dir, key: Key, id: nat, f: string) {
    exists name :: LinkedTo(dir, name, f) && Parse(name) == Some(Parsed(key, id)) && name != Print(key, id)
  }

  lemma {:induction false} CreatedIsLinked(dir: Dir, ls: seq<string>, mode: Mode, remove: bool, key: Key, k: nat)
    requires Admitted(dir, ls, mode)
    requires var b := BucketOf(dir, ls, mode, key); k < |b.entries| && Plan(b)[k].Create?
    ensures var d, b := Rehash(dir, ls, mode, remove), BucketOf(dir, ls, mode, key);
      (exists name :: LinkedTo(d, name, b.entries[k].filename) && Parse(name) == Some(Parsed(key, Plan(b)[k].id)))
      <==> !UndoneAt(Plan(b), k, remove) || OtherLink(dir, key, Plan(b)[k].id, b.entries[k].filename)
  {
    var d, b := Rehash(dir, ls, mode, remove), BucketOf(dir, ls, mode, key);
    var f, id := b.entries[k].filename, Plan(b)[k].id;
    CreatedStays(dir, ls, mode, remove, key, k);
    PlanIdsFit(dir, ls, mode, key, k);
    ParseInvertsPrint(key, id);
    if !UndoneAt(Plan(b), k, remove) { assert LinkedTo(d, Print(key, id), f); }
    if name :| LinkedTo(dir, name, f) && Parse(name) == Some(Parsed(key, id)) && name != Print(key, id) {
      NameAfterRun(dir, ls, mode, remove, name);
      assert LinkedTo(d, name, f);
    }
    if name :| LinkedTo(d, name, f) && Parse(name) == Some(Parsed(key, id)) {
      NameAfterRun(dir, ls, mode, remove, name);
      assert UndoneAt(Plan(b), k, remove) ==> name != Print(key, id) && LinkedTo(dir, name, f);
    }
  }
}
