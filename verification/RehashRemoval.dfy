/** The documentation promises that all links of the hash syntax are removed before new ones are made.
    Which links does a run really remove, and when is nothing left but what it wants? */
module RehashRemoval {
  import opened CText
  import opened SeqFacts
  import opened RehashBucket
  import opened LinkName
  import opened LinkNumbers
  import opened RehashTable
  import opened RehashDirectory
  import opened RehashResult

  /** The number is removed by an entry of the bucket and not given again by a later one. */
  predicate Removes(b: Bucket, id: nat) {
    exists j :: 0 <= j < |b.entries| && Plan(b)[j] == Drop(id)
                && forall i :: j < i < |b.entries| ==> Plan(b)[i] != Create(id)
  }

  lemma {:induction false} RemovesMeans(b: Bucket, id: nat)
    ensures var t := LastTouch(Plan(b), id, true, |b.entries|); Removes(b, id) <==> t >= 0 && Plan(b)[t].Drop?
  {
    var acts := Plan(b);
    var t := LastTouch(acts, id, true, |b.entries|);
    if Removes(b, id) {
      var j :| 0 <= j < |b.entries| && acts[j] == Drop(id) && forall i :: j < i < |b.entries| ==> acts[i] != Create(id);
      assert Touches(acts[j], id, true);
    }
    if t >= 0 && acts[t].Drop? {
      forall i | t < i < |b.entries| ensures acts[i] != Create(id) { assert !Touches(acts[i], id, true); }
    }
  }

  /** A hash link is gone after a run if and only if links are to be removed, its name is the one
      printed for its number, and its bucket removes that number. */
  lemma {:induction false} GoneExactly(dir: Dir, ls: seq<string>, mode: Mode, remove: bool, name: string)
    requires Admitted(dir, ls, mode) && name in dir && Parse(name).Some?
    ensures var p := Parse(name).value;
      name !in Rehash(dir, ls, mode, remove)
      <==> remove && name == Print(p.key, p.id) && Removes(BucketOf(dir, ls, mode, p.key), p.id)
  {
    var p := Parse(name).value;
    NameAfterRun(dir, ls, mode, remove, name);
    RemovesMeans(BucketOf(dir, ls, mode, p.key), p.id);
  }

  /** Where the numbers in use leave room for the new ones, the numbers removed are those at or above
      num_needed that are the least number of a file that needs no link. */
  lemma {:induction false} RemovesWithRoom(b: Bucket, id: nat)
    requires |Used(b.entries, b.numNeeded)| + CountWanting(b.entries, b.numNeeded) <= b.numNeeded
    ensures Removes(b, id) <==>
      id >= b.numNeeded && exists k :: 0 <= k < |b.entries| && !b.entries[k].needSymlink && b.entries[k].oldId == id
  {
    if j :| 0 <= j < |b.entries| && Plan(b)[j] == Drop(id) { DroppedIsLarge(b, j); }
    if id >= b.numNeeded {
      if k :| 0 <= k < |b.entries| && !b.entries[k].needSymlink && b.entries[k].oldId == id {
        ActionOf(b.entries, b.numNeeded, Used(b.entries, b.numNeeded), k);
        NewIdsBelowNeeded(b);
        forall i | 0 <= i < |b.entries| ensures Plan(b)[i] != Create(id) {
          if Plan(b)[i].Create? { InCreated(Plan(b), i); }
        }
        assert Plan(b)[k] == Drop(id);
      }
    }
  }

  // ---- nothing but what the run wants ----

  /** A link that the run wants: the printed name of an entry's number, to its file. */
  ghost predicate Wanted(b: Bucket, key: Key, name: string, f: string) {
    exists k :: 0 <= k < |b.entries| && b.entries[k].needSymlink && b.entries[k].filename == f
                && name == Print(key, Plan(b)[k].id)
  }

  predicate HashLink(d: Dir, key: Key, name: string) {
    name in d && d[name].Link? && Parse(name).Some? && Parse(name).value.key == key
  }

  /** What the documentation makes one expect: no hash link of the bucket but the wanted ones. */
  ghost predicate OnlyWanted(d: Dir, key: Key, b: Bucket) {
    forall name :: HashLink(d, key, name) ==> Wanted(b, key, name, d[name].target)
  }

  /** A hash link that the run replaces, removes or wants as it is. */
  ghost predicate Handled(dir: Dir, key: Key, b: Bucket, remove: bool, name: string)
    requires HashLink(dir, key, name)
  {
    var id := Parse(name).value.id;
    && name == Print(key, id)
    && (Wanted(b, key, name, dir[name].target)
        || exists j :: 0 <= j < |b.entries| && Touches(Plan(b)[j], id, remove))
  }

  lemma {:induction false} HandledIff(dir: Dir, ls: seq<string>, mode: Mode, remove: bool, key: Key, name: string)
    requires Admitted(dir, ls, mode) && HashLink(dir, key, name)
    ensures var d, b := Rehash(dir, ls, mode, remove), BucketOf(dir, ls, mode, key);
      Handled(dir, key, b, remove, name) <==> (HashLink(d, key, name) ==> Wanted(b, key, name, d[name].target))
  {
    var d, b, id := Rehash(dir, ls, mode, remove), BucketOf(dir, ls, mode, key), Parse(name).value.id;
    NameAfterRun(dir, ls, mode, remove, name);
    if name == Print(key, id) {
      var t := LastTouch(Plan(b), id, remove, |b.entries|);
      if t >= 0 { TouchedIsWanted(b, key, id, remove); }
    } else if Wanted(b, key, name, dir[name].target) {
      var k :| 0 <= k < |b.entries| && b.entries[k].needSymlink && name == Print(key, Plan(b)[k].id);
      PlanIdsFit(dir, ls, mode, key, k);
      ParseInvertsPrint(key, Plan(b)[k].id);
      assert false;
    }
  }

  /** What a touched number ends with is wanted, or nothing. */
  lemma {:induction false} TouchedIsWanted(b: Bucket, key: Key, id: nat, remove: bool)
    requires LastTouch(Plan(b), id, remove, |b.entries|) >= 0
    ensures var t := LastTouch(Plan(b), id, remove, |b.entries|);
      Plan(b)[t].Create? ==> Wanted(b, key, Print(key, id), b.entries[t].filename)
  {
    var t := LastTouch(Plan(b), id, remove, |b.entries|);
    ActionOf(b.entries, b.numNeeded, Used(b.entries, b.numNeeded), t);
  }

  /** After a run no hash link of a bucket is left but the wanted ones, if and only if the run replaces,
      removes or wants each one that was there.  Links of other spelling, further links of a file, and
      links below num_needed to files that need none are the ones that stay. */
  lemma {:induction false} OnlyWantedIff(dir: Dir, ls: seq<string>, mode: Mode, remove: bool, key: Key)
    requires Admitted(dir, ls, mode)
    ensures var b := BucketOf(dir, ls, mode, key);
      OnlyWanted(Rehash(dir, ls, mode, remove), key, b)
      <==> forall name :: HashLink(dir, key, name) ==> Handled(dir, key, b, remove, name)
  {
    var d, b := Rehash(dir, ls, mode, remove), BucketOf(dir, ls, mode, key);
    forall name | HashLink(dir, key, name)
      ensures Handled(dir, key, b, remove, name) <==> (HashLink(d, key, name) ==> Wanted(b, key, name, d[name].target))
    {
      HandledIff(dir, ls, mode, remove, key, name);
    }
    forall name | HashLink(d, key, name) && !HashLink(dir, key, name) ensures Wanted(b, key, name, d[name].target) {
      NewLinkIsWanted(dir, ls, mode, remove, key, name);
    }
  }

  lemma {:induction false} NewLinkIsWanted(dir: Dir, ls: seq<string>, mode: Mode, remove: bool, key: Key, name: string)
    requires Admitted(dir, ls, mode)
    requires HashLink(Rehash(dir, ls, mode, remove), key, name) && !HashLink(dir, key, name)
    ensures Wanted(BucketOf(dir, ls, mode, key), key, name, Rehash(dir, ls, mode, remove)[name].target)
  {
    var b, id := BucketOf(dir, ls, mode, key), Parse(name).value.id;
    NameAfterRun(dir, ls, mode, remove, name);
    TouchedIsWanted(b, key, id, remove);
  }

  // ---- directories of one bucket ----

  predicate OneOpEach(dir: Dir, ls: seq<string>, key: Key, seens: seq<Seen>) {
    |ls| == |seens| && forall i :: 0 <= i < |ls| ==> OpsOf(dir, ls[i], HashNew) == [Op(key, seens[i])]
  }

  lemma {:induction false} HistOfEach(dir: Dir, ls: seq<string>, key: Key, seens: seq<Seen>, k: Key)
    requires OneOpEach(dir, ls, key, seens)
    ensures Hist(dir, ls, HashNew, k) == if k == key then seens else []
  {
    if ls != [] {
      var n := |ls| - 1;
      HistOfEach(dir, ls[..n], key, seens[..n], k);
      FrontLast(seens);
      HistStep(Ops(dir, ls[..n], HashNew), key, seens[n], k);
    }
  }

  lemma {:induction false} HistStep(ops: seq<Op>, key: Key, s: Seen, k: Key)
    ensures HistOf(ops + [Op(key, s)], k) == if k == key then HistOf(ops, k) + [s] else HistOf(ops, k)
  {
    Snoc(ops, Op(key, s));
  }

  lemma {:induction false} AdmittedByBucket(dir: Dir, ls: seq<string>, key: Key, seens: seq<Seen>)
    requires HashesFit(dir) && OneOpEach(dir, ls, key, seens) && MaskSuffices(Run(seens))
    ensures Admitted(dir, ls, HashNew) && BucketOf(dir, ls, HashNew, key) == Run(seens)
    ensures forall k :: k != key ==> BucketOf(dir, ls, HashNew, k).entries == []
  {
    HistOfEach(dir, ls, key, seens, key);
    forall k | k != key ensures BucketOf(dir, ls, HashNew, k).entries == [] { HistOfEach(dir, ls, key, seens, k); }
    forall s | s in Buckets(dir, ls, HashNew) ensures MaskSuffices(s.bucket) {
      BucketsAre(dir, ls, HashNew);
      HistOfEach(dir, ls, key, seens, s.key);
      if s.key != key { EmptyFits(s.bucket); }
    }
  }

  /** A certificate file and hash links with printed names. */
  predicate FileAndLinks(dir: Dir, a: string, item: Item, links: map<nat, string>) {
    && GoodFile(a, item) && a in dir && dir[a] == File(Holding(item))
    && LinksThere(dir, Key(item.kind, item.hash), links)
    && NothingElse(dir, a, Key(item.kind, item.hash), links)
  }

  predicate GoodFile(a: string, item: Item) {
    && HasCertExtension(a) && item.hash < 0x1_0000_0000 && item.oldHash < 0x1_0000_0000 && item.digest != ZERO_DIGEST
  }

  predicate LinksThere(dir: Dir, key: Key, links: map<nat, string>) {
    forall m :: m in links ==> m < 65536 && Print(key, m) in dir && dir[Print(key, m)] == Link(links[m], Nothing)
  }

  predicate NothingElse(dir: Dir, a: string, key: Key, links: map<nat, string>) {
    forall name :: name in dir && name != a ==> exists m :: m in links && name == Print(key, m)
  }

  lemma {:induction false} FileAndLinksFit(dir: Dir, a: string, item: Item, links: map<nat, string>)
    requires FileAndLinks(dir, a, item, links)
    ensures HashesFit(dir)
    ensures OpsOf(dir, a, HashNew) == [Op(Key(item.kind, item.hash), FileSeen(a, item.digest))]
  {
  }

  lemma {:induction false} LinkOpsOf(dir: Dir, a: string, item: Item, links: map<nat, string>, m: nat)
    requires FileAndLinks(dir, a, item, links) && m in links
    ensures var key := Key(item.kind, item.hash); OpsOf(dir, Print(key, m), HashNew) == [Op(key, LinkSeen(links[m], m))]
  {
    ParseInvertsPrint(Key(item.kind, item.hash), m);
  }

  // ---- a link that stays ----

  /** The certificate has a link with a number that is too large: it gets a new one, and the old one
      stays for ever. */
  lemma {:induction false} FurtherLinkStays(dir: Dir, a: string, item: Item, m: nat, remove: bool)
    requires m > 0 && FileAndLinks(dir, a, item, map[m := a])
    ensures var key := Key(item.kind, item.hash);
      var d := Rehash(dir, [a, Print(key, m)], HashNew, remove);
      && Admitted(dir, [a, Print(key, m)], HashNew)
      && LinkedTo(d, Print(key, 0), a) && LinkedTo(d, Print(key, m), a)
      && !OnlyWanted(d, key, BucketOf(dir, [a, Print(key, m)], HashNew, key))
  {
    var key, ls := Key(item.kind, item.hash), [a, Print(Key(item.kind, item.hash), m)];
    var seens := [FileSeen(a, item.digest), LinkSeen(a, m)];
    FileAndLinksFit(dir, a, item, map[m := a]);
    LinkOpsOf(dir, a, item, map[m := a], m);
    FurtherRun(a, item.digest, m);
    AdmittedByBucket(dir, ls, key, seens);
    FurtherAfter(dir, ls, key, a, item.digest, m, remove);
  }

  lemma {:induction false} FurtherAfter(dir: Dir, ls: seq<string>, key: Key, a: string, digest: Digest, m: nat, remove: bool)
    requires Admitted(dir, ls, HashNew) && key.Valid() && 0 < m < 65536 && LinkedTo(dir, Print(key, m), a)
    requires var b := BucketOf(dir, ls, HashNew, key);
      b == Bucket([Entry(a, m, true, digest)], 1) && Plan(b) == [Create(0)]
    ensures var d := Rehash(dir, ls, HashNew, remove);
      && LinkedTo(d, Print(key, 0), a) && LinkedTo(d, Print(key, m), a)
      && !OnlyWanted(d, key, BucketOf(dir, ls, HashNew, key))
  {
    var b, d := BucketOf(dir, ls, HashNew, key), Rehash(dir, ls, HashNew, remove);
    CreatedStays(dir, ls, HashNew, remove, key, 0);
    RehashAt(dir, ls, HashNew, remove, key, m);
    ParseInvertsPrint(key, m);
    if Wanted(b, key, Print(key, m), a) {
      PrintInjective(key, m, key, 0);
      assert false;
    }
    assert HashLink(d, key, Print(key, m));
  }

  lemma {:induction false} FurtherRun(a: string, digest: Digest, m: nat)
    requires 0 < m < 65536 && digest != ZERO_DIGEST
    ensures var b := Run([FileSeen(a, digest), LinkSeen(a, m)]);
      b == Bucket([Entry(a, m, true, digest)], 1) && Plan(b) == [Create(0)] && MaskSuffices(b)
  {
    FurtherBucket(a, digest, m);
    OneWanting(Entry(a, m, true, digest));
  }

  lemma {:induction false} FurtherBucket(a: string, digest: Digest, m: nat)
    requires m < 65536
    ensures Run([FileSeen(a, digest), LinkSeen(a, m)]) == Bucket([Entry(a, m, true, digest)], 1)
  {
    var s, t, e := FileSeen(a, digest), LinkSeen(a, m), Entry(a, NO_ID, true, digest);
    RunSnoc([], s);
    RunSnoc([s], t);
    AddNew(EMPTY, a, digest);
    assert [] + [s] == [s] && [s] + [t] == [s, t] && [] + [e] == [e];
    Renumbered(e, m);
  }

  lemma {:induction false} Renumbered(e: Entry, m: nat)
    requires e.oldId == NO_ID && m < 65536
    ensures Add(Bucket([e], 1), LinkSeen(e.filename, m)).bucket == Bucket([e.(oldId := m)], 1)
  {
    assert FindFile([e], e.filename) == 0;
    assert [e][0 := e.(oldId := m)] == [e.(oldId := m)];
  }

  lemma {:induction false} OneWanting(e: Entry)
    requires e.needSymlink && e.oldId > 0
    ensures var b := Bucket([e], 1); Plan(b) == [Create(0)] && MaskSuffices(b)
  {
    assert Used([e], 1) == {};
    PlanCons(e, [], 1, {});
    assert [e] + [] == [e] && LeastFree({}, 0) == 0;
  }

  /** The pass over one more entry. */
  lemma {:induction false} PlanCons(e: Entry, rest: seq<Entry>, n: nat, used: set<nat>)
    ensures Assign([e] + rest, n, used) == [Decide(e, n, used)] + Assign(rest, n, Taken(e, n, used))
    ensures CountWanting([e] + rest, n) == (if Wanting(e, n) then 1 else 0) + CountWanting(rest, n)
  {
    assert ([e] + rest)[0] == e && ([e] + rest)[1..] == rest;
  }

  // ---- a link to a file that needs none ----

  /** A link below num_needed to a file that needs none stays, and holds the number that lookup opens
      first. */
  lemma {:induction false} IdleLinkStays(dir: Dir, a: string, item: Item, x: string, remove: bool)
    requires x != a && FileAndLinks(dir, a, item, map[0 := x])
    ensures var key := Key(item.kind, item.hash);
      var d := Rehash(dir, [Print(key, 0), a], HashNew, remove);
      && Admitted(dir, [Print(key, 0), a], HashNew)
      && LinkedTo(d, Print(key, 0), x) && LinkedTo(d, Print(key, 1), a)
      && !OnlyWanted(d, key, BucketOf(dir, [Print(key, 0), a], HashNew, key))
  {
    var key, ls := Key(item.kind, item.hash), [Print(Key(item.kind, item.hash), 0), a];
    var seens := [LinkSeen(x, 0), FileSeen(a, item.digest)];
    FileAndLinksFit(dir, a, item, map[0 := x]);
    LinkOpsOf(dir, a, item, map[0 := x], 0);
    IdleRun(x, a, item.digest);
    AdmittedByBucket(dir, ls, key, seens);
    IdleAfter(dir, ls, key, x, a, item.digest, remove);
  }

  lemma {:induction false} IdleAfter(dir: Dir, ls: seq<string>, key: Key, x: string, a: string, digest: Digest, remove: bool)
    requires Admitted(dir, ls, HashNew) && key.Valid() && x != a && LinkedTo(dir, Print(key, 0), x)
    requires var b := BucketOf(dir, ls, HashNew, key);
      b == Bucket([Entry(x, 0, false, ZERO_DIGEST), Entry(a, NO_ID, true, digest)], 1) && Plan(b) == [Keep(0), Create(1)]
    ensures var d := Rehash(dir, ls, HashNew, remove);
      && LinkedTo(d, Print(key, 0), x) && LinkedTo(d, Print(key, 1), a)
      && !OnlyWanted(d, key, BucketOf(dir, ls, HashNew, key))
  {
    var b, d := BucketOf(dir, ls, HashNew, key), Rehash(dir, ls, HashNew, remove);
    CreatedStays(dir, ls, HashNew, remove, key, 1);
    RehashAt(dir, ls, HashNew, remove, key, 0);
    ParseInvertsPrint(key, 0);
    assert !Wanted(b, key, Print(key, 0), x);
    assert HashLink(d, key, Print(key, 0));
  }

  lemma {:induction false} IdleRun(x: string, a: string, digest: Digest)
    requires x != a && digest != ZERO_DIGEST
    ensures var b := Run([LinkSeen(x, 0), FileSeen(a, digest)]);
      && b == Bucket([Entry(x, 0, false, ZERO_DIGEST), Entry(a, NO_ID, true, digest)], 1)
      && Plan(b) == [Keep(0), Create(1)] && MaskSuffices(b)
  {
    var s, t := LinkSeen(x, 0), FileSeen(a, digest);
    var e, f := Entry(x, 0, false, ZERO_DIGEST), Entry(a, NO_ID, true, digest);
    RunSnoc([], s);
    RunSnoc([s], t);
    AddNewLink(EMPTY, x, 0);
    assert [] + [s] == [s] && [s] + [t] == [s, t] && [] + [e] == [e] && [e] + [f] == [e, f];
    AddNew(Bucket([e], 0), a, digest);
    IdlePlan(e, f);
  }

  lemma {:induction false} IdlePlan(e: Entry, f: Entry)
    requires e.oldId == 0 && !e.needSymlink && f.oldId == NO_ID && f.needSymlink
    ensures var b := Bucket([e, f], 1); Plan(b) == [Keep(0), Create(1)] && MaskSuffices(b)
  {
    var es := [e, f];
    assert es[0].oldId == 0;
    assert Used(es, 1) == {0};
    assert LeastFree({0}, 0) == 1;
    PlanCons(f, [], 1, {0});
    PlanCons(e, [f], 1, {0});
    assert [f] + [] == [f] && [e] + [f] == es;
  }

  // ---- a new link that is removed again ----

  /** Two links, numbered 0 and 1, to files that need none, and one certificate read between them: the
      new link takes number 1, which is then removed.  The run makes no error, and the certificate
      is left without any link. */
  lemma {:induction false} NewLinkIsUndone(dir: Dir, a: string, item: Item, x: string, y: string)
    requires x != a && y != a && x != y && FileAndLinks(dir, a, item, map[0 := x, 1 := y])
    ensures var key := Key(item.kind, item.hash);
      var ls := [Print(key, 0), a, Print(key, 1)];
      var d := Rehash(dir, ls, HashNew, true);
      && Admitted(dir, ls, HashNew) && ScanErrs(dir, ls, HashNew) == 0
      && (forall name :: !LinkedTo(d, name, a))
      && At(d, a) == At(dir, a) && LinkedTo(d, Print(key, 0), x) && Print(key, 1) !in d
  {
    var key := Key(item.kind, item.hash);
    var ls := [Print(key, 0), a, Print(key, 1)];
    UndoneSetting(dir, a, item, x, y);
    UndoneAfter(dir, ls, key, x, a, y, item.digest);
    UndoneNoLink(dir, ls, a, item, x, y);
    UndoneErrs(dir, a, item, x, y);
  }

  lemma {:induction false} UndoneSetting(dir: Dir, a: string, item: Item, x: string, y: string)
    requires x != a && y != a && x != y && FileAndLinks(dir, a, item, map[0 := x, 1 := y])
    ensures var key := Key(item.kind, item.hash);
      var ls := [Print(key, 0), a, Print(key, 1)];
      && Admitted(dir, ls, HashNew) && LinkedTo(dir, Print(key, 0), x)
      && UndoneBucket(BucketOf(dir, ls, HashNew, key), x, a, y, item.digest)
      && forall k :: k != key ==> BucketOf(dir, ls, HashNew, k).entries == []
  {
    var key := Key(item.kind, item.hash);
    UndoneOps(dir, a, item, x, y);
    UndoneRun(x, a, y, item.digest);
    AdmittedByBucket(dir, [Print(key, 0), a, Print(key, 1)], key, [LinkSeen(x, 0), FileSeen(a, item.digest), LinkSeen(y, 1)]);
  }

  lemma {:induction false} UndoneOps(dir: Dir, a: string, item: Item, x: string, y: string)
    requires FileAndLinks(dir, a, item, map[0 := x, 1 := y])
    ensures var key := Key(item.kind, item.hash);
      && HashesFit(dir) && LinkedTo(dir, Print(key, 0), x)
      && OneOpEach(dir, [Print(key, 0), a, Print(key, 1)], key, [LinkSeen(x, 0), FileSeen(a, item.digest), LinkSeen(y, 1)])
  {
    var links := map[0 := x, 1 := y];
    FileAndLinksFit(dir, a, item, links);
    LinkOpsOf(dir, a, item, links, 0);
    LinkOpsOf(dir, a, item, links, 1);
    assert 0 in links && links[0] == x;
  }

  /** Only the next run makes the link: the first run's result is no fixed point. */
  lemma {:induction false} UndoneIsMadeNext(dir: Dir, a: string, item: Item, x: string, y: string)
    requires x != a && y != a && x != y && FileAndLinks(dir, a, item, map[0 := x, 1 := y])
    ensures var key := Key(item.kind, item.hash);
      var d := Rehash(dir, [Print(key, 0), a, Print(key, 1)], HashNew, true);
      Print(key, 1) !in d && LinkedTo(Rehash(d, [Print(key, 0), a], HashNew, true), Print(key, 1), a)
  {
    NewLinkIsUndone(dir, a, item, x, y);
    UndoneLeaves(dir, a, item, x, y);
    IdleLinkStays(Rehash(dir, [Print(Key(item.kind, item.hash), 0), a, Print(Key(item.kind, item.hash), 1)], HashNew, true), a, item, x, true);
  }

  lemma {:induction false} UndoneLeaves(dir: Dir, a: string, item: Item, x: string, y: string)
    requires x != a && y != a && x != y && FileAndLinks(dir, a, item, map[0 := x, 1 := y])
    ensures var key := Key(item.kind, item.hash);
      FileAndLinks(Rehash(dir, [Print(key, 0), a, Print(key, 1)], HashNew, true), a, item, map[0 := x])
  {
    var key := Key(item.kind, item.hash);
    var ls := [Print(key, 0), a, Print(key, 1)];
    var d := Rehash(dir, ls, HashNew, true);
    UndoneSetting(dir, a, item, x, y);
    UndoneAfter(dir, ls, key, x, a, y, item.digest);
    UndoneNoLink(dir, ls, a, item, x, y);
    UndoneName(dir, ls, item, x, a, y, Print(key, 0));
    forall name ensures At(d, name) == At(dir, name) || At(d, name) == None { UndoneName(dir, ls, item, x, a, y, name); }
    OneLess(dir, d, a, key, x, y);
    assert LinksThere(d, key, map[0 := x]);
  }

  lemma {:induction false} OneLess(dir: Dir, d: Dir, a: string, key: Key, x: string, y: string)
    requires NothingElse(dir, a, key, map[0 := x, 1 := y]) && Print(key, 1) !in d
    requires forall name :: At(d, name) == At(dir, name) || At(d, name) == None
    ensures NothingElse(d, a, key, map[0 := x])
  {
    forall name | name in d && name != a ensures exists m :: m in map[0 := x] && name == Print(key, m) {
      assert At(d, name) == At(dir, name) || At(d, name) == None;
      var m :| m in map[0 := x, 1 := y] && name == Print(key, m);
      assert 0 in map[0 := x];
    }
  }

  /** Such a directory. */
  lemma {:induction false} UndoneDirectory(a: string, item: Item, x: string, y: string) returns (dir: Dir)
    requires HasCertExtension(a) && item.hash < 0x1_0000_0000 && item.oldHash < 0x1_0000_0000 && item.digest != ZERO_DIGEST
    ensures var key := Key(item.kind, item.hash);
      dir == map[a := File(Holding(item)), Print(key, 0) := Link(x, Nothing), Print(key, 1) := Link(y, Nothing)]
    ensures FileAndLinks(dir, a, item, map[0 := x, 1 := y])
  {
    var key := Key(item.kind, item.hash);
    dir := map[a := File(Holding(item)), Print(key, 0) := Link(x, Nothing), Print(key, 1) := Link(y, Nothing)];
    ParseInvertsPrint(key, 0);
    ParseInvertsPrint(key, 1);
    LinkNamesAreNotFiles(Print(key, 0));
    LinkNamesAreNotFiles(Print(key, 1));
    ThreeNames(dir, a, Print(key, 0), Print(key, 1), File(Holding(item)), Link(x, Nothing), Link(y, Nothing));
    TwoNumbers(dir, a, key, x, y);
    TwoLinksThere(dir, key, x, y);
  }

  lemma {:induction false} TwoLinksThere(dir: Dir, key: Key, x: string, y: string)
    requires Print(key, 0) in dir && dir[Print(key, 0)] == Link(x, Nothing)
    requires Print(key, 1) in dir && dir[Print(key, 1)] == Link(y, Nothing)
    ensures LinksThere(dir, key, map[0 := x, 1 := y])
  {
  }

  lemma {:induction false} ThreeNames(dir: Dir, a: string, p: string, q: string, m: Node, n: Node, o: Node)
    requires a != p && a != q && p != q && dir == map[a := m, p := n, q := o]
    ensures a in dir && dir[a] == m && p in dir && dir[p] == n && q in dir && dir[q] == o
    ensures forall name :: name in dir && name != a ==> name == p || name == q
  {
  }

  lemma {:induction false} TwoNumbers(dir: Dir, a: string, key: Key, x: string, y: string)
    requires forall name :: name in dir && name != a ==> name == Print(key, 0) || name == Print(key, 1)
    ensures NothingElse(dir, a, key, map[0 := x, 1 := y])
  {
    var links := map[0 := x, 1 := y];
    assert 0 in links && 1 in links;
  }

  ghost predicate UndoneBucket(b: Bucket, x: string, a: string, y: string, digest: Digest) {
    && b == Bucket([Entry(x, 0, false, ZERO_DIGEST), Entry(a, NO_ID, true, digest), Entry(y, 1, false, ZERO_DIGEST)], 1)
    && Plan(b) == [Keep(0), Create(1), Drop(1)]
  }

  lemma {:induction false} UndoneAfter(dir: Dir, ls: seq<string>, key: Key, x: string, a: string, y: string, digest: Digest)
    requires Admitted(dir, ls, HashNew) && key.Valid() && LinkedTo(dir, Print(key, 0), x)
    requires UndoneBucket(BucketOf(dir, ls, HashNew, key), x, a, y, digest)
    ensures var d := Rehash(dir, ls, HashNew, true); LinkedTo(d, Print(key, 0), x) && Print(key, 1) !in d
  {
    var b := BucketOf(dir, ls, HashNew, key);
    CreatedStays(dir, ls, HashNew, true, key, 1);
    assert Plan(b)[2] == Drop(Plan(b)[1].id) && UndoneAt(Plan(b), 1, true);
    RehashAt(dir, ls, HashNew, true, key, 0);
  }

  lemma {:induction false} UndoneNoLink(dir: Dir, ls: seq<string>, a: string, item: Item, x: string, y: string)
    requires x != a && y != a && FileAndLinks(dir, a, item, map[0 := x, 1 := y])
    requires Admitted(dir, ls, HashNew)
    requires UndoneBucket(BucketOf(dir, ls, HashNew, Key(item.kind, item.hash)), x, a, y, item.digest)
    requires forall k :: k != Key(item.kind, item.hash) ==> BucketOf(dir, ls, HashNew, k).entries == []
    ensures var d := Rehash(dir, ls, HashNew, true); (forall name :: !LinkedTo(d, name, a)) && At(d, a) == At(dir, a)
  {
    var d := Rehash(dir, ls, HashNew, true);
    forall name ensures !LinkedTo(d, name, a) {
      UndoneName(dir, ls, item, x, a, y, name);
      NoLinkTo(dir, a, item, x, y, name);
    }
    if Parse(a).Some? { LinkNamesAreNotFiles(a); }
    NameAfterRun(dir, ls, HashNew, true, a);
  }

  lemma {:induction false} NoLinkTo(dir: Dir, a: string, item: Item, x: string, y: string, name: string)
    requires x != a && y != a && FileAndLinks(dir, a, item, map[0 := x, 1 := y])
    ensures !LinkedTo(dir, name, a)
  {
    if name in dir && name != a {
      var m :| m in map[0 := x, 1 := y] && name == Print(Key(item.kind, item.hash), m);
      assert dir[name] == Link(map[0 := x, 1 := y][m], Nothing);
    }
  }

  lemma {:induction false} UndoneName(dir: Dir, ls: seq<string>, item: Item, x: string, a: string, y: string, name: string)
    requires Admitted(dir, ls, HashNew)
    requires UndoneBucket(BucketOf(dir, ls, HashNew, Key(item.kind, item.hash)), x, a, y, item.digest)
    requires forall k :: k != Key(item.kind, item.hash) ==> BucketOf(dir, ls, HashNew, k).entries == []
    ensures var d := Rehash(dir, ls, HashNew, true); At(d, name) == At(dir, name) || At(d, name) == None
  {
    NameAfterRun(dir, ls, HashNew, true, name);
    if Parse(name).Some? && Parse(name).value.key == Key(item.kind, item.hash) {
      UndoneTouch(BucketOf(dir, ls, HashNew, Key(item.kind, item.hash)), x, a, y, item.digest, Parse(name).value.id);
    }
  }

  lemma {:induction false} UndoneTouch(b: Bucket, x: string, a: string, y: string, digest: Digest, id: nat)
    requires UndoneBucket(b, x, a, y, digest)
    ensures LastTouch(Plan(b), id, true, 3) == if id == 1 then 2 else -1
  {
    var acts := Plan(b);
    assert acts[0] == Keep(0) && acts[1] == Create(1) && acts[2] == Drop(1);
    assert Touches(acts[2], 1, true);
  }

  lemma {:induction false} UndoneRun(x: string, a: string, y: string, digest: Digest)
    requires x != a && y != a && x != y && digest != ZERO_DIGEST
    ensures var b := Run([LinkSeen(x, 0), FileSeen(a, digest), LinkSeen(y, 1)]);
      UndoneBucket(b, x, a, y, digest) && MaskSuffices(b)
  {
    var s, t, u := LinkSeen(x, 0), FileSeen(a, digest), LinkSeen(y, 1);
    var e, f, g := Entry(x, 0, false, ZERO_DIGEST), Entry(a, NO_ID, true, digest), Entry(y, 1, false, ZERO_DIGEST);
    IdleRun(x, a, digest);
    RunSnoc([s, t], u);
    assert [s, t] + [u] == [s, t, u] && [e, f] + [g] == [e, f, g];
    AddNewLink(Bucket([e, f], 1), y, 1);
    UndonePlan(e, f, g);
  }

  lemma {:induction false} UndonePlan(e: Entry, f: Entry, g: Entry)
    requires e.oldId == 0 && !e.needSymlink && f.oldId == NO_ID && f.needSymlink && g.oldId == 1 && !g.needSymlink
    ensures var b := Bucket([e, f, g], 1); Plan(b) == [Keep(0), Create(1), Drop(1)] && MaskSuffices(b)
  {
    var es := [e, f, g];
    assert es[0].oldId == 0;
    assert Used(es, 1) == {0};
    assert LeastFree({0}, 0) == 1;
    PlanCons(g, [], 1, {0} + {1});
    PlanCons(f, [g], 1, {0});
    PlanCons(e, [f, g], 1, {0});
    assert [g] + [] == [g] && [f] + [g] == [f, g] && [e] + [f, g] == es;
  }

  /** An entry is refused only when the bucket is full. */
  lemma {:induction false} NoErrs(ops: seq<Op>, op: Op)
    requires Run(HistOf(ops, op.key)).numNeeded < MAX_COLLISIONS
    ensures ErrsOf(TableRun(ops), op) == 0
  {
    TableRefinesMap(ops, op.key);
  }

  lemma {:induction false} NoFurtherErrs(dir: Dir, ls: seq<string>, name: string)
    requires ScanErrs(dir, ls, HashNew) == 0 && NameErrs(dir, name, HashNew, Ops(dir, ls, HashNew)) == 0
    ensures ScanErrs(dir, ls + [name], HashNew) == 0
  {
    Snoc(ls, name);
  }

  lemma {:induction false} LinkHasNoErrs(dir: Dir, name: string, ops: seq<Op>)
    requires Parse(name).Some?
    ensures NameErrs(dir, name, HashNew, ops) == 0
  {
    LinkNamesAreNotFiles(name);
  }

  lemma {:induction false} FileHasNoErrs(dir: Dir, a: string, item: Item, ops: seq<Op>)
    requires a in dir && dir[a] == File(Holding(item))
    requires Run(HistOf(ops, Key(item.kind, item.hash))).numNeeded < MAX_COLLISIONS
    ensures NameErrs(dir, a, HashNew, ops) == 0
  {
    var op := Op(Key(item.kind, item.hash), FileSeen(a, item.digest));
    NoErrs(ops, op);
    assert FileOps(a, item, HashNew) == [op] && [op][1..] == [];
    assert FileErrs([op], ops) == ErrsOf(TableRun(ops), op) + FileErrs([], ops + [op]);
  }

  lemma {:induction false} UndoneErrs(dir: Dir, a: string, item: Item, x: string, y: string)
    requires FileAndLinks(dir, a, item, map[0 := x, 1 := y])
    ensures var key := Key(item.kind, item.hash); ScanErrs(dir, [Print(key, 0), a, Print(key, 1)], HashNew) == 0
  {
    var key := Key(item.kind, item.hash);
    ParseInvertsPrint(key, 0);
    ParseInvertsPrint(key, 1);
    OneLinkRun(dir, a, item, x, y);
    ThreeNoErrs(dir, Print(key, 0), a, Print(key, 1), item);
  }

  lemma {:induction false} ThreeNoErrs(dir: Dir, p: string, a: string, q: string, item: Item)
    requires Parse(p).Some? && Parse(q).Some? && a in dir && dir[a] == File(Holding(item))
    requires Run(Hist(dir, [p], HashNew, Key(item.kind, item.hash))).numNeeded == 0
    ensures ScanErrs(dir, [p, a, q], HashNew) == 0
  {
    LinkHasNoErrs(dir, p, []);
    FirstNoErrs(dir, p);
    FileHasNoErrs(dir, a, item, Ops(dir, [p], HashNew));
    NoFurtherErrs(dir, [p], a);
    LinkHasNoErrs(dir, q, Ops(dir, [p] + [a], HashNew));
    NoFurtherErrs(dir, [p] + [a], q);
    assert [p] + [a] + [q] == [p, a, q];
  }

  lemma {:induction false} FirstNoErrs(dir: Dir, name: string)
    requires NameErrs(dir, name, HashNew, []) == 0
    ensures ScanErrs(dir, [name], HashNew) == 0
  {
    assert [name][..0] == [];
  }

  lemma {:induction false} OneLinkRun(dir: Dir, a: string, item: Item, x: string, y: string)
    requires FileAndLinks(dir, a, item, map[0 := x, 1 := y])
    ensures var key := Key(item.kind, item.hash); Run(Hist(dir, [Print(key, 0)], HashNew, key)).numNeeded == 0
  {
    var key := Key(item.kind, item.hash);
    LinkOpsOf(dir, a, item, map[0 := x, 1 := y], 0);
    HistOfEach(dir, [Print(key, 0)], key, [LinkSeen(x, 0)], key);
    RunSnoc([], LinkSeen(x, 0));
    AddNewLink(EMPTY, x, 0);
    assert [] + [LinkSeen(x, 0)] == [LinkSeen(x, 0)];
  }
}
