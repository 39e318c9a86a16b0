/** Running rehash again: when is the first run's result left alone? */
module RehashFixpoint {
  import opened CText
  import opened SeqFacts
  import opened RehashBucket
  import opened LinkName
  import opened LinkNumbers
  import opened RehashTable
  import opened RehashDirectory
  import opened RehashResult

  predicate Makes(s: Slot, i: nat, name: string) {
    i < |s.bucket.entries| && Plan(s.bucket)[i].Create? && name == Print(s.key, Plan(s.bucket)[i].id)
  }

  // ---- the premise ----

  ghost predicate IsListing(dir: Dir, listing: seq<string>) {
    forall name :: name in listing <==> name in dir
  }

  /** At most 256 files need a link in each bucket, and every hash link points at one of them. */
  ghost predicate LinksInUse(dir: Dir, listing: seq<string>, mode: Mode) {
    && ValidDir(dir) && IsListing(dir, listing)
    && forall key :: |Chosen(Hist(dir, listing, mode, key))| <= MAX_COLLISIONS
                  && LinksWanted(Hist(dir, listing, mode, key))
  }

  lemma {:induction false} DigestsAreReal(dir: Dir, listing: seq<string>, mode: Mode, key: Key)
    requires ValidDir(dir)
    ensures RealDigests(Hist(dir, listing, mode, key))
    ensures Hist(dir, listing, mode, key) != [] ==> key.Valid()
  {
    var h := Hist(dir, listing, mode, key);
    forall i | 0 <= i < |h| ensures key.Valid() && (h[i].FileSeen? ==> h[i].digest != ZERO_DIGEST) {
      InHist(dir, listing, mode, key, h[i]);
      var name :| name in listing && Op(key, h[i]) in OpsOf(dir, name, mode);
    }
    if h != [] { assert h[0] in h; }
  }

  /** What is known about the bucket of a key in a run where all links are in use. */
  lemma {:induction false} BucketInUse(dir: Dir, listing: seq<string>, mode: Mode, key: Key)
    requires LinksInUse(dir, listing, mode)
    ensures var h := Hist(dir, listing, mode, key);
      var b := Run(h);
      && Matches(b.entries, Chosen(h)) && Invariant(h, b)
      && b.numNeeded == |Chosen(h)| == NeededCount(b.entries)
      && (forall i :: 0 <= i < |b.entries| ==> b.entries[i].needSymlink)
      && MaskSuffices(b) && Created(Plan(b)) <= Upto(b.numNeeded)
  {
    DigestsAreReal(dir, listing, mode, key);
    NeededAreChosen(Hist(dir, listing, mode, key));
    AllEntriesNeeded(Hist(dir, listing, mode, key));
    AllNeededFit(Run(Hist(dir, listing, mode, key)));
  }

  /** Such a directory is within what do_dir can handle: no scan leaves the cleared part of the mask. */
  lemma {:induction false} MaskAlwaysSuffices(dir: Dir, listing: seq<string>, mode: Mode, s: Slot)
    requires LinksInUse(dir, listing, mode) && s in Buckets(dir, listing, mode)
    ensures MaskSuffices(s.bucket)
  {
    BucketsAre(dir, listing, mode);
    BucketInUse(dir, listing, mode, s.key);
  }

  lemma {:induction false} InUseIsAdmitted(dir: Dir, ls: seq<string>, mode: Mode)
    requires LinksInUse(dir, ls, mode)
    ensures Admitted(dir, ls, mode)
  {
    forall s | s in Buckets(dir, ls, mode) ensures MaskSuffices(s.bucket) { MaskAlwaysSuffices(dir, ls, mode, s); }
  }

  // ---- the second run ----

  /** Names that are no hash links are left alone. */
  lemma {:induction false} OthersUntouched(dir: Dir, ls: seq<string>, mode: Mode, remove: bool, name: string)
    requires LinksInUse(dir, ls, mode) && Parse(name).None?
    ensures var d := Rehash(dir, ls, mode, remove);
            (name in d <==> name in dir) && (name in d ==> d[name] == dir[name])
  {
    InUseIsAdmitted(dir, ls, mode);
    NameAfterRun(dir, ls, mode, remove, name);
  }

  /** Only a certificate name makes a file operation. */
  lemma {:induction false} FileOpName(dir: Dir, name: string, mode: Mode, op: Op)
    requires op.seen.FileSeen? && op in OpsOf(dir, name, mode)
    ensures name in dir && HasCertExtension(name) && dir[name].item.Holding?
    ensures op.seen == FileSeen(name, dir[name].item.value.digest)
  {
  }

  lemma {:induction false} SameNodeSameOps(dir: Dir, d: Dir, name: string, mode: Mode)
    requires (name in d <==> name in dir) && (name in d ==> d[name] == dir[name])
    ensures OpsOf(dir, name, mode) == OpsOf(d, name, mode)
  {
  }

  lemma {:induction false} FileOpsSame(dir: Dir, ls: seq<string>, mode: Mode, remove: bool, name: string, op: Op)
    requires LinksInUse(dir, ls, mode) && op.seen.FileSeen?
    ensures op in OpsOf(dir, name, mode) <==> op in OpsOf(Rehash(dir, ls, mode, remove), name, mode)
    ensures op in OpsOf(dir, name, mode) ==> name in dir && name in Rehash(dir, ls, mode, remove)
  {
    var d := Rehash(dir, ls, mode, remove);
    if op in OpsOf(dir, name, mode) { FileOpName(dir, name, mode, op); }
    if op in OpsOf(d, name, mode) { FileOpName(d, name, mode, op); }
    if HasCertExtension(name) {
      CertFileUntouched(dir, ls, mode, remove, name);
      SameNodeSameOps(dir, d, name, mode);
    }
  }

  /** Both runs see the same certificate and CRL files. */
  lemma {:induction false} SameFilesSeen(dir: Dir, ls: seq<string>, mode: Mode, remove: bool, ls': seq<string>,
                                         key: Key, f: string, digest: Digest)
    requires LinksInUse(dir, ls, mode) && IsListing(Rehash(dir, ls, mode, remove), ls')
    ensures FileSeen(f, digest) in Hist(dir, ls, mode, key)
            <==> FileSeen(f, digest) in Hist(Rehash(dir, ls, mode, remove), ls', mode, key)
  {
    var d, op := Rehash(dir, ls, mode, remove), Op(key, FileSeen(f, digest));
    InHist(dir, ls, mode, key, op.seen);
    InHist(d, ls', mode, key, op.seen);
    forall name ensures op in OpsOf(dir, name, mode) <==> op in OpsOf(d, name, mode) {
      FileOpsSame(dir, ls, mode, remove, name, op);
    }
    if name :| name in ls && op in OpsOf(dir, name, mode) {
      FileOpsSame(dir, ls, mode, remove, name, op);
      assert name in ls' && op in OpsOf(d, name, mode);
    }
    if name :| name in ls' && op in OpsOf(d, name, mode) {
      FileOpsSame(dir, ls, mode, remove, name, op);
      assert name in ls && op in OpsOf(dir, name, mode);
    }
  }

  /** Nothing is removed where every entry is needed. */
  lemma {:induction false} NoneDropped(b: Bucket, i: nat)
    requires i < |b.entries| && b.entries[i].needSymlink
    ensures !Plan(b)[i].Drop?
  {
    ActionOf(b.entries, b.numNeeded, Used(b.entries, b.numNeeded), i);
  }

  lemma {:induction false} MadeTarget(dir: Dir, ls: seq<string>, mode: Mode, remove: bool, s: Slot, i: nat, name: string)
    requires LinksInUse(dir, ls, mode) && s in Buckets(dir, ls, mode) && Makes(s, i, name)
    ensures var d := Rehash(dir, ls, mode, remove);
      && Parse(name) == Some(Parsed(s.key, Plan(s.bucket)[i].id))
      && name in d && d[name] == Link(s.bucket.entries[i].filename, Nothing)
  {
    var b := s.bucket;
    BucketsAre(dir, ls, mode);
    BucketInUse(dir, ls, mode, s.key);
    InUseIsAdmitted(dir, ls, mode);
    PlanIdsFit(dir, ls, mode, s.key, i);
    ParseInvertsPrint(s.key, Plan(b)[i].id);
    forall j | 0 <= j < |b.entries| ensures !Plan(b)[j].Drop? { NoneDropped(b, j); }
    CreatedStays(dir, ls, mode, remove, s.key, i);
  }

  lemma {:induction false} NotMade(dir: Dir, ls: seq<string>, mode: Mode, remove: bool, name: string)
    requires LinksInUse(dir, ls, mode)
    requires forall s :: s in Buckets(dir, ls, mode) ==> forall i :: 0 <= i < |s.bucket.entries| ==> !Makes(s, i, name)
    ensures var d := Rehash(dir, ls, mode, remove);
            (name in d <==> name in dir) && (name in d ==> d[name] == dir[name])
  {
    forall s | s in Buckets(dir, ls, mode) ensures !SlotNames(s, remove, name) {
      BucketsAre(dir, ls, mode);
      BucketInUse(dir, ls, mode, s.key);
      forall i | 0 <= i < |s.bucket.entries| ensures !Names(s.key, Plan(s.bucket)[i], remove, name) {
        NoneDropped(s.bucket, i);
        assert !Makes(s, i, name);
      }
    }
    SlotsElsewhere(dir, Buckets(dir, ls, mode), remove, name);
  }

  lemma {:induction false} MadePointsAtPick(dir: Dir, ls: seq<string>, mode: Mode, s: Slot, i: nat)
    requires LinksInUse(dir, ls, mode) && s in Buckets(dir, ls, mode) && i < |s.bucket.entries|
    ensures PicksFile(Chosen(Hist(dir, ls, mode, s.key)), s.bucket.entries[i].filename)
  {
    BucketsAre(dir, ls, mode);
    BucketInUse(dir, ls, mode, s.key);
    NeededIsPicked(s.bucket.entries, Chosen(Hist(dir, ls, mode, s.key)), i);
  }

  lemma {:induction false} OldPointsAtPick(dir: Dir, ls: seq<string>, mode: Mode, name: string, op: Op)
    requires LinksInUse(dir, ls, mode) && op.seen.LinkSeen? && op in OpsOf(dir, name, mode)
    ensures PicksFile(Chosen(Hist(dir, ls, mode, op.key)), op.seen.filename)
  {
    var h := Hist(dir, ls, mode, op.key);
    LinkOpOf(dir, name, mode, op);
    InHist(dir, ls, mode, op.key, op.seen);
    var j :| 0 <= j < |h| && h[j] == op.seen;
    assert LinksWanted(h);
  }

  /** After a run every hash link points at a file that needed it. */
  lemma {:induction false} LinksPointAtPicks(dir: Dir, ls: seq<string>, mode: Mode, remove: bool, ls': seq<string>,
                                             key: Key, f: string, id: nat)
    requires LinksInUse(dir, ls, mode) && IsListing(Rehash(dir, ls, mode, remove), ls')
    requires LinkSeen(f, id) in Hist(Rehash(dir, ls, mode, remove), ls', mode, key)
    ensures PicksFile(Chosen(Hist(dir, ls, mode, key)), f)
  {
    var d, op := Rehash(dir, ls, mode, remove), Op(key, LinkSeen(f, id));
    InHist(d, ls', mode, key, op.seen);
    var name :| name in ls' && op in OpsOf(d, name, mode);
    LinkPointsAtPick(dir, ls, mode, remove, name, op);
  }

  lemma {:induction false} LinkPointsAtPick(dir: Dir, ls: seq<string>, mode: Mode, remove: bool, name: string, op: Op)
    requires LinksInUse(dir, ls, mode) && op.seen.LinkSeen? && op in OpsOf(Rehash(dir, ls, mode, remove), name, mode)
    ensures PicksFile(Chosen(Hist(dir, ls, mode, op.key)), op.seen.filename)
  {
    LinkOpOf(Rehash(dir, ls, mode, remove), name, mode, op);
    if s, i :| s in Buckets(dir, ls, mode) && 0 <= i < |s.bucket.entries| && Makes(s, i, name) {
      MadeTarget(dir, ls, mode, remove, s, i, name);
      MadePointsAtPick(dir, ls, mode, s, i);
    } else {
      NotMade(dir, ls, mode, remove, name);
      LinkOpOf(dir, name, mode, op);
      OldPointsAtPick(dir, ls, mode, name, op);
    }
  }

  /** After a run every file that needed a link has one with a number below their count. */
  lemma {:induction false} PicksAreLinked(dir: Dir, ls: seq<string>, mode: Mode, remove: bool, ls': seq<string>,
                                          key: Key, p: Pick) returns (id: nat)
    requires LinksInUse(dir, ls, mode) && IsListing(Rehash(dir, ls, mode, remove), ls')
    requires p in Chosen(Hist(dir, ls, mode, key))
    ensures id < |Chosen(Hist(dir, ls, mode, key))|
    ensures LinkSeen(p.filename, id) in Hist(Rehash(dir, ls, mode, remove), ls', mode, key)
  {
    var d, h := Rehash(dir, ls, mode, remove), Hist(dir, ls, mode, key);
    var b := Run(h);
    BucketInUse(dir, ls, mode, key);
    assert Carries(b.entries, p);
    var k := FindFile(b.entries, p.filename);
    var s := Slot(key, b);
    BucketListed(dir, ls, mode, key);
    ActionOf(b.entries, b.numNeeded, Used(b.entries, b.numNeeded), k);
    id := Plan(b)[k].id;
    var op := Op(key, LinkSeen(p.filename, id));
    var name: string;
    if b.entries[k].oldId < b.numNeeded {
      InUseIsAdmitted(dir, ls, mode);
      name := KeptName(dir, ls, mode, remove, key, k);
    } else {
      name := Print(key, id);
      assert Makes(s, k, name);
      MadeTarget(dir, ls, mode, remove, s, k, name);
      assert id in Created(Plan(b));
    }
    LinkOpOf(d, name, mode, op);
    InHist(d, ls', mode, key, op.seen);
  }

  // ---- counting picks ----

  function PickNames(c: seq<Pick>): set<string> { set i | 0 <= i < |c| :: c[i].filename }

  function PickDigests(c: seq<Pick>): set<Digest> { set i | 0 <= i < |c| :: c[i].digest }

  lemma {:induction false} ImageSnoc(c: seq<Pick>, p: Pick)
    ensures PickNames(c + [p]) == PickNames(c) + {p.filename}
    ensures PickDigests(c + [p]) == PickDigests(c) + {p.digest}
  {
    var c' := c + [p];
    assert forall i :: 0 <= i < |c| ==> c'[i] == c[i];
    assert c'[|c|] == p;
  }

  lemma {:induction false} PicksDistinct(h: seq<Seen>)
    ensures |PickNames(Chosen(h))| == |Chosen(h)| == |PickDigests(Chosen(h))|
  {
    if h != [] {
      var front, s := h[..|h| - 1], h[|h| - 1];
      PicksDistinct(front);
      var c := Chosen(front);
      if s.FileSeen? && !PicksFile(c, s.filename) && !PicksDigest(c, s.digest) {
        ImageSnoc(c, Pick(s.filename, s.digest));
      }
    }
  }

  predicate OneDigestPerFile(h: seq<Seen>) {
    forall i, j :: 0 <= i < |h| && 0 <= j < |h| && h[i].FileSeen? && h[j].FileSeen? && h[i].filename == h[j].filename
                   ==> h[i].digest == h[j].digest
  }

  /** Every digest seen is picked once: nothing is left without a link. */
  lemma {:induction false} EveryDigestPicked(h: seq<Seen>)
    requires OneDigestPerFile(h)
    ensures forall p :: p in Chosen(h) ==> FileSeen(p.filename, p.digest) in h
    ensures forall i :: 0 <= i < |h| && h[i].FileSeen? ==> h[i].digest in PickDigests(Chosen(h))
  {
    if h != [] {
      var front, s := h[..|h| - 1], h[|h| - 1];
      EveryDigestPicked(front);
      FrontLast(h);
      if s.FileSeen? {
        ImageSnoc(Chosen(front), Pick(s.filename, s.digest));
        if PicksFile(Chosen(front), s.filename) { SameFileSameDigest(h, Chosen(front)); }
      }
    }
  }

  lemma {:induction false} SameFileSameDigest(h: seq<Seen>, c: seq<Pick>)
    requires OneDigestPerFile(h) && h != [] && h[|h| - 1].FileSeen? && PicksFile(c, h[|h| - 1].filename)
    requires forall p :: p in c ==> FileSeen(p.filename, p.digest) in h[..|h| - 1]
    ensures h[|h| - 1].digest in PickDigests(c)
  {
    var s := h[|h| - 1];
    var i :| 0 <= i < |c| && c[i].filename == s.filename;
    assert c[i] in c;
    var j :| 0 <= j < |h| - 1 && h[j] == FileSeen(c[i].filename, c[i].digest);
    assert c[i].digest == s.digest;
  }

  lemma {:induction false} HistOneDigest(dir: Dir, ls: seq<string>, mode: Mode, key: Key)
    ensures OneDigestPerFile(Hist(dir, ls, mode, key))
  {
    var h := Hist(dir, ls, mode, key);
    forall i | 0 <= i < |h| && h[i].FileSeen?
      ensures h[i].filename in dir && dir[h[i].filename].item.Holding?
           && h[i].digest == dir[h[i].filename].item.value.digest
    {
      assert FileSeen(h[i].filename, h[i].digest) in h;
      SeenFromDir(dir, ls, mode, key, h[i].filename, h[i].digest);
    }
  }

  lemma {:induction false} PickDigestsAre(h: seq<Seen>, digest: Digest)
    requires OneDigestPerFile(h)
    ensures digest in PickDigests(Chosen(h)) <==> exists f :: FileSeen(f, digest) in h
  {
    EveryDigestPicked(h);
    if digest in PickDigests(Chosen(h)) {
      var i :| 0 <= i < |Chosen(h)| && Chosen(h)[i].digest == digest;
      assert Chosen(h)[i] in Chosen(h);
    }
  }

  /** Whatever the order of the listings, both runs pick equally many files. */
  lemma {:induction false} SameCount(dir: Dir, ls: seq<string>, mode: Mode, remove: bool, ls': seq<string>, key: Key)
    requires LinksInUse(dir, ls, mode) && IsListing(Rehash(dir, ls, mode, remove), ls')
    ensures |Chosen(Hist(dir, ls, mode, key))| == |Chosen(Hist(Rehash(dir, ls, mode, remove), ls', mode, key))|
  {
    var d := Rehash(dir, ls, mode, remove);
    var h, h' := Hist(dir, ls, mode, key), Hist(d, ls', mode, key);
    HistOneDigest(dir, ls, mode, key);
    HistOneDigest(d, ls', mode, key);
    forall digest ensures digest in PickDigests(Chosen(h)) <==> digest in PickDigests(Chosen(h')) {
      PickDigestsAre(h, digest);
      PickDigestsAre(h', digest);
      forall f ensures FileSeen(f, digest) in h <==> FileSeen(f, digest) in h' {
        SameFilesSeen(dir, ls, mode, remove, ls', key, f, digest);
      }
    }
    assert PickDigests(Chosen(h)) == PickDigests(Chosen(h'));
    PicksDistinct(h);
    PicksDistinct(h');
  }

  // ---- the fixed point ----

  /** Among files with the same contents both runs give the link to the same one. */
  ghost predicate SamePicks(dir: Dir, ls: seq<string>, dir': Dir, ls': seq<string>, mode: Mode) {
    forall key :: PickNames(Chosen(Hist(dir, ls, mode, key))) == PickNames(Chosen(Hist(dir', ls', mode, key)))
  }

  /** A run that creates and removes no link. */
  ghost predicate Quiet(dir: Dir, ls: seq<string>, mode: Mode) {
    forall s, i :: s in Buckets(dir, ls, mode) && 0 <= i < |s.bucket.entries| ==> Plan(s.bucket)[i].Keep?
  }

  lemma {:induction false} ResultIsValid(dir: Dir, ls: seq<string>, mode: Mode, remove: bool)
    requires LinksInUse(dir, ls, mode)
    ensures ValidDir(Rehash(dir, ls, mode, remove))
  {
    var d := Rehash(dir, ls, mode, remove);
    forall name | name in d && d[name].item.Holding?
      ensures name in dir && d[name] == dir[name]
    {
      if s, i :| s in Buckets(dir, ls, mode) && 0 <= i < |s.bucket.entries| && Makes(s, i, name) {
        MadeTarget(dir, ls, mode, remove, s, i, name);
      } else {
        NotMade(dir, ls, mode, remove, name);
      }
    }
  }

  lemma {:induction false} InNames(c: seq<Pick>, f: string)
    ensures f in PickNames(c) <==> PicksFile(c, f)
  {
  }

  /** With the same picks, every entry of the second run has a number below the count. */
  lemma {:induction false} KeepsAll(dir: Dir, ls: seq<string>, mode: Mode, remove: bool, ls': seq<string>, key: Key, i: nat)
    requires LinksInUse(dir, ls, mode) && IsListing(Rehash(dir, ls, mode, remove), ls')
    requires PickNames(Chosen(Hist(dir, ls, mode, key)))
          == PickNames(Chosen(Hist(Rehash(dir, ls, mode, remove), ls', mode, key)))
    requires i < |Run(Hist(Rehash(dir, ls, mode, remove), ls', mode, key)).entries|
    ensures Plan(Run(Hist(Rehash(dir, ls, mode, remove), ls', mode, key)))[i].Keep?
  {
    var d := Rehash(dir, ls, mode, remove);
    var h, h' := Hist(dir, ls, mode, key), Hist(d, ls', mode, key);
    var b := Run(h');
    ResultIsValid(dir, ls, mode, remove);
    DigestsAreReal(d, ls', mode, key);
    SameCount(dir, ls, mode, remove, ls', key);
    NeededAreChosen(h');
    forall j | 0 <= j < |h'| && h'[j].LinkSeen? ensures PicksFile(Chosen(h'), h'[j].filename) {
      assert LinkSeen(h'[j].filename, h'[j].id) in h';
      LinksPointAtPicks(dir, ls, mode, remove, ls', key, h'[j].filename, h'[j].id);
      InNames(Chosen(h), h'[j].filename);
      InNames(Chosen(h'), h'[j].filename);
    }
    AllEntriesNeeded(h');
    var e := b.entries[i];
    assert Pick(e.filename, e.digest) in Chosen(h');
    InNames(Chosen(h'), e.filename);
    InNames(Chosen(h), e.filename);
    var p :| p in Chosen(h) && p.filename == e.filename;
    var id := PicksAreLinked(dir, ls, mode, remove, ls', key, p);
    assert e.oldId == MinId(h', e.filename) <= id;
    ActionOf(b.entries, b.numNeeded, Used(b.entries, b.numNeeded), i);
  }

  /** A newly picked file has no link, so the second run has to make one. */
  lemma {:induction false} NewPickNeedsLink(dir: Dir, ls: seq<string>, mode: Mode, remove: bool, ls': seq<string>,
                                            key: Key, f: string)
    requires LinksInUse(dir, ls, mode) && IsListing(Rehash(dir, ls, mode, remove), ls')
    requires !PicksFile(Chosen(Hist(dir, ls, mode, key)), f)
    requires PicksFile(Chosen(Hist(Rehash(dir, ls, mode, remove), ls', mode, key)), f)
    ensures !Quiet(Rehash(dir, ls, mode, remove), ls', mode)
  {
    var d := Rehash(dir, ls, mode, remove);
    var h, h' := Hist(dir, ls, mode, key), Hist(d, ls', mode, key);
    var b := Run(h');
    ResultIsValid(dir, ls, mode, remove);
    DigestsAreReal(d, ls', mode, key);
    SameCount(dir, ls, mode, remove, ls', key);
    forall id ensures LinkSeen(f, id) !in h' {
      if LinkSeen(f, id) in h' { LinksPointAtPicks(dir, ls, mode, remove, ls', key, f, id); }
    }
    var k := UnlinkedPick(h', f);
    BucketListed(d, ls', mode, key);
    assert !Plan(Slot(key, b).bucket)[k].Keep?;
  }

  /** A pick without a link is not kept. */
  lemma {:induction false} UnlinkedPick(h: seq<Seen>, f: string) returns (k: nat)
    requires RealDigests(h) && |Chosen(h)| <= MAX_COLLISIONS && PicksFile(Chosen(h), f)
    requires forall id :: LinkSeen(f, id) !in h
    ensures k < |Run(h).entries| && !Plan(Run(h))[k].Keep?
  {
    var b := Run(h);
    NeededAreChosen(h);
    var j :| 0 <= j < |Chosen(h)| && Chosen(h)[j].filename == f;
    assert Carries(b.entries, Chosen(h)[j]);
    k := FindFile(b.entries, f);
    assert b.entries[k].oldId == NO_ID;
    ActionOf(b.entries, b.numNeeded, Used(b.entries, b.numNeeded), k);
  }

  lemma {:induction false} QuietLeavesAlone(dir: Dir, slots: seq<Slot>, remove: bool)
    requires forall s, i :: s in slots && 0 <= i < |s.bucket.entries| ==> Plan(s.bucket)[i].Keep?
    ensures ApplySlots(dir, slots, remove) == dir
  {
    if slots != [] {
      var front, s := slots[..|slots| - 1], slots[|slots| - 1];
      QuietLeavesAlone(dir, front, remove);
      assert s in slots;
      KeepingLeavesAlone(dir, s, remove, |s.bucket.entries|);
    }
  }

  lemma {:induction false} KeepingLeavesAlone(dir: Dir, s: Slot, remove: bool, k: nat)
    requires k <= |s.bucket.entries| && forall i :: 0 <= i < k ==> Plan(s.bucket)[i].Keep?
    ensures ApplyPlan(dir, s.key, s.bucket.entries, Plan(s.bucket), remove, k) == dir
  {
    if k > 0 { KeepingLeavesAlone(dir, s, remove, k - 1); }
  }

  /** Equally many picks that are not the same include a new one. */
  lemma {:induction false} OtherPicksAct(dir: Dir, ls: seq<string>, mode: Mode, remove: bool, ls': seq<string>, key: Key)
    requires LinksInUse(dir, ls, mode) && IsListing(Rehash(dir, ls, mode, remove), ls')
    requires PickNames(Chosen(Hist(dir, ls, mode, key)))
          != PickNames(Chosen(Hist(Rehash(dir, ls, mode, remove), ls', mode, key)))
    ensures !Quiet(Rehash(dir, ls, mode, remove), ls', mode)
  {
    var h, h' := Hist(dir, ls, mode, key), Hist(Rehash(dir, ls, mode, remove), ls', mode, key);
    SameCount(dir, ls, mode, remove, ls', key);
    PicksDistinct(h);
    PicksDistinct(h');
    var f := NewName(PickNames(Chosen(h)), PickNames(Chosen(h')));
    InNames(Chosen(h), f);
    InNames(Chosen(h'), f);
    NewPickNeedsLink(dir, ls, mode, remove, ls', key, f);
  }

  lemma {:induction false} NewName(a: set<string>, b: set<string>) returns (f: string)
    requires |a| == |b| && a != b
    ensures f in b && f !in a
  {
    if b <= a {
      SubsetSize(b, a);
      assert false;
    }
    f :| f in b && f !in a;
  }

  /** Run over the result of a first run, rehash creates and removes nothing if and only if the
      second listing picks the same file among files of equal contents. */
  lemma {:induction false} FixedPoint(dir: Dir, ls: seq<string>, mode: Mode, remove: bool, ls': seq<string>)
    requires LinksInUse(dir, ls, mode) && IsListing(Rehash(dir, ls, mode, remove), ls')
    ensures var d := Rehash(dir, ls, mode, remove);
      && (Quiet(d, ls', mode) <==> SamePicks(dir, ls, d, ls', mode))
      && (Quiet(d, ls', mode) ==> Rehash(d, ls', mode, remove) == d)
  {
    var d := Rehash(dir, ls, mode, remove);
    if SamePicks(dir, ls, d, ls', mode) {
      BucketsAre(d, ls', mode);
      forall s, i | s in Buckets(d, ls', mode) && 0 <= i < |s.bucket.entries| ensures Plan(s.bucket)[i].Keep? {
        KeepsAll(dir, ls, mode, remove, ls', s.key, i);
      }
    } else {
      var key :| PickNames(Chosen(Hist(dir, ls, mode, key))) != PickNames(Chosen(Hist(d, ls', mode, key)));
      OtherPicksAct(dir, ls, mode, remove, ls', key);
    }
    if Quiet(d, ls', mode) { QuietLeavesAlone(d, Buckets(d, ls', mode), remove); }
  }

  /** The premise carries over to the next run as long as the picks stay the same. */
  lemma {:induction false} StaysInUse(dir: Dir, ls: seq<string>, mode: Mode, remove: bool, ls': seq<string>)
    requires LinksInUse(dir, ls, mode) && IsListing(Rehash(dir, ls, mode, remove), ls')
    requires SamePicks(dir, ls, Rehash(dir, ls, mode, remove), ls', mode)
    ensures LinksInUse(Rehash(dir, ls, mode, remove), ls', mode)
  {
    var d := Rehash(dir, ls, mode, remove);
    ResultIsValid(dir, ls, mode, remove);
    forall key ensures |Chosen(Hist(d, ls', mode, key))| <= MAX_COLLISIONS && LinksWanted(Hist(d, ls', mode, key)) {
      var h, h' := Hist(dir, ls, mode, key), Hist(d, ls', mode, key);
      SameCount(dir, ls, mode, remove, ls', key);
      forall j | 0 <= j < |h'| && h'[j].LinkSeen? ensures PicksFile(Chosen(h'), h'[j].filename) {
        assert LinkSeen(h'[j].filename, h'[j].id) in h';
        LinksPointAtPicks(dir, ls, mode, remove, ls', key, h'[j].filename, h'[j].id);
        InNames(Chosen(h), h'[j].filename);
        InNames(Chosen(h'), h'[j].filename);
      }
    }
  }

  // ---- when the listings agree ----

  function CertNames(ls: seq<string>): seq<string> {
    if ls == [] then []
    else
      var front := CertNames(ls[..|ls| - 1]);
      if HasCertExtension(ls[|ls| - 1]) then front + [ls[|ls| - 1]] else front
  }

  function FileHist(h: seq<Seen>): seq<Seen> {
    if h == [] then []
    else
      var front := FileHist(h[..|h| - 1]);
      if h[|h| - 1].FileSeen? then front + [h[|h| - 1]] else front
  }

  lemma {:induction false} ChosenFromFiles(h: seq<Seen>)
    ensures Chosen(h) == Chosen(FileHist(h))
  {
    if h != [] {
      ChosenFromFiles(h[..|h| - 1]);
      if h[|h| - 1].FileSeen? { ChosenAppend(FileHist(h[..|h| - 1]), h[|h| - 1]); }
    }
  }

  lemma {:induction false} HistOfAppend(a: seq<Op>, b: seq<Op>, key: Key)
    ensures HistOf(a + b, key) == HistOf(a, key) + HistOf(b, key)
  {
    if b == [] {
      assert a + b == a;
    } else {
      var b', op := b[..|b| - 1], b[|b| - 1];
      HistOfAppend(a, b', key);
      assert (a + b)[..|a + b| - 1] == a + b';
    }
  }

  lemma {:induction false} FileHistAppend(a: seq<Seen>, b: seq<Seen>)
    ensures FileHist(a + b) == FileHist(a) + FileHist(b)
  {
    if b == [] {
      assert a + b == a;
    } else {
      FileHistAppend(a, b[..|b| - 1]);
      assert (a + b)[..|a + b| - 1] == a + b[..|b| - 1];
    }
  }

  lemma {:induction false} LinksAreNoFiles(ops: seq<Op>, key: Key)
    requires ops == [] || (|ops| == 1 && ops[0].seen.LinkSeen?)
    ensures FileHist(HistOf(ops, key)) == []
  {
    if ops != [] {
      assert ops[..0] == [];
      assert HistOf(ops, key) == if ops[0].key == key then [ops[0].seen] else [];
      assert [ops[0].seen][..0] == [];
    }
  }

  lemma {:induction false} FilesSnoc(dir: Dir, ls: seq<string>, last: string, mode: Mode, key: Key)
    ensures FileHist(Hist(dir, ls + [last], mode, key))
         == FileHist(Hist(dir, ls, mode, key)) + FileHist(HistOf(OpsOf(dir, last, mode), key))
  {
    Snoc(ls, last);
    HistOfAppend(Ops(dir, ls, mode), OpsOf(dir, last, mode), key);
    FileHistAppend(Hist(dir, ls, mode, key), HistOf(OpsOf(dir, last, mode), key));
  }

  /** The files seen depend only on the certificate names of the listing. */
  lemma {:induction false} FilesOfListing(dir: Dir, d: Dir, ls: seq<string>, mode: Mode, key: Key)
    requires forall name :: name in ls && HasCertExtension(name) ==> OpsOf(dir, name, mode) == OpsOf(d, name, mode)
    ensures FileHist(Hist(dir, ls, mode, key)) == FileHist(Hist(d, CertNames(ls), mode, key))
  {
    if ls != [] {
      var front, last := ls[..|ls| - 1], ls[|ls| - 1];
      FilesOfListing(dir, d, front, mode, key);
      FrontLast(ls);
      FilesSnoc(dir, front, last, mode, key);
      if HasCertExtension(last) {
        assert last in ls;
        FilesSnoc(d, CertNames(front), last, mode, key);
      } else {
        LinksAreNoFiles(OpsOf(dir, last, mode), key);
        Whole(FileHist(Hist(dir, front, mode, key)));
      }
    }
  }

  /** If the second listing gives the certificate files in the order of the first, wherever the
      links come, the directory is at a fixed point. */
  lemma {:induction false} SameOrderIsFixed(dir: Dir, ls: seq<string>, mode: Mode, remove: bool, ls': seq<string>)
    requires LinksInUse(dir, ls, mode) && IsListing(Rehash(dir, ls, mode, remove), ls')
    requires CertNames(ls) == CertNames(ls')
    ensures var d := Rehash(dir, ls, mode, remove);
            Quiet(d, ls', mode) && Rehash(d, ls', mode, remove) == d
  {
    var d := Rehash(dir, ls, mode, remove);
    forall key ensures Chosen(Hist(dir, ls, mode, key)) == Chosen(Hist(d, ls', mode, key)) {
      forall name | HasCertExtension(name) ensures OpsOf(dir, name, mode) == OpsOf(d, name, mode) {
        CertFileUntouched(dir, ls, mode, remove, name);
      }
      FilesOfListing(dir, d, ls, mode, key);
      FilesOfListing(d, d, ls', mode, key);
      ChosenFromFiles(Hist(dir, ls, mode, key));
      ChosenFromFiles(Hist(d, ls', mode, key));
    }
    FixedPoint(dir, ls, mode, remove, ls');
  }

  /** No two certificate files of the directory hold the same thing. */
  predicate NoCopies(dir: Dir) {
    forall a, b :: a in dir && b in dir && a != b && dir[a].item.Holding? && dir[b].item.Holding?
                   ==> dir[a].item.value.digest != dir[b].item.value.digest
  }

  /** Without copies the order of the listings does not matter. */
  lemma {:induction false} NoCopiesIsFixed(dir: Dir, ls: seq<string>, mode: Mode, remove: bool, ls': seq<string>)
    requires LinksInUse(dir, ls, mode) && IsListing(Rehash(dir, ls, mode, remove), ls') && NoCopies(dir)
    ensures var d := Rehash(dir, ls, mode, remove);
            Quiet(d, ls', mode) && Rehash(d, ls', mode, remove) == d
  {
    var d := Rehash(dir, ls, mode, remove);
    forall key ensures PickNames(Chosen(Hist(dir, ls, mode, key))) == PickNames(Chosen(Hist(d, ls', mode, key))) {
      var h, h' := Hist(dir, ls, mode, key), Hist(d, ls', mode, key);
      forall f, g, digest | FileSeen(f, digest) in h && FileSeen(g, digest) in h ensures f == g {
        SeenFromDir(dir, ls, mode, key, f, digest);
        SeenFromDir(dir, ls, mode, key, g, digest);
      }
      forall f, digest ensures FileSeen(f, digest) in h <==> FileSeen(f, digest) in h' {
        SameFilesSeen(dir, ls, mode, remove, ls', key, f, digest);
      }
      HistOneDigest(dir, ls, mode, key);
      HistOneDigest(d, ls', mode, key);
      forall f ensures f in PickNames(Chosen(h)) <==> exists digest :: FileSeen(f, digest) in h {
        AllPicked(h, f);
      }
      forall f ensures f in PickNames(Chosen(h')) <==> exists digest :: FileSeen(f, digest) in h' {
        AllPicked(h', f);
      }
    }
    FixedPoint(dir, ls, mode, remove, ls');
  }

  lemma {:induction false} SeenFromDir(dir: Dir, ls: seq<string>, mode: Mode, key: Key, f: string, digest: Digest)
    requires FileSeen(f, digest) in Hist(dir, ls, mode, key)
    ensures f in dir && dir[f].item.Holding? && dir[f].item.value.digest == digest
  {
    InHist(dir, ls, mode, key, FileSeen(f, digest));
    var name :| name in ls && Op(key, FileSeen(f, digest)) in OpsOf(dir, name, mode);
    FileOpName(dir, name, mode, Op(key, FileSeen(f, digest)));
  }

  lemma {:induction false} AllPicked(h: seq<Seen>, f: string)
    requires OneDigestPerFile(h)
    requires forall f, g, digest :: FileSeen(f, digest) in h && FileSeen(g, digest) in h ==> f == g
    ensures f in PickNames(Chosen(h)) <==> exists digest :: FileSeen(f, digest) in h
  {
    EveryDigestPicked(h);
    var c := Chosen(h);
    if f in PickNames(c) {
      var i :| 0 <= i < |c| && c[i].filename == f;
      assert c[i] in c && FileSeen(f, c[i].digest) in h;
    }
    if digest :| FileSeen(f, digest) in h {
      var j :| 0 <= j < |h| && h[j] == FileSeen(f, digest);
      assert digest in PickDigests(c);
      var i :| 0 <= i < |c| && c[i].digest == digest;
      assert c[i] in c && FileSeen(c[i].filename, digest) in h;
      assert c[i].filename == f;
    }
  }

  // ---- copies met in another order ----

  lemma {:induction false} TwoOps(d: Dir, a: string, b: string, item: Item)
    requires HasCertExtension(a) && HasCertExtension(b)
    requires a in d && d[a] == File(Holding(item)) && b in d && d[b] == File(Holding(item))
    ensures Ops(d, [a, b], HashNew)
         == [Op(Key(item.kind, item.hash), FileSeen(a, item.digest)), Op(Key(item.kind, item.hash), FileSeen(b, item.digest))]
  {
    assert [a, b][..1] == [a] && [a][..0] == [];
    assert Ops(d, [a], HashNew) == Ops(d, [], HashNew) + OpsOf(d, a, HashNew);
  }

  lemma {:induction false} TwoHist(k: Key, s: Seen, t: Seen, key: Key)
    ensures HistOf([Op(k, s), Op(k, t)], key) == if key == k then [s, t] else []
  {
    var ops := [Op(k, s), Op(k, t)];
    assert ops[..1] == [Op(k, s)] && [Op(k, s)][..0] == [];
    assert HistOf([Op(k, s)], key) == if key == k then [s] else [];
  }

  lemma {:induction false} TwoChosen(a: string, b: string, digest: Digest)
    ensures Chosen([FileSeen(a, digest), FileSeen(b, digest)]) == [Pick(a, digest)]
  {
    var s, t := FileSeen(a, digest), FileSeen(b, digest);
    assert [s, t][..1] == [s] && [s][..0] == [];
    assert Chosen([s]) == [Pick(a, digest)];
    assert [Pick(a, digest)][0].digest == digest;
  }

  /** What is picked in a directory with just two copies of one certificate. */
  lemma {:induction false} TwoCopiesPick(d: Dir, a: string, b: string, item: Item, tail: seq<string>, key: Key)
    requires HasCertExtension(a) && HasCertExtension(b)
    requires a in d && d[a] == File(Holding(item)) && b in d && d[b] == File(Holding(item))
    requires forall name :: name in tail ==> !HasCertExtension(name)
    ensures Chosen(Hist(d, [a, b] + tail, HashNew, key))
         == if key == Key(item.kind, item.hash) then [Pick(a, item.digest)] else []
  {
    TwoCertNames(a, b, tail);
    FilesOfListing(d, d, [a, b] + tail, HashNew, key);
    TwoOps(d, a, b, item);
    TwoHist(Key(item.kind, item.hash), FileSeen(a, item.digest), FileSeen(b, item.digest), key);
    TwoChosen(a, b, item.digest);
    ChosenFromFiles(Hist(d, [a, b], HashNew, key));
    ChosenFromFiles(Hist(d, [a, b] + tail, HashNew, key));
  }

  lemma {:induction false} TwoCertNames(a: string, b: string, tail: seq<string>)
    requires HasCertExtension(a) && HasCertExtension(b)
    requires forall name :: name in tail ==> !HasCertExtension(name)
    ensures CertNames([a, b] + tail) == [a, b]
  {
    if tail == [] {
      Whole([a, b]);
      CertNamesSnoc([a], b);
      CertNamesSnoc([], a);
      assert [] + [a] == [a] && [a] + [b] == [a, b];
    } else {
      var front, last := tail[..|tail| - 1], tail[|tail| - 1];
      TwoCertNames(a, b, front);
      FrontLast(tail);
      assert last in tail;
      Assoc([a, b], front, [last]);
      CertNamesSnoc([a, b] + front, last);
    }
  }

  lemma {:induction false} CertNamesSnoc(ls: seq<string>, name: string)
    ensures CertNames(ls + [name]) == if HasCertExtension(name) then CertNames(ls) + [name] else CertNames(ls)
  {
    Snoc(ls, name);
  }

  lemma {:induction false} ListingOf(names: set<string>) returns (ls: seq<string>)
    ensures forall name :: name in ls <==> name in names
  {
    if names == {} {
      ls := [];
    } else {
      var x :| x in names;
      ls := ListingOf(names - {x});
      ls := [x] + ls;
    }
  }

  lemma {:induction false} FilesNeedNoLinks(h: seq<Seen>)
    requires h == [] || (|h| == 2 && h[0].FileSeen? && h[1].FileSeen?)
    ensures LinksWanted(h)
  {
  }

  lemma {:induction false} TwoCopiesKey(dir: Dir, a: string, b: string, item: Item, key: Key)
    requires HasCertExtension(a) && HasCertExtension(b)
    requires a in dir && dir[a] == File(Holding(item)) && b in dir && dir[b] == File(Holding(item))
    ensures |Chosen(Hist(dir, [a, b], HashNew, key))| <= 1 && LinksWanted(Hist(dir, [a, b], HashNew, key))
  {
    Whole([a, b]);
    TwoCopiesPick(dir, a, b, item, [], key);
    TwoOps(dir, a, b, item);
    TwoHist(Key(item.kind, item.hash), FileSeen(a, item.digest), FileSeen(b, item.digest), key);
    FilesNeedNoLinks(Hist(dir, [a, b], HashNew, key));
  }

  lemma {:induction false} TwoCopiesInUse(a: string, b: string, item: Item)
    requires HasCertExtension(a) && HasCertExtension(b)
    requires item.hash < 0x1_0000_0000 && item.oldHash < 0x1_0000_0000 && item.digest != ZERO_DIGEST
    ensures LinksInUse(map[a := File(Holding(item)), b := File(Holding(item))], [a, b], HashNew)
  {
    var dir := map[a := File(Holding(item)), b := File(Holding(item))];
    forall key
      ensures |Chosen(Hist(dir, [a, b], HashNew, key))| <= MAX_COLLISIONS && LinksWanted(Hist(dir, [a, b], HashNew, key))
    {
      TwoCopiesKey(dir, a, b, item, key);
    }
  }

  /** Two copies a and b of one certificate, read in the order a, b by the first run and b, a by
      the second: the second run is not quiet. */
  lemma {:induction false} SwappedCopiesAreNotFixed(a: string, b: string, item: Item, remove: bool)
    returns (tail: seq<string>)
    requires HasCertExtension(a) && HasCertExtension(b) && a != b
    requires item.hash < 0x1_0000_0000 && item.oldHash < 0x1_0000_0000 && item.digest != ZERO_DIGEST
    ensures var dir := map[a := File(Holding(item)), b := File(Holding(item))];
      var d := Rehash(dir, [a, b], HashNew, remove);
      && LinksInUse(dir, [a, b], HashNew)
      && IsListing(d, [b, a] + tail)
      && !Quiet(d, [b, a] + tail, HashNew)
  {
    var dir := map[a := File(Holding(item)), b := File(Holding(item))];
    var d := Rehash(dir, [a, b], HashNew, remove);
    TwoCopiesInUse(a, b, item);
    tail := ListingOf(d.Keys - {a, b});
    CertFileUntouched(dir, [a, b], HashNew, remove, a);
    CertFileUntouched(dir, [a, b], HashNew, remove, b);
    forall name | name in tail ensures !HasCertExtension(name) {
      if HasCertExtension(name) { CertFileUntouched(dir, [a, b], HashNew, remove, name); }
    }
    SwappedPick(dir, d, a, b, item, tail);
    NewPickNeedsLink(dir, [a, b], HashNew, remove, [b, a] + tail, Key(item.kind, item.hash), b);
  }

  lemma {:induction false} CertFileUntouched(dir: Dir, ls: seq<string>, mode: Mode, remove: bool, name: string)
    requires LinksInUse(dir, ls, mode) && HasCertExtension(name)
    ensures var d := Rehash(dir, ls, mode, remove);
            (name in d <==> name in dir) && (name in d ==> d[name] == dir[name])
  {
    if Parse(name).Some? { LinkNamesAreNotFiles(name); }
    OthersUntouched(dir, ls, mode, remove, name);
  }

  lemma {:induction false} SwappedPick(dir: Dir, d: Dir, a: string, b: string, item: Item, tail: seq<string>)
    requires HasCertExtension(a) && HasCertExtension(b) && a != b
    requires a in dir && dir[a] == File(Holding(item)) && b in dir && dir[b] == File(Holding(item))
    requires a in d && d[a] == File(Holding(item)) && b in d && d[b] == File(Holding(item))
    requires forall name :: name in tail ==> !HasCertExtension(name)
    ensures var key := Key(item.kind, item.hash);
      && !PicksFile(Chosen(Hist(dir, [a, b], HashNew, key)), b)
      && PicksFile(Chosen(Hist(d, [b, a] + tail, HashNew, key)), b)
  {
    var key := Key(item.kind, item.hash);
    assert [a, b] + [] == [a, b];
    TwoCopiesPick(dir, a, b, item, [], key);
    TwoCopiesPick(d, b, a, item, tail, key);
    assert [Pick(b, item.digest)][0].filename == b;
  }
}
