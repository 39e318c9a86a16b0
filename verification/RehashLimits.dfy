/** Directories on which the scan for a free number leaves the cleared part of the bit mask. */
module RehashLimits {
  import opened CText
  import opened SeqFacts
  import opened RehashBucket
  import opened LinkName
  import opened LinkNumbers
  import opened RehashTable
  import opened RehashDirectory
  import opened RehashResult

  /** A file of the bucket that needs a link. */
  predicate Needing(dir: Dir, key: Key, name: string) {
    && HasCertExtension(name) && name in dir && dir[name].File? && dir[name].item.Holding?
    && Key(ItemOf(dir, name).kind, ItemOf(dir, name).hash) == key
  }

  /** The files that need links: different names, different contents, one hash. */
  predicate SameHashFiles(dir: Dir, key: Key, names: seq<string>, target: string) {
    && AllNeeding(dir, key, names)
    && Apart(names, DigestsOf(dir, names), target)
  }

  predicate AllNeeding(dir: Dir, key: Key, names: seq<string>) {
    forall i :: 0 <= i < |names| ==> Needing(dir, key, names[i])
  }

  /** Different names, none of them the target, and different digests, none of them the filler. */
  predicate Apart(names: seq<string>, digests: seq<Digest>, target: string) {
    && |names| == |digests|
    && (forall i :: 0 <= i < |names| ==> names[i] != target && digests[i] != ZERO_DIGEST)
    && (forall i, j :: 0 <= i < j < |names| ==> names[i] != names[j] && digests[i] != digests[j])
  }

  function DigestsOf(dir: Dir, names: seq<string>): seq<Digest> {
    seq(|names|, i requires 0 <= i < |names| => ItemOf(dir, names[i]).digest)
  }

  function ItemOf(dir: Dir, name: string): Item {
    if name in dir && dir[name].item.Holding? then dir[name].item.value else Item(Cert, 0, 0, ZERO_DIGEST)
  }

  /** A link numbered 0 to something that needs none, met before n files. */
  function Met(target: string, names: seq<string>, digests: seq<Digest>, n: nat): seq<Seen>
    requires n <= |names| == |digests|
  {
    if n == 0 then [LinkSeen(target, 0)]
    else Met(target, names, digests, n - 1) + [FileSeen(names[n - 1], digests[n - 1])]
  }

  function LinkEntry(target: string): Entry { Entry(target, 0, false, ZERO_DIGEST) }

  /** The entries they make. */
  function Entries(target: string, names: seq<string>, digests: seq<Digest>, n: nat): seq<Entry>
    requires n <= |names| == |digests|
  {
    if n == 0 then [LinkEntry(target)]
    else Entries(target, names, digests, n - 1) + [Entry(names[n - 1], NO_ID, true, digests[n - 1])]
  }

  lemma {:induction false} EntriesAt(target: string, names: seq<string>, digests: seq<Digest>, n: nat, i: nat)
    requires i <= n <= |names| == |digests|
    ensures |Entries(target, names, digests, n)| == n + 1
    ensures Entries(target, names, digests, n)[i]
         == if i == 0 then LinkEntry(target) else Entry(names[i - 1], NO_ID, true, digests[i - 1])
  {
    if n > 0 {
      EntriesAt(target, names, digests, n - 1, if i < n then i else 0);
    }
  }

  lemma {:induction false} RunOfLink(target: string)
    ensures Run([LinkSeen(target, 0)]) == Bucket([LinkEntry(target)], 0)
  {
    RunSnoc([], LinkSeen(target, 0));
    AddNewLink(EMPTY, target, 0);
    assert [] + [LinkSeen(target, 0)] == [LinkSeen(target, 0)];
    assert [] + [LinkEntry(target)] == [LinkEntry(target)];
  }

  lemma {:induction false} RunNew(h: seq<Seen>, b: Bucket, f: string, d: Digest)
    requires Run(h) == b && b.numNeeded < MAX_COLLISIONS
    requires forall i :: 0 <= i < |b.entries| ==> b.entries[i].filename != f && b.entries[i].digest != d
    ensures Run(h + [FileSeen(f, d)]) == Bucket(b.entries + [Entry(f, NO_ID, true, d)], b.numNeeded + 1)
  {
    RunSnoc(h, FileSeen(f, d));
    AddNew(b, f, d);
  }

  lemma {:induction false} RunOfMet(target: string, names: seq<string>, digests: seq<Digest>, n: nat)
    requires Apart(names, digests, target) && n <= |names| && n <= MAX_COLLISIONS
    ensures Run(Met(target, names, digests, n)) == Bucket(Entries(target, names, digests, n), n)
  {
    if n == 0 {
      RunOfLink(target);
    } else {
      RunOfMet(target, names, digests, n - 1);
      RunStep(Met(target, names, digests, n - 1), target, names, digests, n - 1);
    }
  }

  lemma {:induction false} RunStep(h: seq<Seen>, target: string, names: seq<string>, digests: seq<Digest>, n: nat)
    requires Apart(names, digests, target) && n < |names| && n < MAX_COLLISIONS
    requires Run(h) == Bucket(Entries(target, names, digests, n), n)
    ensures Run(h + [FileSeen(names[n], digests[n])]) == Bucket(Entries(target, names, digests, n + 1), n + 1)
  {
    NewToEntries(target, names, digests, n);
    RunNew(h, Bucket(Entries(target, names, digests, n), n), names[n], digests[n]);
  }

  lemma {:induction false} NewToEntries(target: string, names: seq<string>, digests: seq<Digest>, n: nat)
    requires Apart(names, digests, target) && n < |names|
    ensures var es := Entries(target, names, digests, n);
      forall i :: 0 <= i < |es| ==> es[i].filename != names[n] && es[i].digest != digests[n]
  {
    var es := Entries(target, names, digests, n);
    EntriesAt(target, names, digests, n, 0);
    forall i | 0 <= i < |es| ensures es[i].filename != names[n] && es[i].digest != digests[n] {
      EntriesAt(target, names, digests, n, i);
    }
  }

  /** The calls for one key are its history. */
  lemma {:induction false} HistSnoc(ops: seq<Op>, key: Key, s: Seen)
    ensures HistOf(ops + [Op(key, s)], key) == HistOf(ops, key) + [s]
  {
    Snoc(ops, Op(key, s));
  }

  lemma {:induction false} OpsSnoc(dir: Dir, ls: seq<string>, name: string, mode: Mode)
    ensures Ops(dir, ls + [name], mode) == Ops(dir, ls, mode) + OpsOf(dir, name, mode)
  {
    Snoc(ls, name);
  }

  lemma {:induction false} FileOpOf(dir: Dir, key: Key, name: string)
    requires Needing(dir, key, name)
    ensures OpsOf(dir, name, HashNew) == [Op(key, FileSeen(name, ItemOf(dir, name).digest))]
  {
  }

  lemma {:induction false} HistOneMore(dir: Dir, key: Key, ls: seq<string>, name: string)
    requires Needing(dir, key, name)
    ensures Hist(dir, ls + [name], HashNew, key) == Hist(dir, ls, HashNew, key) + [FileSeen(name, ItemOf(dir, name).digest)]
  {
    FileOpOf(dir, key, name);
    OpsSnoc(dir, ls, name, HashNew);
    HistSnoc(Ops(dir, ls, HashNew), key, FileSeen(name, ItemOf(dir, name).digest));
  }

  lemma {:induction false} HistOfLink(dir: Dir, key: Key, target: string)
    requires key.Valid() && Print(key, 0) in dir && dir[Print(key, 0)] == Link(target, Nothing)
    ensures Hist(dir, [Print(key, 0)], HashNew, key) == [LinkSeen(target, 0)]
  {
    LinkOpIs(dir, key, target);
    HistOfOne(dir, Print(key, 0), key, LinkSeen(target, 0));
  }

  lemma {:induction false} LinkOpIs(dir: Dir, key: Key, target: string)
    requires key.Valid() && Print(key, 0) in dir && dir[Print(key, 0)] == Link(target, Nothing)
    ensures OpsOf(dir, Print(key, 0), HashNew) == [Op(key, LinkSeen(target, 0))]
  {
    ParseInvertsPrint(key, 0);
  }

  lemma {:induction false} HistOfOne(dir: Dir, name: string, key: Key, s: Seen)
    requires OpsOf(dir, name, HashNew) == [Op(key, s)]
    ensures Hist(dir, [name], HashNew, key) == [s]
  {
    assert [name][..0] == [];
    assert Ops(dir, [name], HashNew) == [] + [Op(key, s)];
    HistSnoc([], key, s);
  }

  /** The first name and n of the others. */
  function Listing(first: string, names: seq<string>, n: nat): seq<string>
    requires n <= |names|
  {
    if n == 0 then [first] else Listing(first, names, n - 1) + [names[n - 1]]
  }

  lemma {:induction false} ListingIs(first: string, names: seq<string>, n: nat)
    requires n <= |names|
    ensures Listing(first, names, n) == [first] + names[..n]
  {
    if n > 0 { ListingIs(first, names, n - 1); }
  }

  lemma {:induction false} HistOfMet(dir: Dir, key: Key, first: string, target: string, names: seq<string>, n: nat)
    requires AllNeeding(dir, key, names) && n <= |names|
    requires Hist(dir, [first], HashNew, key) == [LinkSeen(target, 0)]
    ensures Hist(dir, Listing(first, names, n), HashNew, key) == Met(target, names, DigestsOf(dir, names), n)
  {
    if n > 0 {
      HistOfMet(dir, key, first, target, names, n - 1);
      HistOneMore(dir, key, Listing(first, names, n - 1), names[n - 1]);
    }
  }

  lemma {:induction false} WantingSnoc(es: seq<Entry>, e: Entry, n: nat)
    ensures CountWanting(es + [e], n) == CountWanting(es, n) + if Wanting(e, n) then 1 else 0
  {
    if es == [] {
      assert ([] + [e])[1..] == [];
    } else {
      WantingSnoc(es[1..], e, n);
      assert (es + [e])[1..] == es[1..] + [e];
    }
  }

  lemma {:induction false} AllWanting(target: string, names: seq<string>, digests: seq<Digest>, n: nat, limit: nat)
    requires n <= |names| == |digests| && limit <= MAX_COLLISIONS
    ensures CountWanting(Entries(target, names, digests, n), limit) == n
  {
    if n == 0 {
      assert [LinkEntry(target)][1..] == [];
    } else {
      AllWanting(target, names, digests, n - 1, limit);
      WantingSnoc(Entries(target, names, digests, n - 1), Entry(names[n - 1], NO_ID, true, digests[n - 1]), limit);
    }
  }

  /** A whole number of mask bytes of files that need links, and one link numbered 0 to a file that
      needs none: the premise of do_dir fails, and a number beyond the cleared bits is handed out.
      For 256 files this number is beyond the mask itself. */
  lemma {:induction false} IdleLinkLeavesMask(dir: Dir, key: Key, target: string, names: seq<string>) returns (b: Bucket, id: nat)
    requires SameHashFiles(dir, key, names, target) && key.Valid()
    requires Print(key, 0) in dir && dir[Print(key, 0)] == Link(target, Nothing)
    requires 0 < |names| <= MAX_COLLISIONS && |names| % 8 == 0
    ensures Slot(key, b) in Buckets(dir, [Print(key, 0)] + names, HashNew)
    ensures b.numNeeded == NeededCount(b.entries) == |names|
    ensures !MaskSuffices(b) && id in Created(Plan(b)) && id >= ClearedBits(b.numNeeded) == |names|
  {
    var n, digests := |names|, DigestsOf(dir, names);
    Whole(names);
    HistOfLink(dir, key, target);
    HistOfMet(dir, key, Print(key, 0), target, names, n);
    ListingIs(Print(key, 0), names, n);
    RunOfMet(target, names, digests, n);
    b := Bucket(Entries(target, names, digests, n), n);
    EntriesAt(target, names, digests, n, 0);
    BucketListed(dir, [Print(key, 0)] + names, HashNew, key);
    NeededAll(target, names, digests, n);
    id := PushedOut(b, target, names, digests);
  }

  lemma {:induction false} NeededAll(target: string, names: seq<string>, digests: seq<Digest>, n: nat)
    requires n <= |names| == |digests|
    ensures NeededCount(Entries(target, names, digests, n)) == n
  {
    if n == 0 {
      assert [LinkEntry(target)][..0] == [];
    } else {
      NeededAll(target, names, digests, n - 1);
      NeededCountAppend(Entries(target, names, digests, n - 1), Entry(names[n - 1], NO_ID, true, digests[n - 1]));
    }
  }

  lemma {:induction false} PushedOut(b: Bucket, target: string, names: seq<string>, digests: seq<Digest>) returns (id: nat)
    requires 0 < |names| == |digests| <= MAX_COLLISIONS && |names| % 8 == 0
    requires b == Bucket(Entries(target, names, digests, |names|), |names|)
    ensures !MaskSuffices(b) && id in Created(Plan(b)) && id >= ClearedBits(b.numNeeded) == |names|
  {
    var n, used := |names|, Used(b.entries, |names|);
    AllWanting(target, names, digests, n, n);
    assert ClearedBits(n) == n;
    EntriesAt(target, names, digests, n, 0);
    assert 0 in used by { assert b.entries[0].oldId == 0; }
    SubsetSize({0}, used);
    UsedBelow(b.entries, n);
    ScanStaysBelow(b.entries, n, used, n);
    id :| id in Created(Plan(b)) && id >= n;
  }

  // ---- such directories exist, for every number of files ----

  function FileName(i: nat): string { Decimal(i) + ".pem" }

  lemma {:induction false} FileNameIsCert(i: nat)
    ensures HasCertExtension(FileName(i)) && FileName(i) != "gone"
  {
    var s, k := FileName(i), |Decimal(i)|;
    assert s[k] == '.' && s[k + 1..] == "pem" && forall j :: k < j < |s| ==> s[j] == "pem"[j - k - 1];
    assert LastIndexOf(s, '.') == k;
    assert "pem" in ["pem", "crt", "cer", "crl"] by { assert ["pem", "crt", "cer", "crl"][0] == "pem"; }
    assert SameIgnoringCase("pem", s[k + 1..]);
    assert IsDigit(s[0]);
  }

  lemma {:induction false} FileNamesDiffer(i: nat, j: nat)
    requires i != j
    ensures FileName(i) != FileName(j)
  {
    assert FileName(i)[..|FileName(i)| - 4] == Decimal(i);
    assert FileName(j)[..|FileName(j)| - 4] == Decimal(j);
    DecimalRoundTrip(i);
    DecimalRoundTrip(j);
  }

  function Names(n: nat): (r: seq<string>)
    ensures |r| == n && forall i :: 0 <= i < n ==> r[i] == FileName(i)
  {
    if n == 0 then [] else Names(n - 1) + [FileName(n - 1)]
  }

  /** One file for each of the digests, and a link numbered 0. */
  function LinkDir(key: Key, target: string, digests: seq<Digest>, n: nat): Dir
    requires n <= |digests|
  {
    if n == 0 then map[Print(key, 0) := Link(target, Nothing)]
    else LinkDir(key, target, digests, n - 1)[FileName(n - 1) := File(Holding(Item(key.kind, key.hash, key.hash, digests[n - 1])))]
  }

  lemma {:induction false} LinkDirLink(key: Key, target: string, digests: seq<Digest>, n: nat)
    requires key.Valid() && n <= |digests|
    ensures var d := LinkDir(key, target, digests, n); Print(key, 0) in d && d[Print(key, 0)] == Link(target, Nothing)
  {
    if n > 0 {
      LinkDirLink(key, target, digests, n - 1);
      ParseInvertsPrint(key, 0);
      LinkNamesAreNotFiles(Print(key, 0));
      FileNameIsCert(n - 1);
    }
  }

  lemma {:induction false} LinkDirAt(key: Key, target: string, digests: seq<Digest>, n: nat, i: nat)
    requires i < n <= |digests|
    ensures FileName(i) in LinkDir(key, target, digests, n)
    ensures LinkDir(key, target, digests, n)[FileName(i)] == File(Holding(Item(key.kind, key.hash, key.hash, digests[i])))
  {
    if i < n - 1 {
      LinkDirAt(key, target, digests, n - 1, i);
      FileNamesDiffer(i, n - 1);
    }
  }

  predicate Different(digests: seq<Digest>) {
    && (forall i :: 0 <= i < |digests| ==> digests[i] != ZERO_DIGEST)
    && (forall i, j :: 0 <= i < j < |digests| ==> digests[i] != digests[j])
  }

  lemma {:induction false} LinkDirNeeding(key: Key, target: string, digests: seq<Digest>, i: nat)
    requires i < |digests|
    ensures var dir := LinkDir(key, target, digests, |digests|);
      Needing(dir, key, FileName(i)) && ItemOf(dir, FileName(i)).digest == digests[i]
  {
    LinkDirAt(key, target, digests, |digests|, i);
    FileNameIsCert(i);
  }

  /** The first n of the files, when the link goes elsewhere. */
  lemma {:induction false} LinkDirFiles(key: Key, target: string, digests: seq<Digest>, n: nat)
    requires Different(digests) && n <= |digests| && forall i :: 0 <= i < n ==> FileName(i) != target
    ensures SameHashFiles(LinkDir(key, target, digests, |digests|), key, Names(n), target)
    ensures DigestsOf(LinkDir(key, target, digests, |digests|), Names(n)) == digests[..n]
  {
    var dir, names := LinkDir(key, target, digests, |digests|), Names(n);
    forall i | 0 <= i < n ensures Needing(dir, key, names[i]) && ItemOf(dir, names[i]).digest == digests[i] {
      LinkDirNeeding(key, target, digests, i);
    }
    assert DigestsOf(dir, names) == digests[..n];
    forall i, j | 0 <= i < j < n ensures names[i] != names[j] { FileNamesDiffer(i, j); }
  }

  /** For every hash and any different certificates that fill mask bytes, up to the limit of 256: a
      directory and a listing on which do_dir's scan leaves the cleared bits. */
  lemma {:induction false} ScanCanLeaveMask(key: Key, digests: seq<Digest>) returns (b: Bucket, id: nat)
    requires key.Valid() && Different(digests) && 0 < |digests| <= MAX_COLLISIONS && |digests| % 8 == 0
    ensures var n := |digests|;
      && Slot(key, b) in Buckets(LinkDir(key, "gone", digests, n), [Print(key, 0)] + Names(n), HashNew)
      && b.numNeeded == n == NeededCount(b.entries)
      && !MaskSuffices(b) && id in Created(Plan(b)) && id >= ClearedBits(n) == n
  {
    var n := |digests|;
    LinkDirLink(key, "gone", digests, n);
    forall i | 0 <= i < n ensures FileName(i) != "gone" { FileNameIsCert(i); }
    LinkDirFiles(key, "gone", digests, n);
    b, id := IdleLinkLeavesMask(LinkDir(key, "gone", digests, n), key, "gone", Names(n));
  }

  // ---- the limit of 256 ----

  /** The limit is not tested for a file that a link has made known. */
  lemma {:induction false} KnownFilePasses(b: Bucket, f: string, d: Digest)
    requires b.numNeeded == MAX_COLLISIONS && !HasDigest(b.entries, d)
    requires var k := FindFile(b.entries, f); k < |b.entries| && !b.entries[k].needSymlink
    ensures Add(b, FileSeen(f, d)) == Added(Add(b, FileSeen(f, d)).bucket, 0)
    ensures Add(b, FileSeen(f, d)).bucket.numNeeded == MAX_COLLISIONS + 1
  {
  }

  /** The last of 257 different certificates is the one that a link has made known: the count passes
      the limit, and clearing the mask writes beyond its end. */
  lemma {:induction false} CountPassesLimit(key: Key, digests: seq<Digest>) returns (b: Bucket)
    requires key.Valid() && Different(digests) && |digests| == MAX_COLLISIONS + 1
    ensures var n := |digests| - 1;
      Slot(key, b) in Buckets(LinkDir(key, FileName(n), digests, n + 1), [Print(key, 0)] + Names(n) + [FileName(n)], HashNew)
    ensures b.numNeeded == MAX_COLLISIONS + 1 && (b.numNeeded + 7) / 8 > MAX_COLLISIONS / 8
  {
    b := LimitPassed(key, digests, |digests| - 1);
  }

  lemma {:induction false} LimitPassed(key: Key, digests: seq<Digest>, n: nat) returns (b: Bucket)
    requires key.Valid() && Different(digests) && |digests| == n + 1 && n == MAX_COLLISIONS
    ensures Slot(key, b) in Buckets(LinkDir(key, FileName(n), digests, n + 1), [Print(key, 0)] + Names(n) + [FileName(n)], HashNew)
    ensures b.numNeeded == n + 1
  {
    HistOfLimit(key, digests, n);
    LastPasses(FileName(n), Names(n), digests, n);
    b := CountedBucket(LinkDir(key, FileName(n), digests, n + 1), [Print(key, 0)] + Names(n) + [FileName(n)], key,
                       Met(FileName(n), Names(n), digests[..n], n) + [FileSeen(FileName(n), digests[n])]);
  }

  lemma {:induction false} CountedBucket(dir: Dir, ls: seq<string>, key: Key, h: seq<Seen>) returns (b: Bucket)
    requires Hist(dir, ls, HashNew, key) == h && Run(h).numNeeded > 0
    ensures b == Run(h) && Slot(key, b) in Buckets(dir, ls, HashNew)
  {
    b := Run(h);
    RunShape(h);
    assert b.entries != [];
    BucketListed(dir, ls, HashNew, key);
  }

  lemma {:induction false} HistOfLimit(key: Key, digests: seq<Digest>, n: nat)
    requires key.Valid() && Different(digests) && |digests| == n + 1
    ensures var target := FileName(n);
      && Apart(Names(n), digests[..n], target)
      && Hist(LinkDir(key, target, digests, n + 1), [Print(key, 0)] + Names(n) + [target], HashNew, key)
         == Met(target, Names(n), digests[..n], n) + [FileSeen(target, digests[n])]
  {
    var target := FileName(n);
    var dir := LinkDir(key, target, digests, n + 1);
    LinkDirLink(key, target, digests, n + 1);
    forall i | 0 <= i < n ensures FileName(i) != target { FileNamesDiffer(i, n); }
    LinkDirFiles(key, target, digests, n);
    LinkDirNeeding(key, target, digests, n);
    HistOfMany(dir, key, target, Names(n));
    HistOneMore(dir, key, [Print(key, 0)] + Names(n), target);
  }

  lemma {:induction false} HistOfMany(dir: Dir, key: Key, target: string, names: seq<string>)
    requires AllNeeding(dir, key, names) && key.Valid()
    requires Print(key, 0) in dir && dir[Print(key, 0)] == Link(target, Nothing)
    ensures Hist(dir, [Print(key, 0)] + names, HashNew, key) == Met(target, names, DigestsOf(dir, names), |names|)
  {
    HistOfLink(dir, key, target);
    HistOfMet(dir, key, Print(key, 0), target, names, |names|);
    ListingIs(Print(key, 0), names, |names|);
    Whole(names);
  }

  lemma {:induction false} LastPasses(target: string, names: seq<string>, digests: seq<Digest>, n: nat)
    requires Different(digests) && |digests| == n + 1 && n == MAX_COLLISIONS && Apart(names, digests[..n], target)
    ensures Run(Met(target, names, digests[..n], n) + [FileSeen(target, digests[n])]).numNeeded == n + 1
  {
    var first, last := digests[..n], digests[n];
    var es := Entries(target, names, first, n);
    RunOfMet(target, names, first, n);
    RunSnoc(Met(target, names, first, n), FileSeen(target, last));
    EntriesAt(target, names, first, n, 0);
    assert FindFile(es, target) == 0;
    forall i | 0 <= i < |es| ensures es[i].digest != last { EntriesAt(target, names, first, n, i); }
    KnownFilePasses(Bucket(es, n), target, last);
  }

  /** The 256th file that needs a link is met as event t. */
  predicate FullAt(h: seq<Seen>, t: nat) {
    0 < t <= |h| && |Chosen(h[..t])| == MAX_COLLISIONS && |Chosen(h[..t - 1])| < MAX_COLLISIONS
  }

  /** A file that a link has made known before the bucket was full, and that brings a new certificate
      afterwards. */
  predicate Latecomer(h: seq<Seen>, t: nat, i: nat)
    requires t <= |h| && i < |h|
  {
    && t <= i && h[i].FileSeen? && Linked(h[..t], h[i].filename)
    && !PicksFile(Chosen(h[..t]), h[i].filename) && !PicksDigest(Chosen(h[..t]), h[i].digest)
  }

  /** The same files with the same needs and digests; numbers may have changed. */
  predicate Frozen(es: seq<Entry>, es': seq<Entry>) {
    |es| == |es'| && forall k :: 0 <= k < |es| ==>
      es'[k].filename == es[k].filename && es'[k].needSymlink == es[k].needSymlink && es'[k].digest == es[k].digest
  }

  /** A full bucket changes its needs only at a file that has an entry without need, with a new digest. */
  lemma {:induction false} FullStep(b: Bucket, s: Seen)
    requires b.numNeeded == MAX_COLLISIONS
    ensures var k := FindFile(b.entries, s.filename);
      if s.FileSeen? && !HasDigest(b.entries, s.digest) && k < |b.entries| && !b.entries[k].needSymlink
      then Add(b, s).bucket.numNeeded == MAX_COLLISIONS + 1
      else Add(b, s).bucket.numNeeded == MAX_COLLISIONS && Frozen(b.entries, Add(b, s).bucket.entries)
  {
  }

  /** What is known of the bucket when it is full. */
  lemma {:induction false} WhenFull(h: seq<Seen>, t: nat)
    requires RealDigests(h) && FullAt(h, t)
    ensures var b := Run(h[..t]);
      && b.numNeeded == MAX_COLLISIONS && Invariant(h[..t], b) && Matches(b.entries, Chosen(h[..t])) && Justified(h[..t], b.entries)
      && (forall f :: Linked(h[..t], f) ==> HasFile(b.entries, f))
  {
    NeededAreChosen(h[..t]);
    RunJustified(h[..t]);
    forall f | Linked(h[..t], f) ensures HasFile(Run(h[..t]).entries, f) { LinkedHasEntry(h, t, f); }
  }

  lemma {:induction false} LinkedHasEntry(h: seq<Seen>, t: nat, f: string)
    requires RealDigests(h) && FullAt(h, t) && Linked(h[..t], f)
    ensures HasFile(Run(h[..t]).entries, f)
  {
    var front, s := h[..t - 1], h[t - 1];
    TakeOneMore(h, t - 1);
    ChosenAppend(front, s);
    assert s.FileSeen?;
    LinkedEarlier(front, s, f);
    LinkedBeforeFull(front, f);
    FileStays(front, s, f);
  }

  lemma {:induction false} LinkedEarlier(h: seq<Seen>, s: Seen, f: string)
    requires s.FileSeen? && Linked(h + [s], f)
    ensures Linked(h, f)
  {
    var i :| 0 <= i < |h + [s]| && (h + [s])[i].LinkSeen? && (h + [s])[i].filename == f;
    assert i < |h| && h[i] == (h + [s])[i];
  }

  /** A bucket that is not full refuses no link. */
  lemma {:induction false} LinkedBeforeFull(h: seq<Seen>, f: string)
    requires RealDigests(h) && |Chosen(h)| < MAX_COLLISIONS && Linked(h, f)
    ensures HasFile(Run(h).entries, f)
  {
    NeededAreChosen(h);
    var i :| 0 <= i < |h| && h[i].LinkSeen? && h[i].filename == f;
    assert RefusedOnlyWhenFull(h, Run(h));
  }

  lemma {:induction false} FileStays(h: seq<Seen>, s: Seen, f: string)
    requires HasFile(Run(h).entries, f)
    ensures HasFile(Run(h + [s]).entries, f)
  {
    RunSnoc(h, s);
    AddKeepsNames(Run(h), s);
    var k :| 0 <= k < |Run(h).entries| && Run(h).entries[k].filename == f;
    assert Run(h + [s]).entries[k].filename == f;
  }

  /** While the bucket is frozen, the next event passes the limit if and only if it is a latecomer. */
  lemma {:induction false} FrozenStep(h: seq<Seen>, t: nat, i: nat)
    requires RealDigests(h) && FullAt(h, t) && t <= i < |h|
    requires Frozen(Run(h[..t]).entries, Run(h[..i]).entries) && Run(h[..i]).numNeeded == MAX_COLLISIONS
    ensures var b := Run(h[..i + 1]);
      if Latecomer(h, t, i) then b.numNeeded == MAX_COLLISIONS + 1
      else b.numNeeded == MAX_COLLISIONS && Frozen(Run(h[..t]).entries, b.entries)
  {
    TakeOneMore(h, i);
    RunSnoc(h[..i], h[i]);
    FullStep(Run(h[..i]), h[i]);
    if h[i].FileSeen? { LatecomerMeans(h, t, i); }
  }

  lemma {:induction false} LatecomerMeans(h: seq<Seen>, t: nat, i: nat)
    requires RealDigests(h) && FullAt(h, t) && t <= i < |h| && h[i].FileSeen?
    requires Frozen(Run(h[..t]).entries, Run(h[..i]).entries)
    ensures var es, s := Run(h[..i]).entries, h[i];
      var k := FindFile(es, s.filename);
      Latecomer(h, t, i) <==> !HasDigest(es, s.digest) && k < |es| && !es[k].needSymlink
  {
    var es0, es, c, f, d := Run(h[..t]).entries, Run(h[..i]).entries, Chosen(h[..t]), h[i].filename, h[i].digest;
    WhenFull(h, t);
    DigestsSeen(es0, h[..t], c, d);
    SameNamesSameFind(es0, es, f);
    FrozenDigests(es0, es, d);
    var k := FindFile(es0, f);
    if k < |es0| {
      if PicksFile(c, f) { PickedIsNeeded(es0, c, k); }
      if es0[k].needSymlink { NeededIsPicked(es0, c, k); }
    }
  }

  lemma {:induction false} FrozenDigests(es: seq<Entry>, es': seq<Entry>, d: Digest)
    requires Frozen(es, es')
    ensures HasDigest(es, d) <==> HasDigest(es', d)
  {
    if HasDigest(es, d) {
      var i :| 0 <= i < |es| && es[i].digest == d;
      assert es'[i].digest == d;
    }
  }

  ghost predicate StillFull(h: seq<Seen>, t: nat, i: nat)
    requires t <= i <= |h|
  {
    Frozen(Run(h[..t]).entries, Run(h[..i]).entries) && Run(h[..i]).numNeeded == MAX_COLLISIONS
  }

  ghost predicate PassedBefore(h: seq<Seen>, t: nat, i: nat)
    requires t <= i <= |h|
  {
    exists j :: t <= j < i && Latecomer(h, t, j) && Run(h[..j + 1]).numNeeded == MAX_COLLISIONS + 1
  }

  predicate NoneLate(h: seq<Seen>, t: nat, i: nat)
    requires t <= i <= |h|
  {
    forall j :: t <= j < i ==> !Latecomer(h, t, j)
  }

  /** Without a latecomer the bucket stays frozen; the first one passes the limit. */
  lemma {:induction false} FrozenUpTo(h: seq<Seen>, t: nat, i: nat)
    requires RealDigests(h) && FullAt(h, t) && t <= i <= |h|
    ensures PassedBefore(h, t, i) || (StillFull(h, t, i) && NoneLate(h, t, i))
    decreases i
  {
    if i == t {
      WhenFull(h, t);
    } else {
      FrozenUpTo(h, t, i - 1);
      FrozenMore(h, t, i - 1);
    }
  }

  lemma {:induction false} FrozenMore(h: seq<Seen>, t: nat, i: nat)
    requires RealDigests(h) && FullAt(h, t) && t <= i < |h|
    requires PassedBefore(h, t, i) || (StillFull(h, t, i) && NoneLate(h, t, i))
    ensures PassedBefore(h, t, i + 1) || (StillFull(h, t, i + 1) && NoneLate(h, t, i + 1))
  {
    if StillFull(h, t, i) && NoneLate(h, t, i) { FrozenStep(h, t, i); }
  }

  /** From the 256th needed file on, the count stays within the limit if and only if no file that a link
      had made known before brings a new certificate. */
  lemma {:induction false} CountStaysWithin(h: seq<Seen>, t: nat)
    requires RealDigests(h) && FullAt(h, t)
    ensures (forall i :: t <= i <= |h| ==> Run(h[..i]).numNeeded <= MAX_COLLISIONS)
            <==> forall i :: t <= i < |h| ==> !Latecomer(h, t, i)
  {
    FrozenUpTo(h, t, |h|);
    if NoneLate(h, t, |h|) {
      forall i | t <= i <= |h| ensures Run(h[..i]).numNeeded <= MAX_COLLISIONS { FrozenUpTo(h, t, i); }
    } else {
      var j :| t <= j < |h| && Latecomer(h, t, j) && Run(h[..j + 1]).numNeeded == MAX_COLLISIONS + 1;
      assert t <= j + 1 <= |h|;
    }
  }

  /** Before that the count is that of the picks, which are at most 256. */
  lemma {:induction false} CountBefore(h: seq<Seen>, i: nat)
    requires RealDigests(h) && i <= |h| && |Chosen(h[..i])| <= MAX_COLLISIONS
    ensures Run(h[..i]).numNeeded == |Chosen(h[..i])|
  {
    NeededAreChosen(h[..i]);
  }
}
