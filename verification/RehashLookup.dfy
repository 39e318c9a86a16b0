/** Certificate lookup opens the names 0, 1, 2 and so on of a bucket.  When does a run of rehash leave
    every file under such a name? */
module RehashLookup {
  import opened CText
  import opened SeqFacts
  import opened RehashBucket
  import opened LinkName
  import opened LinkNumbers
  import opened RehashTable
  import opened RehashDirectory
  import opened RehashResult
  import opened RehashFixpoint

  /** Before the run: an entry that needs its link and keeps its number has the link whose name is
      printed for it.  Links of other spelling ("0123abcd." or "0123abcd.00" for number 0) are read as
      that number, too. */
  ghost predicate KeptCanonical(dir: Dir, key: Key, b: Bucket) {
    forall k :: 0 <= k < |b.entries| && b.entries[k].needSymlink && b.entries[k].oldId < b.numNeeded ==>
      LinkedTo(dir, Print(key, b.entries[k].oldId), b.entries[k].filename)
  }

  /** No new link is removed again. */
  predicate NothingUndone(b: Bucket, remove: bool) {
    forall k :: 0 <= k < |b.entries| && Plan(b)[k].Create? ==> !UndoneAt(Plan(b), k, remove)
  }

  /** After the run: every file that needs a link has the one printed for the number it was given. */
  ghost predicate NumberedCanonically(d: Dir, key: Key, b: Bucket) {
    forall k :: 0 <= k < |b.entries| && b.entries[k].needSymlink ==>
      LinkedTo(d, Print(key, Plan(b)[k].id), b.entries[k].filename)
  }

  lemma {:induction false} EntryLinked(dir: Dir, ls: seq<string>, mode: Mode, remove: bool, key: Key, k: nat)
    requires HashesFit(dir)
    requires var b := BucketOf(dir, ls, mode, key); k < |b.entries| && b.entries[k].needSymlink
    ensures var b, d := BucketOf(dir, ls, mode, key), Rehash(dir, ls, mode, remove);
      var e := b.entries[k];
      LinkedTo(d, Print(key, Plan(b)[k].id), e.filename)
      <==> if e.oldId < b.numNeeded then LinkedTo(dir, Print(key, e.oldId), e.filename) else !UndoneAt(Plan(b), k, remove)
  {
    var b := BucketOf(dir, ls, mode, key);
    ActionOf(b.entries, b.numNeeded, Used(b.entries, b.numNeeded), k);
    if b.entries[k].oldId < b.numNeeded {
      assert Hist(dir, ls, mode, key) != [];
      KeysFit(dir, ls, mode, key);
      RehashAt(dir, ls, mode, remove, key, b.entries[k].oldId);
      assert b.entries[k].oldId in Used(b.entries, b.numNeeded);
      UsedUntouched(b, b.entries[k].oldId, remove);
    } else {
      CreatedStays(dir, ls, mode, remove, key, k);
    }
  }

  /** For every directory: every file that needs a link ends under the printed name of its number, if
      and only if the kept links were under theirs before the run and no new link is removed again. */
  lemma {:induction false} CanonicalIff(dir: Dir, ls: seq<string>, mode: Mode, remove: bool, key: Key)
    requires HashesFit(dir)
    ensures var b := BucketOf(dir, ls, mode, key);
      NumberedCanonically(Rehash(dir, ls, mode, remove), key, b) <==> KeptCanonical(dir, key, b) && NothingUndone(b, remove)
  {
    var b, d := BucketOf(dir, ls, mode, key), Rehash(dir, ls, mode, remove);
    forall k | 0 <= k < |b.entries| && b.entries[k].needSymlink
      ensures LinkedTo(d, Print(key, Plan(b)[k].id), b.entries[k].filename)
         <==> if b.entries[k].oldId < b.numNeeded then LinkedTo(dir, Print(key, b.entries[k].oldId), b.entries[k].filename)
              else !UndoneAt(Plan(b), k, remove)
    {
      EntryLinked(dir, ls, mode, remove, key, k);
    }
    forall k | 0 <= k < |b.entries| ensures Plan(b)[k].Create? <==> Wanting(b.entries[k], b.numNeeded) {
      ActionOf(b.entries, b.numNeeded, Used(b.entries, b.numNeeded), k);
    }
  }

  /** A name links to one file, so the kept numbers are then distinct. */
  lemma {:induction false} CanonicalAreDistinct(dir: Dir, key: Key, b: Bucket)
    requires KeptCanonical(dir, key, b) && DistinctFiles(b.entries)
    ensures KeptDistinct(b.entries, b.numNeeded)
  {
    var es, n := b.entries, b.numNeeded;
    forall i, j | 0 <= i < j < |es| && es[i].needSymlink && es[j].needSymlink && es[i].oldId < n
      ensures es[i].oldId != es[j].oldId
    {
      assert es[i].filename != es[j].filename;
    }
  }

  /** Without an idle keeper below num_needed there is room for all, so nothing is undone. */
  lemma {:induction false} NoIdleHasRoom(b: Bucket)
    requires b.numNeeded == NeededCount(b.entries) && NoIdleKeeper(b.entries, b.numNeeded)
    ensures |Used(b.entries, b.numNeeded)| + CountWanting(b.entries, b.numNeeded) <= b.numNeeded
  {
    KeptWithinUsed(b.entries, b.numNeeded);
    KeptIdsSize(b.entries, b.numNeeded);
    NeededSplit(b.entries, b.numNeeded);
  }

  /** Under which condition do the files that need links end under the printed names of exactly the
      numbers 0 to n - 1?  If and only if the kept links have printed names and no file that needs none
      holds one of these numbers. */
  lemma {:induction false} LookupIff(dir: Dir, ls: seq<string>, mode: Mode, remove: bool, key: Key)
    requires HashesFit(dir) && var b := BucketOf(dir, ls, mode, key); b.numNeeded == NeededCount(b.entries)
    ensures var b := BucketOf(dir, ls, mode, key);
      NumberedCanonically(Rehash(dir, ls, mode, remove), key, b) && FinalIds(b.entries, Plan(b)) == Upto(b.numNeeded)
      <==> KeptCanonical(dir, key, b) && NoIdleKeeper(b.entries, b.numNeeded)
  {
    var b := BucketOf(dir, ls, mode, key);
    CanonicalIff(dir, ls, mode, remove, key);
    DenseNumbering(b);
    if KeptCanonical(dir, key, b) && NoIdleKeeper(b.entries, b.numNeeded) {
      RunShape(Hist(dir, ls, mode, key));
      CanonicalAreDistinct(dir, key, b);
      NoIdleHasRoom(b);
      forall k | 0 <= k < |b.entries| && Plan(b)[k].Create? ensures !UndoneAt(Plan(b), k, remove) { RoomKeepsLinks(b, k, remove); }
    }
  }

  predicate NeededFile(b: Bucket, f: string) {
    exists k :: 0 <= k < |b.entries| && b.entries[k].needSymlink && b.entries[k].filename == f
  }

  /** The printed name of a number links to a file that needs it; such a file is behind the printed
      name of a number below the count. */
  ghost predicate NumberLinked(d: Dir, key: Key, b: Bucket, i: nat) {
    exists f :: NeededFile(b, f) && LinkedTo(d, Print(key, i), f)
  }

  ghost predicate FileLinked(d: Dir, key: Key, b: Bucket, f: string) {
    exists i: nat :: i < b.numNeeded && LinkedTo(d, Print(key, i), f)
  }

  /** Lookup meets every file: the names below the count are links to the files that need one, and each
      of those has one. */
  ghost predicate Findable(d: Dir, key: Key, b: Bucket) {
    && (forall i: nat :: i < b.numNeeded ==> NumberLinked(d, key, b, i))
    && (forall f :: NeededFile(b, f) ==> FileLinked(d, key, b, f))
  }

  /** So lookup then meets every file that needs a link. */
  lemma {:induction false} LookupFindsAll(d: Dir, key: Key, b: Bucket)
    requires NumberedCanonically(d, key, b) && FinalIds(b.entries, Plan(b)) == Upto(b.numNeeded)
    ensures Findable(d, key, b)
  {
    forall i: nat | i < b.numNeeded ensures NumberLinked(d, key, b, i) {
      var k := EntryOfNumber(b, i);
      assert NeededFile(b, b.entries[k].filename);
    }
    forall f | NeededFile(b, f) ensures FileLinked(d, key, b, f) {
      var k :| 0 <= k < |b.entries| && b.entries[k].needSymlink && b.entries[k].filename == f;
      NumberInFinal(b, k);
    }
  }

  lemma {:induction false} EntryOfNumber(b: Bucket, i: nat) returns (k: nat)
    requires FinalIds(b.entries, Plan(b)) == Upto(b.numNeeded) && i < b.numNeeded
    ensures k < |b.entries| && b.entries[k].needSymlink && Plan(b)[k].id == i
  {
    assert i in FinalIds(b.entries, Plan(b));
    k :| 0 <= k < |b.entries| && b.entries[k].needSymlink && Plan(b)[k].id == i;
  }

  lemma {:induction false} NumberInFinal(b: Bucket, k: nat)
    requires FinalIds(b.entries, Plan(b)) == Upto(b.numNeeded) && k < |b.entries| && b.entries[k].needSymlink
    ensures Plan(b)[k].id < b.numNeeded
  {
    assert Plan(b)[k].id in FinalIds(b.entries, Plan(b));
  }

  // ---- a link of other spelling ----

  /** The name without a number is read as number 0. */
  lemma {:induction false} BareNameIsZero(key: Key)
    requires key.Valid()
    ensures var name := HexFixed(key.hash, 8) + "." + Suffix(key.kind);
      Parse(name) == Some(Parsed(key, 0)) && name != Print(key, 0)
  {
    var name := HexFixed(key.hash, 8) + "." + Suffix(key.kind);
    Pow16Eight();
    HexFixedRoundTrip(key.hash, 8);
    assert name[..8] == HexFixed(key.hash, 8) && name[8] == '.';
    assert IdText(name) == "";
    assert |Print(key, 0)| == |name| + 1;
  }

  /** A directory with one certificate and one such link to it: the link is kept, and the name that
      lookup opens first never appears. */
  lemma {:induction false} OtherSpellingIsKept(a: string, name: string, item: Item, remove: bool)
    requires HasCertExtension(a)
    requires item.hash < 0x1_0000_0000 && item.oldHash < 0x1_0000_0000 && item.digest != ZERO_DIGEST
    requires var key := Key(item.kind, item.hash); Parse(name) == Some(Parsed(key, 0)) && name != Print(key, 0)
    ensures var dir, key := map[a := File(Holding(item)), name := Link(a, Nothing)], Key(item.kind, item.hash);
      && LinksInUse(dir, [a, name], HashNew)
      && Chosen(Hist(dir, [a, name], HashNew, key)) == [Pick(a, item.digest)]
      && Print(key, 0) !in Rehash(dir, [a, name], HashNew, remove)
  {
    var dir, key := map[a := File(Holding(item)), name := Link(a, Nothing)], Key(item.kind, item.hash);
    LinkNamesAreNotFiles(name);
    SpelledInUse(dir, a, name, item);
    ParseInvertsPrint(key, 0);
    LinkNamesAreNotFiles(Print(key, 0));
    SpelledStaysAway(dir, a, name, item, remove);
  }

  lemma {:induction false} SpelledStaysAway(dir: Dir, a: string, name: string, item: Item, remove: bool)
    requires HasCertExtension(a) && !HasCertExtension(name) && Parse(name) == Some(Parsed(Key(item.kind, item.hash), 0))
    requires a in dir && dir[a] == File(Holding(item)) && name in dir && dir[name] == Link(a, Nothing)
    requires item.hash < 0x1_0000_0000 && LinksInUse(dir, [a, name], HashNew) && Print(Key(item.kind, item.hash), 0) !in dir
    ensures Print(Key(item.kind, item.hash), 0) !in Rehash(dir, [a, name], HashNew, remove)
  {
    var key := Key(item.kind, item.hash);
    SpelledKept(dir, a, name, item);
    RehashAt(dir, [a, name], HashNew, remove, key, 0);
    UsedUntouched(BucketOf(dir, [a, name], HashNew, key), 0, remove);
  }

  lemma {:induction false} SpelledInUse(dir: Dir, a: string, name: string, item: Item)
    requires HasCertExtension(a) && !HasCertExtension(name) && Parse(name) == Some(Parsed(Key(item.kind, item.hash), 0))
    requires item.hash < 0x1_0000_0000 && item.oldHash < 0x1_0000_0000 && item.digest != ZERO_DIGEST
    requires dir == map[a := File(Holding(item)), name := Link(a, Nothing)]
    ensures LinksInUse(dir, [a, name], HashNew)
    ensures Chosen(Hist(dir, [a, name], HashNew, Key(item.kind, item.hash))) == [Pick(a, item.digest)]
  {
    SpelledChosen(a, item.digest);
    forall key
      ensures |Chosen(Hist(dir, [a, name], HashNew, key))| <= 1 && LinksWanted(Hist(dir, [a, name], HashNew, key))
    {
      SpelledHist(dir, a, name, item, key);
    }
    SpelledHist(dir, a, name, item, Key(item.kind, item.hash));
  }

  lemma {:induction false} SpelledKept(dir: Dir, a: string, name: string, item: Item)
    requires HasCertExtension(a) && !HasCertExtension(name) && Parse(name) == Some(Parsed(Key(item.kind, item.hash), 0))
    requires a in dir && dir[a] == File(Holding(item)) && name in dir && dir[name] == Link(a, Nothing)
    ensures var b := Run(Hist(dir, [a, name], HashNew, Key(item.kind, item.hash))); 0 in Used(b.entries, b.numNeeded)
  {
    SpelledHist(dir, a, name, item, Key(item.kind, item.hash));
    SpelledRun(a, item.digest);
    assert [Entry(a, 0, true, item.digest)][0].oldId == 0;
  }

  lemma {:induction false} SpelledHist(dir: Dir, a: string, name: string, item: Item, key: Key)
    requires HasCertExtension(a) && !HasCertExtension(name) && Parse(name) == Some(Parsed(Key(item.kind, item.hash), 0))
    requires a in dir && dir[a] == File(Holding(item)) && name in dir && dir[name] == Link(a, Nothing)
    ensures Hist(dir, [a, name], HashNew, key)
         == if key == Key(item.kind, item.hash) then [FileSeen(a, item.digest), LinkSeen(a, 0)] else []
  {
    var k := Key(item.kind, item.hash);
    assert [a, name][..1] == [a] && [a][..0] == [];
    assert Ops(dir, [a], HashNew) == Ops(dir, [], HashNew) + OpsOf(dir, a, HashNew);
    assert Ops(dir, [a, name], HashNew) == [Op(k, FileSeen(a, item.digest)), Op(k, LinkSeen(a, 0))];
    TwoHist(k, FileSeen(a, item.digest), LinkSeen(a, 0), key);
  }

  lemma {:induction false} SpelledChosen(a: string, digest: Digest)
    ensures var h := [FileSeen(a, digest), LinkSeen(a, 0)];
      Chosen(h) == [Pick(a, digest)] && LinksWanted(h) && LinksWanted([]) && Chosen([]) == []
  {
    var h := [FileSeen(a, digest), LinkSeen(a, 0)];
    assert h[..1] == [FileSeen(a, digest)] && [FileSeen(a, digest)][..0] == [];
    assert Chosen([FileSeen(a, digest)]) == [Pick(a, digest)];
    assert [Pick(a, digest)][0].filename == a;
  }

  lemma {:induction false} SpelledRun(a: string, digest: Digest)
    ensures Run([FileSeen(a, digest), LinkSeen(a, 0)]) == Bucket([Entry(a, 0, true, digest)], 1)
  {
    var h := [FileSeen(a, digest), LinkSeen(a, 0)];
    assert h[..1] == [FileSeen(a, digest)] && [FileSeen(a, digest)][..0] == [];
    assert Run([FileSeen(a, digest)]) == Add(EMPTY, FileSeen(a, digest)).bucket;
    var b := Bucket([Entry(a, NO_ID, true, digest)], 1);
    assert Add(EMPTY, FileSeen(a, digest)).bucket == b;
    assert b.entries[0].filename == a && FindFile(b.entries, a) == 0;
    assert b.entries[0 := Entry(a, 0, true, digest)] == [Entry(a, 0, true, digest)];
  }
}
