/** One bucket of rehash's table: the entries that share a (type, hash) pair, and what every
    history of add_entry calls makes of it. */
module RehashBucket {
  import opened SeqFacts

  const MAX_COLLISIONS: nat := 256
  /** ~0 stored in an unsigned short: no link seen yet. */
  const NO_ID: nat := 65535

  /** evpmdsize bytes of SHA-1. */
  type Digest = seq<bv8>

  /** The digest field of an entry that has not been given one (nilhentry). */
  const ZERO_DIGEST: Digest := [0, 0, 0, 0, 0, 0, 0, 0, 0, 0, 0, 0, 0, 0, 0, 0, 0, 0, 0, 0]

  datatype Entry = Entry(filename: string, oldId: nat, needSymlink: bool, digest: Digest)

  datatype Bucket = Bucket(entries: seq<Entry>, numNeeded: nat)

  const EMPTY := Bucket([], 0)

  /** What the two callers of add_entry report: a hash link already on disk, or a certificate
      or CRL file that needs a link. */
  datatype Seen = LinkSeen(filename: string, id: nat) | FileSeen(filename: string, digest: Digest)

  /** Position of the entry for a file, or the length of the list. */
  function FindFile(es: seq<Entry>, filename: string): (k: nat)
    ensures k <= |es|
    ensures k < |es| ==> es[k].filename == filename
    ensures forall i :: 0 <= i < k ==> es[i].filename != filename
  {
    FirstIndex(es, (e: Entry) => e.filename == filename)
  }

  predicate HasDigest(es: seq<Entry>, digest: Digest) {
    exists i :: 0 <= i < |es| && es[i].digest == digest
  }

  function Min(a: nat, b: nat): nat { if a < b then a else b }

  datatype Added = Added(bucket: Bucket, errs: nat)

  /** The entry after add_entry has found or made it. */
  function Touch(e: Entry, s: Seen): Entry {
    match s
    case LinkSeen(_, id) => e.(oldId := Min(id, e.oldId))
    case FileSeen(_, d) => if e.needSymlink then e else e.(needSymlink := true, digest := d)
  }

  /** num_needed is an unsigned short. */
  function CountUp(n: nat, e: Entry, s: Seen): nat {
    if s.FileSeen? && !e.needSymlink then (n + 1) % 65536 else n
  }

  function FreshEntry(filename: string): Entry { Entry(filename, NO_ID, false, ZERO_DIGEST) }

  function Add(b: Bucket, s: Seen): Added {
    if s.FileSeen? && HasDigest(b.entries, s.digest) then Added(b, 0)
    else
      var k := FindFile(b.entries, s.filename);
      if k < |b.entries| then
        var e := b.entries[k];
        Added(Bucket(b.entries[k := Touch(e, s)], CountUp(b.numNeeded, e, s)), 0)
      else if b.numNeeded >= MAX_COLLISIONS then Added(b, 1)
      else
        var e := FreshEntry(s.filename);
        Added(Bucket(b.entries + [Touch(e, s)], CountUp(b.numNeeded, e, s)), 0)
  }

  /** A new file for a bucket that has its fill of needed entries. */
  predicate Refuses(b: Bucket, s: Seen) {
    && b.numNeeded >= 256
    && (forall i :: 0 <= i < |b.entries| ==> b.entries[i].filename != s.filename)
    && (s.FileSeen? ==> forall i :: 0 <= i < |b.entries| ==> b.entries[i].digest != s.digest)
  }

  /** The only error of add_entry, and it leaves the bucket alone. */
  lemma {:induction false} AddRefuses(b: Bucket, s: Seen)
    ensures Add(b, s).errs == if Refuses(b, s) then 1 else 0
    ensures Refuses(b, s) ==> Add(b, s).bucket == b
  {
    var k := FindFile(b.entries, s.filename);
    if k < |b.entries| { assert b.entries[k].filename == s.filename; }
  }

  function Run(hist: seq<Seen>): Bucket {
    if hist == [] then EMPTY else Add(Run(hist[..|hist| - 1]), hist[|hist| - 1]).bucket
  }

  function NeededCount(es: seq<Entry>): nat {
    if es == [] then 0
    else NeededCount(es[..|es| - 1]) + if es[|es| - 1].needSymlink then 1 else 0
  }

  /** The least id among the links to a file in the history, NO_ID without one. */
  function MinId(hist: seq<Seen>, filename: string): (m: nat)
    ensures m <= NO_ID
    ensures forall id :: LinkSeen(filename, id) in hist ==> m <= id
    ensures m == NO_ID || LinkSeen(filename, m) in hist
  {
    if hist == [] then NO_ID
    else
      var last := hist[|hist| - 1];
      var m := MinId(hist[..|hist| - 1], filename);
      assert hist == hist[..|hist| - 1] + [last];
      if last.LinkSeen? && last.filename == filename then Min(last.id, m) else m
  }

  predicate DistinctFiles(es: seq<Entry>) {
    forall i, j :: 0 <= i < j < |es| ==> es[i].filename != es[j].filename
  }

  predicate DistinctDigests(es: seq<Entry>) {
    forall i, j :: 0 <= i < j < |es| && es[i].needSymlink && es[j].needSymlink
                   ==> es[i].digest != es[j].digest
  }

  /** Every entry records what the history said about its file. */
  predicate Recorded(hist: seq<Seen>, es: seq<Entry>) {
    forall i :: 0 <= i < |es| ==>
      && es[i].oldId == MinId(hist, es[i].filename)
      && (es[i].needSymlink ==> FileSeen(es[i].filename, es[i].digest) in hist)
      && (!es[i].needSymlink ==> es[i].digest == ZERO_DIGEST)
  }

  /** A linked file without an entry was refused for lack of room; num_needed never falls, so
      such a file stays refused. */
  predicate RefusedOnlyWhenFull(hist: seq<Seen>, b: Bucket) {
    forall i :: 0 <= i < |hist| && hist[i].LinkSeen? && !HasFile(b.entries, hist[i].filename)
                ==> b.numNeeded >= MAX_COLLISIONS
  }

  predicate HasFile(es: seq<Entry>, filename: string) {
    exists i :: 0 <= i < |es| && es[i].filename == filename
  }

  ghost predicate Invariant(hist: seq<Seen>, b: Bucket) {
    && DistinctFiles(b.entries)
    && DistinctDigests(b.entries)
    && b.numNeeded == NeededCount(b.entries)
    && Recorded(hist, b.entries)
    && RefusedOnlyWhenFull(hist, b)
  }

  lemma {:induction false} NeededCountUpdate(es: seq<Entry>, k: nat, e: Entry)
    requires k < |es|
    ensures NeededCount(es[k := e])
         == NeededCount(es) - (if es[k].needSymlink then 1 else 0) + (if e.needSymlink then 1 else 0)
  {
    var front := es[..|es| - 1];
    if k == |es| - 1 {
      assert es[k := e][..k] == front;
    } else {
      NeededCountUpdate(front, k, e);
      assert es[k := e][..|es| - 1] == front[k := e];
    }
  }

  lemma {:induction false} NeededCountAppend(es: seq<Entry>, e: Entry)
    ensures NeededCount(es + [e]) == NeededCount(es) + if e.needSymlink then 1 else 0
  {
    assert (es + [e])[..|es|] == es;
  }

  /** add_entry gives an entry a need. */
  predicate Gains(b: Bucket, s: Seen) {
    && s.FileSeen? && !HasDigest(b.entries, s.digest)
    && var k := FindFile(b.entries, s.filename); if k < |b.entries| then !b.entries[k].needSymlink else b.numNeeded < MAX_COLLISIONS
  }

  lemma {:induction false} AddGains(b: Bucket, s: Seen)
    ensures var a, gain := Add(b, s).bucket, if Gains(b, s) then 1 else 0;
      NeededCount(a.entries) == NeededCount(b.entries) + gain && a.numNeeded == if Gains(b, s) then (b.numNeeded + 1) % 65536 else b.numNeeded
  {
    var k := FindFile(b.entries, s.filename);
    if k < |b.entries| {
      NeededCountUpdate(b.entries, k, Touch(b.entries[k], s));
    } else {
      NeededCountAppend(b.entries, Touch(FreshEntry(s.filename), s));
    }
  }

  /** add_entry never loses a needed entry. */
  lemma {:induction false} AddCounts(b: Bucket, s: Seen)
    ensures NeededCount(b.entries) <= NeededCount(Add(b, s).bucket.entries)
                                   <= NeededCount(b.entries) + 1
    ensures b.numNeeded == NeededCount(b.entries) && NeededCount(Add(b, s).bucket.entries) < 65536
            ==> Add(b, s).bucket.numNeeded == NeededCount(Add(b, s).bucket.entries)
  {
    AddGains(b, s);
  }

  lemma {:induction false} MinIdAppend(hist: seq<Seen>, s: Seen, f: string)
    ensures MinId(hist + [s], f)
         == if s.LinkSeen? && s.filename == f then Min(s.id, MinId(hist, f)) else MinId(hist, f)
  {
    assert (hist + [s])[..|hist|] == hist;
  }

  /** A refused or unmentioned file has seen no link that the bucket would have to remember. */
  lemma {:induction false} NoLinkNoId(hist: seq<Seen>, f: string)
    requires forall i :: 0 <= i < |hist| && hist[i].LinkSeen? ==> hist[i].filename != f
    ensures MinId(hist, f) == NO_ID
  {
  }

  /** The entries keep their names when one is touched or one is appended. */
  lemma {:induction false} AddKeepsNames(b: Bucket, s: Seen)
    ensures var es := Add(b, s).bucket.entries;
      && |b.entries| <= |es| <= |b.entries| + 1
      && (forall i :: 0 <= i < |b.entries| ==> es[i].filename == b.entries[i].filename)
      && (|es| > |b.entries| ==> es[|b.entries|].filename == s.filename && !HasFile(b.entries, s.filename))
  {
  }

  lemma {:induction false} AddKeepsDistinct(b: Bucket, s: Seen)
    requires DistinctFiles(b.entries) && DistinctDigests(b.entries)
    ensures DistinctFiles(Add(b, s).bucket.entries) && DistinctDigests(Add(b, s).bucket.entries)
  {
    AddKeepsNames(b, s);
  }

  lemma {:induction false} AddKeepsRefusals(hist: seq<Seen>, b: Bucket, s: Seen)
    requires RefusedOnlyWhenFull(hist, b)
    requires b.numNeeded <= Add(b, s).bucket.numNeeded
    ensures RefusedOnlyWhenFull(hist + [s], Add(b, s).bucket)
  {
    var b', h := Add(b, s).bucket, hist + [s];
    AddKeepsNames(b, s);
    forall i | 0 <= i < |h| && h[i].LinkSeen? && !HasFile(b'.entries, h[i].filename)
      ensures b'.numNeeded >= MAX_COLLISIONS
    {
      if i < |hist| {
        forall j | 0 <= j < |b.entries| ensures b.entries[j].filename != h[i].filename {
          assert b'.entries[j].filename == b.entries[j].filename;
        }
        assert hist[i].LinkSeen? && !HasFile(b.entries, hist[i].filename);
      }
    }
  }

  lemma {:induction false} TouchRecorded(hist: seq<Seen>, e: Entry, s: Seen)
    requires Recorded(hist, [e]) && e.filename == s.filename
    ensures Recorded(hist + [s], [Touch(e, s)])
  {
    assert [e][0] == e;
    MinIdAppend(hist, s, e.filename);
  }

  lemma {:induction false} AddKeepsRecord(hist: seq<Seen>, b: Bucket, s: Seen)
    requires DistinctFiles(b.entries) && Recorded(hist, b.entries) && RefusedOnlyWhenFull(hist, b)
    ensures Recorded(hist + [s], Add(b, s).bucket.entries)
  {
    var es, es' := b.entries, Add(b, s).bucket.entries;
    AddKeepsNames(b, s);
    var k := FindFile(es, s.filename);
    forall i | 0 <= i < |es'| ensures Recorded(hist + [s], [es'[i]]) {
      if i < |es| {
        MinIdAppend(hist, s, es[i].filename);
        assert Recorded(hist, [es[i]]);
        if i == k { TouchRecorded(hist, es[i], s); }
      } else {
        forall j | 0 <= j < |hist| && hist[j].LinkSeen? ensures hist[j].filename != s.filename {
          assert HasFile(es, hist[j].filename);
        }
        NoLinkNoId(hist, s.filename);
        TouchRecorded(hist, FreshEntry(s.filename), s);
      }
    }
    forall i | 0 <= i < |es'|
      ensures && es'[i].oldId == MinId(hist + [s], es'[i].filename)
              && (es'[i].needSymlink ==> FileSeen(es'[i].filename, es'[i].digest) in hist + [s])
              && (!es'[i].needSymlink ==> es'[i].digest == ZERO_DIGEST)
    {
      assert Recorded(hist + [s], [es'[i]]) && [es'[i]][0] == es'[i];
    }
  }

  lemma {:induction false} AddKeepsInvariant(hist: seq<Seen>, b: Bucket, s: Seen)
    requires Invariant(hist, b)
    requires NeededCount(Add(b, s).bucket.entries) < 65536
    ensures Invariant(hist + [s], Add(b, s).bucket)
  {
    AddCounts(b, s);
    AddKeepsDistinct(b, s);
    AddKeepsRefusals(hist, b, s);
    AddKeepsRecord(hist, b, s);
  }

  /** After any history of add_entry calls: file names in a bucket are distinct, so are the
      digests of the entries needing links, old_id is the least id seen for the file, and
      num_needed counts the entries needing links (while the 16-bit counter does not wrap). */
  lemma {:induction false} RunInvariant(hist: seq<Seen>)
    requires NeededCount(Run(hist).entries) < 65536
    ensures Invariant(hist, Run(hist))
  {
    if hist != [] {
      var front, s := hist[..|hist| - 1], hist[|hist| - 1];
      AddCounts(Run(front), s);
      RunInvariant(front);
      assert hist == front + [s];
      AddKeepsInvariant(front, Run(front), s);
    }
  }

  lemma {:induction false} AddCountsModulo(b: Bucket, s: Seen)
    requires b.numNeeded == NeededCount(b.entries) % 65536
    ensures Add(b, s).bucket.numNeeded == NeededCount(Add(b, s).bucket.entries) % 65536
  {
    AddGains(b, s);
    CountModulo(b, Add(b, s).bucket, Gains(b, s));
  }

  /** A 16-bit counter that goes up with the count. */
  lemma {:induction false} CountModulo(b: Bucket, a: Bucket, gain: bool)
    requires b.numNeeded == NeededCount(b.entries) % 65536
    requires NeededCount(a.entries) == NeededCount(b.entries) + (if gain then 1 else 0)
    requires a.numNeeded == if gain then (b.numNeeded + 1) % 65536 else b.numNeeded
    ensures a.numNeeded == NeededCount(a.entries) % 65536
  {
  }

  /** What holds of histories of any length, the counter wrapped or not. */
  lemma {:induction false} RunShape(hist: seq<Seen>)
    ensures var b := Run(hist);
      DistinctFiles(b.entries) && DistinctDigests(b.entries) && b.numNeeded == NeededCount(b.entries) % 65536
  {
    if hist != [] {
      var front, s := hist[..|hist| - 1], hist[|hist| - 1];
      RunShape(front);
      AddKeepsDistinct(Run(front), s);
      AddCountsModulo(Run(front), s);
    }
  }

  // ---- new names ----

  lemma {:induction false} RunSnoc(h: seq<Seen>, s: Seen)
    ensures Run(h + [s]) == Add(Run(h), s).bucket
  {
    Snoc(h, s);
  }

  /** A file with a new name and a new digest is appended. */
  lemma {:induction false} AddNew(b: Bucket, f: string, d: Digest)
    requires b.numNeeded < MAX_COLLISIONS
    requires forall i :: 0 <= i < |b.entries| ==> b.entries[i].filename != f && b.entries[i].digest != d
    ensures Add(b, FileSeen(f, d)).bucket == Bucket(b.entries + [Entry(f, NO_ID, true, d)], b.numNeeded + 1)
  {
    assert FindFile(b.entries, f) == |b.entries|;
  }

  /** So is a link to a new name. */
  lemma {:induction false} AddNewLink(b: Bucket, f: string, id: nat)
    requires b.numNeeded < MAX_COLLISIONS && id < 65536
    requires forall i :: 0 <= i < |b.entries| ==> b.entries[i].filename != f
    ensures Add(b, LinkSeen(f, id)).bucket == Bucket(b.entries + [Entry(f, id, false, ZERO_DIGEST)], b.numNeeded)
  {
    assert FindFile(b.entries, f) == |b.entries|;
  }

  /** A file picked to carry the link of its certificate or CRL. */
  datatype Pick = Pick(filename: string, digest: Digest)

  predicate PicksFile(c: seq<Pick>, f: string) { exists i :: 0 <= i < |c| && c[i].filename == f }

  predicate PicksDigest(c: seq<Pick>, d: Digest) { exists i :: 0 <= i < |c| && c[i].digest == d }

  /** Which files need a link, told from the files alone: the first file of each digest. */
  function Chosen(hist: seq<Seen>): seq<Pick> {
    if hist == [] then []
    else
      var c, s := Chosen(hist[..|hist| - 1]), hist[|hist| - 1];
      if s.FileSeen? && !PicksFile(c, s.filename) && !PicksDigest(c, s.digest)
      then c + [Pick(s.filename, s.digest)] else c
  }

  lemma {:induction false} ChosenAppend(hist: seq<Seen>, s: Seen)
    ensures Chosen(hist + [s])
         == var c := Chosen(hist);
            if s.FileSeen? && !PicksFile(c, s.filename) && !PicksDigest(c, s.digest)
            then c + [Pick(s.filename, s.digest)] else c
  {
    assert (hist + [s])[..|hist|] == hist;
  }

  /** SHA-1 of a real file is never the all-zero filler. */
  predicate RealDigests(hist: seq<Seen>) {
    forall i :: 0 <= i < |hist| && hist[i].FileSeen? ==> hist[i].digest != ZERO_DIGEST
  }

  predicate Carries(es: seq<Entry>, p: Pick) {
    var k := FindFile(es, p.filename);
    k < |es| && es[k].needSymlink && es[k].digest == p.digest
  }

  /** The entries needing links are the picks. */
  predicate Matches(es: seq<Entry>, c: seq<Pick>) {
    && (forall i :: 0 <= i < |es| && es[i].needSymlink ==> Pick(es[i].filename, es[i].digest) in c)
    && (forall p :: p in c ==> Carries(es, p))
  }

  lemma {:induction false} FindAt(es: seq<Entry>, k: nat)
    requires DistinctFiles(es) && k < |es|
    ensures FindFile(es, es[k].filename) == k
  {
  }

  lemma {:induction false} SameNamesSameFind(es: seq<Entry>, es': seq<Entry>, f: string)
    requires |es| <= |es'| && forall i :: 0 <= i < |es| ==> es[i].filename == es'[i].filename
    requires |es| == |es'| || FindFile(es, f) < |es|
    ensures FindFile(es, f) == FindFile(es', f)
  {
  }

  lemma {:induction false} MatchesFound(es: seq<Entry>, c: seq<Pick>, k: nat, d: Digest)
    requires Matches(es, c) && DistinctFiles(es) && k < |es| && !es[k].needSymlink
    ensures !PicksFile(c, es[k].filename)
    ensures Matches(es[k := es[k].(needSymlink := true, digest := d)], c + [Pick(es[k].filename, d)])
  {
    var p := Pick(es[k].filename, d);
    var es', c' := es[k := es[k].(needSymlink := true, digest := d)], c + [p];
    FindAt(es, k);
    forall i | 0 <= i < |c| ensures c[i].filename != es[k].filename { assert Carries(es, c[i]); }
    forall i | 0 <= i < |es'| && es'[i].needSymlink ensures Pick(es'[i].filename, es'[i].digest) in c' {
      if i != k { assert Pick(es[i].filename, es[i].digest) in c; }
    }
    forall q | q in c' ensures Carries(es', q) {
      SameNamesSameFind(es, es', q.filename);
    }
  }

  lemma {:induction false} MatchesNew(es: seq<Entry>, c: seq<Pick>, e: Entry)
    requires Matches(es, c) && FindFile(es, e.filename) == |es| && e.needSymlink
    ensures !PicksFile(c, e.filename)
    ensures Matches(es + [e], c + [Pick(e.filename, e.digest)])
  {
    var p := Pick(e.filename, e.digest);
    var es', c' := es + [e], c + [p];
    forall i | 0 <= i < |c| ensures c[i].filename != e.filename { assert Carries(es, c[i]); }
    assert forall i :: 0 <= i < |es| ==> es'[i] == es[i];
    assert es'[|es|].filename == e.filename;
    forall i | 0 <= i < |es'| && es'[i].needSymlink ensures Pick(es'[i].filename, es'[i].digest) in c' {
      if i < |es| { assert Pick(es[i].filename, es[i].digest) in c; }
    }
    forall q | q in c' ensures Carries(es', q) {
      if q in c { SameNamesSameFind(es, es', q.filename); }
    }
  }

  lemma {:induction false} MatchesUnneeded(es: seq<Entry>, c: seq<Pick>, e: Entry)
    requires Matches(es, c) && !e.needSymlink
    ensures Matches(es + [e], c)
  {
    forall p | p in c ensures Carries(es + [e], p) {
      SameNamesSameFind(es, es + [e], p.filename);
    }
  }

  lemma {:induction false} MatchesRenumber(es: seq<Entry>, c: seq<Pick>, k: nat, id: nat)
    requires Matches(es, c) && k < |es|
    ensures Matches(es[k := es[k].(oldId := id)], c)
  {
    var es' := es[k := es[k].(oldId := id)];
    forall i | 0 <= i < |es'| && es'[i].needSymlink ensures Pick(es'[i].filename, es'[i].digest) in c {
      assert Pick(es[i].filename, es[i].digest) in c;
    }
    forall p | p in c ensures Carries(es', p) {
      SameNamesSameFind(es, es', p.filename);
    }
  }

  lemma {:induction false} DigestsSeen(es: seq<Entry>, hist: seq<Seen>, c: seq<Pick>, d: Digest)
    requires Matches(es, c) && Recorded(hist, es) && d != ZERO_DIGEST
    ensures HasDigest(es, d) <==> PicksDigest(c, d)
  {
    if HasDigest(es, d) {
      var i :| 0 <= i < |es| && es[i].digest == d;
      var j :| 0 <= j < |c| && c[j] == Pick(es[i].filename, d);
    }
    if PicksDigest(c, d) {
      var i :| 0 <= i < |c| && c[i].digest == d;
      assert c[i] in c && Carries(es, c[i]);
    }
  }

  lemma {:induction false} AddLinkKeepsMatch(b: Bucket, c: seq<Pick>, f: string, id: nat)
    requires Matches(b.entries, c)
    ensures Matches(Add(b, LinkSeen(f, id)).bucket.entries, c)
    ensures Add(b, LinkSeen(f, id)).bucket.numNeeded == b.numNeeded
  {
    var k := FindFile(b.entries, f);
    if k < |b.entries| {
      MatchesRenumber(b.entries, c, k, Min(id, b.entries[k].oldId));
    } else if b.numNeeded < MAX_COLLISIONS {
      MatchesUnneeded(b.entries, c, FreshEntry(f).(oldId := Min(id, NO_ID)));
    }
  }

  lemma {:induction false} AddFileKeepsMatch(b: Bucket, c: seq<Pick>, f: string, d: Digest)
    requires Matches(b.entries, c) && DistinctFiles(b.entries)
    requires HasDigest(b.entries, d) <==> PicksDigest(c, d)
    requires b.numNeeded == |c| <= MAX_COLLISIONS
    requires |c| == MAX_COLLISIONS ==> PicksFile(c, f) || PicksDigest(c, d)
    ensures var a := Add(b, FileSeen(f, d)).bucket;
            var c' := if !PicksFile(c, f) && !PicksDigest(c, d) then c + [Pick(f, d)] else c;
            Matches(a.entries, c') && a.numNeeded == |c'|
  {
    var es := b.entries;
    var k := FindFile(es, f);
    var a := Add(b, FileSeen(f, d)).bucket;
    if HasDigest(es, d) {
      assert a == b;
    } else if k == |es| {
      var e := FreshEntry(f).(needSymlink := true, digest := d);
      MatchesNew(es, c, e);
      assert a == Bucket(es + [e], |c| + 1);
    } else if es[k].needSymlink {
      NeededIsPicked(es, c, k);
      assert a == b by { assert es[k := es[k]] == es; }
    } else {
      MatchesFound(es, c, k, d);
      assert a == Bucket(es[k := es[k].(needSymlink := true, digest := d)], |c| + 1);
    }
  }

  lemma {:induction false} NeededIsPicked(es: seq<Entry>, c: seq<Pick>, k: nat)
    requires Matches(es, c) && k < |es| && es[k].needSymlink
    ensures PicksFile(c, es[k].filename)
  {
    var i :| 0 <= i < |c| && c[i] == Pick(es[k].filename, es[k].digest);
  }

  lemma {:induction false} AddKeepsMatch(hist: seq<Seen>, b: Bucket, s: Seen)
    requires Invariant(hist, b) && Matches(b.entries, Chosen(hist))
    requires s.FileSeen? ==> s.digest != ZERO_DIGEST
    requires b.numNeeded == |Chosen(hist)| && |Chosen(hist + [s])| <= MAX_COLLISIONS
    ensures Matches(Add(b, s).bucket.entries, Chosen(hist + [s]))
    ensures Add(b, s).bucket.numNeeded == |Chosen(hist + [s])|
  {
    ChosenAppend(hist, s);
    match s {
      case LinkSeen(f, id) =>
        AddLinkKeepsMatch(b, Chosen(hist), f, id);
      case FileSeen(f, d) =>
        DigestsSeen(b.entries, hist, Chosen(hist), d);
        AddFileKeepsMatch(b, Chosen(hist), f, d);
    }
  }

  /** Whatever links are on disk and in whatever order they are met, the files that end up
      needing a link are the picks, as long as there are at most 256 of them. */
  lemma {:induction false} NeededAreChosen(hist: seq<Seen>)
    requires RealDigests(hist) && |Chosen(hist)| <= MAX_COLLISIONS
    ensures Matches(Run(hist).entries, Chosen(hist))
    ensures Run(hist).numNeeded == |Chosen(hist)| == NeededCount(Run(hist).entries)
    ensures Invariant(hist, Run(hist))
  {
    if hist != [] {
      var front, s := hist[..|hist| - 1], hist[|hist| - 1];
      assert hist == front + [s];
      NeededAreChosen(front);
      AddCounts(Run(front), s);
      AddKeepsMatch(front, Run(front), s);
      AddKeepsInvariant(front, Run(front), s);
    }
  }

  predicate Linked(hist: seq<Seen>, f: string) {
    exists i :: 0 <= i < |hist| && hist[i].LinkSeen? && hist[i].filename == f
  }

  /** An entry exists because of a link or because its file needs one. */
  predicate Justified(hist: seq<Seen>, es: seq<Entry>) {
    forall i :: 0 <= i < |es| && !es[i].needSymlink ==> Linked(hist, es[i].filename)
  }

  lemma {:induction false} AddJustified(hist: seq<Seen>, b: Bucket, s: Seen)
    requires Justified(hist, b.entries)
    ensures Justified(hist + [s], Add(b, s).bucket.entries)
  {
    var es, h := Add(b, s).bucket.entries, hist + [s];
    AddKeepsNames(b, s);
    forall i | 0 <= i < |es| && !es[i].needSymlink ensures Linked(h, es[i].filename) {
      if i < |b.entries| {
        assert !b.entries[i].needSymlink;
        var j :| 0 <= j < |hist| && hist[j].LinkSeen? && hist[j].filename == es[i].filename;
        assert h[j] == hist[j];
      } else {
        assert h[|hist|] == s;
      }
    }
  }

  lemma {:induction false} RunJustified(hist: seq<Seen>)
    ensures Justified(hist, Run(hist).entries)
  {
    if hist != [] {
      var front, s := hist[..|hist| - 1], hist[|hist| - 1];
      assert hist == front + [s];
      RunJustified(front);
      AddJustified(front, Run(front), s);
    }
  }

  /** Every link points at a file that needs it. */
  predicate LinksWanted(hist: seq<Seen>) {
    forall i :: 0 <= i < |hist| && hist[i].LinkSeen? ==> PicksFile(Chosen(hist), hist[i].filename)
  }

  lemma {:induction false} PickedIsNeeded(es: seq<Entry>, c: seq<Pick>, i: nat)
    requires Matches(es, c) && DistinctFiles(es) && i < |es| && PicksFile(c, es[i].filename)
    ensures es[i].needSymlink
  {
    var p :| 0 <= p < |c| && c[p].filename == es[i].filename;
    assert Carries(es, c[p]);
    FindAt(es, i);
  }

  lemma {:induction false} AllEntriesNeeded(hist: seq<Seen>)
    requires RealDigests(hist) && |Chosen(hist)| <= MAX_COLLISIONS && LinksWanted(hist)
    ensures forall i :: 0 <= i < |Run(hist).entries| ==> Run(hist).entries[i].needSymlink
  {
    NeededAreChosen(hist);
    RunJustified(hist);
    var es, c := Run(hist).entries, Chosen(hist);
    forall i | 0 <= i < |es| ensures es[i].needSymlink {
      if !es[i].needSymlink {
        assert Linked(hist, es[i].filename);
        var j :| 0 <= j < |hist| && hist[j].LinkSeen? && hist[j].filename == es[i].filename;
        PickedIsNeeded(es, c, i);
      }
    }
  }
}
