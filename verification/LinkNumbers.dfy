/** How rehash numbers the links of one bucket: ids below num_needed are kept, every other entry
    that needs a link takes the least free number, the rest are dropped. */
module LinkNumbers {
  import opened RehashBucket

  datatype Action = Keep(id: nat) | Create(id: nat) | Drop(id: nat)

  /** Old ids the bit mask starts with. */
  function Used(es: seq<Entry>, n: nat): set<nat> {
    set i | 0 <= i < |es| && es[i].oldId < n :: es[i].oldId
  }

  function From(used: set<nat>, k: nat): set<nat> { set u | u in used && u >= k }

  function LeastFree(used: set<nat>, from: nat): (id: nat)
    ensures id >= from && id !in used && forall j :: from <= j < id ==> j in used
    decreases From(used, from)
  {
    if from in used then
      assert from in From(used, from) && from !in From(used, from + 1);
      assert From(used, from + 1) <= From(used, from);
      LeastFree(used, from + 1)
    else from
  }

  predicate Wanting(e: Entry, n: nat) { e.oldId >= n && e.needSymlink }

  /** The second loop over the entries; used is the mask, which grows as links are made. */
  function Assign(es: seq<Entry>, n: nat, used: set<nat>): (r: seq<Action>)
    ensures |r| == |es|
    decreases |es|
  {
    if es == [] then []
    else if es[0].oldId < n then [Keep(es[0].oldId)] + Assign(es[1..], n, used)
    else if es[0].needSymlink then
      var id := LeastFree(used, 0);
      [Create(id)] + Assign(es[1..], n, used + {id})
    else [Drop(es[0].oldId)] + Assign(es[1..], n, used)
  }

  /** The actions for a whole bucket. */
  function Plan(b: Bucket): (r: seq<Action>)
    ensures |r| == |b.entries|
  {
    Assign(b.entries, b.numNeeded, Used(b.entries, b.numNeeded))
  }

  function CountWanting(es: seq<Entry>, n: nat): nat {
    if es == [] then 0 else (if Wanting(es[0], n) then 1 else 0) + CountWanting(es[1..], n)
  }

  function Created(acts: seq<Action>): set<nat> {
    set i | 0 <= i < |acts| && acts[i].Create? :: acts[i].id
  }

  function Upto(n: nat): (s: set<nat>)
    ensures forall k :: k in s <==> 0 <= k < n
  {
    if n == 0 then {} else Upto(n - 1) + {n - 1}
  }

  lemma {:induction false} UptoSize(n: nat)
    ensures |Upto(n)| == n
  {
    if n > 0 {
      UptoSize(n - 1);
    }
  }

  lemma {:induction false} SubsetSize<T>(a: set<T>, b: set<T>)
    requires a <= b
    ensures |a| <= |b|
    ensures |a| == |b| ==> a == b
  {
    assert b == a + (b - a);
  }

  /** Created numbers were free and are one per wanting entry, hence pairwise distinct. */
  lemma {:induction false} CreatedAreFresh(es: seq<Entry>, n: nat, used: set<nat>)
    ensures Created(Assign(es, n, used)) !! used
    ensures |Created(Assign(es, n, used))| == CountWanting(es, n)
    decreases |es|
  {
    var acts := Assign(es, n, used);
    if es == [] {
    } else {
      var rest := acts[1..];
      if es[0].oldId >= n && es[0].needSymlink {
        var id := LeastFree(used, 0);
        CreatedAreFresh(es[1..], n, used + {id});
        assert acts == [Create(id)] + Assign(es[1..], n, used + {id});
        CreatedCons(Create(id), rest);
      } else {
        CreatedAreFresh(es[1..], n, used);
        CreatedCons(acts[0], rest);
      }
      assert acts == [acts[0]] + rest;
    }
  }

  lemma {:induction false} CreatedCons(a: Action, rest: seq<Action>)
    ensures Created([a] + rest) == Created(rest) + if a.Create? then {a.id} else {}
  {
    var acts := [a] + rest;
    forall x | x in Created(rest) + if a.Create? then {a.id} else {} ensures x in Created(acts) {
      if x in Created(rest) {
        var i :| 0 <= i < |rest| && rest[i].Create? && rest[i].id == x;
        assert acts[i + 1] == rest[i];
      } else {
        assert acts[0] == a;
      }
    }
    forall x | x in Created(acts) ensures x in Created(rest) + if a.Create? then {a.id} else {} {
      var i :| 0 <= i < |acts| && acts[i].Create? && acts[i].id == x;
      if i > 0 { assert rest[i - 1] == acts[i]; }
    }
  }

  /** No number is skipped: below a created number everything is taken in the end. */
  lemma {:induction false} CreatedAreDense(es: seq<Entry>, n: nat, used: set<nat>, id: nat)
    requires id in Created(Assign(es, n, used))
    ensures Upto(id) <= used + Created(Assign(es, n, used))
    decreases |es|
  {
    var acts := Assign(es, n, used);
    var rest := acts[1..];
    assert acts == [acts[0]] + rest;
    CreatedCons(acts[0], rest);
    if es[0].oldId >= n && es[0].needSymlink {
      var first := LeastFree(used, 0);
      assert rest == Assign(es[1..], n, used + {first});
      if id != first {
        CreatedAreDense(es[1..], n, used + {first}, id);
      }
    } else {
      assert rest == Assign(es[1..], n, used);
      CreatedAreDense(es[1..], n, used, id);
    }
  }

  /** The scan for a free number stays below a limit exactly when the taken numbers and the new
      ones fit below it. */
  lemma {:induction false} ScanStaysBelow(es: seq<Entry>, n: nat, used: set<nat>, limit: nat)
    requires used <= Upto(limit)
    ensures Created(Assign(es, n, used)) <= Upto(limit) <==> |used| + CountWanting(es, n) <= limit
  {
    var c := Created(Assign(es, n, used));
    CreatedAreFresh(es, n, used);
    UptoSize(limit);
    assert |used + c| == |used| + |c|;
    if c <= Upto(limit) {
      SubsetSize(used + c, Upto(limit));
    } else {
      var id :| id in c && id >= limit;
      CreatedAreDense(es, n, used, id);
      assert Upto(limit) + {id} <= used + c;
      SubsetSize(Upto(limit) + {id}, used + c);
    }
  }

  /** Old ids below n of the entries that need links. */
  function KeptIds(es: seq<Entry>, n: nat): set<nat> {
    set i | 0 <= i < |es| && es[i].oldId < n && es[i].needSymlink :: es[i].oldId
  }

  function CountKept(es: seq<Entry>, n: nat): nat {
    if es == [] then 0
    else (if es[0].oldId < n && es[0].needSymlink then 1 else 0) + CountKept(es[1..], n)
  }

  /** The link numbers of the entries that need links, after the pass. */
  function FinalIds(es: seq<Entry>, acts: seq<Action>): set<nat>
    requires |acts| == |es|
  {
    set i | 0 <= i < |es| && es[i].needSymlink :: acts[i].id
  }

  predicate KeptDistinct(es: seq<Entry>, n: nat) {
    forall i, j :: 0 <= i < j < |es| && es[i].needSymlink && es[j].needSymlink && es[i].oldId < n
                   ==> es[i].oldId != es[j].oldId
  }

  /** Every entry that needs no link but keeps its number shares it with one that needs it. */
  predicate NoIdleKeeper(es: seq<Entry>, n: nat) {
    forall i :: 0 <= i < |es| && !es[i].needSymlink && es[i].oldId < n ==> es[i].oldId in KeptIds(es, n)
  }

  lemma {:induction false} ActionOf(es: seq<Entry>, n: nat, used: set<nat>, i: nat)
    requires i < |es|
    ensures var a := Assign(es, n, used)[i];
      && (es[i].oldId < n ==> a == Keep(es[i].oldId))
      && (Wanting(es[i], n) ==> a.Create?)
      && (es[i].oldId >= n && !es[i].needSymlink ==> a == Drop(es[i].oldId))
    decreases |es|
  {
    if i > 0 {
      var u := if Wanting(es[0], n) then used + {LeastFree(used, 0)} else used;
      ActionOf(es[1..], n, u, i - 1);
      assert Assign(es, n, used)[1..] == Assign(es[1..], n, u);
    }
  }

  lemma {:induction false} NeededSplit(es: seq<Entry>, n: nat)
    ensures NeededCount(es) == CountKept(es, n) + CountWanting(es, n)
  {
    if es != [] {
      NeededSplit(es[1..], n);
      NeededCountHead(es);
    }
  }

  lemma {:induction false} NeededCountHead(es: seq<Entry>)
    requires es != []
    ensures NeededCount(es) == (if es[0].needSymlink then 1 else 0) + NeededCount(es[1..])
  {
    if |es| > 1 {
      NeededCountHead(es[..|es| - 1]);
      assert es[..|es| - 1][1..] == es[1..][..|es| - 2];
    } else {
      assert es[..0] == [] && es[1..] == [];
    }
  }

  lemma {:induction false} KeptIdsCons(es: seq<Entry>, n: nat)
    requires es != []
    ensures KeptIds(es, n) == KeptIds(es[1..], n) + if es[0].oldId < n && es[0].needSymlink then {es[0].oldId} else {}
  {
    forall x | x in KeptIds(es[1..], n) ensures x in KeptIds(es, n) {
      var i :| 0 <= i < |es[1..]| && es[1..][i].oldId < n && es[1..][i].needSymlink && es[1..][i].oldId == x;
      assert es[i + 1].oldId == x;
    }
    forall x | x in KeptIds(es, n)
      ensures x in KeptIds(es[1..], n) + if es[0].oldId < n && es[0].needSymlink then {es[0].oldId} else {}
    {
      var i :| 0 <= i < |es| && es[i].oldId < n && es[i].needSymlink && es[i].oldId == x;
      if i > 0 { assert es[1..][i - 1] == es[i]; }
    }
  }

  lemma {:induction false} KeptDistinctCons(es: seq<Entry>, n: nat)
    requires es != []
    ensures KeptDistinct(es, n)
            <==> KeptDistinct(es[1..], n) && (es[0].oldId < n && es[0].needSymlink ==> es[0].oldId !in KeptIds(es[1..], n))
  {
    var rest := es[1..];
    assert forall i :: 0 <= i < |rest| ==> rest[i] == es[i + 1];
    if es[0].oldId < n && es[0].needSymlink && es[0].oldId in KeptIds(rest, n) {
      var i :| 0 <= i < |rest| && rest[i].oldId < n && rest[i].needSymlink && rest[i].oldId == es[0].oldId;
      assert es[i + 1] == rest[i];
    } else if KeptDistinct(rest, n) {
      forall i, j | 0 <= i < j < |es| && es[i].needSymlink && es[j].needSymlink && es[i].oldId < n
        ensures es[i].oldId != es[j].oldId
      {
        assert es[j] == rest[j - 1];
        if i > 0 { assert es[i] == rest[i - 1]; }
      }
    }
  }

  /** Kept ids are as many as the entries keeping them exactly when no two share one. */
  lemma {:induction false} KeptIdsSize(es: seq<Entry>, n: nat)
    ensures |KeptIds(es, n)| <= CountKept(es, n)
    ensures |KeptIds(es, n)| == CountKept(es, n) <==> KeptDistinct(es, n)
  {
    if es != [] {
      KeptIdsSize(es[1..], n);
      KeptIdsCons(es, n);
      KeptDistinctCons(es, n);
    }
  }

  lemma {:induction false} FinalIdsAre(b: Bucket)
    ensures FinalIds(b.entries, Plan(b)) == KeptIds(b.entries, b.numNeeded) + Created(Plan(b))
  {
    var es, n, acts := b.entries, b.numNeeded, Plan(b);
    forall i | 0 <= i < |es|
      ensures (es[i].oldId < n ==> acts[i] == Keep(es[i].oldId))
           && (Wanting(es[i], n) ==> acts[i].Create?)
           && (es[i].oldId >= n && !es[i].needSymlink ==> acts[i] == Drop(es[i].oldId))
    {
      ActionOf(es, n, Used(es, n), i);
    }
    forall x | x in KeptIds(es, n) ensures x in FinalIds(es, acts) {
      var i :| 0 <= i < |es| && es[i].oldId < n && es[i].needSymlink && es[i].oldId == x;
      assert acts[i].id == x;
    }
  }

  lemma {:induction false} KeptWithinUsed(es: seq<Entry>, n: nat)
    ensures KeptIds(es, n) <= Used(es, n) <= Upto(n)
    ensures KeptIds(es, n) == Used(es, n) <==> NoIdleKeeper(es, n)
  {
    if NoIdleKeeper(es, n) {
      forall x | x in Used(es, n) ensures x in KeptIds(es, n) {
        var i :| 0 <= i < |es| && es[i].oldId < n && es[i].oldId == x;
      }
    } else {
      var i :| 0 <= i < |es| && !es[i].needSymlink && es[i].oldId < n && es[i].oldId !in KeptIds(es, n);
      assert es[i].oldId in Used(es, n);
    }
  }

  /** The entries needing links end with exactly the numbers 0 to n - 1, so pairwise distinct
      ones, if and only if those already below n were distinct and none of the numbers below n
      is held by an entry that needs no link. */
  lemma {:induction false} DenseNumbering(b: Bucket)
    requires b.numNeeded == NeededCount(b.entries)
    ensures FinalIds(b.entries, Plan(b)) == Upto(b.numNeeded)
            <==> KeptDistinct(b.entries, b.numNeeded) && NoIdleKeeper(b.entries, b.numNeeded)
  {
    var es, n, used := b.entries, b.numNeeded, Used(b.entries, b.numNeeded);
    var kept, c := KeptIds(es, n), Created(Plan(b));
    FinalIdsAre(b);
    CreatedAreFresh(es, n, used);
    KeptWithinUsed(es, n);
    KeptIdsSize(es, n);
    NeededSplit(es, n);
    ScanStaysBelow(es, n, used, n);
    UptoSize(n);
    SubsetSize(kept, used);
    assert |kept + c| == |kept| + |c| by { assert kept !! c; }
    if kept + c == Upto(n) {
    } else if KeptDistinct(es, n) && NoIdleKeeper(es, n) {
      SubsetSize(kept + c, Upto(n));
    }
  }

  lemma {:induction false} CreatedDistinct(es: seq<Entry>, n: nat, used: set<nat>, i: nat, j: nat)
    requires i < j < |es| && Assign(es, n, used)[i].Create? && Assign(es, n, used)[j].Create?
    ensures Assign(es, n, used)[i].id != Assign(es, n, used)[j].id
    decreases |es|
  {
    var u := if Wanting(es[0], n) then used + {LeastFree(used, 0)} else used;
    var rest := Assign(es[1..], n, u);
    assert Assign(es, n, used)[1..] == rest;
    assert Assign(es, n, used)[j] == rest[j - 1];
    if i > 0 {
      CreatedDistinct(es[1..], n, u, i - 1, j - 1);
    } else {
      CreatedAreFresh(es[1..], n, u);
      assert rest[j - 1].id in Created(rest);
    }
  }

  /** Bits of the mask that memset clears for n needed entries. */
  function ClearedBits(n: nat): nat { 8 * ((n + 7) / 8) }

  /** The bit mask covers the numbers that the scan can meet. */
  predicate MaskSuffices(b: Bucket) {
    && b.numNeeded <= MAX_COLLISIONS
    && |Used(b.entries, b.numNeeded)| + CountWanting(b.entries, b.numNeeded) <= ClearedBits(b.numNeeded)
  }

  /** Old contents of the mask above what was cleared do not matter as long as there is room below. */
  lemma {:induction false} AssignIgnoresAbove(es: seq<Entry>, n: nat, used: set<nat>, stale: set<nat>, limit: nat)
    requires used <= Upto(limit) && (forall j :: j in stale ==> j >= limit) && |used| + CountWanting(es, n) <= limit
    ensures Assign(es, n, used + stale) == Assign(es, n, used)
    decreases |es|
  {
    if es != [] {
      if Wanting(es[0], n) {
        var id := LeastFree(used, 0);
        FreeBelow(used, limit);
        SameLeast(used, stale, limit);
        assert used + stale + {id} == (used + {id}) + stale;
        AssignIgnoresAbove(es[1..], n, used + {id}, stale, limit);
      } else {
        AssignIgnoresAbove(es[1..], n, used, stale, limit);
      }
    }
  }

  lemma {:induction false} FreeBelow(used: set<nat>, limit: nat)
    requires used <= Upto(limit) && |used| < limit
    ensures LeastFree(used, 0) < limit
  {
    UptoSize(limit);
    if LeastFree(used, 0) >= limit {
      assert Upto(limit) <= used;
      SubsetSize(Upto(limit), used);
    }
  }

  lemma {:induction false} SameLeast(used: set<nat>, stale: set<nat>, limit: nat)
    requires LeastFree(used, 0) < limit && forall j :: j in stale ==> j >= limit
    ensures LeastFree(used + stale, 0) == LeastFree(used, 0)
  {
    var id, id' := LeastFree(used, 0), LeastFree(used + stale, 0);
    assert id !in used + stale;
    assert id' < id ==> id' in used;
  }

  /** Numbers that fit in the mask. */
  predicate InMask(ids: set<nat>) { forall j :: j in ids ==> j < MAX_COLLISIONS }

  /** Set bits of the mask beyond what memset clears. */
  predicate Stale(ids: set<nat>, n: nat) { forall j :: j in ids ==> ClearedBits(n) <= j < MAX_COLLISIONS }

  /** The mask is not initialised, and cleared only in part.  Whatever it holds, neither the clearing nor
      a scan leaves it, if and only if every number that the scan can meet lies in the cleared part; the
      numbers handed out then do not depend on what it held. */
  lemma {:induction false} MaskSufficesExactly(b: Bucket)
    ensures MaskSuffices(b) <==>
      && ClearedBits(b.numNeeded) <= MAX_COLLISIONS
      && forall stale :: Stale(stale, b.numNeeded) ==>
        InMask(Created(Assign(b.entries, b.numNeeded, Used(b.entries, b.numNeeded) + stale)))
    ensures MaskSuffices(b) ==>
      forall stale :: Stale(stale, b.numNeeded) ==>
        Assign(b.entries, b.numNeeded, Used(b.entries, b.numNeeded) + stale) == Plan(b)
  {
    if MaskSuffices(b) {
      forall stale | Stale(stale, b.numNeeded)
        ensures Assign(b.entries, b.numNeeded, Used(b.entries, b.numNeeded) + stale) == Plan(b)
        ensures InMask(Created(Plan(b)))
      {
        StaleIgnored(b, stale);
      }
    } else if ClearedBits(b.numNeeded) <= MAX_COLLISIONS {
      var stale := StaleLeaves(b, MAX_COLLISIONS);
      assert Stale(stale, b.numNeeded);
    }
  }

  lemma {:induction false} StaleIgnored(b: Bucket, stale: set<nat>)
    requires MaskSuffices(b) && Stale(stale, b.numNeeded)
    ensures Assign(b.entries, b.numNeeded, Used(b.entries, b.numNeeded) + stale) == Plan(b)
    ensures InMask(Created(Plan(b)))
  {
    var es, n := b.entries, b.numNeeded;
    UsedBelow(es, n);
    AssignIgnoresAbove(es, n, Used(es, n), stale, ClearedBits(n));
    ScanStaysBelow(es, n, Used(es, n), ClearedBits(n));
  }

  /** With every uncleared bit set, the scan passes the end of a mask of top bits. */
  lemma {:induction false} StaleLeaves(b: Bucket, top: nat) returns (stale: set<nat>)
    requires ClearedBits(b.numNeeded) <= top && b.numNeeded <= MAX_COLLISIONS && !MaskSuffices(b)
    ensures forall j :: j in stale ==> ClearedBits(b.numNeeded) <= j < top
    ensures exists j :: j in Created(Assign(b.entries, b.numNeeded, Used(b.entries, b.numNeeded) + stale)) && j >= top
  {
    var es, n := b.entries, b.numNeeded;
    var used, bits := Used(es, n), ClearedBits(n);
    UsedBelow(es, n);
    stale := Upto(top) - Upto(bits);
    DifferenceSize(Upto(top), Upto(bits));
    UptoSize(top);
    UptoSize(bits);
    assert used !! stale;
    assert |used + stale| == |used| + |stale|;
    ScanStaysBelow(es, n, used + stale, top);
  }

  lemma {:induction false} DifferenceSize<T>(a: set<T>, b: set<T>)
    requires b <= a
    ensures |a - b| == |a| - |b|
  {
    assert a == (a - b) + b;
  }

  lemma {:induction false} UsedBelow(es: seq<Entry>, n: nat)
    ensures Used(es, n) <= Upto(n)
  {
  }

  /** No number at or above num_needed is looked at or handed out, if and only if the numbers in use
      leave room below it for every entry that wants one. */
  lemma {:induction false} NewIdsBelowNeeded(b: Bucket)
    ensures Created(Plan(b)) <= Upto(b.numNeeded)
            <==> |Used(b.entries, b.numNeeded)| + CountWanting(b.entries, b.numNeeded) <= b.numNeeded
  {
    UsedBelow(b.entries, b.numNeeded);
    ScanStaysBelow(b.entries, b.numNeeded, Used(b.entries, b.numNeeded), b.numNeeded);
  }

  lemma {:induction false} AllNeededFit(b: Bucket)
    requires b.numNeeded == NeededCount(b.entries) <= MAX_COLLISIONS
    requires forall i :: 0 <= i < |b.entries| ==> b.entries[i].needSymlink
    ensures MaskSuffices(b) && Created(Plan(b)) <= Upto(b.numNeeded)
  {
    var es, n := b.entries, b.numNeeded;
    KeptWithinUsed(es, n);
    KeptIdsSize(es, n);
    NeededSplit(es, n);
    NewIdsBelowNeeded(b);
  }

  /** Two entries that need links never share a number after the pass, if and only if no two of
      them shared one below num_needed before it. */
  lemma {:induction false} NumbersDistinct(b: Bucket)
    ensures KeptDistinct(b.entries, b.numNeeded) <==>
      forall i, j :: 0 <= i < j < |b.entries| && b.entries[i].needSymlink && b.entries[j].needSymlink
                     ==> Plan(b)[i].id != Plan(b)[j].id
  {
    var es, n, acts := b.entries, b.numNeeded, Plan(b);
    if KeptDistinct(es, n) {
      forall i, j | 0 <= i < j < |es| && es[i].needSymlink && es[j].needSymlink ensures acts[i].id != acts[j].id {
        ApartInPlan(b, i, j);
      }
    } else {
      var i, j :| 0 <= i < j < |es| && es[i].needSymlink && es[j].needSymlink && es[i].oldId < n && es[i].oldId == es[j].oldId;
      ActionOf(es, n, Used(es, n), i);
      ActionOf(es, n, Used(es, n), j);
      assert acts[i].id == acts[j].id;
    }
  }

  lemma {:induction false} ApartInPlan(b: Bucket, i: nat, j: nat)
    requires KeptDistinct(b.entries, b.numNeeded)
    requires i < j < |b.entries| && b.entries[i].needSymlink && b.entries[j].needSymlink
    ensures Plan(b)[i].id != Plan(b)[j].id
  {
    var es, n, acts := b.entries, b.numNeeded, Plan(b);
    var used := Used(es, n);
    ActionOf(es, n, used, i);
    ActionOf(es, n, used, j);
    CreatedAreFresh(es, n, used);
    if Wanting(es[i], n) && Wanting(es[j], n) {
      CreatedDistinct(es, n, used, i, j);
    } else if Wanting(es[i], n) {
      assert acts[i].id in Created(acts) && es[j].oldId in used;
    } else if Wanting(es[j], n) {
      assert acts[j].id in Created(acts) && es[i].oldId in used;
    }
  }

  /** The pass on a bucket that meets the conditions: exactly the numbers below num_needed, pairwise
      distinct, those already there kept, and no scan leaves the mask. */
  lemma {:induction false} CleanBucket(b: Bucket)
    requires b.numNeeded == NeededCount(b.entries) <= MAX_COLLISIONS
    requires KeptDistinct(b.entries, b.numNeeded) && NoIdleKeeper(b.entries, b.numNeeded)
    ensures FinalIds(b.entries, Plan(b)) == Upto(b.numNeeded)
    ensures forall i, j :: 0 <= i < j < |b.entries| && b.entries[i].needSymlink && b.entries[j].needSymlink
                           ==> Plan(b)[i].id != Plan(b)[j].id
    ensures forall i :: 0 <= i < |b.entries| && b.entries[i].oldId < b.numNeeded ==> Plan(b)[i] == Keep(b.entries[i].oldId)
    ensures Created(Plan(b)) <= Upto(b.numNeeded) && MaskSuffices(b)
  {
    var es, n := b.entries, b.numNeeded;
    DenseNumbering(b);
    NumbersDistinct(b);
    forall i | 0 <= i < |es| && es[i].oldId < n ensures Plan(b)[i] == Keep(es[i].oldId) {
      ActionOf(es, n, Used(es, n), i);
    }
    FinalIdsAre(b);
    NewIdsBelowNeeded(b);
  }
}
