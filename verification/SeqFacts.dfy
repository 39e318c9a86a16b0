/** Facts about cutting and joining sequences, stated once so that proofs need not find them again. */
module SeqFacts {

  lemma {:induction false} Assoc<T>(a: seq<T>, b: seq<T>, c: seq<T>)
    ensures a + (b + c) == a + b + c
  {
  }

  lemma {:induction false} FrontLast<T>(s: seq<T>)
    requires s != []
    ensures s == s[..|s| - 1] + [s[|s| - 1]]
  {
  }

  lemma {:induction false} HeadTail<T>(s: seq<T>)
    requires s != []
    ensures s == [s[0]] + s[1..]
  {
  }

  lemma {:induction false} Snoc<T>(s: seq<T>, x: T)
    ensures |s + [x]| == |s| + 1 && (s + [x])[..|s|] == s && (s + [x])[|s|] == x
  {
  }

  lemma {:induction false} TakeOneMore<T>(s: seq<T>, i: nat)
    requires i < |s|
    ensures s[..i + 1] == s[..i] + [s[i]]
  {
  }

  lemma {:induction false} Whole<T>(s: seq<T>)
    ensures s[..|s|] == s && s + [] == s && [] + s == s
  {
  }

  /** Position of the first element with a property, or the length of the sequence. */
  function FirstIndex<T>(s: seq<T>, p: T -> bool): (k: nat)
    ensures k <= |s|
    ensures k < |s| ==> p(s[k])
    ensures forall i :: 0 <= i < k ==> !p(s[i])
  {
    if s == [] || p(s[0]) then 0 else 1 + FirstIndex(s[1..], p)
  }

  // ---- positions of what a filter keeps ----

  /** Strictly increasing positions below n. */
  predicate Increasing(m: seq<nat>, n: nat) {
    && (forall k :: 0 <= k < |m| ==> m[k] < n)
    && (forall j, k :: 0 <= j < k < |m| ==> m[j] < m[k])
  }

  lemma {:induction false} IncreasingSnoc(m: seq<nat>, n: nat)
    requires Increasing(m, n)
    ensures Increasing(m, n + 1) && Increasing(m + [n], n + 1)
  {
  }

  /** r holds, in order, exactly the elements of s with a property; m says where each comes from. */
  ghost predicate Kept<T(!new)>(s: seq<T>, r: seq<T>, m: seq<nat>, keep: T -> bool) {
    && Increasing(m, |s|) && |m| == |r|
    && (forall k :: 0 <= k < |m| ==> r[k] == s[m[k]] && keep(s[m[k]]))
    && (forall i :: 0 <= i < |s| && keep(s[i]) ==> i in m)
  }

  lemma {:induction false} KeptSnoc<T(!new)>(s: seq<T>, r: seq<T>, m: seq<nat>, keep: T -> bool, x: T)
    requires Kept(s, r, m, keep)
    ensures if keep(x) then Kept(s + [x], r + [x], m + [|s|], keep) else Kept(s + [x], r, m, keep)
  {
    IncreasingSnoc(m, |s|);
    var m' := m + [|s|];
    assert forall i :: i in m ==> i in m';
    assert m'[|m|] == |s| && |s| in m';
  }

  function Shifted(m: seq<nat>): seq<nat> { seq(|m|, k requires 0 <= k < |m| => m[k] + 1) }

  lemma {:induction false} IncreasingCons(m: seq<nat>, n: nat)
    requires Increasing(m, n)
    ensures Increasing(Shifted(m), n + 1) && Increasing([0] + Shifted(m), n + 1)
  {
    var m' := [0] + Shifted(m);
    assert forall k :: 1 <= k < |m'| ==> m'[k] == m[k - 1] + 1;
  }

  lemma {:induction false} InShifted(m: seq<nat>, i: nat)
    requires i in m
    ensures i + 1 in Shifted(m) && i + 1 in [0] + Shifted(m)
  {
    var j: nat :| j < |m| && m[j] == i;
    assert Shifted(m)[j] == i + 1;
  }

  /** The positions behind one more element. */
  lemma {:induction false} ImageShifts<T(!new)>(x: T, s: seq<T>, r: seq<T>, m: seq<nat>, keep: T -> bool, i: nat)
    requires Kept(s, r, m, keep) && 0 < i <= |s| && keep(([x] + s)[i])
    ensures i in Shifted(m) && i in [0] + Shifted(m)
  {
    assert ([x] + s)[i] == s[i - 1];
    InShifted(m, i - 1);
  }

  lemma {:induction false} PlacesShift<T(!new)>(x: T, s: seq<T>, r: seq<T>, m: seq<nat>, keep: T -> bool, k: nat)
    requires Kept(s, r, m, keep) && k < |m|
    ensures Shifted(m)[k] == m[k] + 1 && ([x] + s)[m[k] + 1] == r[k] && keep(r[k])
    ensures ([0] + Shifted(m))[k + 1] == m[k] + 1
  {
  }

  lemma {:induction false} KeptCons<T(!new)>(x: T, s: seq<T>, r: seq<T>, m: seq<nat>, keep: T -> bool)
    requires Kept(s, r, m, keep)
    ensures if keep(x) then Kept([x] + s, [x] + r, [0] + Shifted(m), keep) else Kept([x] + s, r, Shifted(m), keep)
  {
    IncreasingCons(m, |s|);
    if keep(x) { KeptFirst(x, s, r, m, keep); } else { SkippedFirst(x, s, r, m, keep); }
  }

  lemma {:induction false} KeptFirst<T(!new)>(x: T, s: seq<T>, r: seq<T>, m: seq<nat>, keep: T -> bool)
    requires Kept(s, r, m, keep) && keep(x) && Increasing([0] + Shifted(m), |s| + 1)
    ensures Kept([x] + s, [x] + r, [0] + Shifted(m), keep)
  {
    var all, r', m' := [x] + s, [x] + r, [0] + Shifted(m);
    assert m'[0] == 0;
    forall i | 0 <= i < |all| && keep(all[i]) ensures i in m' {
      if i > 0 { ImageShifts(x, s, r, m, keep, i); }
    }
    forall k | 0 <= k < |m'| ensures r'[k] == all[m'[k]] && keep(all[m'[k]]) {
      if k > 0 { PlacesShift(x, s, r, m, keep, k - 1); }
    }
  }

  lemma {:induction false} SkippedFirst<T(!new)>(x: T, s: seq<T>, r: seq<T>, m: seq<nat>, keep: T -> bool)
    requires Kept(s, r, m, keep) && !keep(x) && Increasing(Shifted(m), |s| + 1)
    ensures Kept([x] + s, r, Shifted(m), keep)
  {
    var all, m' := [x] + s, Shifted(m);
    forall i | 0 <= i < |all| && keep(all[i]) ensures i in m' {
      if i > 0 { ImageShifts(x, s, r, m, keep, i); }
    }
    forall k | 0 <= k < |m'| ensures r[k] == all[m'[k]] && keep(all[m'[k]]) {
      PlacesShift(x, s, r, m, keep, k);
    }
  }
}
