/** do_body's policy: which attributes of a request go into the certificate, and the removal of
    e-mail addresses afterwards. */
module PolicyFilter {
  import opened CText
  import opened SeqFacts

  /** A name entry: its object and its string (ASN.1 type and bytes together). */
  datatype Attr = Attr(obj: nat, str: string)

  type Name = seq<Attr>

  /** One line of the policy section: an object name and "optional", "supplied" or "match". */
  datatype Line = Line(name: string, word: string)

  /** X509_NAME_get_index_by_OBJ: first position after last (all of them when last is negative)
      that holds the object, -1 without one. */
  function NextIndex(n: Name, obj: nat, last: int): (j: int)
    ensures j == -1 || (last < j < |n| && 0 <= j && n[j].obj == obj)
    ensures forall i :: 0 <= i < |n| && last < i && (j == -1 || i < j) ==> n[i].obj != obj
    decreases |n| - last
  {
    var start := if last < 0 then 0 else last + 1;
    if start >= |n| then -1
    else if n[start].obj == obj then start
    else NextIndex(n, obj, start)
  }

  method GetIndexByObj(n: Name, obj: nat, last: int) returns (j: int)
    ensures j == NextIndex(n, obj, last)
  {
    j := if last < 0 then 0 else last + 1;
    while j < |n|
      invariant 0 <= j && last < j
      invariant forall i :: 0 <= i < j && i < |n| && last < i ==> n[i].obj != obj
    {
      if n[j].obj == obj {
        return;
      }
      j := j + 1;
    }
    j := -1;
  }

  // ---- the comprehension ----

  /** The entries of one object, in order. */
  function Select(n: Name, obj: nat): Name {
    if n == [] then []
    else
      var front, last := Select(n[..|n| - 1], obj), n[|n| - 1];
      if last.obj == obj then front + [last] else front
  }

  lemma {:induction false} SelectMembers(n: Name, obj: nat, a: Attr)
    ensures a in Select(n, obj) <==> a in n && a.obj == obj
  {
    if n != [] {
      SelectMembers(n[..|n| - 1], obj, a);
      assert n == n[..|n| - 1] + [n[|n| - 1]];
    }
  }

  function OfObject(obj: nat): Attr -> bool { (a: Attr) => a.obj == obj }

  /** They come from strictly increasing positions, all positions of the object. */
  lemma {:induction false} SelectInOrder(n: Name, obj: nat) returns (m: seq<nat>)
    ensures Kept(n, Select(n, obj), m, OfObject(obj))
  {
    m := [];
    if n != [] {
      var k := |n| - 1;
      m := SelectInOrder(n[..k], obj);
      FrontLast(n);
      KeptSnoc(n[..k], Select(n[..k], obj), m, OfObject(obj), n[k]);
      if n[k].obj == obj { m := m + [k]; }
    }
  }

  predicate KnownWord(w: string) { w == "optional" || w == "supplied" || w == "match" }

  /** A line accepts the request: the word is known, a supplied or match field is present, and
      every entry of a match field is an entry of the CA's name. */
  predicate LineAccepts(l: Line, obj: nat, name: Name, caName: Name) {
    && KnownWord(l.word)
    && (l.word != "optional" ==> exists i :: 0 <= i < |name| && name[i].obj == obj)
    && (l.word == "match" ==> forall i :: 0 <= i < |name| && name[i].obj == obj ==> name[i] in caName)
  }

  /** All lines accept, and the subject is line by line what the request holds of that object. */
  function Filter(nid: string -> Option<nat>, policy: seq<Line>, name: Name, caName: Name): Option<Name> {
    if policy == [] then Some([])
    else
      var front, l := Filter(nid, policy[..|policy| - 1], name, caName), policy[|policy| - 1];
      if front.None? || nid(l.name).None? || !LineAccepts(l, nid(l.name).value, name, caName) then None
      else Some(front.value + Select(name, nid(l.name).value))
  }

  /** The acceptance condition over the whole policy. */
  lemma {:induction false} FilterSucceeds(nid: string -> Option<nat>, policy: seq<Line>, name: Name, caName: Name)
    ensures Filter(nid, policy, name, caName).Some? <==>
      forall i :: 0 <= i < |policy| ==> nid(policy[i].name).Some? && LineAccepts(policy[i], nid(policy[i].name).value, name, caName)
  {
    if policy != [] {
      var front, l := policy[..|policy| - 1], policy[|policy| - 1];
      FilterSucceeds(nid, front, name, caName);
      assert policy == front + [l];
      if forall i :: 0 <= i < |policy| ==> nid(policy[i].name).Some? && LineAccepts(policy[i], nid(policy[i].name).value, name, caName) {
        forall i | 0 <= i < |front|
          ensures nid(front[i].name).Some? && LineAccepts(front[i], nid(front[i].name).value, name, caName)
        {
          assert policy[i] == front[i];
        }
      } else {
        var i :| 0 <= i < |policy| && !(nid(policy[i].name).Some? && LineAccepts(policy[i], nid(policy[i].name).value, name, caName));
        if i < |front| { assert front[i] == policy[i]; }
      }
    }
  }

  /** Nothing enters the subject that was not requested, and every requested entry of a listed
      object does. */
  lemma {:induction false} FilterContents(nid: string -> Option<nat>, policy: seq<Line>, name: Name, caName: Name, a: Attr)
    requires Filter(nid, policy, name, caName).Some?
    ensures a in Filter(nid, policy, name, caName).value <==>
      a in name && exists i :: 0 <= i < |policy| && nid(policy[i].name) == Some(a.obj)
  {
    if policy != [] {
      var front, l := policy[..|policy| - 1], policy[|policy| - 1];
      FilterContents(nid, front, name, caName, a);
      SelectMembers(name, nid(l.name).value, a);
      assert policy == front + [l];
      if i :| 0 <= i < |front| && nid(front[i].name) == Some(a.obj) { assert policy[i] == front[i]; }
      if i :| 0 <= i < |policy| && nid(policy[i].name) == Some(a.obj) && i < |front| { assert front[i] == policy[i]; }
    }
  }

  // ---- the order of the subject ----

  /** A policy line and a position in the request. */
  datatype Place = Place(line: nat, pos: nat)

  predicate Before(a: Place, b: Place) { a.line < b.line || (a.line == b.line && a.pos < b.pos) }

  predicate Listed(nid: string -> Option<nat>, policy: seq<Line>, name: Name, at: Place) {
    at.line < |policy| && at.pos < |name| && nid(policy[at.line].name) == Some(name[at.pos].obj)
  }

  /** The k-th entry of the subject is the request's entry at m[k]; line by line and within a line
      by position, every pair of a line and an entry of its object comes once. */
  ghost predicate PlacedAt(nid: string -> Option<nat>, policy: seq<Line>, name: Name, subject: Name, m: seq<Place>) {
    && |m| == |subject|
    && (forall k :: 0 <= k < |m| ==> Listed(nid, policy, name, m[k]) && subject[k] == name[m[k].pos])
    && (forall j, k :: 0 <= j < k < |m| ==> Before(m[j], m[k]))
    && (forall at :: Listed(nid, policy, name, at) ==> at in m)
  }

  function OnLine(line: nat, ps: seq<nat>): seq<Place> { seq(|ps|, k requires 0 <= k < |ps| => Place(line, ps[k])) }

  lemma {:induction false} PlacedSnoc(nid: string -> Option<nat>, policy: seq<Line>, name: Name, subject: Name, m: seq<Place>,
                                      l: Line, part: Name, ps: seq<nat>)
    requires PlacedAt(nid, policy, name, subject, m) && nid(l.name).Some? && Kept(name, part, ps, OfObject(nid(l.name).value))
    ensures PlacedAt(nid, policy + [l], name, subject + part, m + OnLine(|policy|, ps))
  {
    var all, policy', added := m + OnLine(|policy|, ps), policy + [l], OnLine(|policy|, ps);
    forall k | 0 <= k < |all| ensures Listed(nid, policy', name, all[k]) && (subject + part)[k] == name[all[k].pos] {
      if k < |m| { assert all[k] == m[k] && Listed(nid, policy, name, m[k]); }
      else { assert all[k] == Place(|policy|, ps[k - |m|]); }
    }
    forall at | Listed(nid, policy', name, at) ensures at in all {
      if at.line < |policy| {
        assert Listed(nid, policy, name, at) && at in m;
      } else {
        var j: nat :| j < |ps| && ps[j] == at.pos;
        assert added[j] == at && at in added;
      }
    }
    forall j, k | 0 <= j < k < |all| ensures Before(all[j], all[k]) {
      if j < |m| <= k { assert Listed(nid, policy, name, m[j]) && all[k].line == |policy|; }
    }
  }

  /** The order of the subject: by policy line, then by position in the request. */
  lemma {:induction false} FilterInOrder(nid: string -> Option<nat>, policy: seq<Line>, name: Name, caName: Name) returns (m: seq<Place>)
    requires Filter(nid, policy, name, caName).Some?
    ensures PlacedAt(nid, policy, name, Filter(nid, policy, name, caName).value, m)
  {
    m := [];
    if policy != [] {
      var front, l := policy[..|policy| - 1], policy[|policy| - 1];
      m := FilterInOrder(nid, front, name, caName);
      var ps := SelectInOrder(name, nid(l.name).value);
      PlacedSnoc(nid, front, name, Filter(nid, front, name, caName).value, m, l, Select(name, nid(l.name).value), ps);
      FrontLast(policy);
      m := m + OnLine(|front|, ps);
    }
  }

  /** The reasons to refuse a request because of line i. */
  ghost predicate Refused(nid: string -> Option<nat>, policy: seq<Line>, name: Name, caName: Name, i: nat)
    requires i < |policy|
  {
    || nid(policy[i].name).None?
    || policy[i].word !in {"optional", "supplied", "match"}
    || (policy[i].word in {"supplied", "match"} && !exists pos: nat :: Listed(nid, policy, name, Place(i, pos)))
    || (policy[i].word == "match" && exists pos: nat :: Listed(nid, policy, name, Place(i, pos)) && name[pos] !in caName)
  }

  lemma {:induction false} RefusedIff(nid: string -> Option<nat>, policy: seq<Line>, name: Name, caName: Name)
    ensures Filter(nid, policy, name, caName).None? <==> exists i: nat :: i < |policy| && Refused(nid, policy, name, caName, i)
  {
    FilterSucceeds(nid, policy, name, caName);
    forall i: nat | i < |policy|
      ensures Refused(nid, policy, name, caName, i) <==>
        !(nid(policy[i].name).Some? && LineAccepts(policy[i], nid(policy[i].name).value, name, caName))
    {
      RefusedLine(nid, policy, name, caName, i);
    }
  }

  lemma {:induction false} RefusedLine(nid: string -> Option<nat>, policy: seq<Line>, name: Name, caName: Name, i: nat)
    requires i < |policy|
    ensures Refused(nid, policy, name, caName, i) <==>
      !(nid(policy[i].name).Some? && LineAccepts(policy[i], nid(policy[i].name).value, name, caName))
  {
    if nid(policy[i].name).Some? {
      forall pos: nat | pos < |name|
        ensures Listed(nid, policy, name, Place(i, pos)) <==> name[pos].obj == nid(policy[i].name).value
      {
      }
    }
  }

  // ---- selection by repeated lookup ----

  lemma {:induction false} SelectPrefix(n: Name, obj: nat, i: nat, j: nat)
    requires i <= j <= |n| && forall k :: i <= k < j ==> n[k].obj != obj
    ensures Select(n[..j], obj) == Select(n[..i], obj)
    decreases j - i
  {
    if i < j {
      SelectPrefix(n, obj, i, j - 1);
      assert n[..j][..j - 1] == n[..j - 1];
    }
  }

  lemma {:induction false} SelectNext(n: Name, obj: nat, j: nat)
    requires j < |n| && n[j].obj == obj
    ensures Select(n[..j + 1], obj) == Select(n[..j], obj) + [n[j]]
  {
    assert n[..j + 1][..j] == n[..j];
  }

  /** A later lookup that fails has seen every entry. */
  lemma {:induction false} LookupAdvances(n: Name, obj: nat, last: int)
    requires -1 <= last < |n|
    ensures var j := NextIndex(n, obj, last);
      if j == -1 then Select(n, obj) == Select(n[..last + 1], obj)
      else Select(n[..j + 1], obj) == Select(n[..last + 1], obj) + [n[j]]
  {
    var j := NextIndex(n, obj, last);
    if j == -1 {
      SelectPrefix(n, obj, last + 1, |n|);
      assert n[..|n|] == n;
    } else {
      SelectPrefix(n, obj, last + 1, j);
      SelectNext(n, obj, j);
    }
  }

  /** The inner search: an entry of the CA's name with the same object and an equal string. */
  method MatchInCa(tne: Attr, caName: Name) returns (push: Option<Attr>)
    ensures push == if tne in caName then Some(tne) else None
  {
    var last2 := -1;
    while true
      invariant -1 <= last2 < |caName|
      invariant forall i :: 0 <= i <= last2 ==> caName[i] != tne
      decreases |caName| - last2
    {
      var j := GetIndexByObj(caName, tne.obj, last2);
      if j < 0 {
        return None;
      }
      last2 := j;
      if caName[j].str == tne.str {
        return Some(caName[j]);
      }
    }
  }

  /** The loop over the request entries of one policy line. */
  method FilterLine(l: Line, obj: nat, name: Name, caName: Name, subject: Name) returns (r: Option<Name>)
    ensures r == if LineAccepts(l, obj, name, caName) then Some(subject + Select(name, obj)) else None
  {
    var acc := subject;
    var last := -1;
    assert Select(name[..0], obj) == [];
    while true
      invariant -1 <= last < |name|
      invariant acc == subject + Select(name[..last + 1], obj)
      invariant last != -1 ==> KnownWord(l.word) && name[last].obj == obj
      invariant l.word == "match" ==> forall i :: 0 <= i <= last && name[i].obj == obj ==> name[i] in caName
      decreases |name| - last
    {
      LookupAdvances(name, obj, last);
      var j := GetIndexByObj(name, obj, last);
      if j < 0 && last != -1 {
        return Some(acc);
      }
      if l.word == "optional" {
        if j < 0 {
          return Some(acc);
        }
        acc := acc + [name[j]];
      } else if l.word == "supplied" {
        if j < 0 {
          return None;
        }
        acc := acc + [name[j]];
      } else if l.word == "match" {
        if j < 0 {
          return None;
        }
        var push := MatchInCa(name[j], caName);
        if push.None? {
          return None;
        }
        acc := acc + [push.value];
      } else {
        return None;
      }
      last := j;
    }
  }

  /** The loop over the policy. */
  method ApplyPolicy(nid: string -> Option<nat>, policy: seq<Line>, name: Name, caName: Name) returns (subject: Option<Name>)
    ensures subject == Filter(nid, policy, name, caName)
    ensures subject.None? <==> exists i: nat :: i < |policy| && Refused(nid, policy, name, caName, i)
    ensures subject.Some? ==> exists m :: PlacedAt(nid, policy, name, subject.value, m)
  {
    RefusedIff(nid, policy, name, caName);
    var acc: Name := [];
    for i := 0 to |policy|
      invariant Filter(nid, policy[..i], name, caName) == Some(acc)
    {
      assert policy[..i + 1][..i] == policy[..i];
      var obj := nid(policy[i].name);
      var r: Option<Name> := None;
      if obj.Some? {
        r := FilterLine(policy[i], obj.value, name, caName, acc);
      }
      if r.None? {
        FilterStaysNone(nid, policy, name, caName, i + 1);
        return None;
      }
      acc := r.value;
    }
    assert policy[..|policy|] == policy;
    ghost var m := FilterInOrder(nid, policy, name, caName);
    return Some(acc);
  }

  lemma {:induction false} FilterStaysNone(nid: string -> Option<nat>, policy: seq<Line>, name: Name, caName: Name, n: nat)
    requires n <= |policy| && Filter(nid, policy[..n], name, caName).None?
    ensures Filter(nid, policy, name, caName).None?
    decreases |policy| - n
  {
    if n < |policy| {
      assert policy[..n + 1][..n] == policy[..n];
      FilterStaysNone(nid, policy, name, caName, n + 1);
    } else {
      assert policy[..n] == policy;
    }
  }

  // ---- e-mail addresses ----

  /** The entries of every other object, in order. */
  function Without(n: Name, obj: nat): Name {
    if n == [] then []
    else
      var front, last := Without(n[..|n| - 1], obj), n[|n| - 1];
      if last.obj == obj then front else front + [last]
  }

  lemma {:induction false} WithoutMembers(n: Name, obj: nat, a: Attr)
    ensures a in Without(n, obj) <==> a in n && a.obj != obj
  {
    if n != [] {
      WithoutMembers(n[..|n| - 1], obj, a);
      assert n == n[..|n| - 1] + [n[|n| - 1]];
    }
  }

  function NotOfObject(obj: nat): Attr -> bool { (a: Attr) => a.obj != obj }

  lemma {:induction false} WithoutInOrder(n: Name, obj: nat) returns (m: seq<nat>)
    ensures Kept(n, Without(n, obj), m, NotOfObject(obj))
  {
    m := [];
    if n != [] {
      var k := |n| - 1;
      m := WithoutInOrder(n[..k], obj);
      FrontLast(n);
      KeptSnoc(n[..k], Without(n[..k], obj), m, NotOfObject(obj), n[k]);
      if n[k].obj != obj { m := m + [k]; }
    }
  }

  lemma {:induction false} WithoutSnoc(n: Name, a: Attr, obj: nat)
    ensures Without(n + [a], obj) == if a.obj == obj then Without(n, obj) else Without(n, obj) + [a]
  {
    Snoc(n, a);
  }

  lemma {:induction false} DeleteBeforeLast(n: Name, j: nat)
    requires j < |n| - 1
    ensures var front := n[..|n| - 1]; n[..j] + n[j + 1..] == front[..j] + front[j + 1..] + [n[|n| - 1]]
  {
  }

  lemma {:induction false} WithoutDelete(n: Name, obj: nat, j: nat)
    requires j < |n| && n[j].obj == obj
    ensures Without(n[..j] + n[j + 1..], obj) == Without(n, obj)
    decreases |n|
  {
    if j == |n| - 1 {
      assert n[..j] + n[j + 1..] == n[..j];
    } else {
      var front, last := n[..|n| - 1], n[|n| - 1];
      WithoutDelete(front, obj, j);
      DeleteBeforeLast(n, j);
      WithoutSnoc(front[..j] + front[j + 1..], last, obj);
    }
  }

  lemma {:induction false} WithoutNone(n: Name, obj: nat)
    requires forall i :: 0 <= i < |n| ==> n[i].obj != obj
    ensures Without(n, obj) == n
  {
    if n != [] {
      WithoutNone(n[..|n| - 1], obj);
      assert n == n[..|n| - 1] + [n[|n| - 1]];
    }
  }

  /** The loop that deletes e-mail entries while it walks the name. */
  method DeleteEmails(subject: Name, email: nat) returns (dn: Name)
    ensures dn == Without(subject, email)
    ensures exists m :: Kept(subject, dn, m, NotOfObject(email))
  {
    ghost var m := WithoutInOrder(subject, email);
    dn := subject;
    var i := -1;
    var j := GetIndexByObj(dn, email, i);
    while j >= 0
      invariant -1 <= i < |dn| && j == NextIndex(dn, email, i)
      invariant forall k :: 0 <= k <= i ==> dn[k].obj != email
      invariant Without(dn, email) == Without(subject, email)
      decreases |dn|
    {
      WithoutDelete(dn, email, j);
      dn := dn[..j] + dn[j + 1..];
      i := j - 1;
      j := GetIndexByObj(dn, email, i);
    }
    WithoutNone(dn, email);
  }
}
