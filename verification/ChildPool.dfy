/** The parent of the OCSP daemon: a table of child process ids, kept full by forking and reaping. */
module ChildPool {
  import opened SeqFacts

  /** How the operating system answers the next call of the parent; term says that a termination
      signal is noted while the call lasts. */
  datatype Event =
    | Reaped(pid: int, term: bool)
    | Interrupted(term: bool)
    | WaitError
    | ForkFailed(term: bool)
    | Forked(pid: int, term: bool)

  predicate Signalled(e: Event) { !e.WaitError? && e.term }

  /** waitpid is called exactly when multi children live, and reaps one of them; otherwise fork is
      called, and a new child has a process id that no unreaped child has. */
  predicate Plausible(e: Event, live: set<int>, multi: nat) {
    if |live| >= multi then
      e.Interrupted? || e.WaitError? || (e.Reaped? && e.pid in live)
    else
      e.ForkFailed? || (e.Forked? && e.pid > 0 && e.pid !in live)
  }

  /** The unreaped children after an event. */
  function Next(e: Event, live: set<int>): set<int> {
    match e
    case Reaped(pid, _) => live - {pid}
    case Forked(pid, _) => live + {pid}
    case _ => live
  }

  predicate Ends(e: Event) { e.WaitError? || Signalled(e) }

  /** A run of the environment, as far as the parent listens. */
  predicate PlausibleRun(events: seq<Event>, live: set<int>, multi: nat)
    decreases |events|
  {
    events != [] ==>
      && Plausible(events[0], live, multi)
      && (!Ends(events[0]) ==> PlausibleRun(events[1..], Next(events[0], live), multi))
  }

  /** The unreaped children when the parent has stopped or the events have run out. */
  function Survivors(events: seq<Event>, live: set<int>): set<int>
    decreases |events|
  {
    if events == [] then live
    else if Ends(events[0]) then Next(events[0], live)
    else Survivors(events[1..], Next(events[0], live))
  }

  /** The status that the parent exits with: 1 after a failed waitpid, 0 after a signal. */
  function ExitStatus(events: seq<Event>): int {
    if events == [] then 0
    else if Ends(events[0]) then (if events[0].WaitError? then 1 else 0)
    else ExitStatus(events[1..])
  }

  predicate Stops(events: seq<Event>) { exists i :: 0 <= i < |events| && Ends(events[i]) }

  function Ending(): Event -> bool { (e: Event) => Ends(e) }

  /** The events that the parent hears: up to the first that ends it. */
  function Heard(events: seq<Event>): seq<Event> {
    var k := FirstIndex(events, Ending());
    if k < |events| then events[..k + 1] else events
  }

  lemma {:induction false} HeardCons(events: seq<Event>)
    requires events != []
    ensures Heard(events) == [events[0]] + if Ends(events[0]) then [] else Heard(events[1..])
  {
    HeadTail(events);
  }

  predicate Reaps(e: Event, pid: int) { e.Reaped? && e.pid == pid }
  predicate Forks(e: Event, pid: int) { e.Forked? && e.pid == pid }

  predicate NotReapedFrom(h: seq<Event>, from: nat, pid: int) { forall j :: from <= j < |h| ==> !Reaps(h[j], pid) }

  /** Alive: there from the start or forked, and not reaped since. */
  ghost predicate Alive(h: seq<Event>, live: set<int>, pid: int) {
    || (pid in live && NotReapedFrom(h, 0, pid))
    || exists i: nat :: i < |h| && Forks(h[i], pid) && NotReapedFrom(h, i, pid)
  }

  lemma {:induction false} NotReapedCons(e: Event, h: seq<Event>, from: nat, pid: int)
    ensures NotReapedFrom([e] + h, from + 1, pid) <==> NotReapedFrom(h, from, pid)
    ensures NotReapedFrom([e] + h, 0, pid) <==> !Reaps(e, pid) && NotReapedFrom(h, 0, pid)
  {
    var all := [e] + h;
    assert all[0] == e && forall j :: 1 <= j < |all| ==> all[j] == h[j - 1];
    forall j | from <= j < |h| && NotReapedFrom(all, from + 1, pid) ensures !Reaps(h[j], pid) {
      assert all[j + 1] == h[j];
    }
    forall j | 0 <= j < |h| && NotReapedFrom(all, 0, pid) ensures !Reaps(h[j], pid) {
      assert all[j + 1] == h[j];
    }
  }

  lemma {:induction false} AliveCons(e: Event, h: seq<Event>, live: set<int>, pid: int)
    ensures Alive([e] + h, live, pid) <==> Alive(h, Next(e, live), pid)
  {
    var all := [e] + h;
    NotReapedCons(e, h, 0, pid);
    if Alive(h, Next(e, live), pid) {
      if i: nat :| i < |h| && Forks(h[i], pid) && NotReapedFrom(h, i, pid) {
        NotReapedCons(e, h, i, pid);
        assert Forks(all[i + 1], pid);
      } else if Forks(e, pid) {
        assert Forks(all[0], pid) && NotReapedFrom(all, 0, pid);
      }
    }
    if Alive(all, live, pid) && !(pid in live && NotReapedFrom(all, 0, pid)) {
      var i: nat :| i < |all| && Forks(all[i], pid) && NotReapedFrom(all, i, pid);
      if i > 0 {
        NotReapedCons(e, h, i - 1, pid);
        assert Forks(h[i - 1], pid);
      } else {
        assert all[0] == e;
      }
    }
  }

  /** Who survives, told by the events alone. */
  lemma {:induction false} SurvivorsAre(events: seq<Event>, live: set<int>, pid: int)
    ensures pid in Survivors(events, live) <==> Alive(Heard(events), live, pid)
    decreases |events|
  {
    if events != [] {
      HeardCons(events);
      if Ends(events[0]) {
        AliveCons(events[0], [], live, pid);
        Whole([events[0]]);
      } else {
        SurvivorsAre(events[1..], Next(events[0], live), pid);
        AliveCons(events[0], Heard(events[1..]), live, pid);
      }
    }
  }

  /** The status is 1 exactly if the event that ends the parent is a failed waitpid. */
  lemma {:induction false} ExitStatusIs(events: seq<Event>)
    ensures ExitStatus(events) == if exists i :: 0 <= i < |Heard(events)| && Heard(events)[i].WaitError? then 1 else 0
  {
    if events != [] {
      HeardCons(events);
      var h := Heard(events);
      assert h[0] == events[0];
      if !Ends(events[0]) {
        ExitStatusIs(events[1..]);
        var t := Heard(events[1..]);
        assert forall i :: 0 <= i < |t| ==> h[i + 1] == t[i];
        assert forall i :: 1 <= i < |h| ==> h[i] == t[i - 1];
        if i :| 0 <= i < |t| && t[i].WaitError? { assert h[i + 1].WaitError?; }
        if i :| 0 <= i < |h| && h[i].WaitError? { assert t[i - 1].WaitError?; }
      }
    }
  }

  // ---- the slots ----

  function Live(slots: seq<int>): set<int> { set i | 0 <= i < |slots| && slots[i] != 0 :: slots[i] }

  function NonZero(slots: seq<int>): seq<int> {
    if slots == [] then []
    else
      var front := NonZero(slots[..|slots| - 1]);
      if slots[|slots| - 1] != 0 then front + [slots[|slots| - 1]] else front
  }

  /** No process id is stored twice. */
  predicate DistinctSlots(slots: seq<int>) {
    forall i, j :: 0 <= i < j < |slots| && slots[i] != 0 ==> slots[i] != slots[j]
  }

  lemma {:induction false} LiveSnoc(slots: seq<int>, x: int)
    ensures Live(slots + [x]) == Live(slots) + if x != 0 then {x} else {}
  {
    var s := slots + [x];
    forall y | y in Live(slots) + if x != 0 then {x} else {} ensures y in Live(s) {
      if y in Live(slots) {
        var i :| 0 <= i < |slots| && slots[i] != 0 && slots[i] == y;
        assert s[i] == y;
      } else {
        assert s[|slots|] == y;
      }
    }
  }

  /** Without repetitions there are as many nonzero slots as children. */
  lemma {:induction false} SlotsCount(slots: seq<int>)
    requires DistinctSlots(slots)
    ensures |NonZero(slots)| == |Live(slots)|
    ensures forall x :: x in NonZero(slots) <==> x in Live(slots)
    ensures forall i, j :: 0 <= i < j < |NonZero(slots)| ==> NonZero(slots)[i] != NonZero(slots)[j]
  {
    if slots != [] {
      var front, x := slots[..|slots| - 1], slots[|slots| - 1];
      SlotsCount(front);
      assert slots == front + [x];
      LiveSnoc(front, x);
      if x != 0 {
        assert x !in Live(front);
      }
    }
  }

  /** A full table has no free slot, a table that is not full has one. */
  lemma {:induction false} FreeSlot(slots: seq<int>)
    requires DistinctSlots(slots)
    ensures |Live(slots)| <= |slots|
    ensures |Live(slots)| < |slots| <==> 0 in slots
  {
    SlotsCount(slots);
    NonZeroLength(slots);
  }

  lemma {:induction false} NonZeroLength(slots: seq<int>)
    ensures |NonZero(slots)| <= |slots|
    ensures |NonZero(slots)| < |slots| <==> 0 in slots
  {
    if slots != [] {
      NonZeroLength(slots[..|slots| - 1]);
      assert slots == slots[..|slots| - 1] + [slots[|slots| - 1]];
    }
  }

  lemma {:induction false} LiveClear(slots: seq<int>, i: nat)
    requires DistinctSlots(slots) && i < |slots| && slots[i] != 0
    ensures DistinctSlots(slots[i := 0])
    ensures Live(slots[i := 0]) == Live(slots) - {slots[i]}
  {
    var s := slots[i := 0];
    forall y | y in Live(slots) - {slots[i]} ensures y in Live(s) {
      var j :| 0 <= j < |slots| && slots[j] != 0 && slots[j] == y;
      assert s[j] == y;
    }
  }

  lemma {:induction false} LiveStore(slots: seq<int>, i: nat, pid: int)
    requires DistinctSlots(slots) && i < |slots| && slots[i] == 0 && pid != 0 && pid !in Live(slots)
    ensures DistinctSlots(slots[i := pid])
    ensures Live(slots[i := pid]) == Live(slots) + {pid}
  {
    var s := slots[i := pid];
    forall y | y in Live(slots) + {pid} ensures y in Live(s) {
      if y in Live(slots) {
        var j :| 0 <= j < |slots| && slots[j] != 0 && slots[j] == y;
        assert s[j] == y;
      } else {
        assert s[i] == y;
      }
    }
  }

  // ---- the parent ----

  datatype Outcome = Running | Exited(status: int)

  class Parent {
    const multi: nat
    const kidpids: array<int>
    var procs: int
    /** The process ids sent SIGTERM, in order. */
    var signals: seq<int>

    ghost predicate Valid()
      reads this, kidpids
    {
      && kidpids.Length == multi
      && DistinctSlots(kidpids[..])
      && procs == |Live(kidpids[..])|
    }

    constructor (multi: nat)
      ensures Valid() && fresh(kidpids) && this.multi == multi && Live(kidpids[..]) == {} && signals == []
    {
      this.multi := multi;
      kidpids := new int[multi](_ => 0);
      procs := 0;
      signals := [];
      new;
      assert forall x :: x !in Live(kidpids[..]);
    }

    /** The search for the slot of a reaped child. */
    method Forget(fpid: int) returns (found: bool)
      requires Valid() && procs == multi
      modifies this`procs, kidpids
      ensures Valid()
      ensures found <==> fpid != 0 && fpid in Live(old(kidpids[..]))
      ensures found ==> Live(kidpids[..]) == Live(old(kidpids[..])) - {fpid}
      ensures !found ==> kidpids[..] == old(kidpids[..])
    {
      FreeSlot(kidpids[..]);
      ghost var slots := kidpids[..];
      var i := 0;
      while i < procs
        invariant 0 <= i <= procs == multi && kidpids[..] == slots
        invariant forall j :: 0 <= j < i ==> slots[j] != fpid
      {
        if kidpids[i] == fpid {
          assert slots[i] in slots;
          LiveClear(slots, i);
          kidpids[i] := 0;
          assert kidpids[..] == slots[i := 0];
          procs := procs - 1;
          return true;
        }
        i := i + 1;
      }
      return false;
    }

    /** The search for a free slot for a new child. */
    method Remember(fpid: int) returns (found: bool)
      requires Valid() && fpid > 0 && fpid !in Live(kidpids[..])
      modifies this`procs, kidpids
      ensures Valid()
      ensures found <==> old(procs) < multi
      ensures found ==> Live(kidpids[..]) == Live(old(kidpids[..])) + {fpid}
    {
      FreeSlot(kidpids[..]);
      ghost var slots := kidpids[..];
      var i := 0;
      while i < multi
        invariant 0 <= i <= multi && kidpids[..] == slots && procs == old(procs)
        invariant forall j :: 0 <= j < i ==> slots[j] != 0
      {
        if kidpids[i] == 0 {
          assert slots[i] in slots;
          LiveStore(slots, i, fpid);
          kidpids[i] := fpid;
          assert kidpids[..] == slots[i := fpid];
          procs := procs + 1;
          return true;
        }
        i := i + 1;
      }
      return false;
    }

    /** killall: SIGTERM to every child in the table. */
    method Killall()
      requires Valid()
      modifies this`signals
      ensures signals == old(signals) + NonZero(kidpids[..])
    {
      assert NonZero(kidpids[..0]) == [];
      for i := 0 to multi
        invariant signals == old(signals) + NonZero(kidpids[..i])
      {
        assert kidpids[..i + 1][..i] == kidpids[..i];
        if kidpids[i] != 0 {
          signals := signals + [kidpids[i]];
        }
      }
      assert kidpids[..multi] == kidpids[..];
    }

    /** spawn_loop in the parent, until it exits or the events run out.  Both "internal error"
        branches are proved dead. */
    method SpawnLoop(events: seq<Event>) returns (out: Outcome)
      requires Valid() && multi > 0 && signals == []
      requires PlausibleRun(events, Live(kidpids[..]), multi)
      modifies this, kidpids
      ensures Valid() && procs <= multi
      ensures out.Exited? <==> Stops(events)
      ensures out.Exited? ==> out.status == ExitStatus(events)
      ensures Live(kidpids[..]) == Survivors(events, old(Live(kidpids[..])))
      ensures procs == |NonZero(kidpids[..])|
      ensures out.Exited? ==> signals == NonZero(kidpids[..])
      ensures out == Running ==> signals == []
    {
      ghost var first := Live(kidpids[..]);
      var pos := 0;
      var termsig := false;
      while !termsig
        invariant Valid() && pos <= |events| && signals == []
        invariant !termsig ==> PlausibleRun(events[pos..], Live(kidpids[..]), multi)
        invariant !termsig ==> Survivors(events[pos..], Live(kidpids[..])) == Survivors(events, first)
        invariant !termsig ==> !Stops(events[..pos])
        invariant ExitStatus(events) == if termsig then 0 else ExitStatus(events[pos..])
        invariant termsig ==> Stops(events) && Live(kidpids[..]) == Survivors(events, first)
        decreases |events| - pos, !termsig
      {
        FreeSlot(kidpids[..]);
        if pos == |events| {
          assert events[pos..] == [] && events[..pos] == events;
          SlotsCount(kidpids[..]);
          return Running;
        }
        var e := events[pos];
        StepOver(events, pos, Live(kidpids[..]));
        pos := pos + 1;
        if procs >= multi {
          // waitpid
          if e.Reaped? {
            assert e.pid in Live(kidpids[..]);
            var found := Forget(e.pid);
            if !found {
              assert false;  // "no matching child slot" cannot happen
            }
            termsig := e.term;
          } else if e.Interrupted? {
            termsig := e.term;
          } else {
            Killall();
            SlotsCount(kidpids[..]);
            return Exited(1);
          }
        } else {
          // fork
          if e.Forked? {
            var found := Remember(e.pid);
            if !found {
              assert false;  // "no free child slots" cannot happen
            }
          }
          termsig := Signalled(e);
        }
      }
      FreeSlot(kidpids[..]);
      Killall();
      SlotsCount(kidpids[..]);
      return Exited(0);
    }
  }

  lemma {:induction false} StepOver(events: seq<Event>, pos: nat, live: set<int>)
    requires pos < |events|
    ensures events[pos..][0] == events[pos] && events[pos..][1..] == events[pos + 1..]
    ensures Stops(events[..pos + 1]) <==> Stops(events[..pos]) || Ends(events[pos])
    ensures Ends(events[pos]) ==> Stops(events)
  {
    var a, b := events[..pos], events[..pos + 1];
    if Stops(a) {
      var i :| 0 <= i < |a| && Ends(a[i]);
      assert b[i] == a[i];
    }
    if Ends(events[pos]) { assert b[pos] == events[pos]; }
    if Stops(b) {
      var i :| 0 <= i < |b| && Ends(b[i]);
      if i < pos { assert a[i] == b[i]; }
    }
  }

  /** When the parent stops, every unreaped child has been signalled, and exactly once. */
  lemma {:induction false} EachChildSignalledOnce(slots: seq<int>, pid: int)
    requires DistinctSlots(slots)
    ensures pid in Live(slots) <==> multiset(NonZero(slots))[pid] == 1
    ensures pid !in Live(slots) <==> multiset(NonZero(slots))[pid] == 0
  {
    SlotsCount(slots);
    DistinctCount(NonZero(slots), pid);
  }

  lemma {:induction false} DistinctCount(s: seq<int>, x: int)
    requires forall i, j :: 0 <= i < j < |s| ==> s[i] != s[j]
    ensures multiset(s)[x] == if x in s then 1 else 0
  {
    if s != [] {
      var front := s[..|s| - 1];
      DistinctCount(front, x);
      assert s == front + [s[|s| - 1]];
    }
  }
}
