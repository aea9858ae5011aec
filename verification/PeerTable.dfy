// The RTCP peers of the RIST receiver (examples/rist_rx.c): a small table of
// remote addresses, each with an expiry timer, changed by two events.
module PeerTable {
  import opened Machine

  // The bytes of a sockaddr_in that memcmp compares.
  type Addr = seq<byte>

  // A timer is allocated stopped; restarting makes it run.
  datatype Timer = NoTimer | Stopped | Running

  // struct rtcp_sink: active while dup_sub is set.  A slot that times out
  // keeps its last address.
  datatype Slot = Slot(active: bool, addr: Addr, timer: Timer)

  // The table and last_peer.
  datatype Table = Table(slots: seq<Slot>, last: Option<nat>)

  // Restarting a timer that does not exist dereferences a null pointer.
  datatype Outcome = Next(t: Table) | Crash

  datatype Event = NewPeer(addr: Addr) | Timeout(slot: nat)

  const SLOTS := 2
  const EmptySlot := Slot(false, [], NoTimer)
  const EmptyTable := Table([EmptySlot, EmptySlot], None)

  // ---------------------------------------------------------------------
  // The events
  // ---------------------------------------------------------------------

  predicate Holds(s: Slot, a: Addr) {
    s.active && s.addr == a
  }

  // The slot the scan settles on: the active one with this address, otherwise
  // the first inactive one.
  predicate IsMatch(slots: seq<Slot>, a: Addr, i: nat) {
    i < |slots| && Holds(slots[i], a) && forall j: nat :: j < i ==> !Holds(slots[j], a)
  }

  predicate IsFree(slots: seq<Slot>, i: nat) {
    i < |slots| && !slots[i].active && forall j: nat :: j < i ==> slots[j].active
  }

  function FindMatch(slots: seq<Slot>, a: Addr, i: nat): (r: Option<nat>)
    requires i <= |slots| && forall j: nat :: j < i ==> !Holds(slots[j], a)
    ensures r != None ==> IsMatch(slots, a, r.value)
    ensures r == None ==> forall j: nat :: j < |slots| ==> !Holds(slots[j], a)
    decreases |slots| - i
  {
    if i == |slots| then None else if Holds(slots[i], a) then Some(i) else FindMatch(slots, a, i + 1)
  }

  function FindFree(slots: seq<Slot>, i: nat): (r: Option<nat>)
    requires i <= |slots| && forall j: nat :: j < i ==> slots[j].active
    ensures r != None ==> IsFree(slots, r.value)
    ensures r == None ==> forall j: nat :: j < |slots| ==> slots[j].active
    decreases |slots| - i
  {
    if i == |slots| then None else if !slots[i].active then Some(i) else FindFree(slots, i + 1)
  }

  function Chosen(slots: seq<Slot>, a: Addr): Option<nat> {
    var m := FindMatch(slots, a, 0);
    if m != None then m else FindFree(slots, 0)
  }

  // Where the peer that was last until now gets its timer restarted.
  function RestartLast(t: Table): Outcome {
    if t.last == None then
      Next(t)
    else if t.last.value >= |t.slots| || t.slots[t.last.value].timer == NoTimer then
      Crash
    else
      Next(t.(slots := t.slots[t.last.value := t.slots[t.last.value].(timer := Running)]))
  }

  function Announce(t: Table, a: Addr): Outcome {
    var c := Chosen(t.slots, a);
    if c == None then
      Next(t)
    else
      var i := c.value;
      var known := t.slots[i].active;
      var slots := if known then t.slots[i := t.slots[i].(timer := Stopped)] else t.slots;
      var r := RestartLast(t.(slots := slots));
      if r.Crash? then
        Crash
      else if known then
        Next(r.t.(last := Some(i)))
      else
        Next(Table(r.t.slots[i := Slot(true, a, Stopped)], Some(i)))
  }

  // Only a running timer expires.
  function Expire(t: Table, i: nat): Table {
    if i < |t.slots| && t.slots[i].timer == Running then
      t.(slots := t.slots[i := t.slots[i].(active := false, timer := NoTimer)])
    else
      t
  }

  function Step(t: Table, e: Event): Outcome {
    match e
    case NewPeer(a) => Announce(t, a)
    case Timeout(i) => Next(Expire(t, i))
  }

  function Run(t: Table, es: seq<Event>): Outcome {
    if es == [] then Next(t)
    else
      var o := Run(t, es[..|es| - 1]);
      if o.Crash? then Crash else Step(o.t, es[|es| - 1])
  }

  // ---------------------------------------------------------------------
  // Over every run
  // ---------------------------------------------------------------------

  // Active slots have distinct addresses, and a timer exists exactly for them.
  ghost predicate Valid(t: Table) {
    && |t.slots| == SLOTS
    && (t.last != None ==> t.last.value < |t.slots|)
    && (forall i: nat :: i < |t.slots| ==> (t.slots[i].active <==> t.slots[i].timer != NoTimer))
    && (forall i: nat, j: nat :: i < j < |t.slots| && t.slots[i].active && t.slots[j].active ==>
          t.slots[i].addr != t.slots[j].addr)
    && (t.last == None ==> forall i: nat :: i < |t.slots| ==> !t.slots[i].active)
  }

  // The phases of the table.  Settled: the last peer is active, its timer is
  // stopped, and every other active slot's timer runs, so that one peer at
  // least never expires.  Exposed: the last peer is active but its timer runs
  // too.  Doomed: the last peer has expired.
  datatype Phase = Fresh | Settled | Exposed | Doomed

  ghost function PhaseOf(t: Table): Phase
    requires Valid(t)
  {
    if t.last == None then Fresh
    else match t.slots[t.last.value].timer
      case Stopped => Settled
      case Running => Exposed
      case NoTimer => Doomed
  }

  ghost predicate OthersRun(t: Table)
    requires Valid(t)
  {
    forall i: nat :: i < |t.slots| && t.slots[i].active && t.last != Some(i) ==> t.slots[i].timer == Running
  }

  predicate NamesLast(t: Table, a: Addr) {
    t.last != None && t.last.value < |t.slots| && Holds(t.slots[t.last.value], a)
  }

  lemma ChosenSlot(t: Table, a: Addr)
    requires Valid(t)
    ensures var c := Chosen(t.slots, a);
      c != None ==>
        && c.value < |t.slots|
        && (t.slots[c.value].active ==> t.slots[c.value].addr == a)
        && (NamesLast(t, a) <==> t.slots[c.value].active && t.last == c)
        && (!t.slots[c.value].active ==>
              forall j: nat :: j < |t.slots| && t.slots[j].active ==> t.slots[j].addr != a)
  {
    hide FindMatch, FindFree;
  }

  // Announcing a peer, exactly: it is refused when the table is full of other
  // peers; it crashes when the last peer has expired; naming the last peer
  // exposes it; naming any other settles the table.
  lemma AnnouncePhase(t: Table, a: Addr)
    requires Valid(t) && OthersRun(t)
    ensures var o := Announce(t, a);
      && (o.Crash? <==> PhaseOf(t) == Doomed)
      && (o.Next? ==> Valid(o.t) && OthersRun(o.t))
      && (Chosen(t.slots, a) == None ==> o == Next(t))
      && (Chosen(t.slots, a) != None && o.Next? ==>
            && o.t.last == Chosen(t.slots, a) && Holds(o.t.slots[o.t.last.value], a)
            && PhaseOf(o.t) == if NamesLast(t, a) then Exposed else Settled)
  {
    ChosenSlot(t, a);
    hide FindMatch, FindFree, Chosen;
  }

  lemma ExpirePhase(t: Table, i: nat)
    requires Valid(t) && OthersRun(t)
    ensures var t' := Expire(t, i);
      && Valid(t') && OthersRun(t')
      && PhaseOf(t') == if PhaseOf(t) == Exposed && t.last == Some(i) then Doomed else PhaseOf(t)
  {
  }

  // An expiry frees its slot and touches nothing else; without a running timer
  // there is none.
  lemma TimeoutFrees(t: Table, i: nat, j: nat)
    requires j < |t.slots|
    ensures Step(t, Timeout(i)).Next?
    ensures var t' := Step(t, Timeout(i)).t;
      && |t'.slots| == |t.slots| && t'.last == t.last
      && (j != i || t.slots[i].timer != Running ==> t'.slots[j] == t.slots[j])
      && (j == i && t.slots[i].timer == Running ==>
            !t'.slots[i].active && t'.slots[i].timer == NoTimer && t'.slots[i].addr == t.slots[i].addr)
  {
  }

  // A known peer that is announced becomes the last one, with its timer
  // stopped unless it was the last one already; the timer of the last one runs,
  // and no other slot changes.
  lemma KnownPeer(t: Table, a: Addr, i: nat, j: nat)
    requires Valid(t) && i < |t.slots| && t.slots[i].active && t.slots[i].addr == a && j < |t.slots|
    requires t.last != None && t.slots[t.last.value].timer != NoTimer
    ensures var o := Announce(t, a);
      && o.Next? && |o.t.slots| == |t.slots| && o.t.last == Some(i)
      && (j == i ==> o.t.slots[j] == Slot(true, a, if t.last == Some(i) then Running else Stopped))
      && (j != i && t.last == Some(j) ==> o.t.slots[j] == Slot(t.slots[j].active, t.slots[j].addr, Running))
      && (j != i && t.last != Some(j) ==> o.t.slots[j] == t.slots[j])
  {
    MatchFound(t, a, i);
    hide FindMatch, FindFree, Chosen;
  }

  // A peer that is not active anywhere takes the first free slot, becomes the
  // last one with its timer stopped; the timer of the last one runs, and no
  // other slot changes.  Without a free slot nothing changes.
  lemma AnotherPeer(t: Table, a: Addr, i: nat, j: nat)
    requires Valid(t) && forall k: nat :: k < |t.slots| && t.slots[k].active ==> t.slots[k].addr != a
    requires t.last != None ==> t.slots[t.last.value].timer != NoTimer
    requires i <= |t.slots| && (forall k: nat :: k < i ==> t.slots[k].active) && j < |t.slots|
    requires i < |t.slots| ==> !t.slots[i].active
    ensures i == |t.slots| ==> Announce(t, a) == Next(t)
    ensures i < |t.slots| ==>
      var o := Announce(t, a);
      && o.Next? && |o.t.slots| == |t.slots| && o.t.last == Some(i)
      && (j == i ==> o.t.slots[j] == Slot(true, a, Stopped))
      && (j != i && t.last == Some(j) ==> o.t.slots[j] == Slot(t.slots[j].active, t.slots[j].addr, Running))
      && (j != i && t.last != Some(j) ==> o.t.slots[j] == t.slots[j])
  {
    FreeFound(t, a, i);
    hide FindMatch, FindFree, Chosen;
  }

  // Any announcement crashes once the last peer has lost its timer.
  lemma ExpiredLastCrashes(t: Table, a: Addr)
    requires Valid(t) && t.last != None && t.slots[t.last.value].timer == NoTimer
    requires forall k: nat :: k < |t.slots| && k != t.last.value && t.slots[k].active ==> t.slots[k].timer == Running
    ensures Announce(t, a).Crash?
  {
    AnnouncePhase(t, a);
  }

  lemma MatchFound(t: Table, a: Addr, i: nat)
    requires Valid(t) && i < |t.slots| && t.slots[i].active && t.slots[i].addr == a
    ensures Chosen(t.slots, a) == Some(i)
  {
    hide FindMatch, FindFree;
    var m := FindMatch(t.slots, a, 0);
    assert Holds(t.slots[i], a);
    assert m != None && t.slots[m.value].active && t.slots[m.value].addr == a;
  }

  lemma FreeFound(t: Table, a: Addr, i: nat)
    requires forall k: nat :: k < |t.slots| && t.slots[k].active ==> t.slots[k].addr != a
    requires i <= |t.slots| && forall k: nat :: k < i ==> t.slots[k].active
    requires i < |t.slots| ==> !t.slots[i].active
    ensures Chosen(t.slots, a) == if i < |t.slots| then Some(i) else None
  {
    hide FindMatch, FindFree;
    assert FindMatch(t.slots, a, 0) == None;
    var f := FindFree(t.slots, 0);
    if f != None {
      assert !t.slots[f.value].active;
    }
  }

  // Right after the expiry of a peer that is not the last one, a new peer is
  // not refused: it is active in the freed slot or in an earlier one.
  lemma FreedSlotIsTaken(t: Table, i: nat, a: Addr)
    requires Valid(t) && OthersRun(t) && PhaseOf(t) != Doomed
    requires i < |t.slots| && t.slots[i].timer == Running && t.last != Some(i)
    requires forall k: nat :: k < |t.slots| && t.slots[k].active ==> t.slots[k].addr != a
    ensures Step(t, Timeout(i)).Next?
    ensures var o := Step(Step(t, Timeout(i)).t, NewPeer(a));
      && o.Next? && o.t.last != None && o.t.last.value <= i
      && |o.t.slots| == |t.slots| && o.t.slots[o.t.last.value] == Slot(true, a, Stopped)
  {
    var t' := Step(t, Timeout(i)).t;
    ExpirePhase(t, i);
    assert !t'.slots[i].active;
    var f: nat := if t'.slots[0].active then 1 else 0;
    AnotherPeer(t', a, f, f);
  }

  // Every state of every run has distinct addresses, a timer exactly for each
  // active slot, and no stopped timer but that of the last peer.
  lemma {:induction false} EveryRun(es: seq<Event>)
    ensures Run(EmptyTable, es).Next? ==> Valid(Run(EmptyTable, es).t) && OthersRun(Run(EmptyTable, es).t)
  {
    if es != [] {
      hide Announce, Expire, Valid, OthersRun;
      EveryRun(es[..|es| - 1]);
      var o := Run(EmptyTable, es[..|es| - 1]);
      if o.Next? {
        match es[|es| - 1] {
          case NewPeer(a) => AnnouncePhase(o.t, a);
          case Timeout(i) => ExpirePhase(o.t, i);
        }
      }
    }
  }

  // A run crashes at an announcement if and only if the last peer has expired.
  lemma CrashIsDoom(es: seq<Event>, e: Event)
    requires Run(EmptyTable, es).Next?
    ensures Valid(Run(EmptyTable, es).t)
    ensures Run(EmptyTable, es + [e]).Crash? <==> e.NewPeer? && PhaseOf(Run(EmptyTable, es).t) == Doomed
  {
    hide Announce, Valid, OthersRun, PhaseOf;
    EveryRun(es);
    RunSnoc(EmptyTable, es, e);
    if e.NewPeer? {
      AnnouncePhase(Run(EmptyTable, es).t, e.addr);
    }
  }

  lemma RunSnoc(t: Table, es: seq<Event>, e: Event)
    ensures Run(t, es + [e]) == if Run(t, es).Crash? then Crash else Step(Run(t, es).t, e)
  {
    hide Step;
    assert (es + [e])[..|es|] == es;
  }

  // No event of the run names the peer that is last when it happens.
  ghost predicate NeverNamesLast(es: seq<Event>) {
    forall i: nat :: i < |es| ==> CleanAt(es, i)
  }

  ghost predicate CleanAt(es: seq<Event>, i: nat)
    requires i < |es|
  {
    es[i].NewPeer? && Run(EmptyTable, es[..i]).Next? ==> !NamesLast(Run(EmptyTable, es[..i]).t, es[i].addr)
  }

  lemma CleanPrefix(es: seq<Event>)
    requires es != [] && NeverNamesLast(es)
    ensures NeverNamesLast(es[..|es| - 1]) && CleanAt(es, |es| - 1)
  {
    hide Run, NamesLast;
    var pre := es[..|es| - 1];
    forall i: nat | i < |pre|
      ensures CleanAt(pre, i)
    {
      assert CleanAt(es, i) && pre[..i] == es[..i];
    }
  }

  // As long as no announcement names the last peer, nothing crashes, the last
  // peer stays active with its timer stopped, and every other active slot's
  // timer runs.
  lemma {:induction false} CleanRun(es: seq<Event>)
    requires NeverNamesLast(es)
    ensures Run(EmptyTable, es).Next?
    ensures var t := Run(EmptyTable, es).t;
      Valid(t) && OthersRun(t) && PhaseOf(t) in {Fresh, Settled}
  {
    if es != [] {
      hide Announce, Expire, Valid, OthersRun, PhaseOf, NamesLast, NeverNamesLast;
      CleanPrefix(es);
      CleanRun(es[..|es| - 1]);
      var t, e := Run(EmptyTable, es[..|es| - 1]).t, es[|es| - 1];
      match e {
        case NewPeer(a) => AnnouncePhase(t, a);
        case Timeout(i) => ExpirePhase(t, i);
      }
    }
  }

  // A step keeps the table settled if and only if it does not name the last
  // peer.
  lemma SettledStep(t: Table, e: Event)
    requires Valid(t) && OthersRun(t) && PhaseOf(t) == Settled
    ensures var o := Step(t, e);
      && o.Next? && Valid(o.t)
      && (PhaseOf(o.t) == Settled <==> !(e.NewPeer? && NamesLast(t, e.addr)))
  {
    match e {
      case NewPeer(a) =>
        AnnouncePhase(t, a);
        if NamesLast(t, a) {
          NamedIsChosen(t, a);
        }
      case Timeout(i) => ExpirePhase(t, i);
    }
  }

  lemma NamedIsChosen(t: Table, a: Addr)
    requires NamesLast(t, a)
    ensures Chosen(t.slots, a) != None
  {
  }

  // The shortest run that crashes: a peer announced twice expires, and the
  // next announcement restarts a timer that is gone.
  lemma CrashingRun(a: Addr, b: Addr)
    ensures Run(EmptyTable, [NewPeer(a), NewPeer(a), Timeout(0)] + [NewPeer(b)]).Crash?
  {
    CrashingSteps(a, b);
    hide Step;
    RunSnoc(EmptyTable, [], NewPeer(a));
    RunSnoc(EmptyTable, [NewPeer(a)], NewPeer(a));
    RunSnoc(EmptyTable, [NewPeer(a), NewPeer(a)], Timeout(0));
    RunSnoc(EmptyTable, [NewPeer(a), NewPeer(a), Timeout(0)], NewPeer(b));
    assert [] + [NewPeer(a)] == [NewPeer(a)];
    assert [NewPeer(a)] + [NewPeer(a)] == [NewPeer(a), NewPeer(a)];
    assert [NewPeer(a), NewPeer(a)] + [Timeout(0)] == [NewPeer(a), NewPeer(a), Timeout(0)];
  }

  // One table of the run after the other.
  lemma CrashingSteps(a: Addr, b: Addr)
    ensures Step(EmptyTable, NewPeer(a)) == Next(Table([Slot(true, a, Stopped), EmptySlot], Some(0)))
    ensures Step(Table([Slot(true, a, Stopped), EmptySlot], Some(0)), NewPeer(a))
         == Next(Table([Slot(true, a, Running), EmptySlot], Some(0)))
    ensures Step(Table([Slot(true, a, Running), EmptySlot], Some(0)), Timeout(0))
         == Next(Table([Slot(false, a, NoTimer), EmptySlot], Some(0)))
    ensures Step(Table([Slot(false, a, NoTimer), EmptySlot], Some(0)), NewPeer(b)).Crash?
  {
  }

  // ---------------------------------------------------------------------
  // The receiver
  // ---------------------------------------------------------------------

  class Receiver {
    const sinks: array<Slot>
    var lastPeer: Option<nat>

    constructor ()
      ensures State() == EmptyTable && fresh(sinks)
    {
      sinks := new Slot[SLOTS](_ => EmptySlot);
      lastPeer := None;
      new;
      assert sinks[..] == [EmptySlot, EmptySlot];
    }

    ghost function State(): Table
      reads this, sinks
    {
      Table(sinks[..], lastPeer)
    }

    // The new-peer case of catch_udp.  False is the crash.
    method NewPeer(addr: Addr) returns (ok: bool)
      requires Valid(State())
      modifies this, sinks
      ensures ok <==> Announce(old(State()), addr).Next?
      ensures ok ==> State() == Announce(old(State()), addr).t
    {
      ghost var slots := sinks[..];
      var sink: Option<nat> := None;
      var i := 0;
      while i < sinks.Length
        invariant 0 <= i <= sinks.Length && sinks[..] == slots && lastPeer == old(lastPeer)
        invariant forall j: nat :: j < i ==> !Holds(slots[j], addr)
        invariant sink == None ==> forall j: nat :: j < i ==> slots[j].active
        invariant sink != None ==> sink.value < i && IsFree(slots, sink.value)
      {
        if !sinks[i].active {
          if sink == None {
            sink := Some(i);
          }
        } else if sinks[i].addr == addr {
          sink := Some(i);
          sinks[i] := sinks[i].(timer := Stopped);
          break;
        }
        i := i + 1;
      }
      ScanIsChosen(slots, addr, sink);
      if sink == None {
        return true;
      }
      if lastPeer != None {
        if sinks[lastPeer.value].timer == NoTimer {
          return false;
        }
        sinks[lastPeer.value] := sinks[lastPeer.value].(timer := Running);
      }
      lastPeer := sink;
      if !sinks[sink.value].active {
        sinks[sink.value] := Slot(true, addr, Stopped);
      }
      return true;
    }

    // sink_timeout, called by a running timer.
    method SinkTimeout(i: nat)
      requires i < sinks.Length && sinks[i].timer == Running
      modifies sinks
      ensures State() == Expire(old(State()), i)
      ensures !sinks[i].active && sinks[i].timer == NoTimer && sinks[i].addr == old(sinks[i].addr)
      ensures forall j: nat :: j < sinks.Length && j != i ==> sinks[j] == old(sinks[j])
    {
      sinks[i] := sinks[i].(active := false, timer := NoTimer);
    }
  }

  lemma ScanIsChosen(slots: seq<Slot>, a: Addr, r: Option<nat>)
    requires r == None ==> forall j: nat :: j < |slots| ==> slots[j].active && !Holds(slots[j], a)
    requires r != None ==> (IsMatch(slots, a, r.value) ||
      (IsFree(slots, r.value) && forall j: nat :: j < |slots| ==> !Holds(slots[j], a)))
    ensures Chosen(slots, a) == r
  {
  }
}
