// The elementary streams of examples/frame.c: a list that is reconciled with
// the flows a program announces, by marking and sweeping.
module Reconcile {
  import opened Machine

  // A flow definition: its id and everything else it says.
  datatype Flow = Flow(id: nat, def: string)

  // struct es.  Only the mark changes after es_add; source says whether a
  // source pipe was allocated.
  class Es {
    const id: nat
    const flowDef: Flow
    const source: bool
    var marked: bool

    constructor (id: nat, flowDef: Flow, source: bool)
      ensures this.id == id && this.flowDef == flowDef && this.source == source && !marked
    {
      this.id, this.flowDef, this.source, marked := id, flowDef, source, false;
    }
  }

  // ---------------------------------------------------------------------
  // What an update does to a list, in values
  // ---------------------------------------------------------------------

  function FlowIds(flows: seq<Flow>): set<nat> {
    set i: nat | i < |flows| :: flows[i].id
  }

  // The entries whose flows are announced, in the order they had.
  ghost function Survivors(es: seq<Es>, announced: set<nat>): seq<Es> {
    if es == [] then []
    else Survivors(es[..|es| - 1], announced) + (if es[|es| - 1].id in announced then [es[|es| - 1]] else [])
  }

  // The flows that have no entry yet, each at its first announcement.
  function NewFlows(known: set<nat>, flows: seq<Flow>): seq<Flow> {
    if flows == [] then []
    else
      var before, f := flows[..|flows| - 1], flows[|flows| - 1];
      NewFlows(known, before) + (if f.id in known || f.id in FlowIds(before) then [] else [f])
  }

  ghost function Ids(es: seq<Es>): seq<nat> {
    seq(|es|, i requires 0 <= i < |es| => es[i].id)
  }

  ghost predicate Distinct(ids: seq<nat>) {
    forall i: nat, j: nat :: i < j < |ids| ==> ids[i] != ids[j]
  }

  function IdsOf(flows: seq<Flow>): seq<nat> {
    seq(|flows|, i requires 0 <= i < |flows| => flows[i].id)
  }

  // The same on ids alone.
  function Kept(ids: seq<nat>, announced: set<nat>): seq<nat> {
    if ids == [] then []
    else Kept(ids[..|ids| - 1], announced) + (if ids[|ids| - 1] in announced then [ids[|ids| - 1]] else [])
  }

  function Reconciled(ids: seq<nat>, flows: seq<Flow>): seq<nat> {
    Kept(ids, FlowIds(flows)) + IdsOf(NewFlows(ToSet(ids), flows))
  }

  function ToSet(ids: seq<nat>): set<nat> {
    set i: nat | i < |ids| :: ids[i]
  }

  lemma {:induction false} SurvivorIds(es: seq<Es>, announced: set<nat>)
    ensures Ids(Survivors(es, announced)) == Kept(Ids(es), announced)
  {
    if es != [] {
      var before := es[..|es| - 1];
      SurvivorIds(before, announced);
      assert Ids(es)[..|es| - 1] == Ids(before);
    }
  }

  lemma {:induction false} KeptFacts(ids: seq<nat>, announced: set<nat>)
    requires Distinct(ids)
    ensures Distinct(Kept(ids, announced))
    ensures ToSet(Kept(ids, announced)) == ToSet(ids) * announced
  {
    if ids != [] {
      var before, x := ids[..|ids| - 1], ids[|ids| - 1];
      var k := Kept(before, announced);
      assert Distinct(before);
      KeptFacts(before, announced);
      assert ids == before + [x];
      assert Kept(ids, announced) == if x in announced then k + [x] else k;
      hide Kept;
      DistinctSnoc(before, x);
      ToSetSnoc(before, x);
      ToSetSnoc(k, x);
      DistinctSnoc(k, x);
    }
  }

  lemma DistinctSnoc(ids: seq<nat>, x: nat)
    requires Distinct(ids)
    ensures Distinct(ids + [x]) <==> x !in ToSet(ids)
  {
    assert forall i: nat :: i < |ids| ==> ids[i] in ToSet(ids);
    if i: nat :| i < |ids| && ids[i] == x {
      assert (ids + [x])[i] == (ids + [x])[|ids|];
    }
  }

  lemma ToSetSnoc(ids: seq<nat>, x: nat)
    ensures ToSet(ids + [x]) == ToSet(ids) + {x}
  {
    assert (ids + [x])[|ids|] == x;
    assert forall i: nat :: i < |ids| ==> (ids + [x])[i] == ids[i];
  }

  lemma FlowIdsSnoc(flows: seq<Flow>, f: Flow)
    ensures FlowIds(flows + [f]) == FlowIds(flows) + {f.id}
  {
    assert (flows + [f])[|flows|] == f;
    assert forall i: nat :: i < |flows| ==> (flows + [f])[i] == flows[i];
  }

  lemma {:induction false} NewFacts(known: set<nat>, flows: seq<Flow>)
    ensures Distinct(IdsOf(NewFlows(known, flows)))
    ensures ToSet(IdsOf(NewFlows(known, flows))) == FlowIds(flows) - known
  {
    if flows != [] {
      var before, f := flows[..|flows| - 1], flows[|flows| - 1];
      NewFacts(known, before);
      assert flows == before + [f];
      FlowIdsSnoc(before, f);
      var news := NewFlows(known, before);
      var ids := IdsOf(news);
      ToSetSnoc(ids, f.id);
      assert NewFlows(known, flows) == if f.id in known || f.id in FlowIds(before) then news else news + [f];
      assert IdsOf(news + [f]) == ids + [f.id];
      assert forall i: nat :: i < |ids| ==> ids[i] in ToSet(ids);
    }
  }

  // After an update the ids are exactly those announced, without duplicates.
  lemma ReconciledIsAnnounced(ids: seq<nat>, flows: seq<Flow>)
    requires Distinct(ids)
    ensures Distinct(Reconciled(ids, flows))
    ensures ToSet(Reconciled(ids, flows)) == FlowIds(flows)
  {
    var kept, added := Kept(ids, FlowIds(flows)), IdsOf(NewFlows(ToSet(ids), flows));
    KeptFacts(ids, FlowIds(flows));
    NewFacts(ToSet(ids), flows);
    assert forall i: nat :: i < |kept| ==> kept[i] in ToSet(kept);
    assert forall i: nat :: i < |added| ==> added[i] in ToSet(added);
    ToSetConcat(kept, added);
    assert ToSet(ids) * FlowIds(flows) + (FlowIds(flows) - ToSet(ids)) == FlowIds(flows);
  }

  lemma ToSetConcat(a: seq<nat>, b: seq<nat>)
    ensures ToSet(a + b) == ToSet(a) + ToSet(b)
  {
    assert forall i: nat :: i < |a| ==> (a + b)[i] == a[i];
    assert forall i: nat :: i < |b| ==> (a + b)[|a| + i] == b[i];
  }

  // Announcing the same flows again changes nothing.
  lemma ReconciledTwice(ids: seq<nat>, flows: seq<Flow>)
    requires Distinct(ids)
    ensures Reconciled(Reconciled(ids, flows), flows) == Reconciled(ids, flows)
  {
    var r := Reconciled(ids, flows);
    ReconciledIsAnnounced(ids, flows);
    KeepAll(r, FlowIds(flows));
    NothingNew(ToSet(r), flows);
  }

  lemma {:induction false} KeepAll(ids: seq<nat>, announced: set<nat>)
    requires ToSet(ids) <= announced
    ensures Kept(ids, announced) == ids
  {
    if ids != [] {
      var before := ids[..|ids| - 1];
      assert ids == before + [ids[|ids| - 1]];
      ToSetSnoc(before, ids[|ids| - 1]);
      KeepAll(before, announced);
    }
  }

  lemma {:induction false} NothingNew(known: set<nat>, flows: seq<Flow>)
    requires FlowIds(flows) <= known
    ensures NewFlows(known, flows) == []
  {
    if flows != [] {
      var before := flows[..|flows| - 1];
      assert flows == before + [flows[|flows| - 1]];
      FlowIdsSnoc(before, flows[|flows| - 1]);
      NothingNew(known, before);
    }
  }

  // The ids after a run of updates, from an empty list.
  function AfterRun(updates: seq<seq<Flow>>): seq<nat> {
    if updates == [] then [] else Reconciled(AfterRun(updates[..|updates| - 1]), updates[|updates| - 1])
  }

  lemma {:induction false} RunIsAnnounced(updates: seq<seq<Flow>>)
    ensures Distinct(AfterRun(updates))
    ensures updates != [] ==> ToSet(AfterRun(updates)) == FlowIds(updates[|updates| - 1])
  {
    if updates != [] {
      RunIsAnnounced(updates[..|updates| - 1]);
      ReconciledIsAnnounced(AfterRun(updates[..|updates| - 1]), updates[|updates| - 1]);
    }
  }

  // ---------------------------------------------------------------------
  // The program
  // ---------------------------------------------------------------------

  class Program {
    var pids: seq<nat>
    // pid_selection is PID_FILTER_OUT
    var filterOut: bool
    var esList: seq<Es>

    constructor ()
      ensures pids == [] && !filterOut && esList == []
    {
      pids, filterOut, esList := [], false, [];
    }

    ghost predicate Valid()
      reads this
    {
      Distinct(Ids(esList))
    }

    // The filter lets a stream through.
    ghost predicate Selected(id: nat)
      reads this
    {
      id in pids <==> !filterOut
    }

    ghost predicate Agrees(es: seq<Es>)
      reads this
    {
      forall i: nat :: i < |es| ==> (es[i].source <==> Selected(es[i].id))
    }

    // pid_find
    method PidFind(id: nat) returns (found: bool)
      ensures found <==> id in pids
    {
      for i := 0 to |pids|
        invariant id !in pids[..i]
      {
        if pids[i] == id {
          return true;
        }
      }
      return false;
    }

    // pid_add.  Entries made before it keep the source they have, so that the
    // list goes on agreeing with the filter unless one of them has this id.
    method PidAdd(id: nat)
      modifies this`pids
      ensures pids == if id in old(pids) then old(pids) else old(pids) + [id]
      ensures old(Agrees(esList)) ==>
        (Agrees(esList) <==> id in old(pids) || id !in ToSet(Ids(esList)))
    {
      var found := PidFind(id);
      if !found {
        pids := pids + [id];
        assert forall i: nat :: i < |esList| ==> Ids(esList)[i] == esList[i].id;
      }
    }

    // es_find
    method EsFind(id: nat) returns (es: Es?)
      ensures es == null ==> forall i: nat :: i < |esList| ==> esList[i].id != id
      ensures es != null ==> es in esList && es.id == id
    {
      for i := 0 to |esList|
        invariant forall j: nat :: j < i ==> esList[j].id != id
      {
        if esList[i].id == id {
          return esList[i];
        }
      }
      return null;
    }

    // es_add
    method EsAdd(id: nat, flowDef: Flow) returns (es: Es)
      requires id != 0
      modifies this`esList
      ensures fresh(es) && esList == old(esList) + [es]
      ensures es.id == id && es.flowDef == flowDef && !es.marked && (es.source <==> Selected(id))
    {
      var selected := PidFind(id);
      es := new Es(id, flowDef, (selected && !filterOut) || (!selected && filterOut));
      esList := esList + [es];
    }

    // es_mark
    method EsMark()
      modifies esList
      ensures forall i: nat :: i < |esList| ==> esList[i].marked
    {
      for i := 0 to |esList|
        invariant forall j: nat :: j < i ==> esList[j].marked
      {
        esList[i].marked := true;
      }
    }
  
    // es_del
    method EsDel(i: nat)
      requires i < |esList|
      modifies this`esList
      ensures esList == old(esList)[..i] + old(esList)[i + 1..]
    {
      esList := esList[..i] + esList[i + 1..];
    }

    // The first loop of catch_prog: every announced flow gets an entry and loses
    // its mark.
    method Announce(flows: seq<Flow>) returns (ghost added: seq<Es>)
      requires Distinct(Ids(esList)) && forall i: nat :: i < |flows| ==> flows[i].id != 0
      requires forall i: nat :: i < |esList| ==> esList[i].marked
      modifies this`esList, esList
      ensures esList == old(esList) + added
      ensures Made(added, NewFlows(ToSet(Ids(old(esList))), flows)) && fresh(added) && Agrees(added)
      ensures forall i: nat :: i < |old(esList)| ==>
        (old(esList)[i].marked <==> old(esList)[i].id !in FlowIds(flows))
      ensures forall i: nat :: i < |added| ==> !added[i].marked
    {
      hide NewFlows, FlowIds, Distinct, ToSet, Ids;
      ghost var es0 := esList;
      added := [];
      NoFlows(ToSet(Ids(es0)));
      for n := 0 to |flows|
        invariant esList == es0 + added
        invariant Made(added, NewFlows(ToSet(Ids(es0)), flows[..n])) && fresh(added)
        invariant Agrees(added)
        invariant forall i: nat :: i < |es0| ==> (es0[i].marked <==> es0[i].id !in FlowIds(flows[..n]))
        invariant forall i: nat :: i < |added| ==> !added[i].marked
      {
        var flow := flows[n];
        StepFacts(es0, added, flows, n);
        var es := EsFind(flow.id);
        assert forall i: nat :: i < |es0| ==> es0[i] == esList[i];
        if es == null {
          es := EsAdd(flow.id, flow);
          added := added + [es];
        } else {
          OnlyOne(es0, added, flows[..n], es);
        }
        es.marked := false;
      }
      assert flows[..|flows|] == flows;
    }

    // The second loop of catch_prog: the entries that kept their mark go.
    method Sweep(ghost announced: set<nat>)
      requires forall i: nat :: i < |esList| ==> (esList[i].marked <==> esList[i].id !in announced)
      modifies this`esList
      ensures esList == Survivors(old(esList), announced)
    {
      hide Survivors;
      ghost var all := esList;
      ghost var pos := 0;
      var i := 0;
      NoSurvivors(all, announced);
      while i < |esList|
        invariant 0 <= pos <= |all| && i == |Survivors(all[..pos], announced)|
        invariant esList == Survivors(all[..pos], announced) + all[pos..]
        invariant forall j: nat :: j < |all| ==> (all[j].marked <==> all[j].id !in announced)
        decreases |all| - pos
      {
        SurvivorsStep(all, announced, pos);
        AtBoundary(Survivors(all[..pos], announced), all[pos], all[pos + 1..]);
        if !esList[i].marked {
          i := i + 1;
        } else {
          EsDel(i);
        }
        pos := pos + 1;
      }
      assert all[..|all|] == all;
    }

    // The reconciliation of catch_prog, on the flows a split update announces.
    method CatchProg(flows: seq<Flow>) returns (ghost added: seq<Es>)
      requires Valid() && forall i: nat :: i < |flows| ==> flows[i].id != 0
      modifies this`esList, esList
      ensures Valid() && Ids(esList) == Reconciled(Ids(old(esList)), flows)
      ensures esList == Survivors(old(esList), FlowIds(flows)) + added
      ensures Made(added, NewFlows(ToSet(Ids(old(esList))), flows)) && fresh(added)
      ensures old(Agrees(esList)) ==> Agrees(esList)
      ensures forall i: nat :: i < |esList| ==> esList[i] in old(esList) || fresh(esList[i])
    {
      hide Survivors, Reconciled, FlowIds, NewFlows, Ids, Distinct, ToSet, Made;
      ghost var es0 := esList;
      EsMark();
      added := Announce(flows);
      AnnouncedIds(es0, added, flows);
      Sweep(FlowIds(flows));
      SweepDone(es0, added, flows, es0 + added);
      SurvivorsIn(es0, FlowIds(flows));
    }
  }

  // A whole run of the program: the options, then the updates.  The entries are
  // those of the last update, without duplicates, and each has a source exactly
  // when the filter lets it through.
  method Run(selected: seq<nat>, filterOut: bool, updates: seq<seq<Flow>>) returns (p: Program)
    requires forall n: nat, i: nat :: n < |updates| && i < |updates[n]| ==> updates[n][i].id != 0
    ensures Distinct(Ids(p.esList)) && Ids(p.esList) == AfterRun(updates)
    ensures updates != [] ==> ToSet(Ids(p.esList)) == FlowIds(updates[|updates| - 1])
    ensures forall i: nat :: i < |p.esList| ==>
      (p.esList[i].source <==> (p.esList[i].id in selected <==> !filterOut))
  {
    hide Reconciled, FlowIds, Distinct;
    p := new Program();
    p.filterOut := filterOut;
    for n := 0 to |selected|
      invariant fresh(p) && p.filterOut == filterOut && p.esList == []
      invariant forall x :: x in p.pids <==> x in selected[..n]
    {
      p.PidAdd(selected[n]);
    }
    assert selected[..|selected|] == selected;
    RunIsAnnounced([]);
    assert Ids(p.esList) == AfterRun(updates[..0]);
    for n := 0 to |updates|
      invariant fresh(p) && p.filterOut == filterOut
      invariant forall x :: x in p.pids <==> x in selected
      invariant forall i: nat :: i < |p.esList| ==> fresh(p.esList[i])
      invariant Distinct(Ids(p.esList)) && Ids(p.esList) == AfterRun(updates[..n])
      invariant p.Agrees(p.esList)
    {
      ghost var added := p.CatchProg(updates[n]);
      assert updates[..n + 1][..n] == updates[..n];
    }
    assert updates[..|updates|] == updates;
    RunIsAnnounced(updates);
  }

  lemma NoFlows(known: set<nat>)
    ensures NewFlows(known, []) == [] && FlowIds([]) == {}
  {
  }

  // Keeping or deleting the element behind a prefix.
  lemma AtBoundary<T>(s: seq<T>, x: T, tail: seq<T>)
    ensures var list := s + ([x] + tail);
      && |list| > |s| && list[|s|] == x
      && list == s + [x] + tail
      && list[..|s|] + list[|s| + 1..] == s + [] + tail
  {
  }

  lemma NoSurvivors(all: seq<Es>, announced: set<nat>)
    ensures Survivors(all[..0], announced) == [] && all[0..] == all
  {
  }

  lemma SurvivorsStep(all: seq<Es>, announced: set<nat>, pos: nat)
    requires pos < |all|
    ensures all[pos..] == [all[pos]] + all[pos + 1..]
    ensures Survivors(all[..pos + 1], announced)
         == Survivors(all[..pos], announced) + if all[pos].id in announced then [all[pos]] else []
  {
    assert all[..pos + 1][..pos] == all[..pos];
  }

  lemma {:induction false} SurvivorsIn(es: seq<Es>, announced: set<nat>)
    ensures forall i: nat :: i < |Survivors(es, announced)| ==> Survivors(es, announced)[i] in es
  {
    if es != [] {
      SurvivorsIn(es[..|es| - 1], announced);
    }
  }

  lemma AnnouncedIds(es0: seq<Es>, added: seq<Es>, flows: seq<Flow>)
    requires Made(added, NewFlows(ToSet(Ids(es0)), flows))
    ensures forall i: nat :: i < |added| ==> added[i].id in FlowIds(flows)
  {
    MadeIds(added, ToSet(Ids(es0)), flows);
    hide NewFlows, FlowIds;
    forall i: nat | i < |added|
      ensures added[i].id in FlowIds(flows)
    {
      InIds(added, added[i].id);
    }
  }

  // These entries are for these flows, one by one.
  ghost predicate Made(es: seq<Es>, flows: seq<Flow>) {
    |es| == |flows| && forall i: nat :: i < |es| ==> es[i].id == flows[i].id && es[i].flowDef == flows[i]
  }

  lemma MadeIds(es: seq<Es>, known: set<nat>, flows: seq<Flow>)
    requires Made(es, NewFlows(known, flows))
    ensures ToSet(Ids(es)) == FlowIds(flows) - known && Distinct(Ids(es))
  {
    NewFacts(known, flows);
    assert Ids(es) == IdsOf(NewFlows(known, flows));
  }

  lemma InIds(es: seq<Es>, x: nat)
    ensures x in ToSet(Ids(es)) <==> exists i: nat :: i < |es| && es[i].id == x
  {
    assert forall i: nat :: i < |es| ==> Ids(es)[i] == es[i].id;
  }

  // Whether an id is among entries old and new.
  lemma InBoth(es0: seq<Es>, added: seq<Es>, x: nat)
    ensures (exists i: nat :: i < |es0 + added| && (es0 + added)[i].id == x)
       <==> x in ToSet(Ids(es0)) || x in ToSet(Ids(added))
  {
    InIds(es0, x);
    InIds(added, x);
    hide Ids, ToSet;
    if i: nat :| i < |es0| && es0[i].id == x {
      assert (es0 + added)[i].id == x;
    } else if i: nat :| i < |added| && added[i].id == x {
      assert (es0 + added)[|es0| + i].id == x;
    }
  }

  lemma NewFlowsSnoc(known: set<nat>, flows: seq<Flow>, f: Flow)
    ensures NewFlows(known, flows + [f])
         == NewFlows(known, flows) + if f.id in known || f.id in FlowIds(flows) then [] else [f]
  {
    assert (flows + [f])[..|flows|] == flows;
  }

  // One flow more, and whether it has an entry already.
  lemma StepFacts(es0: seq<Es>, added: seq<Es>, flows: seq<Flow>, n: nat)
    requires n < |flows| && Made(added, NewFlows(ToSet(Ids(es0)), flows[..n]))
    ensures FlowIds(flows[..n + 1]) == FlowIds(flows[..n]) + {flows[n].id}
    ensures var known := exists i: nat :: i < |es0 + added| && (es0 + added)[i].id == flows[n].id;
      NewFlows(ToSet(Ids(es0)), flows[..n + 1])
        == NewFlows(ToSet(Ids(es0)), flows[..n]) + if known then [] else [flows[n]]
  {
    hide FlowIds, NewFlows, Made, Ids, ToSet;
    assert flows[..n + 1] == flows[..n] + [flows[n]];
    FlowIdsSnoc(flows[..n], flows[n]);
    NewFlowsSnoc(ToSet(Ids(es0)), flows[..n], flows[n]);
    MadeIds(added, ToSet(Ids(es0)), flows[..n]);
    InBoth(es0, added, flows[n].id);
  }

  // Entries old and new have distinct ids.
  lemma StillDistinct(es0: seq<Es>, added: seq<Es>, flows: seq<Flow>)
    requires Distinct(Ids(es0)) && Made(added, NewFlows(ToSet(Ids(es0)), flows))
    ensures Distinct(Ids(es0 + added))
  {
    MadeIds(added, ToSet(Ids(es0)), flows);
    var a, b := Ids(es0), Ids(added);
    assert Ids(es0 + added) == a + b;
    assert forall i: nat :: i < |a| ==> a[i] in ToSet(a);
    assert forall i: nat :: i < |b| ==> b[i] in ToSet(b);
  }

  lemma OnlyOne(es0: seq<Es>, added: seq<Es>, flows: seq<Flow>, e: Es)
    requires Distinct(Ids(es0)) && Made(added, NewFlows(ToSet(Ids(es0)), flows))
    requires e in es0 + added
    ensures forall i: nat :: i < |es0| && es0[i].id == e.id ==> es0[i] == e
  {
    StillDistinct(es0, added, flows);
    var all := es0 + added;
    var j: nat :| j < |all| && all[j] == e;
    forall i: nat | i < |es0| && es0[i].id == e.id
      ensures es0[i] == e
    {
      assert Ids(all)[i] == all[i].id && Ids(all)[j] == e.id && all[i] == es0[i];
    }
  }

  lemma {:induction false} SurvivorsConcat(a: seq<Es>, b: seq<Es>, announced: set<nat>)
    ensures Survivors(a + b, announced) == Survivors(a, announced) + Survivors(b, announced)
  {
    if b == [] {
      assert a + b == a;
    } else {
      SurvivorsConcat(a, b[..|b| - 1], announced);
      assert (a + b)[..|a + b| - 1] == a + b[..|b| - 1];
    }
  }

  lemma {:induction false} AllSurvive(es: seq<Es>, announced: set<nat>)
    requires forall i: nat :: i < |es| ==> es[i].id in announced
    ensures Survivors(es, announced) == es
  {
    if es != [] {
      AllSurvive(es[..|es| - 1], announced);
    }
  }

  // What is left when the sweep is over.
  lemma SweepDone(es0: seq<Es>, added: seq<Es>, flows: seq<Flow>, all: seq<Es>)
    requires Distinct(Ids(es0)) && Made(added, NewFlows(ToSet(Ids(es0)), flows)) && all == es0 + added
    ensures Survivors(all, FlowIds(flows)) == Survivors(es0, FlowIds(flows)) + added
    ensures Ids(Survivors(all, FlowIds(flows))) == Reconciled(Ids(es0), flows)
    ensures Distinct(Ids(Survivors(all, FlowIds(flows))))
    ensures all[..|all|] == all
  {
    hide Survivors, Reconciled, FlowIds, NewFlows, Kept, Distinct, ToSet;
    var announced := FlowIds(flows);
    AddedSurvive(es0, added, flows);
    SurvivorsConcat(es0, added, announced);
    SweepIds(es0, added, flows);
    ReconciledIsAnnounced(Ids(es0), flows);
  }

  lemma AddedSurvive(es0: seq<Es>, added: seq<Es>, flows: seq<Flow>)
    requires Made(added, NewFlows(ToSet(Ids(es0)), flows))
    ensures Survivors(added, FlowIds(flows)) == added
  {
    hide NewFlows, FlowIds;
    AnnouncedIds(es0, added, flows);
    AllSurvive(added, FlowIds(flows));
  }

  lemma SweepIds(es0: seq<Es>, added: seq<Es>, flows: seq<Flow>)
    requires Made(added, NewFlows(ToSet(Ids(es0)), flows))
    ensures Ids(Survivors(es0, FlowIds(flows)) + added) == Reconciled(Ids(es0), flows)
  {
    hide Survivors, FlowIds, NewFlows, Kept;
    SurvivorIds(es0, FlowIds(flows));
    assert Ids(added) == IdsOf(NewFlows(ToSet(Ids(es0)), flows));
  }
}
