/** The attachment manager: per interface and direction, a state and the kernel link it owns. */
module Attachment {
  import opened Counters
  import opened Store

  /** `Unset` is the zero value of a direction that was never touched. */
  datatype AttachState = Unset | Detached | Attached | Failed

  datatype DirectionState = DirectionState(state: AttachState, link: Option<nat>)

  datatype IfaceState = IfaceState(ingress: DirectionState, egress: DirectionState)

  const UNTOUCHED := DirectionState(Unset, None)

  /** The manager's table together with the history of the links: links are numbered as the
      kernel hands them out, `closes` counts the calls of Close on each, and `orphaned` holds the
      links whose direction was marked failed while attached. */
  datatype Manager = Manager(
    ifaces: map<string, IfaceState>, issued: nat, closes: multiset<nat>, orphaned: set<nat>)

  const NEW_MANAGER := Manager(map[], 0, multiset{}, {})

  function Slot(m: Manager, name: string, d: Direction): DirectionState {
    if name !in m.ifaces then UNTOUCHED
    else match d case Ingress => m.ifaces[name].ingress case Egress => m.ifaces[name].egress
  }

  predicate IsAttached(m: Manager, name: string, d: Direction) {
    Slot(m, name, d).state == Attached
  }

  function SetSlot(m: Manager, name: string, d: Direction, s: DirectionState): (m': Manager)
    ensures Slot(m', name, d) == s
    ensures forall n, e :: n != name || e != d ==> Slot(m', n, e) == Slot(m, n, e)
    ensures m'.issued == m.issued && m'.closes == m.closes && m'.orphaned == m.orphaned
    ensures m'.ifaces.Keys == m.ifaces.Keys + {name}
  {
    var iface := if name in m.ifaces then m.ifaces[name] else IfaceState(UNTOUCHED, UNTOUCHED);
    m.(ifaces := m.ifaces[name := match d case Ingress => iface.(ingress := s) case Egress => iface.(egress := s)])
  }

  /** Attach one direction; `ok` is the kernel's answer. */
  function AttachDirection(m: Manager, name: string, d: Direction, ok: bool): Manager {
    if IsAttached(m, name, d) then m
    else if ok then SetSlot(m.(issued := m.issued + 1), name, d, DirectionState(Attached, Some(m.issued)))
    else SetSlot(m, name, d, DirectionState(Failed, None))
  }

  /** The interface cannot be resolved: the direction is marked failed and keeps its link. */
  function MarkFailed(m: Manager, name: string, d: Direction): Manager {
    var s := Slot(m, name, d);
    var m' := SetSlot(m, name, d, DirectionState(Failed, s.link));
    if s.state == Attached && s.link.Some? then m'.(orphaned := m.orphaned + {s.link.value}) else m'
  }

  /** Detach one direction; `ok` is the answer of Close. */
  function DetachDirection(m: Manager, name: string, d: Direction, ok: bool): Manager {
    var s := Slot(m, name, d);
    if s.state != Attached || s.link.None? then m
    else
      SetSlot(m.(closes := m.closes + multiset{s.link.value}), name, d,
              DirectionState(if ok then Detached else Failed, None))
  }

  /** Everything that can happen to the table, one direction at a time. */
  datatype Op =
    | Attach(name: string, dir: Direction, ok: bool)
    | Unresolved(name: string, dir: Direction)
    | Detach(name: string, dir: Direction, ok: bool)

  function Apply(m: Manager, op: Op): Manager {
    match op
    case Attach(name, d, ok) => AttachDirection(m, name, d, ok)
    case Unresolved(name, d) => MarkFailed(m, name, d)
    case Detach(name, d, ok) => DetachDirection(m, name, d, ok)
  }

  function Run(m: Manager, ops: seq<Op>): Manager {
    if ops == [] then m else Apply(Run(m, ops[..|ops| - 1]), ops[|ops| - 1])
  }

  // ---------------------------------------------------------------- who owns which link

  /** The links held by directions in state Attached. */
  ghost predicate Holds(m: Manager, link: nat) {
    exists name, d :: IsAttached(m, name, d) && Slot(m, name, d).link == Some(link)
  }

  ghost predicate SlotOk(m: Manager, name: string, d: Direction) {
    var s := Slot(m, name, d);
    && (s.state == Attached ==> s.link.Some? && s.link.value !in m.orphaned)
    && (s.link.Some? ==> s.link.value < m.issued && s.link.value !in m.closes)
    && (s.link.Some? && s.state != Attached ==> s.link.value in m.orphaned)
  }

  /** No two directions have the same link. */
  ghost predicate OneHolder(m: Manager) {
    forall n1, d1, n2, d2 :: Slot(m, n1, d1).link.Some? && Slot(m, n1, d1).link == Slot(m, n2, d2).link ==>
      n1 == n2 && d1 == d2
  }

  /** Every link ever opened is in exactly one place: held by one attached direction, closed
      once, or orphaned. */
  ghost predicate Inv(m: Manager) {
    && (forall name, d :: SlotOk(m, name, d))
    && OneHolder(m)
    && (forall l :: l in m.closes ==> m.closes[l] == 1 && l < m.issued && l !in m.orphaned)
    && (forall l :: l in m.orphaned ==> l < m.issued)
    && (forall l: nat :: l < m.issued ==> l in m.closes || l in m.orphaned || Holds(m, l))
  }

  lemma NewInv()
    ensures Inv(NEW_MANAGER)
  {
  }

  /** A step that changes one slot keeps a link that another slot holds. */
  lemma HoldsElsewhere(m: Manager, m': Manager, name: string, d: Direction, l: nat)
    requires forall n, e :: n != name || e != d ==> Slot(m', n, e) == Slot(m, n, e)
    requires Holds(m, l) && !(IsAttached(m, name, d) && Slot(m, name, d).link == Some(l))
    ensures Holds(m', l)
  {
    var n, e :| IsAttached(m, n, e) && Slot(m, n, e).link == Some(l);
    assert IsAttached(m', n, e) && Slot(m', n, e).link == Some(l);
  }

  /** The one slot that changes keeps its link, drops it, or gets a new one. */
  lemma OneHolderKept(m: Manager, m': Manager, name: string, d: Direction)
    requires OneHolder(m) && forall n, e :: SlotOk(m, n, e)
    requires forall n, e :: n != name || e != d ==> Slot(m', n, e) == Slot(m, n, e)
    requires var l := Slot(m', name, d).link; l.None? || l == Slot(m, name, d).link || m.issued <= l.value
    ensures OneHolder(m')
  {
    forall n1, d1, n2, d2 | Slot(m', n1, d1).link.Some? && Slot(m', n1, d1).link == Slot(m', n2, d2).link
      ensures n1 == n2 && d1 == d2
    {
      assert SlotOk(m, n1, d1) && SlotOk(m, n2, d2);
    }
  }

  lemma AttachInv(m: Manager, name: string, d: Direction, ok: bool)
    requires Inv(m)
    ensures Inv(AttachDirection(m, name, d, ok))
  {
    var m' := AttachDirection(m, name, d, ok);
    if !IsAttached(m, name, d) {
      forall n, e
        ensures SlotOk(m', n, e)
      {
        assert SlotOk(m, n, e);
      }
      forall l: nat | l < m'.issued
        ensures l in m'.closes || l in m'.orphaned || Holds(m', l)
      {
        if l == m.issued {
          assert IsAttached(m', name, d) && Slot(m', name, d).link == Some(l);
        } else if Holds(m, l) {
          HoldsElsewhere(m, m', name, d, l);
        }
      }
      OneHolderKept(m, m', name, d);
    }
  }

  lemma MarkFailedInv(m: Manager, name: string, d: Direction)
    requires Inv(m)
    ensures Inv(MarkFailed(m, name, d))
  {
    var m' := MarkFailed(m, name, d);
    assert SlotOk(m, name, d);
    OneHolderKept(m, m', name, d);
    forall n, e
      ensures SlotOk(m', n, e)
    {
      assert SlotOk(m, n, e);
    }
    forall l: nat | l < m'.issued
      ensures l in m'.closes || l in m'.orphaned || Holds(m', l)
    {
      if Holds(m, l) && l !in m'.orphaned {
        HoldsElsewhere(m, m', name, d, l);
      }
    }
  }

  lemma DetachInv(m: Manager, name: string, d: Direction, ok: bool)
    requires Inv(m)
    ensures Inv(DetachDirection(m, name, d, ok))
  {
    var m' := DetachDirection(m, name, d, ok);
    assert SlotOk(m, name, d);
    if IsAttached(m, name, d) {
      OneHolderKept(m, m', name, d);
      forall n, e
        ensures SlotOk(m', n, e)
      {
        assert SlotOk(m, n, e);
      }
      forall l: nat | l < m'.issued
        ensures l in m'.closes || l in m'.orphaned || Holds(m', l)
      {
        if Holds(m, l) && l !in m'.closes {
          HoldsElsewhere(m, m', name, d, l);
        }
      }
    }
  }

  /** Over any sequence of attaches, failed resolves and detaches: Attached means a held link, no
      link is closed twice, and no link is lost from sight. */
  lemma {:induction false} LinksAccountedFor(ops: seq<Op>)
    ensures Inv(Run(NEW_MANAGER, ops))
  {
    if ops == [] {
      NewInv();
    } else {
      var m, op := Run(NEW_MANAGER, ops[..|ops| - 1]), ops[|ops| - 1];
      LinksAccountedFor(ops[..|ops| - 1]);
      match op
      case Attach(name, d, ok) => AttachInv(m, name, d, ok);
      case Unresolved(name, d) => MarkFailedInv(m, name, d);
      case Detach(name, d, ok) => DetachInv(m, name, d, ok);
    }
  }

  /** A link becomes an orphan exactly when its interface fails to resolve while attached. */
  lemma OrphanedOnlyByFailedResolve(m: Manager, op: Op)
    requires Inv(m)
    ensures Apply(m, op).orphaned != m.orphaned <==> op.Unresolved? && IsAttached(m, op.name, op.dir)
  {
    assert SlotOk(m, op.name, op.dir);
  }

  /** Some operation reports an attached direction's interface as unresolvable. */
  ghost predicate ResolveFails(ops: seq<Op>, i: nat)
    requires i < |ops|
  {
    ops[i].Unresolved? && IsAttached(Run(NEW_MANAGER, ops[..i]), ops[i].name, ops[i].dir)
  }

  /** Over any operations, links are orphaned if and only if an interface failed to resolve while
      attached. */
  lemma {:induction false} OrphansIffResolveFails(ops: seq<Op>)
    ensures Run(NEW_MANAGER, ops).orphaned == {} <==> forall i :: 0 <= i < |ops| ==> !ResolveFails(ops, i)
  {
    if ops != [] {
      var n := |ops| - 1;
      var front, m := ops[..n], Run(NEW_MANAGER, ops[..n]);
      forall i | 0 <= i < n
        ensures ResolveFails(front, i) <==> ResolveFails(ops, i)
      {
        assert front[..i] == ops[..i] && front[i] == ops[i];
      }
      OrphansIffResolveFails(front);
      LinksAccountedFor(front);
      OrphanedOnlyByFailedResolve(m, ops[n]);
      OrphansStay(m, ops[n]);
      assert ResolveFails(ops, n) <==> ops[n].Unresolved? && IsAttached(m, ops[n].name, ops[n].dir);
    }
  }

  lemma OrphansStay(m: Manager, op: Op)
    ensures m.orphaned <= Apply(m, op).orphaned
  {
  }

  /** After any operations that leave nothing attached, every link was closed exactly once if and
      only if no interface ever failed to resolve while attached. */
  lemma AllClosedIffNeverUnresolved(ops: seq<Op>)
    requires forall name, d :: !IsAttached(Run(NEW_MANAGER, ops), name, d)
    ensures var m := Run(NEW_MANAGER, ops);
            (forall l: nat :: l < m.issued ==> m.closes[l] == 1)
            <==> forall i :: 0 <= i < |ops| ==> !ResolveFails(ops, i)
  {
    LinksAccountedFor(ops);
    AllClosedIffNoOrphans(Run(NEW_MANAGER, ops));
    OrphansIffResolveFails(ops);
  }

  /** With nothing attached, every link was closed exactly once if and only if no link was
      orphaned. */
  lemma AllClosedIffNoOrphans(m: Manager)
    requires Inv(m) && forall name, d :: !IsAttached(m, name, d)
    ensures (forall l: nat :: l < m.issued ==> m.closes[l] == 1) <==> m.orphaned == {}
  {
    forall l: nat
      ensures !Holds(m, l)
    {
    }
    if m.orphaned != {} {
      var l :| l in m.orphaned;
      assert l !in m.closes;
    }
  }

  /** Attach, then the interface vanishes and AttachIface is called again: the link is never closed. */
  lemma FailedResolveLeaks(name: string)
    ensures var ops := [Attach(name, Ingress, true), Unresolved(name, Ingress), Detach(name, Ingress, true)];
            var m := Run(NEW_MANAGER, ops);
            m.issued == 1 && m.closes == multiset{} && m.orphaned == {0}
  {
    var ops := [Attach(name, Ingress, true), Unresolved(name, Ingress), Detach(name, Ingress, true)];
    var m1 := AttachDirection(NEW_MANAGER, name, Ingress, true);
    assert Run(NEW_MANAGER, ops[..1]) == m1 by { assert ops[..1][..0] == []; }
    assert Run(NEW_MANAGER, ops[..2]) == MarkFailed(m1, name, Ingress) by { assert ops[..2][..1] == ops[..1]; }
    assert ops[..3] == ops && ops[..3][..2] == ops[..2];
  }

  // ---------------------------------------------------------------- the object

  datatype AttachResult = AttachResult(name: string, dir: Direction, state: AttachState)

  /** Attaching the available directions, ingress first. */
  function AttachBoth(m: Manager, name: string, ingress: Option<bool>, egress: Option<bool>): Manager {
    var m1 := if ingress.Some? then AttachDirection(m, name, Ingress, ingress.value) else m;
    if egress.Some? then AttachDirection(m1, name, Egress, egress.value) else m1
  }

  /** An available direction ends up attached or failed; on an interface never seen before it is
      attached exactly if the kernel agreed. */
  lemma AttachBothStates(m: Manager, name: string, ingress: Option<bool>, egress: Option<bool>)
    ensures var m' := AttachBoth(m, name, ingress, egress);
            && Decided(m, m', name, Ingress, ingress) && Decided(m, m', name, Egress, egress)
            && (ingress.Some? || egress.Some? ==> m'.ifaces.Keys == m.ifaces.Keys + {name})
  {
    var m1 := if ingress.Some? then AttachDirection(m, name, Ingress, ingress.value) else m;
    assert Slot(m1, name, Egress) == Slot(m, name, Egress);
    assert IsAttached(m, name, Ingress) || IsAttached(m, name, Egress) ==> name in m.ifaces;
  }

  ghost predicate Decided(m: Manager, m': Manager, name: string, d: Direction, answer: Option<bool>) {
    var s := Slot(m', name, d).state;
    && (answer.Some? ==> s == Attached || s == Failed)
    && (name !in m.ifaces ==> (s == Attached <==> answer == Some(true)))
  }

  /** What attaching reports for a direction whose program is available: the state it is in now. */
  function ResultOf(m: Manager, name: string, d: Direction, available: bool): seq<AttachResult> {
    if available then [AttachResult(name, d, Slot(m, name, d).state)] else []
  }

  /** What detaching reports: failed if the held link does not close, else detached. */
  function DetachResult(m: Manager, name: string, d: Direction, closeOk: nat -> bool): AttachResult {
    var s := Slot(m, name, d);
    AttachResult(name, d, if s.state == Attached && s.link.Some? && !closeOk(s.link.value) then Failed else Detached)
  }

  /** What the table says of a direction after detaching it: the reported state without a link if
      it held one, and what it said before otherwise. */
  function AfterDetach(s: DirectionState, result: AttachResult): DirectionState {
    if s.state == Attached && s.link.Some? then DirectionState(result.state, None) else s
  }

  lemma AttachBothInv(m: Manager, name: string, ingress: Option<bool>, egress: Option<bool>)
    requires Inv(m)
    ensures Inv(AttachBoth(m, name, ingress, egress))
    ensures AttachBoth(m, name, ingress, egress).orphaned == m.orphaned
  {
    var m1 := if ingress.Some? then AttachDirection(m, name, Ingress, ingress.value) else m;
    if ingress.Some? {
      AttachInv(m, name, Ingress, ingress.value);
    }
    if egress.Some? {
      AttachInv(m1, name, Egress, egress.value);
    }
  }

  lemma MarkBothFailedInv(m: Manager, name: string)
    requires Inv(m)
    ensures var m' := MarkFailed(MarkFailed(m, name, Ingress), name, Egress);
            Inv(m') && (name !in m.ifaces ==> m'.orphaned == m.orphaned)
  {
    MarkFailedInv(m, name, Ingress);
    MarkFailedInv(MarkFailed(m, name, Ingress), name, Egress);
    assert name !in m.ifaces ==> Slot(MarkFailed(m, name, Ingress), name, Egress) == UNTOUCHED;
  }

  /** Some reported direction failed exactly if an available one is in state failed. */
  lemma ReportedFailures(m: Manager, name: string, ingress: bool, egress: bool)
    ensures var rs := ResultOf(m, name, Ingress, ingress) + ResultOf(m, name, Egress, egress);
            (exists j :: 0 <= j < |rs| && rs[j].state == Failed)
            <==> || (ingress && Slot(m, name, Ingress).state == Failed)
                 || (egress && Slot(m, name, Egress).state == Failed)
  {
    var rs := ResultOf(m, name, Ingress, ingress) + ResultOf(m, name, Egress, egress);
    assert ingress ==> rs[0].state == Slot(m, name, Ingress).state;
    assert egress ==> rs[|rs| - 1].state == Slot(m, name, Egress).state;
  }

  class AttachmentManager {
    var ifaceStates: map<string, IfaceState>
    var issued: nat                  // numbers the links, in place of the kernel's handles
    ghost var closes: multiset<nat>
    ghost var orphaned: set<nat>

    ghost function Abs(): Manager
      reads this
    {
      Manager(ifaceStates, issued, closes, orphaned)
    }

    constructor ()
      ensures Abs() == NEW_MANAGER
    {
      ifaceStates, issued, closes, orphaned := map[], 0, multiset{}, {};
    }

    method GetDirectionState(name: string, d: Direction) returns (s: DirectionState)
      ensures s == Slot(Abs(), name, d)
    {
      s := UNTOUCHED;
      if name in ifaceStates {
        match d
        case Ingress => s := ifaceStates[name].ingress;
        case Egress => s := ifaceStates[name].egress;
      }
    }

    method SetDirectionState(name: string, d: Direction, s: DirectionState)
      modifies this`ifaceStates
      ensures Abs() == SetSlot(old(Abs()), name, d, s)
    {
      if name !in ifaceStates {
        ifaceStates := ifaceStates[name := IfaceState(UNTOUCHED, UNTOUCHED)];
      }
      match d
      case Ingress => ifaceStates := ifaceStates[name := ifaceStates[name].(ingress := s)];
      case Egress => ifaceStates := ifaceStates[name := ifaceStates[name].(egress := s)];
      assert ifaceStates == SetSlot(old(Abs()), name, d, s).ifaces;
    }

    method MarkDirectionFailed(name: string, d: Direction)
      modifies this
      ensures Abs() == MarkFailed(old(Abs()), name, d)
      ensures Slot(Abs(), name, d) == DirectionState(Failed, old(Slot(Abs(), name, d)).link)
    {
      var s := GetDirectionState(name, d);
      if s.state == Attached && s.link.Some? {
        orphaned := orphaned + {s.link.value};
      }
      SetDirectionState(name, d, DirectionState(Failed, s.link));
    }

    method AttachOne(name: string, d: Direction, ok: bool) returns (result: AttachResult)
      modifies this
      ensures Abs() == AttachDirection(old(Abs()), name, d, ok)
      ensures result == AttachResult(name, d, if old(IsAttached(Abs(), name, d)) || ok then Attached else Failed)
      ensures Slot(Abs(), name, d) ==
                if old(IsAttached(Abs(), name, d)) then old(Slot(Abs(), name, d))
                else DirectionState(result.state, if ok then Some(old(issued)) else None)
    {
      var existing := GetDirectionState(name, d);
      if existing.state == Attached {
        return AttachResult(name, d, Attached);
      }
      if !ok {
        SetDirectionState(name, d, DirectionState(Failed, None));
        return AttachResult(name, d, Failed);
      }
      var link := issued;
      issued := issued + 1;
      SetDirectionState(name, d, DirectionState(Attached, Some(link)));
      return AttachResult(name, d, Attached);
    }

    /** `ingress` and `egress` carry the kernel's answer for each program that is available. */
    method AttachIface(name: string, resolves: bool, ingress: Option<bool>, egress: Option<bool>)
      returns (results: seq<AttachResult>)
      modifies this
      ensures !resolves ==> results == [] && Abs() == MarkFailed(MarkFailed(old(Abs()), name, Ingress), name, Egress)
      ensures !resolves ==>
                && Slot(Abs(), name, Ingress) == DirectionState(Failed, old(Slot(Abs(), name, Ingress)).link)
                && Slot(Abs(), name, Egress) == DirectionState(Failed, old(Slot(Abs(), name, Egress)).link)
      ensures resolves ==>
                && Abs() == AttachBoth(old(Abs()), name, ingress, egress)
                && results == ResultOf(Abs(), name, Ingress, ingress.Some?)
                            + ResultOf(Abs(), name, Egress, egress.Some?)
    {
      results := [];
      if !resolves {
        MarkDirectionFailed(name, Ingress);
        MarkDirectionFailed(name, Egress);
        return;
      }
      if ingress.Some? {
        var r := AttachOne(name, Ingress, ingress.value);
        results := results + [r];
      }
      if egress.Some? {
        var r := AttachOne(name, Egress, egress.value);
        results := results + [r];
      }
    }

    method DetachOne(name: string, d: Direction, ok: bool) returns (result: AttachResult)
      modifies this
      ensures Abs() == DetachDirection(old(Abs()), name, d, ok)
      ensures var held := old(IsAttached(Abs(), name, d) && Slot(Abs(), name, d).link.Some?);
              && result == AttachResult(name, d, if held && !ok then Failed else Detached)
              && Slot(Abs(), name, d) == if held then DirectionState(result.state, None) else old(Slot(Abs(), name, d))
    {
      var s := GetDirectionState(name, d);
      if s.state != Attached || s.link.None? {
        return AttachResult(name, d, Detached);
      }
      closes := closes + multiset{s.link.value};
      SetDirectionState(name, d, DirectionState(if ok then Detached else Failed, None));
      return AttachResult(name, d, if ok then Detached else Failed);
    }

    /** Detaches every direction of every interface, in whatever order the map is walked;
        `closeOk` tells which links close without an error. */
    method DetachAll(closeOk: nat -> bool) returns (results: seq<AttachResult>)
      requires Inv(Abs())
      modifies this
      ensures Inv(Abs())
      ensures forall name, d :: !IsAttached(Abs(), name, d)
      ensures issued == old(issued) && orphaned == old(orphaned)
      ensures forall l: nat :: closes[l] == old(closes)[l] + (if old(Holds(Abs(), l)) then 1 else 0)
      ensures ifaceStates.Keys == old(ifaceStates.Keys)
      ensures ResultsFor(results, old(Abs()), old(ifaceStates.Keys), closeOk)
      ensures forall name, d ::
                Slot(Abs(), name, d)
                  == AfterDetach(old(Slot(Abs(), name, d)), DetachResult(old(Abs()), name, d, closeOk))
    {
      results := [];
      var todo := ifaceStates.Keys;
      ghost var before := Abs();
      DetachingStart(before, closeOk);
      while todo != {}
        invariant before == old(Abs())
        invariant Detaching(before, Abs(), todo, results, closeOk)
        decreases todo
      {
        var name :| name in todo;
        DetachingStep(before, Abs(), todo, name, results, closeOk);
        var r1, r2 := DetachIface(name, closeOk);
        results := results + [r1, r2];
        todo := todo - {name};
      }
      DetachingDone(before, Abs(), results, closeOk);
    }

    /** Both directions of one interface. */
    method DetachIface(name: string, closeOk: nat -> bool) returns (r1: AttachResult, r2: AttachResult)
      modifies this
      ensures Abs() == DetachBoth(old(Abs()), name, closeOk)
      ensures r1 == DetachResult(old(Abs()), name, Ingress, closeOk)
      ensures r2 == DetachResult(old(Abs()), name, Egress, closeOk)
      ensures Slot(Abs(), name, Ingress) == AfterDetach(old(Slot(Abs(), name, Ingress)), r1)
      ensures Slot(Abs(), name, Egress) == AfterDetach(old(Slot(Abs(), name, Egress)), r2)
    {
      var s := GetDirectionState(name, Ingress);
      r1 := DetachOne(name, Ingress, s.link.None? || closeOk(s.link.value));
      s := GetDirectionState(name, Egress);
      r2 := DetachOne(name, Egress, s.link.None? || closeOk(s.link.value));
    }
  }

  /** Exactly two results for each of the named interfaces, one per direction. */
  ghost predicate ResultsFor(results: seq<AttachResult>, m: Manager, names: set<string>, closeOk: nat -> bool) {
    && |results| == 2 * |names|
    && (forall j :: 0 <= j < |results| ==>
          results[j].name in names && results[j] == DetachResult(m, results[j].name, results[j].dir, closeOk))
    && (forall name, d :: name in names ==> DetachResult(m, name, d, closeOk) in results)
  }

  lemma MoreResults(results: seq<AttachResult>, m: Manager, names: set<string>, closeOk: nat -> bool, name: string)
    requires ResultsFor(results, m, names, closeOk) && name !in names
    ensures ResultsFor(results + [DetachResult(m, name, Ingress, closeOk), DetachResult(m, name, Egress, closeOk)],
                       m, names + {name}, closeOk)
  {
    var r1, r2 := DetachResult(m, name, Ingress, closeOk), DetachResult(m, name, Egress, closeOk);
    var more := results + [r1, r2];
    assert more[|results|] == r1 && more[|results| + 1] == r2;
    forall n, d | n in names + {name}
      ensures DetachResult(m, n, d, closeOk) in more
    {
      assert n in names ==> DetachResult(m, n, d, closeOk) in results;
      assert d == Ingress || d == Egress;
    }
  }

  /** The manager, and what was reported, after detaching all interfaces of `before` but `todo`. */
  ghost predicate Detaching(before: Manager, m: Manager, todo: set<string>,
                            results: seq<AttachResult>, closeOk: nat -> bool)
  {
    && Inv(m) && DetachedFrom(before, m)
    && todo <= m.ifaces.Keys == before.ifaces.Keys
    && m.issued == before.issued && m.orphaned == before.orphaned
    && (forall name, d :: name !in todo ==> !IsAttached(m, name, d))
    && (forall name, d :: name in todo ==> Slot(m, name, d) == Slot(before, name, d))
    && (forall name, d :: name !in todo ==>
          Slot(m, name, d) == AfterDetach(Slot(before, name, d), DetachResult(before, name, d, closeOk)))
    && ResultsFor(results, before, before.ifaces.Keys - todo, closeOk)
  }

  lemma DetachingStart(m: Manager, closeOk: nat -> bool)
    requires Inv(m)
    ensures Detaching(m, m, m.ifaces.Keys, [], closeOk)
  {
  }

  lemma DetachingStep(before: Manager, m: Manager, todo: set<string>, name: string,
                      results: seq<AttachResult>, closeOk: nat -> bool)
    requires Detaching(before, m, todo, results, closeOk) && name in todo
    ensures var r1, r2 := DetachResult(m, name, Ingress, closeOk), DetachResult(m, name, Egress, closeOk);
            Detaching(before, DetachBoth(m, name, closeOk), todo - {name}, results + [r1, r2], closeOk)
  {
    var m' := DetachBoth(m, name, closeOk);
    DetachBothFacts(m, name, closeOk);
    DetachedFromTransitive(before, m, m');
    forall n, d
      ensures n !in todo - {name} ==> !IsAttached(m', n, d)
      ensures n in todo - {name} ==> Slot(m', n, d) == Slot(before, n, d)
    {
      assert n != name ==> Slot(m', n, d) == Slot(m, n, d);
      assert n !in todo ==> !IsAttached(m, n, d);
    }
    assert forall d :: DetachResult(m, name, d, closeOk) == DetachResult(before, name, d, closeOk);
    DetachBothStores(m, name, closeOk);
    forall n, d | n !in todo - {name}
      ensures Slot(m', n, d) == AfterDetach(Slot(before, n, d), DetachResult(before, n, d, closeOk))
    {
      if n == name {
        assert Slot(m, n, d) == Slot(before, n, d);
      } else {
        assert Slot(m', n, d) == Slot(m, n, d);
      }
    }
    MoreResults(results, before, before.ifaces.Keys - todo, closeOk, name);
    assert before.ifaces.Keys - (todo - {name}) == before.ifaces.Keys - todo + {name};
  }

  lemma DetachingDone(before: Manager, m: Manager, results: seq<AttachResult>, closeOk: nat -> bool)
    requires Detaching(before, m, {}, results, closeOk)
    ensures Inv(m) && m.issued == before.issued && m.orphaned == before.orphaned
    ensures forall name, d :: !IsAttached(m, name, d)
    ensures forall l: nat :: m.closes[l] == before.closes[l] + (if Holds(before, l) then 1 else 0)
    ensures ResultsFor(results, before, before.ifaces.Keys, closeOk)
    ensures m.ifaces.Keys == before.ifaces.Keys
    ensures forall name, d ::
              Slot(m, name, d) == AfterDetach(Slot(before, name, d), DetachResult(before, name, d, closeOk))
  {
    forall l: nat
      ensures !Holds(m, l)
    {
    }
    assert before.ifaces.Keys - {} == before.ifaces.Keys;
  }

  /** Detaching ingress, then egress; `closeOk` tells which links close without an error. */
  function DetachBoth(m: Manager, name: string, closeOk: nat -> bool): Manager {
    var ok1 := var l := Slot(m, name, Ingress).link; l.None? || closeOk(l.value);
    var m1 := DetachDirection(m, name, Ingress, ok1);
    var ok2 := var l := Slot(m1, name, Egress).link; l.None? || closeOk(l.value);
    DetachDirection(m1, name, Egress, ok2)
  }

  /** Detaching both directions stores what is reported. */
  lemma DetachBothStores(m: Manager, name: string, closeOk: nat -> bool)
    ensures var m' := DetachBoth(m, name, closeOk);
            forall d :: Slot(m', name, d) == AfterDetach(Slot(m, name, d), DetachResult(m, name, d, closeOk))
  {
    var ok1 := var l := Slot(m, name, Ingress).link; l.None? || closeOk(l.value);
    var m1 := DetachDirection(m, name, Ingress, ok1);
    var ok2 := var l := Slot(m1, name, Egress).link; l.None? || closeOk(l.value);
    assert Slot(m1, name, Egress) == Slot(m, name, Egress);
    var m' := DetachDirection(m1, name, Egress, ok2);
    assert Slot(m', name, Ingress) == Slot(m1, name, Ingress);
    forall d
      ensures Slot(m', name, d) == AfterDetach(Slot(m, name, d), DetachResult(m, name, d, closeOk))
    {
      assert d == Ingress || d == Egress;
    }
  }

  /** With nothing attached, marking a direction detached attaches nothing and loses no link. */
  lemma DetachedSlotAttachesNothing(m: Manager, name: string, d: Direction)
    requires Inv(m) && forall n, e :: !IsAttached(m, n, e)
    ensures var m' := SetSlot(m, name, d, DirectionState(Detached, None));
            Inv(m') && forall n, e :: !IsAttached(m', n, e)
  {
    var m' := SetSlot(m, name, d, DirectionState(Detached, None));
    OneHolderKept(m, m', name, d);
    forall n, e
      ensures SlotOk(m', n, e)
    {
      assert SlotOk(m, n, e);
    }
    forall n, e
      ensures !IsAttached(m', n, e)
    {
      assert !IsAttached(m, n, e);
      assert n != name || e != d ==> Slot(m', n, e) == Slot(m, n, e);
    }
  }

  /** What detaching within one interface may change. */
  ghost predicate DetachStep(m: Manager, m': Manager, name: string) {
    && Inv(m') && DetachedFrom(m, m')
    && m'.issued == m.issued && m'.orphaned == m.orphaned
    && (name in m.ifaces ==> m'.ifaces.Keys == m.ifaces.Keys)
    && forall n, e :: n != name ==> Slot(m', n, e) == Slot(m, n, e)
  }

  lemma DetachStepTransitive(a: Manager, b: Manager, c: Manager, name: string)
    requires DetachStep(a, b, name) && DetachStep(b, c, name) && name in a.ifaces
    ensures DetachStep(a, c, name)
  {
    DetachedFromTransitive(a, b, c);
    forall n, e | n != name
      ensures Slot(c, n, e) == Slot(a, n, e)
    {
      assert Slot(b, n, e) == Slot(a, n, e);
    }
  }

  lemma DetachOneStep(m: Manager, name: string, d: Direction, ok: bool)
    requires Inv(m)
    ensures DetachStep(m, DetachDirection(m, name, d, ok), name)
  {
    DetachInv(m, name, d, ok);
    DetachTransfers(m, name, d, ok);
  }

  lemma DetachOneDone(m: Manager, name: string, d: Direction, ok: bool)
    requires SlotOk(m, name, d)
    ensures var m' := DetachDirection(m, name, d, ok);
            && !IsAttached(m', name, d)
            && forall e :: e != d ==> Slot(m', name, e) == Slot(m, name, e)
  {
  }

  lemma DetachBothDone(m: Manager, name: string, ok1: bool, ok2: bool)
    requires SlotOk(m, name, Ingress) && SlotOk(DetachDirection(m, name, Ingress, ok1), name, Egress)
    ensures var m' := DetachDirection(DetachDirection(m, name, Ingress, ok1), name, Egress, ok2);
            forall d :: !IsAttached(m', name, d)
  {
    var m1 := DetachDirection(m, name, Ingress, ok1);
    var m2 := DetachDirection(m1, name, Egress, ok2);
    DetachOneDone(m, name, Ingress, ok1);
    DetachOneDone(m1, name, Egress, ok2);
    assert Slot(m2, name, Ingress) == Slot(m1, name, Ingress);
    assert !IsAttached(m2, name, Ingress) && !IsAttached(m2, name, Egress);
  }

  lemma DetachBothFacts(m: Manager, name: string, closeOk: nat -> bool)
    requires Inv(m) && name in m.ifaces
    ensures var m' := DetachBoth(m, name, closeOk);
            DetachStep(m, m', name) && forall d :: !IsAttached(m', name, d)
  {
    var ok1 := var l := Slot(m, name, Ingress).link; l.None? || closeOk(l.value);
    var m1 := DetachDirection(m, name, Ingress, ok1);
    var ok2 := var l := Slot(m1, name, Egress).link; l.None? || closeOk(l.value);
    DetachOneStep(m, name, Ingress, ok1);
    DetachOneStep(m1, name, Egress, ok2);
    DetachStepTransitive(m, m1, DetachDirection(m1, name, Egress, ok2), name);
    DetachBothDone(m, name, ok1, ok2);
  }

  /** Each link is closed as often as before plus once if it was held and is no longer. */
  ghost predicate DetachedFrom(before: Manager, m: Manager) {
    forall l: nat ::
      m.closes[l] + (if Holds(m, l) then 1 else 0) == before.closes[l] + (if Holds(before, l) then 1 else 0)
  }

  lemma DetachedFromTransitive(a: Manager, b: Manager, c: Manager)
    requires DetachedFrom(a, b) && DetachedFrom(b, c)
    ensures DetachedFrom(a, c)
  {
  }

  lemma NoOtherHolder(m: Manager, m': Manager, name: string, d: Direction, l: nat)
    requires OneHolder(m) && Slot(m, name, d).link == Some(l)
    requires forall n, e :: n != name || e != d ==> Slot(m', n, e) == Slot(m, n, e)
    requires Slot(m', name, d).link.None?
    ensures !Holds(m', l)
  {
    forall n, e
      ensures Slot(m', n, e).link != Some(l)
    {
      assert n != name || e != d ==> Slot(m', n, e) == Slot(m, n, e);
    }
  }

  lemma DetachTransfers(m: Manager, name: string, d: Direction, ok: bool)
    requires Inv(m)
    ensures DetachedFrom(m, DetachDirection(m, name, d, ok))
  {
    var m' := DetachDirection(m, name, d, ok);
    assert SlotOk(m, name, d);
    if IsAttached(m, name, d) {
      var link := Slot(m, name, d).link.value;
      assert Holds(m, link);
      forall l: nat
        ensures m'.closes[l] + (if Holds(m', l) then 1 else 0) == m.closes[l] + (if Holds(m, l) then 1 else 0)
      {
        if l == link {
          NoOtherHolder(m, m', name, d, l);
        } else {
          if Holds(m, l) {
            HoldsElsewhere(m, m', name, d, l);
          }
          if Holds(m', l) {
            HoldsElsewhere(m', m, name, d, l);
          }
        }
      }
    }
  }
}
