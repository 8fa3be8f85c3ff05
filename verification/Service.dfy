/** Service start and stop: which interfaces are attached, which failed, and the resulting mode. */
module Service {
  import opened Attachment
  import opened Counters
  import opened Store

  datatype Mode = Healthy | Degraded | ModeFailed

  /** What the environment answers for one configured interface. */
  datatype Env = Env(resolves: bool, ingressOk: bool, egressOk: bool)

  /** The programs found in the loaded object; with neither the service runs in mock mode. */
  datatype Programs = Programs(ingress: bool, egress: bool)

  predicate IsMockMode(p: Programs) {
    !p.ingress && !p.egress
  }

  /** At least one direction of the interface can be attached. */
  predicate SomeUp(p: Programs, e: Env) {
    e.resolves && ((p.ingress && e.ingressOk) || (p.egress && e.egressOk))
  }

  /** The interface does not resolve or an available direction cannot be attached. */
  predicate SomeDown(p: Programs, e: Env) {
    !e.resolves || (p.ingress && !e.ingressOk) || (p.egress && !e.egressOk)
  }

  ghost predicate Distinct(names: seq<string>) {
    forall i, j :: 0 <= i < j < |names| ==> names[i] != names[j]
  }

  ghost predicate Covered(names: seq<string>, n: nat, attached: seq<string>, failed: seq<string>)
    requires n <= |names|
  {
    forall i :: 0 <= i < n ==> names[i] in attached || names[i] in failed
  }

  /** The two lists say of the first `n` interfaces exactly what the environment said. */
  ghost predicate Reports(names: seq<string>, envs: seq<Env>, p: Programs, n: nat,
                          attached: seq<string>, failed: seq<string>)
    requires n <= |names| == |envs|
  {
    && (forall i :: 0 <= i < n ==> (names[i] in attached <==> SomeUp(p, envs[i])))
    && (forall i :: 0 <= i < n ==> (names[i] in failed <==> SomeDown(p, envs[i])))
    && (forall x :: x in attached || x in failed ==> x in names[..n])
  }

  /** Appends the name once if some direction failed. */
  method NoteFailures(results: seq<AttachResult>, name: string, down: seq<string>) returns (down': seq<string>)
    ensures down' == if name !in down && (exists j :: 0 <= j < |results| && results[j].state == Failed)
                     then down + [name] else down
  {
    down' := down;
    for i := 0 to |results|
      invariant down' == if name !in down && (exists j :: 0 <= j < i && results[j].state == Failed)
                         then down + [name] else down
    {
      if results[i].state == Failed && name !in down' {
        down' := down' + [name];
      }
    }
  }

  // ---------------------------------------------------------------- what starting does to the links

  /** What attaching one configured interface does to the manager. */
  function StartOne(m: Manager, name: string, e: Env, p: Programs): Manager {
    if !e.resolves then MarkFailed(MarkFailed(m, name, Ingress), name, Egress)
    else AttachBoth(m, name, if p.ingress then Some(e.ingressOk) else None, if p.egress then Some(e.egressOk) else None)
  }

  predicate IsUp(m: Manager, name: string) {
    IsAttached(m, name, Ingress) || IsAttached(m, name, Egress)
  }

  /** Starting one interface keeps the links in order. It orphans a link exactly if the interface
      is up and does not resolve; otherwise it is up afterwards if it was or can be attached. */
  lemma StartOneFacts(m: Manager, name: string, e: Env, p: Programs)
    requires Inv(m)
    ensures var m' := StartOne(m, name, e, p);
            && Inv(m') && m.orphaned <= m'.orphaned
            && (m'.orphaned != m.orphaned <==> IsUp(m, name) && !e.resolves)
            && (m'.orphaned == m.orphaned ==> (IsUp(m', name) <==> IsUp(m, name) || SomeUp(p, e)))
            && forall x :: x != name ==> IsUp(m', x) == IsUp(m, x)
  {
    assert SlotOk(m, name, Ingress) && SlotOk(m, name, Egress);
    if e.resolves {
      var ingress := if p.ingress then Some(e.ingressOk) else None;
      var egress := if p.egress then Some(e.egressOk) else None;
      AttachBothInv(m, name, ingress, egress);
      AttachBothUp(m, name, ingress, egress);
    } else {
      MarkBothFailedInv(m, name);
      MarkBothOrphans(m, name);
    }
  }

  lemma AttachBothUp(m: Manager, name: string, ingress: Option<bool>, egress: Option<bool>)
    ensures var m' := AttachBoth(m, name, ingress, egress);
            && (IsUp(m', name) <==> IsUp(m, name) || ingress == Some(true) || egress == Some(true))
            && forall x :: x != name ==> IsUp(m', x) == IsUp(m, x)
  {
    var m1 := if ingress.Some? then AttachDirection(m, name, Ingress, ingress.value) else m;
    var m' := AttachBoth(m, name, ingress, egress);
    assert Slot(m1, name, Egress) == Slot(m, name, Egress);
    assert Slot(m', name, Ingress) == Slot(m1, name, Ingress);
    forall x | x != name
      ensures IsUp(m', x) == IsUp(m, x)
    {
      assert Slot(m1, x, Ingress) == Slot(m, x, Ingress) && Slot(m1, x, Egress) == Slot(m, x, Egress);
    }
  }

  lemma MarkBothOrphans(m: Manager, name: string)
    requires SlotOk(m, name, Ingress) && SlotOk(m, name, Egress)
    ensures var m' := MarkFailed(MarkFailed(m, name, Ingress), name, Egress);
            && m.orphaned <= m'.orphaned
            && (m'.orphaned != m.orphaned <==> IsUp(m, name))
            && !IsUp(m', name) && forall x :: x != name ==> IsUp(m', x) == IsUp(m, x)
  {
    var m1 := MarkFailed(m, name, Ingress);
    var m' := MarkFailed(m1, name, Egress);
    assert Slot(m1, name, Egress) == Slot(m, name, Egress);
    assert Slot(m', name, Ingress) == Slot(m1, name, Ingress);
    forall x | x != name
      ensures IsUp(m', x) == IsUp(m, x)
    {
      assert Slot(m1, x, Ingress) == Slot(m, x, Ingress) && Slot(m1, x, Egress) == Slot(m, x, Egress);
    }
  }

  /** One of the first `n` interfaces is `name` and could be attached. */
  ghost predicate CameUp(names: seq<string>, envs: seq<Env>, p: Programs, n: nat, name: string)
    requires n <= |names| == |envs|
  {
    exists i :: 0 <= i < n && names[i] == name && SomeUp(p, envs[i])
  }

  /** An interface is configured again among the first `n` and no longer resolves, after it could
      be attached. */
  ghost predicate Vanishes(names: seq<string>, envs: seq<Env>, p: Programs, n: nat)
    requires n <= |names| == |envs|
  {
    exists j :: 0 <= j < n && !envs[j].resolves && CameUp(names, envs, p, j, names[j])
  }

  /** From `m` to `m'`, links were orphaned exactly if one of the first `n` interfaces vanishes, and
      otherwise exactly those that could be attached are up. */
  ghost predicate AsConfigured(m: Manager, m': Manager, names: seq<string>, envs: seq<Env>, p: Programs, n: nat)
    requires n <= |names| == |envs|
  {
    && Inv(m') && m.orphaned <= m'.orphaned
    && (m'.orphaned != m.orphaned <==> Vanishes(names, envs, p, n))
    && (m'.orphaned == m.orphaned ==> forall x :: IsUp(m', x) <==> CameUp(names, envs, p, n, x))
  }

  lemma AsConfiguredStep(m: Manager, m': Manager, names: seq<string>, envs: seq<Env>, p: Programs, n: nat)
    requires n < |names| == |envs| && AsConfigured(m, m', names, envs, p, n)
    ensures AsConfigured(m, StartOne(m', names[n], envs[n], p), names, envs, p, n + 1)
  {
    StartOneFacts(m', names[n], envs[n], p);
    VanishesStep(names, envs, p, n);
    var m2 := StartOne(m', names[n], envs[n], p);
    if m2.orphaned == m.orphaned {
      assert m'.orphaned == m.orphaned;
      forall x
        ensures IsUp(m2, x) <==> CameUp(names, envs, p, n + 1, x)
      {
        assert IsUp(m', x) <==> CameUp(names, envs, p, n, x);
      }
    }
  }

  lemma NothingConfigured(m: Manager, names: seq<string>, envs: seq<Env>, p: Programs)
    requires |names| == |envs| && Inv(m) && m.ifaces == map[]
    ensures AsConfigured(m, m, names, envs, p, 0)
  {
  }

  lemma VanishesStep(names: seq<string>, envs: seq<Env>, p: Programs, n: nat)
    requires n < |names| == |envs|
    ensures Vanishes(names, envs, p, n + 1)
            <==> Vanishes(names, envs, p, n) || (!envs[n].resolves && CameUp(names, envs, p, n, names[n]))
    ensures forall x :: CameUp(names, envs, p, n + 1, x)
                        <==> CameUp(names, envs, p, n, x) || (x == names[n] && SomeUp(p, envs[n]))
  {
    forall x
      ensures CameUp(names, envs, p, n + 1, x)
              <==> CameUp(names, envs, p, n, x) || (x == names[n] && SomeUp(p, envs[n]))
    {
      if x == names[n] && SomeUp(p, envs[n]) {
        assert 0 <= n < n + 1 && names[n] == x;
      }
    }
  }

  /** For example, an interface listed twice that is gone the second time. */
  lemma VanishingExample(name: string)
    ensures Vanishes([name, name], [Env(true, true, true), Env(false, false, false)], Programs(true, true), 2)
  {
    var names, envs, p := [name, name], [Env(true, true, true), Env(false, false, false)], Programs(true, true);
    assert names[0] == names[1] && SomeUp(p, envs[0]);
    assert CameUp(names, envs, p, 1, names[1]);
    assert !envs[1].resolves;
  }

  lemma DistinctNeverVanish(names: seq<string>, envs: seq<Env>, p: Programs)
    requires |names| == |envs| && Distinct(names)
    ensures !Vanishes(names, envs, p, |names|)
  {
  }

  class Service {
    const manager: AttachmentManager
    var mode: Mode
    var attached: seq<string>
    var failed: seq<string>

    constructor ()
      ensures fresh(manager) && manager.Abs() == NEW_MANAGER && Inv(manager.Abs())
      ensures mode == Healthy && attached == [] && failed == []
    {
      manager := new AttachmentManager();
      mode, attached, failed := Healthy, [], [];
      new;
      NewInv();
    }

    /** One interface: attach it and append it to the lists it belongs to. */
    method StartIface(name: string, env: Env, p: Programs, up: seq<string>, down: seq<string>)
      returns (up': seq<string>, down': seq<string>)
      requires !IsMockMode(p) && Inv(manager.Abs())
      modifies manager
      ensures Inv(manager.Abs()) && manager.Abs() == StartOne(old(manager.Abs()), name, env, p)
      ensures up' == up || up' == up + [name]
      ensures down' == down || down' == down + [name]
      ensures name in up' || name in down'
      ensures old(name !in manager.ifaceStates) && name !in up && name !in down ==>
                (name in up' <==> SomeUp(p, env)) && (name in down' <==> SomeDown(p, env))
      ensures manager.ifaceStates.Keys == old(manager.ifaceStates.Keys) + {name}
    {
      up', down' := up, down;
      var ingress := if p.ingress then Some(env.ingressOk) else None;
      var egress := if p.egress then Some(env.egressOk) else None;
      AttachBothStates(manager.Abs(), name, ingress, egress);
      StartOneFacts(manager.Abs(), name, env, p);
      var results := manager.AttachIface(name, env.resolves, ingress, egress);
      if !env.resolves {
        down' := down' + [name];
        return;
      }
      down' := NoteFailures(results, name, down);
      ReportedFailures(manager.Abs(), name, p.ingress, p.egress);
      var s := manager.GetDirectionState(name, Ingress);
      var e := manager.GetDirectionState(name, Egress);
      if s.state == Attached || e.state == Attached {
        up' := up' + [name];
      }
    }

    /** The loop over the configured interfaces. */
    method StartIfaces(names: seq<string>, envs: seq<Env>, p: Programs) returns (up: seq<string>, down: seq<string>)
      requires |envs| == |names| && !IsMockMode(p)
      requires manager.ifaceStates == map[] && Inv(manager.Abs())
      modifies manager
      ensures AsConfigured(old(manager.Abs()), manager.Abs(), names, envs, p, |names|)
      ensures Covered(names, |names|, up, down)
      ensures Distinct(names) ==> Reports(names, envs, p, |names|, up, down)
    {
      up, down := [], [];
      ghost var before := manager.Abs();
      NothingConfigured(before, names, envs, p);
      for i := 0 to |names|
        invariant before == old(manager.Abs()) && AsConfigured(before, manager.Abs(), names, envs, p, i)
        invariant Covered(names, i, up, down)
        invariant forall x :: x in manager.ifaceStates ==> x in names[..i]
        invariant Distinct(names) ==> Reports(names, envs, p, i, up, down)
      {
        ghost var up0, down0 := up, down;
        AsConfiguredStep(before, manager.Abs(), names, envs, p, i);
        assert names[..i + 1] == names[..i] + [names[i]];
        up, down := StartIface(names[i], envs[i], p, up, down);
        if Distinct(names) {
          ReportsStep(names, envs, p, i, up0, down0, up, down);
        }
      }
    }

    /** Attaches all configured interfaces and computes the mode. */
    method Start(names: seq<string>, envs: seq<Env>, p: Programs, allowPartial: bool) returns (ok: bool)
      requires |envs| == |names|
      requires mode == Healthy && manager.ifaceStates == map[] && Inv(manager.Abs())
      modifies this, manager
      ensures Inv(manager.Abs())
      ensures manager.orphaned != old(manager.orphaned) <==> Vanishes(names, envs, p, |names|)
      ensures IsMockMode(p) ==> ok && mode == Healthy && attached == [] && failed == []
      ensures !IsMockMode(p) ==> Covered(names, |names|, attached, failed)
      ensures ok <==> failed == [] || (allowPartial && attached != [])
      ensures ok ==> (mode == Degraded <==> failed != []) && (mode == Healthy <==> failed == [])
      ensures !ok ==> mode == ModeFailed
      ensures ok && failed == [] && !IsMockMode(p) ==> forall i :: 0 <= i < |names| ==> names[i] in attached
      ensures Distinct(names) && !IsMockMode(p) ==> Reports(names, envs, p, |names|, attached, failed)
    {
      attached, failed := [], [];
      if !IsMockMode(p) {
        attached, failed := StartIfaces(names, envs, p);
      }
      if |attached| == 0 && |failed| > 0 {
        mode := ModeFailed;
        return false;
      }
      if |failed| > 0 {
        if allowPartial {
          mode := Degraded;
        } else {
          mode := ModeFailed;
          return false;
        }
      }
      return true;
    }

    /** Detaches everything; afterwards nothing is attached and every link that was held has been
        closed once more than before. */
    method Stop(names: seq<string>, closeOk: nat -> bool)
      requires Inv(manager.Abs())
      modifies this, manager
      ensures Inv(manager.Abs())
      ensures manager.issued == old(manager.issued) && manager.orphaned == old(manager.orphaned)
      ensures mode == ModeFailed && attached == [] && failed == old(failed)
      ensures forall name, d :: !IsAttached(manager.Abs(), name, d)
      ensures manager.ifaceStates.Keys == old(manager.ifaceStates.Keys)
      ensures forall i, d :: 0 <= i < |names| && names[i] in manager.ifaceStates ==>
                Slot(manager.Abs(), names[i], d) == DirectionState(Detached, None)
      ensures forall name, d :: name !in names ==>
                Slot(manager.Abs(), name, d)
                  == AfterDetach(old(Slot(manager.Abs(), name, d)), DetachResult(old(manager.Abs()), name, d, closeOk))
      ensures forall l: nat ::
                manager.closes[l] == old(manager.closes)[l] + (if old(Holds(manager.Abs(), l)) then 1 else 0)
    {
      var results := manager.DetachAll(closeOk);
      ghost var detached := manager.Abs();
      ghost var closes := manager.closes;
      for i := 0 to |names|
        invariant failed == old(failed) && Cleared(detached, manager.Abs(), names, i)
        invariant manager.closes == closes
      {
        ClearedStep(detached, manager.Abs(), names, i);
        if names[i] in manager.ifaceStates {
          manager.SetDirectionState(names[i], Ingress, DirectionState(Detached, None));
          manager.SetDirectionState(names[i], Egress, DirectionState(Detached, None));
        }
      }
      attached := [];
      mode := ModeFailed;
    }
  }

  /** The table after the first `n` configured interfaces were marked detached. */
  ghost predicate Cleared(before: Manager, m: Manager, names: seq<string>, n: nat)
    requires n <= |names|
  {
    && Inv(m) && m.ifaces.Keys == before.ifaces.Keys
    && m.issued == before.issued && m.orphaned == before.orphaned
    && (forall name, d :: !IsAttached(m, name, d))
    && (forall i, d :: 0 <= i < n && names[i] in m.ifaces ==> Slot(m, names[i], d) == DirectionState(Detached, None))
    && (forall name, d :: name !in names[..n] ==> Slot(m, name, d) == Slot(before, name, d))
  }

  function Clear(m: Manager, name: string): Manager {
    var s := DirectionState(Detached, None);
    if name !in m.ifaces then m else SetSlot(SetSlot(m, name, Ingress, s), name, Egress, s)
  }

  lemma ClearedStep(before: Manager, m: Manager, names: seq<string>, n: nat)
    requires n < |names| && Cleared(before, m, names, n)
    ensures Cleared(before, Clear(m, names[n]), names, n + 1)
  {
    var m', name := Clear(m, names[n]), names[n];
    assert names[..n + 1] == names[..n] + [name];
    if name in m.ifaces {
      var m1 := SetSlot(m, name, Ingress, DirectionState(Detached, None));
      DetachedSlotAttachesNothing(m, name, Ingress);
      DetachedSlotAttachesNothing(m1, name, Egress);
      forall d
        ensures Slot(m', name, d) == DirectionState(Detached, None)
      {
        assert d == Ingress || d == Egress;
      }
      forall x, d | x != name
        ensures Slot(m', x, d) == Slot(m, x, d)
      {
        assert Slot(m1, x, d) == Slot(m, x, d);
      }
    }
  }

  /** The life of a service: every link it got from the kernel is closed exactly once if and only
      if no configured interface vanishes, that is, is listed again and no longer resolves after it
      could be attached. With distinct names none does. */
  method StartThenStop(names: seq<string>, envs: seq<Env>, p: Programs, allowPartial: bool, closeOk: nat -> bool)
    returns (service: Service, started: bool)
    requires |envs| == |names|
    ensures var m := service.manager;
            && (forall name, d :: !IsAttached(m.Abs(), name, d))
            && ((forall l: nat :: l < m.issued ==> m.closes[l] == 1) <==> !Vanishes(names, envs, p, |names|))
            && (Distinct(names) ==> forall l: nat :: l < m.issued ==> m.closes[l] == 1)
  {
    service := new Service();
    started := service.Start(names, envs, p, allowPartial);
    service.Stop(names, closeOk);
    AllClosedIffNoOrphans(service.manager.Abs());
    if Distinct(names) {
      DistinctNeverVanish(names, envs, p);
    }
  }

  lemma ReportsStep(names: seq<string>, envs: seq<Env>, p: Programs, n: nat,
                    up: seq<string>, down: seq<string>, up': seq<string>, down': seq<string>)
    requires n < |names| == |envs| && Distinct(names) && Reports(names, envs, p, n, up, down)
    requires up' == up || up' == up + [names[n]]
    requires down' == down || down' == down + [names[n]]
    requires names[n] !in up && names[n] !in down ==>
               (names[n] in up' <==> SomeUp(p, envs[n])) && (names[n] in down' <==> SomeDown(p, envs[n]))
    ensures Reports(names, envs, p, n + 1, up', down')
  {
    assert names[..n + 1] == names[..n] + [names[n]];
    assert names[n] !in names[..n];
  }
}
