/** Conservation of traffic within one UTC date and one lifetime of the kernel map, from any
    state the pipeline can be in. Everything is stated for one key and one field. */
module Conservation {
  import opened Calendar
  import opened Counters
  import opened Pipeline
  import opened Store
  import opened Sums
  import Kernel

  /** The date does not change. */
  ghost predicate OneDate(steps: seq<Step>) {
    forall i :: 0 <= i < |steps| ==> !steps[i].NextDay?
  }

  /** The service does not restart. */
  ghost predicate OneLifetime(steps: seq<Step>) {
    forall i :: 0 <= i < |steps| ==> !steps[i].Restart?
  }

  /** A walk under way belongs to the current date. */
  ghost predicate OnDate(w: World) {
    w.phase.Walking? ==> w.phase.day == w.today
  }

  /** The reading that today's checkpoint says is booked. */
  function BookedReading(w: World, k: Key, f: Field): (n: nat)
    ensures n < WORD
  {
    GetFits(Base(w.db, k, w.today), f);
    Get(Base(w.db, k, w.today), f)
  }

  function TotalOf(w: World, k: Key, f: Field): nat {
    At(w.db.totals, k, f)
  }

  function TodaysRow(w: World, k: Key, f: Field): nat {
    At(w.db.daily, RowKey(k, w.today), f)
  }

  // ---------------------------------------------------------------- growth within one date

  /** From `w` to `w'`, total and today's row grow alike, by what the booked reading grows plus
      2^64 for each of `falls` falls. */
  ghost predicate GrowsBy(w: World, w': World, k: Key, f: Field, falls: nat) {
    && w'.today == w.today && OnDate(w')
    && TodaysRow(w', k, f) + TotalOf(w, k, f) == TodaysRow(w, k, f) + TotalOf(w', k, f)
    && TotalOf(w', k, f) + BookedReading(w, k, f) == TotalOf(w, k, f) + BookedReading(w', k, f) + WORD * falls
  }

  /** The same of one transaction. */
  lemma TransactionGrows(db: Db, day: Day, r: Reading, k: Key, f: Field)
    ensures var db' := FlushKey(db, day, r); var row := RowKey(k, day);
            var falls := if k == r.key && Get(r.raw, f) < Get(Base(db, k, day), f) then 1 else 0;
            && At(db'.daily, row, f) + At(db.totals, k, f) == At(db.daily, row, f) + At(db'.totals, k, f)
            && At(db'.totals, k, f) + Get(Base(db, k, day), f)
                 == At(db.totals, k, f) + Get(Base(db', k, day), f) + WORD * falls
  {
    FlushKeyEffect(db, day, r, f);
    if k == r.key {
      DeltaIsDifference(db, day, r);
      GetSub(r.raw, Base(db, k, day), f);
    }
  }

  lemma CommitGrows(w: World, k: Key, f: Field)
    requires OnDate(w) && CanCommit(w)
    ensures GrowsBy(w, Pipeline.Commit(w), k, f, if Falls(w, CommitKey, k, w.today, f) then 1 else 0)
  {
    TransactionGrows(w.db, w.today, Reading(RecordKey(w.phase.pending.value.key), w.phase.pending.value.raw), k, f);
  }

  lemma QuietGrows(w: World, step: Step, k: Key, f: Field)
    requires OnDate(w) && !step.NextDay? && !(step.CommitKey? && CanCommit(w))
    ensures GrowsBy(w, Next(w, step), k, f, 0)
  {
    var w' := Next(w, step);
    if step.PruneOld? {
      assert w'.db.checkpoints == w.db.checkpoints && w'.db.totals == w.db.totals;
      assert At(w'.db.daily, RowKey(k, w.today), f) == At(w.db.daily, RowKey(k, w.today), f);
    } else {
      QuietTables(w, step);
    }
  }

  lemma QuietTables(w: World, step: Step)
    requires OnDate(w) && !step.NextDay? && !step.PruneOld? && !(step.CommitKey? && CanCommit(w))
    ensures Next(w, step).db == w.db && Next(w, step).today == w.today && OnDate(Next(w, step))
  {
  }

  lemma StepGrows(w: World, step: Step, k: Key, f: Field)
    requires OnDate(w) && !step.NextDay?
    ensures GrowsBy(w, Next(w, step), k, f, if Falls(w, step, k, w.today, f) then 1 else 0)
  {
    if step.CommitKey? && CanCommit(w) {
      CommitGrows(w, k, f);
    } else {
      QuietGrows(w, step, k, f);
    }
  }

  lemma GrowsTransitive(a: World, b: World, c: World, k: Key, f: Field, m: nat, n: nat)
    requires GrowsBy(a, b, k, f, m) && GrowsBy(b, c, k, f, n)
    ensures GrowsBy(a, c, k, f, m + n)
  {
  }

  /** Within one date, restarts included, total and daily row grow by the same amount: the growth
      of the booked reading, plus 2^64 for every reading that fell. */
  lemma {:induction false} OneDateGrowth(w: World, steps: seq<Step>, k: Key, f: Field)
    requires OnDate(w) && OneDate(steps)
    ensures GrowsBy(w, Exec(w, steps), k, f, FallCount(w, steps, k, w.today, f))
  {
    if steps != [] {
      var n := |steps| - 1;
      var mid := Exec(w, steps[..n]);
      OneDateFront(steps);
      OneDateGrowth(w, steps[..n], k, f);
      StepGrows(mid, steps[n], k, f);
      FallCountStep(w, steps, k, w.today, f);
      GrowsTransitive(w, mid, Exec(w, steps), k, f,
                      FallCount(w, steps[..n], k, w.today, f),
                      if Falls(mid, steps[n], k, w.today, f) then 1 else 0);
    }
  }

  lemma OneDateFront(steps: seq<Step>)
    requires steps != []
    ensures OneDate(steps) ==> OneDate(steps[..|steps| - 1]) && !steps[|steps| - 1].NextDay?
    ensures OneLifetime(steps) ==> OneLifetime(steps[..|steps| - 1]) && !steps[|steps| - 1].Restart?
  {
  }

  // ---------------------------------------------------------------- what every run keeps

  /** The traffic presented for a key fits a 64-bit counter. */
  ghost predicate Fits(w: World, tk: Kernel.TrafficKey, f: Field) {
    Kernel.Traffic(w.kernel, tk, f) < WORD
  }

  ghost predicate HasCounter(w: World, tk: Kernel.TrafficKey) {
    tk in w.kernel.table && w.kernel.table[tk] < |w.kernel.cells|
  }

  ghost function Counter(w: World, tk: Kernel.TrafficKey): Raw
    requires HasCounter(w, tk)
  {
    w.kernel.cells[w.kernel.table[tk]].value
  }

  ghost predicate KernelInv(s: Kernel.State, f: Field) {
    Kernel.WellFormed(s) && forall c: nat :: Kernel.Accounted(s, c, f)
  }

  /** What the walk has seen is what it checkpointed. */
  ghost predicate SeenIsCheckpointed(w: World, tk: Kernel.TrafficKey) {
    w.phase.Walking? && tk in w.phase.seen ==>
      && RecordKey(tk) in w.db.checkpoints
      && w.db.checkpoints[RecordKey(tk)] == Checkpoint(w.phase.day, w.phase.seen[tk])
  }

  /** Every handler of the key that is adding does so in the visible counter. */
  ghost predicate SoleCell(s: Kernel.State, tk: Kernel.TrafficKey) {
    forall i :: 0 <= i < |s.handlers| ==> UsesVisible(s, s.handlers[i], tk)
  }

  ghost predicate UsesVisible(s: Kernel.State, h: Kernel.Handler, tk: Kernel.TrafficKey) {
    h.pc.Adding? && Kernel.KeyOf(h.frame) == tk ==> tk in s.table && h.pc.cell == s.table[tk]
  }

  ghost predicate Sound(w: World, tk: Kernel.TrafficKey, f: Field) {
    KernelInv(w.kernel, f) && SeenIsCheckpointed(w, tk) && (tk !in w.clobbered ==> SoleCell(w.kernel, tk))
  }

  lemma PacketKernelInv(s: Kernel.State, step: Kernel.Step, f: Field)
    requires KernelInv(s, f)
    ensures KernelInv(Kernel.Next(s, step), f)
  {
    Kernel.NextWellFormed(s, step);
    forall c: nat
      ensures Kernel.Accounted(Kernel.Next(s, step), c, f)
    {
      Kernel.NextAccounted(s, step, c, f);
    }
  }

  lemma PacketSoleCell(s: Kernel.State, step: Kernel.Step, tk: Kernel.TrafficKey)
    requires SoleCell(s, tk) && !Kernel.Clobbers(s, step, tk)
    ensures SoleCell(Kernel.Next(s, step), tk)
  {
    var t := Kernel.Next(s, step);
    if tk in s.table {
      Kernel.TableKept(s, step, tk);
    }
    forall i | 0 <= i < |t.handlers|
      ensures UsesVisible(t, t.handlers[i], tk)
    {
      assert i < |s.handlers| ==> UsesVisible(s, s.handlers[i], tk);
      if step.Run? && step.handler < |s.handlers| {
        Kernel.OthersUnmoved(s, step.handler, step.room);
        if i == step.handler {
          RunUsesVisible(s, step.handler, step.room, tk);
        }
      }
    }
  }

  /** A handler that starts adding does so in the counter it has just looked up. */
  lemma RunUsesVisible(s: Kernel.State, h: nat, room: bool, tk: Kernel.TrafficKey)
    requires h < |s.handlers| && UsesVisible(s, s.handlers[h], tk)
    requires !Kernel.Clobbers(s, Kernel.Run(h, room), tk)
    ensures var t := Kernel.RunHandler(s, h, room);
            h < |t.handlers| && UsesVisible(t, t.handlers[h], tk)
  {
  }

  lemma NotClobbered(w: World, s: Kernel.Step, tk: Kernel.TrafficKey)
    requires tk !in Next(w, Packet(s)).clobbered
    ensures tk !in w.clobbered && !Kernel.Clobbers(w.kernel, s, tk)
  {
  }

  lemma NextSound(w: World, step: Step, tk: Kernel.TrafficKey, f: Field)
    requires Sound(w, tk, f)
    ensures Sound(Next(w, step), tk, f)
  {
    if step.Packet? {
      PacketKernelInv(w.kernel, step.step, f);
      if tk !in Next(w, step).clobbered {
        NotClobbered(w, step.step, tk);
        PacketSoleCell(w.kernel, step.step, tk);
      }
    } else if step.Restart? {
      BootKernelInv(f);
    } else {
      SeenStep(w, step, tk);
    }
  }

  lemma BootKernelInv(f: Field)
    ensures KernelInv(Kernel.BOOT, f)
  {
  }

  lemma SeenStep(w: World, step: Step, tk: Kernel.TrafficKey)
    requires SeenIsCheckpointed(w, tk) && !step.Packet? && !step.Restart?
    ensures SeenIsCheckpointed(Next(w, step), tk)
    ensures Next(w, step).kernel == w.kernel && Next(w, step).clobbered == w.clobbered
  {
    if step.CommitKey? && CanCommit(w) {
      assert w.phase.pending.value.key != tk ==> RecordKey(w.phase.pending.value.key) != RecordKey(tk);
    }
  }

  lemma {:induction false} RunSound(w: World, steps: seq<Step>, tk: Kernel.TrafficKey, f: Field)
    requires Sound(w, tk, f)
    ensures Sound(Exec(w, steps), tk, f)
  {
    if steps != [] {
      RunSound(w, steps[..|steps| - 1], tk, f);
      NextSound(Exec(w, steps[..|steps| - 1]), steps[|steps| - 1], tk, f);
    }
  }

  /** Every reachable state is sound, whatever the dates and restarts. */
  lemma ReachableSound(today: Day, steps: seq<Step>, tk: Kernel.TrafficKey, f: Field)
    ensures Sound(Exec(Init(today), steps), tk, f)
  {
    BootKernelInv(f);
    RunSound(Init(today), steps, tk, f);
  }

  /** The frames that arrived at the current map. */
  function FramesSinceRestart(steps: seq<Step>): seq<Kernel.Frame> {
    if steps == [] then []
    else
      var before, last := FramesSinceRestart(steps[..|steps| - 1]), steps[|steps| - 1];
      if last.Restart? then [] else if last.Packet? && last.step.Arrive? then before + [last.step.frame] else before
  }

  lemma {:induction false} HandlersAreArrivals(today: Day, steps: seq<Step>)
    ensures Kernel.HandlerFrames(Exec(Init(today), steps).kernel) == FramesSinceRestart(steps)
  {
    if steps != [] {
      var w, last := Exec(Init(today), steps[..|steps| - 1]), steps[|steps| - 1];
      HandlersAreArrivals(today, steps[..|steps| - 1]);
      if last.Packet? {
        Kernel.FramesStep(w.kernel, last.step);
      } else if !last.Restart? {
        KernelUntouched(w, last);
      }
    }
  }

  lemma KernelUntouched(w: World, step: Step)
    requires !step.Packet? && !step.Restart?
    ensures Next(w, step).kernel == w.kernel
  {
  }

  /** In every run the traffic of a MAC at an interface is what its frames since the restart count. */
  lemma TrafficSinceRestart(today: Day, steps: seq<Step>, ifindex: nat, mac: Mac, f: Field)
    ensures Kernel.Traffic(Exec(Init(today), steps).kernel, Kernel.TrafficKey(ifindex, mac), f)
            == Kernel.TrafficOf(FramesSinceRestart(steps), ifindex, mac, f)
  {
    HandlersAreArrivals(today, steps);
    Kernel.TrafficIsWhatArrived(Exec(Init(today), steps).kernel, ifindex, mac, f);
  }

  // ---------------------------------------------------------------- checkpoint, reading, counter

  ghost predicate IsReading(w: World, tk: Kernel.TrafficKey) {
    w.phase.Walking? && w.phase.pending.Some? && w.phase.pending.value.key == tk
  }

  /** Today's checkpoint, the reading under way and the live counter follow each other. */
  ghost predicate Chain(w: World, tk: Kernel.TrafficKey, f: Field) {
    var booked, live := BookedReading(w, RecordKey(tk), f), Kernel.Visible(w.kernel, tk, f);
    && booked <= live
    && (IsReading(w, tk) ==>
          var p := w.phase.pending.value;
          && HasCounter(w, tk) && p.cell == w.kernel.table[tk]
          && (f !in p.missing ==> booked <= Get(p.raw, f) <= live))
  }

  lemma PacketChain(w: World, s: Kernel.Step, tk: Kernel.TrafficKey, f: Field)
    requires KernelInv(w.kernel, f) && Chain(w, tk, f)
    requires !Kernel.Clobbers(w.kernel, s, tk) && Fits(Next(w, Packet(s)), tk, f)
    ensures Chain(Next(w, Packet(s)), tk, f)
  {
    if tk in w.kernel.table {
      assert Kernel.Accounted(w.kernel, w.kernel.table[tk], f);
      Kernel.TableKept(w.kernel, s, tk);
      Kernel.NextWellFormed(w.kernel, s);
    }
    Kernel.OnlyLateInsertLowers(w.kernel, s, tk, f);
  }

  lemma CommitChain(w: World, tk: Kernel.TrafficKey, f: Field)
    requires OnDate(w) && Chain(w, tk, f) && CanCommit(w)
    ensures Chain(Pipeline.Commit(w), tk, f) && !Falls(w, CommitKey, RecordKey(tk), w.today, f)
  {
    assert w.phase.pending.value.key != tk ==> RecordKey(w.phase.pending.value.key) != RecordKey(tk);
  }

  lemma ReadChain(w: World, g: Field, tk: Kernel.TrafficKey, f: Field)
    requires Chain(w, tk, f)
    ensures Chain(Next(w, ReadField(g)), tk, f)
  {
    if IsReading(w, tk) {
      var p, live := w.phase.pending.value, Counter(w, tk);
      GetFits(live, g);
      GetSetField(p.raw, g, Get(live, g), f);
    }
  }

  lemma OtherChain(w: World, step: Step, tk: Kernel.TrafficKey, f: Field)
    requires Chain(w, tk, f)
    requires step.BeginFlush? || step.Fetch? || step.AbortFlush? || step.EndFlush? || step.PruneOld?
    ensures Chain(Next(w, step), tk, f)
  {
    AllFields(f);
  }

  lemma NextChain(w: World, step: Step, tk: Kernel.TrafficKey, f: Field)
    requires KernelInv(w.kernel, f) && OnDate(w) && Chain(w, tk, f) && !step.NextDay? && !step.Restart?
    requires tk !in Next(w, step).clobbered && Fits(Next(w, step), tk, f)
    ensures Chain(Next(w, step), tk, f) && !Falls(w, step, RecordKey(tk), w.today, f)
  {
    if step.Packet? {
      NotClobbered(w, step.step, tk);
      PacketChain(w, step.step, tk, f);
    } else if step.CommitKey? {
      if CanCommit(w) {
        CommitChain(w, tk, f);
      }
    } else if step.ReadField? {
      ReadChain(w, step.field, tk, f);
    } else {
      OtherChain(w, step, tk, f);
    }
  }

  /** Within one map lifetime, what fits and was not replaced did and was not before. */
  lemma FitsBefore(w: World, step: Step, tk: Kernel.TrafficKey, f: Field)
    requires !step.Restart? && tk !in Next(w, step).clobbered && Fits(Next(w, step), tk, f)
    ensures tk !in w.clobbered && Fits(w, tk, f)
  {
    if step.Packet? {
      NotClobbered(w, step.step, tk);
      Kernel.TrafficGrows(w.kernel, step.step, tk, f);
    }
  }

  /** Within one date and one map lifetime checkpoint, reading and counter never overtake each
      other, although the fields of a reading are copied one by one while handlers keep adding;
      and so no reading falls. */
  lemma {:induction false} ChainKept(w: World, steps: seq<Step>, tk: Kernel.TrafficKey, f: Field)
    requires Sound(w, tk, f) && OnDate(w) && Chain(w, tk, f) && OneDate(steps) && OneLifetime(steps)
    requires var w' := Exec(w, steps); Fits(w', tk, f) && tk !in w'.clobbered
    ensures Chain(Exec(w, steps), tk, f) && FallCount(w, steps, RecordKey(tk), w.today, f) == 0
  {
    if steps != [] {
      var n := |steps| - 1;
      var mid, k := Exec(w, steps[..n]), RecordKey(tk);
      OneDateFront(steps);
      FitsBefore(mid, steps[n], tk, f);
      ChainKept(w, steps[..n], tk, f);
      RunSound(w, steps[..n], tk, f);
      OneDateGrowth(w, steps[..n], k, f);
      NextChain(mid, steps[n], tk, f);
      FallCountStep(w, steps, k, w.today, f);
    }
  }

  // ---------------------------------------------------------------- the laws

  /** A counter never exceeds the traffic presented for its key. */
  lemma CounterWithinTraffic(s: Kernel.State, tk: Kernel.TrafficKey, f: Field)
    requires KernelInv(s, f)
    ensures Kernel.Visible(s, tk, f) <= Kernel.Traffic(s, tk, f)
  {
    if tk in s.table {
      assert Kernel.Accounted(s, s.table[tk], f);
      Kernel.AddedWithinTraffic(s, tk, f);
      Kernel.WordLeq(Kernel.AddedTo(s, s.table[tk], f));
    }
  }

  /** Conservation since any moment of any run: as long as the date lasts and the map lives, the
      total grows exactly as the booked reading, which stays within the live counter and within
      the traffic. */
  lemma ConservationSince(w: World, steps: seq<Step>, tk: Kernel.TrafficKey, f: Field)
    requires Sound(w, tk, f) && OnDate(w) && Chain(w, tk, f) && OneDate(steps) && OneLifetime(steps)
    requires var w' := Exec(w, steps); Fits(w', tk, f) && tk !in w'.clobbered
    ensures var w', k := Exec(w, steps), RecordKey(tk);
            && GrowsBy(w, w', k, f, 0)
            && BookedReading(w', k, f) <= Kernel.Visible(w'.kernel, tk, f) <= Kernel.Traffic(w'.kernel, tk, f)
  {
    OneDateGrowth(w, steps, RecordKey(tk), f);
    ChainKept(w, steps, tk, f);
    RunSound(w, steps, tk, f);
    CounterWithinTraffic(Exec(w, steps).kernel, tk, f);
  }

  /** On the first date of an empty database, total and daily row are equal, and exceed the
      checkpoint by 2^64 for every reading that fell. If the map lives, the counter was not
      replaced and the traffic fits 64 bits, then total, daily row and checkpoint agree and never
      exceed the traffic presented. */
  lemma OneDateConservation(today: Day, steps: seq<Step>, tk: Kernel.TrafficKey, f: Field)
    requires OneDate(steps)
    ensures var w, k := Exec(Init(today), steps), RecordKey(tk);
            && TotalOf(w, k, f) == TodaysRow(w, k, f)
            && TotalOf(w, k, f) == BookedReading(w, k, f) + WORD * FallCount(Init(today), steps, k, today, f)
            && (OneLifetime(steps) && Fits(w, tk, f) && tk !in w.clobbered ==>
                  && TotalOf(w, k, f) == BookedReading(w, k, f)
                  && TotalOf(w, k, f) <= Kernel.Visible(w.kernel, tk, f) <= Kernel.Traffic(w.kernel, tk, f))
  {
    var w := Exec(Init(today), steps);
    ReachableSound(today, [], tk, f);
    OneDateGrowth(Init(today), steps, RecordKey(tk), f);
    if OneLifetime(steps) && Fits(w, tk, f) && tk !in w.clobbered {
      ConservationSince(Init(today), steps, tk, f);
    }
  }

  // ---------------------------------------------------------------- a walk among running handlers

  /** The counter, the reading under way and the reading the walk has committed are all at least
      `floor`, and none is ahead of the counter. */
  ghost predicate Above(w: World, tk: Kernel.TrafficKey, f: Field, floor: nat) {
    var live := Kernel.Visible(w.kernel, tk, f);
    && floor <= live
    && (w.phase.Walking? && tk in w.phase.seen ==> floor <= Get(w.phase.seen[tk], f) <= live)
    && (IsReading(w, tk) ==>
          var p := w.phase.pending.value;
          && HasCounter(w, tk) && p.cell == w.kernel.table[tk]
          && (f !in p.missing ==> floor <= Get(p.raw, f) <= live))
  }

  lemma PacketAbove(w: World, s: Kernel.Step, tk: Kernel.TrafficKey, f: Field, floor: nat)
    requires KernelInv(w.kernel, f) && Above(w, tk, f, floor)
    requires !Kernel.Clobbers(w.kernel, s, tk) && Fits(Next(w, Packet(s)), tk, f)
    ensures Above(Next(w, Packet(s)), tk, f, floor)
  {
    if tk in w.kernel.table {
      assert Kernel.Accounted(w.kernel, w.kernel.table[tk], f);
      Kernel.TableKept(w.kernel, s, tk);
      Kernel.NextWellFormed(w.kernel, s);
    }
    Kernel.OnlyLateInsertLowers(w.kernel, s, tk, f);
  }

  lemma ReadAbove(w: World, g: Field, tk: Kernel.TrafficKey, f: Field, floor: nat)
    requires Above(w, tk, f, floor)
    ensures Above(Next(w, ReadField(g)), tk, f, floor)
  {
    if IsReading(w, tk) {
      var p, live := w.phase.pending.value, Counter(w, tk);
      GetFits(live, g);
      GetSetField(p.raw, g, Get(live, g), f);
    }
  }

  lemma OtherAbove(w: World, step: Step, tk: Kernel.TrafficKey, f: Field, floor: nat)
    requires Above(w, tk, f, floor) && !step.Packet? && !step.ReadField? && !step.Restart?
    ensures Above(Next(w, step), tk, f, floor)
  {
    AllFields(f);
  }

  lemma {:induction false} AboveKept(w: World, steps: seq<Step>, tk: Kernel.TrafficKey, f: Field, floor: nat)
    requires Sound(w, tk, f) && Above(w, tk, f, floor) && OneLifetime(steps)
    requires var w' := Exec(w, steps); Fits(w', tk, f) && tk !in w'.clobbered
    ensures Above(Exec(w, steps), tk, f, floor)
  {
    if steps != [] {
      var n := |steps| - 1;
      var mid := Exec(w, steps[..n]);
      OneDateFront(steps);
      FitsBefore(mid, steps[n], tk, f);
      AboveKept(w, steps[..n], tk, f, floor);
      RunSound(w, steps[..n], tk, f);
      NextAbove(mid, steps[n], tk, f, floor);
    }
  }

  lemma NextAbove(w: World, step: Step, tk: Kernel.TrafficKey, f: Field, floor: nat)
    requires KernelInv(w.kernel, f) && Above(w, tk, f, floor) && !step.Restart?
    requires tk !in Next(w, step).clobbered && Fits(Next(w, step), tk, f)
    ensures Above(Next(w, step), tk, f, floor)
  {
    if step.Packet? {
      NotClobbered(w, step.step, tk);
      PacketAbove(w, step.step, tk, f, floor);
    } else if step.ReadField? {
      ReadAbove(w, step.field, tk, f, floor);
    } else {
      OtherAbove(w, step, tk, f, floor);
    }
  }

  /** What a walk books while handlers keep running: from any moment before it begins, once it has
      committed a key, the key's checkpoint is at least what the counter was then and at most what
      the counter is now. */
  lemma WalkCatchesUp(w: World, steps: seq<Step>, tk: Kernel.TrafficKey, f: Field)
    requires Sound(w, tk, f) && w.phase.Idle? && OneLifetime(steps)
    requires var w' := Exec(w, steps);
             && Fits(w', tk, f) && tk !in w'.clobbered && w'.phase.Walking? && tk in w'.phase.seen
    ensures var w', k := Exec(w, steps), RecordKey(tk);
            && k in w'.db.checkpoints && w'.db.checkpoints[k].day == w'.phase.day
            && Kernel.Visible(w.kernel, tk, f) <= Get(w'.db.checkpoints[k].raw, f) <= Kernel.Visible(w'.kernel, tk, f)
  {
    RunSound(w, steps, tk, f);
    AboveKept(w, steps, tk, f, Kernel.Visible(w.kernel, tk, f));
  }

  /** Within one date the total has then grown to at least what was counted before the walk, and
      to no more than what is counted now, beyond what was booked before. */
  lemma WalkBooksBetween(w: World, steps: seq<Step>, tk: Kernel.TrafficKey, f: Field)
    requires Sound(w, tk, f) && w.phase.Idle? && Chain(w, tk, f) && OneDate(steps) && OneLifetime(steps)
    requires var w' := Exec(w, steps);
             && Fits(w', tk, f) && tk !in w'.clobbered && w'.phase.Walking? && tk in w'.phase.seen
    ensures var w', k := Exec(w, steps), RecordKey(tk);
            TotalOf(w, k, f) + Kernel.Visible(w.kernel, tk, f)
              <= TotalOf(w', k, f) + BookedReading(w, k, f)
              <= TotalOf(w, k, f) + Kernel.Visible(w'.kernel, tk, f)
  {
    WalkCatchesUp(w, steps, tk, f);
    ConservationSince(w, steps, tk, f);
  }

  // ---------------------------------------------------------------- atomic insertion

  /** In every run of handlers, a failed lookup is followed by its insertion before any other
      handler moves, as if lookup and insertion were one step. */
  ghost predicate InsertsAtomically(w: World, steps: seq<Step>) {
    forall i :: 0 <= i < |steps| && steps[i].Packet? ==> Kernel.Prompt(Exec(w, steps[..i]).kernel, steps[i].step)
  }

  lemma AtomicStep(w: World, step: Step)
    requires Kernel.InsertsAreFirst(w.kernel) && w.clobbered == {}
    requires step.Packet? ==> Kernel.Prompt(w.kernel, step.step)
    ensures Kernel.InsertsAreFirst(Next(w, step).kernel) && Next(w, step).clobbered == {}
  {
    if step.Packet? {
      Kernel.PromptInsertsAreFirst(w.kernel, step.step);
    }
  }

  /** Then no counter is ever replaced. */
  lemma {:induction false} AtomicInsertionReplacesNothing(today: Day, steps: seq<Step>)
    requires InsertsAtomically(Init(today), steps)
    ensures Kernel.InsertsAreFirst(Exec(Init(today), steps).kernel)
    ensures Exec(Init(today), steps).clobbered == {}
  {
    if steps != [] {
      var n := |steps| - 1;
      forall i | 0 <= i < n && steps[..n][i].Packet?
        ensures Kernel.Prompt(Exec(Init(today), steps[..n][..i]).kernel, steps[..n][i].step)
      {
        assert steps[..n][..i] == steps[..i] && steps[..n][i] == steps[i];
      }
      AtomicInsertionReplacesNothing(today, steps[..n]);
      AtomicStep(Exec(Init(today), steps[..n]), steps[n]);
    }
  }

  /** And conservation holds for every key whose traffic fits 64 bits. */
  lemma AtomicInsertionConserves(today: Day, steps: seq<Step>, tk: Kernel.TrafficKey, f: Field)
    requires OneDate(steps) && OneLifetime(steps) && InsertsAtomically(Init(today), steps)
    requires Fits(Exec(Init(today), steps), tk, f)
    ensures var w, k := Exec(Init(today), steps), RecordKey(tk);
            && TotalOf(w, k, f) == TodaysRow(w, k, f) == BookedReading(w, k, f)
            && TotalOf(w, k, f) <= Kernel.Visible(w.kernel, tk, f) <= Kernel.Traffic(w.kernel, tk, f)
  {
    AtomicInsertionReplacesNothing(today, steps);
    OneDateConservation(today, steps, tk, f);
  }
}
