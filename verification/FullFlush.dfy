/** A whole flush with no handler in flight: what it books, when that is exactly the traffic, and
    what a restart on the same date does to it. */
module FullFlush {
  import opened Calendar
  import opened Conservation
  import opened Counters
  import opened Pipeline
  import opened Store
  import opened Sums
  import Kernel

  const FIELDS: seq<Field> := [Bytes, Packets, IngressBytes, IngressPackets, EgressBytes, EgressPackets]

  function Reads(fs: seq<Field>): seq<Step> {
    if fs == [] then [] else Reads(fs[..|fs| - 1]) + [ReadField(fs[|fs| - 1])]
  }

  /** Fetch a key, read its six fields, commit. */
  function OneKey(tk: Kernel.TrafficKey): seq<Step> {
    [Fetch(tk)] + Reads(FIELDS) + [CommitKey]
  }

  function Walk(order: seq<Kernel.TrafficKey>): seq<Step> {
    if order == [] then [] else Walk(order[..|order| - 1]) + OneKey(order[|order| - 1])
  }

  /** A flush that meets the keys in this order. */
  function FlushOf(order: seq<Kernel.TrafficKey>): seq<Step> {
    [BeginFlush] + Walk(order)
  }

  // ---------------------------------------------------------------- what the walk commits

  lemma {:induction false} ExecConcat(w: World, a: seq<Step>, b: seq<Step>)
    ensures Exec(w, a + b) == Exec(Exec(w, a), b)
  {
    if b == [] {
      assert a + b == a;
    } else {
      assert (a + b)[..|a + b| - 1] == a + b[..|b| - 1];
      ExecConcat(w, a, b[..|b| - 1]);
    }
  }

  lemma ExecOne(w: World, step: Step)
    ensures Exec(w, [step]) == Next(w, step)
  {
    assert [step][..0] == [];
    assert Exec(w, []) == w;
  }

  /** Reading some fields with nothing in between. */
  lemma {:induction false} ReadSome(w: World, fs: seq<Field>)
    requires w.phase.Walking? && w.phase.pending.Some? && w.phase.pending.value.cell < |w.kernel.cells|
    ensures var w', p := Exec(w, Reads(fs)), w.phase.pending.value;
            && w'.phase.Walking? && w'.phase.pending.Some?
            && var p' := w'.phase.pending.value;
            && w' == w.(phase := w.phase.(pending := Some(p')))
            && p'.key == p.key && p'.cell == p.cell
            && p'.missing == p.missing - set f | f in fs
            && forall g :: g in p.missing && g !in p'.missing ==> Get(p'.raw, g) == Get(w.kernel.cells[p.cell].value, g)
  {
    if fs != [] {
      var front, f := fs[..|fs| - 1], fs[|fs| - 1];
      ReadSome(w, front);
      ExecConcat(w, Reads(front), [ReadField(f)]);
      ExecOne(Exec(w, Reads(front)), ReadField(f));
      assert (set g | g in fs) == (set g | g in front) + {f} by {
        assert fs == front + [f];
      }
      var p, live := Exec(w, Reads(front)).phase.pending.value, w.kernel.cells[w.phase.pending.value.cell].value;
      GetFits(live, f);
      forall g
        ensures Get(SetField(p.raw, f, Get(live, f)), g) == if g == f then Get(live, f) else Get(p.raw, g)
      {
        GetSetField(p.raw, f, Get(live, f), g);
      }
    }
  }

  lemma EveryFieldRead(f: Field)
    ensures f in FIELDS
  {
    match f
    case Bytes => assert FIELDS[0] == f;
    case Packets => assert FIELDS[1] == f;
    case IngressBytes => assert FIELDS[2] == f;
    case IngressPackets => assert FIELDS[3] == f;
    case EgressBytes => assert FIELDS[4] == f;
    case EgressPackets => assert FIELDS[5] == f;
  }

  /** Fetching a key and reading its six fields copies its current counter. */
  lemma FetchCopiesCounter(w: World, tk: Kernel.TrafficKey)
    requires w.phase.Walking? && w.phase.pending.None? && HasCounter(w, tk)
    ensures Exec(w, [Fetch(tk)] + Reads(FIELDS))
              == w.(phase := w.phase.(pending := Some(Fetched(tk, w.kernel.table[tk], Counter(w, tk), {}))))
  {
    var w1 := Next(w, Fetch(tk));
    ExecOne(w, Fetch(tk));
    ExecConcat(w, [Fetch(tk)], Reads(FIELDS));
    ReadSome(w1, FIELDS);
    var p := Exec(w1, Reads(FIELDS)).phase.pending.value;
    forall f
      ensures f in ALL_FIELDS && f in FIELDS
    {
      AllFields(f);
      EveryFieldRead(f);
    }
    assert p.missing == {};
    GetEqual(p.raw, Counter(w, tk));
  }

  /** Fetching, reading and committing a key books its current counter in one transaction. */
  lemma OneKeyCommitsCounter(w: World, tk: Kernel.TrafficKey)
    requires w.phase.Walking? && w.phase.pending.None? && HasCounter(w, tk)
    ensures var w' := Exec(w, OneKey(tk));
            && w'.kernel == w.kernel && w'.clobbered == w.clobbered && w'.today == w.today
            && w'.phase == Walking(w.phase.day, w.phase.seen[tk := Counter(w, tk)], None)
            && w'.db == FlushKey(w.db, w.phase.day, Reading(RecordKey(tk), Counter(w, tk)))
  {
    FetchCopiesCounter(w, tk);
    ExecConcat(w, [Fetch(tk)] + Reads(FIELDS), [CommitKey]);
    ExecOne(Exec(w, [Fetch(tk)] + Reads(FIELDS)), CommitKey);
  }

  /** `w'` is `w` after a walk that committed the current counters of the keys in `order`. */
  ghost predicate Walked(w: World, w': World, order: seq<Kernel.TrafficKey>)
    requires forall k :: k in order ==> HasCounter(w, k)
  {
    && w'.kernel == w.kernel && w'.clobbered == w.clobbered
    && w'.phase.Walking? && w'.phase.pending.None?
    && forall k :: k in order ==> k in w'.phase.seen && w'.phase.seen[k] == Counter(w, k)
  }

  lemma WalkedOneMore(w: World, mid: World, w': World, order: seq<Kernel.TrafficKey>, tk: Kernel.TrafficKey)
    requires HasCounter(w, tk) && (forall k :: k in order ==> HasCounter(w, k)) && Walked(w, mid, order)
    requires w'.kernel == mid.kernel && w'.clobbered == mid.clobbered
    requires w'.phase == Walking(mid.phase.day, mid.phase.seen[tk := Counter(w, tk)], None)
    ensures Walked(w, w', order + [tk])
  {
  }

  lemma {:induction false} WalkCommitsCounters(w: World, order: seq<Kernel.TrafficKey>)
    requires w.phase.Walking? && w.phase.pending.None?
    requires forall k :: k in order ==> HasCounter(w, k)
    ensures Walked(w, Exec(w, Walk(order)), order)
  {
    if order != [] {
      var front, tk := order[..|order| - 1], order[|order| - 1];
      assert order == front + [tk];
      assert tk in order;
      WalkCommitsCounters(w, front);
      var mid := Exec(w, Walk(front));
      ExecConcat(w, Walk(front), OneKey(tk));
      OneKeyCommitsCounter(mid, tk);
      WalkedOneMore(w, mid, Exec(mid, OneKey(tk)), front, tk);
    }
  }

  lemma OneDateReads(fs: seq<Field>)
    ensures OneDate(Reads(fs)) && OneLifetime(Reads(fs))
  {
  }

  lemma {:induction false} OneDateWalk(order: seq<Kernel.TrafficKey>)
    ensures OneDate(Walk(order)) && OneLifetime(Walk(order))
  {
    if order != [] {
      OneDateWalk(order[..|order| - 1]);
      OneDateReads(FIELDS);
    }
  }

  // ---------------------------------------------------------------- what the flush books

  /** At rest, a committed counter is all traffic of its key that was not lost. */
  lemma CommittedIsTraffic(w: World, tk: Kernel.TrafficKey, f: Field)
    requires Sound(w, tk, f) && OnDate(w) && Fits(w, tk, f) && Kernel.Quiescent(w.kernel)
    requires HasCounter(w, tk) && w.phase.Walking? && tk in w.phase.seen && w.phase.seen[tk] == Counter(w, tk)
    ensures BookedReading(w, RecordKey(tk), f) + Kernel.Lost(w.kernel, tk, f) == Kernel.Traffic(w.kernel, tk, f)
  {
    var c := w.kernel.table[tk];
    assert Kernel.Accounted(w.kernel, c, f);
    Kernel.AddedWithinTraffic(w.kernel, tk, f);
    Kernel.WordLeq(Kernel.AddedTo(w.kernel, c, f));
    Kernel.CountedOrLost(w.kernel, tk, f);
  }

  /** No handler is in flight, no flush either, and a flush in this order meets the key. */
  ghost predicate Ready(w: World, order: seq<Kernel.TrafficKey>, tk: Kernel.TrafficKey, f: Field) {
    && w.phase.Idle? && Kernel.Quiescent(w.kernel) && Fits(w, tk, f)
    && tk in order && forall k :: k in order ==> k in w.kernel.table
  }

  lemma FlushReaches(w: World, order: seq<Kernel.TrafficKey>, tk: Kernel.TrafficKey, f: Field)
    requires Sound(w, tk, f) && Ready(w, order, tk, f)
    ensures var w' := Exec(w, FlushOf(order));
            && w'.kernel == w.kernel && w'.clobbered == w.clobbered
            && HasCounter(w', tk) && w'.phase.Walking? && tk in w'.phase.seen && w'.phase.seen[tk] == Counter(w', tk)
  {
    assert forall k :: k in w.kernel.table ==> HasCounter(w, k);
    ExecConcat(w, [BeginFlush], Walk(order));
    ExecOne(w, BeginFlush);
    WalkCommitsCounters(Next(w, BeginFlush), order);
  }

  lemma OneDateFlush(steps: seq<Step>, order: seq<Kernel.TrafficKey>)
    ensures OneDate(steps) ==> OneDate(steps + FlushOf(order))
    ensures OneLifetime(steps) ==> OneLifetime(steps + FlushOf(order))
  {
    OneDateWalk(order);
  }

  /** What any run within one date, restarts included, followed by an undisturbed flush has booked
      since `w`: the traffic of the current map that was not lost, less the reading booked at the
      start, plus 2^64 for every reading that fell. */
  lemma FullFlushBooks(w: World, steps: seq<Step>, order: seq<Kernel.TrafficKey>, tk: Kernel.TrafficKey, f: Field)
    requires Sound(w, tk, f) && OnDate(w) && OneDate(steps) && Ready(Exec(w, steps), order, tk, f)
    ensures var all, k := steps + FlushOf(order), RecordKey(tk); var w' := Exec(w, all);
            && w'.kernel == Exec(w, steps).kernel && w'.clobbered == Exec(w, steps).clobbered
            && TodaysRow(w', k, f) + TotalOf(w, k, f) == TodaysRow(w, k, f) + TotalOf(w', k, f)
            && TotalOf(w', k, f) + BookedReading(w, k, f) + Kernel.Lost(w'.kernel, tk, f)
                 == TotalOf(w, k, f) + Kernel.Traffic(w'.kernel, tk, f) + WORD * FallCount(w, all, k, w.today, f)
  {
    var all := steps + FlushOf(order);
    OneDateFlush(steps, order);
    RunSound(w, steps, tk, f);
    FlushReaches(Exec(w, steps), order, tk, f);
    ExecConcat(w, steps, FlushOf(order));
    RunSound(w, all, tk, f);
    OneDateGrowth(w, all, RecordKey(tk), f);
    CommittedIsTraffic(Exec(w, all), tk, f);
  }

  ghost predicate NoneRefused(s: Kernel.State, tk: Kernel.TrafficKey) {
    forall i :: 0 <= i < |s.handlers| && s.handlers[i].pc.Refused? ==>
      s.handlers[i].frame.short || Kernel.KeyOf(s.handlers[i].frame) != tk
  }

  lemma NothingLost(s: Kernel.State, tk: Kernel.TrafficKey, f: Field)
    requires SoleCell(s, tk) && NoneRefused(s, tk)
    ensures Kernel.Lost(s, tk, f) == 0
  {
    forall i | 0 <= i < |s.handlers|
      ensures Kernel.Misses(s, tk, f)(i) == 0
    {
      assert UsesVisible(s, s.handlers[i], tk);
    }
    SumZero(Kernel.Misses(s, tk, f), 0, |s.handlers|);
  }

  /** From any moment at which the booked reading is not ahead of the counter: after any run
      within the date and the map's lifetime, an undisturbed flush has booked exactly the traffic
      of the map that was not lost, beyond what was booked then. If the map refused no packet of
      the key, nothing was lost. */
  lemma FullFlushIsExact(w: World, steps: seq<Step>, order: seq<Kernel.TrafficKey>, tk: Kernel.TrafficKey, f: Field)
    requires Sound(w, tk, f) && OnDate(w) && Chain(w, tk, f) && OneDate(steps) && OneLifetime(steps)
    requires Ready(Exec(w, steps), order, tk, f) && tk !in Exec(w, steps).clobbered
    ensures var w', k := Exec(w, steps + FlushOf(order)), RecordKey(tk);
            && w'.kernel == Exec(w, steps).kernel
            && TotalOf(w', k, f) + BookedReading(w, k, f) + Kernel.Lost(w'.kernel, tk, f)
                 == TotalOf(w, k, f) + Kernel.Traffic(w'.kernel, tk, f)
            && (NoneRefused(w'.kernel, tk) ==> Kernel.Lost(w'.kernel, tk, f) == 0)
  {
    var all := steps + FlushOf(order);
    FullFlushBooks(w, steps, order, tk, f);
    OneDateFlush(steps, order);
    ChainKept(w, all, tk, f);
    RunSound(w, all, tk, f);
    if NoneRefused(Exec(w, all).kernel, tk) {
      NothingLost(Exec(w, all).kernel, tk, f);
    }
  }

  /** In particular on the first date of an empty database, total and daily row of a MAC at an
      interface are then what its frames count, less what was lost. */
  lemma FirstDateIsExact(today: Day, steps: seq<Step>, order: seq<Kernel.TrafficKey>, ifindex: nat, mac: Mac, f: Field)
    requires OneDate(steps) && OneLifetime(steps)
    requires var w, tk := Exec(Init(today), steps), Kernel.TrafficKey(ifindex, mac);
             Ready(w, order, tk, f) && tk !in w.clobbered
    ensures var w, tk := Exec(Init(today), steps + FlushOf(order)), Kernel.TrafficKey(ifindex, mac);
            var arrived := Kernel.TrafficOf(FramesSinceRestart(steps), ifindex, mac, f);
            && At(w.db.totals, Key("", ifindex, mac), f) + Kernel.Lost(w.kernel, tk, f) == arrived
            && At(w.db.daily, RowKey(Key("", ifindex, mac), today), f) + Kernel.Lost(w.kernel, tk, f) == arrived
            && (NoneRefused(w.kernel, tk) ==> Kernel.Lost(w.kernel, tk, f) == 0)
  {
    var tk := Kernel.TrafficKey(ifindex, mac);
    ReachableSound(today, [], tk, f);
    FullFlushIsExact(Init(today), steps, order, tk, f);
    FullFlushBooks(Init(today), steps, order, tk, f);
    TrafficSinceRestart(today, steps, ifindex, mac, f);
    OneDateFlush(steps, order);
    OneDateGrowth(Init(today), steps + FlushOf(order), RecordKey(tk), f);
  }

  // ---------------------------------------------------------------- restarts

  /** A restarted service has an empty map and no flush under way, whatever the tables hold. After
      any run within the date and an undisturbed flush, total and daily row have grown by exactly
      the traffic since the restart that was not lost, if and only if no reading of the date was
      booked in this field before the restart. */
  lemma RestartExactIffNothingBooked(w: World, steps: seq<Step>, order: seq<Kernel.TrafficKey>,
                                     tk: Kernel.TrafficKey, f: Field)
    requires Sound(w, tk, f) && w.kernel == Kernel.BOOT && w.phase.Idle? && OneDate(steps) && OneLifetime(steps)
    requires Ready(Exec(w, steps), order, tk, f) && tk !in Exec(w, steps).clobbered
    ensures var w', k := Exec(w, steps + FlushOf(order)), RecordKey(tk);
            var counted := Kernel.Traffic(w'.kernel, tk, f) - Kernel.Lost(w'.kernel, tk, f);
            && w'.kernel == Exec(w, steps).kernel
            && (TotalOf(w', k, f) == TotalOf(w, k, f) + counted <==> BookedReading(w, k, f) == 0)
            && (TodaysRow(w', k, f) == TodaysRow(w, k, f) + counted <==> BookedReading(w, k, f) == 0)
  {
    var w', k := Exec(w, steps + FlushOf(order)), RecordKey(tk);
    FullFlushBooks(w, steps, order, tk, f);
    if BookedReading(w, k, f) == 0 {
      EmptyMapIsNotBehind(w, tk, f);
      FullFlushIsExact(w, steps, order, tk, f);
    } else {
      NotAWord(BookedReading(w, k, f), FallCount(w, steps + FlushOf(order), k, w.today, f));
    }
  }

  lemma NotAWord(n: nat, falls: nat)
    requires 0 < n < WORD
    ensures n != WORD * falls
  {
  }

  lemma EmptyMapIsNotBehind(w: World, tk: Kernel.TrafficKey, f: Field)
    requires w.kernel == Kernel.BOOT && w.phase.Idle? && BookedReading(w, RecordKey(tk), f) == 0
    ensures Chain(w, tk, f)
  {
  }

  /** The driver refuses a delta that wraps, and the flush fails at that key until its counter has
      overtaken the checkpoint. If every write is accepted in the end, the restart has swallowed
      exactly the reading that was booked before it. */
  lemma RestartSwallowsBookedReading(w: World, steps: seq<Step>, order: seq<Kernel.TrafficKey>,
                                     tk: Kernel.TrafficKey, f: Field)
    requires Sound(w, tk, f) && w.kernel == Kernel.BOOT && w.phase.Idle? && OneDate(steps)
    requires Ready(Exec(w, steps), order, tk, f)
    requires CheckpointAccepted(w.db, RecordKey(tk), f) && AllAccepted(w, steps + FlushOf(order), RecordKey(tk), f)
    ensures var w', k := Exec(w, steps + FlushOf(order)), RecordKey(tk);
            TotalOf(w', k, f) + BookedReading(w, k, f)
              == TotalOf(w, k, f) + Kernel.Traffic(w'.kernel, tk, f) - Kernel.Lost(w'.kernel, tk, f)
  {
    FullFlushBooks(w, steps, order, tk, f);
    AcceptedNeverFalls(w, steps + FlushOf(order), RecordKey(tk), w.today, f);
  }

  /** Restart is possible in every reachable state, and what it leaves satisfies the premises. */
  lemma RestartedIsSound(today: Day, steps: seq<Step>, tk: Kernel.TrafficKey, f: Field)
    ensures var w := Exec(Init(today), steps + [Restart]);
            Sound(w, tk, f) && w.kernel == Kernel.BOOT && w.phase.Idle?
  {
    ReachableSound(today, steps + [Restart], tk, f);
    ExecConcat(Init(today), steps, [Restart]);
    ExecOne(Exec(Init(today), steps), Restart);
  }

  // ---------------------------------------------------------------- an example

  function Arrivals(steps: seq<Kernel.Step>): seq<Step> {
    if steps == [] then [] else Arrivals(steps[..|steps| - 1]) + [Packet(steps[|steps| - 1])]
  }

  lemma {:induction false} ArrivalsRunKernel(w: World, steps: seq<Kernel.Step>)
    ensures var w' := Exec(w, Arrivals(steps));
            && w'.kernel == Kernel.Exec(w.kernel, steps)
            && w'.db == w.db && w'.today == w.today && w'.phase == w.phase
  {
    if steps != [] {
      var n := |steps| - 1;
      ArrivalsRunKernel(w, steps[..n]);
      ExecConcat(w, Arrivals(steps[..n]), [Packet(steps[n])]);
      ExecOne(Exec(w, Arrivals(steps[..n])), Packet(steps[n]));
    }
  }

  lemma AcceptedConcat(w: World, a: seq<Step>, b: seq<Step>, k: Key, f: Field)
    requires AllAccepted(w, a, k, f) && AllAccepted(Exec(w, a), b, k, f)
    ensures AllAccepted(w, a + b, k, f)
  {
    forall i | 0 <= i < |a + b|
      ensures Accepted(Exec(w, (a + b)[..i]), (a + b)[i], k, f)
    {
      if i < |a| {
        assert (a + b)[..i] == a[..i];
      } else {
        assert (a + b)[..i] == a + b[..i - |a|];
        ExecConcat(w, a, b[..i - |a|]);
        assert Accepted(Exec(Exec(w, a), b[..i - |a|]), b[i - |a|], k, f);
      }
    }
  }

  ghost predicate NoCommit(steps: seq<Step>) {
    forall i :: 0 <= i < |steps| ==> !steps[i].CommitKey?
  }

  /** What is accepted in one flush of a single key. */
  lemma OneKeyAccepted(w: World, before: seq<Step>, tk: Kernel.TrafficKey, k: Key, f: Field)
    requires var w1 := Exec(w, before); w1.phase.Walking? && w1.phase.pending.None? && HasCounter(w1, tk)
    requires NoCommit(before) && k == RecordKey(tk)
    requires var w1 := Exec(w, before); var raw := Counter(w1, tk);
             && Get(raw, f) < PARAMETER_LIMIT
             && Get(Delta(w1.db, w1.phase.day, Reading(k, raw)), f) < PARAMETER_LIMIT
    ensures AllAccepted(w, before + OneKey(tk), k, f)
  {
    var w1, read := Exec(w, before), [Fetch(tk)] + Reads(FIELDS);
    ReadsCommitNothing(FIELDS);
    FetchCopiesCounter(w1, tk);
    ExecConcat(w, before, read);
    assert AllAccepted(w, before + read, k, f);
    var w2 := Exec(w, before + read);
    assert Accepted(w2, CommitKey, k, f);
    assert [CommitKey][..0] == [];
    assert Exec(w2, []) == w2;
    AcceptedConcat(w, before + read, [CommitKey], k, f);
    assert before + read + [CommitKey] == before + OneKey(tk);
  }

  lemma {:induction false} ReadsCommitNothing(fs: seq<Field>)
    ensures NoCommit(Reads(fs))
  {
    if fs != [] {
      ReadsCommitNothing(fs[..|fs| - 1]);
    }
  }

  lemma {:induction false} ArrivalsCommitNothing(steps: seq<Kernel.Step>)
    ensures NoCommit(Arrivals(steps))
  {
    if steps != [] {
      ArrivalsCommitNothing(steps[..|steps| - 1]);
    }
  }

  ghost predicate Small(c: Raw) {
    forall f :: Get(c, f) < PARAMETER_LIMIT
  }

  /** One packet on an empty map, then a flush, books that packet; the driver accepts this if the
      reading and the delta are small. */
  lemma PacketThenFlush(w: World, p: Kernel.Frame) returns (steps: seq<Step>, raw: Raw)
    requires w.kernel == Kernel.BOOT && w.phase.Idle? && !p.short && p.len < WORD
    ensures forall f :: Get(raw, f) == Get(Kernel.Added(p, 4), f)
    ensures var w', k := Exec(w, steps), RecordKey(Kernel.KeyOf(p));
            && w'.today == w.today && w'.db == FlushKey(w.db, w.today, Reading(k, raw))
            && (Small(raw) && Small(Delta(w.db, w.today, Reading(k, raw))) ==>
                  forall f :: AllAccepted(w, steps, k, f))
  {
    var tk, k := Kernel.KeyOf(p), RecordKey(Kernel.KeyOf(p));
    var arrival := Kernel.OnePacketCounts(p);
    var w1 := Exec(w, Arrivals(arrival));
    ArrivalsRunKernel(w, arrival);
    raw := Counter(w1, tk);
    var before := Arrivals(arrival) + [BeginFlush];
    steps := before + OneKey(tk);
    ExecConcat(w, Arrivals(arrival), [BeginFlush]);
    ExecOne(w1, BeginFlush);
    ExecConcat(w, before, OneKey(tk));
    OneKeyCommitsCounter(Next(w1, BeginFlush), tk);
    ArrivalsCommitNothing(arrival);
    if Small(raw) && Small(Delta(w.db, w.today, Reading(k, raw))) {
      forall f
        ensures AllAccepted(w, steps, k, f)
      {
        OneKeyAccepted(w, before, tk, k, f);
      }
    }
  }

  /** A packet, a flush, a restart, another packet of the same key, a flush. */
  lemma TwoLives(today: Day, p: Kernel.Frame, q: Kernel.Frame) returns (steps: seq<Step>, raw1: Raw, raw2: Raw)
    requires !p.short && !q.short && Kernel.KeyOf(p) == Kernel.KeyOf(q) && p.len < WORD && q.len < WORD
    ensures forall f :: Get(raw1, f) == Get(Kernel.Added(p, 4), f) && Get(raw2, f) == Get(Kernel.Added(q, 4), f)
    ensures var w, k := Exec(Init(today), steps), RecordKey(Kernel.KeyOf(p));
            && (forall f :: TotalOf(w, k, f) == Get(raw1, f) + Get(Sub64(raw2, raw1), f))
            && (Small(raw1) && Small(raw2) && Small(Sub64(raw2, raw1)) ==>
                  forall f :: AllAccepted(Init(today), steps, k, f))
  {
    var k := RecordKey(Kernel.KeyOf(p));
    var first, second;
    first, raw1 := PacketThenFlush(Init(today), p);
    var w1 := Exec(Init(today), first);
    var w2 := Next(w1, Restart);
    second, raw2 := PacketThenFlush(w2, q);
    steps := first + [Restart] + second;
    ExecConcat(Init(today), first, [Restart]);
    ExecOne(w1, Restart);
    ExecConcat(Init(today), first + [Restart], second);
    assert Delta(w2.db, today, Reading(k, raw2)) == Sub64(raw2, raw1);
    forall f
      ensures TotalOf(Exec(Init(today), steps), k, f) == Get(raw1, f) + Get(Sub64(raw2, raw1), f)
    {
      FlushKeyEffect(EMPTY_DB, today, Reading(k, raw1), f);
      FlushKeyEffect(w2.db, today, Reading(k, raw2), f);
    }
    if Small(raw1) && Small(raw2) && Small(Sub64(raw2, raw1)) {
      forall f
        ensures AllAccepted(Init(today), steps, k, f)
      {
        RestartAccepted(w1, k, f);
        AcceptedConcat(Init(today), first, [Restart], k, f);
        AcceptedConcat(Init(today), first + [Restart], second, k, f);
      }
    }
  }

  lemma RestartAccepted(w: World, k: Key, f: Field)
    ensures AllAccepted(w, [Restart], k, f)
  {
  }

  /** If the second packet is the shorter one, the delta wraps and the total would end 2^64 above
      it; a driver that accepted the first packet refuses that delta. */
  lemma RestartSameDateWraps(today: Day, p: Kernel.Frame, q: Kernel.Frame) returns (steps: seq<Step>)
    requires !p.short && !q.short && Kernel.KeyOf(p) == Kernel.KeyOf(q) && q.len < p.len < WORD
    ensures TotalOf(Exec(Init(today), steps), RecordKey(Kernel.KeyOf(p)), Bytes) == 18446744073709551616 + q.len
    ensures p.len < PARAMETER_LIMIT ==> Word(q.len, p.len) >= PARAMETER_LIMIT
  {
    var raw1, raw2;
    steps, raw1, raw2 := TwoLives(today, p, q);
    assert Get(raw1, Bytes) == p.len && Get(raw2, Bytes) == q.len;
    GetSub(raw2, raw1, Bytes);
  }

  /** If it is not, and goes in the same direction, every write is accepted, and of both packets
      only the second is in the total. */
  lemma RestartSameDateSwallows(today: Day, p: Kernel.Frame, q: Kernel.Frame) returns (steps: seq<Step>)
    requires !p.short && !q.short && Kernel.KeyOf(p) == Kernel.KeyOf(q) && p.direction == q.direction
    requires p.len <= q.len < 9223372036854775808
    ensures var w, k := Exec(Init(today), steps), RecordKey(Kernel.KeyOf(p));
            forall f :: TotalOf(w, k, f) == Get(Kernel.Added(q, 4), f) && AllAccepted(Init(today), steps, k, f)
  {
    var raw1, raw2;
    steps, raw1, raw2 := TwoLives(today, p, q);
    forall f
      ensures Get(raw1, f) <= Get(raw2, f) < PARAMETER_LIMIT
      ensures Get(Sub64(raw2, raw1), f) == Get(raw2, f) - Get(raw1, f)
    {
      assert Get(raw1, f) == Get(Kernel.Added(p, 4), f) && Get(raw2, f) == Get(Kernel.Added(q, 4), f);
      GetSub(raw2, raw1, f);
    }
  }
}
