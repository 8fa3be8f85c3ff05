/** The accounting pipeline as one state machine: packet handlers, the flush walk with its
    per-key transactions, housekeeping, the date, and restarts with a fresh kernel map.

A run is any sequence of step labels; a label whose step is not possible leaves the state as it
is, so every sequence is a run. Flushes do not overlap (module `Shutdown`), so a single walk
position suffices. Three components are history, read by no step: rows ever pruned, the last
reading committed per key and day, and keys whose live counter was replaced by a late insertion.
 */
module Pipeline {
  import opened Calendar
  import opened Counters
  import opened Store
  import opened Sums
  import Kernel

  /** A reading under way: the copy of a counter is not atomic, its fields are read one by one
      while handlers keep adding. `missing` are the fields not yet read. */
  datatype Fetched = Fetched(key: Kernel.TrafficKey, cell: nat, raw: Raw, missing: set<Field>)

  datatype Phase =
    | Idle
    | Walking(day: Day, seen: map<Kernel.TrafficKey, Raw>, pending: Option<Fetched>)

  datatype World = World(
    kernel: Kernel.State, db: Db, today: Day, phase: Phase,
    pruned: map<RowKey, Counters>, last: map<RowKey, Raw>,
    clobbered: set<Kernel.TrafficKey>)

  datatype Step =
    | Packet(step: Kernel.Step)
    | BeginFlush
    | Fetch(key: Kernel.TrafficKey)
    | ReadField(field: Field)
    | CommitKey
    | AbortFlush
    | EndFlush
    | PruneOld
    | NextDay(days: nat)
    | Restart

  function Init(today: Day): World {
    World(Kernel.BOOT, EMPTY_DB, today, Idle, map[], map[], {})
  }

  /** The interface name is not part of the kernel key and is stored empty. */
  function RecordKey(k: Kernel.TrafficKey): Key {
    Key("", k.ifindex, k.mac)
  }

  /** History of pruning: rows older than the cutoff are added to what was pruned before. */
  function Archive(pruned: map<RowKey, Counters>, daily: map<RowKey, Counters>, cutoff: Day): map<RowKey, Counters> {
    map rk | rk in pruned.Keys + daily.Keys && (rk in pruned || rk.day < cutoff) ::
      if rk in daily && rk.day < cutoff
      then (if rk in pruned then Plus(pruned[rk], daily[rk]) else daily[rk])
      else pruned[rk]
  }

  function Commit(w: World): World
    requires w.phase.Walking? && w.phase.pending.Some?
  {
    var tk, raw := w.phase.pending.value.key, w.phase.pending.value.raw;
    var k, day := RecordKey(tk), w.phase.day;
    w.(db := FlushKey(w.db, day, Reading(k, raw)),
       last := w.last[RowKey(k, day) := raw],
       phase := Walking(day, w.phase.seen[tk := raw], None))
  }

  function Read(s: Kernel.State, p: Fetched, f: Field): Fetched
    requires p.cell < |s.cells|
  {
    GetFits(s.cells[p.cell].value, f);
    if f in p.missing
    then p.(raw := SetField(p.raw, f, Get(s.cells[p.cell].value, f)), missing := p.missing - {f})
    else p
  }

  /** A complete reading is waiting. */
  predicate CanCommit(w: World) {
    w.phase.Walking? && w.phase.pending.Some? && w.phase.pending.value.missing == {}
  }

  function Next(w: World, step: Step): World {
    match step
    case Packet(s) =>
      w.(kernel := Kernel.Next(w.kernel, s),
         clobbered := w.clobbered + set k | k in w.kernel.table.Keys && Kernel.Clobbers(w.kernel, s, k))
    case BeginFlush =>
      if w.phase.Idle? then w.(phase := Walking(w.today, map[], None)) else w
    case Fetch(k) =>
      if w.phase.Walking? && w.phase.pending.None?
         && k in w.kernel.table && w.kernel.table[k] < |w.kernel.cells|
      then w.(phase := w.phase.(pending := Some(Fetched(k, w.kernel.table[k], ZERO, ALL_FIELDS))))
      else w
    case ReadField(f) =>
      if w.phase.Walking? && w.phase.pending.Some? && w.phase.pending.value.cell < |w.kernel.cells|
      then w.(phase := w.phase.(pending := Some(Read(w.kernel, w.phase.pending.value, f))))
      else w
    case CommitKey =>
      if CanCommit(w) then Commit(w) else w
    case AbortFlush => w.(phase := Idle)
    case EndFlush =>
      if w.phase.Walking? && w.phase.pending.None? then w.(phase := Idle) else w
    case PruneOld =>
      if RETENTION <= w.today then
        var cutoff := w.today - RETENTION;
        w.(db := Prune(w.db, cutoff), pruned := Archive(w.pruned, w.db.daily, cutoff))
      else w
    case NextDay(days) =>
      if w.today + days < DAYS then w.(today := w.today + days) else w
    case Restart =>
      w.(kernel := Kernel.BOOT, phase := Idle, clobbered := {})
  }

  function Exec(w: World, steps: seq<Step>): World {
    if steps == [] then w else Next(Exec(w, steps[..|steps| - 1]), steps[|steps| - 1])
  }

  // ---------------------------------------------------------------- what was booked per day

  /** Live and pruned rows of one key, by day. */
  function Booked(w: World, k: Key, f: Field): nat -> nat {
    (d: nat) => if d < DAYS then At(w.db.daily, RowKey(k, d), f) + At(w.pruned, RowKey(k, d), f) else 0
  }

  /** The last readings of one key, by day. */
  function LastReadings(w: World, k: Key, f: Field): nat -> nat {
    (d: nat) => if d < DAYS then LastAt(w, k, d, f) else 0
  }

  function LastAt(w: World, k: Key, d: Day, f: Field): (n: nat)
    ensures n < WORD
  {
    if RowKey(k, d) in w.last then Word64(w.last[RowKey(k, d)], f) else 0
  }

  function Word64(c: Raw, f: Field): (n: nat)
    ensures n < WORD && n == Get(c, f)
  {
    Get(c, f)
  }

  /** All-time total equals the live daily rows plus everything ever pruned. */
  ghost predicate Ledger(w: World, k: Key, f: Field) {
    At(w.db.totals, k, f) == SumOver(Booked(w, k, f), 0, DAYS)
  }

  /** Modulo 2^64 a day's bookings are the day's last reading. */
  ghost predicate BucketAt(w: World, k: Key, d: Day, f: Field) {
    Booked(w, k, f)(d) % WORD == LastAt(w, k, d, f)
  }

  ghost predicate Buckets(w: World, k: Key, f: Field) {
    forall d: Day :: BucketAt(w, k, d, f)
  }

  /** Dates never run backwards, no row is later than the key's checkpoint, and the checkpoint
      is the last reading of its day. */
  ghost predicate Ordered(w: World, k: Key) {
    && (w.phase.Walking? ==> w.phase.day <= w.today)
    && (k in w.db.checkpoints ==>
          && w.db.checkpoints[k].day <= (if w.phase.Walking? then w.phase.day else w.today)
          && RowKey(k, w.db.checkpoints[k].day) in w.last
          && w.last[RowKey(k, w.db.checkpoints[k].day)] == w.db.checkpoints[k].raw)
    && (forall d: Day :: RowKey(k, d) in w.db.daily || RowKey(k, d) in w.pruned || RowKey(k, d) in w.last ==>
          k in w.db.checkpoints && d <= w.db.checkpoints[k].day)
  }

  ghost predicate Inv(w: World, k: Key, f: Field) {
    Ordered(w, k) && Ledger(w, k, f) && Buckets(w, k, f)
  }

  lemma InitInv(today: Day, k: Key, f: Field)
    ensures Inv(Init(today), k, f)
  {
    SumZero(Booked(Init(today), k, f), 0, DAYS);
  }

  /** Steps that change neither the bookings of a key nor its last readings. */
  lemma SameBookings(w: World, w': World, k: Key, f: Field)
    requires Ledger(w, k, f) && Buckets(w, k, f)
    requires At(w'.db.totals, k, f) == At(w.db.totals, k, f)
    requires w'.last == w.last
    requires forall d: Day :: Booked(w', k, f)(d) == Booked(w, k, f)(d)
    ensures Ledger(w', k, f) && Buckets(w', k, f)
  {
    SumEq(Booked(w', k, f), Booked(w, k, f), 0, DAYS);
    forall d: Day
      ensures BucketAt(w', k, d, f)
    {
      assert BucketAt(w, k, d, f);
    }
  }

  lemma ArchiveMoves(pruned: map<RowKey, Counters>, daily: map<RowKey, Counters>, cutoff: Day, rk: RowKey, f: Field)
    ensures var daily' := map x | x in daily && cutoff <= x.day :: daily[x];
            At(daily', rk, f) + At(Archive(pruned, daily, cutoff), rk, f) == At(daily, rk, f) + At(pruned, rk, f)
  {
    if rk in daily && rk in pruned {
      GetPlus(pruned[rk], daily[rk], f);
    }
  }

  lemma PruneBookings(w: World, k: Key, d: Day, f: Field)
    ensures Booked(Next(w, PruneOld), k, f)(d) == Booked(w, k, f)(d)
  {
    if RETENTION <= w.today {
      ArchiveMoves(w.pruned, w.db.daily, w.today - RETENTION, RowKey(k, d), f);
    }
  }

  lemma PruneInv(w: World, k: Key, f: Field)
    requires Inv(w, k, f)
    ensures Inv(Next(w, PruneOld), k, f)
  {
    forall d: Day
      ensures Booked(Next(w, PruneOld), k, f)(d) == Booked(w, k, f)(d)
    {
      PruneBookings(w, k, d, f);
    }
    SameBookings(w, Next(w, PruneOld), k, f);
  }

  // ---------------------------------------------------------------- the commit step

  /** How a commit changes one key's bookings, day by day. */
  lemma CommitBookings(w: World, k: Key, f: Field)
    requires w.phase.Walking? && w.phase.pending.Some?
    ensures var w' := Commit(w); var day := w.phase.day;
            var r := Reading(RecordKey(w.phase.pending.value.key), w.phase.pending.value.raw);
            var delta := if k == r.key then Get(Delta(w.db, day, r), f) else 0;
            && At(w'.db.totals, k, f) == At(w.db.totals, k, f) + delta
            && Booked(w', k, f)(day) == Booked(w, k, f)(day) + delta
            && (forall d: Day :: d != day ==> Booked(w', k, f)(d) == Booked(w, k, f)(d))
  {
    var r := Reading(RecordKey(w.phase.pending.value.key), w.phase.pending.value.raw);
    FlushKeyEffect(w.db, w.phase.day, r, f);
  }

  lemma CommitLedger(w: World, k: Key, f: Field)
    requires w.phase.Walking? && w.phase.pending.Some? && Ledger(w, k, f)
    ensures Ledger(Commit(w), k, f)
  {
    var w' := Commit(w);
    CommitBookings(w, k, f);
    SumUpdate(Booked(w', k, f), Booked(w, k, f), w.phase.day, 0, DAYS);
  }

  lemma CommitOrdered(w: World, k: Key)
    requires w.phase.Walking? && w.phase.pending.Some? && Ordered(w, k)
    ensures Ordered(Commit(w), k)
  {
  }

  /** Before a commit, what is booked for the key today is what the delta is taken against. */
  lemma BaseIsBooked(w: World, k: Key, f: Field)
    requires w.phase.Walking? && Ordered(w, k) && Buckets(w, k, f)
    ensures Booked(w, k, f)(w.phase.day) % WORD == Get(Base(w.db, k, w.phase.day), f)
  {
    var day := w.phase.day;
    assert BucketAt(w, k, day, f);
    assert LastAt(w, k, day, f) == Get(Base(w.db, k, day), f) by {
      if k in w.db.checkpoints && w.db.checkpoints[k].day == day {
        assert RowKey(k, day) in w.last;
      } else {
        assert RowKey(k, day) !in w.last;
      }
    }
  }

  lemma CommitBuckets(w: World, k: Key, f: Field)
    requires w.phase.Walking? && w.phase.pending.Some? && Ordered(w, k) && Buckets(w, k, f)
    ensures Buckets(Commit(w), k, f)
  {
    CommitBookings(w, k, f);
    forall d: Day
      ensures BucketAt(Commit(w), k, d, f)
    {
      if d == w.phase.day && k == RecordKey(w.phase.pending.value.key) {
        CommitBucketToday(w, f);
      } else {
        assert BucketAt(w, k, d, f);
        assert LastAt(Commit(w), k, d, f) == LastAt(w, k, d, f);
      }
    }
  }

  lemma CommitBucketToday(w: World, f: Field)
    requires w.phase.Walking? && w.phase.pending.Some?
    requires var k := RecordKey(w.phase.pending.value.key); Ordered(w, k) && Buckets(w, k, f)
    ensures BucketAt(Commit(w), RecordKey(w.phase.pending.value.key), w.phase.day, f)
  {
    var w', day := Commit(w), w.phase.day;
    var r := Reading(RecordKey(w.phase.pending.value.key), w.phase.pending.value.raw);
    var base := Base(w.db, r.key, day);
    CommitBookings(w, r.key, f);
    BaseIsBooked(w, r.key, f);
    DeltaIsDifference(w.db, day, r);
    GetSub(r.raw, base, f);
    WordCongruent(Booked(w, r.key, f)(day), Get(r.raw, f), Get(base, f));
    assert LastAt(w', r.key, day, f) == Get(r.raw, f);
  }

  /** All other steps leave the tables alone. */
  lemma QuietInv(w: World, step: Step, k: Key, f: Field)
    requires Inv(w, k, f) && !step.CommitKey? && !step.PruneOld?
    ensures Inv(Next(w, step), k, f)
  {
    var w' := Next(w, step);
    assert w'.db == w.db && w'.pruned == w.pruned && w'.last == w.last;
    SameBookings(w, w', k, f);
    QuietOrdered(w, step, k);
  }

  lemma QuietOrdered(w: World, step: Step, k: Key)
    requires Ordered(w, k) && !step.CommitKey?
    ensures Ordered(Next(w, step), k)
  {
  }

  lemma NextInv(w: World, step: Step, k: Key, f: Field)
    requires Inv(w, k, f)
    ensures Inv(Next(w, step), k, f)
  {
    if !step.CommitKey? && !step.PruneOld? {
      QuietInv(w, step, k, f);
    } else if step.PruneOld? {
      PruneInv(w, k, f);
    } else if CanCommit(w) {
      CommitOrdered(w, k);
      CommitLedger(w, k, f);
      CommitBuckets(w, k, f);
    }
  }

  lemma {:induction false} ReachableInv(today: Day, steps: seq<Step>, k: Key, f: Field)
    ensures Inv(Exec(Init(today), steps), k, f)
  {
    if steps == [] {
      InitInv(today, k, f);
    } else {
      ReachableInv(today, steps[..|steps| - 1], k, f);
      NextInv(Exec(Init(today), steps[..|steps| - 1]), steps[|steps| - 1], k, f);
    }
  }

  // ---------------------------------------------------------------- laws of every run

  /** Conservation between the tables: in every reachable state, through crashes, restarts and
      wrapped deltas, the all-time total is the live rows plus all rows ever pruned. */
  lemma TotalIsLivePlusPruned(today: Day, steps: seq<Step>, k: Key, f: Field)
    ensures var w := Exec(Init(today), steps);
            At(w.db.totals, k, f) == SumOver(Booked(w, k, f), 0, DAYS)
  {
    ReachableInv(today, steps, k, f);
  }

  // ---------------------------------------------------------------- readings that fall

  /** The step commits, for key `k` and day `d`, a reading that is below the checkpoint of the
      same day in field `f`. */
  predicate Falls(w: World, step: Step, k: Key, d: Day, f: Field) {
    && step.CommitKey? && CanCommit(w)
    && RecordKey(w.phase.pending.value.key) == k && w.phase.day == d
    && Get(w.phase.pending.value.raw, f) < Get(Base(w.db, k, d), f)
  }

  /** Whether the i-th step of a run that starts in `w` does so, as a number. */
  function FallAt(w: World, steps: seq<Step>, k: Key, d: Day, f: Field): nat -> nat {
    (i: nat) => if i < |steps| && Falls(Exec(w, steps[..i]), steps[i], k, d, f) then 1 else 0
  }

  /** How often the run does so. */
  function FallCount(w: World, steps: seq<Step>, k: Key, d: Day, f: Field): nat {
    SumOver(FallAt(w, steps, k, d, f), 0, |steps|)
  }

  /** The same for every day. */
  function FallsByDay(w: World, steps: seq<Step>, k: Key, f: Field): nat -> nat {
    (d: nat) => if d < DAYS then FallCount(w, steps, k, d, f) else 0
  }

  ghost predicate NeverFalls(w: World, steps: seq<Step>, k: Key, d: Day, f: Field) {
    forall i :: 0 <= i < |steps| ==> !Falls(Exec(w, steps[..i]), steps[i], k, d, f)
  }

  lemma NeverFallsIsCountZero(w: World, steps: seq<Step>, k: Key, d: Day, f: Field)
    ensures NeverFalls(w, steps, k, d, f) <==> FallCount(w, steps, k, d, f) == 0
  {
    var fell := FallAt(w, steps, k, d, f);
    SumIsZero(fell, 0, |steps|);
    forall i | 0 <= i < |steps|
      ensures fell(i) == 0 <==> !Falls(Exec(w, steps[..i]), steps[i], k, d, f)
    {
    }
  }

  lemma FallCountStep(w: World, steps: seq<Step>, k: Key, d: Day, f: Field)
    requires steps != []
    ensures var n := |steps| - 1;
            FallCount(w, steps, k, d, f)
              == FallCount(w, steps[..n], k, d, f) + (if Falls(Exec(w, steps[..n]), steps[n], k, d, f) then 1 else 0)
  {
    var n := |steps| - 1;
    forall i | 0 <= i < n
      ensures FallAt(w, steps, k, d, f)(i) == FallAt(w, steps[..n], k, d, f)(i)
    {
      assert steps[..n][..i] == steps[..i] && steps[..n][i] == steps[i];
    }
    SumEq(FallAt(w, steps, k, d, f), FallAt(w, steps[..n], k, d, f), 0, n);
  }

  /** A day's bookings go round 2^64 once more exactly in the steps that commit a lower reading. */
  lemma BookingsCarry(w: World, step: Step, k: Key, d: Day, f: Field)
    requires Inv(w, k, f)
    ensures Booked(Next(w, step), k, f)(d) / WORD
            == Booked(w, k, f)(d) / WORD + (if Falls(w, step, k, d, f) then 1 else 0)
  {
    if step.PruneOld? {
      PruneBookings(w, k, d, f);
    } else if step.CommitKey? && CanCommit(w) {
      CommitCarries(w, k, d, f);
    } else {
      assert Next(w, step).db == w.db && Next(w, step).pruned == w.pruned;
    }
  }

  lemma CommitCarries(w: World, k: Key, d: Day, f: Field)
    requires CanCommit(w) && Ordered(w, k) && Buckets(w, k, f)
    ensures Booked(Commit(w), k, f)(d) / WORD
            == Booked(w, k, f)(d) / WORD + (if Falls(w, CommitKey, k, d, f) then 1 else 0)
  {
    CommitBookings(w, k, f);
    var r := Reading(RecordKey(w.phase.pending.value.key), w.phase.pending.value.raw);
    if k == r.key && d == w.phase.day {
      BaseIsBooked(w, k, f);
      DeltaIsDifference(w.db, d, r);
      GetSub(r.raw, Base(w.db, k, d), f);
      WordCarry(Booked(w, k, f)(d), Get(r.raw, f), Get(Base(w.db, k, d), f));
    }
  }

  lemma {:induction false} BookingsCarryPerFall(w: World, steps: seq<Step>, k: Key, d: Day, f: Field)
    requires Inv(w, k, f)
    ensures Inv(Exec(w, steps), k, f)
    ensures Booked(Exec(w, steps), k, f)(d) / WORD == Booked(w, k, f)(d) / WORD + FallCount(w, steps, k, d, f)
  {
    if steps != [] {
      var front, last := steps[..|steps| - 1], steps[|steps| - 1];
      BookingsCarryPerFall(w, front, k, d, f);
      NextInv(Exec(w, front), last, k, f);
      BookingsCarry(Exec(w, front), last, k, d, f);
      FallCountStep(w, steps, k, d, f);
    }
  }

  /** What is booked for a key on a day, live or pruned, is the day's last reading plus 2^64 for
      every commit of that day that found the reading below the checkpoint. It is the reading
      itself if and only if that never happened, in this field and on this day. */
  lemma BookedIsLastReadingPlusFalls(today: Day, steps: seq<Step>, k: Key, d: Day, f: Field)
    ensures var w := Exec(Init(today), steps);
            && Booked(w, k, f)(d) == LastAt(w, k, d, f) + WORD * FallCount(Init(today), steps, k, d, f)
            && (Booked(w, k, f)(d) == LastAt(w, k, d, f) <==> NeverFalls(Init(today), steps, k, d, f))
  {
    InitInv(today, k, f);
    NothingBooked(today, k, d, f);
    BookedSince(Init(today), steps, k, d, f);
    NeverFallsIsCountZero(Init(today), steps, k, d, f);
  }

  lemma BookedInWords(w: World, k: Key, d: Day, f: Field)
    requires Buckets(w, k, f)
    ensures Booked(w, k, f)(d) == LastAt(w, k, d, f) + WORD * (Booked(w, k, f)(d) / WORD)
  {
    assert BucketAt(w, k, d, f);
  }

  /** The same from any state that keeps the invariant. */
  lemma BookedSince(w: World, steps: seq<Step>, k: Key, d: Day, f: Field)
    requires Inv(w, k, f)
    ensures var w' := Exec(w, steps);
            Booked(w', k, f)(d)
              == LastAt(w', k, d, f) + WORD * (Booked(w, k, f)(d) / WORD + FallCount(w, steps, k, d, f))
  {
    BookingsCarryPerFall(w, steps, k, d, f);
    BookedInWords(Exec(w, steps), k, d, f);
  }

  lemma NothingBooked(today: Day, k: Key, d: Day, f: Field)
    ensures Booked(Init(today), k, f)(d) / WORD == 0
  {
  }

  /** The total is the sum over days of that day's last reading, plus 2^64 for every fall. The
      bucket of the checkpoint's day holds the checkpoint's reading, likewise. */
  lemma TotalIsSumOfLastReadings(today: Day, steps: seq<Step>, k: Key, f: Field)
    ensures var w, falls := Exec(Init(today), steps), FallsByDay(Init(today), steps, k, f);
            && At(w.db.totals, k, f) == SumOver(LastReadings(w, k, f), 0, DAYS) + WORD * SumOver(falls, 0, DAYS)
            && (k in w.db.checkpoints ==>
                  var cp := w.db.checkpoints[k];
                  Booked(w, k, f)(cp.day) == Get(cp.raw, f) + WORD * falls(cp.day))
  {
    var w, falls := Exec(Init(today), steps), FallsByDay(Init(today), steps, k, f);
    ReachableInv(today, steps, k, f);
    forall d: Day
      ensures Booked(w, k, f)(d) == LastAt(w, k, d, f) + WORD * falls(d)
    {
      BookedIsLastReadingPlusFalls(today, steps, k, d, f);
    }
    SumByDay(w, k, f, falls);
  }

  /** The total is the sum of the last readings if and only if no reading of the field ever fell
      within a day. */
  lemma TotalExactIffNeverFell(today: Day, steps: seq<Step>, k: Key, f: Field)
    ensures var w := Exec(Init(today), steps);
            At(w.db.totals, k, f) == SumOver(LastReadings(w, k, f), 0, DAYS)
            <==> forall d: Day :: NeverFalls(Init(today), steps, k, d, f)
  {
    TotalIsSumOfLastReadings(today, steps, k, f);
    NeverFallsOnAnyDay(Init(today), steps, k, f);
  }

  lemma NeverFallsOnAnyDay(w: World, steps: seq<Step>, k: Key, f: Field)
    ensures (forall d: Day :: NeverFalls(w, steps, k, d, f)) <==> SumOver(FallsByDay(w, steps, k, f), 0, DAYS) == 0
  {
    var falls := FallsByDay(w, steps, k, f);
    forall d: Day
      ensures NeverFalls(w, steps, k, d, f) <==> falls(d) == 0
    {
      NeverFallsIsCountZero(w, steps, k, d, f);
    }
    SumIsZero(falls, 0, DAYS);
  }

  lemma SumByDay(w: World, k: Key, f: Field, falls: nat -> nat)
    requires Ledger(w, k, f) && Ordered(w, k)
    requires forall d: Day :: Booked(w, k, f)(d) == LastAt(w, k, d, f) + WORD * falls(d)
    ensures At(w.db.totals, k, f) == SumOver(LastReadings(w, k, f), 0, DAYS) + WORD * SumOver(falls, 0, DAYS)
    ensures k in w.db.checkpoints ==>
              var cp := w.db.checkpoints[k];
              Booked(w, k, f)(cp.day) == Get(cp.raw, f) + WORD * falls(cp.day)
  {
    SumScaled(LastReadings(w, k, f), falls, Booked(w, k, f), WORD, 0, DAYS);
  }

  /** Across dates the same raw bytes are booked again: the total exceeds the newest reading by
      the last readings of all earlier days, and by 2^64 for every fall. */
  lemma EarlierDaysAreCountedAgain(today: Day, steps: seq<Step>, k: Key, f: Field)
    ensures var w := Exec(Init(today), steps);
            k in w.db.checkpoints ==>
              At(w.db.totals, k, f)
                == Get(w.db.checkpoints[k].raw, f) + SumOver(LastReadings(w, k, f), 0, w.db.checkpoints[k].day)
                 + WORD * SumOver(FallsByDay(Init(today), steps, k, f), 0, DAYS)
  {
    var w := Exec(Init(today), steps);
    ReachableInv(today, steps, k, f);
    TotalIsSumOfLastReadings(today, steps, k, f);
    if k in w.db.checkpoints {
      NoReadingsAfter(w, k, f);
    }
  }

  lemma NoReadingsAfter(w: World, k: Key, f: Field)
    requires Ordered(w, k) && k in w.db.checkpoints
    ensures var day := w.db.checkpoints[k].day;
            SumOver(LastReadings(w, k, f), 0, DAYS)
              == SumOver(LastReadings(w, k, f), 0, day) + LastAt(w, k, day, f)
  {
    SumEndsAt(LastReadings(w, k, f), w.db.checkpoints[k].day, DAYS);
  }

  /** After a commit the day's bucket equals the reading if and only if it equalled the booked
      reading before and the reading did not fall. */
  lemma CommitExactIffNotFallen(w: World, f: Field)
    requires w.phase.Walking? && w.phase.pending.Some?
    requires var k := RecordKey(w.phase.pending.value.key); Ordered(w, k) && Buckets(w, k, f)
    ensures var p, day := w.phase.pending.value, w.phase.day; var k := RecordKey(p.key);
            Booked(Commit(w), k, f)(day) == Get(p.raw, f)
            <==> Booked(w, k, f)(day) == Get(Base(w.db, k, day), f) <= Get(p.raw, f)
  {
    var p := w.phase.pending.value;
    var k := RecordKey(p.key);
    CommitBookings(w, k, f);
    BaseIsBooked(w, k, f);
    DeltaIsDifference(w.db, w.phase.day, Reading(k, p.raw));
    GetSub(p.raw, Base(w.db, k, w.phase.day), f);
  }

  // ---------------------------------------------------------------- refused parameters

  /** The database driver refuses unsigned parameters from here on. */
  const PARAMETER_LIMIT: nat := 0x8000_0000_0000_0000

  /** Neither the reading nor the delta that the step writes for `k` is refused. */
  predicate Accepted(w: World, step: Step, k: Key, f: Field) {
    step.CommitKey? && CanCommit(w) && RecordKey(w.phase.pending.value.key) == k ==>
      && Get(w.phase.pending.value.raw, f) < PARAMETER_LIMIT
      && Get(Delta(w.db, w.phase.day, Reading(k, w.phase.pending.value.raw)), f) < PARAMETER_LIMIT
  }

  ghost predicate AllAccepted(w: World, steps: seq<Step>, k: Key, f: Field) {
    forall i :: 0 <= i < |steps| ==> Accepted(Exec(w, steps[..i]), steps[i], k, f)
  }

  ghost predicate CheckpointAccepted(db: Db, k: Key, f: Field) {
    k in db.checkpoints ==> Get(db.checkpoints[k].raw, f) < PARAMETER_LIMIT
  }

  /** A delta that wraps below an accepted checkpoint is itself refused: the flush fails there. */
  lemma FallIsRefused(w: World, step: Step, k: Key, d: Day, f: Field)
    requires CheckpointAccepted(w.db, k, f) && Falls(w, step, k, d, f)
    ensures !Accepted(w, step, k, f)
    ensures Get(Delta(w.db, d, Reading(k, w.phase.pending.value.raw)), f) >= 9223372036854775808
  {
    var r := Reading(k, w.phase.pending.value.raw);
    DeltaIsDifference(w.db, d, r);
    GetSub(r.raw, Base(w.db, k, d), f);
  }

  lemma {:induction false} AcceptedNeverFalls(w: World, steps: seq<Step>, k: Key, d: Day, f: Field)
    requires CheckpointAccepted(w.db, k, f) && AllAccepted(w, steps, k, f)
    ensures CheckpointAccepted(Exec(w, steps).db, k, f)
    ensures FallCount(w, steps, k, d, f) == 0
  {
    if steps != [] {
      var n := |steps| - 1;
      assert forall i :: 0 <= i < n ==> steps[..n][..i] == steps[..i] && steps[..n][i] == steps[i];
      AcceptedNeverFalls(w, steps[..n], k, d, f);
      FallCountStep(w, steps, k, d, f);
      AcceptedStep(Exec(w, steps[..n]), steps[n], k, d, f);
    }
  }

  lemma AcceptedStep(w: World, step: Step, k: Key, d: Day, f: Field)
    requires CheckpointAccepted(w.db, k, f) && Accepted(w, step, k, f)
    ensures CheckpointAccepted(Next(w, step).db, k, f) && !Falls(w, step, k, d, f)
  {
    if Falls(w, step, k, d, f) {
      FallIsRefused(w, step, k, d, f);
    }
  }

  /** In a run whose every write the driver accepts, restarts and replaced counters included, no
      delta wraps: each day's bookings are the day's last reading and the total is their sum. */
  lemma AcceptedRunsAreExact(today: Day, steps: seq<Step>, k: Key, d: Day, f: Field)
    requires AllAccepted(Init(today), steps, k, f)
    ensures var w := Exec(Init(today), steps);
            && Booked(w, k, f)(d) == LastAt(w, k, d, f)
            && At(w.db.totals, k, f) == SumOver(LastReadings(w, k, f), 0, DAYS)
  {
    forall e: Day
      ensures FallCount(Init(today), steps, k, e, f) == 0
      ensures NeverFalls(Init(today), steps, k, e, f)
    {
      AcceptedNeverFalls(Init(today), steps, k, e, f);
      NeverFallsIsCountZero(Init(today), steps, k, e, f);
    }
    BookedIsLastReadingPlusFalls(today, steps, k, d, f);
    TotalExactIffNeverFell(today, steps, k, f);
  }

  /** Rows of days before a key's checkpoint never change again, except by deletion. */
  lemma {:induction false} EarlierRowsFrozen(w: World, steps: seq<Step>, k: Key, d: Day)
    requires Ordered(w, k) && k in w.db.checkpoints && d < w.db.checkpoints[k].day
    ensures var w' := Exec(w, steps);
            && Ordered(w', k) && k in w'.db.checkpoints && d < w'.db.checkpoints[k].day
            && (RowKey(k, d) in w'.db.daily ==>
                  RowKey(k, d) in w.db.daily && w'.db.daily[RowKey(k, d)] == w.db.daily[RowKey(k, d)])
  {
    if steps != [] {
      EarlierRowsFrozen(w, steps[..|steps| - 1], k, d);
      FrozenStep(Exec(w, steps[..|steps| - 1]), steps[|steps| - 1], k, d);
    }
  }

  lemma FrozenStep(w: World, step: Step, k: Key, d: Day)
    requires Ordered(w, k) && k in w.db.checkpoints && d < w.db.checkpoints[k].day
    ensures var w' := Next(w, step);
            && Ordered(w', k) && k in w'.db.checkpoints && d < w'.db.checkpoints[k].day
            && (RowKey(k, d) in w'.db.daily ==>
                  RowKey(k, d) in w.db.daily && w'.db.daily[RowKey(k, d)] == w.db.daily[RowKey(k, d)])
  {
    if !step.CommitKey? {
      QuietOrdered(w, step, k);
    } else if CanCommit(w) {
      CommitOrdered(w, k);
    }
  }

  /** No run deletes a row that is at most 400 days old at its end. */
  lemma {:induction false} RecentRowsStay(w: World, steps: seq<Step>, rk: RowKey)
    requires rk in w.db.daily && Exec(w, steps).today <= rk.day as nat + 400
    ensures rk in Exec(w, steps).db.daily
  {
    if steps != [] {
      var n := |steps| - 1;
      RecentRowStays(Exec(w, steps[..n]), steps[n], rk);
      RecentRowsStay(w, steps[..n], rk);
    }
  }

  lemma RecentRowStays(w: World, step: Step, rk: RowKey)
    ensures w.today <= Next(w, step).today
    ensures rk in w.db.daily && w.today <= rk.day as nat + 400 ==> rk in Next(w, step).db.daily
  {
  }

  /** A prune keeps exactly those rows. */
  lemma OldRowsGo(w: World, rk: RowKey)
    requires 400 <= w.today
    ensures rk in Next(w, PruneOld).db.daily <==> rk in w.db.daily && w.today <= rk.day as nat + 400
  {
  }

  /** Flushing stores the interface name empty, so no table ever holds a row that a query with
      an interface filter could match. */
  ghost predicate Unnamed(db: Db) {
    && (forall k :: k in db.totals ==> k.iface == "")
    && (forall rk :: rk in db.daily ==> rk.key.iface == "")
  }

  lemma {:induction false} InterfaceNamesStayEmpty(today: Day, steps: seq<Step>)
    ensures Unnamed(Exec(Init(today), steps).db)
  {
    if steps != [] {
      InterfaceNamesStayEmpty(today, steps[..|steps| - 1]);
      NamesStayEmpty(Exec(Init(today), steps[..|steps| - 1]), steps[|steps| - 1]);
    }
  }

  /** Every daily row belongs to a key that has a total. */
  lemma {:induction false} RowsHaveTotals(today: Day, steps: seq<Step>)
    ensures var db := Exec(Init(today), steps).db; forall rk :: rk in db.daily ==> rk.key in db.totals
  {
    if steps != [] {
      RowsHaveTotals(today, steps[..|steps| - 1]);
      TotalsStay(Exec(Init(today), steps[..|steps| - 1]), steps[|steps| - 1]);
    }
  }

  lemma TotalsStay(w: World, step: Step)
    requires forall rk :: rk in w.db.daily ==> rk.key in w.db.totals
    ensures var db := Next(w, step).db; forall rk :: rk in db.daily ==> rk.key in db.totals
  {
  }

  lemma NamesStayEmpty(w: World, step: Step)
    requires Unnamed(w.db)
    ensures Unnamed(Next(w, step).db)
  {
  }
}
