/** The three tables, keyed by their primary keys, and the per-key flush transaction. */
module Store {
  import opened Calendar
  import opened Counters

  datatype Option<+T> = None | Some(value: T)

  type Mac = m: seq<nat> | |m| == 6 && forall i :: 0 <= i < 6 ==> m[i] < 256
    witness [0, 0, 0, 0, 0, 0]

  datatype Key = Key(iface: string, ifindex: nat, mac: Mac)

  datatype RowKey = RowKey(key: Key, day: Day)

  datatype Checkpoint = Checkpoint(day: Day, raw: Raw)

  /** `collector_checkpoints`, `mac_traffic_totals` and `mac_traffic_daily`. */
  datatype Db = Db(
    checkpoints: map<Key, Checkpoint>,
    totals: map<Key, Counters>,
    daily: map<RowKey, Counters>)

  const EMPTY_DB := Db(map[], map[], map[])

  /** Days for which daily rows are kept. */
  const RETENTION: nat := 400

  /** What one step of the map walk reports for one key. */
  datatype Reading = Reading(key: Key, raw: Raw)

  /** An absent row counts as zero. */
  function At<K>(m: map<K, Counters>, k: K, f: Field): nat {
    if k in m then Get(m[k], f) else 0
  }

  /** `INSERT ... ON CONFLICT DO UPDATE SET x = x + excluded.x`. */
  function Accumulate<K>(m: map<K, Counters>, k: K, delta: Counters): map<K, Counters> {
    m[k := if k in m then Plus(m[k], delta) else delta]
  }

  /** The part of a reading on `day` that the checkpoint says is already booked. */
  function Base(db: Db, k: Key, day: Day): Raw {
    if k in db.checkpoints && db.checkpoints[k].day == day then db.checkpoints[k].raw else ZERO
  }

  /** Same day: difference to the checkpoint. New day or no checkpoint: the raw values. */
  function Delta(db: Db, day: Day, r: Reading): Raw {
    if r.key in db.checkpoints && db.checkpoints[r.key].day == day
    then Sub64(r.raw, db.checkpoints[r.key].raw)
    else r.raw
  }

  /** A delta of zero writes no row at all. */
  function Book<K>(m: map<K, Counters>, k: K, delta: Counters): map<K, Counters> {
    if IsZero(delta) then m else Accumulate(m, k, delta)
  }

  /** What is written for one key: the checkpoint, and unless the delta is zero also the total
      and the daily bucket. */
  function Persist(db: Db, day: Day, r: Reading, delta: Counters): Db {
    Db(db.checkpoints[r.key := Checkpoint(day, r.raw)],
       Book(db.totals, r.key, delta),
       Book(db.daily, RowKey(r.key, day), delta))
  }

  /** One key's share of a flush. */
  function FlushKey(db: Db, day: Day, r: Reading): Db {
    Persist(db, day, r, Delta(db, day, r))
  }

  /** The per-key transactions of one or several flushes on one day, in order. */
  function Flushes(db: Db, day: Day, rs: seq<Reading>): Db {
    if rs == [] then db
    else FlushKey(Flushes(db, day, rs[..|rs| - 1]), day, rs[|rs| - 1])
  }

  /** `DELETE FROM mac_traffic_daily WHERE date_utc < cutoff`, with the cutoff as a day. */
  function Prune(db: Db, cutoff: Day): Db {
    db.(daily := map rk | rk in db.daily && cutoff <= rk.day :: db.daily[rk])
  }

  /** `date_utc < cutoff`, comparing text. */
  predicate IsBefore(rk: RowKey, cutoff: string) {
    Lex.Less(Text(rk.day), cutoff)
  }

  /** The same deletion as the database performs it, comparing text. */
  function PruneText(db: Db, cutoff: string): Db {
    db.(daily := map rk | rk in db.daily && !IsBefore(rk, cutoff) :: db.daily[rk])
  }

  lemma PruneTextIsPrune(db: Db, cutoff: Day)
    ensures PruneText(db, Text(cutoff)) == Prune(db, cutoff)
  {
    forall rk | rk in db.daily
      ensures !IsBefore(rk, Text(cutoff)) <==> cutoff <= rk.day
    {
      TextOrder(rk.day, cutoff);
    }
  }

  lemma DeltaIsDifference(db: Db, day: Day, r: Reading)
    ensures Delta(db, day, r) == Sub64(r.raw, Base(db, r.key, day))
  {
  }

  lemma PersistTwiceBooks(db: Db, day: Day, k: Key, first: Raw, second: Raw, d1: Counters, d2: Counters)
    ensures Persist(Persist(db, day, Reading(k, first), d1), day, Reading(k, second), d2)
              == Db(db.checkpoints[k := Checkpoint(day, second)],
                    Book(Book(db.totals, k, d1), k, d2),
                    Book(Book(db.daily, RowKey(k, day), d1), RowKey(k, day), d2))
  {
  }

  lemma PersistTwice(db: Db, day: Day, k: Key, first: Raw, second: Raw, d1: Counters, d2: Counters)
    ensures Persist(Persist(db, day, Reading(k, first), d1), day, Reading(k, second), d2)
              == Persist(db, day, Reading(k, second), Plus(d1, d2))
  {
    PersistTwiceBooks(db, day, k, first, second, d1, d2);
    BookTwice(db.totals, k, d1, d2);
    BookTwice(db.daily, RowKey(k, day), d1, d2);
  }

  /** What one transaction does to the three tables, field by field. */
  lemma FlushKeyEffect(db: Db, day: Day, r: Reading, f: Field)
    ensures var db' := FlushKey(db, day, r); var d := Get(Delta(db, day, r), f);
            && db'.checkpoints == db.checkpoints[r.key := Checkpoint(day, r.raw)]
            && At(db'.totals, r.key, f) == At(db.totals, r.key, f) + d
            && At(db'.daily, RowKey(r.key, day), f) == At(db.daily, RowKey(r.key, day), f) + d
            && (forall k :: k != r.key ==> At(db'.totals, k, f) == At(db.totals, k, f))
            && (forall rk :: rk != RowKey(r.key, day) ==> At(db'.daily, rk, f) == At(db.daily, rk, f))
  {
    var delta := Delta(db, day, r);
    AccumulateAt(db.totals, r.key, delta, f);
    AccumulateAt(db.daily, RowKey(r.key, day), delta, f);
  }

  lemma AccumulateAt<K>(m: map<K, Counters>, k: K, delta: Counters, f: Field)
    ensures At(Accumulate(m, k, delta), k, f) == At(m, k, f) + Get(delta, f)
    ensures IsZero(delta) ==> Get(delta, f) == 0
  {
    if k in m {
      GetPlus(m[k], delta, f);
    }
  }

  /** Nothing is booked exactly when the reading equals what is already booked. In particular a
      reading below the checkpoint is booked, as a wrapped difference, and not dropped. */
  lemma SkippedIffUnchanged(db: Db, day: Day, r: Reading)
    ensures IsZero(Delta(db, day, r)) <==> r.raw == Base(db, r.key, day)
  {
    var base := Base(db, r.key, day);
    DeltaIsDifference(db, day, r);
    if IsZero(Sub64(r.raw, base)) {
      forall f
        ensures Get(r.raw, f) == Get(base, f)
      {
        GetSub(r.raw, base, f);
        assert Get(Sub64(r.raw, base), f) < 1;
      }
      GetEqual(r.raw, base);
    }
  }

  /** The checkpoint is read before the transaction. Two flushes that both read it before either
      commits book the difference twice; this is harmless only if there is nothing to book. */
  lemma OverlappingFlushesBookTwice(db: Db, day: Day, r: Reading)
    ensures Persist(FlushKey(db, day, r), day, r, Delta(db, day, r)) == FlushKey(db, day, r)
            <==> IsZero(Delta(db, day, r))
    ensures forall f :: At(Persist(FlushKey(db, day, r), day, r, Delta(db, day, r)).totals, r.key, f)
                        == At(db.totals, r.key, f) + 2 * Get(Delta(db, day, r), f)
  {
    var d := Delta(db, day, r);
    var once, twice := FlushKey(db, day, r), Persist(FlushKey(db, day, r), day, r, d);
    forall f
      ensures At(twice.totals, r.key, f) == At(db.totals, r.key, f) + 2 * Get(d, f)
      ensures At(once.totals, r.key, f) == At(db.totals, r.key, f) + Get(d, f)
    {
      AccumulateAt(db.totals, r.key, d, f);
      AccumulateAt(once.totals, r.key, d, f);
    }
    if IsZero(d) {
      assert twice.checkpoints == once.checkpoints;
    } else {
      var f := NonzeroField(d);
      assert At(twice.totals, r.key, f) != At(once.totals, r.key, f);
    }
  }

  // ---------------------------------------------------------------- one key at a time

  /** Two databases hold the same rows for `k`. */
  ghost predicate AgreesOn(a: Db, b: Db, k: Key) {
    && (k in a.checkpoints <==> k in b.checkpoints)
    && (k in a.checkpoints ==> a.checkpoints[k] == b.checkpoints[k])
    && (k in a.totals <==> k in b.totals)
    && (k in a.totals ==> a.totals[k] == b.totals[k])
    && (forall d: Day :: RowKey(k, d) in a.daily <==> RowKey(k, d) in b.daily)
    && (forall d: Day :: RowKey(k, d) in a.daily ==> a.daily[RowKey(k, d)] == b.daily[RowKey(k, d)])
  }

  lemma AgreesEverywhere(a: Db, b: Db)
    requires forall k :: AgreesOn(a, b, k)
    ensures a == b
  {
    assert a.checkpoints == b.checkpoints by {
      forall k | k in a.checkpoints.Keys + b.checkpoints.Keys
        ensures k in a.checkpoints && k in b.checkpoints && a.checkpoints[k] == b.checkpoints[k]
      {
        assert AgreesOn(a, b, k);
      }
    }
    assert a.totals == b.totals by {
      forall k | k in a.totals.Keys + b.totals.Keys
        ensures k in a.totals && k in b.totals && a.totals[k] == b.totals[k]
      {
        assert AgreesOn(a, b, k);
      }
    }
    assert a.daily == b.daily by {
      forall rk | rk in a.daily.Keys + b.daily.Keys
        ensures rk in a.daily && rk in b.daily && a.daily[rk] == b.daily[rk]
      {
        assert AgreesOn(a, b, rk.key) && rk == RowKey(rk.key, rk.day);
      }
    }
  }

  /** A transaction touches no other key. */
  lemma FlushKeyFrame(db: Db, day: Day, r: Reading, k: Key)
    requires k != r.key
    ensures AgreesOn(FlushKey(db, day, r), db, k)
  {
  }

  /** A transaction looks at no other key. */
  lemma FlushKeyLocal(a: Db, b: Db, day: Day, r: Reading)
    requires AgreesOn(a, b, r.key)
    ensures AgreesOn(FlushKey(a, day, r), FlushKey(b, day, r), r.key)
  {
    assert Delta(a, day, r) == Delta(b, day, r);
    assert RowKey(r.key, day) in a.daily <==> RowKey(r.key, day) in b.daily;
  }

  /** Two transactions for one key on one day leave what the second alone would have left, if
      and only if, counted from the checkpoint, no field of the second reading is behind. */
  lemma FlushTwice(db: Db, day: Day, k: Key, first: Raw, second: Raw)
    ensures FlushKey(FlushKey(db, day, Reading(k, first)), day, Reading(k, second))
              == FlushKey(db, day, Reading(k, second))
            <==> Leq(Sub64(first, Base(db, k, day)), Sub64(second, Base(db, k, day)))
  {
    var base := Base(db, k, day);
    var d1, d2, d := Sub64(first, base), Sub64(second, first), Sub64(second, base);
    StepsAddUp(base, first, second);
    if Plus(d1, d2) == d {
      FlushTwiceSame(db, day, k, first, second);
    } else {
      GetEqual(Plus(d1, d2), d);
      var f :| Get(Plus(d1, d2), f) != Get(d, f);
      FlushTwiceTotals(db, day, k, first, second, f);
    }
  }

  lemma FlushTwiceSame(db: Db, day: Day, k: Key, first: Raw, second: Raw)
    requires var base := Base(db, k, day);
             Plus(Sub64(first, base), Sub64(second, first)) == Sub64(second, base)
    ensures FlushKey(FlushKey(db, day, Reading(k, first)), day, Reading(k, second))
              == FlushKey(db, day, Reading(k, second))
  {
    var d1, d2 := Sub64(first, Base(db, k, day)), Sub64(second, first);
    DeltaIsDifference(db, day, Reading(k, first));
    DeltaIsDifference(db, day, Reading(k, second));
    PersistTwice(db, day, k, first, second, d1, d2);
    assert Delta(FlushKey(db, day, Reading(k, first)), day, Reading(k, second)) == d2;
  }

  lemma FlushTwiceTotals(db: Db, day: Day, k: Key, first: Raw, second: Raw, f: Field)
    ensures var base := Base(db, k, day);
            var mid := FlushKey(db, day, Reading(k, first));
            && At(FlushKey(mid, day, Reading(k, second)).totals, k, f)
                 == At(db.totals, k, f) + Get(Plus(Sub64(first, base), Sub64(second, first)), f)
            && At(FlushKey(db, day, Reading(k, second)).totals, k, f)
                 == At(db.totals, k, f) + Get(Sub64(second, base), f)
  {
    var mid := FlushKey(db, day, Reading(k, first));
    DeltaIsDifference(db, day, Reading(k, first));
    DeltaIsDifference(db, day, Reading(k, second));
    assert Delta(mid, day, Reading(k, second)) == Sub64(second, first);
    FlushKeyEffect(db, day, Reading(k, first), f);
    FlushKeyEffect(mid, day, Reading(k, second), f);
    FlushKeyEffect(db, day, Reading(k, second), f);
    GetPlus(Sub64(first, Base(db, k, day)), Sub64(second, first), f);
  }

  lemma StepsAddUp(base: Raw, first: Raw, second: Raw)
    ensures Plus(Sub64(first, base), Sub64(second, first)) == Sub64(second, base)
            <==> Leq(Sub64(first, base), Sub64(second, base))
  {
  }

  /** Booking a delta in two parts. */
  lemma BookTwice<K>(m: map<K, Counters>, k: K, d1: Counters, d2: Counters)
    ensures Book(Book(m, k, d1), k, d2) == Book(m, k, Plus(d1, d2))
  {
    PlusZero(d1, d2);
    PlusIsZero(d1, d2);
    if IsZero(d1) {
      assert Book(m, k, d1) == m;
    } else if IsZero(d2) {
      assert Book(Book(m, k, d1), k, d2) == Book(m, k, d1);
    } else {
      AccumulateTwice(m, k, d1, d2);
    }
  }

  lemma AccumulateTwice<K>(m: map<K, Counters>, k: K, d1: Counters, d2: Counters)
    ensures Accumulate(Accumulate(m, k, d1), k, d2) == Accumulate(m, k, Plus(d1, d2))
  {
    if k in m {
      PlusAssociative(m[k], d1, d2);
    }
  }

  // ---------------------------------------------------------------- schedules of flushes

  function LastReading(rs: seq<Reading>, k: Key): Option<Raw> {
    if rs == [] then None
    else if rs[|rs| - 1].key == k then Some(rs[|rs| - 1].raw)
    else LastReading(rs[..|rs| - 1], k)
  }

  /** Counted from the checkpoints in `db`, no key's readings ever fall behind. */
  ghost predicate Advancing(db: Db, day: Day, rs: seq<Reading>) {
    forall i, j :: 0 <= i < j < |rs| && rs[i].key == rs[j].key ==>
      Leq(Sub64(rs[i].raw, Base(db, rs[i].key, day)), Sub64(rs[j].raw, Base(db, rs[i].key, day)))
  }

  /** Counters that never decrease, in particular not below today's checkpoint. */
  ghost predicate Monotone(db: Db, day: Day, rs: seq<Reading>) {
    && (forall i, j :: 0 <= i < j < |rs| && rs[i].key == rs[j].key ==> Leq(rs[i].raw, rs[j].raw))
    && (forall i :: 0 <= i < |rs| ==> Leq(Base(db, rs[i].key, day), rs[i].raw))
  }

  ghost predicate DistinctKeys(rs: seq<Reading>) {
    forall i, j :: 0 <= i < j < |rs| ==> rs[i].key != rs[j].key
  }

  lemma MonotoneAdvances(db: Db, day: Day, rs: seq<Reading>)
    requires Monotone(db, day, rs)
    ensures Advancing(db, day, rs)
  {
    forall i, j | 0 <= i < j < |rs| && rs[i].key == rs[j].key
      ensures Leq(Sub64(rs[i].raw, Base(db, rs[i].key, day)), Sub64(rs[j].raw, Base(db, rs[i].key, day)))
    {
      assert Leq(rs[i].raw, rs[j].raw) && Leq(Base(db, rs[i].key, day), rs[i].raw);
    }
  }

  lemma {:induction false} LastReadingOccurs(rs: seq<Reading>, k: Key)
    ensures LastReading(rs, k).None? <==> forall i :: 0 <= i < |rs| ==> rs[i].key != k
    ensures LastReading(rs, k).Some? ==>
              exists i :: 0 <= i < |rs| && rs[i] == Reading(k, LastReading(rs, k).value)
  {
    if rs != [] {
      var front, last := rs[..|rs| - 1], rs[|rs| - 1];
      LastReadingOccurs(front, k);
      if last.key == k {
        assert rs[|rs| - 1] == Reading(k, last.raw);
      } else if LastReading(front, k).Some? {
        var i :| 0 <= i < |front| && front[i] == Reading(k, LastReading(front, k).value);
        assert rs[i] == front[i];
      } else {
        assert forall i :: 0 <= i < |rs| ==> rs[i] == if i < |front| then front[i] else last;
      }
    }
  }

  /** Any number of flushes on one day, complete or aborted anywhere, leave for each key what
      its last reading alone would have left. */
  lemma {:induction false} OnlyLastReadingCounts(db: Db, day: Day, rs: seq<Reading>, k: Key)
    requires Advancing(db, day, rs)
    ensures AgreesOn(Flushes(db, day, rs),
                     match LastReading(rs, k) case None => db case Some(r) => FlushKey(db, day, Reading(k, r)),
                     k)
  {
    if rs != [] {
      var front, last := rs[..|rs| - 1], rs[|rs| - 1];
      var before := Flushes(db, day, front);
      assert Advancing(db, day, front);
      OnlyLastReadingCounts(db, day, front, k);
      if last.key != k {
        FlushKeyFrame(before, day, last, k);
      } else {
        LastReadingOccurs(front, k);
        match LastReading(front, k)
        case None =>
          FlushKeyLocal(before, db, day, last);
        case Some(r) =>
          var i :| 0 <= i < |front| && front[i] == Reading(k, r);
          assert rs[i] == front[i];
          FlushKeyLocal(before, FlushKey(db, day, Reading(k, r)), day, last);
          FlushTwice(db, day, k, r, last.raw);
      }
    }
  }

  /** Keys that a flush did not get to keep their rows as they were. */
  lemma {:induction false} UnreachedKeysWait(db: Db, day: Day, rs: seq<Reading>, k: Key)
    requires forall i :: 0 <= i < |rs| ==> rs[i].key != k
    ensures AgreesOn(Flushes(db, day, rs), db, k)
  {
    if rs != [] {
      var front, last := rs[..|rs| - 1], rs[|rs| - 1];
      assert forall i :: 0 <= i < |front| ==> front[i] == rs[i];
      UnreachedKeysWait(db, day, front, k);
      FlushKeyFrame(Flushes(db, day, front), day, last, k);
    }
  }

  /** Flush-schedule independence: two schedules on one day that end with the same reading of
      every key end with the same tables. */
  lemma ScheduleIndependence(db: Db, day: Day, a: seq<Reading>, b: seq<Reading>)
    requires Advancing(db, day, a) && Advancing(db, day, b)
    requires forall k :: LastReading(a, k) == LastReading(b, k)
    ensures Flushes(db, day, a) == Flushes(db, day, b)
  {
    forall k
      ensures AgreesOn(Flushes(db, day, a), Flushes(db, day, b), k)
    {
      OnlyLastReadingCounts(db, day, a, k);
      OnlyLastReadingCounts(db, day, b, k);
    }
    AgreesEverywhere(Flushes(db, day, a), Flushes(db, day, b));
  }

  lemma {:induction false} LastReadingConcat(a: seq<Reading>, b: seq<Reading>, k: Key)
    ensures LastReading(a + b, k) == if LastReading(b, k).Some? then LastReading(b, k) else LastReading(a, k)
  {
    if b == [] {
      assert a + b == a;
    } else {
      assert (a + b)[..|a + b| - 1] == a + b[..|b| - 1];
      LastReadingConcat(a, b[..|b| - 1], k);
    }
  }

  /** A later flush that covers every key of the earlier activity makes that activity
      invisible: whatever was flushed before, and wherever it was aborted, the tables are those
      of the one flush. With `earlier` an aborted prefix this is crash and retry; with `earlier`
      a whole day of flushes it is the single flush at the end. */
  lemma CrashAndRetry(db: Db, day: Day, earlier: seq<Reading>, full: seq<Reading>)
    requires Monotone(db, day, earlier + full)
    requires forall i :: 0 <= i < |earlier| ==> exists j :: 0 <= j < |full| && full[j].key == earlier[i].key
    ensures Flushes(db, day, earlier + full) == Flushes(db, day, full)
  {
    MonotoneAdvances(db, day, earlier + full);
    assert forall j :: 0 <= j < |full| ==> full[j] == (earlier + full)[|earlier| + j];
    assert Monotone(db, day, full);
    MonotoneAdvances(db, day, full);
    forall k
      ensures LastReading(earlier + full, k) == LastReading(full, k)
    {
      LastReadingConcat(earlier, full, k);
      LastReadingOccurs(full, k);
      LastReadingOccurs(earlier, k);
    }
    ScheduleIndependence(db, day, earlier + full, full);
  }

  /** One flush over distinct keys gives the same tables in every enumeration order, whatever
      the counters did. */
  lemma AnyEnumerationOrder(db: Db, day: Day, a: seq<Reading>, b: seq<Reading>)
    requires DistinctKeys(a) && DistinctKeys(b)
    requires forall r :: r in a <==> r in b
    ensures Flushes(db, day, a) == Flushes(db, day, b)
  {
    forall k
      ensures LastReading(a, k) == LastReading(b, k)
    {
      LastReadingOccurs(a, k);
      LastReadingOccurs(b, k);
      if LastReading(a, k).Some? {
        SameReading(a, b, k);
      } else if LastReading(b, k).Some? {
        SameReading(b, a, k);
      }
    }
    ScheduleIndependence(db, day, a, b);
  }

  lemma SameReading(a: seq<Reading>, b: seq<Reading>, k: Key)
    requires DistinctKeys(b)
    requires forall r :: r in a ==> r in b
    requires LastReading(a, k).Some?
    ensures LastReading(b, k) == LastReading(a, k)
  {
    LastReadingOccurs(a, k);
    LastReadingOccurs(b, k);
    assert Reading(k, LastReading(a, k).value) in b;
  }

  /** Flushing the same readings again changes nothing, even if the first flush wrapped. */
  lemma FlushIdempotent(db: Db, day: Day, rs: seq<Reading>)
    requires DistinctKeys(rs)
    ensures Flushes(db, day, rs + rs) == Flushes(db, day, rs)
  {
    forall k
      ensures LastReading(rs + rs, k) == LastReading(rs, k)
    {
      LastReadingConcat(rs, rs, k);
    }
    assert forall i :: 0 <= i < |rs + rs| ==> (rs + rs)[i] == rs[if i < |rs| then i else i - |rs|];
    ScheduleIndependence(db, day, rs + rs, rs);
  }

  // ---------------------------------------------------------------- pruning

  /** Pruning commutes with a transaction exactly when the cutoff spares the day being written,
      or the transaction writes no row. */
  lemma PruneCommutes(db: Db, day: Day, r: Reading, cutoff: Day)
    ensures FlushKey(Prune(db, cutoff), day, r) == Prune(FlushKey(db, day, r), cutoff)
            <==> cutoff <= day || IsZero(Delta(db, day, r))
  {
    var a, b := FlushKey(Prune(db, cutoff), day, r), Prune(FlushKey(db, day, r), cutoff);
    assert Delta(Prune(db, cutoff), day, r) == Delta(db, day, r);
    if cutoff <= day || IsZero(Delta(db, day, r)) {
      assert a.daily == b.daily;
    } else {
      assert RowKey(r.key, day) in a.daily && RowKey(r.key, day) !in b.daily;
    }
  }

  /** Successive prunes amount to one with the later cutoff. */
  lemma PruneTwice(db: Db, first: Day, second: Day)
    ensures Prune(Prune(db, first), second) == Prune(db, if first <= second then second else first)
  {
  }

  /** What housekeeping and one day's flushes may do in turn. */
  datatype Op = Commit(reading: Reading) | Housekeep(cutoff: Day)

  function RunOps(db: Db, day: Day, ops: seq<Op>): Db {
    if ops == [] then db
    else
      var before := RunOps(db, day, ops[..|ops| - 1]);
      match ops[|ops| - 1]
      case Commit(r) => FlushKey(before, day, r)
      case Housekeep(c) => Prune(before, c)
  }

  function CommitsOf(ops: seq<Op>): seq<Reading> {
    if ops == [] then []
    else CommitsOf(ops[..|ops| - 1]) + (match ops[|ops| - 1] case Commit(r) => [r] case Housekeep(_) => [])
  }

  function LatestCutoff(ops: seq<Op>): Day {
    if ops == [] then 0
    else
      var before := LatestCutoff(ops[..|ops| - 1]);
      match ops[|ops| - 1] case Commit(_) => before case Housekeep(c) => if before <= c then c else before
  }

  /** Prunes placed anywhere between the transactions amount to one prune after all of them. */
  lemma {:induction false} PrunesMoveToEnd(db: Db, day: Day, ops: seq<Op>)
    requires forall i :: 0 <= i < |ops| && ops[i].Housekeep? ==> ops[i].cutoff <= day
    ensures RunOps(db, day, ops) == Prune(Flushes(db, day, CommitsOf(ops)), LatestCutoff(ops))
    ensures LatestCutoff(ops) <= day
  {
    if ops == [] {
      assert Prune(db, 0) == db;
    } else {
      var front, last := ops[..|ops| - 1], ops[|ops| - 1];
      assert forall i :: 0 <= i < |front| ==> front[i] == ops[i];
      PrunesMoveToEnd(db, day, front);
      var booked := Flushes(db, day, CommitsOf(front));
      match last
      case Commit(r) =>
        PruneCommutes(booked, day, r, LatestCutoff(front));
        assert CommitsOf(ops)[..|CommitsOf(ops)| - 1] == CommitsOf(front);
      case Housekeep(c) =>
        PruneTwice(booked, LatestCutoff(front), c);
        assert CommitsOf(ops) == CommitsOf(front);
    }
  }

  /** ... and equally to one prune before all of them. */
  lemma {:induction false} PruneMovesToFront(db: Db, day: Day, rs: seq<Reading>, cutoff: Day)
    requires cutoff <= day
    ensures Flushes(Prune(db, cutoff), day, rs) == Prune(Flushes(db, day, rs), cutoff)
  {
    if rs != [] {
      PruneMovesToFront(db, day, rs[..|rs| - 1], cutoff);
      PruneCommutes(Flushes(db, day, rs[..|rs| - 1]), day, rs[|rs| - 1], cutoff);
    }
  }
}
