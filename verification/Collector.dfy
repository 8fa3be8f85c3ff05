/** The parts of the collector that change things in place: the repository's tables, the map
    iterator, the flush loop and the housekeeping loop. Answers of the kernel, outcomes of
    database accesses, the date and the clock are parameters.
 */
module Collector {
  import opened Calendar
  import opened Counters
  import opened Store

  /** The repository; a transaction either commits (`ok`) or leaves every table as it was. */
  class Repository {
    var checkpoints: map<Key, Checkpoint>
    var totals: map<Key, Counters>
    var daily: map<RowKey, Counters>

    ghost function Tables(): Db
      reads this
    {
      Db(checkpoints, totals, daily)
    }

    constructor ()
      ensures Tables() == EMPTY_DB
    {
      checkpoints, totals, daily := map[], map[], map[];
    }

    method GetCheckpoint(k: Key) returns (cp: Option<Checkpoint>)
      ensures cp == if k in checkpoints then Some(checkpoints[k]) else None
    {
      cp := None;
      if k in checkpoints {
        cp := Some(checkpoints[k]);
      }
    }

    method UpsertCheckpoint(k: Key, day: Day, raw: Raw, ok: bool)
      modifies this`checkpoints
      ensures checkpoints == if ok then old(checkpoints)[k := Checkpoint(day, raw)] else old(checkpoints)
    {
      if ok {
        checkpoints := checkpoints[k := Checkpoint(day, raw)];
      }
    }

    /** Checkpoint, total and daily bucket in one transaction. */
    method PersistAll(r: Reading, day: Day, delta: Counters, ok: bool)
      modifies this
      ensures Tables() == if !ok then old(Tables()) else
                Db(old(checkpoints)[r.key := Checkpoint(day, r.raw)],
                   Accumulate(old(totals), r.key, delta),
                   Accumulate(old(daily), RowKey(r.key, day), delta))
    {
      var cps := checkpoints[r.key := Checkpoint(day, r.raw)];
      var total := if r.key in totals then Plus(totals[r.key], delta) else delta;
      var rk := RowKey(r.key, day);
      var bucket := if rk in daily then Plus(daily[rk], delta) else delta;
      if ok {
        checkpoints := cps;
        totals := totals[r.key := total];
        daily := daily[rk := bucket];
      }
    }

    /** Deletes the rows whose date text is before the cutoff text; reports how many, or nothing
        if the deletion fails. */
    method PruneDaily(cutoff: string, ok: bool) returns (deleted: Option<nat>)
      modifies this`daily
      ensures deleted.Some? == ok
      ensures Tables() == if ok then PruneText(old(Tables()), cutoff) else old(Tables())
      ensures ok ==> |daily| + deleted.value == |old(daily)|
    {
      if !ok {
        return None;
      }
      var doomed := set rk | rk in daily && IsBefore(rk, cutoff);
      ghost var before := daily;
      deleted := Some(|doomed|);
      daily := map rk | rk in daily && !IsBefore(rk, cutoff) :: daily[rk];
      PartitionSize(before, daily, doomed);
    }

    /** With the text of a day as cutoff, exactly the rows of earlier days go. */
    method PruneBefore(day: Day, cutoff: string, ok: bool) returns (deleted: Option<nat>)
      requires cutoff == Text(day)
      modifies this`daily
      ensures deleted.Some? == ok
      ensures Tables() == if ok then Prune(old(Tables()), day) else old(Tables())
      ensures ok ==> |daily| + deleted.value == |old(daily)|
    {
      PruneTextIsPrune(Tables(), day);
      deleted := PruneDaily(cutoff, ok);
    }
  }

  lemma PartitionSize(all: map<RowKey, Counters>, kept: map<RowKey, Counters>, doomed: set<RowKey>)
    requires all.Keys == kept.Keys + doomed && kept.Keys !! doomed
    ensures |all| == |kept| + |doomed|
  {
    assert |all.Keys| == |kept.Keys| + |doomed|;
  }

  /** What the kernel answers to the next NextKey and Lookup. */
  datatype Answer = Entry(reading: Reading) | NextKeyFails | LookupFails(key: Key)

  /** The readings delivered before the first failing answer, or all of them. */
  function Delivered(feed: seq<Answer>): seq<Reading> {
    if feed == [] || !feed[0].Entry? then [] else [feed[0].reading] + Delivered(feed[1..])
  }

  lemma {:induction false} DeliveredStep(feed: seq<Answer>, n: nat)
    requires n < |feed| && (forall i :: 0 <= i < n ==> feed[i].Entry?)
    ensures n <= |Delivered(feed)|
    ensures n < |Delivered(feed)| <==> feed[n].Entry?
    ensures feed[n].Entry? ==> Delivered(feed)[n] == feed[n].reading
  {
    if n > 0 {
      DeliveredStep(feed[1..], n - 1);
    }
  }

  lemma {:induction false} DeliveredAll(feed: seq<Answer>)
    requires forall i :: 0 <= i < |feed| ==> feed[i].Entry?
    ensures |Delivered(feed)| == |feed|
  {
    if feed != [] {
      DeliveredAll(feed[1..]);
    }
  }

  /** The whole feed is delivered if and only if no answer is a failure. */
  lemma {:induction false} DeliveredWholeFeed(feed: seq<Answer>)
    ensures |Delivered(feed)| == |feed| <==> forall i :: 0 <= i < |feed| ==> feed[i].Entry?
  {
    DeliveredBound(feed);
    if feed != [] && feed[0].Entry? {
      DeliveredWholeFeed(feed[1..]);
      DeliveredBound(feed[1..]);
      assert forall i :: 0 < i < |feed| ==> feed[i] == feed[1..][i - 1];
    }
  }

  /** Walks the map; after the first failure, or the end, it stays exhausted. */
  class MapIterator {
    const feed: seq<Answer>
    var pos: nat
    var currKey: Option<Key>
    var iterErr: bool

    ghost predicate Valid()
      reads this
    {
      && pos <= |feed|
      && (forall i :: 0 <= i < pos ==> feed[i].Entry?)
      && pos <= |Delivered(feed)|
      && (iterErr ==> pos == |Delivered(feed)|)
    }

    constructor (feed: seq<Answer>)
      ensures Valid() && this.feed == feed && pos == 0 && !iterErr
    {
      this.feed := feed;
      pos, currKey, iterErr := 0, None, false;
    }

    method Next() returns (r: Option<Reading>)
      requires Valid()
      modifies this
      ensures Valid()
      ensures r == if old(pos) < |Delivered(feed)| then Some(Delivered(feed)[old(pos)]) else None
      ensures pos == if r.Some? then old(pos) + 1 else old(pos)
      ensures currKey == if r.Some? then Some(r.value.key) else old(currKey)
      ensures iterErr == r.None?
    {
      if iterErr {
        return None;
      }
      if pos == |feed| {
        DeliveredAll(feed);
        iterErr := true;
        return None;
      }
      DeliveredStep(feed, pos);
      match feed[pos]
      case NextKeyFails =>
        iterErr := true;
        return None;
      case LookupFails(_) =>
        iterErr := true;
        return None;
      case Entry(reading) =>
        if pos + 1 < |feed| {
          DeliveredStep(feed, pos + 1);
        } else {
          DeliveredAll(feed);
        }
        currKey := Some(reading.key);
        pos := pos + 1;
        return Some(reading);
    }
  }

  lemma FlushesStep(db: Db, day: Day, walk: seq<Reading>, n: nat)
    requires n < |walk|
    ensures Flushes(db, day, walk[..n + 1]) == FlushKey(Flushes(db, day, walk[..n]), day, walk[n])
  {
    assert walk[..n + 1][..n] == walk[..n];
  }

  class FlushLoop {
    const repo: Repository
    var lastFlush: Option<nat>
    var flushErr: bool

    constructor (repo: Repository)
      ensures this.repo == repo && lastFlush.None? && !flushErr
    {
      this.repo := repo;
      lastFlush, flushErr := None, false;
    }

    /** The loop body of a flush: compare with the checkpoint, then write. */
    method BookReading(r: Reading, today: Day, ok: bool)
      modifies repo
      ensures repo.Tables() == if ok then FlushKey(old(repo.Tables()), today, r) else old(repo.Tables())
    {
      var cp := repo.GetCheckpoint(r.key);
      var delta: Raw;
      if cp.Some? && cp.value.day == today {
        delta := Sub64(r.raw, cp.value.raw);
      } else {
        delta := r.raw;
      }
      if IsZero(delta) {
        repo.UpsertCheckpoint(r.key, today, r.raw, ok);
      } else {
        repo.PersistAll(r, today, delta, ok);
      }
    }

    /** Reads the map and books the difference to the checkpoints, one transaction per key.

    `feed` is None in mock mode. `failAt` is the position in the walk of the first key whose
    database access fails, if that position is reached. A walk that ends because the iterator
    failed counts as a success. */
    method Flush(feed: Option<seq<Answer>>, today: Day, now: nat, failAt: nat) returns (failed: bool)
      modifies this, repo
      ensures feed.None? ==> !failed && repo.Tables() == old(repo.Tables()) && lastFlush == old(lastFlush)
      ensures feed.Some? ==>
                var walk := Delivered(feed.value);
                && (failed <==> failAt < |walk|)
                && repo.Tables() == Flushes(old(repo.Tables()), today, if failed then walk[..failAt] else walk)
                && lastFlush == (if failed then old(lastFlush) else Some(now))
      ensures flushErr == (if failed || feed.None? then old(flushErr) else false)
    {
      if feed.None? {
        return false;
      }
      ghost var walk := Delivered(feed.value);
      var iter := new MapIterator(feed.value);
      var next := iter.Next();
      var n := 0;
      while next.Some?
        invariant fresh(iter) && iter.feed == feed.value && iter.Valid()
        invariant n <= |walk| && n <= failAt
        invariant next == if n < |walk| then Some(walk[n]) else None
        invariant next.Some? ==> iter.pos == n + 1
        invariant repo.Tables() == Flushes(old(repo.Tables()), today, walk[..n])
        invariant lastFlush == old(lastFlush) && flushErr == old(flushErr)
        decreases |walk| - n
      {
        BookReading(next.value, today, n < failAt);
        if n == failAt {
          return true;
        }
        FlushesStep(old(repo.Tables()), today, walk, n);
        next := iter.Next();
        n := n + 1;
      }
      assert walk[..n] == walk;
      lastFlush := Some(now);
      flushErr := false;
      return false;
    }

    /** One tick of the loop: a failure is remembered and the next tick tries again. */
    method Tick(feed: Option<seq<Answer>>, today: Day, now: nat, failAt: nat)
      modifies this, repo
      ensures feed.Some? ==>
                var walk := Delivered(feed.value);
                && repo.Tables() == Flushes(old(repo.Tables()), today, if failAt < |walk| then walk[..failAt] else walk)
                && (flushErr <==> failAt < |walk|)
                && lastFlush == (if flushErr then old(lastFlush) else Some(now))
      ensures feed.None? ==>
                repo.Tables() == old(repo.Tables()) && flushErr == old(flushErr) && lastFlush == old(lastFlush)
    {
      var failed := Flush(feed, today, now, failAt);
      if failed {
        flushErr := true;
      }
    }
  }

  /** A failing lookup hides the entries behind it, and the flush still reports success. */
  method IteratorFailureIsSilent(loop: FlushLoop, before: Reading, k: Key, behind: Reading, today: Day, now: nat)
    returns (failed: bool)
    modifies loop, loop.repo
    ensures !failed && !loop.flushErr && loop.lastFlush == Some(now)
    ensures loop.repo.Tables() == FlushKey(old(loop.repo.Tables()), today, before)
  {
    var feed := [Entry(before), LookupFails(k), Entry(behind)];
    assert Delivered(feed) == [before] by {
      assert feed[1..][0] == LookupFails(k);
    }
    FlushesStep(loop.repo.Tables(), today, [before], 0);
    assert [before][..0] == [] && [before][..1] == [before];
    failed := loop.Flush(Some(feed), today, now, 1);
  }

  /** A failed tick and the next successful one leave what one undisturbed flush with the later
      readings would have left, in whatever order the two walks met the keys. */
  method TickFailsThenRetries(loop: FlushLoop, first: seq<Answer>, second: seq<Answer>, today: Day,
                              now: nat, later: nat, failAt: nat)
    requires failAt < |Delivered(first)|
    requires Monotone(loop.repo.Tables(), today, Delivered(first)[..failAt] + Delivered(second))
    requires forall i :: 0 <= i < failAt ==>
               exists j :: 0 <= j < |Delivered(second)| && Delivered(second)[j].key == Delivered(first)[i].key
    modifies loop, loop.repo
    ensures loop.repo.Tables() == Flushes(old(loop.repo.Tables()), today, Delivered(second))
    ensures !loop.flushErr && loop.lastFlush == Some(later)
  {
    ghost var db, a, b := loop.repo.Tables(), Delivered(first)[..failAt], Delivered(second);
    loop.Tick(Some(first), today, now, failAt);
    var failed := loop.Flush(Some(second), today, later, |second|);
    DeliveredBound(second);
    FlushesConcat(db, today, a, b);
    assert forall i :: 0 <= i < |a| ==> a[i] == Delivered(first)[i];
    CrashAndRetry(db, today, a, b);
  }

  lemma {:induction false} DeliveredBound(feed: seq<Answer>)
    ensures |Delivered(feed)| <= |feed|
  {
    if feed != [] && feed[0].Entry? {
      DeliveredBound(feed[1..]);
    }
  }

  lemma {:induction false} FlushesConcat(db: Db, day: Day, a: seq<Reading>, b: seq<Reading>)
    ensures Flushes(db, day, a + b) == Flushes(Flushes(db, day, a), day, b)
  {
    if b == [] {
      assert a + b == a;
    } else {
      assert (a + b)[..|a + b| - 1] == a + b[..|b| - 1];
      FlushesConcat(db, day, a, b[..|b| - 1]);
    }
  }

  class HousekeepingLoop {
    const repo: Repository?
    var lastRun: Option<nat>
    var lastPruneDate: string
    var pruneErr: bool

    constructor (repo: Repository?)
      ensures this.repo == repo && lastRun.None? && lastPruneDate == "" && !pruneErr
    {
      this.repo := repo;
      lastRun, lastPruneDate, pruneErr := None, "", false;
    }

    /** Prunes the daily rows older than 400 days; totals and checkpoints are never touched.
        Without a repository there is nothing to do. */
    method RunOnce(today: Day, now: nat, ok: bool) returns (failed: bool)
      requires 400 <= today
      modifies this, if repo == null then {} else {repo}
      ensures repo == null ==>
                !failed && lastRun == old(lastRun) && lastPruneDate == old(lastPruneDate) && pruneErr == old(pruneErr)
      ensures repo != null ==>
                && failed == !ok && pruneErr == !ok && lastRun == Some(now)
                && repo.checkpoints == old(repo.checkpoints) && repo.totals == old(repo.totals)
                && (forall rk :: rk in repo.daily <==> rk in old(repo.daily) && (ok ==> today <= rk.day as nat + 400))
                && (forall rk :: rk in repo.daily ==> repo.daily[rk] == old(repo.daily)[rk])
                && lastPruneDate == if ok then Text(today - 400) else old(lastPruneDate)
    {
      if repo == null {
        return false;
      }
      var cutoff := Text(today - RETENTION);
      lastRun := Some(now);
      ghost var before := repo.Tables();
      var deleted := repo.PruneBefore(today - RETENTION, cutoff, ok);
      if deleted.None? {
        pruneErr := true;
        return true;
      }
      assert repo.Tables() == Prune(before, today - 400);
      lastPruneDate := cutoff;
      pruneErr := false;
      return false;
    }
  }
}
