/** The traffic queries: date ranges, aggregation, MAC filter and pagination. */
module Windows {
  import opened Calendar
  import opened Counters
  import opened MacText
  import opened Store
  import opened Sums
  import Pipeline

  /** One row as scanned from the daily table; its columns fit unsigned 64-bit integers. */
  datatype Row = Row(key: Key, day: Day, counters: Raw)

  /** One row as scanned from the totals. */
  datatype TotalRow = TotalRow(key: Key, counters: Raw)

  datatype TrafficRecord = TrafficRecord(iface: string, ifindex: nat, mac: string, counters: Raw, window: string)

  function RecordFor(k: Key, c: Raw, window: string): TrafficRecord {
    TrafficRecord(k.iface, k.ifindex, MacToString(k.mac), c, window)
  }

  predicate PassesMac(k: Key, filter: string) {
    filter == "" || EqualFold(MacToString(k.mac), filter)
  }

  /** The filter syntax the API accepts. */
  predicate IsMacFilter(filter: string) {
    filter == "" || MatchesMacRegex(filter)
  }

  /** The rows a client asks for with an accepted filter: those of the MAC it denotes, or all. */
  predicate Wanted(k: Key, filter: string)
    requires IsMacFilter(filter)
  {
    filter == "" || k.mac == Parse(filter, 6)
  }

  lemma PassesIffWanted(k: Key, filter: string)
    requires IsMacFilter(filter)
    ensures PassesMac(k, filter) <==> Wanted(k, filter)
  {
    if filter != "" {
      FilterMeansMac(k.mac, filter);
    }
  }

  // ---------------------------------------------------------------- pages

  /** min(limit, max(0, n - offset)). */
  function PageSize(n: nat, offset: nat, limit: nat): nat {
    if n <= offset then 0 else if n - offset < limit then n - offset else limit
  }

  /** The slice [offset, offset + limit), cut off at the end. */
  function Page<T>(s: seq<T>, offset: nat, limit: nat): (p: seq<T>)
    ensures |p| == PageSize(|s|, offset, limit)
    ensures forall i :: 0 <= i < |p| ==> offset + i < |s| && p[i] == s[offset + i]
  {
    if |s| <= offset then [] else if |s| - offset < limit then s[offset..] else s[offset..offset + limit]
  }

  /** The pages from `offset` on, one after the other, as a client fetches them. */
  function PagesFrom<T>(s: seq<T>, offset: nat, limit: nat): seq<T>
    requires limit > 0
    decreases |s| - offset
  {
    if |s| <= offset then [] else Page(s, offset, limit) + PagesFrom(s, offset + limit, limit)
  }

  /** Consecutive pages tile the list: nothing is skipped, repeated or reordered. */
  lemma {:induction false} PagesTile<T>(s: seq<T>, offset: nat, limit: nat)
    requires limit > 0 && offset <= |s|
    ensures PagesFrom(s, offset, limit) == s[offset..]
    decreases |s| - offset
  {
    if offset + limit <= |s| {
      PagesTile(s, offset + limit, limit);
      assert s[offset..] == s[offset..offset + limit] + s[offset + limit..];
    }
  }

  // ---------------------------------------------------------------- the all-time window

  function Filtered(rows: seq<TotalRow>, filter: string): seq<TotalRow> {
    if rows == [] then []
    else
      var front, last := Filtered(rows[..|rows| - 1], filter), rows[|rows| - 1];
      if PassesMac(last.key, filter) then front + [last] else front
  }

  function RecordsOf(rows: seq<TotalRow>, window: string): (rs: seq<TrafficRecord>)
    ensures |rs| == |rows|
    ensures forall i :: 0 <= i < |rows| ==> rs[i] == RecordFor(rows[i].key, rows[i].counters, window)
  {
    seq(|rows|, i requires 0 <= i < |rows| => RecordFor(rows[i].key, rows[i].counters, window))
  }

  lemma {:induction false} FilteredPrefix(rows: seq<TotalRow>, filter: string, n: nat)
    requires n <= |rows|
    ensures Filtered(rows[..n], filter) <= Filtered(rows, filter)
  {
    if n < |rows| {
      FilteredPrefix(rows[..|rows| - 1], filter, n);
      assert rows[..|rows| - 1][..n] == rows[..n];
    } else {
      assert rows[..n] == rows;
    }
  }

  /** `part` has the wanted rows of `rows`, all of them, in the order of `rows`. */
  ghost predicate SelectsWanted(part: seq<TotalRow>, rows: seq<TotalRow>, filter: string)
    requires IsMacFilter(filter)
  {
    && (forall r :: r in part <==> r in rows && Wanted(r.key, filter))
    && (forall less: (Key, Key) -> bool :: Sorted(less, KeysOf(rows)) ==> Sorted(less, KeysOf(part)))
  }

  lemma {:induction false} FilterSelectsWanted(rows: seq<TotalRow>, filter: string)
    requires IsMacFilter(filter)
    ensures forall r :: r in Filtered(rows, filter) <==> r in rows && Wanted(r.key, filter)
    ensures filter == "" ==> Filtered(rows, filter) == rows
  {
    if rows != [] {
      var front, last := rows[..|rows| - 1], rows[|rows| - 1];
      assert rows == front + [last];
      FilterSelectsWanted(front, filter);
      PassesIffWanted(last.key, filter);
    }
  }

  lemma {:induction false} FilterKeepsOrder(rows: seq<TotalRow>, filter: string, less: (Key, Key) -> bool)
    requires Sorted(less, KeysOf(rows))
    ensures Sorted(less, KeysOf(Filtered(rows, filter)))
    ensures forall r :: r in Filtered(rows, filter) ==> r in rows
  {
    if rows != [] {
      var n := |rows| - 1;
      var front, last := rows[..n], rows[n];
      assert rows == front + [last];
      forall i, j | 0 <= i < j < |KeysOf(front)|
        ensures less(KeysOf(front)[i], KeysOf(front)[j])
      {
        assert less(KeysOf(rows)[i], KeysOf(rows)[j]);
      }
      FilterKeepsOrder(front, filter, less);
      var part := Filtered(front, filter);
      forall i | 0 <= i < |part|
        ensures less(part[i].key, last.key)
      {
        assert part[i] in front;
        var j :| 0 <= j < |front| && front[j] == part[i];
        assert less(KeysOf(rows)[j], KeysOf(rows)[n]);
      }
      var keys := KeysOf(Filtered(rows, filter));
      forall i, j | 0 <= i < j < |keys|
        ensures less(keys[i], keys[j])
      {
        if j < |part| {
          assert less(KeysOf(part)[i], KeysOf(part)[j]);
        }
      }
    }
  }

  /** The loop over the totals: filter, skip `offset`, stop after `limit`. With an accepted filter
      it pages over the rows of the MAC it denotes, or over all, in the order of the table. */
  method QueryAll(totals: seq<TotalRow>, filter: string, limit: nat, offset: nat) returns (records: seq<TrafficRecord>)
    ensures records == RecordsOf(Page(Filtered(totals, filter), offset, limit), "all")
    ensures IsMacFilter(filter) ==> SelectsWanted(Filtered(totals, filter), totals, filter)
  {

    records := [];
    var count, skip, i := 0, 0, 0;
    ghost var kept: seq<TotalRow> := [];
    while i < |totals|
      invariant i <= |totals|
      invariant kept == Filtered(totals[..i], filter)
      invariant skip == (if |kept| < offset then |kept| else offset)
      invariant count == |records| <= limit && |kept| == skip + count
      invariant records == RecordsOf(kept[skip..], "all")
    {
      var t := totals[i];
      assert totals[..i + 1][..i] == totals[..i];
      if PassesMac(t.key, filter) {
        if skip < offset {
          skip := skip + 1;
        } else if count >= limit {
          FilteredPrefix(totals, filter, i);
          break;
        } else {
          records := records + [RecordFor(t.key, t.counters, "all")];
          count := count + 1;
        }
        kept := kept + [t];
      }
      i := i + 1;
    }
    ghost var all := Filtered(totals, filter);
    assert i == |totals| ==> totals[..i] == totals;
    assert kept <= all;
    assert Page(all, offset, limit) == kept[skip..];
    if IsMacFilter(filter) {
      FilteredIsWanted(totals, filter);
    }
  }

  lemma FilteredIsWanted(rows: seq<TotalRow>, filter: string)
    requires IsMacFilter(filter)
    ensures SelectsWanted(Filtered(rows, filter), rows, filter)
  {
    FilterSelectsWanted(rows, filter);
    forall less: (Key, Key) -> bool | Sorted(less, KeysOf(rows))
      ensures Sorted(less, KeysOf(Filtered(rows, filter)))
    {
      FilterKeepsOrder(rows, filter, less);
    }
  }

  // ---------------------------------------------------------------- date ranges

  /** Field `f` that the i-th row contributes to key `k`. */
  function RowShares(rows: seq<Row>, k: Key, f: Field): nat -> nat {
    (i: nat) => if i < |rows| && rows[i].key == k then Get(rows[i].counters, f) else 0
  }

  function RowSum(rows: seq<Row>, n: nat, k: Key, f: Field): nat {
    SumOver(RowShares(rows, k, f), 0, n)
  }

  /** The keys with a matching row among the first `n`. */
  function KeysUpTo(rows: seq<Row>, n: nat, filter: string): set<Key>
    requires n <= |rows|
  {
    set i | 0 <= i < n && PassesMac(rows[i].key, filter) :: rows[i].key
  }

  /** The keys with a row that the client asked for. */
  function WantedKeys(rows: seq<Row>, filter: string): set<Key>
    requires IsMacFilter(filter)
  {
    set i | 0 <= i < |rows| && Wanted(rows[i].key, filter) :: rows[i].key
  }

  lemma KeysAreWanted(rows: seq<Row>, filter: string)
    requires IsMacFilter(filter)
    ensures KeysUpTo(rows, |rows|, filter) == WantedKeys(rows, filter)
  {
    forall i | 0 <= i < |rows|
      ensures PassesMac(rows[i].key, filter) <==> Wanted(rows[i].key, filter)
    {
      PassesIffWanted(rows[i].key, filter);
    }
  }

  /** `c` is the sum of the key's rows, field by field, as 64-bit addition has it. */
  ghost predicate SumsTo(c: Raw, rows: seq<Row>, n: nat, k: Key) {
    forall f :: Get(c, f) == RowSum(rows, n, k, f) % WORD
  }

  ghost predicate Aggregates(agg: map<Key, TrafficRecord>, rows: seq<Row>, n: nat, filter: string, window: string)
    requires n <= |rows|
  {
    && agg.Keys == KeysUpTo(rows, n, filter)
    && forall k :: k in agg ==> SumsTo(agg[k].counters, rows, n, k) && agg[k] == RecordFor(k, agg[k].counters, window)
  }

  lemma RowSumStep(rows: seq<Row>, n: nat, k: Key, f: Field)
    requires n < |rows|
    ensures RowSum(rows, n + 1, k, f)
            == RowSum(rows, n, k, f) + (if rows[n].key == k then Get(rows[n].counters, f) else 0)
  {
  }

  lemma SumsToStep(c: Raw, rows: seq<Row>, n: nat, k: Key)
    requires n < |rows| && SumsTo(c, rows, n, k)
    ensures rows[n].key != k ==> SumsTo(c, rows, n + 1, k)
    ensures rows[n].key == k ==> SumsTo(Add64(c, rows[n].counters), rows, n + 1, k)
  {
    forall f
      ensures rows[n].key != k ==> Get(c, f) == RowSum(rows, n + 1, k, f) % WORD
      ensures rows[n].key == k ==> Get(Add64(c, rows[n].counters), f) == RowSum(rows, n + 1, k, f) % WORD
    {
      RowSumStep(rows, n, k, f);
      assert Get(c, f) == RowSum(rows, n, k, f) % WORD;
      GetAdd64(c, rows[n].counters, f);
      WordPlus(RowSum(rows, n, k, f), Get(rows[n].counters, f));
    }
  }

  lemma SumsToFirst(rows: seq<Row>, n: nat)
    requires n < |rows| && forall i :: 0 <= i < n ==> rows[i].key != rows[n].key
    ensures SumsTo(rows[n].counters, rows, n + 1, rows[n].key)
  {
    var k := rows[n].key;
    forall f
      ensures Get(rows[n].counters, f) == RowSum(rows, n + 1, k, f) % WORD
    {
      SumZero(RowShares(rows, k, f), 0, n);
      RowSumStep(rows, n, k, f);
      GetSub(rows[n].counters, rows[n].counters, f);
    }
  }

  lemma KeysStep(rows: seq<Row>, n: nat, filter: string)
    requires n < |rows|
    ensures KeysUpTo(rows, n + 1, filter)
            == KeysUpTo(rows, n, filter) + (if PassesMac(rows[n].key, filter) then {rows[n].key} else {})
  {
  }

  /** The in-place aggregation loop: one record per key with a matching row, holding the sum of
      that key's rows. */
  method Aggregate(rows: seq<Row>, filter: string, window: string) returns (agg: map<Key, TrafficRecord>)
    ensures Aggregates(agg, rows, |rows|, filter, window)
    ensures IsMacFilter(filter) ==> agg.Keys == WantedKeys(rows, filter)
  {
    agg := map[];
    for i := 0 to |rows|
      invariant Aggregates(agg, rows, i, filter, window)
    {
      ghost var before := agg;
      KeysStep(rows, i, filter);
      forall k | k in agg
        ensures rows[i].key != k ==> SumsTo(agg[k].counters, rows, i + 1, k)
        ensures rows[i].key == k ==> SumsTo(Add64(agg[k].counters, rows[i].counters), rows, i + 1, k)
      {
        SumsToStep(agg[k].counters, rows, i, k);
      }
      var d := rows[i];
      if PassesMac(d.key, filter) {
        if d.key in agg {
          var rec := agg[d.key];
          agg := agg[d.key := rec.(counters := Add64(rec.counters, d.counters))];
        } else {
          SumsToFirst(rows, i);
          agg := agg[d.key := RecordFor(d.key, d.counters, window)];
        }
      }
    }
    if IsMacFilter(filter) {
      KeysAreWanted(rows, filter);
    }
  }

  ghost predicate Enumerates<T>(order: seq<T>, s: set<T>) {
    && (forall i :: 0 <= i < |order| ==> order[i] in s)
    && (forall x :: x in s ==> x in order)
    && (forall i, j :: 0 <= i < j < |order| ==> order[i] != order[j])
  }

  lemma {:induction false} EnumerationSize<T>(order: seq<T>, s: set<T>)
    requires Enumerates(order, s)
    ensures |order| == |s|
  {
    if order == [] {
      assert s == {};
    } else {
      var n := |order| - 1;
      var front, x := order[..n], order[n];
      forall y | y in s - {x}
        ensures y in front
      {
        assert y in order;
      }
      EnumerationSize(front, s - {x});
    }
  }

  /** The record shows key `k` with the sums of its rows. */
  ghost predicate Shows(r: TrafficRecord, k: Key, rows: seq<Row>, window: string) {
    r == RecordFor(k, r.counters, window) && SumsTo(r.counters, rows, |rows|, k)
  }

  predicate SameIdentity(a: TrafficRecord, b: TrafficRecord) {
    a.iface == b.iface && a.ifindex == b.ifindex && a.mac == b.mac
  }

  /** Interface, index and printed MAC of a record determine its key. */
  lemma RecordsIdentifyKeys(a: Key, b: Key, c: Raw, d: Raw, window: string)
    requires a != b
    ensures !SameIdentity(RecordFor(a, c, window), RecordFor(b, d, window))
  {
    MacToStringRoundTrip(a.mac, b.mac);
  }

  /** Aggregation, then pagination in the order `order` in which the runtime happens to walk the
      map. Of n keys with a matching row the page shows min(limit, max(0, n - offset)), distinct
      ones, each with the sums of its rows. */
  method QueryDateRange(rows: seq<Row>, filter: string, limit: nat, offset: nat, window: string, order: seq<Key>)
    returns (records: seq<TrafficRecord>)
    requires Enumerates(order, KeysUpTo(rows, |rows|, filter))
    ensures |records| == |Page(order, offset, limit)| == PageSize(|KeysUpTo(rows, |rows|, filter)|, offset, limit)
    ensures forall i :: 0 <= i < |records| ==> Shows(records[i], Page(order, offset, limit)[i], rows, window)
    ensures IsMacFilter(filter) ==> Enumerates(order, WantedKeys(rows, filter))
    ensures forall i, j :: 0 <= i < j < |records| ==>
              !SameIdentity(records[i], records[j])
  {
    var agg := Aggregate(rows, filter, window);
    records := Paginate(agg, order, limit, offset);
    EnumerationSize(order, KeysUpTo(rows, |rows|, filter));
    if IsMacFilter(filter) {
      KeysAreWanted(rows, filter);
    }
    ghost var keys := Page(order, offset, limit);
    forall i, j | 0 <= i < j < |records|
      ensures !SameIdentity(records[i], records[j])
    {
      RecordsIdentifyKeys(keys[i], keys[j], records[i].counters, records[j].counters, window);
    }
  }

  /** The second loop: skip `offset` entries of the map, then copy at most `limit`. */
  method Paginate(agg: map<Key, TrafficRecord>, order: seq<Key>, limit: nat, offset: nat)
    returns (records: seq<TrafficRecord>)
    requires forall i :: 0 <= i < |order| ==> order[i] in agg
    ensures |records| == |Page(order, offset, limit)|
    ensures forall i :: 0 <= i < |records| ==> records[i] == agg[Page(order, offset, limit)[i]]
  {
    records := [];
    var count, skip, i := 0, 0, 0;
    while i < |order|
      invariant i <= |order|
      invariant skip == (if i < offset then i else offset)
      invariant count == |records| <= limit && i == skip + count
      invariant forall j :: 0 <= j < count ==> records[j] == agg[order[offset + j]]
    {
      if skip < offset {
        skip := skip + 1;
      } else if count >= limit {
        break;
      } else {
        records := records + [agg[order[i]]];
        count := count + 1;
      }
      i := i + 1;
    }
  }

  /** If every row's total is the sum of its two directions, so is every record's, modulo 2^64. */
  lemma BalancedRowsGiveBalancedRecords(c: Raw, rows: seq<Row>, k: Key)
    requires SumsTo(c, rows, |rows|, k)
    requires forall i :: 0 <= i < |rows| ==> Balanced(rows[i].counters)
    ensures Get(c, Bytes) == (Get(c, IngressBytes) + Get(c, EgressBytes)) % WORD
    ensures Get(c, Packets) == (Get(c, IngressPackets) + Get(c, EgressPackets)) % WORD
  {
    BalancedField(c, rows, k, Bytes, IngressBytes, EgressBytes);
    BalancedField(c, rows, k, Packets, IngressPackets, EgressPackets);
  }

  lemma BalancedField(c: Raw, rows: seq<Row>, k: Key, whole: Field, incoming: Field, outgoing: Field)
    requires SumsTo(c, rows, |rows|, k)
    requires forall i :: 0 <= i < |rows| ==>
               Get(rows[i].counters, whole) == Get(rows[i].counters, incoming) + Get(rows[i].counters, outgoing)
    ensures Get(c, whole) == (Get(c, incoming) + Get(c, outgoing)) % WORD
  {
    SumPlus(RowShares(rows, k, incoming), RowShares(rows, k, outgoing), RowShares(rows, k, whole), 0, |rows|);
    TwoWords(RowSum(rows, |rows|, k, incoming), RowSum(rows, |rows|, k, outgoing));
  }

  lemma TwoWords(x: nat, y: nat)
    ensures (x + y) % WORD == (x % WORD + y % WORD) % WORD
  {
    WordPlus(x, y);
    WordPlus(y, x % WORD);
  }

  // ---------------------------------------------------------------- from rows back to the tables

  /** `WHERE date_utc >= start AND date_utc <= end`, on text, with the optional interface. */
  predicate InRange(rk: RowKey, start: string, end: string, iface: string) {
    && !Lex.Less(Text(rk.day), start) && !Lex.Less(end, Text(rk.day))
    && (iface == "" || rk.key.iface == iface)
  }

  /** `rows` is a scan of the matching daily rows, each exactly once. */
  ghost predicate IsDailyListing(rows: seq<Row>, daily: map<RowKey, Counters>,
                                 start: string, end: string, iface: string)
  {
    && (forall i :: 0 <= i < |rows| ==>
          var rk := RowKey(rows[i].key, rows[i].day);
          rk in daily && daily[rk] == rows[i].counters && InRange(rk, start, end, iface))
    && (forall i, j :: 0 <= i < j < |rows| ==> rows[i].key != rows[j].key || rows[i].day != rows[j].day)
    && (forall rk :: rk in daily && InRange(rk, start, end, iface) ==>
          exists i :: 0 <= i < |rows| && rows[i].key == rk.key && rows[i].day == rk.day)
  }

  /** The same with days for bounds. */
  ghost predicate IsDayListing(rows: seq<Row>, daily: map<RowKey, Counters>, lo: Day, hi: Day, iface: string) {
    && (forall i :: 0 <= i < |rows| ==>
          var rk := RowKey(rows[i].key, rows[i].day);
          rk in daily && daily[rk] == rows[i].counters && Within(rk, lo, hi, iface))
    && (forall i, j :: 0 <= i < j < |rows| ==> rows[i].key != rows[j].key || rows[i].day != rows[j].day)
    && (forall rk :: rk in daily && Within(rk, lo, hi, iface) ==>
          exists i :: 0 <= i < |rows| && rows[i].key == rk.key && rows[i].day == rk.day)
  }

  predicate Within(rk: RowKey, lo: Day, hi: Day, iface: string) {
    lo <= rk.day <= hi && (iface == "" || rk.key.iface == iface)
  }

  lemma InRangeByDay(rk: RowKey, lo: Day, hi: Day, iface: string)
    ensures InRange(rk, Text(lo), Text(hi), iface) <==> Within(rk, lo, hi, iface)
  {
    TextOrder(rk.day, lo);
    TextOrder(hi, rk.day);
  }

  /** Comparing date texts selects exactly the rows between the two days. */
  lemma TextListingIsDayListing(rows: seq<Row>, daily: map<RowKey, Counters>, lo: Day, hi: Day, iface: string)
    ensures IsDailyListing(rows, daily, Text(lo), Text(hi), iface) <==> IsDayListing(rows, daily, lo, hi, iface)
  {
    forall rk: RowKey
      ensures InRange(rk, Text(lo), Text(hi), iface) <==> Within(rk, lo, hi, iface)
    {
      InRangeByDay(rk, lo, hi, iface);
    }
    SameRange(rows, daily, Text(lo), Text(hi), lo, hi, iface);
  }

  lemma SameRange(rows: seq<Row>, daily: map<RowKey, Counters>,
                  start: string, end: string, lo: Day, hi: Day, iface: string)
    requires forall rk: RowKey :: InRange(rk, start, end, iface) <==> Within(rk, lo, hi, iface)
    ensures IsDailyListing(rows, daily, start, end, iface) <==> IsDayListing(rows, daily, lo, hi, iface)
  {
  }

  /** The live rows of one key, by day. */
  function Live(daily: map<RowKey, Counters>, k: Key, f: Field): nat -> nat {
    (d: nat) => if d < DAYS then At(daily, RowKey(k, d), f) else 0
  }

  /** Rows of the listing that lie in the range and belong to `k`, as a table of their own. */
  ghost predicate Covers(rows: seq<Row>, daily: map<RowKey, Counters>, k: Key, lo: nat, hi: nat) {
    && (forall i :: 0 <= i < |rows| && rows[i].key == k ==>
          var rk := RowKey(k, rows[i].day);
          lo <= rows[i].day < hi && rk in daily && daily[rk] == rows[i].counters)
    && (forall i, j :: 0 <= i < j < |rows| ==> rows[i].key != rows[j].key || rows[i].day != rows[j].day)
    && (forall d: Day :: lo <= d < hi && RowKey(k, d) in daily ==>
          exists i :: 0 <= i < |rows| && rows[i].key == k && rows[i].day == d)
  }

  /** Adding up a scan row by row gives the sum over the days. */
  lemma {:induction false} ScanSum(rows: seq<Row>, daily: map<RowKey, Counters>, k: Key, lo: nat, hi: nat, f: Field)
    requires hi <= DAYS && Covers(rows, daily, k, lo, hi)
    ensures RowSum(rows, |rows|, k, f) == SumOver(Live(daily, k, f), lo, hi)
    decreases |rows|
  {
    if rows == [] {
      SumZero(Live(daily, k, f), lo, hi);
    } else {
      var n := |rows| - 1;
      var front, last := rows[..n], rows[n];
      var rest := if last.key == k then daily - {RowKey(k, last.day)} else daily;
      CoversFront(rows, daily, k, lo, hi);
      ScanSum(front, rest, k, lo, hi, f);
      LastRowSum(rows, k, f);
      if last.key == k {
        RemoveRow(daily, k, last.day, lo, hi, f);
      }
    }
  }

  lemma LastRowSum(rows: seq<Row>, k: Key, f: Field)
    requires rows != []
    ensures var n := |rows| - 1;
            RowSum(rows, |rows|, k, f)
              == RowSum(rows[..n], n, k, f) + (if rows[n].key == k then Get(rows[n].counters, f) else 0)
  {
    var n := |rows| - 1;
    SumEq(RowShares(rows, k, f), RowShares(rows[..n], k, f), 0, n);
    RowSumStep(rows, n, k, f);
  }

  lemma CoversFront(rows: seq<Row>, daily: map<RowKey, Counters>, k: Key, lo: nat, hi: nat)
    requires rows != [] && Covers(rows, daily, k, lo, hi)
    ensures var n := |rows| - 1;
            Covers(rows[..n], if rows[n].key == k then daily - {RowKey(k, rows[n].day)} else daily, k, lo, hi)
  {
    var n := |rows| - 1;
    var rest := if rows[n].key == k then daily - {RowKey(k, rows[n].day)} else daily;
    forall d: Day | lo <= d < hi && RowKey(k, d) in rest
      ensures exists i :: 0 <= i < n && rows[..n][i].key == k && rows[..n][i].day == d
    {
      var i :| 0 <= i < |rows| && rows[i].key == k && rows[i].day == d;
      assert rows[..n][i] == rows[i];
    }
  }

  lemma RemoveRow(daily: map<RowKey, Counters>, k: Key, day: Day, lo: nat, hi: nat, f: Field)
    requires lo <= day < hi <= DAYS && RowKey(k, day) in daily
    ensures SumOver(Live(daily, k, f), lo, hi)
            == SumOver(Live(daily - {RowKey(k, day)}, k, f), lo, hi) + Get(daily[RowKey(k, day)], f)
  {
    SumUpdate(Live(daily, k, f), Live(daily - {RowKey(k, day)}, k, f), day, lo, hi);
  }

  /** What a date-range query answers for a key (a missing record counts as zero). */
  function Answer(rows: seq<Row>, k: Key, f: Field): nat {
    RowSum(rows, |rows|, k, f) % WORD
  }

  lemma ListingSum(rows: seq<Row>, daily: map<RowKey, Counters>, lo: Day, hi: Day, iface: string, k: Key, f: Field)
    requires lo <= hi && IsDayListing(rows, daily, lo, hi, iface) && (iface == "" || k.iface == iface)
    ensures RowSum(rows, |rows|, k, f) == SumOver(Live(daily, k, f), lo, hi as nat + 1)
  {
    forall d: Day | lo <= d < hi as nat + 1 && RowKey(k, d) in daily
      ensures exists i :: 0 <= i < |rows| && rows[i].key == k && rows[i].day == d
    {
      assert Within(RowKey(k, d), lo, hi, iface);
    }
    ScanSum(rows, daily, k, lo, hi as nat + 1, f);
  }

  // ---------------------------------------------------------------- windows of a reachable database

  datatype Window = Today | SevenDays | ThirtyDays | Month

  function FirstDay(w: Window, today: Day): (d: Day)
    requires 30 <= today
    ensures d <= today <= d + 30
  {
    match w
    case Today => today
    case SevenDays => today - 6
    case ThirtyDays => today - 29
    case Month => StartOfMonth(today)
  }

  /** The days a window covers on a given date. */
  predicate InWindow(w: Window, day: Day, today: Day) {
    match w
    case Today => day == today
    case SevenDays => day <= today && today - day < 7
    case ThirtyDays => day <= today && today - day < 30
    case Month => day <= today && DateOf(day).year == DateOf(today).year && DateOf(day).month == DateOf(today).month
  }

  lemma WindowDays(w: Window, day: Day, today: Day)
    requires 30 <= today
    ensures FirstDay(w, today) <= day <= today <==> InWindow(w, day, today)
  {
    if w.Month? {
      SameMonth(day, today);
    }
  }

  lemma SameMonth(day: Day, today: Day)
    ensures StartOfMonth(today) <= day <= today
            <==> day <= today && DateOf(day).year == DateOf(today).year && DateOf(day).month == DateOf(today).month
  {
    StartOfMonthDate(today);
    DateOrder(day, StartOfMonth(today));
    DateOrder(today, day);
  }

  /** The text bounds of a window select exactly its days. */
  lemma WindowRange(w: Window, today: Day, rk: RowKey, iface: string)
    requires 30 <= today
    ensures InRange(rk, Text(FirstDay(w, today)), Text(today), iface)
            <==> InWindow(w, rk.day, today) && (iface == "" || rk.key.iface == iface)
  {
    InRangeByDay(rk, FirstDay(w, today), today, iface);
    WindowDays(w, rk.day, today);
  }

  /** The live rows of one key on the days of a window. */
  function WindowRows(daily: map<RowKey, Counters>, w: Window, today: Day, k: Key, f: Field): nat -> nat {
    (d: nat) => if d < DAYS && InWindow(w, d, today) then At(daily, RowKey(k, d), f) else 0
  }

  function WindowSum(daily: map<RowKey, Counters>, w: Window, today: Day, k: Key, f: Field): nat {
    SumOver(WindowRows(daily, w, today, k, f), 0, DAYS)
  }

  /** A scan with the text bounds of a window adds up to the key's rows on the days of the window. */
  lemma ScanIsWindowSum(rows: seq<Row>, daily: map<RowKey, Counters>, w: Window, today: Day,
                        iface: string, k: Key, f: Field)
    requires 30 <= today && (iface == "" || k.iface == iface)
    requires IsDailyListing(rows, daily, Text(FirstDay(w, today)), Text(today), iface)
    ensures RowSum(rows, |rows|, k, f) == WindowSum(daily, w, today, k, f)
  {
    var lo := FirstDay(w, today);
    TextListingIsDayListing(rows, daily, lo, today, iface);
    ListingSum(rows, daily, lo, today, iface, k, f);
    DaysOfWindow(daily, w, today, k, f);
  }

  lemma DaysOfWindow(daily: map<RowKey, Counters>, w: Window, today: Day, k: Key, f: Field)
    requires 30 <= today
    ensures SumOver(Live(daily, k, f), FirstDay(w, today), today as nat + 1) == WindowSum(daily, w, today, k, f)
  {
    var lo: nat, hi, g := FirstDay(w, today), today as nat + 1, WindowRows(daily, w, today, k, f);
    forall d: Day
      ensures g(d) == if lo <= d < hi then Live(daily, k, f)(d) else 0
    {
      WindowDays(w, d, today);
    }
    SumRestricted(g, Live(daily, k, f), lo, hi, DAYS);
  }

  /** The keys with a live row in the window that the client asked for. */
  ghost function WindowKeys(daily: map<RowKey, Counters>, w: Window, today: Day,
                            iface: string, filter: string): set<Key>
    requires IsMacFilter(filter)
  {
    set rk | && rk in daily && InWindow(w, rk.day, today)
             && (iface == "" || rk.key.iface == iface) && Wanted(rk.key, filter) :: rk.key
  }

  lemma ScanShowsWindowKeys(rows: seq<Row>, daily: map<RowKey, Counters>, w: Window, today: Day,
                            iface: string, filter: string)
    requires 30 <= today && IsMacFilter(filter)
    requires IsDailyListing(rows, daily, Text(FirstDay(w, today)), Text(today), iface)
    ensures KeysUpTo(rows, |rows|, filter) == WindowKeys(daily, w, today, iface, filter)
  {
    KeysAreWanted(rows, filter);
    forall rk: RowKey
      ensures InRange(rk, Text(FirstDay(w, today)), Text(today), iface)
              <==> InWindow(w, rk.day, today) && (iface == "" || rk.key.iface == iface)
    {
      WindowRange(w, today, rk, iface);
    }
    forall k
      ensures k in WantedKeys(rows, filter) <==> k in WindowKeys(daily, w, today, iface, filter)
    {
      ScannedKey(rows, daily, Text(FirstDay(w, today)), Text(today), iface, k);
    }
  }

  lemma ScannedKey(rows: seq<Row>, daily: map<RowKey, Counters>, start: string, end: string, iface: string, k: Key)
    requires IsDailyListing(rows, daily, start, end, iface)
    ensures (exists i :: 0 <= i < |rows| && rows[i].key == k)
            <==> exists rk :: rk in daily && InRange(rk, start, end, iface) && rk.key == k
  {
    if i :| 0 <= i < |rows| && rows[i].key == k {
      assert RowKey(k, rows[i].day) in daily;
    }
  }

  function WindowName(w: Window): string {
    match w case Today => "today" case SevenDays => "7days" case ThirtyDays => "30days" case Month => "month"
  }

  /** The query for a window on date `today`, through the repository's `scan` of the daily rows:
      the page shows the keys with a live row on a day of the window, each with the sums over
      exactly those days. */
  method QueryWindow(w: Window, today: Day, scan: (string, string) -> seq<Row>, filter: string, limit: nat, offset: nat,
                     order: seq<Key>, ghost daily: map<RowKey, Counters>, ghost iface: string)
    returns (records: seq<TrafficRecord>)
    requires 30 <= today && IsMacFilter(filter)
    requires forall start, end :: IsDailyListing(scan(start, end), daily, start, end, iface)
    requires Enumerates(order, WindowKeys(daily, w, today, iface, filter))
    ensures |records| == PageSize(|WindowKeys(daily, w, today, iface, filter)|, offset, limit)
    ensures |records| == |Page(order, offset, limit)|
    ensures forall i :: 0 <= i < |records| ==>
              ShowsWindow(records[i], Page(order, offset, limit)[i], daily, w, today)
  {
    var rows := scan(Text(FirstDay(w, today)), Text(today));
    ScanShowsWindowKeys(rows, daily, w, today, iface, filter);
    records := QueryDateRange(rows, filter, limit, offset, WindowName(w), order);
    forall i | 0 <= i < |records|
      ensures ShowsWindow(records[i], Page(order, offset, limit)[i], daily, w, today)
    {
      var k := Page(order, offset, limit)[i];
      forall f
        ensures RowSum(rows, |rows|, k, f) == WindowSum(daily, w, today, k, f)
      {
        ScanIsWindowSum(rows, daily, w, today, iface, k, f);
      }
      RecordShowsWindow(records[i], k, rows, daily, w, today);
    }
  }

  /** The record has the key's name for the window and its sums over the days of the window. */
  ghost predicate ShowsWindow(r: TrafficRecord, k: Key, daily: map<RowKey, Counters>, w: Window, today: Day) {
    && r.iface == k.iface && r.ifindex == k.ifindex && r.mac == MacToString(k.mac)
    && (w == Today ==> r.window == "today") && (w == SevenDays ==> r.window == "7days")
    && (w == ThirtyDays ==> r.window == "30days") && (w == Month ==> r.window == "month")
    && forall f :: Get(r.counters, f) == WindowSum(daily, w, today, k, f) % WORD
  }

  lemma RecordShowsWindow(r: TrafficRecord, k: Key, rows: seq<Row>, daily: map<RowKey, Counters>, w: Window, today: Day)
    requires Shows(r, k, rows, WindowName(w))
    requires forall f :: RowSum(rows, |rows|, k, f) == WindowSum(daily, w, today, k, f)
    ensures ShowsWindow(r, k, daily, w, today)
  {
  }

  /** A window's answer is the sum of the key's live rows in it, and no more than the total. */
  lemma WindowWithinTotal(world: Pipeline.World, lo: Day, hi: Day, rows: seq<Row>, k: Key, f: Field)
    requires lo <= hi && IsDayListing(rows, world.db.daily, lo, hi, "")
    requires Pipeline.Ledger(world, k, f) && At(world.db.totals, k, f) < WORD
    ensures Answer(rows, k, f) == SumOver(Live(world.db.daily, k, f), lo, hi as nat + 1)
    ensures Answer(rows, k, f) <= At(world.db.totals, k, f)
  {
    LiveWithinBooked(world, k, f);
    SumNarrow(Live(world.db.daily, k, f), 0, lo, hi as nat + 1, DAYS);
    ListingSum(rows, world.db.daily, lo, hi, "", k, f);
    SmallWord(RowSum(rows, |rows|, k, f));
  }

  lemma SmallWord(x: nat)
    requires x < WORD
    ensures x % WORD == x
  {
  }

  lemma LiveWithinBooked(w: Pipeline.World, k: Key, f: Field)
    ensures SumOver(Live(w.db.daily, k, f), 0, DAYS) <= SumOver(Pipeline.Booked(w, k, f), 0, DAYS)
  {
    SumLeq(Live(w.db.daily, k, f), Pipeline.Booked(w, k, f), 0, DAYS);
  }

  /** Every key the first scan shows is shown by the second, with no less in field `f`. */
  ghost predicate ShowsNoLess(a: seq<Row>, b: seq<Row>, k: Key, f: Field) {
    && (forall filter :: k in KeysUpTo(a, |a|, filter) ==> k in KeysUpTo(b, |b|, filter))
    && (forall r, s, u, v :: Shows(r, k, a, u) && Shows(s, k, b, v) ==> Get(r.counters, f) <= Get(s.counters, f))
  }

  /** The same with the scan of the totals for the second. */
  ghost predicate TotalsShowNoLess(a: seq<Row>, totals: seq<TotalRow>, k: Key, f: Field) {
    && (forall filter :: k in KeysUpTo(a, |a|, filter) ==> k in KeysOf(totals) && PassesMac(k, filter))
    && (forall r, u, i :: Shows(r, k, a, u) && 0 <= i < |totals| && totals[i].key == k ==>
          Get(r.counters, f) <= Get(totals[i].counters, f))
  }

  /** For every database reachable by flushes and prunes, whatever the request date, the records
      shown for today, 7days, 30days and all, and for today, month and all, are ordered field by
      field, and a key shown by one of them is shown by the next. */
  lemma WindowsNest(start: Day, steps: seq<Pipeline.Step>, today: Day, listing: Window -> seq<Row>,
                    totals: seq<TotalRow>, k: Key, f: Field)
    requires 30 <= today
    requires var db := Pipeline.Exec(Pipeline.Init(start), steps).db;
             && IsTotalListing(totals, db.totals, "")
             && forall w :: IsDailyListing(listing(w), db.daily, Text(FirstDay(w, today)), Text(today), "")
    ensures ShowsNoLess(listing(Today), listing(SevenDays), k, f)
    ensures ShowsNoLess(listing(SevenDays), listing(ThirtyDays), k, f)
    ensures ShowsNoLess(listing(Today), listing(Month), k, f)
    ensures TotalsShowNoLess(listing(ThirtyDays), totals, k, f) && TotalsShowNoLess(listing(Month), totals, k, f)
  {
    var world := Pipeline.Exec(Pipeline.Init(start), steps);
    Pipeline.TotalIsLivePlusPruned(start, steps, k, f);
    Pipeline.RowsHaveTotals(start, steps);
    ScannedTotalFits(totals, world.db.totals, k, f);
    ListingsByDay(listing, world.db.daily, today);
    var seven, thirty, month := FirstDay(SevenDays, today), FirstDay(ThirtyDays, today), FirstDay(Month, today);
    Nested(world, today, seven, today, listing(Today), listing(SevenDays), k, f);
    Nested(world, seven, thirty, today, listing(SevenDays), listing(ThirtyDays), k, f);
    Nested(world, today, month, today, listing(Today), listing(Month), k, f);
    WithinTotals(world, thirty, today, listing(ThirtyDays), totals, k, f);
    WithinTotals(world, month, today, listing(Month), totals, k, f);
  }

  lemma ListingsByDay(listing: Window -> seq<Row>, daily: map<RowKey, Counters>, today: Day)
    requires 30 <= today
    requires forall w :: IsDailyListing(listing(w), daily, Text(FirstDay(w, today)), Text(today), "")
    ensures forall w :: IsDayListing(listing(w), daily, FirstDay(w, today), today, "")
  {
    forall w
      ensures IsDayListing(listing(w), daily, FirstDay(w, today), today, "")
    {
      TextListingIsDayListing(listing(w), daily, FirstDay(w, today), today, "");
    }
  }

  /** What a record shows is the answer for its key. */
  lemma ShownIsAnswer(r: TrafficRecord, k: Key, rows: seq<Row>, window: string, f: Field)
    requires Shows(r, k, rows, window)
    ensures Get(r.counters, f) == Answer(rows, k, f)
  {
  }

  lemma Nested(world: Pipeline.World, inner: Day, outer: Day, hi: Day, a: seq<Row>, b: seq<Row>, k: Key, f: Field)
    requires outer <= inner <= hi
    requires IsDayListing(a, world.db.daily, inner, hi, "") && IsDayListing(b, world.db.daily, outer, hi, "")
    requires Pipeline.Ledger(world, k, f) && At(world.db.totals, k, f) < WORD
    ensures ShowsNoLess(a, b, k, f)
  {
    AnswersNest(world, inner, outer, hi, a, b, k, f);
    KeysNest(a, b, world.db.daily, inner, outer, hi, k);
    forall r, s, u, v | Shows(r, k, a, u) && Shows(s, k, b, v)
      ensures Get(r.counters, f) <= Get(s.counters, f)
    {
      ShownIsAnswer(r, k, a, u, f);
      ShownIsAnswer(s, k, b, v, f);
    }
  }

  lemma WithinTotals(world: Pipeline.World, lo: Day, hi: Day, a: seq<Row>, totals: seq<TotalRow>, k: Key, f: Field)
    requires lo <= hi && IsDayListing(a, world.db.daily, lo, hi, "") && IsTotalListing(totals, world.db.totals, "")
    requires Pipeline.Ledger(world, k, f) && At(world.db.totals, k, f) < WORD
    requires forall rk :: rk in world.db.daily ==> rk.key in world.db.totals
    ensures TotalsShowNoLess(a, totals, k, f)
  {
    WindowWithinTotal(world, lo, hi, a, k, f);
    KeysListed(totals, world.db.totals, "", k);
    forall r, u, i | Shows(r, k, a, u) && 0 <= i < |totals| && totals[i].key == k
      ensures Get(r.counters, f) <= Get(totals[i].counters, f)
    {
      ShownIsAnswer(r, k, a, u, f);
    }
  }

  /** A total that was scanned into unsigned integers fits them. */
  lemma ScannedTotalFits(totals: seq<TotalRow>, table: map<Key, Counters>, k: Key, f: Field)
    requires IsTotalListing(totals, table, "")
    ensures At(table, k, f) < WORD
  {
    if k in table {
      var i :| 0 <= i < |totals| && totals[i].key == k;
      GetFits(totals[i].counters, f);
    }
  }

  lemma KeysNest(a: seq<Row>, b: seq<Row>, daily: map<RowKey, Counters>, inner: Day, outer: Day, hi: Day, k: Key)
    requires outer <= inner && IsDayListing(a, daily, inner, hi, "") && IsDayListing(b, daily, outer, hi, "")
    ensures forall filter :: k in KeysUpTo(a, |a|, filter) ==> k in KeysUpTo(b, |b|, filter)
  {
    forall filter | k in KeysUpTo(a, |a|, filter)
      ensures k in KeysUpTo(b, |b|, filter)
    {
      var i :| 0 <= i < |a| && PassesMac(a[i].key, filter) && a[i].key == k;
      assert Within(RowKey(k, a[i].day), outer, hi, "");
      var j :| 0 <= j < |b| && b[j].key == k && b[j].day == a[i].day;
    }
  }

  lemma AnswersNest(world: Pipeline.World, inner: Day, outer: Day, hi: Day, a: seq<Row>, b: seq<Row>, k: Key, f: Field)
    requires outer <= inner <= hi
    requires IsDayListing(a, world.db.daily, inner, hi, "") && IsDayListing(b, world.db.daily, outer, hi, "")
    requires Pipeline.Ledger(world, k, f) && At(world.db.totals, k, f) < WORD
    ensures Answer(a, k, f) <= Answer(b, k, f) <= At(world.db.totals, k, f)
  {
    WindowWithinTotal(world, inner, hi, a, k, f);
    WindowWithinTotal(world, outer, hi, b, k, f);
    var end: nat := hi as nat + 1;
    SumNarrow(Live(world.db.daily, k, f), outer, inner, end, end);
  }

  /** Pruning leaves a date-range scan as it was if and only if no row of the scan is older than
      the cutoff. */
  lemma PruneKeepsListing(rows: seq<Row>, db: Db, start: string, end: string, iface: string, cutoff: Day)
    requires IsDailyListing(rows, db.daily, start, end, iface)
    ensures IsDailyListing(rows, Prune(db, cutoff).daily, start, end, iface)
            <==> forall i :: 0 <= i < |rows| ==> cutoff <= rows[i].day
  {
    var daily := Prune(db, cutoff).daily;
    if IsDailyListing(rows, daily, start, end, iface) {
      forall i | 0 <= i < |rows|
        ensures cutoff <= rows[i].day
      {
        assert RowKey(rows[i].key, rows[i].day) in daily;
      }
    }
  }

  /** Housekeeping on any day up to the request's never changes the answer of a today, 7days,
      30days or month query: the scan it makes with text bounds is the same. */
  lemma RetentionSparesWindows(rows: seq<Row>, db: Db, w: Window, today: Day, pruneDay: Day, iface: string)
    requires 400 <= pruneDay <= today
    requires IsDailyListing(rows, db.daily, Text(FirstDay(w, today)), Text(today), iface)
    ensures IsDailyListing(rows, Prune(db, pruneDay - 400).daily, Text(FirstDay(w, today)), Text(today), iface)
  {
    DaysInRange(rows, db.daily, FirstDay(w, today), today, iface);
    PruneKeepsListing(rows, db, Text(FirstDay(w, today)), Text(today), iface, pruneDay - 400);
  }

  /** Nor does it change any window's sum. */
  lemma RetentionSparesSums(db: Db, w: Window, today: Day, pruneDay: Day, k: Key, f: Field)
    requires 400 <= pruneDay <= today
    ensures WindowSum(Prune(db, pruneDay - 400).daily, w, today, k, f) == WindowSum(db.daily, w, today, k, f)
  {
    var g, h := WindowRows(Prune(db, pruneDay - 400).daily, w, today, k, f), WindowRows(db.daily, w, today, k, f);
    forall d | 0 <= d < DAYS
      ensures g(d) == h(d)
    {
      WindowDays(w, d, today);
    }
    SumEq(g, h, 0, DAYS);
  }

  lemma DaysInRange(rows: seq<Row>, daily: map<RowKey, Counters>, lo: Day, hi: Day, iface: string)
    ensures IsDailyListing(rows, daily, Text(lo), Text(hi), iface) ==>
              forall i :: 0 <= i < |rows| ==> lo <= rows[i].day <= hi
  {
    TextListingIsDayListing(rows, daily, lo, hi, iface);
  }

  /** Flushes store the interface name empty, so a query with an interface filter matches no row
      of any reachable database, neither daily nor total. */
  lemma InterfaceFilterMatchesNothing(start: Day, steps: seq<Pipeline.Step>, from: string, to: string, iface: string)
    requires iface != ""
    ensures var db := Pipeline.Exec(Pipeline.Init(start), steps).db;
            && (forall rk :: rk in db.daily ==> !InRange(rk, from, to, iface))
            && (forall k :: k in db.totals ==> k.iface != iface)
  {
    Pipeline.InterfaceNamesStayEmpty(start, steps);
  }

  // ---------------------------------------------------------------- ORDER BY

  /** The BLOB order of a MAC is the text order of its bytes. */
  function Blob(m: Mac): string {
    seq(6, i requires 0 <= i < 6 => m[i] as char)
  }

  /** `ORDER BY interface_name, ifindex, mac`. */
  predicate KeyLess(a: Key, b: Key) {
    || Lex.Less(a.iface, b.iface)
    || (a.iface == b.iface && (a.ifindex < b.ifindex || (a.ifindex == b.ifindex && Lex.Less(Blob(a.mac), Blob(b.mac)))))
  }

  lemma KeyLessAsymmetric(a: Key, b: Key)
    requires KeyLess(a, b)
    ensures !KeyLess(b, a) && a != b
  {
    Lex.Irreflexive(a.iface);
    Lex.Irreflexive(Blob(a.mac));
    if Lex.Less(a.iface, b.iface) && Lex.Less(b.iface, a.iface) {
      Lex.Transitive(a.iface, b.iface, a.iface);
    }
    if Lex.Less(Blob(a.mac), Blob(b.mac)) && Lex.Less(Blob(b.mac), Blob(a.mac)) {
      Lex.Transitive(Blob(a.mac), Blob(b.mac), Blob(a.mac));
    }
  }

  /** `rows` is the ordered scan of the totals. */
  ghost predicate IsTotalListing(rows: seq<TotalRow>, totals: map<Key, Counters>, iface: string) {
    && (forall i :: 0 <= i < |rows| ==>
          && rows[i].key in totals && totals[rows[i].key] == rows[i].counters
          && (iface == "" || rows[i].key.iface == iface))
    && (forall i, j :: 0 <= i < j < |rows| ==> KeyLess(rows[i].key, rows[j].key))
    && (forall k :: k in totals && (iface == "" || k.iface == iface) ==>
          exists i :: 0 <= i < |rows| && rows[i].key == k)
  }

  /** The scan goes by interface name, then by index, then by the bytes of the MAC. */
  lemma ListingOrder(rows: seq<TotalRow>, totals: map<Key, Counters>, iface: string, i: nat, j: nat)
    requires IsTotalListing(rows, totals, iface) && i < j < |rows|
    ensures var a, b := rows[i].key, rows[j].key;
            && !Lex.Less(b.iface, a.iface)
            && (a.iface == b.iface ==> a.ifindex <= b.ifindex)
            && (a.iface == b.iface && a.ifindex == b.ifindex ==>
                  exists n :: 0 <= n < 6 && a.mac[n] < b.mac[n] && forall m :: 0 <= m < n ==> a.mac[m] == b.mac[m])
  {
    var a, b := rows[i].key, rows[j].key;
    assert KeyLess(a, b);
    Lex.Irreflexive(a.iface);
    if Lex.Less(a.iface, b.iface) && Lex.Less(b.iface, a.iface) {
      Lex.Transitive(a.iface, b.iface, a.iface);
    }
    if a.iface == b.iface && a.ifindex == b.ifindex {
      var n := Lex.FirstDifference(Blob(a.mac), Blob(b.mac));
      assert forall m :: 0 <= m < n ==> Blob(a.mac)[m] == Blob(b.mac)[m];
      assert forall m :: 0 <= m < 6 ==> Blob(a.mac)[m] as int == a.mac[m] && Blob(b.mac)[m] as int == b.mac[m];
    }
  }

  ghost predicate Asymmetric<T(!new)>(less: (T, T) -> bool) {
    forall x, y :: less(x, y) ==> !less(y, x) && x != y
  }

  ghost predicate Sorted<T>(less: (T, T) -> bool, s: seq<T>) {
    forall i, j :: 0 <= i < j < |s| ==> less(s[i], s[j])
  }

  /** Two strictly sorted sequences with the same elements agree on every prefix. */
  lemma {:induction false} SortedPrefixes<T(!new)>(less: (T, T) -> bool, a: seq<T>, b: seq<T>, n: nat)
    requires Asymmetric(less) && Sorted(less, a) && Sorted(less, b) && n <= |a|
    requires forall x :: x in a <==> x in b
    ensures n <= |b| && a[..n] == b[..n]
  {
    if n > 0 {
      var m := n - 1;
      SortedPrefixes(less, a, b, m);
      SortedNext(less, a, b, m);
      assert a[..n] == a[..m] + [a[m]] && b[..n] == b[..m] + [b[m]];
    }
  }

  lemma SortedNext<T(!new)>(less: (T, T) -> bool, a: seq<T>, b: seq<T>, m: nat)
    requires Asymmetric(less) && Sorted(less, a) && Sorted(less, b) && m < |a|
    requires forall x :: x in a <==> x in b
    requires m <= |b| && a[..m] == b[..m]
    ensures m < |b| && a[m] == b[m]
  {
    forall i | 0 <= i < m
      ensures a[i] == b[i]
    {
      assert a[..m][i] == b[..m][i];
    }
    assert a[m] in b;
    var i :| 0 <= i < |b| && b[i] == a[m];
    assert m <= i;
    assert b[m] in a;
    var j :| 0 <= j < |a| && a[j] == b[m];
    assert m <= j;
  }

  function KeysOf(rows: seq<TotalRow>): (ks: seq<Key>)
    ensures |ks| == |rows| && forall i :: 0 <= i < |rows| ==> ks[i] == rows[i].key
  {
    seq(|rows|, i requires 0 <= i < |rows| => rows[i].key)
  }

  lemma KeysListed(rows: seq<TotalRow>, totals: map<Key, Counters>, iface: string, k: Key)
    requires IsTotalListing(rows, totals, iface)
    ensures k in KeysOf(rows) <==> k in totals && (iface == "" || k.iface == iface)
  {
    if k in totals && (iface == "" || k.iface == iface) {
      var i :| 0 <= i < |rows| && rows[i].key == k;
      assert KeysOf(rows)[i] == k;
    }
  }

  /** Two ordered scans of one table are the same list, so pages requested one after the other
      are pages of one list. */
  lemma TotalListingUnique(a: seq<TotalRow>, b: seq<TotalRow>, totals: map<Key, Counters>, iface: string)
    requires IsTotalListing(a, totals, iface) && IsTotalListing(b, totals, iface)
    ensures a == b
  {
    forall k
      ensures k in KeysOf(a) <==> k in KeysOf(b)
    {
      KeysListed(a, totals, iface, k);
      KeysListed(b, totals, iface, k);
    }
    forall x, y | KeyLess(x, y)
      ensures !KeyLess(y, x) && x != y
    {
      KeyLessAsymmetric(x, y);
    }
    SortedPrefixes(KeyLess, KeysOf(a), KeysOf(b), |a|);
    SortedPrefixes(KeyLess, KeysOf(b), KeysOf(a), |b|);
    assert KeysOf(a) == KeysOf(a)[..|a|] && KeysOf(b) == KeysOf(b)[..|b|];
    forall i | 0 <= i < |a|
      ensures a[i] == b[i]
    {
      assert KeysOf(a)[i] == KeysOf(b)[i];
    }
  }
}
