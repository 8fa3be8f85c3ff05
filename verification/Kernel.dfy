/** The packet handlers of `bpf/ingress.c` as concurrent step sequences over the shared map.

Each packet starts a handler. A handler looks its key up; on a miss it inserts a zeroed
counter (replacing whatever is there by then, BPF_ANY) and looks up again; then it performs
four separate atomic additions through the pointer it holds. Steps of different handlers
interleave arbitrarily. A cell stays allocated while a handler holds a pointer to it: cells
are numbered in order of allocation and never reused.
 */
module Kernel {
  import opened Counters
  import opened Store
  import opened Sums

  const MAX_ENTRIES: nat := 262144

  datatype TrafficKey = TrafficKey(ifindex: nat, mac: Mac)

  /** A frame shorter than an Ethernet header is not accounted. */
  datatype Frame = Frame(direction: Direction, ifindex: nat, dest: Mac, source: Mac, len: nat, short: bool)

  /** The destination owns incoming traffic, the source outgoing traffic. */
  function KeyOf(p: Frame): TrafficKey {
    TrafficKey(p.ifindex, match p.direction case Ingress => p.dest case Egress => p.source)
  }

  datatype Pc =
    | AtLookup
    | AtInsert
    | AtRelookup
    | Adding(cell: nat, done: nat)   // `done` of the four additions have been performed
    | Refused                        // no counter after the insertion attempt, or a short frame

  datatype Handler = Handler(frame: Frame, pc: Pc)

  datatype Cell = Cell(key: TrafficKey, value: Raw)

  datatype State = State(cells: seq<Cell>, table: map<TrafficKey, nat>, handlers: seq<Handler>)

  const BOOT := State([], map[], [])

  /** `Arrive` starts a handler; `Run` performs its next step. `room` says whether an insertion
      of a new key finds memory, provided the map is not full. */
  datatype Step = Arrive(frame: Frame) | Run(handler: nat, room: bool)

  /** The first `done` additions of a packet of this direction and length. */
  function Added(p: Frame, done: nat): Counters {
    var total := Tally(if 1 <= done then p.len else 0, if 2 <= done then 1 else 0);
    var directed := Tally(if 3 <= done then p.len else 0, if 4 <= done then 1 else 0);
    match p.direction
    case Ingress => Counters(total, directed, Tally(0, 0))
    case Egress => Counters(total, Tally(0, 0), directed)
  }

  /** The addition number `done` alone. */
  function NthAddition(p: Frame, done: nat): Counters {
    var total := Tally(if done == 0 then p.len else 0, if done == 1 then 1 else 0);
    var directed := Tally(if done == 2 then p.len else 0, if done == 3 then 1 else 0);
    match p.direction
    case Ingress => Counters(total, directed, Tally(0, 0))
    case Egress => Counters(total, Tally(0, 0), directed)
  }

  function SetPc(s: State, h: nat, pc: Pc): State
    requires h < |s.handlers|
  {
    s.(handlers := s.handlers[h := s.handlers[h].(pc := pc)])
  }

  /** Insertion with BPF_ANY: a fresh zeroed cell becomes the counter of `key`. */
  function Insert(s: State, key: TrafficKey): State {
    s.(cells := s.cells + [Cell(key, ZERO)], table := s.table[key := |s.cells|])
  }

  predicate CanInsert(s: State, key: TrafficKey, room: bool) {
    key in s.table || (room && |s.table| < MAX_ENTRIES)
  }

  /** A step that is not possible leaves the state alone. */
  function Next(s: State, step: Step): State {
    match step
    case Arrive(frame) =>
      s.(handlers := s.handlers + [Handler(frame, if frame.short then Refused else AtLookup)])
    case Run(h, room) =>
      if h < |s.handlers| then RunHandler(s, h, room) else s
  }

  function RunHandler(s: State, h: nat, room: bool): State
    requires h < |s.handlers|
  {
    var key := KeyOf(s.handlers[h].frame);
    match s.handlers[h].pc
    case AtLookup =>
      SetPc(s, h, if key in s.table then Adding(s.table[key], 0) else AtInsert)
    case AtInsert =>
      SetPc(if CanInsert(s, key, room) then Insert(s, key) else s, h, AtRelookup)
    case AtRelookup =>
      SetPc(s, h, if key in s.table then Adding(s.table[key], 0) else Refused)
    case Adding(c, done) =>
      if done < 4 && c < |s.cells| then
        var cell := s.cells[c];
        SetPc(s.(cells := s.cells[c := cell.(value := Add64(cell.value, NthAddition(s.handlers[h].frame, done)))]),
              h, Adding(c, done + 1))
      else s
    case Refused => s
  }

  function Exec(s: State, steps: seq<Step>): State {
    if steps == [] then s else Next(Exec(s, steps[..|steps| - 1]), steps[|steps| - 1])
  }

  // ---------------------------------------------------------------- what handlers have added

  /** Field `f` of what one handler has added to cell `c` so far. */
  function Share(h: Handler, c: nat, f: Field): nat {
    if h.pc.Adding? && h.pc.cell == c then Get(Added(h.frame, h.pc.done), f) else 0
  }

  function Shares(hs: seq<Handler>, c: nat, f: Field): nat -> nat {
    (i: nat) => if i < |hs| then Share(hs[i], c, f) else 0
  }

  function AddedTo(s: State, c: nat, f: Field): nat {
    SumOver(Shares(s.handlers, c, f), 0, |s.handlers|)
  }

  /** Field `f` of the traffic presented for key `k` so far, counted whole packet by packet. */
  function Presented(h: Handler, k: TrafficKey, f: Field): nat {
    if !h.frame.short && KeyOf(h.frame) == k then Get(Added(h.frame, 4), f) else 0
  }

  function Presentations(hs: seq<Handler>, k: TrafficKey, f: Field): nat -> nat {
    (i: nat) => if i < |hs| then Presented(hs[i], k, f) else 0
  }

  function Traffic(s: State, k: TrafficKey, f: Field): nat {
    SumOver(Presentations(s.handlers, k, f), 0, |s.handlers|)
  }

  /** The counter that a lookup of `k` finds. */
  function Visible(s: State, k: TrafficKey, f: Field): nat {
    if k in s.table && s.table[k] < |s.cells| then Get(s.cells[s.table[k]].value, f) else 0
  }

  ghost predicate Quiescent(s: State) {
    forall i :: 0 <= i < |s.handlers| ==>
      s.handlers[i].pc.Refused? || (s.handlers[i].pc.Adding? && s.handlers[i].pc.done == 4)
  }

  // ---------------------------------------------------------------- the invariant

  ghost predicate WellFormed(s: State) {
    && |s.table| <= MAX_ENTRIES
    && (forall k :: k in s.table ==> s.table[k] < |s.cells| && s.cells[s.table[k]].key == k)
    && (forall i :: 0 <= i < |s.handlers| ==> HandlerOk(s, s.handlers[i]))
  }

  ghost predicate HandlerOk(s: State, h: Handler) {
    && (h.frame.short ==> h.pc.Refused?)
    && (h.pc.Adding? ==> h.pc.cell < |s.cells| && h.pc.done <= 4 && s.cells[h.pc.cell].key == KeyOf(h.frame))
  }

  /** Every cell holds, modulo 2^64, exactly what the handlers have added to it. */
  ghost predicate Accounted(s: State, c: nat, f: Field) {
    c < |s.cells| ==> Get(s.cells[c].value, f) == AddedTo(s, c, f) % WORD
  }

  lemma InsertKeepsCells(s: State, key: TrafficKey, room: bool)
    requires WellFormed(s) && CanInsert(s, key, room)
    ensures WellFormed(Insert(s, key))
  {
    var t := Insert(s, key);
    if key in s.table {
      assert t.table.Keys == s.table.Keys;
    } else {
      assert t.table.Keys == s.table.Keys + {key};
    }
    assert |t.table| == |t.table.Keys| && |s.table| == |s.table.Keys|;
    assert forall i :: 0 <= i < |s.handlers| ==> HandlerOk(s, s.handlers[i]) && HandlerOk(t, t.handlers[i]);
  }

  lemma SetPcWellFormed(s: State, h: nat, pc: Pc)
    requires WellFormed(s) && h < |s.handlers| && HandlerOk(s, s.handlers[h].(pc := pc))
    ensures WellFormed(SetPc(s, h, pc))
  {
    var t := SetPc(s, h, pc);
    forall i | 0 <= i < |t.handlers|
      ensures HandlerOk(t, t.handlers[i])
    {
      assert HandlerOk(s, s.handlers[i]);
    }
  }

  lemma NextWellFormed(s: State, step: Step)
    requires WellFormed(s)
    ensures WellFormed(Next(s, step))
  {
    match step
    case Arrive(frame) =>
      var t := Next(s, step);
      forall i | 0 <= i < |t.handlers|
        ensures HandlerOk(t, t.handlers[i])
      {
        assert i < |s.handlers| ==> HandlerOk(s, s.handlers[i]);
      }
    case Run(h, room) =>
      if h < |s.handlers| {
        RunWellFormed(s, h, room);
      }
  }

  lemma RunWellFormed(s: State, h: nat, room: bool)
    requires WellFormed(s) && h < |s.handlers|
    ensures WellFormed(RunHandler(s, h, room))
  {
    var key := KeyOf(s.handlers[h].frame);
    assert HandlerOk(s, s.handlers[h]);
    match s.handlers[h].pc
    case AtLookup =>
      SetPcWellFormed(s, h, if key in s.table then Adding(s.table[key], 0) else AtInsert);
    case AtInsert =>
      if CanInsert(s, key, room) {
        InsertKeepsCells(s, key, room);
        SetPcWellFormed(Insert(s, key), h, AtRelookup);
      } else {
        SetPcWellFormed(s, h, AtRelookup);
      }
    case AtRelookup =>
      SetPcWellFormed(s, h, if key in s.table then Adding(s.table[key], 0) else Refused);
    case Adding(c, done) =>
      if done < 4 {
        var cell := s.cells[c];
        var t := s.(cells := s.cells[c := cell.(value := Add64(cell.value, NthAddition(s.handlers[h].frame, done)))]);
        forall i | 0 <= i < |t.handlers|
          ensures HandlerOk(t, t.handlers[i])
        {
          assert HandlerOk(s, s.handlers[i]);
        }
        SetPcWellFormed(t, h, Adding(c, done + 1));
      }
    case Refused =>
  }

  lemma AdditionsAddUp(p: Frame, done: nat, f: Field)
    requires done < 4
    ensures Get(Added(p, done + 1), f) == Get(Added(p, done), f) + Get(NthAddition(p, done), f)
  {
  }

  lemma NothingAddedYet(p: Frame, f: Field)
    ensures Get(Added(p, 0), f) == 0
  {
  }

  /** Moving one handler changes the sum over a cell by that handler's own change. */
  lemma SetPcShares(s: State, h: nat, pc: Pc, c: nat, f: Field)
    requires h < |s.handlers|
    ensures AddedTo(SetPc(s, h, pc), c, f) + Share(s.handlers[h], c, f)
            == AddedTo(s, c, f) + Share(s.handlers[h].(pc := pc), c, f)
  {
    var t := SetPc(s, h, pc);
    SumUpdate(Shares(t.handlers, c, f), Shares(s.handlers, c, f), h, 0, |s.handlers|);
  }

  lemma UntouchedCell(s: State, c: nat, f: Field)
    requires WellFormed(s) && |s.cells| <= c
    ensures AddedTo(s, c, f) == 0
  {
    forall i | 0 <= i < |s.handlers|
      ensures Shares(s.handlers, c, f)(i) == 0
    {
      assert HandlerOk(s, s.handlers[i]);
    }
    SumZero(Shares(s.handlers, c, f), 0, |s.handlers|);
  }

  lemma NextAccounted(s: State, step: Step, c: nat, f: Field)
    requires WellFormed(s) && Accounted(s, c, f)
    ensures Accounted(Next(s, step), c, f)
  {
    match step
    case Arrive(frame) =>
      var t := Next(s, step);
      SumEq(Shares(t.handlers, c, f), Shares(s.handlers, c, f), 0, |s.handlers|);
      assert Shares(t.handlers, c, f)(|s.handlers|) == 0;
    case Run(h, room) =>
      if h < |s.handlers| {
        RunAccounted(s, h, room, c, f);
      }
  }

  lemma RunAccounted(s: State, h: nat, room: bool, c: nat, f: Field)
    requires WellFormed(s) && Accounted(s, c, f) && h < |s.handlers|
    ensures Accounted(RunHandler(s, h, room), c, f)
  {
    var key := KeyOf(s.handlers[h].frame);
    match s.handlers[h].pc
    case AtLookup =>
      MoveAccounted(s, h, if key in s.table then Adding(s.table[key], 0) else AtInsert, c, f);
    case AtInsert =>
      if CanInsert(s, key, room) {
        InsertAccounted(s, key, c, f);
        MoveAccounted(Insert(s, key), h, AtRelookup, c, f);
      } else {
        MoveAccounted(s, h, AtRelookup, c, f);
      }
    case AtRelookup =>
      MoveAccounted(s, h, if key in s.table then Adding(s.table[key], 0) else Refused, c, f);
    case Adding(at, done) =>
      if done < 4 {
        AddAccounted(s, h, c, f);
      }
    case Refused =>
  }

  /** A handler that has added nothing moves to a place where it still has added nothing. */
  lemma MoveAccounted(s: State, h: nat, pc: Pc, c: nat, f: Field)
    requires Accounted(s, c, f) && h < |s.handlers|
    requires !s.handlers[h].pc.Adding? && (pc.Adding? ==> pc.done == 0)
    ensures Accounted(SetPc(s, h, pc), c, f)
  {
    NothingAddedYet(s.handlers[h].frame, f);
    SetPcShares(s, h, pc, c, f);
  }

  lemma InsertAccounted(s: State, key: TrafficKey, c: nat, f: Field)
    requires WellFormed(s) && Accounted(s, c, f)
    ensures Accounted(Insert(s, key), c, f)
  {
    UntouchedCell(s, |s.cells|, f);
  }

  lemma AddAccounted(s: State, h: nat, c: nat, f: Field)
    requires WellFormed(s) && Accounted(s, c, f) && h < |s.handlers|
    requires s.handlers[h].pc.Adding? && s.handlers[h].pc.done < 4
    ensures Accounted(RunHandler(s, h, true), c, f)
  {
    var frame, at, done := s.handlers[h].frame, s.handlers[h].pc.cell, s.handlers[h].pc.done;
    AddShares(s, h, c, f);
    if c == at && at < |s.cells| {
      GetAdd64(s.cells[at].value, NthAddition(frame, done), f);
      WordPlus(AddedTo(s, c, f), Get(NthAddition(frame, done), f));
    }
  }

  lemma AddShares(s: State, h: nat, c: nat, f: Field)
    requires WellFormed(s) && h < |s.handlers|
    requires s.handlers[h].pc.Adding? && s.handlers[h].pc.done < 4
    ensures AddedTo(RunHandler(s, h, true), c, f)
            == AddedTo(s, c, f)
             + (if c != s.handlers[h].pc.cell then 0
                else Get(NthAddition(s.handlers[h].frame, s.handlers[h].pc.done), f))
  {
    assert HandlerOk(s, s.handlers[h]);
    var at, done := s.handlers[h].pc.cell, s.handlers[h].pc.done;
    var t := SetPc(s, h, Adding(at, done + 1));
    assert RunHandler(s, h, true).handlers == t.handlers;
    SetPcShares(s, h, Adding(at, done + 1), c, f);
    AdditionsAddUp(s.handlers[h].frame, done, f);
  }

  /** In every reachable state, whatever the interleaving, each cell holds what the handlers
      holding it have added, and the map never exceeds its capacity. */
  lemma {:induction false} ReachableAccounted(steps: seq<Step>, c: nat, f: Field)
    ensures WellFormed(Exec(BOOT, steps)) && Accounted(Exec(BOOT, steps), c, f)
  {
    if steps != [] {
      var front := steps[..|steps| - 1];
      ReachableAccounted(front, c, f);
      NextWellFormed(Exec(BOOT, front), steps[|steps| - 1]);
      NextAccounted(Exec(BOOT, front), steps[|steps| - 1], c, f);
    }
  }

  // ---------------------------------------------------------------- consequences

  /** Bytes (or packets) a handler has added to the total but not yet to its direction. */
  function Lag(h: Handler, c: nat, packets: bool): nat {
    if h.pc.Adding? && h.pc.cell == c then
      if packets then (if 2 <= h.pc.done < 4 then 1 else 0)
      else (if 1 <= h.pc.done < 3 then h.frame.len else 0)
    else 0
  }

  function Lags(hs: seq<Handler>, c: nat, packets: bool): nat -> nat {
    (i: nat) => if i < |hs| then Lag(hs[i], c, packets) else 0
  }

  function InFlight(s: State, c: nat, packets: bool): nat {
    SumOver(Lags(s.handlers, c, packets), 0, |s.handlers|)
  }

  function Whole(packets: bool): Field { if packets then Packets else Bytes }
  function Incoming(packets: bool): Field { if packets then IngressPackets else IngressBytes }
  function Outgoing(packets: bool): Field { if packets then EgressPackets else EgressBytes }

  /** The total of a cell runs ahead of its two directions by exactly the packets in flight
      between their two additions. */
  ghost predicate AheadByInFlight(s: State, c: nat, packets: bool) {
    c < |s.cells| ==>
      var v := s.cells[c].value;
      Get(v, Whole(packets)) ==
        (Get(v, Incoming(packets)) + Get(v, Outgoing(packets)) + InFlight(s, c, packets)) % WORD
  }

  /** In every reachable state each cell is ahead by what is in flight, and at rest by nothing. */
  lemma DirectionsLagByInFlight(steps: seq<Step>, c: nat, packets: bool)
    ensures AheadByInFlight(Exec(BOOT, steps), c, packets)
    ensures Quiescent(Exec(BOOT, steps)) ==> InFlight(Exec(BOOT, steps), c, packets) == 0
  {
    forall f
      ensures Accounted(Exec(BOOT, steps), c, f)
    {
      ReachableAccounted(steps, c, f);
    }
    DirectionsLag(Exec(BOOT, steps), c, packets);
    NothingInFlightAtRest(Exec(BOOT, steps), c, packets);
  }

  lemma NothingInFlightAtRest(s: State, c: nat, packets: bool)
    ensures Quiescent(s) ==> InFlight(s, c, packets) == 0
  {
    if Quiescent(s) {
      SumZero(Lags(s.handlers, c, packets), 0, |s.handlers|);
    }
  }

  lemma DirectionsLag(s: State, c: nat, packets: bool)
    requires forall f :: Accounted(s, c, f)
    ensures AheadByInFlight(s, c, packets)
  {
    assert Accounted(s, c, Whole(packets));
    assert Accounted(s, c, Incoming(packets)) && Accounted(s, c, Outgoing(packets));
    SharesSplit(s.handlers, c, packets, |s.handlers|);
    ThreeWords(AddedTo(s, c, Incoming(packets)), AddedTo(s, c, Outgoing(packets)), InFlight(s, c, packets));
  }

  lemma ThreeWords(x: nat, y: nat, z: nat)
    ensures (x + y + z) % WORD == (x % WORD + y % WORD + z) % WORD
  {
    WordPlus(x, y + z);
    WordPlus(y, x % WORD + z);
  }

  lemma {:induction false} SharesSplit(hs: seq<Handler>, c: nat, packets: bool, n: nat)
    requires n <= |hs|
    ensures SumOver(Shares(hs, c, Whole(packets)), 0, n)
            == SumOver(Shares(hs, c, Incoming(packets)), 0, n)
             + SumOver(Shares(hs, c, Outgoing(packets)), 0, n)
             + SumOver(Lags(hs, c, packets), 0, n)
  {
    if 0 < n {
      SharesSplit(hs, c, packets, n - 1);
      ShareSplit(hs[n - 1], c, packets);
    }
  }

  lemma ShareSplit(h: Handler, c: nat, packets: bool)
    ensures Share(h, c, Whole(packets))
            == Share(h, c, Incoming(packets)) + Share(h, c, Outgoing(packets)) + Lag(h, c, packets)
  {
  }

  /** What the handlers of a key added to its current cell is part of the key's traffic. */
  lemma AddedWithinTraffic(s: State, k: TrafficKey, f: Field)
    requires WellFormed(s) && k in s.table
    ensures AddedTo(s, s.table[k], f) <= Traffic(s, k, f)
  {
    var c := s.table[k];
    forall i | 0 <= i < |s.handlers|
      ensures Shares(s.handlers, c, f)(i) <= Presentations(s.handlers, k, f)(i)
    {
      assert HandlerOk(s, s.handlers[i]);
      AddedPartOfAll(s.handlers[i], f);
    }
    SumLeq(Shares(s.handlers, c, f), Presentations(s.handlers, k, f), 0, |s.handlers|);
  }

  lemma AddedPartOfAll(h: Handler, f: Field)
    ensures h.pc.Adding? ==> Get(Added(h.frame, h.pc.done), f) <= Get(Added(h.frame, 4), f)
  {
  }

  // ---------------------------------------------------------------- whose traffic a frame is

  /** Field `f` of what a frame counts for a MAC at an interface: it is traffic of its destination
      on the way in and of its source on the way out. */
  function CountsFor(p: Frame, ifindex: nat, mac: Mac, f: Field): nat {
    var incoming := !p.short && p.ifindex == ifindex && p.direction == Ingress && p.dest == mac;
    var outgoing := !p.short && p.ifindex == ifindex && p.direction == Egress && p.source == mac;
    match f
    case Bytes => if incoming || outgoing then p.len else 0
    case Packets => if incoming || outgoing then 1 else 0
    case IngressBytes => if incoming then p.len else 0
    case IngressPackets => if incoming then 1 else 0
    case EgressBytes => if outgoing then p.len else 0
    case EgressPackets => if outgoing then 1 else 0
  }

  function FrameCounts(ps: seq<Frame>, ifindex: nat, mac: Mac, f: Field): nat -> nat {
    (i: nat) => if i < |ps| then CountsFor(ps[i], ifindex, mac, f) else 0
  }

  /** The traffic of a MAC at an interface in a sequence of frames. */
  function TrafficOf(ps: seq<Frame>, ifindex: nat, mac: Mac, f: Field): nat {
    SumOver(FrameCounts(ps, ifindex, mac, f), 0, |ps|)
  }

  /** The frames that arrive in a run. */
  function FramesOf(steps: seq<Step>): seq<Frame> {
    if steps == [] then []
    else
      var last := steps[|steps| - 1];
      FramesOf(steps[..|steps| - 1]) + if last.Arrive? then [last.frame] else []
  }

  function HandlerFrames(s: State): (ps: seq<Frame>)
    ensures |ps| == |s.handlers| && forall i :: 0 <= i < |ps| ==> ps[i] == s.handlers[i].frame
  {
    seq(|s.handlers|, i requires 0 <= i < |s.handlers| => s.handlers[i].frame)
  }

  lemma FramesStep(s: State, step: Step)
    ensures HandlerFrames(Next(s, step)) == HandlerFrames(s) + if step.Arrive? then [step.frame] else []
  {
    if step.Run? && step.handler < |s.handlers| {
      OthersUnmoved(s, step.handler, step.room);
    }
  }

  lemma {:induction false} HandlersAreArrivals(steps: seq<Step>)
    ensures HandlerFrames(Exec(BOOT, steps)) == FramesOf(steps)
  {
    if steps != [] {
      HandlersAreArrivals(steps[..|steps| - 1]);
      FramesStep(Exec(BOOT, steps[..|steps| - 1]), steps[|steps| - 1]);
    }
  }

  /** The traffic presented for a key is what its frames count. */
  lemma TrafficIsWhatArrived(s: State, ifindex: nat, mac: Mac, f: Field)
    ensures Traffic(s, TrafficKey(ifindex, mac), f) == TrafficOf(HandlerFrames(s), ifindex, mac, f)
  {
    var ps, k := HandlerFrames(s), TrafficKey(ifindex, mac);
    forall i | 0 <= i < |s.handlers|
      ensures Presentations(s.handlers, k, f)(i) == FrameCounts(ps, ifindex, mac, f)(i)
    {
      PresentedCounts(s.handlers[i], ifindex, mac, f);
    }
    SumEq(Presentations(s.handlers, k, f), FrameCounts(ps, ifindex, mac, f), 0, |s.handlers|);
  }

  lemma PresentedCounts(h: Handler, ifindex: nat, mac: Mac, f: Field)
    ensures Presented(h, TrafficKey(ifindex, mac), f) == CountsFor(h.frame, ifindex, mac, f)
  {
  }

  /** Races on first packets included, the counter of a MAC at an interface never exceeds what its
      frames count, and the map never holds more than 262144 keys. */
  lemma VisibleWithinTraffic(steps: seq<Step>, ifindex: nat, mac: Mac, f: Field)
    ensures Visible(Exec(BOOT, steps), TrafficKey(ifindex, mac), f) <= TrafficOf(FramesOf(steps), ifindex, mac, f)
    ensures |Exec(BOOT, steps).table| <= 262144
  {
    var s, k := Exec(BOOT, steps), TrafficKey(ifindex, mac);
    HandlersAreArrivals(steps);
    TrafficIsWhatArrived(s, ifindex, mac, f);
    ReachableAccounted(steps, 0, f);
    if k in s.table {
      ReachableAccounted(steps, s.table[k], f);
      AddedWithinTraffic(s, k, f);
      WordLeq(AddedTo(s, s.table[k], f));
    }
  }

  lemma WordLeq(x: nat)
    ensures x % WORD <= x
    ensures x < WORD ==> x % WORD == x
  {
  }

  /** A packet refused by a full map, like a short frame, has changed no counter and does not in
      any continuation. */
  lemma {:induction false} RefusedAddsNothing(s: State, steps: seq<Step>, h: nat)
    requires h < |s.handlers| && s.handlers[h].pc.Refused?
    ensures var t := Exec(s, steps);
            && h < |t.handlers| && t.handlers[h] == s.handlers[h]
            && (forall c, f :: Share(t.handlers[h], c, f) == 0)
            && (forall room :: Next(t, Run(h, room)) == t)
  {
    if steps != [] {
      RefusedAddsNothing(s, steps[..|steps| - 1], h);
    }
  }

  /** As long as there is memory and the map has fewer than 262144 keys, a new key is inserted. */
  lemma NewKeyFindsRoom(s: State, h: nat)
    requires h < |s.handlers| && s.handlers[h].pc.AtInsert? && |s.table| < 262144
    ensures var t, k := Next(s, Run(h, true)), KeyOf(s.handlers[h].frame);
            && k in t.table && t.table[k] < |t.cells| && Visible(t, k, Bytes) == 0
            && forall j :: j in s.table && j != k ==> j in t.table && t.table[j] == s.table[j]
  {
  }

  /** A full map keeps its keys: only keys it has can be inserted. */
  lemma FullMapStep(s: State, step: Step)
    requires WellFormed(s) && |s.table| == MAX_ENTRIES
    ensures Next(s, step).table.Keys == s.table.Keys && |Next(s, step).table| == MAX_ENTRIES
  {
    var t := Next(s, step);
    assert |t.table| == |t.table.Keys| && |s.table| == |s.table.Keys|;
  }

  /** How far a handler that finds no counter is after `n` steps of its own. */
  function RefusalAfter(n: nat): Pc {
    if n == 0 then AtLookup else if n == 1 then AtInsert else if n == 2 then AtRelookup else Refused
  }

  /** The steps of a run that handler `h` takes. */
  function OwnSteps(steps: seq<Step>, h: nat): nat {
    if steps == [] then 0
    else
      var last := steps[|steps| - 1];
      OwnSteps(steps[..|steps| - 1], h) + if last.Run? && last.handler == h then 1 else 0
  }

  lemma RefusalStep(s: State, step: Step, h: nat, n: nat)
    requires WellFormed(s) && |s.table| == MAX_ENTRIES
    requires h < |s.handlers| && s.handlers[h].pc == RefusalAfter(n) && KeyOf(s.handlers[h].frame) !in s.table
    ensures var t := Next(s, step);
            && h < |t.handlers| && t.handlers[h].frame == s.handlers[h].frame
            && t.handlers[h].pc == RefusalAfter(if step.Run? && step.handler == h then n + 1 else n)
            && (step.Run? && step.handler == h ==> t.cells == s.cells && t.table == s.table)
  {
  }

  /** The map is full without the handler's key, and the handler has taken `n` steps to refusal. */
  ghost predicate TurnedAway(s: State, h: nat, n: nat) {
    && WellFormed(s) && |s.table| == MAX_ENTRIES
    && h < |s.handlers| && s.handlers[h].pc == RefusalAfter(n) && KeyOf(s.handlers[h].frame) !in s.table
  }

  lemma TurnedAwayStep(s: State, step: Step, h: nat, n: nat)
    requires TurnedAway(s, h, n)
    ensures TurnedAway(Next(s, step), h, if step.Run? && step.handler == h then n + 1 else n)
  {
    NextWellFormed(s, step);
    FullMapStep(s, step);
    RefusalStep(s, step, h, n);
  }

  lemma TurnedAwayAddsNothing(s: State, h: nat, n: nat)
    requires TurnedAway(s, h, n)
    ensures forall c, f :: Share(s.handlers[h], c, f) == 0
    ensures forall room :: Next(s, Run(h, room)).cells == s.cells && Next(s, Run(h, room)).table == s.table
  {
    forall room
      ensures Next(s, Run(h, room)).cells == s.cells && Next(s, Run(h, room)).table == s.table
    {
      RefusalStep(s, Run(h, room), h, n);
    }
  }

  /** A full map refuses a new key: whatever other handlers do in between, from the failed lookup
      on the handler is refused with its third step, has added nothing, and no step of its own
      changes a cell or the table. */
  lemma {:induction false} FullMapRefuses(s: State, steps: seq<Step>, h: nat)
    requires TurnedAway(s, h, 0)
    ensures var t := Exec(s, steps);
            && TurnedAway(t, h, OwnSteps(steps, h))
            && (forall c, f :: Share(t.handlers[h], c, f) == 0)
            && (forall room :: Next(t, Run(h, room)).cells == t.cells && Next(t, Run(h, room)).table == t.table)
  {
    if steps != [] {
      var front, last := steps[..|steps| - 1], steps[|steps| - 1];
      FullMapRefuses(s, front, h);
      TurnedAwayStep(Exec(s, front), last, h, OwnSteps(front, h));
    }
    TurnedAwayAddsNothing(Exec(s, steps), h, OwnSteps(steps, h));
  }

  // ---------------------------------------------------------------- losing and not losing packets

  /** No handler can replace the counter of `k` any more. */
  ghost predicate Settled(s: State, k: TrafficKey) {
    && k in s.table
    && forall i :: 0 <= i < |s.handlers| && KeyOf(s.handlers[i].frame) == k ==>
         !s.handlers[i].pc.AtInsert? && !s.handlers[i].pc.AtRelookup?
  }

  /** Traffic of `k` that the visible counter misses: refused, or added to a replaced cell. */
  function Missed(h: Handler, s: State, k: TrafficKey, f: Field): nat {
    if !h.frame.short && KeyOf(h.frame) == k
       && (h.pc.Refused? || (h.pc.Adding? && (k !in s.table || h.pc.cell != s.table[k])))
    then Get(Added(h.frame, 4), f) else 0
  }

  function Misses(s: State, k: TrafficKey, f: Field): nat -> nat {
    (i: nat) => if i < |s.handlers| then Missed(s.handlers[i], s, k, f) else 0
  }

  function Lost(s: State, k: TrafficKey, f: Field): nat {
    SumOver(Misses(s, k, f), 0, |s.handlers|)
  }

  /** The counter is, modulo 2^64, all that the frames count but what was lost. */
  ghost predicate CountsAllButLost(s: State, ps: seq<Frame>, ifindex: nat, mac: Mac, f: Field) {
    var arrived, lost := TrafficOf(ps, ifindex, mac, f), Lost(s, TrafficKey(ifindex, mac), f);
    lost <= arrived && Visible(s, TrafficKey(ifindex, mac), f) == (arrived - lost) % WORD
  }

  /** At rest, the counter of a MAC at an interface has all that its frames count but what was lost. */
  lemma TrafficIsCountedOrLost(steps: seq<Step>, ifindex: nat, mac: Mac, f: Field)
    requires Quiescent(Exec(BOOT, steps)) && TrafficKey(ifindex, mac) in Exec(BOOT, steps).table
    ensures CountsAllButLost(Exec(BOOT, steps), FramesOf(steps), ifindex, mac, f)
  {
    HandlersAreArrivals(steps);
    ReachableAccounted(steps, Exec(BOOT, steps).table[TrafficKey(ifindex, mac)], f);
    VisibleIsCounted(Exec(BOOT, steps), ifindex, mac, f);
  }

  lemma VisibleIsCounted(s: State, ifindex: nat, mac: Mac, f: Field)
    requires WellFormed(s) && Quiescent(s) && TrafficKey(ifindex, mac) in s.table
    requires Accounted(s, s.table[TrafficKey(ifindex, mac)], f)
    ensures CountsAllButLost(s, HandlerFrames(s), ifindex, mac, f)
  {
    TrafficIsWhatArrived(s, ifindex, mac, f);
    CountedOrLost(s, TrafficKey(ifindex, mac), f);
  }

  lemma CountedOrLost(s: State, k: TrafficKey, f: Field)
    requires WellFormed(s) && Quiescent(s) && k in s.table
    ensures Traffic(s, k, f) == AddedTo(s, s.table[k], f) + Lost(s, k, f)
  {
    var c := s.table[k];
    forall i | 0 <= i < |s.handlers|
      ensures Presentations(s.handlers, k, f)(i) == Shares(s.handlers, c, f)(i) + Misses(s, k, f)(i)
    {
      assert HandlerOk(s, s.handlers[i]);
    }
    SumPlus(Shares(s.handlers, c, f), Misses(s, k, f), Presentations(s.handlers, k, f), 0, |s.handlers|);
  }

  lemma SettledStep(s: State, step: Step, k: TrafficKey, f: Field)
    requires WellFormed(s) && Settled(s, k)
    ensures var t := Next(s, step);
            Settled(t, k) && t.table[k] == s.table[k] && Lost(t, k, f) == Lost(s, k, f)
  {
    var t := Next(s, step);
    match step
    case Arrive(frame) =>
      SettledArrive(s, frame, k, f);
    case Run(h, room) =>
      if h < |s.handlers| {
        SettledRun(s, h, room, k, f);
        SumEq(Misses(t, k, f), Misses(s, k, f), 0, |s.handlers|);
      }
  }

  lemma SettledArrive(s: State, frame: Frame, k: TrafficKey, f: Field)
    requires Settled(s, k)
    ensures var t := Next(s, Arrive(frame));
            Settled(t, k) && t.table[k] == s.table[k] && Lost(t, k, f) == Lost(s, k, f)
  {
    var t := Next(s, Arrive(frame));
    forall i | 0 <= i < |s.handlers|
      ensures Misses(t, k, f)(i) == Misses(s, k, f)(i)
    {
      assert t.handlers[i] == s.handlers[i];
    }
    SumEq(Misses(t, k, f), Misses(s, k, f), 0, |s.handlers|);
    assert Misses(t, k, f)(|s.handlers|) == 0;
  }

  lemma SettledRun(s: State, h: nat, room: bool, k: TrafficKey, f: Field)
    requires WellFormed(s) && Settled(s, k) && h < |s.handlers|
    ensures var t := RunHandler(s, h, room);
            && Settled(t, k) && t.table[k] == s.table[k] && |t.handlers| == |s.handlers|
            && forall i :: 0 <= i < |s.handlers| ==> Missed(t.handlers[i], t, k, f) == Missed(s.handlers[i], s, k, f)
  {
    var t := RunHandler(s, h, room);
    OthersUnmoved(s, h, room);
    TableKept(s, Run(h, room), k);
    assert HandlerOk(s, s.handlers[h]);
    forall i | 0 <= i < |s.handlers|
      ensures Missed(t.handlers[i], t, k, f) == Missed(s.handlers[i], s, k, f)
    {
      if i != h {
        assert t.handlers[i] == s.handlers[i];
      }
    }
  }

  lemma OthersUnmoved(s: State, h: nat, room: bool)
    requires h < |s.handlers|
    ensures var t := RunHandler(s, h, room);
            && |t.handlers| == |s.handlers| && t.handlers[h].frame == s.handlers[h].frame
            && forall i :: 0 <= i < |s.handlers| && i != h ==> t.handlers[i] == s.handlers[i]
  {
  }

  /** Once a key has a counter and no insertion for it is pending, it keeps that counter and no
      further packet of the key is ever lost. */
  lemma {:induction false} SettledLosesNothing(s: State, steps: seq<Step>, k: TrafficKey, f: Field)
    requires WellFormed(s) && Settled(s, k)
    ensures var t := Exec(s, steps);
            && WellFormed(t) && Settled(t, k) && t.table[k] == s.table[k]
            && Lost(t, k, f) == Lost(s, k, f)
  {
    if steps != [] {
      var front, last := steps[..|steps| - 1], steps[|steps| - 1];
      SettledLosesNothing(s, front, k, f);
      NextWellFormed(Exec(s, front), last);
      SettledStep(Exec(s, front), last, k, f);
    }
  }

  /** An insertion for a key that already has a counter. */
  predicate Clobbers(s: State, step: Step, k: TrafficKey) {
    && step.Run? && step.handler < |s.handlers|
    && s.handlers[step.handler].pc.AtInsert?
    && KeyOf(s.handlers[step.handler].frame) == k
    && k in s.table
  }

  /** Whoever has missed its lookup inserts before any other handler moves. */
  ghost predicate Prompt(s: State, step: Step) {
    forall i :: 0 <= i < |s.handlers| && s.handlers[i].pc.AtInsert? ==> step.Run? && step.handler == i
  }

  /** Nobody is about to insert a key that has a counter. */
  ghost predicate InsertsAreFirst(s: State) {
    forall i :: 0 <= i < |s.handlers| && s.handlers[i].pc.AtInsert? ==> KeyOf(s.handlers[i].frame) !in s.table
  }

  lemma PromptInsertsAreFirst(s: State, step: Step)
    requires InsertsAreFirst(s) && Prompt(s, step)
    ensures InsertsAreFirst(Next(s, step)) && forall k :: !Clobbers(s, step, k)
  {
    var t := Next(s, step);
    if step.Run? && step.handler < |s.handlers| {
      var h := step.handler;
      OthersUnmoved(s, h, step.room);
      assert s.handlers[h].pc.AtInsert? || t.table == s.table;
      forall i | 0 <= i < |t.handlers| && t.handlers[i].pc.AtInsert?
        ensures KeyOf(t.handlers[i].frame) !in t.table
      {
        assert i != h ==> t.handlers[i] == s.handlers[i];
      }
    }
  }

  /** What a step adds to cell `c`. */
  function AdditionTo(s: State, step: Step, c: nat, f: Field): nat {
    if step.Run? && step.handler < |s.handlers| && s.handlers[step.handler].pc.Adding?
       && s.handlers[step.handler].pc.cell == c && s.handlers[step.handler].pc.done < 4
    then Get(NthAddition(s.handlers[step.handler].frame, s.handlers[step.handler].pc.done), f)
    else 0
  }

  /** A late insertion resets the counter of its key to zero. Every other step adds to it what
      the step's handler adds, as 64-bit words; so nothing else lowers a counter, as long as the
      key's traffic fits 64 bits. */
  lemma OnlyLateInsertLowers(s: State, step: Step, k: TrafficKey, f: Field)
    requires WellFormed(s) && (k in s.table ==> Accounted(s, s.table[k], f))
    ensures k !in s.table || Clobbers(s, step, k) ==> Visible(Next(s, step), k, f) == 0
    ensures k in s.table && !Clobbers(s, step, k) ==>
              Visible(Next(s, step), k, f) == (Visible(s, k, f) + AdditionTo(s, step, s.table[k], f)) % WORD
    ensures !Clobbers(s, step, k) && Traffic(Next(s, step), k, f) < WORD ==>
              Visible(s, k, f) <= Visible(Next(s, step), k, f)
  {
    if k in s.table && !Clobbers(s, step, k) {
      VisibleMoves(s, step, k, f);
      if Traffic(Next(s, step), k, f) < WORD {
        VisibleGrows(s, step, k, f);
      }
    }
  }

  lemma VisibleMoves(s: State, step: Step, k: TrafficKey, f: Field)
    requires WellFormed(s) && k in s.table && !Clobbers(s, step, k)
    ensures Visible(Next(s, step), k, f) == (Visible(s, k, f) + AdditionTo(s, step, s.table[k], f)) % WORD
  {
    var c := s.table[k];
    TableKept(s, step, k);
    CellMoves(s, step, c, f);
    GetFits(s.cells[c].value, f);
  }

  lemma CellMoves(s: State, step: Step, c: nat, f: Field)
    requires c < |s.cells|
    ensures var t := Next(s, step);
            c < |t.cells| && Get(t.cells[c].value, f) == (Get(s.cells[c].value, f) + AdditionTo(s, step, c, f)) % WORD
  {
    GetFits(s.cells[c].value, f);
    if step.Run? && step.handler < |s.handlers| {
      var h := s.handlers[step.handler];
      if h.pc.Adding? {
        GetAdd64(s.cells[c].value, NthAddition(h.frame, h.pc.done), f);
      }
    }
  }

  lemma VisibleGrows(s: State, step: Step, k: TrafficKey, f: Field)
    requires WellFormed(s) && k in s.table && Accounted(s, s.table[k], f)
    requires !Clobbers(s, step, k) && Traffic(Next(s, step), k, f) < WORD
    ensures Visible(s, k, f) <= Visible(Next(s, step), k, f)
  {
    var t, c := Next(s, step), s.table[k];
    TableKept(s, step, k);
    NextWellFormed(s, step);
    NextAccounted(s, step, c, f);
    AddedGrows(s, step, c, f);
    AddedWithinTraffic(t, k, f);
    WordLeq(AddedTo(s, c, f));
    WordLeq(AddedTo(t, c, f));
  }

  lemma TableKept(s: State, step: Step, k: TrafficKey)
    requires k in s.table && !Clobbers(s, step, k)
    ensures k in Next(s, step).table && Next(s, step).table[k] == s.table[k]
  {
  }

  lemma AddedGrows(s: State, step: Step, c: nat, f: Field)
    ensures AddedTo(s, c, f) <= AddedTo(Next(s, step), c, f)
  {
    var t := Next(s, step);
    match step
    case Arrive(_) =>
      SumEq(Shares(t.handlers, c, f), Shares(s.handlers, c, f), 0, |s.handlers|);
    case Run(h, room) =>
      if h < |s.handlers| {
        forall i | 0 <= i < |s.handlers|
          ensures Shares(s.handlers, c, f)(i) <= Shares(t.handlers, c, f)(i)
        {
          ShareGrows(s, h, room, i, c, f);
        }
        SumLeq(Shares(s.handlers, c, f), Shares(t.handlers, c, f), 0, |s.handlers|);
      }
  }

  lemma ShareGrows(s: State, h: nat, room: bool, i: nat, c: nat, f: Field)
    requires h < |s.handlers| && i < |s.handlers|
    ensures var t := RunHandler(s, h, room);
            |t.handlers| == |s.handlers| && Share(s.handlers[i], c, f) <= Share(t.handlers[i], c, f)
  {
    if s.handlers[h].pc.Adding? && s.handlers[h].pc.done < 4 {
      AdditionsAddUp(s.handlers[h].frame, s.handlers[h].pc.done, f);
    }
  }

  lemma TrafficGrows(s: State, step: Step, k: TrafficKey, f: Field)
    ensures Traffic(s, k, f) <= Traffic(Next(s, step), k, f)
  {
    var t := Next(s, step);
    assert forall i :: 0 <= i < |s.handlers| ==> t.handlers[i].frame == s.handlers[i].frame;
    SumEq(Presentations(t.handlers, k, f), Presentations(s.handlers, k, f), 0, |s.handlers|);
  }

  lemma ExecSnoc(s: State, steps: seq<Step>, step: Step)
    ensures Exec(s, steps + [step]) == Next(Exec(s, steps), step)
  {
    assert (steps + [step])[..|steps|] == steps;
  }

  /** A packet that arrives at an empty map, and `n` steps of its handler. */
  function Handled(p: Frame, n: nat): seq<Step> {
    if n == 0 then [] + [Arrive(p)] else Handled(p, n - 1) + [Run(0, true)]
  }

  ghost predicate AddsAlone(s: State, p: Frame, done: nat) {
    s.table == map[KeyOf(p) := 0] && |s.cells| == 1 && s.handlers == [Handler(p, Adding(0, done))]
  }

  lemma InsertsAlone(p: Frame)
    requires !p.short
    ensures AddsAlone(Exec(BOOT, Handled(p, 3)), p, 0)
  {
    ExecSnoc(BOOT, [], Arrive(p));
    assert Exec(BOOT, Handled(p, 0)) == State([], map[], [Handler(p, AtLookup)]);
    ExecSnoc(BOOT, Handled(p, 0), Run(0, true));
    assert Exec(BOOT, Handled(p, 1)) == State([], map[], [Handler(p, AtInsert)]);
    ExecSnoc(BOOT, Handled(p, 1), Run(0, true));
    assert |Exec(BOOT, Handled(p, 1)).table| == 0;
    assert Exec(BOOT, Handled(p, 2)) == State([Cell(KeyOf(p), ZERO)], map[KeyOf(p) := 0], [Handler(p, AtRelookup)]);
    ExecSnoc(BOOT, Handled(p, 2), Run(0, true));
  }

  lemma {:induction false} AddsOneByOne(p: Frame, done: nat)
    requires !p.short && done <= 4
    ensures AddsAlone(Exec(BOOT, Handled(p, 3 + done)), p, done)
  {
    if done == 0 {
      InsertsAlone(p);
    } else {
      AddsOneByOne(p, done - 1);
      ExecSnoc(BOOT, Handled(p, 2 + done), Run(0, true));
    }
  }

  /** Seven steps after its arrival at an empty map, a packet is counted in all its fields. */
  lemma OnePacketCounts(p: Frame) returns (steps: seq<Step>)
    requires !p.short && p.len < WORD
    ensures var s := Exec(BOOT, steps);
            && KeyOf(p) in s.table && s.table[KeyOf(p)] < |s.cells| && Quiescent(s)
            && forall f :: Get(s.cells[s.table[KeyOf(p)]].value, f) == Get(Added(p, 4), f)
  {
    steps := Handled(p, 7);
    var s := Exec(BOOT, steps);
    AddsOneByOne(p, 4);
    forall f
      ensures Get(s.cells[0].value, f) == Get(Added(p, 4), f)
    {
      ReachableAccounted(steps, 0, f);
      SumSingle(Shares(s.handlers, 0, f), 0, 0, 1);
      WordLeq(Get(Added(p, 4), f));
    }
  }

  /** Such a late insertion is reachable: two first packets of one key both miss; one inserts
      and adds its bytes; then the other inserts. The counted bytes vanish. */
  lemma LateInsertLosesPacket(p: Frame) returns (steps: seq<Step>)
    requires !p.short && 0 < p.len < WORD
    ensures var s := Exec(BOOT, steps);
            && Visible(s, KeyOf(p), Bytes) == p.len
            && Clobbers(s, Run(1, true), KeyOf(p))
            && Visible(Next(s, Run(1, true)), KeyOf(p), Bytes) == 0
  {
    steps := BothMiss(p);
    var k := KeyOf(p);
    var before := Exec(BOOT, steps);
    assert |before.table| == 0;
    ExecSnoc(BOOT, steps, Run(0, true));
    steps := steps + [Run(0, true)];
    assert Exec(BOOT, steps) == State([Cell(k, ZERO)], map[k := 0], [Handler(p, AtRelookup), Handler(p, AtInsert)]);
    ExecSnoc(BOOT, steps, Run(0, true));
    steps := steps + [Run(0, true)];
    assert Exec(BOOT, steps) == OneWon(p);
    ExecSnoc(BOOT, steps, Run(0, true));
    steps := steps + [Run(0, true)];
    OtherClobbers(p);
  }

  /** One of two racing handlers holds the counter, the other is about to insert. */
  function OneWon(p: Frame): State {
    State([Cell(KeyOf(p), ZERO)], map[KeyOf(p) := 0], [Handler(p, Adding(0, 0)), Handler(p, AtInsert)])
  }

  lemma OtherClobbers(p: Frame)
    requires p.len < WORD
    ensures var s := Next(OneWon(p), Run(0, true));
            && Visible(s, KeyOf(p), Bytes) == p.len
            && Clobbers(s, Run(1, true), KeyOf(p))
            && Visible(Next(s, Run(1, true)), KeyOf(p), Bytes) == 0
  {
    GetAdd64(ZERO, NthAddition(p, 0), Bytes);
  }

  lemma BothMiss(p: Frame) returns (steps: seq<Step>)
    requires !p.short
    ensures Exec(BOOT, steps) == State([], map[], [Handler(p, AtInsert), Handler(p, AtInsert)])
  {
    ExecSnoc(BOOT, [], Arrive(p));
    ExecSnoc(BOOT, [] + [Arrive(p)], Arrive(p));
    steps := [] + [Arrive(p)] + [Arrive(p)];
    assert Exec(BOOT, steps).handlers == [Handler(p, AtLookup), Handler(p, AtLookup)];
    ExecSnoc(BOOT, steps, Run(0, true));
    ExecSnoc(BOOT, steps + [Run(0, true)], Run(1, true));
    steps := steps + [Run(0, true)] + [Run(1, true)];
  }
}
