/** The six traffic counters of one (interface, MAC) pair and their arithmetic.

Database columns are modelled as unbounded naturals. Counters of the kernel map are
64-bit words: they live in the subset type `Raw`, additions wrap and so does the
subtraction that computes a delta.
 */
module Counters {

  const WORD: nat := 0x1_0000_0000_0000_0000

  datatype Direction = Ingress | Egress

  /** Bytes and packets of one direction, or of both together. */
  datatype Tally = Tally(bytes: nat, packets: nat)

  /** `total` holds the columns `bytes` and `packets`; the other four columns are per direction. */
  datatype Counters = Counters(total: Tally, ingress: Tally, egress: Tally)

  /** The six columns, so that laws can be stated field by field. */
  datatype Field = Bytes | Packets | IngressBytes | IngressPackets | EgressBytes | EgressPackets

  function Get(c: Counters, f: Field): nat {
    match f
    case Bytes => c.total.bytes
    case Packets => c.total.packets
    case IngressBytes => c.ingress.bytes
    case IngressPackets => c.ingress.packets
    case EgressBytes => c.egress.bytes
    case EgressPackets => c.egress.packets
  }

  const ALL_FIELDS: set<Field> := {Bytes, Packets, IngressBytes, IngressPackets, EgressBytes, EgressPackets}

  const ZERO := Counters(Tally(0, 0), Tally(0, 0), Tally(0, 0))

  predicate IsZero(c: Counters) {
    && c.total.bytes == 0 && c.total.packets == 0
    && c.ingress.bytes == 0 && c.ingress.packets == 0
    && c.egress.bytes == 0 && c.egress.packets == 0
  }

  predicate FitsWord(c: Counters) {
    && c.total.bytes < WORD && c.total.packets < WORD
    && c.ingress.bytes < WORD && c.ingress.packets < WORD
    && c.egress.bytes < WORD && c.egress.packets < WORD
  }

  type Raw = c: Counters | FitsWord(c) witness ZERO

  function Plus(a: Counters, b: Counters): Counters {
    Counters(PlusTally(a.total, b.total), PlusTally(a.ingress, b.ingress), PlusTally(a.egress, b.egress))
  }

  function PlusTally(a: Tally, b: Tally): Tally {
    Tally(a.bytes + b.bytes, a.packets + b.packets)
  }

  predicate Leq(a: Counters, b: Counters) {
    && a.total.bytes <= b.total.bytes && a.total.packets <= b.total.packets
    && a.ingress.bytes <= b.ingress.bytes && a.ingress.packets <= b.ingress.packets
    && a.egress.bytes <= b.egress.bytes && a.egress.packets <= b.egress.packets
  }

  /** A record's totals are the sum of its two directions. */
  predicate Balanced(c: Counters) {
    && c.total.bytes == c.ingress.bytes + c.egress.bytes
    && c.total.packets == c.ingress.packets + c.egress.packets
  }

  /** Six independent 64-bit additions. */
  function Add64(a: Counters, b: Counters): Raw {
    Counters(AddTally64(a.total, b.total), AddTally64(a.ingress, b.ingress), AddTally64(a.egress, b.egress))
  }

  function AddTally64(a: Tally, b: Tally): Tally {
    Tally((a.bytes + b.bytes) % WORD, (a.packets + b.packets) % WORD)
  }

  /** 64-bit subtraction of one field. */
  function Word(a: nat, b: nat): (d: nat)
    requires a < WORD && b < WORD
    ensures d < WORD
  {
    if b <= a then a - b else a + WORD - b
  }

  /** Six independent 64-bit subtractions. */
  function Sub64(a: Raw, b: Raw): Raw {
    Counters(Tally(Word(a.total.bytes, b.total.bytes), Word(a.total.packets, b.total.packets)),
             Tally(Word(a.ingress.bytes, b.ingress.bytes), Word(a.ingress.packets, b.ingress.packets)),
             Tally(Word(a.egress.bytes, b.egress.bytes), Word(a.egress.packets, b.egress.packets)))
  }

  lemma AllFields(f: Field)
    ensures f in ALL_FIELDS
  {
    match f
    case Bytes =>
    case Packets =>
    case IngressBytes =>
    case IngressPackets =>
    case EgressBytes =>
    case EgressPackets =>
  }

  function SetField(c: Raw, f: Field, n: nat): Raw
    requires n < WORD
  {
    match f
    case Bytes => c.(total := c.total.(bytes := n))
    case Packets => c.(total := c.total.(packets := n))
    case IngressBytes => c.(ingress := c.ingress.(bytes := n))
    case IngressPackets => c.(ingress := c.ingress.(packets := n))
    case EgressBytes => c.(egress := c.egress.(bytes := n))
    case EgressPackets => c.(egress := c.egress.(packets := n))
  }

  lemma GetSetField(c: Raw, f: Field, n: nat, g: Field)
    requires n < WORD
    ensures Get(SetField(c, f, n), g) == if g == f then n else Get(c, g)
  {
  }

  lemma GetFits(c: Raw, f: Field)
    ensures Get(c, f) < WORD
  {
  }

  lemma GetPlus(a: Counters, b: Counters, f: Field)
    ensures Get(Plus(a, b), f) == Get(a, f) + Get(b, f)
  {
  }

  lemma GetAdd64(a: Counters, b: Counters, f: Field)
    ensures Get(Add64(a, b), f) == (Get(a, f) + Get(b, f)) % WORD
  {
  }

  lemma GetSub(a: Raw, b: Raw, f: Field)
    ensures Get(a, f) < WORD && Get(b, f) < WORD
    ensures Get(Sub64(a, b), f) == Word(Get(a, f), Get(b, f))
  {
  }

  lemma GetEqual(a: Counters, b: Counters)
    ensures a == b <==> forall f :: Get(a, f) == Get(b, f)
  {
    if forall f :: Get(a, f) == Get(b, f) {
      assert Get(a, Bytes) == Get(b, Bytes) && Get(a, Packets) == Get(b, Packets);
      assert Get(a, IngressBytes) == Get(b, IngressBytes) && Get(a, IngressPackets) == Get(b, IngressPackets);
      assert Get(a, EgressBytes) == Get(b, EgressBytes) && Get(a, EgressPackets) == Get(b, EgressPackets);
    }
  }

  lemma NonzeroField(c: Counters) returns (f: Field)
    requires !IsZero(c)
    ensures Get(c, f) > 0
  {
    f := if c.total.bytes > 0 then Bytes else if c.total.packets > 0 then Packets
         else if c.ingress.bytes > 0 then IngressBytes else if c.ingress.packets > 0 then IngressPackets
         else if c.egress.bytes > 0 then EgressBytes else EgressPackets;
  }

  lemma PlusZero(a: Counters, b: Counters)
    ensures IsZero(a) ==> Plus(a, b) == b
    ensures IsZero(b) ==> Plus(a, b) == a
  {
    if IsZero(a) {
      assert PlusTally(a.total, b.total) == b.total;
      assert PlusTally(a.ingress, b.ingress) == b.ingress;
      assert PlusTally(a.egress, b.egress) == b.egress;
    }
    if IsZero(b) {
      assert PlusTally(a.total, b.total) == a.total;
      assert PlusTally(a.ingress, b.ingress) == a.ingress;
      assert PlusTally(a.egress, b.egress) == a.egress;
    }
  }

  lemma PlusIsZero(a: Counters, b: Counters)
    ensures IsZero(Plus(a, b)) <==> IsZero(a) && IsZero(b)
  {
    forall f
      ensures Get(Plus(a, b), f) == Get(a, f) + Get(b, f)
    {
      GetPlus(a, b, f);
    }
    GetZero(a);
    GetZero(b);
    GetZero(Plus(a, b));
  }

  lemma GetZero(c: Counters)
    ensures IsZero(c) <==> forall f :: Get(c, f) == 0
  {
    if !IsZero(c) {
      var f := NonzeroField(c);
      assert Get(c, f) > 0;
    }
  }

  lemma PlusAssociative(a: Counters, b: Counters, c: Counters)
    ensures Plus(Plus(a, b), c) == Plus(a, Plus(b, c))
  {
  }

  lemma WordPlus(x: nat, y: nat)
    ensures (x + y) % WORD == (x % WORD + y) % WORD
  {
    var q := x / WORD;
    assert x + y == q * WORD + (x % WORD + y);
  }

  /** Adding the wrapped difference moves a congruence from the old reading to the new one. */
  lemma WordCongruent(x: nat, a: nat, b: nat)
    requires a < WORD && b < WORD
    requires x % WORD == b
    ensures (x + Word(a, b)) % WORD == a
  {
    var q := x / WORD;
    assert x == q * WORD + b;
    if b <= a {
      assert x + Word(a, b) == q * WORD + a;
    } else {
      assert x + Word(a, b) == (q + 1) * WORD + a;
    }
  }

  /** It carries into the next multiple of 2^64 exactly when the new reading is the lower one. */
  lemma WordCarry(x: nat, a: nat, b: nat)
    requires a < WORD && b < WORD
    requires x % WORD == b
    ensures (x + Word(a, b)) / WORD == x / WORD + (if a < b then 1 else 0)
  {
    var q := x / WORD;
    assert x == q * WORD + b;
    if b <= a {
      assert x + Word(a, b) == q * WORD + a;
    } else {
      assert x + Word(a, b) == (q + 1) * WORD + a;
    }
  }
}

/** Finite sums over an integer range. */
module Sums {

  /** The summand is named in the measure so that a sum with constant bounds is not unrolled. */
  function SumOver(f: nat -> nat, lo: nat, hi: nat): nat
    decreases hi, f
  {
    if hi <= lo then 0 else SumOver(f, lo, hi - 1) + f(hi - 1)
  }

  lemma {:induction false} SumEq(f: nat -> nat, g: nat -> nat, lo: nat, hi: nat)
    requires forall i :: lo <= i < hi ==> f(i) == g(i)
    ensures SumOver(f, lo, hi) == SumOver(g, lo, hi)
    decreases hi
  {
    if lo < hi {
      SumEq(f, g, lo, hi - 1);
    }
  }

  lemma {:induction false} SumLeq(f: nat -> nat, g: nat -> nat, lo: nat, hi: nat)
    requires forall i :: lo <= i < hi ==> f(i) <= g(i)
    ensures SumOver(f, lo, hi) <= SumOver(g, lo, hi)
    decreases hi
  {
    if lo < hi {
      SumLeq(f, g, lo, hi - 1);
    }
  }

  lemma {:induction false} SumZero(f: nat -> nat, lo: nat, hi: nat)
    requires forall i :: lo <= i < hi ==> f(i) == 0
    ensures SumOver(f, lo, hi) == 0
    decreases hi
  {
    if lo < hi {
      SumZero(f, lo, hi - 1);
    }
  }

  lemma {:induction false} SumPlus(f: nat -> nat, g: nat -> nat, h: nat -> nat, lo: nat, hi: nat)
    requires forall i :: lo <= i < hi ==> h(i) == f(i) + g(i)
    ensures SumOver(h, lo, hi) == SumOver(f, lo, hi) + SumOver(g, lo, hi)
    decreases hi
  {
    if lo < hi {
      SumPlus(f, g, h, lo, hi - 1);
    }
  }

  lemma {:induction false} SumScaled(f: nat -> nat, g: nat -> nat, h: nat -> nat, c: nat, lo: nat, hi: nat)
    requires forall i :: lo <= i < hi ==> h(i) == f(i) + c * g(i)
    ensures SumOver(h, lo, hi) == SumOver(f, lo, hi) + c * SumOver(g, lo, hi)
    decreases hi
  {
    if lo < hi {
      SumScaled(f, g, h, c, lo, hi - 1);
      assert c * (SumOver(g, lo, hi - 1) + g(hi - 1)) == c * SumOver(g, lo, hi - 1) + c * g(hi - 1);
    }
  }

  /** A sum of naturals vanishes exactly if every summand does. */
  lemma SumIsZero(f: nat -> nat, lo: nat, hi: nat)
    ensures SumOver(f, lo, hi) == 0 <==> forall i :: lo <= i < hi ==> f(i) == 0
  {
    if forall i :: lo <= i < hi ==> f(i) == 0 {
      SumZero(f, lo, hi);
    } else {
      var i :| lo <= i < hi && f(i) != 0;
      SumNarrow(f, lo, i, i + 1, hi);
      assert SumOver(f, i, i + 1) == SumOver(f, i, i) + f(i);
    }
  }

  /** Two summands that differ at one place only. */
  lemma {:induction false} SumUpdate(f: nat -> nat, g: nat -> nat, at: nat, lo: nat, hi: nat)
    requires lo <= at < hi
    requires forall i :: lo <= i < hi && i != at ==> f(i) == g(i)
    ensures SumOver(f, lo, hi) + g(at) == SumOver(g, lo, hi) + f(at)
    decreases hi
  {
    if at == hi - 1 {
      SumEq(f, g, lo, hi - 1);
    } else {
      SumUpdate(f, g, at, lo, hi - 1);
    }
  }

  /** All summands but one vanish. */
  lemma {:induction false} SumSingle(f: nat -> nat, at: nat, lo: nat, hi: nat)
    requires lo <= at < hi
    requires forall i :: lo <= i < hi && i != at ==> f(i) == 0
    ensures SumOver(f, lo, hi) == f(at)
    decreases hi
  {
    if at == hi - 1 {
      SumZero(f, lo, hi - 1);
    } else {
      SumSingle(f, at, lo, hi - 1);
    }
  }

  lemma {:induction false} SumSplit(f: nat -> nat, lo: nat, mid: nat, hi: nat)
    requires lo <= mid <= hi
    ensures SumOver(f, lo, hi) == SumOver(f, lo, mid) + SumOver(f, mid, hi)
    decreases hi
  {
    if mid < hi {
      SumSplit(f, lo, mid, hi - 1);
    }
  }

  /** Nothing is added after `at`. */
  lemma SumEndsAt(f: nat -> nat, at: nat, hi: nat)
    requires at < hi && forall i :: at < i < hi ==> f(i) == 0
    ensures SumOver(f, 0, hi) == SumOver(f, 0, at) + f(at)
  {
    SumSplit(f, 0, at + 1, hi);
    SumZero(f, at + 1, hi);
  }

  /** A summand that vanishes outside a range sums to what the range sums to. */
  lemma SumRestricted(f: nat -> nat, g: nat -> nat, lo: nat, hi: nat, n: nat)
    requires lo <= hi <= n
    requires forall i :: 0 <= i < n ==> f(i) == if lo <= i < hi then g(i) else 0
    ensures SumOver(f, 0, n) == SumOver(g, lo, hi)
  {
    SumSplit(f, 0, lo, n);
    SumSplit(f, lo, hi, n);
    SumZero(f, 0, lo);
    SumZero(f, hi, n);
    SumEq(f, g, lo, hi);
  }

  /** A narrower range sums to no more. */
  lemma SumNarrow(f: nat -> nat, lo: nat, lo': nat, hi': nat, hi: nat)
    requires lo <= lo' <= hi' <= hi
    ensures SumOver(f, lo', hi') <= SumOver(f, lo, hi)
  {
    SumSplit(f, lo, lo', hi);
    SumSplit(f, lo', hi', hi);
  }
}
