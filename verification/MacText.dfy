/** MAC addresses as text: printing, the accepted filter syntax, and case-insensitive matching. */
module MacText {
  import opened Store

  ghost predicate Octets(m: seq<nat>) {
    forall i :: 0 <= i < |m| ==> m[i] < 256
  }

  function HexDigit(n: nat): char
    requires n < 16
  {
    if n < 10 then (48 + n) as char else (87 + n) as char
  }

  /** `%02x`. */
  function Hex(b: nat): string
    requires b < 256
  {
    [HexDigit(b / 16), HexDigit(b % 16)]
  }

  /** `%02x` for each octet, joined by colons. */
  function Print(m: seq<nat>): string
    requires |m| > 0 && Octets(m)
  {
    if |m| == 1 then Hex(m[0]) else Hex(m[0]) + ":" + Print(m[1..])
  }

  function MacToString(m: Mac): string {
    Print(m)
  }

  predicate IsHex(c: char) {
    '0' <= c <= '9' || 'a' <= c <= 'f' || 'A' <= c <= 'F'
  }

  function HexValue(c: char): (n: nat)
    requires IsHex(c)
    ensures n < 16
  {
    if c <= '9' then c as int - 48 else if c <= 'F' then c as int - 55 else c as int - 87
  }

  /** `n` pairs of hexadecimal digits separated by colons, and nothing else. */
  predicate Pairs(s: string, n: nat)
    requires n > 0
  {
    && |s| >= 2 && IsHex(s[0]) && IsHex(s[1])
    && if n == 1 then |s| == 2 else |s| >= 3 && s[2] == ':' && Pairs(s[3..], n - 1)
  }

  /** `^([0-9A-Fa-f]{2}:){5}[0-9A-Fa-f]{2}$`. */
  predicate MatchesMacRegex(s: string) {
    Pairs(s, 6)
  }

  function Parse(s: string, n: nat): (m: seq<nat>)
    requires n > 0 && Pairs(s, n)
    ensures |m| == n && Octets(m)
  {
    var b := 16 * HexValue(s[0]) + HexValue(s[1]);
    if n == 1 then [b] else [b] + Parse(s[3..], n - 1)
  }

  function Lower(c: char): char {
    if 'A' <= c <= 'Z' then (c as int + 32) as char else c
  }

  /** `strings.EqualFold` on ASCII text. */
  predicate EqualFold(a: string, b: string) {
    |a| == |b| && forall i :: 0 <= i < |a| ==> Lower(a[i]) == Lower(b[i])
  }

  lemma DigitMeaning(n: nat, c: char)
    requires n < 16 && IsHex(c)
    ensures Lower(HexDigit(n)) == Lower(c) <==> HexValue(c) == n
  {
  }

  lemma PairMeaning(b: nat, s: string)
    requires b < 256 && |s| >= 2 && IsHex(s[0]) && IsHex(s[1])
    ensures Lower(Hex(b)[0]) == Lower(s[0]) && Lower(Hex(b)[1]) == Lower(s[1])
            <==> 16 * HexValue(s[0]) + HexValue(s[1]) == b
  {
    DigitMeaning(b / 16, s[0]);
    DigitMeaning(b % 16, s[1]);
  }

  lemma FoldSplit(a: string, b: string, x: string, y: string)
    requires |a| == |b|
    ensures EqualFold(a + x, b + y) <==> EqualFold(a, b) && EqualFold(x, y)
  {
    if EqualFold(a + x, b + y) {
      forall i | 0 <= i < |a|
        ensures Lower(a[i]) == Lower(b[i])
      {
        assert (a + x)[i] == a[i] && (b + y)[i] == b[i];
      }
      forall i | 0 <= i < |x|
        ensures Lower(x[i]) == Lower(y[i])
      {
        assert (a + x)[|a| + i] == x[i] && (b + y)[|b| + i] == y[i];
      }
    }
  }

  lemma {:induction false} FilterMeansOctets(m: seq<nat>, s: string)
    requires |m| > 0 && Octets(m) && Pairs(s, |m|)
    ensures EqualFold(Print(m), s) <==> Parse(s, |m|) == m
  {
    PairMeaning(m[0], s);
    if |m| > 1 {
      FilterMeansOctets(m[1..], s[3..]);
      assert s == s[..2] + (":" + s[3..]);
      assert Print(m) == Hex(m[0]) + (":" + Print(m[1..]));
      FoldSplit(Hex(m[0]), s[..2], ":" + Print(m[1..]), ":" + s[3..]);
      FoldSplit(":", ":", Print(m[1..]), s[3..]);
      assert m == [m[0]] + m[1..];
    }
  }

  /** A filter that passes the syntax check selects exactly the MAC it denotes. */
  lemma FilterMeansMac(m: Mac, filter: string)
    requires MatchesMacRegex(filter)
    ensures EqualFold(MacToString(m), filter) <==> Parse(filter, 6) == m
  {
    FilterMeansOctets(m, filter);
  }

  lemma {:induction false} PrintParses(m: seq<nat>)
    requires |m| > 0 && Octets(m)
    ensures Pairs(Print(m), |m|) && Parse(Print(m), |m|) == m
  {
    if |m| > 1 {
      PrintParses(m[1..]);
      assert Print(m)[3..] == Print(m[1..]);
      assert m == [m[0]] + m[1..];
    }
  }

  /** The layout of a printed MAC: two lower-case hexadecimal digits per octet, in order, with
      colons in between. */
  lemma MacLayout(m: Mac)
    ensures var s, hex := MacToString(m), "0123456789abcdef";
            && |s| == 17
            && (forall i :: 0 <= i < 6 ==> s[3 * i] == hex[m[i] / 16] && s[3 * i + 1] == hex[m[i] % 16])
            && (forall i :: 0 <= i < 5 ==> s[3 * i + 2] == ':')
  {
    var s, hex := MacToString(m), "0123456789abcdef";
    PrintLayout(m, 0);
    forall i | 0 <= i < 6
      ensures s[3 * i] == hex[m[i] / 16] && s[3 * i + 1] == hex[m[i] % 16]
      ensures i < 5 ==> s[3 * i + 2] == ':'
    {
      PrintLayout(m, i);
    }
  }

  ghost predicate PrintedAt(m: seq<nat>, i: nat)
    requires i < |m| && Octets(m)
  {
    var s, hex := Print(m), "0123456789abcdef";
    && |s| == 3 * |m| - 1
    && s[3 * i] == hex[m[i] / 16] && s[3 * i + 1] == hex[m[i] % 16]
    && (i < |m| - 1 ==> s[3 * i + 2] == ':')
  }

  lemma {:induction false} PrintLayout(m: seq<nat>, i: nat)
    requires i < |m| && Octets(m)
    ensures PrintedAt(m, i)
  {
    HexDigits(m[0]);
    if |m| > 1 {
      PrintLayout(m[1..], if i > 0 then i - 1 else 0);
      assert i > 0 ==> m[1..][i - 1] == m[i];
    }
  }

  lemma HexDigits(b: nat)
    requires b < 256
    ensures Hex(b) == ["0123456789abcdef"[b / 16], "0123456789abcdef"[b % 16]]
  {
  }

  /** The layout of an accepted filter, and of the MAC it denotes. */
  lemma FilterLayout(s: string, i: nat)
    requires MatchesMacRegex(s) && i < 6
    ensures |s| == 17 && IsHex(s[3 * i]) && IsHex(s[3 * i + 1]) && (i < 5 ==> s[3 * i + 2] == ':')
    ensures Parse(s, 6)[i] == 16 * HexValue(s[3 * i]) + HexValue(s[3 * i + 1])
  {
    PairsLayout(s, 6, i);
  }

  lemma {:induction false} PairsLayout(s: string, n: nat, i: nat)
    requires i < n && Pairs(s, n)
    ensures |s| == 3 * n - 1 && IsHex(s[3 * i]) && IsHex(s[3 * i + 1]) && (i < n - 1 ==> s[3 * i + 2] == ':')
    ensures Parse(s, n)[i] == 16 * HexValue(s[3 * i]) + HexValue(s[3 * i + 1])
  {
    if n > 1 {
      var rest := s[3..];
      PairsLayout(rest, n - 1, if i > 0 then i - 1 else 0);
      assert |s| == |rest| + 3;
      if i > 0 {
        assert rest[3 * (i - 1)] == s[3 * i] && rest[3 * (i - 1) + 1] == s[3 * i + 1];
        assert Parse(s, n)[i] == Parse(rest, n - 1)[i - 1];
        assert i < n - 1 ==> rest[3 * (i - 1) + 2] == s[3 * i + 2];
      }
    }
  }

  /** A hexadecimal digit of either case denotes its place in the row of digits. */
  lemma DigitValue(c: char)
    requires IsHex(c)
    ensures "0123456789abcdef"[HexValue(c)] == Lower(c)
  {
  }

  /** Printed MACs match the filter syntax, parse back, and are distinct for distinct MACs. */
  lemma MacToStringRoundTrip(a: Mac, b: Mac)
    ensures MatchesMacRegex(MacToString(a)) && Parse(MacToString(a), 6) == a
    ensures MacToString(a) == MacToString(b) ==> a == b
  {
    PrintParses(a);
    PrintParses(b);
  }
}
