/** Coordinates, the distance used for link weights and the search heuristic,
    and the string key that identifies a graph node. */
module Geo {

  /** A drawn point. The source works on floating-point [lng, lat] pairs;
      this model uses integer pairs. */
  datatype Coord = Coord(x: int, y: int)

  function Abs(n: int): nat { if n < 0 then -n else n }

  /** Distance between two points: stands in for the great-circle distance of
      the source with the Manhattan metric on integer points. */
  function Distance(a: Coord, b: Coord): nat
  {
    Abs(a.x - b.x) + Abs(a.y - b.y)
  }

  lemma DistanceZeroIffEqual(a: Coord, b: Coord)
    ensures Distance(a, b) == 0 <==> a == b
  {
  }

  lemma DistanceSymmetric(a: Coord, b: Coord)
    ensures Distance(a, b) == Distance(b, a)
  {
  }

  lemma TriangleInequality(a: Coord, b: Coord, c: Coord)
    ensures Distance(a, c) <= Distance(a, b) + Distance(b, c)
  {
  }

  // ---------------------------------------------------------------------
  // Node keys: the coordinate array joined with ','.
  // ---------------------------------------------------------------------

  predicate IsDigit(ch: char) { '0' <= ch <= '9' }

  function DigitChar(d: nat): (ch: char)
    requires d < 10
    ensures IsDigit(ch)
  {
    ['0', '1', '2', '3', '4', '5', '6', '7', '8', '9'][d]
  }

  function DigitValue(ch: char): (d: nat)
    requires IsDigit(ch)
    ensures d < 10 && DigitChar(d) == ch
  {
    (ch as int - '0' as int)
  }

  /** Decimal digits of a natural number, without leading zeros. */
  function NatToString(n: nat): (s: string)
    ensures |s| > 0
    ensures forall i :: 0 <= i < |s| ==> IsDigit(s[i])
  {
    if n < 10 then [DigitChar(n)] else NatToString(n / 10) + [DigitChar(n % 10)]
  }

  /** How a number prints: an optional '-' and its decimal digits. */
  function IntToString(n: int): (s: string)
  {
    if n < 0 then "-" + NatToString(-n) else NatToString(n)
  }

  /** `xs.join(',')`: the printed numbers separated by commas. */
  function Join(xs: seq<int>): string
  {
    if |xs| == 0 then ""
    else if |xs| == 1 then IntToString(xs[0])
    else Join(xs[..|xs| - 1]) + "," + IntToString(xs[|xs| - 1])
  }

  /** The id under which a coordinate is stored as a node: `[x, y].join(',')`. */
  function Key(c: Coord): string
  {
    Join([c.x, c.y])
  }

  lemma KeyText(c: Coord)
    ensures Key(c) == IntToString(c.x) + "," + IntToString(c.y)
  {
    var xs := [c.x, c.y];
    assert xs[..1] == [c.x];
    assert Join([c.x]) == IntToString(c.x);
    assert Join(xs) == Join(xs[..1]) + "," + IntToString(xs[1]);
  }

  /** Reads back a string of decimal digits. */
  function ParseNat(s: string): nat
    requires forall i :: 0 <= i < |s| ==> IsDigit(s[i])
  {
    if |s| == 0 then 0 else ParseNat(s[..|s| - 1]) * 10 + DigitValue(s[|s| - 1])
  }

  lemma {:induction false} ParseNatRoundTrip(n: nat)
    ensures ParseNat(NatToString(n)) == n
  {
    var s := NatToString(n);
    if n >= 10 {
      assert s[..|s| - 1] == NatToString(n / 10);
      ParseNatRoundTrip(n / 10);
    }
  }

  lemma NatToStringInjective(a: nat, b: nat)
    requires NatToString(a) == NatToString(b)
    ensures a == b
  {
    ParseNatRoundTrip(a);
    ParseNatRoundTrip(b);
  }

  lemma SignShows(n: int)
    ensures IntToString(n)[0] == '-' <==> n < 0
  {
    if n >= 0 {
      assert IsDigit(NatToString(n)[0]);
    }
  }

  lemma IntToStringInjective(a: int, b: int)
    requires IntToString(a) == IntToString(b)
    ensures a == b
  {
    SignShows(a);
    SignShows(b);
    var s := IntToString(a);
    if a < 0 {
      assert NatToString(-a) == s[1..] == NatToString(-b);
      NatToStringInjective(-a, -b);
    } else {
      NatToStringInjective(a, b);
    }
  }

  lemma IntToStringHasNoComma(n: int)
    ensures forall i :: 0 <= i < |IntToString(n)| ==> IntToString(n)[i] != ','
  {
  }

  /** Position of the first comma of a string (its length if there is none). */
  function FirstComma(u: string): (k: nat)
    ensures k <= |u|
  {
    if |u| == 0 || u[0] == ',' then 0 else 1 + FirstComma(u[1..])
  }

  lemma {:induction false} FirstCommaAfter(s1: string, s2: string)
    requires forall i :: 0 <= i < |s1| ==> s1[i] != ','
    ensures FirstComma(s1 + "," + s2) == |s1|
  {
    if |s1| > 0 {
      assert (s1 + "," + s2)[1..] == s1[1..] + "," + s2;
      FirstCommaAfter(s1[1..], s2);
    }
  }

  /** Splitting at the only comma recovers both halves. */
  lemma SplitAtComma(s1: string, s2: string, t1: string, t2: string)
    requires forall i :: 0 <= i < |s1| ==> s1[i] != ','
    requires forall i :: 0 <= i < |t1| ==> t1[i] != ','
    requires s1 + "," + s2 == t1 + "," + t2
    ensures s1 == t1 && s2 == t2
  {
    var u := s1 + "," + s2;
    FirstCommaAfter(s1, s2);
    FirstCommaAfter(t1, t2);
    assert s1 == u[..|s1|] == t1;
    assert s2 == u[|s1| + 1..] == t2;
  }

  /** Two coordinates share a node id exactly when they are the same point. */
  lemma KeyInjective(a: Coord, b: Coord)
    ensures Key(a) == Key(b) <==> a == b
  {
    KeyText(a);
    KeyText(b);
    if Key(a) == Key(b) {
      IntToStringHasNoComma(a.x);
      IntToStringHasNoComma(b.x);
      SplitAtComma(IntToString(a.x), IntToString(a.y), IntToString(b.x), IntToString(b.y));
      IntToStringInjective(a.x, b.x);
      IntToStringInjective(a.y, b.y);
    }
  }

  /** A node id is never the empty string, so it is never falsy. */
  lemma KeyNonEmpty(c: Coord)
    ensures Key(c) != ""
  {
    KeyText(c);
  }
}
