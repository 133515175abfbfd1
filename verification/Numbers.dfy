/**
  Number theory behind the in-place block exchange: Euclid's algorithm, its Bezout coefficients,
  and the ranks that number the positions of one cycle in the order in which it visits them.
*/
module Numbers {

  function Gcd(a: nat, b: nat): (g: nat)
    requires b > 0
    ensures 0 < g <= b
    decreases b
  {
    if a % b == 0 then b else Gcd(b, a % b)
  }

  method ComputeGcd(a0: nat, b0: nat) returns (r: nat)
    requires b0 > 0
    ensures r == Gcd(a0, b0)
  {
    var a, b := a0, b0;
    var c := a % b;
    while c != 0
      invariant b > 0 && c == a % b
      invariant Gcd(a, b) == Gcd(a0, b0)
      decreases c
    {
      a := b;
      b := c;
      c := a % b;
    }
    return b;
  }

  /** Gcd(a, b) is an integer combination of a and b ... */
  ghost function BezoutLeft(a: nat, b: nat): int
    requires b > 0
    decreases b
  {
    if a % b == 0 then 0 else BezoutRight(b, a % b)
  }

  ghost function BezoutRight(a: nat, b: nat): int
    requires b > 0
    decreases b
  {
    if a % b == 0 then 1 else BezoutLeft(b, a % b) - BezoutRight(b, a % b) * (a / b)
  }

  lemma {:induction false} Bezout(a: nat, b: nat)
    requires b > 0
    ensures BezoutLeft(a, b) * a + BezoutRight(a, b) * b == Gcd(a, b)
    decreases b
  {
    if a % b != 0 {
      Bezout(b, a % b);
      BezoutStep(a, b, a / b, a % b, BezoutLeft(b, a % b), BezoutRight(b, a % b));
    }
  }

  lemma BezoutStep(a: int, b: int, k: int, r: int, p: int, q: int)
    requires a == k * b + r
    ensures q * a + (p - q * k) * b == p * b + q * r
  {
    assert q * a == q * (k * b) + q * r;
    assert q * (k * b) == (q * k) * b;
    assert (p - q * k) * b == p * b - (q * k) * b;
  }

  lemma Distribute(q: int, x: int, y: int)
    ensures q * (x - y) == q * x - q * y
  {
  }

  /** ... and divides both of them, */
  lemma {:induction false} GcdDivides(a: nat, b: nat) returns (p: nat, q: nat)
    requires b > 0
    ensures a == Gcd(a, b) * p && b == Gcd(a, b) * q
    decreases b
  {
    if a % b == 0 {
      p, q := a / b, 1;
    } else {
      var r, s := GcdDivides(b, a % b);
      var g := Gcd(a, b);
      p, q := (a / b) * r + s, r;
      CombineMultiples(a, b, a / b, a % b, g, r, s);
    }
  }

  lemma CombineMultiples(a: int, b: int, k: int, rest: int, g: int, r: int, s: int)
    requires a == k * b + rest && b == g * r && rest == g * s
    ensures a == g * (k * r + s)
  {
    assert k * (g * r) == g * (k * r);
    assert g * (k * r + s) == g * (k * r) + g * s;
  }

  /** ... so that every common divisor of a and b divides it: it is the greatest one. */
  lemma GcdIsGreatest(a: nat, b: nat, d: nat, p: nat, q: nat) returns (k: int)
    requires b > 0 && a == d * p && b == d * q
    ensures Gcd(a, b) == d * k
    ensures d <= Gcd(a, b)
  {
    Bezout(a, b);
    var u, v := BezoutLeft(a, b), BezoutRight(a, b);
    k := u * p + v * q;
    Regroup(u, d, p);
    Regroup(v, d, q);
    assert d * k == d * (u * p) + d * (v * q);
    PositiveMultiple(d, k);
  }

  lemma Regroup(u: int, d: int, p: int)
    ensures u * (d * p) == d * (u * p)
  {
  }

  lemma PositiveMultiple(d: nat, k: int)
    requires d * k > 0
    ensures d <= d * k
  {
    assert k > 0;
    assert d * (k - 1) >= 0;
  }

  lemma ModShift(z: int, k: int, c: int)
    requires c > 0
    ensures (z + k * c) % c == z % c
  {
    // the quotients differ by k, and remainders in [0, c) that differ by a multiple of c are equal
    var d := (z + k * c) / c - z / c - k;
    assert (z + k * c) % c - z % c == -d * c by {
      assert (z + k * c) % c == z + k * c - ((z + k * c) / c) * c;
      assert z % c == z - (z / c) * c;
    }
    SmallMultiple(-d, c);
  }

  lemma SmallMultiple(d: int, c: int)
    requires c > 0 && -c < d * c < c
    ensures d == 0
  {
  }

  lemma ExactQuotient(x: int, q: int, g: int)
    requires g > 0 && x == g * q
    ensures x / g == q && x % g == 0
  {
    ModShift(0, q, g);
    assert g * (x / g) == g * q;
    SmallMultiple(x / g - q, g);
  }

  /** The position after x on its cycle: n less, modulo n + m. */
  function Next(x: int, n: nat, m: nat): (y: int)
    ensures 0 <= x < n + m ==> 0 <= y < n + m
  {
    if x >= n then x - n else x + m
  }

  lemma QuotientPositive(x: int, g: int)
    requires 0 < g <= x
    ensures x / g > 0
  {
  }

  function CycleLength(n: nat, m: nat): (c: nat)
    requires m > 0
    ensures c > 0
  {
    QuotientPositive(n + m, Gcd(n, m));
    (n + m) / Gcd(n, m)
  }

  predicate InCycle(x: int, n: nat, m: nat, i: nat)
    requires n > 0 && m > 0
  {
    0 <= x < n + m && x % Gcd(n, m) == i
  }

  /** The cycle that each position of [0, n + m) lies on. */
  ghost function Cycles(n: nat, m: nat): (cycle: seq<int>)
    requires n > 0 && m > 0
    ensures |cycle| == n + m
  {
    seq(n + m, x => x % Gcd(n, m))
  }

  ghost function Ranks(n: nat, m: nat, i: nat): (rank: seq<int>)
    requires n > 0 && m > 0
    ensures |rank| == n + m
  {
    seq(n + m, x => Rank(n, m, i, x))
  }

  /**
    rank numbers the positions of the i-th cycle of Next on [0, n + m): the cycle starts at n + i,
    visits every position x with cycle[x] == i exactly once, and closes after exactly len steps.
   */
  ghost predicate RanksCycle(cycle: seq<int>, rank: seq<int>, n: nat, m: nat, i: nat, len: nat)
    requires |cycle| == |rank| == n + m
  {
    && Starts(cycle, rank, n, m, i, len)
    && Advances(cycle, rank, n, m, i, len)
    && Distinguishes(cycle, rank, i)
  }

  ghost predicate OnCycle(cycle: seq<int>, i: nat, x: int) {
    0 <= x < |cycle| && cycle[x] == i
  }

  ghost predicate Starts(cycle: seq<int>, rank: seq<int>, n: nat, m: nat, i: nat, len: nat)
    requires |cycle| == |rank| == n + m
  {
    && i < m && OnCycle(cycle, i, n + i) && rank[n + i] == 0
    && forall x {:trigger OnCycle(cycle, i, x)} :: OnCycle(cycle, i, x) ==> 0 <= rank[x] < len
  }

  ghost predicate Advances(cycle: seq<int>, rank: seq<int>, n: nat, m: nat, i: nat, len: nat)
    requires |cycle| == |rank| == n + m
  {
    forall x {:trigger Next(x, n, m)} :: OnCycle(cycle, i, x) ==>
      && OnCycle(cycle, i, Next(x, n, m))
      && rank[Next(x, n, m)] == if rank[x] + 1 == len then 0 else rank[x] + 1
  }

  ghost predicate Distinguishes(cycle: seq<int>, rank: seq<int>, i: nat)
    requires |cycle| == |rank|
  {
    forall x, y {:trigger OnCycle(cycle, i, x), OnCycle(cycle, i, y)} ::
      OnCycle(cycle, i, x) && OnCycle(cycle, i, y) && rank[x] == rank[y] ==> x == y
  }

  /** Every cycle can be ranked: the i-th starts are on disjoint cycles that cover the whole range. */
  lemma CycleRanks(n: nat, m: nat, i: nat)
    requires n > 0 && m > 0 && i < Gcd(n, m)
    ensures RanksCycle(Cycles(n, m), Ranks(n, m, i), n, m, i, CycleLength(n, m))
  {
    RanksStart(n, m, i);
    RanksAdvance(n, m, i);
    RanksDistinguish(n, m, i);
  }

  /** With an empty first block every position is a cycle of its own. */
  lemma TrivialCycles(m: nat, i: nat)
    requires i < m
    ensures Gcd(0, m) == m && CycleLength(0, m) == 1
    ensures RanksCycle(seq(m, x => x), seq(m, _ => 0), 0, m, i, 1)
  {
    var cycle, rank := seq(m, x => x), seq(m, _ => 0);
    assert OnCycle(cycle, i, i);
    forall x | OnCycle(cycle, i, x) ensures Next(x, 0, m) == x && x == i { }
  }

  /** The Gcd(n, m) cycles of Next, of equal length, with the rank of each position on its own cycle. */
  lemma RankedCycles(n: nat, m: nat) returns (cycle: seq<int>, ranks: seq<seq<int>>)
    requires m > 0
    ensures |cycle| == n + m && |ranks| == Gcd(n, m)
    ensures forall x :: 0 <= x < n + m ==> 0 <= cycle[x] < Gcd(n, m)
    ensures forall i :: 0 <= i < Gcd(n, m) ==>
      |ranks[i]| == n + m && RanksCycle(cycle, ranks[i], n, m, i, CycleLength(n, m))
  {
    if n == 0 {
      TrivialCycles(m, 0);
      cycle, ranks := seq(m, x => x), seq(m, _ => seq(m, _ => 0));
      forall i | 0 <= i < m ensures RanksCycle(cycle, ranks[i], n, m, i, CycleLength(n, m)) {
        TrivialCycles(m, i);
      }
    } else {
      cycle := Cycles(n, m);
      ranks := seq(Gcd(n, m), i requires 0 <= i => Ranks(n, m, i));
      forall i | 0 <= i < Gcd(n, m)
        ensures RanksCycle(cycle, ranks[i], n, m, i, CycleLength(n, m))
      {
        CycleRanks(n, m, i);
      }
    }
  }

  lemma RanksStart(n: nat, m: nat, i: nat)
    requires n > 0 && m > 0 && i < Gcd(n, m)
    ensures Starts(Cycles(n, m), Ranks(n, m, i), n, m, i, CycleLength(n, m))
  {
    RankStarts(n, m, i);
  }

  lemma RanksAdvance(n: nat, m: nat, i: nat)
    requires n > 0 && m > 0 && i < Gcd(n, m)
    ensures Advances(Cycles(n, m), Ranks(n, m, i), n, m, i, CycleLength(n, m))
  {
    forall x | 0 <= x < n + m && Cycles(n, m)[x] == i
      ensures Cycles(n, m)[Next(x, n, m)] == i
      ensures Rank(n, m, i, Next(x, n, m)) == if Rank(n, m, i, x) + 1 == CycleLength(n, m) then 0 else Rank(n, m, i, x) + 1
    {
      RankAdvances(n, m, i, x);
    }
  }

  lemma RanksDistinguish(n: nat, m: nat, i: nat)
    requires n > 0 && m > 0 && i < Gcd(n, m)
    ensures Distinguishes(Cycles(n, m), Ranks(n, m, i), i)
  {
    var cycle, rank := Cycles(n, m), Ranks(n, m, i);
    forall x, y | 0 <= x < n + m && 0 <= y < n + m && cycle[x] == cycle[y] == i && rank[x] == rank[y]
      ensures x == y
    {
      RankDistinguishes(n, m, i, x, y);
    }
  }

  /** The coefficient of n in a Bezout identity for (n, m), less that of m: an inverse of n modulo n + m, up to Gcd(n, m). */
  ghost function Inverse(n: nat, m: nat): int
    requires n > 0 && m > 0
  {
    BezoutLeft(n, m) - BezoutRight(n, m)
  }

  ghost function Rank(n: nat, m: nat, i: nat, x: int): (r: int)
    requires n > 0 && m > 0
    ensures 0 <= r < CycleLength(n, m)
  {
    (Inverse(n, m) * ((n + i - x) / Gcd(n, m))) % CycleLength(n, m)
  }

  lemma Coefficients(n: nat, m: nat) returns (p: nat, c: nat, v: int, w: int)
    requires n > 0 && m > 0
    ensures c == CycleLength(n, m) && w == Inverse(n, m)
    ensures n == Gcd(n, m) * p && n + m == Gcd(n, m) * c && w * p == 1 - v * c
  {
    var q;
    p, q := GcdDivides(n, m);
    Bezout(n, m);
    v := BezoutRight(n, m);
    c := p + q;
    w := Inverse(n, m);
    ExactQuotient(n + m, c, Gcd(n, m));
    BezoutQuotients(BezoutLeft(n, m), v, n, m, Gcd(n, m), p, q);
  }

  lemma RankStarts(n: nat, m: nat, i: nat)
    requires n > 0 && m > 0 && i < Gcd(n, m)
    ensures InCycle(n + i, n, m, i) && Rank(n, m, i, n + i) == 0
  {
    var p, c, v, w := Coefficients(n, m);
    ClassStart(n, p, Gcd(n, m), i);
    ExactQuotient(0, 0, Gcd(n, m));
    ModUnique(w * 0, 0, 0, c);
  }

  lemma RankAdvances(n: nat, m: nat, i: nat, x: int)
    requires n > 0 && m > 0 && i < Gcd(n, m) && InCycle(x, n, m, i)
    ensures InCycle(Next(x, n, m), n, m, i)
    ensures var r := Rank(n, m, i, x); Rank(n, m, i, Next(x, n, m)) == if r + 1 == CycleLength(n, m) then 0 else r + 1
  {
    var p, c, v, w := Coefficients(n, m);
    NextRank(n, m, Gcd(n, m), i, p, c, v, w, x);
  }

  lemma NextRank(n: nat, m: nat, g: nat, i: nat, p: nat, c: nat, v: int, w: int, x: int)
    requires n == g * p && n + m == g * c && c > 0 && w * p == 1 - v * c && i < g && x % g == i
    ensures Next(x, n, m) % g == i
    ensures var r := (w * ((n + i - x) / g)) % c;
      (w * ((n + i - Next(x, n, m)) / g)) % c == if r + 1 == c then 0 else r + 1
  {
    var y := ClassIndex(n, p, g, i, x);
    var d := StepSize(n, m, g, p, c, x);
    NextInClass(x, Next(x, n, m), d, g, i, n + i, y);
    RankStep(w, p, v, c, y, d);
  }

  lemma StepSize(n: nat, m: nat, g: nat, p: nat, c: nat, x: int) returns (d: int)
    requires n == g * p && n + m == g * c
    ensures (d == p || d == p - c) && Next(x, n, m) == x - g * d
  {
    d := if x >= n then p else p - c;
    Distribute(g, p, c);
  }

  lemma RankDistinguishes(n: nat, m: nat, i: nat, x: int, y: int)
    requires n > 0 && m > 0 && i < Gcd(n, m) && InCycle(x, n, m, i) && InCycle(y, n, m, i)
    requires Rank(n, m, i, x) == Rank(n, m, i, y)
    ensures x == y
  {
    var p, c, v, w := Coefficients(n, m);
    var g := Gcd(n, m);
    var kx := ClassIndex(n, p, g, i, x);
    var ky := ClassIndex(n, p, g, i, y);
    Distribute(g, kx, ky);
    RankInjective(w, p, v, c, kx, ky, g);
  }

  lemma BezoutQuotients(u: int, v: int, n: nat, m: nat, g: nat, p: nat, q: nat)
    requires g > 0 && n == g * p && m == g * q && u * n + v * m == g
    ensures (u - v) * p == 1 - v * (p + q)
  {
    assert g * (u * p + v * q) == g by {
      assert u * (g * p) == g * (u * p);
      assert v * (g * q) == g * (v * q);
    }
    SmallMultiple(u * p + v * q - 1, g);
    assert v * (p + q) == v * p + v * q;
  }

  lemma ClassStart(n: nat, p: nat, g: nat, i: nat)
    requires n == g * p && i < g
    ensures (n + i) % g == i
  {
    ModUnique(n + i, p, i, g);
  }

  /** A member x of the class of i is reached from n + i by subtracting y times g. */
  lemma ClassIndex(n: nat, p: nat, g: nat, i: nat, x: int) returns (y: int)
    requires n == g * p && i < g && x % g == i
    ensures x == n + i - g * y && (n + i - x) / g == y
  {
    y := p - x / g;
    assert x == g * (x / g) + i;
    assert g * p - g * (x / g) == g * y;
    ExactQuotient(n + i - x, y, g);
  }

  lemma NextInClass(x: int, x': int, d: int, g: nat, i: nat, start: int, y: int)
    requires g > 0 && x % g == i && x' == x - g * d && x == start - g * y
    ensures x' % g == i && (start - x') / g == y + d
  {
    assert x' == x + (-d) * g;
    ModShift(x, -d, g);
    assert start - x' == g * (y + d);
    ExactQuotient(start - x', y + d, g);
  }

  lemma RankStep(w: int, p: int, v: int, c: int, y: int, d: int)
    requires c > 0 && w * p == 1 - v * c && (d == p || d == p - c)
    ensures (w * (y + d)) % c == if (w * y) % c + 1 == c then 0 else (w * y) % c + 1
  {
    var e := if d == p then -v else -v - w;
    assert w * (y + d) == w * y + 1 + e * c by {
      assert w * (y + d) == w * y + w * d;
      if d == p - c {
        Distribute(w, p, c);
        assert (-v - w) * c == -v * c - w * c;
      }
    }
    StepMod(w * y, w * (y + d), e, c);
  }

  lemma StepMod(z: int, z': int, e: int, c: int)
    requires c > 0 && z' == z + 1 + e * c
    ensures z' % c == if z % c + 1 == c then 0 else z % c + 1
  {
    var r, h := z % c, z / c;
    assert z' == r + 1 + (h + e) * c by { assert (h + e) * c == h * c + e * c; }
    if r + 1 == c {
      assert (h + e + 1) * c == (h + e) * c + c;
      ModUnique(z', h + e + 1, 0, c);
    } else {
      ModUnique(z', h + e, r + 1, c);
    }
  }

  lemma ModUnique(z: int, q: int, r: int, c: int)
    requires c > 0 && z == q * c + r && 0 <= r < c
    ensures z % c == r
  {
    ModShift(r, q, c);
    assert r % c == r by {
      assert (r / c) * c == r - r % c;
      SmallMultiple(r / c, c);
    }
  }

  lemma RankInjective(w: int, p: int, v: int, c: int, y: int, z: int, g: nat)
    requires c > 0 && g > 0 && w * p == 1 - v * c
    requires (w * y) % c == (w * z) % c
    requires -(g * c) < g * (y - z) < g * c
    ensures y == z
  {
    var k := EqualRemainders(w * y, w * z, c);
    Distribute(w, y, z);
    var e := DivideOut(w, p, v, c, y - z, k);
    CancelFactor(g, y - z, c);
    CancelFactor(g, z - y, c);
    SmallMultiple(e, c);
  }

  lemma EqualRemainders(a: int, b: int, c: int) returns (k: int)
    requires c > 0 && a % c == b % c
    ensures a - b == k * c
  {
    k := a / c - b / c;
    assert a == (a / c) * c + a % c;
    assert b == (b / c) * c + b % c;
  }

  /** If w is an inverse of p modulo c, then c divides d whenever it divides w * d. */
  lemma DivideOut(w: int, p: int, v: int, c: int, d: int, k: int) returns (e: int)
    requires w * p == 1 - v * c && w * d == k * c
    ensures d == e * c
  {
    e := p * k + v * d;
    calc {
      d;
      { assert (1 - v * c) * d == d - (v * c) * d; Swap(v, c, d); }
      (w * p) * d + (v * d) * c;
      { assert (w * p) * d == p * (w * d); }
      p * (k * c) + (v * d) * c;
      { assert p * (k * c) == (p * k) * c; }
      e * c;
    }
  }

  lemma Swap(v: int, c: int, d: int)
    ensures (v * c) * d == (v * d) * c
  {
  }

  lemma CancelFactor(g: nat, d: int, c: int)
    requires g > 0 && g * d < g * c
    ensures d < c
  {
  }
}
