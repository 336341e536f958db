/** The linear congruential generator of the equivalence harness (`lcg`): its 64-bit state
    runs through a single cycle of all 2^64 values. */
module Lcg {

  const MULTIPLIER: nat := 6364136223846793005
  const INCREMENT: nat := 1442695040888963407
  const MODULUS: nat := 0x1_0000_0000_0000_0000

  type U64 = n: nat | n < MODULUS

  /** One draw: multiplication and addition wrap around. */
  function Step(s: U64): U64 { (s * MULTIPLIER % MODULUS + INCREMENT) % MODULUS }

  /** The draws from 0 and 1, which fix the generator. */
  lemma FirstDraws()
    ensures Step(0) == 1442695040888963407 && Step(1) == 7806831264735756412
  {
  }

  function Draws(s: U64, n: nat): U64 { if n == 0 then s else Step(Draws(s, n - 1)) }

  class Generator {
    var state: U64
    /** The draws since the seed. */
    ghost var seed: U64
    ghost var count: nat

    ghost predicate Valid()
      reads this
    {
      state == Draws(seed, count)
    }

    constructor (seed: U64)
      ensures Valid() && this.seed == seed && count == 0
    {
      state, this.seed, count := seed, seed, 0;
    }

    method Next() returns (r: U64)
      requires Valid()
      modifies this
      ensures Valid() && seed == old(seed) && count == old(count) + 1
      ensures state == r == Step(old(state))
    {
      state := state * MULTIPLIER % MODULUS;
      state := (state + INCREMENT) % MODULUS;
      count := count + 1;
      r := state;
    }
  }

  // ---------------------------------------------------------------------
  // Without wrap-around
  // ---------------------------------------------------------------------

  function Pow2(k: nat): (p: nat)
    ensures p >= 1
  {
    if k == 0 then 1 else 2 * Pow2(k - 1)
  }

  /** The same recurrence over the unbounded integers. */
  function Iterate(x: int, n: nat): int {
    if n == 0 then x else MULTIPLIER * Iterate(x, n - 1) + INCREMENT
  }

  lemma {:induction false} IterateTwice(x: int, m: nat, n: nat)
    ensures Iterate(x, m + n) == Iterate(Iterate(x, m), n)
    decreases n
  {
    if n != 0 { IterateTwice(x, m, n - 1); }
  }

  lemma ModPlusMultiple(r: int, q: int)
    ensures (r + MODULUS * q) % MODULUS == r % MODULUS
  {
  }

  lemma StepWraps(x: int)
    ensures (MULTIPLIER * x + INCREMENT) % MODULUS == Step(x % MODULUS)
  {
    var r := x % MODULUS;
    assert x == MODULUS * (x / MODULUS) + r;
    var p := r * MULTIPLIER;
    assert p == MODULUS * (p / MODULUS) + p % MODULUS;
    ModPlusMultiple(p % MODULUS + INCREMENT, MULTIPLIER * (x / MODULUS) + p / MODULUS);
  }

  /** The generator's states are the iterates modulo 2^64. */
  lemma {:induction false} DrawsWrap(s: U64, n: nat)
    ensures Draws(s, n) == Iterate(s, n) % MODULUS
  {
    if n != 0 {
      DrawsWrap(s, n - 1);
      StepWraps(Iterate(s, n - 1));
    }
  }

  // ---------------------------------------------------------------------
  // Jumps of 2^k draws
  // ---------------------------------------------------------------------

  /** The coefficients of a jump: 2^k draws take x to `Factor(k) * x + Offset(k)`. */
  function Factor(k: nat): int { if k == 0 then MULTIPLIER else Factor(k - 1) * Factor(k - 1) }

  function Offset(k: nat): int { if k == 0 then INCREMENT else Offset(k - 1) * (Factor(k - 1) + 1) }

  lemma {:induction false} JumpIsAffine(x: int, k: nat)
    ensures Iterate(x, Pow2(k)) == Factor(k) * x + Offset(k)
    decreases k
  {
    if k == 0 {
      assert Iterate(x, 0) == x;
    } else {
      var f, o, y := Factor(k - 1), Offset(k - 1), Iterate(x, Pow2(k - 1));
      JumpIsAffine(x, k - 1);
      JumpIsAffine(y, k - 1);
      IterateTwice(x, Pow2(k - 1), Pow2(k - 1));
      Compose(f, o, x);
    }
  }

  lemma Compose(f: int, o: int, x: int)
    ensures f * (f * x + o) + o == (f * f) * x + o * (f + 1)
  {
    assert f * (f * x + o) == f * (f * x) + f * o;
    assert f * (f * x) == (f * f) * x;
  }

  /** Because the multiplier is 1 modulo 4 and the increment odd, the factor of a jump is
      1 modulo 2^(k+2), and its offset an odd multiple of 2^k. */
  lemma {:induction false} JumpShape(k: nat) returns (m: int, j: int)
    ensures Factor(k) == 1 + 4 * Pow2(k) * m
    ensures Offset(k) == Pow2(k) * (2 * j + 1)
  {
    if k == 0 {
      m, j := MULTIPLIER / 4, INCREMENT / 2;
    } else {
      var m', j' := JumpShape(k - 1);
      var p := Pow2(k - 1);
      m, j := m' + 2 * p * m' * m', j' + p * m' * (2 * j' + 1);
      SquareShape(p, m');
      OffsetShape(p, m', j');
    }
  }

  lemma SquareShape(p: int, m: int)
    ensures (1 + 4 * p * m) * (1 + 4 * p * m) == 1 + 4 * (2 * p) * (m + 2 * p * m * m)
  {
    var u := p * m;
    assert (1 + 4 * u) * (1 + 4 * u) == 1 + 8 * u + 16 * (u * u);
    assert u * u == p * (p * m * m);
    assert p * (m + 2 * p * m * m) == u + 2 * (p * (p * m * m));
  }

  lemma OffsetShape(p: int, m: int, j: int)
    ensures p * (2 * j + 1) * (1 + 4 * p * m + 1) == 2 * p * (2 * (j + p * m * (2 * j + 1)) + 1)
  {
    var u, o := p * m, 2 * j + 1;
    assert o * (2 + 4 * u) == 2 * (2 * (j + u * o) + 1) by {
      assert o * (2 + 4 * u) == 2 * o + 4 * (u * o);
    }
    assert p * o * (2 + 4 * u) == p * (o * (2 + 4 * u));
    assert p * (2 * (2 * (j + u * o) + 1)) == 2 * p * (2 * (j + u * o) + 1);
  }

  /** A jump moves any number by an odd multiple of 2^k. */
  lemma JumpMovesOddly(x: int, k: nat) returns (t: int)
    ensures Iterate(x, Pow2(k)) == x + Pow2(k) * (2 * t + 1)
  {
    var m, j := JumpShape(k);
    JumpIsAffine(x, k);
    t := 2 * (m * x) + j;
    OddMove(Pow2(k), m, j, x);
  }

  lemma OddMove(p: int, m: int, j: int, x: int)
    ensures (1 + 4 * p * m) * x + p * (2 * j + 1) == x + p * (2 * (2 * (m * x) + j) + 1)
  {
    assert (4 * p * m) * x == p * (4 * (m * x));
    assert (1 + 4 * p * m) * x == x + (4 * p * m) * x;
    assert p * (4 * (m * x)) + p * (2 * j + 1) == p * (4 * (m * x) + (2 * j + 1));
  }

  /** `r` times `p`, added up. */
  function Multiple(p: nat, r: nat): nat { if r == 0 then 0 else Multiple(p, r - 1) + p }

  lemma {:induction false} MultipleIsProduct(p: nat, r: nat)
    ensures Multiple(p, r) == r * p
  {
    if r != 0 {
      MultipleIsProduct(p, r - 1);
      Distribute(p, r, r - 1);
    }
  }

  /** `r` jumps of 2^k draws move any number by a multiple of 2^k of the parity of `r`. */
  lemma {:induction false} Jumps(x: int, k: nat, r: nat) returns (z: int)
    ensures Iterate(x, Multiple(Pow2(k), r)) == x + Pow2(k) * (r + 2 * z)
    decreases r
  {
    if r == 0 {
      z := 0;
    } else {
      var z' := Jumps(x, k, r - 1);
      var before := Multiple(Pow2(k), r - 1);
      var t := JumpMovesOddly(Iterate(x, before), k);
      IterateTwice(x, before, Pow2(k));
      z := z' + t;
      OneMoreJump(Pow2(k), r, z', t);
    }
  }

  lemma OneMoreJump(p: int, r: int, z: int, t: int)
    ensures p * (r - 1 + 2 * z) + p * (2 * t + 1) == p * (r + 2 * (z + t))
  {
  }

  // ---------------------------------------------------------------------
  // The cycle
  // ---------------------------------------------------------------------

  lemma {:induction false} Pow2Sum(j: nat, k: nat)
    ensures Pow2(j + k) == Pow2(j) * Pow2(k)
    decreases j
  {
    if j != 0 {
      Pow2Sum(j - 1, k);
      assert 2 * Pow2(j - 1) * Pow2(k) == 2 * (Pow2(j - 1) * Pow2(k));
    }
  }

  lemma ModulusIsPow2()
    ensures Pow2(64) == MODULUS
  {
    assert Pow2(4) == 16;
    Pow2Sum(4, 4);
    Pow2Sum(8, 8);
    Pow2Sum(16, 16);
    Pow2Sum(32, 32);
  }

  /** Every positive number is an odd multiple of a power of two. */
  lemma {:induction false} OddPart(n: nat) returns (k: nat, r: nat)
    requires n > 0
    ensures n == r * Pow2(k) && r % 2 == 1
  {
    if n % 2 == 1 {
      k, r := 0, n;
    } else {
      var k', r' := OddPart(n / 2);
      k, r := k' + 1, r';
      assert r' * (2 * Pow2(k')) == 2 * (r' * Pow2(k'));
    }
  }

  lemma LargeMultiple(k: nat, r: nat, top: nat)
    requires r >= 1 && k >= top && Pow2(top) == MODULUS
    ensures r * Pow2(k) >= MODULUS
  {
    Pow2Sum(top, k - top);
    Grows(MODULUS, Pow2(k - top));
    Grows(Pow2(k), r);
  }

  lemma Grows(a: nat, b: nat)
    requires b >= 1
    ensures a * b >= a && b * a >= a
  {
  }

  /** Fewer than 2^64 draws never lead back. */
  lemma NoEarlyReturn(s: U64, n: nat)
    requires 0 < n < MODULUS
    ensures Draws(s, n) != s
  {
    var k, r := OddPart(n);
    ModulusIsPow2();
    if k >= 64 { LargeMultiple(k, r, 64); }
    MultipleIsProduct(Pow2(k), r);
    NotBackAfterJumps(s, k, r, 64);
  }

  lemma NotBackAfterJumps(s: U64, k: nat, r: nat, top: nat)
    requires k < top && Pow2(top) == MODULUS && r % 2 == 1
    ensures Draws(s, Multiple(Pow2(k), r)) != s
  {
    DrawsWrap(s, Multiple(Pow2(k), r));
    JumpedAway(s, k, r, top);
  }

  lemma JumpedAway(s: U64, k: nat, r: nat, top: nat)
    requires k < top && Pow2(top) == MODULUS && r % 2 == 1
    ensures Iterate(s, Multiple(Pow2(k), r)) % MODULUS != s
  {
    var p, g, h := Pow2(k), Pow2(top - k), Pow2(top - k - 1);
    Pow2Sum(k, top - k);
    var z := Jumps(s, k, r);
    var w := r + 2 * z;
    assert w % 2 == 1 by { OddSum(r, z); }
    MovedOddly(s, Iterate(s, Multiple(p, r)), p, g, h, w);
  }

  lemma OddSum(r: int, z: int)
    requires r % 2 == 1
    ensures (r + 2 * z) % 2 == 1
  {
  }

  /** An odd multiple of a proper divisor of the modulus is not a multiple of the modulus. */
  lemma MovedOddly(s: U64, x: int, p: int, g: int, h: int, w: int)
    requires x == s + p * w && w % 2 == 1 && p > 0 && g == 2 * h && MODULUS == p * g
    ensures x % MODULUS != s
  {
    if x % MODULUS == s {
      var q := x / MODULUS;
      assert x == MODULUS * q + s;
      CancelFactor(p, w, h, q);
    }
  }

  lemma CancelFactor(p: int, w: int, h: int, q: int)
    requires p > 0 && p * w == p * (2 * h) * q
    ensures w % 2 == 0
  {
    assert p * (2 * h) * q == p * (2 * (h * q));
    assert p * (w - 2 * (h * q)) == 0;
    assert w == 2 * (h * q);
  }

  /** 2^64 draws lead back. */
  lemma FullCycle(s: U64)
    ensures Draws(s, MODULUS) == s
  {
    ModulusIsPow2();
    BackAfterJump(s, 64);
  }

  lemma BackAfterJump(s: U64, top: nat)
    requires Pow2(top) == MODULUS
    ensures Draws(s, Pow2(top)) == s
  {
    var t := JumpMovesOddly(s, top);
    DrawsWrap(s, Pow2(top));
    MovedFully(s, Iterate(s, Pow2(top)), Pow2(top), 2 * t + 1);
  }

  lemma MovedFully(s: U64, x: int, p: int, w: int)
    requires x == s + p * w && p == MODULUS
    ensures x % MODULUS == s
  {
    ModPlusMultiple(s, w);
  }

  lemma {:induction false} DrawsTwice(s: U64, m: nat, n: nat)
    ensures Draws(s, m + n) == Draws(Draws(s, m), n)
    decreases n
  {
    if n != 0 { DrawsTwice(s, m, n - 1); }
  }

  /** No state repeats within 2^64 draws. */
  lemma NoRepetition(s: U64, i: nat, j: nat)
    requires i < j < i + MODULUS
    ensures Draws(s, i) != Draws(s, j)
  {
    DrawsTwice(s, i, j - i);
    NoEarlyReturn(Draws(s, i), j - i);
  }

  /** Every number is reached from every other, modulo ever larger powers of two. */
  lemma {:induction false} ReachesModulo(x: int, y: int, k: nat) returns (n: nat, u: int)
    ensures n < Pow2(k) && y == Iterate(x, n) + Pow2(k) * u
  {
    if k == 0 {
      n, u := 0, y - x;
    } else {
      n, u := ReachesModulo(x, y, k - 1);
      n, u := NextBit(x, y, k - 1, n, u);
    }
  }

  lemma NextBit(x: int, y: int, k: nat, n: nat, u: int) returns (n': nat, u': int)
    requires n < Pow2(k) && y == Iterate(x, n) + Pow2(k) * u
    ensures n' < 2 * Pow2(k) && y == Iterate(x, n') + 2 * Pow2(k) * u'
  {
    var p := Pow2(k);
    if u % 2 == 0 {
      n', u' := n, u / 2;
      Halve(p, u);
    } else {
      var t := JumpMovesOddly(Iterate(x, n), k);
      IterateTwice(x, n, p);
      n', u' := n + p, (u - (2 * t + 1)) / 2;
      OddRemainder(p, u, t);
    }
  }

  lemma OddRemainder(p: int, u: int, t: int)
    requires u % 2 == 1
    ensures p * u == p * (2 * t + 1) + 2 * p * ((u - (2 * t + 1)) / 2)
  {
    Halve(p, u - (2 * t + 1));
    Distribute(p, u, 2 * t + 1);
  }

  lemma Halve(p: int, u: int)
    requires u % 2 == 0
    ensures p * u == 2 * p * (u / 2)
  {
    assert u == 2 * (u / 2);
    assert p * (2 * (u / 2)) == 2 * p * (u / 2);
  }

  lemma Distribute(p: int, u: int, o: int)
    ensures p * u == p * o + p * (u - o) && p * u == u * p
  {
  }

  lemma ReachesEverything(s: U64, y: U64) returns (n: nat)
    ensures n < MODULUS && Draws(s, n) == y
  {
    var u;
    ModulusIsPow2();
    n, u := ReachesModulo(s, y, 64);
    DrawsWrap(s, n);
    ModPlusMultiple(Iterate(s, n), u);
  }

  ghost predicate Reaches(s: U64, y: U64) { exists n: nat :: n < MODULUS && Draws(s, n) == y }

  /** From any seed the states form one cycle of length 2^64: the cycle closes, visits every
      state, and visits each of them once. */
  lemma OneCycle(s: U64)
    ensures Draws(s, MODULUS) == s
    ensures forall y: U64 :: Reaches(s, y)
    ensures forall i: nat, j: nat | i < j < MODULUS :: Draws(s, i) != Draws(s, j)
  {
    FullCycle(s);
    forall y: U64 ensures Reaches(s, y) {
      var n := ReachesEverything(s, y);
    }
    forall i: nat, j: nat | i < j < MODULUS ensures Draws(s, i) != Draws(s, j) { NoRepetition(s, i, j); }
  }

  /** A draw is a bijection on the states: every state has exactly one predecessor. */
  lemma StepIsBijective(y: U64) returns (s: U64)
    ensures Step(s) == y
    ensures forall t: U64 :: Step(t) == y ==> t == s
  {
    FullCycle(y);
    s := Draws(y, MODULUS - 1);
    forall t: U64 | Step(t) == y ensures t == s { StepIsInjective(s, t); }
  }

  lemma StepIsInjective(a: U64, b: U64)
    requires Step(a) == Step(b)
    ensures a == b
  {
    var n := ReachesEverything(b, a);
    assert Draws(b, n + 1) == Step(a);
    assert Draws(b, 1) == Step(Draws(b, 0));
    if n > 0 { NoRepetition(b, 1, n + 1); }
  }
}
