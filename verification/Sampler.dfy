/** The argument sampler of the equivalence harness: candidate values for each parameter, and a
    capped walk through their product. */
module Sampler {
  import Lcg

  datatype ParamKind = Bool | U32 | I32 | U64 | I64 | U128 | I128

  /** 128-bit numbers are passed in two halves. */
  datatype ScVal =
    | BoolVal(b: bool)
    | U32Val(u32: int)
    | I32Val(i32: int)
    | U64Val(u64: int)
    | I64Val(i64: int)
    | U128Val(uhi: int, ulo: int)
    | I128Val(ihi: int, ilo: int)

  const TWO32 := 0x1_0000_0000
  const TWO64: int := Lcg.MODULUS
  const TWO128 := 0x1_0000_0000_0000_0000_0000_0000_0000_0000

  const MAX_CASES_PER_FN := 48

  // ---------------------------------------------------------------------
  // Candidates
  // ---------------------------------------------------------------------

  /** Reading an unsigned number of the given range as a signed one. */
  function Signed(v: int, range: int): int { if 2 * v >= range then v - range else v }

  function U128OfNumber(v: int): ScVal { U128Val(v / TWO64, v % TWO64) }

  function I128OfNumber(v: int): ScVal { I128Val(v / TWO64, v % TWO64) }

  /** The number an argument stands for. */
  function Number(v: ScVal): int {
    match v
    case BoolVal(b) => if b then 1 else 0
    case U32Val(n) => n
    case I32Val(n) => n
    case U64Val(n) => n
    case I64Val(n) => n
    case U128Val(hi, lo) => hi * TWO64 + lo
    case I128Val(hi, lo) => hi * TWO64 + lo
  }

  function Least(kind: ParamKind): int {
    match kind
    case I32 => -0x8000_0000
    case I64 => -0x8000_0000_0000_0000
    case I128 => -0x8000_0000_0000_0000_0000_0000_0000_0000
    case _ => 0
  }

  function Greatest(kind: ParamKind): int {
    match kind
    case Bool => 1
    case U32 => 0xFFFF_FFFF
    case I32 => 0x7FFF_FFFF
    case U64 => 0xFFFF_FFFF_FFFF_FFFF
    case I64 => 0x7FFF_FFFF_FFFF_FFFF
    case U128 => 0xFFFF_FFFF_FFFF_FFFF_FFFF_FFFF_FFFF_FFFF
    case I128 => 0x7FFF_FFFF_FFFF_FFFF_FFFF_FFFF_FFFF_FFFF
  }

  /** An argument a parameter of the given kind accepts. */
  predicate Fits(kind: ParamKind, v: ScVal) {
    && Least(kind) <= Number(v) <= Greatest(kind)
    && match kind
       case Bool => v.BoolVal?
       case U32 => v.U32Val?
       case I32 => v.I32Val?
       case U64 => v.U64Val?
       case I64 => v.I64Val?
       case U128 => v.U128Val? && 0 <= v.uhi < TWO64 && 0 <= v.ulo < TWO64
       case I128 => v.I128Val? && -TWO64 <= 2 * v.ihi < TWO64 && 0 <= v.ilo < TWO64
  }

  /** The argument of a kind that stands for a number. */
  function OfNumber(kind: ParamKind, n: int): ScVal {
    match kind
    case Bool => BoolVal(n != 0)
    case U32 => U32Val(n)
    case I32 => I32Val(n)
    case U64 => U64Val(n)
    case I64 => I64Val(n)
    case U128 => U128OfNumber(n)
    case I128 => I128OfNumber(n)
  }

  /** Splitting a number into halves keeps it, negative numbers included. */
  lemma NumberKept(kind: ParamKind, n: int)
    requires Least(kind) <= n <= Greatest(kind)
    ensures Fits(kind, OfNumber(kind, n)) && Number(OfNumber(kind, n)) == n
  {
  }

  function DrawCount(kind: ParamKind): nat {
    match kind
    case Bool => 0
    case U128 => 2
    case I128 => 2
    case _ => 1
  }

  /** The number drawn for a parameter, with the generator in state `s`. */
  function DrawnNumber(kind: ParamKind, s: Lcg.U64): int {
    var first := Lcg.Step(s);
    match kind
    case Bool => 0
    case U32 => first % TWO32
    case I32 => Signed(first % TWO32, TWO32)
    case U64 => first
    case I64 => Signed(first, TWO64)
    case U128 => first * TWO64 + Lcg.Step(first)
    case I128 => Signed(first * TWO64 + Lcg.Step(first), TWO128)
  }

  /** The boundary numbers of a kind. */
  function Boundaries(kind: ParamKind): (numbers: seq<int>)
    ensures 2 <= |numbers| <= 5
  {
    match kind
    case Bool => [0, 1]
    case U32 => [0, 1, 2, Greatest(kind)]
    case U64 => [0, 1, 2, Greatest(kind)]
    case U128 => [0, 1, Greatest(kind)]
    case _ => [Least(kind), -1, 0, 1, Greatest(kind)]
  }

  function Bits(kind: ParamKind): nat {
    match kind
    case Bool => 1
    case U32 => 32
    case I32 => 32
    case U64 => 64
    case I64 => 64
    case U128 => 128
    case I128 => 128
  }

  predicate IsSigned(kind: ParamKind) { kind == I32 || kind == I64 || kind == I128 }

  function TwoTo(n: nat): int { if n == 0 then 1 else 2 * TwoTo(n - 1) }

  lemma {:induction false} TwoToAdds(m: nat, n: nat)
    ensures TwoTo(m + n) == TwoTo(m) * TwoTo(n)
  {
    if m > 0 { TwoToAdds(m - 1, n); }
  }

  lemma WidthsAre()
    ensures TwoTo(1) == 2 && TwoTo(31) == 0x8000_0000 && TwoTo(32) == TWO32
    ensures TwoTo(63) == 0x8000_0000_0000_0000 && TwoTo(64) == TWO64
    ensures TwoTo(127) == 0x8000_0000_0000_0000_0000_0000_0000_0000 && TwoTo(128) == TWO128
  {
    assert TwoTo(4) == 16;
    TwoToAdds(4, 4);
    TwoToAdds(8, 8);
    TwoToAdds(16, 16);
    TwoToAdds(32, 32);
    TwoToAdds(64, 64);
    assert TwoTo(32) == 2 * TwoTo(31) && TwoTo(64) == 2 * TwoTo(63) && TwoTo(128) == 2 * TwoTo(127);
  }

  /** The range of a kind is that of its bits, with or without a sign. */
  lemma RangesExactly(kind: ParamKind)
    ensures Greatest(kind) - Least(kind) + 1 == TwoTo(Bits(kind))
    ensures Least(kind) == if IsSigned(kind) then -TwoTo(Bits(kind) - 1) else 0
  {
    WidthsAre();
  }

  /** The boundaries in ascending order: the ends of the range, 0 and 1, then -1 where there are signs
      and 2 for the unsigned numbers of 32 and 64 bits. */
  lemma BoundariesExactly(kind: ParamKind, n: int)
    ensures n in Boundaries(kind) <==>
            || n == Least(kind) || n == Greatest(kind) || n == 0 || n == 1
            || (n == -1 && IsSigned(kind)) || (n == 2 && (kind == U32 || kind == U64))
    ensures forall i, j :: 0 <= i < j < |Boundaries(kind)| ==> Boundaries(kind)[i] < Boundaries(kind)[j]
  {
  }

  /** A drawn number is the one of its range whose low bits are those of the draw, or of two draws, the
      first of which is the high half. */
  lemma DrawnExactly(kind: ParamKind, s: Lcg.U64)
    requires kind != Bool
    ensures var first := Lcg.Step(s);
            var draw := if DrawCount(kind) == 2 then first * TwoTo(64) + Lcg.Step(first) else first;
            && Least(kind) <= DrawnNumber(kind, s) <= Greatest(kind)
            && exists m: int :: draw == DrawnNumber(kind, s) + m * TwoTo(Bits(kind))
  {
    var first := Lcg.Step(s);
    var draw := if DrawCount(kind) == 2 then first * TwoTo(64) + Lcg.Step(first) else first;
    WidthsAre();
    DrawnInRange(kind, s);
    var m := if kind == U32 then first / TWO32
             else if kind == I32 then first / TWO32 + (if 2 * (first % TWO32) >= TWO32 then 1 else 0)
             else if kind == I64 then (if 2 * first >= TWO64 then 1 else 0)
             else if kind == I128 then (if 2 * draw >= TWO128 then 1 else 0)
             else 0;
    assert draw == DrawnNumber(kind, s) + m * TwoTo(Bits(kind));
  }

  function CandidateNumbers(kind: ParamKind, s: Lcg.U64): (numbers: seq<int>)
    ensures 2 <= |numbers| <= 6
  {
    Boundaries(kind) + if kind.Bool? then [] else [DrawnNumber(kind, s)]
  }

  function Candidates(kind: ParamKind, s: Lcg.U64): (values: seq<ScVal>)
    ensures |values| == |CandidateNumbers(kind, s)|
  {
    var numbers := CandidateNumbers(kind, s);
    seq(|numbers|, i requires 0 <= i < |numbers| => OfNumber(kind, numbers[i]))
  }

  lemma DrawnInRange(kind: ParamKind, s: Lcg.U64)
    ensures Least(kind) <= DrawnNumber(kind, s) <= Greatest(kind)
  {
  }

  /** Every candidate is an argument its parameter accepts, and both ends of the kind's range are
      among them. */
  lemma CandidatesFit(kind: ParamKind, s: Lcg.U64)
    ensures forall i :: 0 <= i < |Candidates(kind, s)| ==> Fits(kind, Candidates(kind, s)[i])
    ensures OfNumber(kind, Least(kind)) in Candidates(kind, s)
    ensures OfNumber(kind, Greatest(kind)) in Candidates(kind, s)
  {
    var numbers := CandidateNumbers(kind, s);
    DrawnInRange(kind, s);
    forall i | 0 <= i < |numbers| ensures Fits(kind, Candidates(kind, s)[i]) {
      NumberKept(kind, numbers[i]);
    }
    var n := |Boundaries(kind)|;
    assert numbers[0] == Least(kind) && numbers[n - 1] == Greatest(kind);
    assert Candidates(kind, s)[0] == OfNumber(kind, Least(kind));
    assert Candidates(kind, s)[n - 1] == OfNumber(kind, Greatest(kind));
  }

  method CandidatesFor(kind: ParamKind, seed: Lcg.Generator) returns (values: seq<ScVal>)
    requires seed.Valid()
    modifies seed
    ensures seed.Valid() && seed.seed == old(seed.seed) && seed.count == old(seed.count) + DrawCount(kind)
    ensures values == Candidates(kind, old(seed.state))
  {
    match kind {
      case Bool =>
        values := [BoolVal(false), BoolVal(true)];
      case U32 =>
        var v := [0, 1, 2, 0xFFFF_FFFF];
        var r := seed.Next();
        v := v + [r % TWO32];
        values := seq(5, i requires 0 <= i < 5 => U32Val(v[i]));
      case I32 =>
        var v := [-0x8000_0000, -1, 0, 1, 0x7FFF_FFFF];
        var r := seed.Next();
        v := v + [Signed(r % TWO32, TWO32)];
        values := seq(6, i requires 0 <= i < 6 => I32Val(v[i]));
      case U64 =>
        var v := [0, 1, 2, 0xFFFF_FFFF_FFFF_FFFF];
        var r := seed.Next();
        v := v + [r];
        values := seq(5, i requires 0 <= i < 5 => U64Val(v[i]));
      case I64 =>
        var v := [-0x8000_0000_0000_0000, -1, 0, 1, 0x7FFF_FFFF_FFFF_FFFF];
        var r := seed.Next();
        v := v + [Signed(r, TWO64)];
        values := seq(6, i requires 0 <= i < 6 => I64Val(v[i]));
      case U128 =>
        var v := [0, 1, 0xFFFF_FFFF_FFFF_FFFF_FFFF_FFFF_FFFF_FFFF];
        var high := seed.Next();
        var low := seed.Next();
        v := v + [high * TWO64 + low];
        values := seq(4, i requires 0 <= i < 4 => U128OfNumber(v[i]));
      case I128 =>
        var v := [-0x8000_0000_0000_0000_0000_0000_0000_0000, -1, 0, 1, 0x7FFF_FFFF_FFFF_FFFF_FFFF_FFFF_FFFF_FFFF];
        var high := seed.Next();
        var low := seed.Next();
        v := v + [Signed(high * TWO64 + low, TWO128)];
        values := seq(6, i requires 0 <= i < 6 => I128OfNumber(v[i]));
    }
  }

  // ---------------------------------------------------------------------
  // The product, numbered
  // ---------------------------------------------------------------------

  /** The number of vectors in the product of some candidate lists. */
  function Product<T>(lists: seq<seq<T>>): nat {
    if lists == [] then 1 else Product(lists[..|lists| - 1]) * |lists[|lists| - 1]|
  }

  predicate NoneEmpty<T>(lists: seq<seq<T>>) { forall i :: 0 <= i < |lists| ==> lists[i] != [] }

  /** One position per list. */
  predicate IsChoice<T>(lists: seq<seq<T>>, choice: seq<nat>) {
    |choice| == |lists| && forall i :: 0 <= i < |lists| ==> choice[i] < |lists[i]|
  }

  /** The vector chosen by some positions. */
  function Pick<T>(lists: seq<seq<T>>, choice: seq<nat>): (v: seq<T>)
    requires IsChoice(lists, choice)
    ensures |v| == |lists|
  {
    seq(|lists|, i requires 0 <= i < |lists| => lists[i][choice[i]])
  }

  /** The `k`-th choice when the last list varies fastest. */
  function Choice<T>(lists: seq<seq<T>>, k: nat): (choice: seq<nat>)
    requires NoneEmpty(lists) && k < Product(lists)
    ensures |choice| == |lists| && forall i :: 0 <= i < |lists| ==> choice[i] < |lists[i]|
    decreases |lists|
  {
    if lists == [] then []
    else
      var n := |lists| - 1;
      DivModBelow(k, |lists[n]|, Product(lists[..n]));
      Choice(lists[..n], k / |lists[n]|) + [k % |lists[n]|]
  }

  lemma DivModBelow(k: nat, c: nat, p: nat)
    requires c > 0 && k < p * c
    ensures k / c < p && k % c < c
  {
    if k / c >= p { Monotone(p, k / c, c); }
  }

  lemma Monotone(a: nat, b: nat, c: nat)
    requires a <= b
    ensures a * c <= b * c
  {
  }

  /** The number of a choice. */
  function Rank<T>(lists: seq<seq<T>>, choice: seq<nat>): nat
    requires |choice| == |lists|
  {
    if lists == [] then 0
    else
      var n := |lists| - 1;
      Rank(lists[..n], choice[..n]) * |lists[n]| + choice[n]
  }

  lemma {:induction false} RankOfChoice<T>(lists: seq<seq<T>>, k: nat)
    requires NoneEmpty(lists) && k < Product(lists)
    ensures Rank(lists, Choice(lists, k)) == k
    decreases |lists|
  {
    if lists != [] {
      var n := |lists| - 1;
      DivModBelow(k, |lists[n]|, Product(lists[..n]));
      RankOfChoice(lists[..n], k / |lists[n]|);
      assert Choice(lists, k)[..n] == Choice(lists[..n], k / |lists[n]|);
    }
  }

  lemma {:induction false} ChoiceOfRank<T>(lists: seq<seq<T>>, choice: seq<nat>)
    requires NoneEmpty(lists) && IsChoice(lists, choice)
    ensures Rank(lists, choice) < Product(lists)
    ensures Choice(lists, Rank(lists, choice)) == choice
    decreases |lists|
  {
    if lists != [] {
      var n := |lists| - 1;
      ChoiceOfRank(lists[..n], choice[..n]);
      DigitOf(Rank(lists[..n], choice[..n]), choice[n], |lists[n]|, Product(lists[..n]));
      assert choice == choice[..n] + [choice[n]];
    }
  }

  lemma DigitOf(a: nat, b: nat, c: nat, p: nat)
    requires b < c && a < p
    ensures (a * c + b) / c == a && (a * c + b) % c == b && a * c + b < p * c
  {
    Above(a, p, c);
    QuotientIs(a * c + b, c, a, b);
  }

  lemma Above(a: nat, q: nat, c: nat)
    requires a < q
    ensures a * c + c <= q * c
  {
    Monotone(a + 1, q, c);
  }

  lemma QuotientIs(x: nat, c: nat, a: nat, b: nat)
    requires x == a * c + b && b < c
    ensures x / c == a && x % c == b
  {
    assert x == x / c * c + x % c;
    if x / c > a {
      Above(a, x / c, c);
    } else if x / c < a {
      Above(x / c, a, c);
    }
  }

  // ---------------------------------------------------------------------
  // The capped walk
  // ---------------------------------------------------------------------

  function Min(a: nat, b: nat): nat { if a < b then a else b }

  const CAP := MAX_CASES_PER_FN * 8

  /** The lists of candidates of all parameters, drawn in order from one generator. */
  function AllCandidates(kinds: seq<ParamKind>, s: Lcg.U64): (lists: seq<seq<ScVal>>)
    ensures |lists| == |kinds| && NoneEmpty(lists)
  {
    var cand := (kind: ParamKind, s: Lcg.U64) => Candidates(kind, s);
    AllOfNoneEmpty(kinds, s, cand);
    AllOf(kinds, s, cand)
  }

  /** The lists some function makes for each parameter, from the state its draws start in. */
  function AllOf<T>(kinds: seq<ParamKind>, s: Lcg.U64, cand: (ParamKind, Lcg.U64) -> seq<T>): (lists: seq<seq<T>>)
    ensures |lists| == |kinds|
  {
    if kinds == [] then []
    else [cand(kinds[0], s)] + AllOf(kinds[1..], Lcg.Draws(s, DrawCount(kinds[0])), cand)
  }

  lemma {:induction false} AllOfNoneEmpty<T>(kinds: seq<ParamKind>, s: Lcg.U64, cand: (ParamKind, Lcg.U64) -> seq<T>)
    requires forall kind: ParamKind, s: Lcg.U64 :: cand(kind, s) != []
    ensures NoneEmpty(AllOf(kinds, s, cand))
    decreases |kinds|
  {
    if kinds != [] {
      AllOfNoneEmpty(kinds[1..], Lcg.Draws(s, DrawCount(kinds[0])), cand);
    }
  }

  lemma {:induction false} AllOfAt<T>(seed: Lcg.U64, kinds: seq<ParamKind>, i: nat,
                                      cand: (ParamKind, Lcg.U64) -> seq<T>)
    requires i < |kinds|
    ensures AllOf(kinds, seed, cand)[i] == cand(kinds[i], Lcg.Draws(seed, DrawsBefore(kinds, i)))
    decreases i
  {
    if i > 0 {
      var d := DrawCount(kinds[0]);
      AllOfAt(Lcg.Draws(seed, d), kinds[1..], i - 1, cand);
      Lcg.DrawsTwice(seed, d, DrawsBefore(kinds[1..], i - 1));
    }
  }

  /** The draws made for the parameters before the `i`-th. */
  function DrawsBefore(kinds: seq<ParamKind>, i: nat): nat
    requires i <= |kinds|
  {
    if i == 0 then 0 else DrawCount(kinds[0]) + DrawsBefore(kinds[1..], i - 1)
  }

  /** The distance between sampled vectors, of `total` kept ones. */
  function Stride(total: nat): (step: nat)
    ensures step >= 1
    ensures total > MAX_CASES_PER_FN ==> step * MAX_CASES_PER_FN <= total
  {
    if total > MAX_CASES_PER_FN then total / MAX_CASES_PER_FN else 1
  }

  /** The rows are the first vectors of the product, in order. */
  predicate AreFirst<T(==)>(rows: seq<seq<T>>, lists: seq<seq<T>>)
    requires NoneEmpty(lists)
  {
    |rows| <= Product(lists) && forall k :: 0 <= k < |rows| ==> rows[k] == Pick(lists, Choice(lists, k))
  }

  /** One more parameter: the product of the rows so far with its candidates. */
  method Extend<T(==)>(ghost lists: seq<seq<T>>, rows: seq<seq<T>>, cand: seq<T>) returns (next: seq<seq<T>>)
    requires NoneEmpty(lists) && cand != [] && AreFirst(rows, lists)
    ensures |next| == |rows| * |cand|
    ensures AreFirst(next, lists + [cand])
  {
    next := [];
    ProductGrows(lists, cand);
    for a := 0 to |rows|
      invariant |next| == a * |cand|
      invariant AreFirst(next, lists + [cand])
    {
      next := ExtendRow(lists, next, a, rows[a], cand);
    }
  }

  /** The inner loop: one row with each candidate. */
  method ExtendRow<T(==)>(ghost lists: seq<seq<T>>, before: seq<seq<T>>, ghost a: nat, prefix: seq<T>, cand: seq<T>)
    returns (next: seq<seq<T>>)
    requires NoneEmpty(lists) && cand != [] && a < Product(lists) && prefix == Pick(lists, Choice(lists, a))
    requires |before| == a * |cand| && AreFirst(before, lists + [cand])
    ensures |next| == (a + 1) * |cand| && AreFirst(next, lists + [cand])
  {
    next := before;
    ghost var all := lists + [cand];
    for b := 0 to |cand|
      invariant |next| == a * |cand| + b
      invariant AreFirst(next, all)
    {
      NextVector(lists, cand, a, b);
      FirstGrows(next, all, prefix + [cand[b]]);
      next := next + [prefix + [cand[b]]];
    }
    NextRowStarts(a, |cand|);
  }

  lemma FirstGrows<T>(rows: seq<seq<T>>, lists: seq<seq<T>>, v: seq<T>)
    requires NoneEmpty(lists) && AreFirst(rows, lists)
    requires |rows| < Product(lists) && v == Pick(lists, Choice(lists, |rows|))
    ensures AreFirst(rows + [v], lists)
  {
  }

  lemma NextRowStarts(a: nat, c: nat)
    ensures (a + 1) * c == a * c + c
  {
  }

  lemma ProductGrows<T>(lists: seq<seq<T>>, cand: seq<T>)
    ensures Product(lists + [cand]) == Product(lists) * |cand|
  {
    assert (lists + [cand])[..|lists|] == lists;
  }

  lemma NextVector<T>(lists: seq<seq<T>>, cand: seq<T>, a: nat, b: nat)
    requires NoneEmpty(lists) && b < |cand| && a < Product(lists)
    ensures var all, k := lists + [cand], a * |cand| + b;
            k < Product(all) && Pick(all, Choice(all, k)) == Pick(lists, Choice(lists, a)) + [cand[b]]
  {
    var all, k := lists + [cand], a * |cand| + b;
    DigitOf(a, b, |cand|, Product(lists));
    assert all[..|lists|] == lists;
  }

  /** The size of the largest list. */
  function Largest<T>(lists: seq<seq<T>>): (n: nat)
    ensures forall i :: 0 <= i < |lists| ==> |lists[i]| <= n
  {
    if lists == [] then 0
    else
      var rest := Largest(lists[1..]);
      if |lists[0]| > rest then |lists[0]| else rest
  }

  /** The sample: evenly spaced vectors of the product, from its first one on. */
  predicate IsSample<T(==)>(lists: seq<seq<T>>, out: seq<seq<T>>)
    requires NoneEmpty(lists)
  {
    && |out| == Min(MAX_CASES_PER_FN, Product(lists))
    && forall j :: 0 <= j < |out| ==> IsPicked(lists, j, out[j])
  }

  predicate IsPicked<T(==)>(lists: seq<seq<T>>, j: nat, v: seq<T>)
    requires NoneEmpty(lists)
  {
    var k := j * Stride(Min(CAP, Product(lists)));
    k < Product(lists) && v == Pick(lists, Choice(lists, k))
  }

  lemma {:induction false} DrawsBeforeNext(kinds: seq<ParamKind>, i: nat)
    requires i < |kinds|
    ensures DrawsBefore(kinds, i + 1) == DrawsBefore(kinds, i) + DrawCount(kinds[i])
    decreases i
  {
    if i > 0 { DrawsBeforeNext(kinds[1..], i - 1); }
  }

  lemma AllOfIs<T>(seed: Lcg.U64, kinds: seq<ParamKind>, cand: (ParamKind, Lcg.U64) -> seq<T>, lists: seq<seq<T>>)
    requires |lists| == |kinds|
    requires forall j :: 0 <= j < |lists| ==> lists[j] == cand(kinds[j], Lcg.Draws(seed, DrawsBefore(kinds, j)))
    ensures lists == AllOf(kinds, seed, cand)
  {
    forall j | 0 <= j < |lists| ensures lists[j] == AllOf(kinds, seed, cand)[j] {
      AllOfAt(seed, kinds, j, cand);
    }
  }

  method CandidatesForAll(seed: Lcg.U64, kinds: seq<ParamKind>) returns (lists: seq<seq<ScVal>>)
    ensures lists == AllCandidates(kinds, seed)
  {
    lists := DrawAll(seed, kinds, (kind: ParamKind, s: Lcg.U64) => Candidates(kind, s));
  }

  method DrawAll(seed: Lcg.U64, kinds: seq<ParamKind>, ghost cand: (ParamKind, Lcg.U64) -> seq<ScVal>)
    returns (lists: seq<seq<ScVal>>)
    requires forall kind: ParamKind, s: Lcg.U64 {:trigger Candidates(kind, s)} :: cand(kind, s) == Candidates(kind, s)
    ensures lists == AllOf(kinds, seed, cand)
  {
    var g := new Lcg.Generator(seed);
    lists := [];
    for i := 0 to |kinds|
      invariant g.Valid() && fresh(g) && g.seed == seed && g.count == DrawsBefore(kinds, i)
      invariant |lists| == i
      invariant forall j :: 0 <= j < i ==> lists[j] == cand(kinds[j], Lcg.Draws(seed, DrawsBefore(kinds, j)))
    {
      DrawsBeforeNext(kinds, i);
      var c := CandidatesFor(kinds[i], g);
      lists := lists + [c];
    }
    AllOfIs(seed, kinds, cand, lists);
  }

  /** One parameter more, the product kept bounded. */
  method Grow<T(==)>(ghost lists: seq<seq<T>>, rows: seq<seq<T>>, cand: seq<T>, ghost most: nat)
    returns (kept: seq<seq<T>>, ghost size: nat)
    requires NoneEmpty(lists) && AreFirst(rows, lists) && |rows| == Min(CAP, Product(lists))
    requires cand != [] && |cand| <= most
    ensures AreFirst(kept, lists + [cand]) && |kept| == Min(CAP, Product(lists + [cand]))
    ensures size <= CAP * most
  {
    kept := Extend(lists, rows, cand);
    size := |kept|;
    ProductGrows(lists, cand);
    CappedGrowth(|rows|, Product(lists), |cand|, most);
    if |kept| > CAP { kept := kept[..CAP]; }
  }

  method GenCases(seed: Lcg.U64, kinds: seq<ParamKind>) returns (out: seq<seq<ScVal>>, ghost peak: nat)
    ensures IsSample(AllCandidates(kinds, seed), out)
    ensures peak <= CAP * Largest(AllCandidates(kinds, seed))
  {
    var lists := CandidatesForAll(seed, kinds);
    out, peak := Walk(lists);
    out := Thin(lists, out);
  }

  /** The loop over the parameters. */
  method Walk<T(==)>(lists: seq<seq<T>>) returns (out: seq<seq<T>>, ghost peak: nat)
    requires NoneEmpty(lists)
    ensures AreFirst(out, lists) && |out| == Min(CAP, Product(lists))
    ensures peak <= CAP * Largest(lists)
  {
    ghost var most := Largest(lists);
    out, peak := [[]], 0;
    for i := 0 to |lists|
      invariant AreFirst(out, lists[..i]) && |out| == Min(CAP, Product(lists[..i]))
      invariant peak <= CAP * most
    {
      assert lists[..i + 1] == lists[..i] + [lists[i]];
      ghost var size;
      out, size := Grow(lists[..i], out, lists[i], most);
      if size > peak { peak := size; }
    }
    assert lists[..|lists|] == lists;
  }

  /** The final sampling. */
  method Thin<T(==)>(ghost lists: seq<seq<T>>, rows: seq<seq<T>>) returns (out: seq<seq<T>>)
    requires NoneEmpty(lists) && AreFirst(rows, lists) && |rows| == Min(CAP, Product(lists))
    ensures IsSample(lists, out)
  {
    if |rows| > MAX_CASES_PER_FN {
      out := Sample(lists, rows);
    } else {
      out := rows;
    }
  }

  lemma CappedGrowth(kept: nat, product: nat, c: nat, most: nat)
    requires kept == Min(CAP, product) && 1 <= c <= most
    ensures Min(CAP, kept * c) == Min(CAP, product * c) && kept * c <= CAP * most
  {
    if product >= CAP {
      Monotone(CAP, product, c);
      Monotone(1, c, CAP);
    }
    Monotone(kept, CAP, c);
    Monotone(c, most, CAP);
  }

  /** Every `step`-th row, and no more than the most cases allowed. */
  method Sample<T(==)>(ghost lists: seq<seq<T>>, rows: seq<seq<T>>) returns (out: seq<seq<T>>)
    requires NoneEmpty(lists) && AreFirst(rows, lists) && |rows| == Min(CAP, Product(lists))
    requires |rows| > MAX_CASES_PER_FN
    ensures IsSample(lists, out)
  {
    var step := |rows| / MAX_CASES_PER_FN;
    out := [];
    var i := 0;
    while i < |rows| && |out| < MAX_CASES_PER_FN
      invariant |out| <= MAX_CASES_PER_FN && i == |out| * step
      invariant forall j :: 0 <= j < |out| ==> IsPicked(lists, j, out[j])
    {
      RowIsPicked(lists, rows, |out|, step);
      out := out + [rows[i]];
      assert (|out| - 1) * step + step == |out| * step;
      i := i + step;
    }
    if |out| < MAX_CASES_PER_FN { Above(|out|, MAX_CASES_PER_FN, step); }
  }

  lemma RowIsPicked<T>(lists: seq<seq<T>>, rows: seq<seq<T>>, j: nat, step: nat)
    requires NoneEmpty(lists) && AreFirst(rows, lists) && |rows| == Min(CAP, Product(lists))
    requires |rows| > MAX_CASES_PER_FN && step == |rows| / MAX_CASES_PER_FN && j * step < |rows|
    ensures IsPicked(lists, j, rows[j * step])
  {
  }

  // ---------------------------------------------------------------------
  // What the sample holds
  // ---------------------------------------------------------------------

  /** The choice behind the `j`-th case. */
  function CaseChoice<T>(lists: seq<seq<T>>, j: nat): seq<nat>
    requires NoneEmpty(lists) && j < Min(MAX_CASES_PER_FN, Product(lists))
  {
    StrideFits(Product(lists), j);
    Choice(lists, j * Stride(Min(CAP, Product(lists))))
  }

  lemma StrideFits(product: nat, j: nat)
    requires j < Min(MAX_CASES_PER_FN, product)
    ensures j * Stride(Min(CAP, product)) < product
  {
    var total := Min(CAP, product);
    var step := Stride(total);
    if total > MAX_CASES_PER_FN { Above(j, MAX_CASES_PER_FN, step); }
  }

  /** No two cases come from the same choice of candidates. */
  lemma ChoicesAreDistinct<T>(lists: seq<seq<T>>, i: nat, j: nat)
    requires NoneEmpty(lists) && i < j < Min(MAX_CASES_PER_FN, Product(lists))
    ensures CaseChoice(lists, i) != CaseChoice(lists, j)
  {
    CaseRank(lists, i);
    CaseRank(lists, j);
    Above(i, j, Stride(Min(CAP, Product(lists))));
  }

  lemma CaseRank<T>(lists: seq<seq<T>>, j: nat)
    requires NoneEmpty(lists) && j < Min(MAX_CASES_PER_FN, Product(lists))
    ensures Rank(lists, CaseChoice(lists, j)) == j * Stride(Min(CAP, Product(lists)))
  {
    StrideFits(Product(lists), j);
    RankOfChoice(lists, j * Stride(Min(CAP, Product(lists))));
  }

  ghost predicate IsCovered<T(!new)>(lists: seq<seq<T>>, choice: seq<nat>)
    requires NoneEmpty(lists)
  {
    exists j: nat :: j < Min(MAX_CASES_PER_FN, Product(lists)) && CaseChoice(lists, j) == choice
  }

  ghost predicate CoversAll<T(!new)>(lists: seq<seq<T>>)
    requires NoneEmpty(lists)
  {
    forall choice: seq<nat> :: IsChoice(lists, choice) ==> IsCovered(lists, choice)
  }

  /** The sample is the full product exactly when the product has no more vectors than the limit. */
  lemma FullProductExactlyWhen<T(!new)>(lists: seq<seq<T>>)
    requires NoneEmpty(lists)
    ensures CoversAll(lists) <==> Product(lists) <= MAX_CASES_PER_FN
  {
    if Product(lists) <= MAX_CASES_PER_FN {
      forall choice: seq<nat> | IsChoice(lists, choice) ensures IsCovered(lists, choice) {
        ChoiceOfRank(lists, choice);
        assert CaseChoice(lists, Rank(lists, choice)) == choice;
      }
    } else {
      var k := Missed(Product(lists));
      var choice := Choice(lists, k);
      RankOfChoice(lists, k);
      forall j: nat | j < MAX_CASES_PER_FN ensures CaseChoice(lists, j) != choice {
        CaseRank(lists, j);
      }
      assert IsChoice(lists, choice) && !IsCovered(lists, choice);
    }
  }

  /** A number the sample steps over or does not reach. */
  lemma Missed(product: nat) returns (k: nat)
    requires product > MAX_CASES_PER_FN
    ensures k < product
    ensures forall j: nat :: j < MAX_CASES_PER_FN ==> j * Stride(Min(CAP, product)) != k
  {
    var step := Stride(Min(CAP, product));
    k := if step == 1 then MAX_CASES_PER_FN else 1;
    forall j: nat | j < MAX_CASES_PER_FN ensures j * step != k {
      if j > 0 && step > 1 { Monotone(1, j, step); }
    }
  }

  /** Each case has one argument per parameter, and each argument fits its parameter. */
  lemma CasesFit(seed: Lcg.U64, kinds: seq<ParamKind>, out: seq<seq<ScVal>>, j: nat, i: nat)
    requires IsSample(AllCandidates(kinds, seed), out) && j < |out| && i < |kinds|
    ensures |out[j]| == |kinds| && Fits(kinds[i], out[j][i])
  {
    var lists := AllCandidates(kinds, seed);
    assert IsPicked(lists, j, out[j]);
    CandidatesAt(seed, kinds, i);
    CandidatesFit(kinds[i], Lcg.Draws(seed, DrawsBefore(kinds, i)));
  }

  lemma CandidatesAt(seed: Lcg.U64, kinds: seq<ParamKind>, i: nat)
    requires i < |kinds|
    ensures AllCandidates(kinds, seed)[i] == Candidates(kinds[i], Lcg.Draws(seed, DrawsBefore(kinds, i)))
  {
    AllOfAt(seed, kinds, i, (kind: ParamKind, s: Lcg.U64) => Candidates(kind, s));
  }

  lemma {:induction false} DrawsGrow(kinds: seq<ParamKind>, i: nat, j: nat)
    requires i <= j <= |kinds|
    ensures DrawsBefore(kinds, i) <= DrawsBefore(kinds, j) <= DrawsBefore(kinds, i) + 2 * (j - i)
    ensures i < j ==> DrawsBefore(kinds, j) >= DrawsBefore(kinds, i) + DrawCount(kinds[i])
    decreases j
  {
    if i > 0 {
      DrawsGrow(kinds[1..], i - 1, j - 1);
    } else if j > 0 {
      DrawsGrow(kinds[1..], 0, j - 1);
    }
  }

  /** Two 64-bit parameters never get the same random number. */
  lemma RandomNumbersDiffer(seed: Lcg.U64, kinds: seq<ParamKind>, i: nat, j: nat)
    requires i < j < |kinds| && 2 * |kinds| < Lcg.MODULUS && kinds[i].U64? && kinds[j].U64?
    ensures var lists := AllCandidates(kinds, seed);
            |lists[i]| == |lists[j]| == 5 && lists[i][4] != lists[j][4]
  {
    var a, b := DrawsBefore(kinds, i), DrawsBefore(kinds, j);
    CandidatesAt(seed, kinds, i);
    CandidatesAt(seed, kinds, j);
    DrawsGrow(kinds, i, j);
    Lcg.NoRepetition(seed, a + 1, b + 1);
  }
}
