/** The CRC16 of a contract address and the decoder that checks it.

    Polynomials over GF(2) are written as their coefficients, highest power first. */
module Crc {

  type Poly = seq<bool>

  // ---------------------------------------------------------------------
  // Polynomials
  // ---------------------------------------------------------------------

  function Zeros(n: nat): (p: Poly)
    ensures |p| == n
  {
    seq(n, _ => false)
  }

  /** The sum of two polynomials; it is also their difference. */
  function Plus(p: Poly, q: Poly): (r: Poly)
    requires |p| == |q|
    ensures |r| == |p|
  {
    seq(|p|, i requires 0 <= i < |p| => p[i] != q[i])
  }

  /** The schoolbook product. */
  function Times(q: Poly, p: Poly): (r: Poly)
    requires |p| > 0
    ensures |r| == |q| + |p| - 1
    decreases |q|
  {
    if q == [] then Zeros(|p| - 1)
    else Plus((if q[0] then p else Zeros(|p|)) + Zeros(|q| - 1), [false] + Times(q[1..], p))
  }

  /** A generator of degree 16. */
  predicate IsGenerator(g: Poly) { |g| == 17 && g[0] }

  /** `r` is what is left of `m` x^16 after the multiple `q` of the generator is taken off. */
  predicate IsDivision(m: Poly, q: Poly, r: Poly, g: Poly) {
    && |r| == 16 && |q| == |m| && |g| == 17
    && m + Zeros(16) == Plus(Times(q, g), Zeros(|m|) + r)
  }

  ghost predicate IsRemainder(m: Poly, r: Poly, g: Poly) { exists q: Poly :: IsDivision(m, q, r, g) }

  /** Division with remainder is unique. */
  lemma {:induction false} DivisionIsUnique(q: Poly, r: Poly, q': Poly, r': Poly, g: Poly)
    requires |q| == |q'| && |r| == |r'| == 16 && IsGenerator(g)
    requires Plus(Times(q, g), Zeros(|q|) + r) == Plus(Times(q', g), Zeros(|q|) + r')
    ensures q == q' && r == r'
  {
    if q == [] {
      ZeroPlus(r);
      ZeroPlus(r');
    } else {
      LeadingCoefficient(q, r, g);
      LeadingCoefficient(q', r', g);
      DivisionIsUnique(q[1..], r, q'[1..], r', g);
      assert q == [q[0]] + q[1..] && q' == [q'[0]] + q'[1..];
    }
  }

  lemma ZeroPlus(r: Poly)
    requires |r| == 16
    ensures Plus(Zeros(16), Zeros(0) + r) == r
  {
  }

  function Head(b: bool, g: Poly, n: nat): (p: Poly)
    requires |g| > 0
    ensures |p| == n + |g|
  {
    (if b then g else Zeros(|g|)) + Zeros(n)
  }

  lemma TimesStep(q: Poly, g: Poly)
    requires q != [] && |g| > 0
    ensures Times(q, g) == Plus(Head(q[0], g, |q| - 1), [false] + Times(q[1..], g))
  {
  }

  /** Taking the first step of a product off a division leaves the division of the rest. */
  lemma LeadingCoefficient(q: Poly, r: Poly, g: Poly)
    requires q != [] && |r| == 16 && IsGenerator(g)
    ensures var d := Plus(Times(q, g), Zeros(|q|) + r);
            d[0] == q[0]
            && Plus(Times(q[1..], g), Zeros(|q| - 1) + r) == Plus(d, Head(q[0], g, |q| - 1))[1..]
  {
    var n := |q| - 1;
    var h, a, b := Head(q[0], g, n), Times(q[1..], g), Zeros(n) + r;
    TimesStep(q, g);
    assert Zeros(|q|) + r == [false] + b;
    assert h[0] == q[0];
    PlusCancels(h, a, b);
  }

  lemma PlusCancels(h: Poly, a: Poly, b: Poly)
    requires |h| == |a| + 1 && |a| == |b|
    ensures var d := Plus(Plus(h, [false] + a), [false] + b);
            d[0] == h[0] && Plus(d, h)[1..] == Plus(a, b)
  {
  }

  // ---------------------------------------------------------------------
  // The register, as a polynomial
  // ---------------------------------------------------------------------

  /** One round of the inner loop: multiply by x and reduce. */
  function Shift(r: Poly, g: Poly): (r': Poly)
    requires |r| == 16 && |g| == 17
    ensures |r'| == 16
  {
    if r[0] then Plus(r[1..] + [false], g[1..]) else r[1..] + [false]
  }

  function Shifts(r: Poly, n: nat, g: Poly): (r': Poly)
    requires |r| == 16 && |g| == 17
    ensures |r'| == 16
    decreases n
  {
    if n == 0 then r else Shifts(Shift(r, g), n - 1, g)
  }

  /** Bits absorbed at the top of the register. */
  function Absorb(r: Poly, w: Poly): (r': Poly)
    requires |r| == 16 && |w| <= 16
    ensures |r'| == 16
  {
    Plus(r, w + Zeros(16 - |w|))
  }

  /** The register after some more bits, one at a time. */
  function Run(r: Poly, m: Poly, g: Poly): (r': Poly)
    requires |r| == 16 && |g| == 17
    ensures |r'| == 16
    decreases |m|
  {
    if m == [] then r else Run(Shift(Absorb(r, m[..1]), g), m[1..], g)
  }

  lemma {:induction false} RunOn(r: Poly, m: Poly, n: Poly, g: Poly)
    requires |r| == 16 && |g| == 17
    ensures Run(r, m + n, g) == Run(Run(r, m, g), n, g)
    decreases |m|
  {
    if m == [] {
      assert m + n == n;
    } else {
      RunOn(Shift(Absorb(r, m[..1]), g), m[1..], n, g);
      assert (m + n)[1..] == m[1..] + n && (m + n)[..1] == m[..1];
    }
  }

  lemma ShiftAdds(a: Poly, b: Poly, g: Poly)
    requires |a| == 16 && |b| == 16 && |g| == 17
    ensures Shift(Plus(a, b), g) == Plus(Shift(a, g), Shift(b, g))
  {
    assert Plus(a, b)[0] == (a[0] != b[0]);
    assert forall i :: 0 <= i < 16 ==> Shift(Plus(a, b), g)[i] == (Shift(a, g)[i] != Shift(b, g)[i]);
  }

  /** The later bits of a word may wait in the low bits of the register. */
  lemma AbsorbFirst(r: Poly, w: Poly, g: Poly)
    requires |r| == 16 && 0 < |w| <= 16 && |g| == 17
    ensures Shift(Absorb(r, w), g) == Absorb(Shift(Absorb(r, w[..1]), g), w[1..])
  {
    var late := [false] + w[1..] + Zeros(16 - |w|);
    assert Absorb(r, w) == Plus(Absorb(r, w[..1]), late);
    ShiftAdds(Absorb(r, w[..1]), late, g);
    assert Shift(late, g) == w[1..] + Zeros(17 - |w|);
  }

  /** Up to sixteen bits may be absorbed at once. */
  lemma {:induction false} RunIsShifts(r: Poly, w: Poly, g: Poly)
    requires |r| == 16 && |w| <= 16 && |g| == 17
    ensures Run(r, w, g) == Shifts(Absorb(r, w), |w|, g)
    decreases |w|
  {
    if w == [] {
      assert Absorb(r, w) == r;
    } else {
      AbsorbFirst(r, w, g);
      RunIsShifts(Shift(Absorb(r, w[..1]), g), w[1..], g);
    }
  }

  // ---------------------------------------------------------------------
  // The register holds the remainder
  // ---------------------------------------------------------------------

  /** One bit: x times the register, plus the bit times x^16, less a multiple of the generator. */
  lemma DivideBit(r: Poly, c: bool, g: Poly) returns (t: bool)
    requires |r| == 16 && IsGenerator(g)
    ensures Plus(r + [false], [c] + Zeros(16)) == Plus(Head(t, g, 0), [false] + Shift(Absorb(r, [c]), g))
  {
    t := r[0] != c;
    var next := Shift(Absorb(r, [c]), g);
    assert forall i :: 0 < i < 16 ==> Absorb(r, [c])[i] == r[i];
    assert Absorb(r, [c])[0] == t;
  }

  /** Long division: from register `r`, the bits `m` leave a quotient and the new register. */
  lemma {:induction false} Divide(r: Poly, m: Poly, g: Poly) returns (q: Poly)
    requires |r| == 16 && IsGenerator(g)
    ensures Divides(r, m, q, g)
    decreases |m|
  {
    if m == [] {
      q := [];
      DivideNothing(r, g);
    } else {
      var t := DivideBit(r, m[0], g);
      assert m[..1] == [m[0]];
      var q' := Divide(Shift(Absorb(r, m[..1]), g), m[1..], g);
      q := [t] + q';
      DivideMore(r, m, t, q', g);
    }
  }

  /** The register and the message, less the multiple `q` of the generator, leave the new register. */
  predicate Divides(r: Poly, m: Poly, q: Poly, g: Poly)
    requires |r| == 16 && IsGenerator(g)
  {
    |q| == |m| && Plus(r + Zeros(|m|), m + Zeros(16)) == Plus(Times(q, g), Zeros(|m|) + Run(r, m, g))
  }

  lemma DivideNothing(r: Poly, g: Poly)
    requires |r| == 16 && IsGenerator(g)
    ensures Divides(r, [], [], g)
  {
    assert Plus(r + Zeros(0), [] + Zeros(16)) == r;
    assert Plus(Zeros(16), Zeros(0) + r) == r;
  }

  lemma DivideMore(r: Poly, m: Poly, t: bool, q: Poly, g: Poly)
    requires |r| == 16 && IsGenerator(g) && m != [] && m[..1] == [m[0]]
    requires Divides(Shift(Absorb(r, m[..1]), g), m[1..], q, g)
    requires Plus(r + [false], [m[0]] + Zeros(16)) == Plus(Head(t, g, 0), [false] + Shift(Absorb(r, m[..1]), g))
    ensures Divides(r, m, [t] + q, g)
  {
    var next := Shift(Absorb(r, m[..1]), g);
    DivisionStep(r, m, next, Head(t, g, 0), |m| - 1);
    NextQuotient(t, q, Run(next, m[1..], g), g);
    RunStep(r, m, g);
  }

  lemma RunStep(r: Poly, m: Poly, g: Poly)
    requires |r| == 16 && |g| == 17 && m != []
    ensures Run(r, m, g) == Run(Shift(Absorb(r, m[..1]), g), m[1..], g)
  {
  }

  lemma NextQuotient(t: bool, q: Poly, r: Poly, g: Poly)
    requires |r| == 16 && IsGenerator(g)
    ensures Plus(Times([t] + q, g), Zeros(|q| + 1) + r)
            == Plus(Head(t, g, 0) + Zeros(|q|), [false] + Plus(Times(q, g), Zeros(|q|) + r))
  {
    NextProduct(t, q, g);
    Carry(Head(t, g, 0) + Zeros(|q|), Times(q, g), r, |q|);
  }

  lemma Carry(h: Poly, a: Poly, r: Poly, n: nat)
    requires |h| == n + 17 && |a| == n + 16 && |r| == 16
    ensures Plus(Plus(h, [false] + a), Zeros(n + 1) + r) == Plus(h, [false] + Plus(a, Zeros(n) + r))
  {
    assert Zeros(n + 1) + r == [false] + (Zeros(n) + r);
    Regroup(h, a, Zeros(n) + r);
  }

  lemma NextProduct(t: bool, q: Poly, g: Poly)
    requires IsGenerator(g)
    ensures Times([t] + q, g) == Plus(Head(t, g, 0) + Zeros(|q|), [false] + Times(q, g))
  {
    assert ([t] + q)[1..] == q;
    TimesStep([t] + q, g);
    assert Head(t, g, |q|) == Head(t, g, 0) + Zeros(|q|);
  }

  lemma DivisionStep(r: Poly, m: Poly, next: Poly, head: Poly, n: nat)
    requires |r| == |next| == 16 && |head| == 17 && |m| == n + 1
    requires Plus(r + [false], [m[0]] + Zeros(16)) == Plus(head, [false] + next)
    ensures Plus(r + Zeros(n + 1), m + Zeros(16))
            == Plus(head + Zeros(n), [false] + Plus(next + Zeros(n), m[1..] + Zeros(16)))
  {
    var left := Plus(r + Zeros(n + 1), m + Zeros(16));
    var right := Plus(head + Zeros(n), [false] + Plus(next + Zeros(n), m[1..] + Zeros(16)));
    var a, b := Plus(r + [false], [m[0]] + Zeros(16)), Plus(head, [false] + next);
    forall i | 0 <= i < n + 17 ensures left[i] == right[i] {
      if i < 17 {
        assert a[i] == b[i];
      }
    }
  }

  lemma Regroup(h: Poly, a: Poly, b: Poly)
    requires |h| == |a| + 1 && |a| == |b|
    ensures Plus(h, [false] + Plus(a, b)) == Plus(Plus(h, [false] + a), [false] + b)
  {
  }

  /** The register is the remainder: the one polynomial of degree below 16 that differs from
      the message times x^16 by a multiple of the generator. */
  lemma RegisterIsTheRemainder(m: Poly, r: Poly, g: Poly)
    requires |r| == 16 && IsGenerator(g)
    ensures IsRemainder(m, r, g) <==> r == Run(Zeros(16), m, g)
  {
    var last := Run(Zeros(16), m, g);
    var q := Divide(Zeros(16), m, g);
    assert Plus(Zeros(16) + Zeros(|m|), m + Zeros(16)) == m + Zeros(16);
    assert IsDivision(m, q, last, g);
    forall q': Poly | IsDivision(m, q', r, g) ensures r == last {
      DivisionIsUnique(q, last, q', r, g);
    }
  }

  // ---------------------------------------------------------------------
  // Linearity and bursts
  // ---------------------------------------------------------------------

  /** The remainder of a sum is the sum of the remainders. */
  lemma {:induction false} RunAdds(a: Poly, b: Poly, m: Poly, n: Poly, g: Poly)
    requires |a| == 16 && |b| == 16 && |g| == 17 && |m| == |n|
    ensures Run(Plus(a, b), Plus(m, n), g) == Plus(Run(a, m, g), Run(b, n, g))
    decreases |m|
  {
    if m != [] {
      var a', b' := Absorb(a, m[..1]), Absorb(b, n[..1]);
      AbsorbAdds(a, b, m[..1], n[..1]);
      ShiftAdds(a', b', g);
      RunAdds(Shift(a', g), Shift(b', g), m[1..], n[1..], g);
      assert Plus(m, n)[..1] == Plus(m[..1], n[..1]);
      assert Plus(m, n)[1..] == Plus(m[1..], n[1..]);
    }
  }

  lemma AbsorbAdds(a: Poly, b: Poly, w: Poly, v: Poly)
    requires |a| == 16 && |b| == 16 && |w| == |v| <= 16
    ensures Absorb(Plus(a, b), Plus(w, v)) == Plus(Absorb(a, w), Absorb(b, v))
  {
  }

  /** A generator with a constant term loses nothing by shifting. */
  lemma ShiftKeepsNonzero(r: Poly, g: Poly)
    requires |r| == 16 && |g| == 17 && g[16] && r != Zeros(16)
    ensures Shift(r, g) != Zeros(16)
  {
    var i := SomeTerm(r);
    if r[0] {
      assert Shift(r, g)[15];
    } else {
      assert Shift(r, g)[i - 1];
    }
  }

  lemma SomeTerm(p: Poly) returns (i: nat)
    requires p != Zeros(|p|)
    ensures i < |p| && p[i]
  {
    assert exists j :: 0 <= j < |p| && p[j] != Zeros(|p|)[j];
    i :| i < |p| && p[i];
  }

  lemma {:induction false} ShiftsKeepNonzero(r: Poly, n: nat, g: Poly)
    requires |r| == 16 && |g| == 17 && g[16] && r != Zeros(16)
    ensures Shifts(r, n, g) != Zeros(16)
    decreases n
  {
    if n != 0 {
      ShiftKeepsNonzero(r, g);
      ShiftsKeepNonzero(Shift(r, g), n - 1, g);
    }
  }

  lemma {:induction false} RunOfZeros(r: Poly, n: nat, g: Poly)
    requires |r| == 16 && |g| == 17
    ensures Run(r, Zeros(n), g) == Shifts(r, n, g)
    decreases n
  {
    if n != 0 {
      assert Absorb(r, Zeros(n)[..1]) == r;
      assert Zeros(n)[1..] == Zeros(n - 1);
      RunOfZeros(Shift(r, g), n - 1, g);
    }
  }

  lemma {:induction false} ShiftsOfZero(n: nat, g: Poly)
    requires |g| == 17
    ensures Shifts(Zeros(16), n, g) == Zeros(16)
    decreases n
  {
    if n != 0 {
      assert Shift(Zeros(16), g) == Zeros(16);
      ShiftsOfZero(n - 1, g);
    }
  }

  /** No burst of up to sixteen bits is a multiple of the generator. */
  lemma BurstLeavesRemainder(before: nat, w: Poly, after: nat, g: Poly)
    requires |w| <= 16 && |g| == 17 && g[16] && w != Zeros(|w|)
    ensures Run(Zeros(16), Zeros(before) + w + Zeros(after), g) != Zeros(16)
  {
    var zero := Zeros(16);
    RunOn(zero, Zeros(before) + w, Zeros(after), g);
    RunOn(zero, Zeros(before), w, g);
    RunOfZeros(zero, before, g);
    ShiftsOfZero(before, g);
    RunIsShifts(zero, w, g);
    var r := Absorb(zero, w);
    var i := SomeTerm(w);
    assert r[i];
    ShiftsKeepNonzero(r, |w|, g);
    RunOfZeros(Shifts(r, |w|, g), after, g);
    ShiftsKeepNonzero(Shifts(r, |w|, g), after, g);
  }

  /** Two messages that differ, and only within sixteen bits in a row, leave different remainders. */
  lemma BurstIsSeen(m: Poly, n: Poly, k: nat, len: nat, g: Poly)
    requires |m| == |n| && m != n && |g| == 17 && g[16]
    requires len <= 16 && k + len <= |m| && forall i :: 0 <= i < |m| && !(k <= i < k + len) ==> m[i] == n[i]
    ensures Run(Zeros(16), m, g) != Run(Zeros(16), n, g)
  {
    var w := Plus(m, n)[k..k + len];
    BurstOfDifference(m, n, k, len);
    BurstLeavesRemainder(k, w, |m| - k - len, g);
    RunOfDifference(m, n, g);
    if Run(Zeros(16), m, g) == Run(Zeros(16), n, g) {
      PlusSelf(Run(Zeros(16), m, g));
    }
  }

  lemma BurstOfDifference(m: Poly, n: Poly, k: nat, len: nat)
    requires |m| == |n| && m != n && k + len <= |m|
    requires forall i :: 0 <= i < |m| && !(k <= i < k + len) ==> m[i] == n[i]
    ensures var w := Plus(m, n)[k..k + len];
            Plus(m, n) == Zeros(k) + w + Zeros(|m| - k - len) && w != Zeros(len)
  {
    var w := Plus(m, n)[k..k + len];
    var i :| 0 <= i < |m| && m[i] != n[i];
    assert w[i - k];
  }

  lemma RunOfDifference(m: Poly, n: Poly, g: Poly)
    requires |g| == 17 && |m| == |n|
    ensures Run(Zeros(16), Plus(m, n), g) == Plus(Run(Zeros(16), m, g), Run(Zeros(16), n, g))
  {
    RunAdds(Zeros(16), Zeros(16), m, n, g);
    assert Plus(Zeros(16), Zeros(16)) == Zeros(16);
  }

  lemma PlusSelf(p: Poly)
    ensures Plus(p, p) == Zeros(|p|)
  {
  }

  // ---------------------------------------------------------------------
  // Bytes and words
  // ---------------------------------------------------------------------

  /** x^16 + x^12 + x^5 + 1. */
  function Ccitt(): (g: Poly)
    ensures IsGenerator(g) && g[16]
  {
    seq(17, i => i == 0 || i == 4 || i == 11 || i == 16)
  }

  /** The bit of weight 2^i. */
  function Mask(i: nat): bv16
    requires i < 16
  {
    if i == 0 then 1 else Mask(i - 1) << 1
  }

  predicate Bit(a: bv16, i: nat)
    requires i < 16
  {
    a & Mask(i) != 0
  }

  /** The bits of a register, highest first. */
  function WordBits(a: bv16): (p: Poly)
    ensures |p| == 16
  {
    seq(16, i requires 0 <= i < 16 => Bit(a, 15 - i))
  }

  type Byte = b: bv16 | b & 0xFF00 == 0

  function ByteBits(b: Byte): (p: Poly)
    ensures |p| == 8
  {
    WordBits(b)[8..]
  }

  /** The bits of a message, highest bit of each byte first. */
  function MessageBits(data: seq<Byte>): (p: Poly)
    ensures |p| == 8 * |data|
  {
    if data == [] then [] else ByteBits(data[0]) + MessageBits(data[1..])
  }

  const POLYNOMIAL: bv16 := 0x1021

  predicate IsMask(m: bv16) {
    || m == 1 || m == 2 || m == 4 || m == 8 || m == 0x10 || m == 0x20 || m == 0x40 || m == 0x80
    || m == 0x100 || m == 0x200 || m == 0x400 || m == 0x800 || m == 0x1000 || m == 0x2000 || m == 0x4000 || m == 0x8000
  }

  lemma MaskLow(i: nat)
    requires i < 8
    ensures Mask(i) == if i == 0 then 1 else if i == 1 then 2 else if i == 2 then 4 else if i == 3 then 8
                       else if i == 4 then 0x10 else if i == 5 then 0x20 else if i == 6 then 0x40 else 0x80
  {
    assert Mask(3) == 8;
  }

  lemma MaskHigh(i: nat)
    requires 8 <= i < 16
    ensures Mask(i) == if i == 8 then 0x100 else if i == 9 then 0x200 else if i == 10 then 0x400
                       else if i == 11 then 0x800 else if i == 12 then 0x1000 else if i == 13 then 0x2000
                       else if i == 14 then 0x4000 else 0x8000
  {
    MaskLow(7);
    assert Mask(11) == 0x800;
  }

  lemma MaskIsMask(i: nat)
    requires i < 16
    ensures IsMask(Mask(i)) && (Mask(i) == 1 <==> i == 0) && (Mask(i) & 0xFF00 == 0 <==> i < 8)
    ensures Mask(i) & POLYNOMIAL != 0 <==> i == 0 || i == 5 || i == 12
  {
    if i < 8 { MaskLow(i); } else { MaskHigh(i); }
  }

  // Facts about one bit of a word.

  lemma DoubledBit(a: bv16, m: bv16)
    requires IsMask(m) && m != 0x8000
    ensures (a << 1) & (m << 1) != 0 <==> a & m != 0
  {
  }

  lemma SumBit(a: bv16, b: bv16, m: bv16)
    requires IsMask(m)
    ensures (a ^ b) & m != 0 <==> (a & m != 0) != (b & m != 0)
  {
  }

  lemma MovedBit(b: bv16, m: bv16)
    requires IsMask(m) && b & 0xFF00 == 0 && m & 0xFF00 == 0
    ensures (b << 8) & (m << 8) != 0 <==> b & m != 0
    ensures (b << 8) & m == 0
  {
  }

  lemma TopBit(a: bv16)
    ensures Bit(a, 15) <==> a & 0x8000 != 0
  {
    MaskHigh(15);
  }

  lemma WordSum(a: bv16, b: bv16)
    ensures WordBits(a ^ b) == Plus(WordBits(a), WordBits(b))
  {
    forall i | 0 <= i < 16 ensures Bit(a ^ b, i) == (Bit(a, i) != Bit(b, i)) {
      MaskIsMask(i);
      SumBit(a, b, Mask(i));
    }
  }

  lemma DoubledBitAt(a: bv16, i: nat)
    requires i < 16
    ensures Bit(a << 1, i) == (i > 0 && Bit(a, i - 1))
  {
    if i > 0 { BitMovesUp(a, i - 1); } else { LowestBitGone(a); }
  }

  lemma BitMovesUp(a: bv16, i: nat)
    requires i < 15
    ensures Bit(a << 1, i + 1) == Bit(a, i)
  {
    MaskBelowTop(i);
    DoubledBit(a, Mask(i));
  }

  lemma MaskBelowTop(i: nat)
    requires i < 15
    ensures IsMask(Mask(i)) && Mask(i) != 0x8000 && Mask(i + 1) == Mask(i) << 1
  {
    if i < 8 { MaskLow(i); } else { MaskHigh(i); }
  }

  lemma LowestBitGone(a: bv16)
    ensures !Bit(a << 1, 0)
  {
    assert (a << 1) & 1 == 0;
  }

  lemma MovedBitAt(b: Byte, i: nat)
    requires i < 16
    ensures Bit(b << 8, i) == (i >= 8 && Bit(b, i - 8))
  {
    if i >= 8 {
      MaskMoved(i - 8);
      MaskIsMask(i - 8);
      MovedBit(b, Mask(i - 8));
    } else {
      MaskIsMask(i);
      MovedBit(b, Mask(i));
    }
  }

  lemma WordDoubled(a: bv16)
    ensures WordBits(a << 1) == WordBits(a)[1..] + [false]
  {
    var p := WordBits(a)[1..] + [false];
    forall i | 0 <= i < 16 ensures WordBits(a << 1)[i] == p[i] {
      DoubledBitAt(a, 15 - i);
    }
  }

  lemma PolynomialBits()
    ensures WordBits(POLYNOMIAL) == Ccitt()[1..]
  {
    var p := Ccitt()[1..];
    forall i | 0 <= i < 16 ensures WordBits(POLYNOMIAL)[i] == p[i] {
      MaskIsMask(15 - i);
    }
  }

  /** One round of the inner loop multiplies the register by x and reduces it. */
  lemma WordShift(crc: bv16)
    ensures crc & 0x8000 != 0 ==> WordBits((crc << 1) ^ POLYNOMIAL) == Shift(WordBits(crc), Ccitt())
    ensures crc & 0x8000 == 0 ==> WordBits(crc << 1) == Shift(WordBits(crc), Ccitt())
  {
    WordDoubled(crc);
    WordSum(crc << 1, POLYNOMIAL);
    PolynomialBits();
    TopBit(crc);
  }

  /** The byte enters at the top of the register. */
  lemma WordAbsorb(crc: bv16, b: Byte)
    ensures WordBits(crc ^ (b << 8)) == Absorb(WordBits(crc), ByteBits(b))
  {
    WordSum(crc, b << 8);
    ByteMoved(b);
  }

  lemma ByteMoved(b: Byte)
    ensures WordBits(b << 8) == ByteBits(b) + Zeros(8)
  {
    var p := ByteBits(b) + Zeros(8);
    forall i | 0 <= i < 16 ensures WordBits(b << 8)[i] == p[i] {
      MovedBitAt(b, 15 - i);
    }
  }

  lemma MaskMoved(i: nat)
    requires i < 8
    ensures Mask(i + 8) == Mask(i) << 8
  {
    MaskLow(i);
    MaskHigh(i + 8);
  }

  lemma WordBitsInjective(a: bv16, b: bv16)
    requires WordBits(a) == WordBits(b)
    ensures a == b
  {
    WordSum(a, b);
    var d := a ^ b;
    forall i: nat | i < 16 ensures !Bit(d, i) {
      assert WordBits(d)[15 - i] == Bit(d, i);
      assert WordBits(a)[15 - i] == WordBits(b)[15 - i];
    }
    NoBits(d);
    XorZero(a, b);
  }

  lemma NoBits(d: bv16)
    requires forall i: nat | i < 16 :: !Bit(d, i)
    ensures d == 0
  {
    forall i: nat | i < 16 ensures !Bit(d, i) && IsMask(Mask(i)) { MaskIsMask(i); }
    MaskLow(0); MaskLow(1); MaskLow(2); MaskLow(3); MaskLow(4); MaskLow(5); MaskLow(6); MaskLow(7);
    MaskHigh(8); MaskHigh(9); MaskHigh(10); MaskHigh(11); MaskHigh(12); MaskHigh(13); MaskHigh(14); MaskHigh(15);
    NoMaskedBits(d);
  }

  lemma NoMaskedBits(d: bv16)
    requires d & 1 == 0 && d & 2 == 0 && d & 4 == 0 && d & 8 == 0
    requires d & 0x10 == 0 && d & 0x20 == 0 && d & 0x40 == 0 && d & 0x80 == 0
    requires d & 0x100 == 0 && d & 0x200 == 0 && d & 0x400 == 0 && d & 0x800 == 0
    requires d & 0x1000 == 0 && d & 0x2000 == 0 && d & 0x4000 == 0 && d & 0x8000 == 0
    ensures d == 0
  {
  }

  lemma XorZero(a: bv16, b: bv16)
    requires a ^ b == 0
    ensures a == b
  {
  }

  // ---------------------------------------------------------------------
  // The checksum
  // ---------------------------------------------------------------------

  /** A word with the given bits. */
  function WordOf(p: Poly): (a: bv16)
    requires |p| <= 16
  {
    if p == [] then 0 else (WordOf(p[..|p| - 1]) << 1) | (if p[|p| - 1] then 1 else 0)
  }

  /** The remainder of the message, as the checksum is defined. */
  function Remainder(data: seq<Byte>): (r: Poly)
    ensures |r| == 16
  {
    Run(Zeros(16), MessageBits(data), Ccitt())
  }

  function Checksum(data: seq<Byte>): (r: seq<Byte>)
    ensures |r| == 2
  {
    var crc := WordOf(Remainder(data));
    BytesFit(crc);
    [crc & 0xFF, (crc >> 8) & 0xFF]
  }

  /** The checksum: the remainder's two bytes, low byte first. */
  predicate IsChecksum(data: seq<Byte>, r: seq<Byte>) {
    |r| == 2 && ByteBits(r[1]) + ByteBits(r[0]) == Remainder(data)
  }

  lemma RunByte(crc: bv16, b: Byte, rest: seq<Byte>)
    ensures Run(WordBits(crc), MessageBits([b] + rest), Ccitt())
            == Run(Shifts(WordBits(crc ^ (b << 8)), 8, Ccitt()), MessageBits(rest), Ccitt())
  {
    var g := Ccitt();
    assert ([b] + rest)[1..] == rest;
    RunOn(WordBits(crc), ByteBits(b), MessageBits(rest), g);
    RunIsShifts(WordBits(crc), ByteBits(b), g);
    WordAbsorb(crc, b);
  }

  method Crc16(data: seq<Byte>) returns (r: seq<Byte>)
    ensures IsChecksum(data, r) && r == Checksum(data)
  {
    var crc: bv16 := 0;
    var i := 0;
    assert data[0..] == data;
    ZeroWord();
    while i < |data|
      invariant i <= |data|
      invariant Run(WordBits(crc), MessageBits(data[i..]), Ccitt()) == Remainder(data)
    {
      assert data[i..] == [data[i]] + data[i + 1..];
      RunByte(crc, data[i], data[i + 1..]);
      var b: bv16 := data[i];
      crc := ShiftByte(crc ^ (b << 8));
      i := i + 1;
    }
    BytesFit(crc);
    WordBytes(crc, crc & 0xFF, (crc >> 8) & 0xFF);
    r := [crc & 0xFF, (crc >> 8) & 0xFF];
    ChecksumIsUnique(data, r);
  }

  /** The inner loop. */
  method ShiftByte(begun: bv16) returns (crc: bv16)
    ensures WordBits(crc) == Shifts(WordBits(begun), 8, Ccitt())
  {
    crc := begun;
    var j := 0;
    while j < 8
      invariant j <= 8
      invariant Shifts(WordBits(crc), 8 - j, Ccitt()) == Shifts(WordBits(begun), 8, Ccitt())
    {
      WordShift(crc);
      crc := if crc & 0x8000 != 0 then (crc << 1) ^ POLYNOMIAL else crc << 1;
      j := j + 1;
    }
  }

  lemma ZeroWord()
    ensures WordBits(0) == Zeros(16)
  {
  }

  /** A word is its high byte moved up by eight, and its low byte. */
  lemma WordBytes(crc: bv16, low: Byte, high: Byte)
    requires low == crc & 0xFF && high == (crc >> 8) & 0xFF
    ensures ByteBits(high) + ByteBits(low) == WordBits(crc)
  {
    SplitWord(crc);
    ByteMoved(high);
    WordSum(high << 8, low);
    HighBitsClear(low);
  }

  lemma HighBitsClear(low: Byte)
    ensures WordBits(low) == Zeros(8) + ByteBits(low)
  {
    var p := WordBits(low);
    forall i | 0 <= i < 8 ensures !p[i] {
      MaskIsMask(15 - i);
      HighBitClear(low, Mask(15 - i));
    }
  }

  lemma SplitWord(crc: bv16)
    ensures crc == (((crc >> 8) & 0xFF) << 8) ^ (crc & 0xFF)
  {
  }

  lemma BytesFit(crc: bv16)
    ensures (crc & 0xFF) & 0xFF00 == 0 && ((crc >> 8) & 0xFF) & 0xFF00 == 0
  {
  }

  lemma HighBitClear(b: Byte, m: bv16)
    requires IsMask(m) && m & 0xFF00 != 0
    ensures b & m == 0
  {
  }

  /** The bits of the word that has the given bits. */
  lemma {:induction false} WordOfBit(p: Poly, i: nat)
    requires |p| <= 16 && i < 16
    ensures Bit(WordOf(p), i) == (i < |p| && p[|p| - 1 - i])
    decreases |p|
  {
    if p == [] {
      NoBit(i);
    } else {
      var v := WordOf(p[..|p| - 1]);
      BitPushed(v, p[|p| - 1], i);
      if i > 0 { WordOfBit(p[..|p| - 1], i - 1); }
    }
  }

  lemma NoBit(i: nat)
    requires i < 16
    ensures !Bit(0, i)
  {
  }

  /** Shifting a bit in from below. */
  lemma BitPushed(v: bv16, b: bool, i: nat)
    requires i < 16
    ensures Bit((v << 1) | (if b then 1 else 0), i) == if i == 0 then b else Bit(v, i - 1)
  {
    if i == 0 {
      LowestShows(v);
    } else {
      BitMovesUp(v, i - 1);
      MaskIsMask(i);
      LowestDoesNotShow(v << 1, Mask(i));
    }
  }

  lemma LowestDoesNotShow(a: bv16, m: bv16)
    requires IsMask(m) && m != 1
    ensures (a | 1) & m == a & m && (a | 0) == a
  {
  }

  lemma LowestShows(v: bv16)
    ensures ((v << 1) | 1) & 1 != 0 && ((v << 1) | 0) & 1 == 0
  {
  }

  lemma BitsOfWordOf(p: Poly)
    requires |p| == 16
    ensures WordBits(WordOf(p)) == p
  {
    forall i | 0 <= i < 16 ensures WordBits(WordOf(p))[i] == p[i] {
      WordOfBit(p, 15 - i);
    }
  }

  /** Every message has one checksum. */
  lemma ChecksumIsUnique(data: seq<Byte>, r: seq<Byte>)
    ensures IsChecksum(data, r) <==> r == Checksum(data)
  {
    var w := WordOf(Remainder(data));
    var c := Checksum(data);
    BitsOfWordOf(Remainder(data));
    WordBytes(w, c[0], c[1]);
    if IsChecksum(data, r) {
      var p, q := ByteBits(r[1]) + ByteBits(r[0]), ByteBits(c[1]) + ByteBits(c[0]);
      assert ByteBits(r[1]) == p[..8] == q[..8] == ByteBits(c[1]);
      assert ByteBits(r[0]) == p[8..] == q[8..] == ByteBits(c[0]);
      ByteBitsInjective(r[0], c[0]);
      ByteBitsInjective(r[1], c[1]);
      assert r == [r[0], r[1]];
    }
  }

  lemma ByteBitsInjective(a: Byte, b: Byte)
    requires ByteBits(a) == ByteBits(b)
    ensures a == b
  {
    HighBitsClear(a);
    HighBitsClear(b);
    WordBitsInjective(a, b);
  }

  // ---------------------------------------------------------------------
  // Contract addresses
  // ---------------------------------------------------------------------

  datatype Decoded = Address(bytes: seq<Byte>) | IndexError | WrongVersion | BadChecksum

  const CONTRACT_VERSION: Byte := 0x10

  /** The bytes before the last two, and the last two. */
  function Body(raw: seq<Byte>): seq<Byte> { if |raw| < 2 then [] else raw[..|raw| - 2] }

  function Tail(raw: seq<Byte>): seq<Byte> { if |raw| < 2 then raw else raw[|raw| - 2..] }

  /** Bytes 1 to 32, as far as there are any. */
  function AddressBytes(raw: seq<Byte>): seq<Byte> {
    if raw == [] then [] else if |raw| < 33 then raw[1..] else raw[1..33]
  }

  function Decode(raw: seq<Byte>): Decoded {
    if raw == [] then IndexError
    else if raw[0] != CONTRACT_VERSION then WrongVersion
    else if !IsChecksum(Body(raw), Tail(raw)) then BadChecksum
    else Address(AddressBytes(raw))
  }

  method StrkeyDecodeContract(raw: seq<Byte>) returns (r: Decoded)
    ensures r == Decode(raw)
  {
    if raw == [] { return IndexError; }
    if raw[0] != CONTRACT_VERSION { return WrongVersion; }
    var payload, crc := Body(raw), Tail(raw);
    var sum := Crc16(payload);
    ChecksumIsUnique(payload, crc);
    if sum != crc { return BadChecksum; }
    return Address(AddressBytes(raw));
  }

  /** A contract address written out: version, payload, checksum. */
  function Encode(payload: seq<Byte>): seq<Byte> {
    [CONTRACT_VERSION] + payload + Checksum([CONTRACT_VERSION] + payload)
  }

  /** Decoding inverts encoding for exactly the payloads of 32 bytes: the length is not checked,
      so of other payloads the decoder returns a part, or checksum bytes with them. */
  lemma DecodeInvertsEncode(payload: seq<Byte>)
    ensures Decode(Encode(payload)).Address?
    ensures Decode(Encode(payload)) == Address(payload) <==> |payload| == 32
  {
    var raw := Encode(payload);
    var data := [CONTRACT_VERSION] + payload;
    assert Body(raw) == data && Tail(raw) == Checksum(data);
    ChecksumIsUnique(data, Tail(raw));
    if |payload| == 32 {
      assert AddressBytes(raw) == payload;
    } else {
      assert |AddressBytes(raw)| != |payload|;
    }
  }

  /** The shortest accepted input has no payload, and what comes back is its checksum. */
  lemma ChecksumTakenForAddress()
    ensures Decode(Encode([])) == Address(Checksum([CONTRACT_VERSION]))
  {
    var raw, data := Encode([]), [CONTRACT_VERSION];
    assert data + [] == data;
    assert Body(raw) == data && Tail(raw) == Checksum(data) == raw[1..];
    ChecksumIsUnique(data, Tail(raw));
  }

  /** Exactly what encoding writes is accepted, and exactly inputs of 35 bytes give the payload. */
  lemma AcceptedWasEncoded(raw: seq<Byte>)
    ensures Decode(raw).Address? <==> exists payload :: raw == Encode(payload)
    ensures Decode(raw).Address? ==> (raw == Encode(Decode(raw).bytes) <==> |raw| == 35)
  {
    if Decode(raw).Address? {
      ChecksumIsUnique(Body(raw), Tail(raw));
      if |raw| <= 2 { TooShortToAccept(raw); }
      var payload := raw[1..|raw| - 2];
      assert Body(raw) == [CONTRACT_VERSION] + payload;
      assert raw == Body(raw) + Tail(raw);
      assert raw == Encode(payload);
      DecodeInvertsEncode(payload);
      if |raw| != 35 && raw == Encode(AddressBytes(raw)) { DecodeInvertsEncode(AddressBytes(raw)); }
    }
    forall payload | raw == Encode(payload) ensures Decode(raw).Address? {
      DecodeInvertsEncode(payload);
    }
  }

  /** Without a payload byte or two for a checksum, the version byte is taken for checksum. */
  lemma TooShortToAccept(raw: seq<Byte>)
    requires |raw| <= 2 && raw != [] && raw[0] == CONTRACT_VERSION
    ensures !IsChecksum(Body(raw), Tail(raw))
  {
    assert Body(raw) == [];
    assert Remainder([]) == Zeros(16);
    if |raw| == 2 {
      assert Tail(raw) == raw;
      var p := ByteBits(raw[1]) + ByteBits(raw[0]);
      assert ByteBits(raw[0])[3];
      assert p[11];
    }
  }

  // ---------------------------------------------------------------------
  // Changes that are caught
  // ---------------------------------------------------------------------

  lemma {:induction false} MessageBitAt(data: seq<Byte>, i: nat)
    requires i < 8 * |data|
    ensures MessageBits(data)[i] == ByteBits(data[i / 8])[i % 8]
    decreases |data|
  {
    if i >= 8 {
      MessageBitAt(data[1..], i - 8);
      assert i / 8 - 1 == (i - 8) / 8 && i % 8 == (i - 8) % 8;
    }
  }

  lemma {:induction false} MessageBitsInjective(a: seq<Byte>, b: seq<Byte>)
    requires |a| == |b| && MessageBits(a) == MessageBits(b)
    ensures a == b
  {
    if a != [] {
      assert MessageBits(a)[..8] == ByteBits(a[0]) && MessageBits(b)[..8] == ByteBits(b[0]);
      assert MessageBits(a)[8..] == MessageBits(a[1..]) && MessageBits(b)[8..] == MessageBits(b[1..]);
      ByteBitsInjective(a[0], b[0]);
      MessageBitsInjective(a[1..], b[1..]);
      assert a == [a[0]] + a[1..] && b == [b[0]] + b[1..];
    }
  }

  /** The bits `len` from position `k` on are the only ones in which two messages differ. */
  ghost predicate DifferOnlyWithin(a: seq<Byte>, b: seq<Byte>, k: nat, len: nat) {
    |a| == |b| && k + len <= 8 * |a|
    && forall i :: 0 <= i < 8 * |a| && !(k <= i < k + len) ==> MessageBits(a)[i] == MessageBits(b)[i]
  }

  /** A change of up to sixteen bits in a row, the checksum bytes kept, is rejected. */
  lemma BurstIsRejected(raw: seq<Byte>, changed: seq<Byte>, k: nat, len: nat)
    requires Decode(raw).Address? && |raw| == |changed| && Tail(raw) == Tail(changed) && raw != changed
    requires len <= 16 && DifferOnlyWithin(Body(raw), Body(changed), k, len)
    ensures !Decode(changed).Address?
  {
    var m, n := MessageBits(Body(raw)), MessageBits(Body(changed));
    assert raw == Body(raw) + Tail(raw) && changed == Body(changed) + Tail(changed);
    if m == n { MessageBitsInjective(Body(raw), Body(changed)); }
    BurstIsSeen(m, n, k, len, Ccitt());
  }

  /** A change of one byte, or of two bytes side by side, is rejected. */
  lemma AdjacentBytesAreChecked(raw: seq<Byte>, changed: seq<Byte>, at: nat)
    requires Decode(raw).Address? && |raw| == |changed| && raw != changed && at + 2 < |raw|
    requires forall i :: 0 <= i < |raw| && !(i == at || (i == at + 1 && i + 2 < |raw|)) ==> raw[i] == changed[i]
    ensures !Decode(changed).Address?
  {
    var a, b, n := Body(raw), Body(changed), |raw|;
    assert raw[n - 2] == changed[n - 2] && raw[n - 1] == changed[n - 1];
    assert Tail(raw) == [raw[n - 2], raw[n - 1]] && Tail(changed) == [changed[n - 2], changed[n - 1]];
    var len := if at + 1 < |a| then 16 else 8;
    forall i | 0 <= i < 8 * |a| && !(8 * at <= i < 8 * at + len) ensures MessageBits(a)[i] == MessageBits(b)[i] {
      MessageBitAt(a, i);
      MessageBitAt(b, i);
      OutsideWindow(i, at, len);
      assert a[i / 8] == b[i / 8];
    }
    BurstIsRejected(raw, changed, 8 * at, len);
  }

  lemma OutsideWindow(i: nat, at: nat, len: nat)
    requires (len == 8 || len == 16) && !(8 * at <= i < 8 * at + len)
    ensures i / 8 != at && (len == 16 ==> i / 8 != at + 1)
  {
  }

  /** Over messages of one length the checksum is linear. */
  lemma RemainderAdds(a: seq<Byte>, b: seq<Byte>, sum: seq<Byte>)
    requires |a| == |b| == |sum| && forall i :: 0 <= i < |a| ==> sum[i] == a[i] ^ b[i]
    ensures Remainder(sum) == Plus(Remainder(a), Remainder(b))
  {
    MessageAdds(a, b, sum);
    RunAdds(Zeros(16), Zeros(16), MessageBits(a), MessageBits(b), Ccitt());
    assert Plus(Zeros(16), Zeros(16)) == Zeros(16);
  }

  lemma {:induction false} MessageAdds(a: seq<Byte>, b: seq<Byte>, sum: seq<Byte>)
    requires |a| == |b| == |sum| && forall i :: 0 <= i < |a| ==> sum[i] == a[i] ^ b[i]
    ensures MessageBits(sum) == Plus(MessageBits(a), MessageBits(b))
  {
    if a != [] {
      MessageAdds(a[1..], b[1..], sum[1..]);
      ByteAdds(a[0], b[0], sum[0]);
      PlusJoins(ByteBits(a[0]), ByteBits(b[0]), MessageBits(a[1..]), MessageBits(b[1..]));
    }
  }

  lemma ByteAdds(a: Byte, b: Byte, sum: Byte)
    requires sum == a ^ b
    ensures ByteBits(sum) == Plus(ByteBits(a), ByteBits(b))
  {
    WordSum(a, b);
  }

  lemma PlusJoins(p: Poly, q: Poly, p': Poly, q': Poly)
    requires |p| == |q| && |p'| == |q'|
    ensures Plus(p + p', q + q') == Plus(p, q) + Plus(p', q')
  {
  }

  /** The remainder of a message is its remainder after division by x^16 + x^12 + x^5 + 1. */
  lemma RemainderIsRemainder(data: seq<Byte>, r: Poly)
    requires |r| == 16
    ensures r == Remainder(data) <==> IsRemainder(MessageBits(data), r, Ccitt())
  {
    RegisterIsTheRemainder(MessageBits(data), r, Ccitt());
  }
}
