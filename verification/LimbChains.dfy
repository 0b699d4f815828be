/**
 Programs of ADD/ADC and SUB/SBB instructions over little-endian limbs of any number, run on the
 ALU of extra/ops_alu.h: the carry flag links the limbs into one exact sum or difference.
 */
module LimbChains {
  import opened Alu
  import opened Common

  predicate Limbs(width: nat, a: seq<nat>)
    requires IsWidth(width)
  {
    forall i :: 0 <= i < |a| ==> a[i] < Modulus(width)
  }

  /** The number written by little-endian digits in base `m`. */
  function Value(m: nat, a: seq<nat>): nat {
    if a == [] then 0 else Value(m, a[..|a| - 1]) + a[|a| - 1] * Pow(m, |a| - 1)
  }

  lemma ValuePrefix(m: nat, a: seq<nat>, k: nat)
    requires k < |a|
    ensures Value(m, a[..k + 1]) == Value(m, a[..k]) + a[k] * Pow(m, k)
  {
    assert a[..k + 1][..k] == a[..k];
  }

  lemma ValueAppend(m: nat, a: seq<nat>, x: nat)
    ensures Value(m, a + [x]) == Value(m, a) + x * Pow(m, |a|)
  {
    assert (a + [x])[..|a|] == a;
  }

  lemma PlaceBound(m: nat, p: nat, v: nat, x: nat)
    requires v < p && x < m
    ensures v + x * p < m * p
  {
    assert (x + 1) * p <= m * p;
    assert (x + 1) * p == x * p + p;
  }

  lemma {:induction false} ValueBound(m: nat, a: seq<nat>)
    requires forall i :: 0 <= i < |a| ==> a[i] < m
    ensures Value(m, a) < Pow(m, |a|)
  {
    if a != [] {
      var k := |a| - 1;
      ValueBound(m, a[..k]);
      PlaceBound(m, Pow(m, k), Value(m, a[..k]), a[k]);
    }
  }

  /** One limb: ADD first, ADC after that. */
  method AddLimb(width: nat, first: bool, a: nat, b: nat, f: Flags) returns (v: nat, g: Flags)
    requires IsWidth(width) && a < Modulus(width) && b < Modulus(width) && (first ==> !f.cf)
    ensures v < Modulus(width) && v + Bit(g.cf) * Modulus(width) == a + b + Bit(f.cf)
  {
    if first {
      v, g := Add(width, a, b);
    } else {
      v, g := Adc(width, a, b, f);
    }
  }

  /** A limb's equation, scaled to its place and added to the equation of the limbs below. */
  lemma AddPlace(m: nat, p: nat, a: nat, b: nat, c: nat, v: nat, c': nat, va: nat, vb: nat, vr: nat)
    requires v + c' * m == a + b + c && vr + c * p == va + vb
    ensures (vr + v * p) + c' * (m * p) == (va + a * p) + (vb + b * p)
  {
    assert (v + c' * m) * p == v * p + c' * (m * p);
    assert (a + b + c) * p == a * p + b * p + c * p;
  }

  /** The limbs `r` and the carry are the sum of the first `i` limbs. */
  ghost predicate SumSoFar(m: nat, a: seq<nat>, b: seq<nat>, i: nat, r: seq<nat>, c: bool)
    requires i <= |a| == |b|
  {
    |r| == i && Value(m, r) + Bit(c) * Pow(m, i) == Value(m, a[..i]) + Value(m, b[..i])
  }

  lemma SumStep(m: nat, a: seq<nat>, b: seq<nat>, i: nat, r: seq<nat>, c: bool, v: nat, c': bool)
    requires i < |a| == |b| && SumSoFar(m, a, b, i, r, c) && v + Bit(c') * m == a[i] + b[i] + Bit(c)
    ensures SumSoFar(m, a, b, i + 1, r + [v], c')
  {
    AddPlace(m, Pow(m, i), a[i], b[i], Bit(c), v, Bit(c'), Value(m, a[..i]), Value(m, b[..i]), Value(m, r));
    ValuePrefix(m, a, i);
    ValuePrefix(m, b, i);
    ValueAppend(m, r, v);
  }

  /** ADD on the first limbs, ADC on the others: the exact sum, with CF the final carry. */
  method AddChain(width: nat, a: seq<nat>, b: seq<nat>) returns (r: seq<nat>, carry: bool)
    requires IsWidth(width) && |a| == |b| && Limbs(width, a) && Limbs(width, b)
    ensures |r| == |a| && Limbs(width, r)
    ensures Value(Modulus(width), r) + Bit(carry) * Pow(Modulus(width), |a|)
         == Value(Modulus(width), a) + Value(Modulus(width), b)
  {
    r := [];
    var f := Flags(false, false, false, false, false, false);
    var i := 0;
    ghost var m := Modulus(width);
    while i < |a|
      invariant 0 <= i <= |a| && Limbs(width, r) && (i == 0 ==> !f.cf)
      invariant SumSoFar(m, a, b, i, r, f.cf)
    {
      ghost var c := f.cf;
      var v;
      v, f := AddLimb(width, i == 0, a[i], b[i], f);
      SumStep(m, a, b, i, r, c, v, f.cf);
      r := r + [v];
      i := i + 1;
    }
    assert a[..i] == a && b[..i] == b;
    carry := f.cf;
  }

  /** Limb `k` loses its borrow: its subtrahend is all ones and the limbs below it borrow. */
  predicate LostAt(width: nat, a: seq<nat>, b: seq<nat>, k: nat)
    requires IsWidth(width) && k < |a| == |b|
  {
    LosesBorrow(width, b[k], Value(Modulus(width), a[..k]) < Value(Modulus(width), b[..k]))
  }

  predicate NothingLost(width: nat, a: seq<nat>, b: seq<nat>, n: nat)
    requires IsWidth(width) && n <= |a| == |b|
  {
    forall k :: 0 <= k < n ==> !LostAt(width, a, b, k)
  }

  /** A weight that counts or not. */
  function If(c: bool, n: nat): nat {
    if c then n else 0
  }

  /** One limb: SUB first, SBB after that; a lost borrow leaves the result one modulus too high. */
  method SubLimb(width: nat, first: bool, a: nat, b: nat, f: Flags) returns (v: nat, g: Flags)
    requires IsWidth(width) && a < Modulus(width) && b < Modulus(width) && (first ==> !f.cf)
    ensures v < Modulus(width)
    ensures v + b + Bit(f.cf) == a + If(g.cf, Modulus(width)) + If(LosesBorrow(width, b, f.cf), Modulus(width))
  {
    if first {
      v, g := Sub(width, a, b);
    } else {
      v, g := Sbb(width, a, b, f);
    }
  }

  lemma SubPlace(m: nat, p: nat, a: nat, b: nat, c: bool, v: nat, c': bool, lost: bool,
                 va: nat, vb: nat, vr: nat, excess: nat)
    requires v + b + Bit(c) == a + If(c', m) + If(lost, m) && vr + vb == va + If(c, p) + excess
    ensures (vr + v * p) + (vb + b * p) == (va + a * p) + If(c', m * p) + (excess + If(lost, m * p))
  {
    Distribute(v, b, Bit(c), p);
    Distribute(a, If(c', m), If(lost, m), p);
  }

  lemma Distribute(x: nat, y: nat, z: nat, p: nat)
    ensures (x + y + z) * p == x * p + y * p + z * p
  {
  }

  /** While nothing is lost, CF says which of the two numbers so far is the smaller. */
  lemma BorrowIsLess(m: nat, a: seq<nat>, b: seq<nat>, r: seq<nat>, c: bool)
    requires |a| == |b| == |r|
    requires forall i :: 0 <= i < |a| ==> a[i] < m && b[i] < m && r[i] < m
    requires Value(m, r) + Value(m, b) == Value(m, a) + Bit(c) * Pow(m, |a|)
    ensures c <==> Value(m, a) < Value(m, b)
  {
    ValueBound(m, a);
    ValueBound(m, b);
    ValueBound(m, r);
  }

  /** The limbs `r` and the borrow are the difference of the first `i` limbs, up to an excess. */
  ghost predicate DifferenceSoFar(m: nat, a: seq<nat>, b: seq<nat>, i: nat, r: seq<nat>, c: bool, excess: nat)
    requires i <= |a| == |b|
  {
    |r| == i && Value(m, r) + Value(m, b[..i]) == Value(m, a[..i]) + If(c, Pow(m, i)) + excess
  }

  lemma DifferenceStep(m: nat, a: seq<nat>, b: seq<nat>, i: nat, r: seq<nat>, c: bool, excess: nat,
                       v: nat, c': bool, lost: bool)
    requires i < |a| == |b| && DifferenceSoFar(m, a, b, i, r, c, excess)
    requires v + b[i] + Bit(c) == a[i] + If(c', m) + If(lost, m)
    ensures DifferenceSoFar(m, a, b, i + 1, r + [v], c', excess + If(lost, Pow(m, i + 1)))
  {
    SubPlace(m, Pow(m, i), a[i], b[i], c, v, c', lost, Value(m, a[..i]), Value(m, b[..i]), Value(m, r), excess);
    ValuePrefix(m, a, i);
    ValuePrefix(m, b, i);
    ValueAppend(m, r, v);
  }

  /** The result is exact as long as nothing is lost. */
  ghost predicate SubState(width: nat, a: seq<nat>, b: seq<nat>, i: nat, r: seq<nat>, c: bool, excess: nat)
    requires IsWidth(width) && i <= |a| == |b|
  {
    && Limbs(width, r) && DifferenceSoFar(Modulus(width), a, b, i, r, c, excess)
    && (excess == 0 <==> NothingLost(width, a, b, i))
  }

  lemma NextLost(width: nat, a: seq<nat>, b: seq<nat>, i: nat, r: seq<nat>, c: bool, excess: nat)
    requires IsWidth(width) && i < |a| == |b| && Limbs(width, a) && Limbs(width, b)
    requires SubState(width, a, b, i, r, c, excess)
    ensures NothingLost(width, a, b, i + 1) <==> excess == 0 && !LosesBorrow(width, b[i], c)
  {
    if excess == 0 {
      BorrowIsLess(Modulus(width), a[..i], b[..i], r, c);
      assert LostAt(width, a, b, i) <==> LosesBorrow(width, b[i], c);
    }
  }

  ghost predicate ExactDifference(m: nat, a: seq<nat>, b: seq<nat>, r: seq<nat>, borrow: bool) {
    Value(m, r) + Value(m, b) == Value(m, a) + Bit(borrow) * Pow(m, |a|)
  }

  lemma SubDone(width: nat, a: seq<nat>, b: seq<nat>, r: seq<nat>, c: bool, excess: nat)
    requires IsWidth(width) && |a| == |b| && SubState(width, a, b, |a|, r, c, excess)
    ensures ExactDifference(Modulus(width), a, b, r, c) <==> NothingLost(width, a, b, |a|)
    ensures width != 32 ==> NothingLost(width, a, b, |a|)
  {
    assert a[..|a|] == a && b[..|b|] == b;
  }

  /**
   SUB on the first limbs, SBB on the others.  The result is the exact difference with CF the
   final borrow if and only if no limb loses its borrow, which at widths 8 and 16 never happens.
   */
  method SubChain(width: nat, a: seq<nat>, b: seq<nat>) returns (r: seq<nat>, borrow: bool)
    requires IsWidth(width) && |a| == |b| && Limbs(width, a) && Limbs(width, b)
    ensures |r| == |a| && Limbs(width, r)
    ensures ExactDifference(Modulus(width), a, b, r, borrow) <==> NothingLost(width, a, b, |a|)
    ensures width != 32 ==> NothingLost(width, a, b, |a|)
  {
    r := [];
    var f := Flags(false, false, false, false, false, false);
    var i := 0;
    ghost var excess: nat := 0;
    while i < |a|
      invariant 0 <= i <= |a| && (i == 0 ==> !f.cf)
      invariant SubState(width, a, b, i, r, f.cf, excess)
    {
      ghost var c := f.cf;
      var v;
      v, f := SubLimb(width, i == 0, a[i], b[i], f);
      ghost var lost := LosesBorrow(width, b[i], c);
      NextLost(width, a, b, i, r, c, excess);
      DifferenceStep(Modulus(width), a, b, i, r, c, excess, v, f.cf, lost);
      excess := excess + If(lost, Pow(Modulus(width), i + 1));
      r := r + [v];
      i := i + 1;
    }
    SubDone(width, a, b, r, f.cf, excess);
    borrow := f.cf;
  }

  /** The condition does fail at width 32: subtracting 2^64 - 2^32 + 1 from zero. */
  lemma LostBorrowExample()
    ensures LostAt(32, [0, 0], [1, 0xFFFF_FFFF], 1)
  {
    assert [0, 0][..1] == [0] && [1, 0xFFFF_FFFF][..1] == [1];
    ValueAppend(Modulus(32), [], 0);
    ValueAppend(Modulus(32), [], 1);
    assert [] + [0] == [0] && [] + [1] == [1];
  }
}
