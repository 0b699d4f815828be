/**
 Packed decimal arithmetic on the emulator: DAA and DAS of extra/ops_misc.c after the binary
 instructions of extra/ops_alu.h, for numbers of any length.
 */
module Decimal {
  import opened Alu
  import opened Common
  import opened LimbChains

  predicate IsBcd(x: nat) {
    x < 160 && x % 16 < 10
  }

  /** The number from 0 to 99 that a packed byte shows. */
  function Shown(x: nat): nat {
    10 * (x / 16) + x % 16
  }

  /** AL and the flags as ADD or ADC leaves them on the operands x and y. */
  predicate AfterSum(x: nat, y: nat, c: nat, al: nat, f: Flags) {
    al + Bit(f.cf) * 256 == x + y + c && f.af == (x % 16 + y % 16 + c >= 16)
  }

  /** AL and the flags as SUB or SBB leaves them; the adjust flag is the inexact one of SBB. */
  predicate AfterDifference(x: nat, y: nat, c: nat, al: nat, f: Flags) {
    al + y + c == x + Bit(f.cf) * 256 && f.af == SubAdjust(x, y, c)
  }

  /** A byte that is 16 * h + l. */
  lemma Digits(x: nat, h: nat, l: nat)
    requires x == 16 * h + l && l < 16
    ensures x / 16 == h && x % 16 == l
  {
  }

  /** The first test of DAA and DAS. */
  predicate LowTest(al: nat, f: Flags) {
    al % 16 > 9 || f.af
  }

  /** The second test of DAA and DAS, on the old AL and the old carry. */
  predicate HighTest(al: nat, f: Flags) {
    al > 0x99 || f.cf
  }

  /** DAA's tests find the decimal carries out of the low and the high digit. */
  lemma SumTests(x: nat, y: nat, c: nat, al: nat, f: Flags)
    requires IsBcd(x) && IsBcd(y) && c <= 1 && al < 256 && AfterSum(x, y, c, al, f)
    ensures LowTest(al, f) <==> x % 16 + y % 16 + c >= 10
    ensures HighTest(al, f) <==> x / 16 + y / 16 + (if LowTest(al, f) then 1 else 0) >= 10
  {
    var (h, s) := (x / 16 + y / 16, x % 16 + y % 16 + c);
    assert al + Bit(f.cf) * 256 == 16 * h + s;
    if f.cf {
      Digits(al, if s >= 16 then h - 15 else h - 16, if s >= 16 then s - 16 else s);
    } else {
      Digits(al, if s >= 16 then h + 1 else h, if s >= 16 then s - 16 else s);
    }
  }

  /** The corrected byte shows the decimal sum. */
  lemma SumDigits(x: nat, y: nat, c: nat, r: nat, low: bool, high: bool)
    requires IsBcd(x) && IsBcd(y) && c <= 1
    requires low <==> x % 16 + y % 16 + c >= 10
    requires high <==> x / 16 + y / 16 + Bit(low) >= 10
    requires r + 160 * Bit(high) == x + y + c + 6 * Bit(low)
    ensures IsBcd(r) && Shown(r) + 100 * Bit(high) == Shown(x) + Shown(y) + c
  {
    var (h, l) := (x / 16 + y / 16 + Bit(low) - 10 * Bit(high), x % 16 + y % 16 + c - 10 * Bit(low));
    assert r == 16 * h + l;
    Digits(r, h, l);
  }

  /** DAS's tests find the decimal borrows, although SBB may leave the adjust flag clear. */
  lemma DifferenceTests(x: nat, y: nat, c: nat, al: nat, f: Flags)
    requires IsBcd(x) && IsBcd(y) && c <= 1 && al < 256 && AfterDifference(x, y, c, al, f)
    ensures LowTest(al, f) <==> x % 16 < y % 16 + c
    ensures HighTest(al, f) <==> x / 16 < y / 16 + Bit(LowTest(al, f))
    ensures LowTest(al, f) && al < 6 ==> HighTest(al, f)
  {
    var (h, d) := (x / 16 - y / 16, x % 16 - y % 16 - c);
    assert al == 16 * h + d + Bit(f.cf) * 256;
    var top := h + 16 * Bit(f.cf);
    Digits(al, if d < 0 then top - 1 else top, if d < 0 then d + 16 else d);
  }

  lemma DifferenceDigits(x: nat, y: nat, c: nat, r: int, low: bool, high: bool)
    requires IsBcd(x) && IsBcd(y) && c <= 1
    requires low <==> x % 16 < y % 16 + c
    requires high <==> x / 16 < y / 16 + Bit(low)
    requires r == x - y - c - 6 * Bit(low) + 160 * Bit(high)
    ensures r >= 0 && IsBcd(r) && Shown(r) + Shown(y) + c == Shown(x) + 100 * Bit(high)
  {
    var (h, l) := (x / 16 - y / 16 - Bit(low) + 10 * Bit(high), x % 16 - y % 16 - c + 10 * Bit(low));
    assert r == 16 * h + l;
    Digits(r, h, l);
  }

  /** AL after the two corrections of DAA. */
  function CorrectedSum(al: nat, f: Flags): (r: nat)
    requires al < 256
    ensures r < 256
  {
    var first := if LowTest(al, f) then Truncate(8, al + 6) else al;
    if HighTest(al, f) then Truncate(8, first + 0x60) else first
  }

  /** AL after the two corrections of DAS. */
  function CorrectedDifference(al: nat, f: Flags): (r: nat)
    requires al < 256
    ensures r < 256
  {
    var first := if LowTest(al, f) then Truncate(8, al - 6) else al;
    if HighTest(al, f) then Truncate(8, first - 0x60) else first
  }

  lemma SumCorrected(x: nat, y: nat, c: nat, al: nat, f: Flags)
    requires IsBcd(x) && IsBcd(y) && c <= 1 && al < 256 && AfterSum(x, y, c, al, f)
    ensures IsBcd(CorrectedSum(al, f))
    ensures Shown(CorrectedSum(al, f)) + 100 * Bit(HighTest(al, f)) == Shown(x) + Shown(y) + c
  {
    SumTests(x, y, c, al, f);
    SumDigits(x, y, c, CorrectedSum(al, f), LowTest(al, f), HighTest(al, f));
  }

  lemma DifferenceCorrected(x: nat, y: nat, c: nat, al: nat, f: Flags)
    requires IsBcd(x) && IsBcd(y) && c <= 1 && al < 256 && AfterDifference(x, y, c, al, f)
    ensures IsBcd(CorrectedDifference(al, f)) && (LowTest(al, f) && al < 6 ==> HighTest(al, f))
    ensures Shown(CorrectedDifference(al, f)) + Shown(y) + c == Shown(x) + 100 * Bit(HighTest(al, f))
  {
    DifferenceTests(x, y, c, al, f);
    DifferenceDigits(x, y, c, CorrectedDifference(al, f), LowTest(al, f), HighTest(al, f));
  }

  lemma AllSums(al: nat, f: Flags)
    requires al < 256
    ensures forall x: nat, y: nat, c: nat :: IsBcd(x) && IsBcd(y) && c <= 1 && AfterSum(x, y, c, al, f)
              ==> IsBcd(CorrectedSum(al, f))
                  && Shown(CorrectedSum(al, f)) + 100 * Bit(HighTest(al, f)) == Shown(x) + Shown(y) + c
  {
    forall x: nat, y: nat, c: nat | IsBcd(x) && IsBcd(y) && c <= 1 && AfterSum(x, y, c, al, f) {
      SumCorrected(x, y, c, al, f);
    }
  }

  lemma AllDifferences(al: nat, f: Flags)
    requires al < 256
    ensures forall x: nat, y: nat, c: nat :: IsBcd(x) && IsBcd(y) && c <= 1 && AfterDifference(x, y, c, al, f)
              ==> IsBcd(CorrectedDifference(al, f)) && (LowTest(al, f) && al < 6 ==> HighTest(al, f))
                  && Shown(CorrectedDifference(al, f)) + Shown(y) + c == Shown(x) + 100 * Bit(HighTest(al, f))
  {
    forall x: nat, y: nat, c: nat | IsBcd(x) && IsBcd(y) && c <= 1 && AfterDifference(x, y, c, al, f) {
      DifferenceCorrected(x, y, c, al, f);
    }
  }

  /** The corrections of DAA, step by step. */
  method DaaSteps(al: nat, f: Flags) returns (r: nat, g: Flags)
    requires al < 256
    ensures r == CorrectedSum(al, f) && g.cf == HighTest(al, f) && g.af == LowTest(al, f) && g.of == f.of
  {
    r := al;
    g := f.(cf := false);
    if al % 16 > 9 || f.af {
      if r >= 0x100 - 6 {
        g := g.(cf := true);
      }
      r := Truncate(8, r + 6);
      g := g.(af := true);
    } else {
      g := g.(af := false);
    }
    if al > 0x99 || f.cf {
      r := Truncate(8, r + 0x60);
      g := g.(cf := true);
    } else {
      g := g.(cf := false);
    }
  }

  /** Decimal adjust after addition. */
  method Daa(al: nat, f: Flags) returns (r: nat, g: Flags)
    requires al < 256
    ensures r < 256 && CommonFlags(g, 8, r)
    ensures g.cf == HighTest(al, f) && g.af == LowTest(al, f) && g.of == f.of
    ensures forall x: nat, y: nat, c: nat :: IsBcd(x) && IsBcd(y) && c <= 1 && AfterSum(x, y, c, al, f)
              ==> IsBcd(r) && Shown(r) + 100 * Bit(g.cf) == Shown(x) + Shown(y) + c
  {
    r, g := DaaSteps(al, f);
    AllSums(al, f);
    g := SetCommonFlags(g, 8, r);
  }

  /** The two corrections of DAS. */
  method DasSteps(al: nat, f: Flags) returns (r: nat, g: Flags)
    requires al < 256
    ensures r == CorrectedDifference(al, f) && g.cf == (HighTest(al, f) || (LowTest(al, f) && al < 6))
    ensures g.af == LowTest(al, f) && g.of == f.of
  {
    r := al;
    g := f.(cf := false);
    if al % 16 > 9 || f.af {
      if r < 6 {
        g := g.(cf := true);
      }
      r := Truncate(8, r - 6);
      g := g.(af := true);
    } else {
      g := g.(af := false);
    }
    if al > 0x99 || f.cf {
      r := Truncate(8, r - 0x60);
      g := g.(cf := true);
    }
  }

  /** Decimal adjust after subtraction. */
  method Das(al: nat, f: Flags) returns (r: nat, g: Flags)
    requires al < 256
    ensures r < 256 && CommonFlags(g, 8, r)
    ensures g.cf == (HighTest(al, f) || (LowTest(al, f) && al < 6)) && g.af == LowTest(al, f) && g.of == f.of
    ensures forall x: nat, y: nat, c: nat :: IsBcd(x) && IsBcd(y) && c <= 1 && AfterDifference(x, y, c, al, f)
              ==> IsBcd(r) && Shown(r) + Shown(y) + c == Shown(x) + 100 * Bit(g.cf)
  {
    r, g := DasSteps(al, f);
    AllDifferences(al, f);
    g := SetCommonFlags(g, 8, r);
  }

  predicate BcdBytes(a: seq<nat>) {
    forall i :: 0 <= i < |a| ==> IsBcd(a[i])
  }

  /** The decimal number shown by little-endian packed bytes. */
  function Number(a: seq<nat>): nat {
    Value(100, seq(|a|, i requires 0 <= i < |a| => Shown(a[i])))
  }

  lemma NumberPrefix(a: seq<nat>, k: nat)
    requires k < |a|
    ensures Number(a[..k + 1]) == Number(a[..k]) + Shown(a[k]) * Pow(100, k)
  {
    var (s, t) := (a[..k + 1], a[..k]);
    var (u, v) := (seq(|s|, i requires 0 <= i < |s| => Shown(s[i])), seq(|t|, i requires 0 <= i < |t| => Shown(t[i])));
    assert u[..k] == v && u[k] == Shown(a[k]);
  }

  lemma NumberAppend(a: seq<nat>, x: nat)
    ensures Number(a + [x]) == Number(a) + Shown(x) * Pow(100, |a|)
  {
    NumberPrefix(a + [x], |a|);
    assert (a + [x])[..|a| + 1] == a + [x] && (a + [x])[..|a|] == a;
  }

  /** One byte of decimal addition: ADD or ADC, then DAA. */
  method AddByte(first: bool, x: nat, y: nat, f: Flags) returns (r: nat, g: Flags)
    requires IsBcd(x) && IsBcd(y) && (first ==> !f.cf)
    ensures IsBcd(r) && Shown(r) + Bit(g.cf) * 100 == Shown(x) + Shown(y) + Bit(f.cf)
  {
    var al, h;
    if first {
      al, h := Add(8, x, y);
    } else {
      al, h := Adc(8, x, y, f);
    }
    assert AfterSum(x, y, Bit(f.cf), al, h);
    r, g := Daa(al, h);
  }

  /** ADD/ADC and DAA per byte compute the decimal sum of any length, with CF its carry. */
  method AddDecimal(a: seq<nat>, b: seq<nat>) returns (r: seq<nat>, carry: bool)
    requires |a| == |b| && BcdBytes(a) && BcdBytes(b)
    ensures |r| == |a| && BcdBytes(r)
    ensures Number(r) + Bit(carry) * Pow(100, |a|) == Number(a) + Number(b)
  {
    r := [];
    var f := Flags(false, false, false, false, false, false);
    var i := 0;
    while i < |a|
      invariant 0 <= i <= |a| && |r| == i && BcdBytes(r) && (i == 0 ==> !f.cf)
      invariant Number(r) + Bit(f.cf) * Pow(100, i) == Number(a[..i]) + Number(b[..i])
    {
      ghost var c := Bit(f.cf);
      var v;
      v, f := AddByte(i == 0, a[i], b[i], f);
      AddPlace(100, Pow(100, i), Shown(a[i]), Shown(b[i]), c, Shown(v), Bit(f.cf),
               Number(a[..i]), Number(b[..i]), Number(r));
      NumberPrefix(a, i);
      NumberPrefix(b, i);
      NumberAppend(r, v);
      r := r + [v];
      i := i + 1;
    }
    assert a[..i] == a && b[..i] == b;
    carry := f.cf;
  }

  /** One byte of decimal subtraction: SUB or SBB, then DAS. */
  method SubByte(first: bool, x: nat, y: nat, f: Flags) returns (r: nat, g: Flags)
    requires IsBcd(x) && IsBcd(y) && (first ==> !f.cf)
    ensures IsBcd(r) && Shown(r) + Shown(y) + Bit(f.cf) == Shown(x) + Bit(g.cf) * 100
  {
    var al, h;
    if first {
      al, h := Sub(8, x, y);
    } else {
      al, h := Sbb(8, x, y, f);
    }
    assert AfterDifference(x, y, Bit(f.cf), al, h);
    r, g := Das(al, h);
  }

  /** SUB/SBB and DAS per byte compute the decimal difference of any length, with CF its borrow. */
  method SubDecimal(a: seq<nat>, b: seq<nat>) returns (r: seq<nat>, borrow: bool)
    requires |a| == |b| && BcdBytes(a) && BcdBytes(b)
    ensures |r| == |a| && BcdBytes(r)
    ensures Number(r) + Number(b) == Number(a) + Bit(borrow) * Pow(100, |a|)
  {
    r := [];
    var f := Flags(false, false, false, false, false, false);
    var i := 0;
    while i < |a|
      invariant 0 <= i <= |a| && |r| == i && BcdBytes(r) && (i == 0 ==> !f.cf)
      invariant Number(r) + Number(b[..i]) == Number(a[..i]) + Bit(f.cf) * Pow(100, i)
    {
      ghost var c := f.cf;
      var v;
      v, f := SubByte(i == 0, a[i], b[i], f);
      SubPlace(100, Pow(100, i), Shown(a[i]), Shown(b[i]), c, Shown(v), f.cf, false,
               Number(a[..i]), Number(b[..i]), Number(r), 0);
      NumberPrefix(a, i);
      NumberPrefix(b, i);
      NumberAppend(r, v);
      r := r + [v];
      i := i + 1;
    }
    assert a[..i] == a && b[..i] == b;
    borrow := f.cf;
  }
}
