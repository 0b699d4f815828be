/**
 The flag arithmetic of the real-mode emulator: extra/ops_alu.h, extra/rme_internal.h.

 Each method follows one macro statement by statement, so carries are found by the macro's
 comparisons; each contract states the flags from the exact, unwrapped sum or difference.
 */
module Alu {
  import opened Common

  datatype Flags = Flags(cf: bool, pf: bool, af: bool, zf: bool, sf: bool, of: bool)

  predicate IsWidth(width: nat) {
    width == 8 || width == 16 || width == 32
  }

  /** Two to the operand width. */
  function Modulus(width: nat): (m: nat)
    requires IsWidth(width)
    ensures m == 2 * Half(width) && m >= 256
  {
    if width == 8 then 0x100 else if width == 16 then 0x1_0000 else 0x1_0000_0000
  }

  function Half(width: nat): nat
    requires IsWidth(width)
  {
    if width == 8 then 0x80 else if width == 16 then 0x8000 else 0x8000_0000
  }

  /** Truncation of a sum or difference of two operands to the operand width. */
  function Truncate(width: nat, x: int): (v: nat)
    requires IsWidth(width) && 0 - Modulus(width) <= x < 2 * Modulus(width)
    ensures v < Modulus(width) && (v == x || v == x - Modulus(width) || v == x + Modulus(width))
  {
    if x < 0 then x + Modulus(width) else if x >= Modulus(width) then x - Modulus(width) else x
  }

  predicate SignBit(width: nat, x: nat)
    requires IsWidth(width) && x < Modulus(width)
  {
    x >= Half(width)
  }

  /** The two's complement reading of an operand. */
  function Signed(width: nat, x: nat): int
    requires IsWidth(width) && x < Modulus(width)
  {
    if SignBit(width, x) then x - Modulus(width) else x
  }

  predicate Overflows(width: nat, exact: int)
    requires IsWidth(width)
  {
    exact < 0 - Half(width) || exact >= Half(width)
  }

  function Bit(b: bool): nat {
    if b then 1 else 0
  }

  /** The number of one bits of `v`. */
  function Ones(v: nat): nat {
    if v == 0 then 0 else v % 2 + Ones(v / 2)
  }

  predicate CommonFlags(f: Flags, width: nat, v: nat)
    requires IsWidth(width) && v < Modulus(width)
  {
    f.zf == (v == 0) && f.sf == SignBit(width, v) && f.pf == (Ones(v % 256) % 2 == 0)
  }

  predicate Odd(v: nat) {
    v % 2 == 1
  }

  predicate Xor(a: bool, b: bool) {
    a != b
  }

  /** PAIRITY8, for `n` low bits: their exclusive or. */
  predicate XorOfBits(v: nat, n: nat) {
    n > 0 && Xor(Odd(v), XorOfBits(v / 2, n - 1))
  }

  lemma OddSum(a: nat, b: nat)
    ensures Odd(a + b) <==> Xor(Odd(a), Odd(b))
  {
  }

  lemma OddBit(v: nat)
    ensures Odd(v % 2) <==> Odd(v)
  {
  }

  /** It tells whether these bits have an odd number of ones. */
  lemma {:induction false} XorIsParity(v: nat, n: nat)
    ensures XorOfBits(v, n) <==> Odd(Ones(v % Pow(2, n)))
  {
    if n > 0 {
      XorIsParity(v / 2, n - 1);
      var p := Pow(2, n - 1);
      HalfOfMod(v, p);
      var x := v % (2 * p);
      OnesOf(x);
      OddSum(x % 2, Ones(x / 2));
      OddBit(x);
      OddBit(v);
    }
  }

  lemma OnesOf(x: nat)
    ensures Ones(x) == x % 2 + Ones(x / 2)
  {
  }

  /** SET_COMM_FLAGS: zero, sign, and even parity of the low byte. */
  method SetCommonFlags(f: Flags, width: nat, v: nat) returns (g: Flags)
    requires IsWidth(width) && v < Modulus(width)
    ensures CommonFlags(g, width, v)
    ensures g.cf == f.cf && g.af == f.af && g.of == f.of
  {
    XorIsParity(v, 8);
    assert Pow(2, 8) == 256;
    g := f.(zf := v == 0, sf := SignBit(width, v), pf := !XorOfBits(v, 8));
  }

  lemma AddCarry(width: nat, dest: nat, src: nat, c: nat, v: nat)
    requires IsWidth(width) && dest < Modulus(width) && src < Modulus(width) && c <= 1
    requires v == Truncate(width, dest + src + c)
    ensures dest + src + c >= Modulus(width) <==> (if dest != 0 then v <= src else v < src)
  {
  }

  lemma LowNibble(x: nat, y: nat)
    ensures (x + y) % 16 == if x % 16 + y % 16 < 16 then x % 16 + y % 16 else x % 16 + y % 16 - 16
  {
    assert x == 16 * (x / 16) + x % 16 && y == 16 * (y / 16) + y % 16;
  }

  lemma TruncateNibble(width: nat, x: int)
    requires IsWidth(width) && 0 - Modulus(width) <= x < 2 * Modulus(width)
    ensures Truncate(width, x) % 16 == x % 16
  {
  }

  lemma AddAdjust(dest: nat, src: nat, c: nat, v: nat)
    requires c <= 1 && v % 16 == (dest + src + c) % 16
    ensures dest % 16 + src % 16 + c >= 16 <==> (if dest % 16 != 0 then v % 16 <= src % 16 else v % 16 < src % 16)
  {
    LowNibble(dest + src, c);
    LowNibble(dest, src);
  }

  lemma AddOverflow(width: nat, dest: nat, src: nat, c: nat, v: nat)
    requires IsWidth(width) && dest < Modulus(width) && src < Modulus(width) && c <= 1
    requires v == Truncate(width, dest + src + c)
    ensures Overflows(width, Signed(width, dest) + Signed(width, src) + c)
       <==> SignBit(width, dest) == SignBit(width, src) && SignBit(width, v) != SignBit(width, dest)
  {
  }

  lemma SbbAdjust(dest: nat, src: nat, c: nat, r: nat)
    requires c <= 1 && r % 16 == (src + c) % 16
    ensures (if r % 16 < c then true else dest % 16 < r % 16 - c)
       <==> dest % 16 < src % 16 + c && !(c == 1 && dest % 16 == src % 16 && src % 16 != 15)
  {
    LowNibble(src, c);
  }

  /** Subtracting the widened subtrahend gives the exact difference; only a 32-bit wrap hides the borrow. */
  lemma SbbValue(width: nat, dest: nat, src: nat, c: nat, r: nat)
    requires IsWidth(width) && dest < Modulus(width) && src < Modulus(width) && c <= 1
    requires r == if width == 32 then Truncate(width, src + c) else src + c
    ensures r <= Modulus(width) && r % 16 == (src + c) % 16
    ensures Truncate(width, dest - r) == Truncate(width, dest - src - c)
    ensures Truncate(width, dest - r) == Truncate(width, dest - Truncate(width, r))
    ensures Truncate(width, r) == Truncate(width, src + c)
    ensures dest < r <==> dest < src + c && !LosesBorrow(width, src, c == 1)
  {
    TruncateNibble(width, src + c);
  }

  lemma SbbOverflow(width: nat, dest: nat, src: nat, c: nat, r: nat, v: nat)
    requires IsWidth(width) && dest < Modulus(width) && src < Modulus(width) && c <= 1
    requires r == Truncate(width, src + c) && v == Truncate(width, dest - r)
    ensures (SignBit(width, dest) != SignBit(width, r) && SignBit(width, dest) != SignBit(width, v))
       <==> (Overflows(width, Signed(width, dest) - Signed(width, src) - c) != (c == 1 && src == Half(width) - 1))
  {
  }

  /** _ALU_ADD_SETFLAGS: overflow, carry and adjust found by comparing the wrapped sum `v`. */
  method AddFlags(f: Flags, width: nat, dest: nat, src: nat, v: nat, ghost c: nat) returns (g: Flags)
    requires IsWidth(width) && dest < Modulus(width) && src < Modulus(width) && c <= 1
    requires v == Truncate(width, dest + src + c)
    requires !f.cf && !f.af && !f.of
    ensures g == f.(cf := dest + src + c >= Modulus(width),
                    af := dest % 16 + src % 16 + c >= 16,
                    of := Overflows(width, Signed(width, dest) + Signed(width, src) + c))
  {
    AddCarry(width, dest, src, c, v);
    TruncateNibble(width, dest + src + c);
    AddAdjust(dest, src, c, v);
    AddOverflow(width, dest, src, c, v);
    g := f;
    if SignBit(width, dest) == SignBit(width, src) && SignBit(width, v) != SignBit(width, dest) {
      g := g.(of := true);
    }
    if dest != 0 {
      if v <= src { g := g.(cf := true); }
    } else {
      if v < src { g := g.(cf := true); }
    }
    if dest % 16 != 0 {
      if v % 16 <= src % 16 { g := g.(af := true); }
    } else {
      if v % 16 < src % 16 { g := g.(af := true); }
    }
  }

  method Add(width: nat, dest: nat, src: nat) returns (v: nat, g: Flags)
    requires IsWidth(width) && dest < Modulus(width) && src < Modulus(width)
    ensures v < Modulus(width) && v + Bit(g.cf) * Modulus(width) == dest + src
    ensures g.af <==> dest % 16 + src % 16 >= 16
    ensures g.of <==> Overflows(width, Signed(width, dest) + Signed(width, src))
    ensures CommonFlags(g, width, v)
  {
    v := Truncate(width, dest + src);
    g := Flags(false, false, false, false, false, false);
    g := AddFlags(g, width, dest, src, v, 0);
    g := SetCommonFlags(g, width, v);
  }

  method Adc(width: nat, dest: nat, src: nat, f: Flags) returns (v: nat, g: Flags)
    requires IsWidth(width) && dest < Modulus(width) && src < Modulus(width)
    ensures v < Modulus(width) && v + Bit(g.cf) * Modulus(width) == dest + src + Bit(f.cf)
    ensures g.af <==> dest % 16 + src % 16 + Bit(f.cf) >= 16
    ensures g.of <==> Overflows(width, Signed(width, dest) + Signed(width, src) + Bit(f.cf))
    ensures CommonFlags(g, width, v)
  {
    v := Truncate(width, dest + src + Bit(f.cf));
    g := Flags(false, false, false, false, false, false);
    g := AddFlags(g, width, dest, src, v, Bit(f.cf));
    if dest != 0 && v == src {
      g := g.(cf := true);
    }
    g := SetCommonFlags(g, width, v);
  }

  /** The low nibble of an exact difference borrows. */
  predicate NibbleBorrows(dest: nat, src: nat, c: nat) {
    dest % 16 < src % 16 + c
  }

  /** The adjust flag of __SUB_FLAGS: exact for SUB, missed on equal nibbles by SBB. */
  predicate SubAdjust(dest: nat, src: nat, c: nat) {
    NibbleBorrows(dest, src, c) && !(c == 1 && dest % 16 == src % 16 && src % 16 != 15)
  }

  /** The first two tests of __SUB_FLAGS, on the subtrahend `r` that already holds the incoming borrow `c`. */
  method SubBorrows(dest: nat, r: nat, c: nat, ghost src: nat) returns (cf: bool, af: bool)
    requires c <= 1 && r % 16 == (src + c) % 16
    ensures cf == (dest < r) && af == SubAdjust(dest, src, c)
  {
    cf := dest < r;
    // (r & 15) - c is unsigned 64-bit arithmetic: it wraps to a huge number below zero.
    af := dest % 16 < (if r % 16 < c then r % 16 - c + 0x1_0000_0000_0000_0000 else r % 16 - c);
    SbbAdjust(dest, src, c, r);
  }

  /** __SUB_FLAGS. */
  method SubFlags(f: Flags, width: nat, dest: nat, r: nat, c: nat, v: nat, ghost src: nat) returns (g: Flags)
    requires IsWidth(width) && dest < Modulus(width) && r <= Modulus(width) && c <= 1 && v < Modulus(width)
    requires !f.cf && !f.af && !f.of && r % 16 == (src + c) % 16
    ensures g == f.(cf := dest < r, af := SubAdjust(dest, src, c),
                    of := SignBit(width, dest) != SignBit(width, Truncate(width, r))
                          && SignBit(width, dest) != SignBit(width, v))
  {
    g := f;
    var cf, af := SubBorrows(dest, r, c, src);
    if cf { g := g.(cf := true); }
    if af { g := g.(af := true); }
    if SignBit(width, dest) != SignBit(width, Truncate(width, r)) && SignBit(width, dest) != SignBit(width, v) {
      g := g.(of := true);
    }
  }

  /** The borrow that the 32-bit SBB loses: its subtrahend plus borrow wraps to zero. */
  predicate LosesBorrow(width: nat, src: nat, borrow: bool)
    requires IsWidth(width)
  {
    width == 32 && src == Modulus(width) - 1 && borrow
  }

  method Sub(width: nat, dest: nat, src: nat) returns (v: nat, g: Flags)
    requires IsWidth(width) && dest < Modulus(width) && src < Modulus(width)
    ensures v < Modulus(width) && v == dest - src + Bit(g.cf) * Modulus(width)
    ensures g.af <==> dest % 16 < src % 16
    ensures g.of <==> Overflows(width, Signed(width, dest) - Signed(width, src))
    ensures CommonFlags(g, width, v)
  {
    v := Truncate(width, dest - src);
    g := Flags(false, false, false, false, false, false);
    g := SubFlags(g, width, dest, src, 0, v, src);
    g := SetCommonFlags(g, width, v);
  }

  /** The middle of the SBB macro: the widened subtrahend, the difference and __SUB_FLAGS. */
  method SubBorrowed(width: nat, dest: nat, src: nat, c: nat, f: Flags) returns (v: nat, g: Flags)
    requires IsWidth(width) && dest < Modulus(width) && src < Modulus(width) && c <= 1
    requires !f.cf && !f.af && !f.of
    ensures v == Truncate(width, dest - src - c)
    ensures g.cf <==> dest < src + c && !LosesBorrow(width, src, c == 1)
    ensures g.af <==> SubAdjust(dest, src, c)
    ensures g.of <==> (Overflows(width, Signed(width, dest) - Signed(width, src) - c)
                       != (c == 1 && src == Half(width) - 1))
  {
    // A 32-bit *src + c is computed in 32 bits before it is widened; narrower ones are promoted.
    var r := if width == 32 then Truncate(width, src + c) else src + c;
    SbbValue(width, dest, src, c, r);
    v := Truncate(width, dest - r);
    SbbOverflow(width, dest, src, c, Truncate(width, r), v);
    g := SubFlags(f, width, dest, r, c, v, src);
  }

  /**
   Subtract with borrow.  The difference is exact; the flags are the exact ones except in the
   three cases named: a lost 32-bit borrow, an adjust flag missed on equal nibbles, and an
   overflow flag inverted when adding the borrow pushes the subtrahend over the sign.
   */
  method Sbb(width: nat, dest: nat, src: nat, f: Flags) returns (v: nat, g: Flags)
    requires IsWidth(width) && dest < Modulus(width) && src < Modulus(width)
    ensures v < Modulus(width) && v == Truncate(width, dest - src - Bit(f.cf))
    ensures g.cf <==> dest < src + Bit(f.cf) && !LosesBorrow(width, src, f.cf)
    ensures g.af <==> SubAdjust(dest, src, Bit(f.cf))
    ensures g.of <==> (Overflows(width, Signed(width, dest) - Signed(width, src) - Bit(f.cf))
                       != (f.cf && src == Half(width) - 1))
    ensures CommonFlags(g, width, v)
  {
    g := f.(of := false, cf := false, af := false);
    v, g := SubBorrowed(width, dest, src, Bit(f.cf), g);
    g := SetCommonFlags(g, width, v);
  }

  /** Zero minus 127 minus one is -128, which is in the range; SBB sets OF all the same. */
  method OverflowSetWrongly() returns (v: nat, g: Flags)
    ensures v == 0x80 && g.of && !Overflows(8, Signed(8, 0) - Signed(8, 0x7F) - 1)
  {
    v, g := Sbb(8, 0, 0x7F, Flags(true, false, false, false, false, false));
  }

  /** Zero minus zero minus one borrows out of the low nibble; SBB leaves AF clear. */
  method AdjustMissed() returns (v: nat, g: Flags)
    ensures v == 0xFF && !g.af && NibbleBorrows(0, 0, 1)
  {
    v, g := Sbb(8, 0, 0, Flags(true, false, false, false, false, false));
  }
}
