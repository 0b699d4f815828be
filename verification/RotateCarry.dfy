/**
 RCL and RCR of extra/ops_alu.h.  The loops move one bit per turn; the contracts say that they
 rotate the number CF:dest, one bit wider than the operand, by the masked count.
 */
module RotateCarry {
  import opened Alu
  import opened Common
  import opened LimbChains

  /** The number written by a bit string, most significant bit first. */
  function Number(s: seq<bool>): nat {
    if s == [] then 0 else 2 * Number(s[..|s| - 1]) + Bit(s[|s| - 1])
  }

  /** The low `n` bits of a number, most significant bit first. */
  function Bits(x: nat, n: nat): (s: seq<bool>)
    ensures |s| == n
  {
    if n == 0 then [] else Bits(x / 2, n - 1) + [x % 2 == 1]
  }

  lemma {:induction false} BitsOfNumber(s: seq<bool>)
    ensures Bits(Number(s), |s|) == s
  {
    if s != [] {
      var (t, b) := (s[..|s| - 1], s[|s| - 1]);
      BitsOfNumber(t);
      assert Number(s) / 2 == Number(t) && (Number(s) % 2 == 1) == b;
      assert s == t + [b];
    }
  }

  lemma {:induction false} NumberOfBits(x: nat, n: nat)
    requires x < Pow(2, n)
    ensures Number(Bits(x, n)) == x
  {
    if n > 0 {
      NumberOfBits(x / 2, n - 1);
      assert Bits(x, n)[..n - 1] == Bits(x / 2, n - 1);
    }
  }

  lemma {:induction false} NumberFront(b: bool, t: seq<bool>)
    ensures Number([b] + t) == Bit(b) * Pow(2, |t|) + Number(t)
    ensures Number(t) < Pow(2, |t|)
  {
    if t == [] {
      assert [b] + t == [b] && [b][..0] == [];
    } else {
      var k := |t| - 1;
      NumberFront(b, t[..k]);
      assert ([b] + t)[..k + 1] == [b] + t[..k];
    }
  }

  function RotateLeft(s: seq<bool>, n: nat): seq<bool>
    requires n <= |s|
  {
    s[n..] + s[..n]
  }

  function RotateRight(s: seq<bool>, n: nat): seq<bool>
    requires n <= |s|
  {
    s[|s| - n..] + s[..|s| - n]
  }

  lemma {:induction false} NumberAppend(a: seq<bool>, b: seq<bool>)
    ensures Number(a + b) == Number(a) * Pow(2, |b|) + Number(b)
  {
    if b == [] {
      assert a + b == a;
    } else {
      var k := |b| - 1;
      NumberAppend(a, b[..k]);
      assert (a + b)[..|a| + k] == a + b[..k];
      assert 2 * (Number(a) * Pow(2, k)) == Number(a) * (2 * Pow(2, k));
    }
  }

  /** A number `x` in two parts of `high` and `low` bits, and `y` with the two parts exchanged. */
  ghost predicate Exchanged(x: nat, y: nat, high: nat, low: nat) {
    exists a: nat, b: nat :: InParts(x, y, high, low, a, b)
  }

  ghost predicate InParts(x: nat, y: nat, high: nat, low: nat, a: nat, b: nat) {
    a < Pow(2, high) && b < Pow(2, low) && x == a * Pow(2, low) + b && y == b * Pow(2, high) + a
  }

  /** In numbers: a rotation to the left takes the top `n` bits to the bottom. */
  lemma LeftNumber(s: seq<bool>, n: nat)
    requires n <= |s|
    ensures Exchanged(Number(s), Number(RotateLeft(s, n)), n, |s| - n)
  {
    SplitNumber(s, n);
    var (a, b) := (s[..n], s[n..]);
    assert InParts(Number(s), Number(b + a), n, |s| - n, Number(a), Number(b));
  }

  /** A rotation to the right takes the low `n` bits to the top. */
  lemma RightNumber(s: seq<bool>, n: nat)
    requires n <= |s|
    ensures Exchanged(Number(s), Number(RotateRight(s, n)), |s| - n, n)
  {
    var k := |s| - n;
    SplitNumber(s, k);
    var (a, b) := (s[..k], s[k..]);
    assert InParts(Number(s), Number(b + a), k, n, Number(a), Number(b));
  }

  lemma SplitNumber(s: seq<bool>, n: nat)
    requires n <= |s|
    ensures var (a, b) := (s[..n], s[n..]);
            InParts(Number(s), Number(b + a), n, |s| - n, Number(a), Number(b))
  {
    assert s == s[..n] + s[n..];
    PartsOf(s[..n], s[n..]);
  }

  lemma PartsOf(a: seq<bool>, b: seq<bool>)
    ensures InParts(Number(a + b), Number(b + a), |a|, |b|, Number(a), Number(b))
  {
    NumberAppend(a, b);
    NumberAppend(b, a);
    NumberFront(false, a);
    NumberFront(false, b);
  }

  lemma RotateBack(s: seq<bool>, n: nat)
    requires n <= |s|
    ensures RotateRight(RotateLeft(s, n), n) == s
  {
    var r := RotateLeft(s, n);
    assert r[|s| - n..] == s[..n] && r[..|s| - n] == s[n..];
  }

  /** The number CF:dest. */
  function WithCarry(width: nat, cf: bool, dest: nat): nat
    requires IsWidth(width)
  {
    if cf then Modulus(width) + dest else dest
  }

  function CarryBits(width: nat, cf: bool, dest: nat): (s: seq<bool>)
    requires IsWidth(width)
    ensures |s| == width + 1
  {
    Bits(WithCarry(width, cf, dest), width + 1)
  }

  lemma PowWidth(width: nat)
    requires IsWidth(width)
    ensures Pow(2, width) == Modulus(width) && Pow(2, width + 1) == 2 * Modulus(width)
  {
    assert Pow(2, 8) == 256;
    assert Pow(2, 16) == 0x1_0000;
    assert Pow(2, 24) == 0x100_0000;
  }

  lemma FirstToEnd(s: seq<bool>)
    requires s != []
    ensures var (p, x) := (Pow(2, |s| - 1), Number(s));
            Number(s[1..] + [s[0]]) == if x >= p then 2 * (x - p) + 1 else 2 * x
  {
    var t := s[1..] + [s[0]];
    NumberFront(s[0], s[1..]);
    assert s == [s[0]] + s[1..] && t[..|s| - 1] == s[1..];
  }

  lemma LastToFront(s: seq<bool>)
    requires s != []
    ensures var (p, x, k) := (Pow(2, |s| - 1), Number(s), |s| - 1);
            Number([s[k]] + s[..k]) == x / 2 + if x % 2 == 1 then p else 0
  {
    var (t, last) := (s[..|s| - 1], s[|s| - 1]);
    NumberFront(last, t);
    assert Number(s) == 2 * Number(t) + Bit(last);
    assert Number(s) / 2 == Number(t) && (Number(s) % 2 == 1) == last;
  }

  /** One turn of RCL's loop takes the first bit to the end. */
  lemma RclTurn(width: nat, cf: bool, val: nat)
    requires IsWidth(width) && val < Modulus(width)
    ensures var s := CarryBits(width, cf, val);
            CarryBits(width, SignBit(width, val), Truncate(width, 2 * val) + Bit(cf)) == s[1..] + [s[0]]
  {
    var s := CarryBits(width, cf, val);
    PowWidth(width);
    NumberOfBits(WithCarry(width, cf, val), width + 1);
    FirstToEnd(s);
    assert Number(s[1..] + [s[0]]) == WithCarry(width, SignBit(width, val), Truncate(width, 2 * val) + Bit(cf));
    BitsOfNumber(s[1..] + [s[0]]);
  }

  lemma HalfCarry(width: nat, cf: bool, val: nat)
    requires IsWidth(width) && val < Modulus(width)
    ensures var x := WithCarry(width, cf, val);
            x / 2 == val / 2 + If(cf, Half(width)) && x % 2 == val % 2
    ensures val / 2 + If(cf, Half(width)) < Modulus(width)
  {
  }

  /** One turn of RCR's loop takes the last bit to the front. */
  lemma RcrTurn(width: nat, cf: bool, val: nat)
    requires IsWidth(width) && val < Modulus(width)
    ensures val / 2 + If(cf, Half(width)) < Modulus(width)
    ensures var s := CarryBits(width, cf, val);
            CarryBits(width, val % 2 == 1, val / 2 + If(cf, Half(width))) == [s[width]] + s[..width]
  {
    var s := CarryBits(width, cf, val);
    PowWidth(width);
    HalfCarry(width, cf, val);
    NumberOfBits(WithCarry(width, cf, val), width + 1);
    LastToFront(s);
    assert Number([s[width]] + s[..width]) == WithCarry(width, val % 2 == 1, val / 2 + If(cf, Half(width)));
    BitsOfNumber([s[width]] + s[..width]);
  }

  lemma RotateLeftOnce(s: seq<bool>, k: nat)
    requires k < |s|
    ensures RotateLeft(s, k)[1..] + [RotateLeft(s, k)[0]] == RotateLeft(s, k + 1)
  {
  }

  lemma RotateRightOnce(s: seq<bool>, k: nat)
    requires k < |s|
    ensures [RotateRight(s, k)[|s| - 1]] + RotateRight(s, k)[..|s| - 1] == RotateRight(s, k + 1)
  {
  }

  /** Different operands or carries give different bit strings. */
  lemma CarryBitsUnique(width: nat, cf: bool, a: nat, cf': bool, a': nat)
    requires IsWidth(width) && a < Modulus(width) && a' < Modulus(width)
    requires CarryBits(width, cf, a) == CarryBits(width, cf', a')
    ensures cf == cf' && a == a'
  {
    PowWidth(width);
    NumberOfBits(WithCarry(width, cf, a), width + 1);
    NumberOfBits(WithCarry(width, cf', a'), width + 1);
  }

  /** The count modulo 32 and then modulo one more than the width, for each width. */
  function Amount(width: nat, count: nat): (n: nat)
    requires IsWidth(width)
    ensures n <= width
  {
    if width == 8 then count % 32 % 9 else if width == 16 then count % 32 % 17 else count % 32 % 33
  }

  lemma AmountIs(width: nat, count: nat)
    requires IsWidth(width)
    ensures Amount(width, count) == count % 32 % (width + 1)
  {
  }

  lemma SmallAmount(width: nat, n: nat)
    requires IsWidth(width) && n <= width
    ensures Amount(width, n) == if n == 32 then 0 else n
  {
  }

  lemma NotRotated(s: seq<bool>)
    ensures RotateLeft(s, 0) == RotateRight(s, 0) == s
  {
  }

  lemma OtherWayRound(s: seq<bool>, n: nat)
    requires n <= |s|
    ensures RotateLeft(s, n) == RotateRight(s, |s| - n)
  {
  }

  lemma RclStep(width: nat, cf: bool, val: nat, s: seq<bool>, k: nat)
    requires IsWidth(width) && val < Modulus(width) && k < |s| && CarryBits(width, cf, val) == RotateLeft(s, k)
    ensures CarryBits(width, SignBit(width, val), Truncate(width, 2 * val) + Bit(cf)) == RotateLeft(s, k + 1)
  {
    RclTurn(width, cf, val);
    RotateLeftOnce(s, k);
  }

  lemma RcrStep(width: nat, cf: bool, val: nat, s: seq<bool>, k: nat)
    requires IsWidth(width) && val < Modulus(width) && k < |s| && CarryBits(width, cf, val) == RotateRight(s, k)
    ensures val / 2 + If(cf, Half(width)) < Modulus(width)
    ensures CarryBits(width, val % 2 == 1, val / 2 + If(cf, Half(width))) == RotateRight(s, k + 1)
  {
    RcrTurn(width, cf, val);
    RotateRightOnce(s, k);
  }

  /** The body of the loop of RCL. */
  method RclBit(width: nat, val: nat, cf: bool, ghost s: seq<bool>, ghost k: nat) returns (next: nat, cfNew: bool)
    requires IsWidth(width) && val < Modulus(width) && k < |s| && CarryBits(width, cf, val) == RotateLeft(s, k)
    ensures next < Modulus(width) && CarryBits(width, cfNew, next) == RotateLeft(s, k + 1)
  {
    RclStep(width, cf, val, s, k);
    cfNew := SignBit(width, val);
    next := Truncate(width, 2 * val) + Bit(cf);
  }

  /** The body of the loop of RCR. */
  method RcrBit(width: nat, val: nat, cf: bool, ghost s: seq<bool>, ghost k: nat) returns (next: nat, cfNew: bool)
    requires IsWidth(width) && val < Modulus(width) && k < |s| && CarryBits(width, cf, val) == RotateRight(s, k)
    ensures next < Modulus(width) && CarryBits(width, cfNew, next) == RotateRight(s, k + 1)
  {
    RcrStep(width, cf, val, s, k);
    cfNew := val % 2 == 1;
    next := val / 2 + If(cf, Half(width));
  }

  /** The loop of RCL. */
  method RclTurns(width: nat, dest: nat, carry: bool, amt: nat) returns (val: nat, cf: bool)
    requires IsWidth(width) && dest < Modulus(width) && amt <= width
    ensures val < Modulus(width)
    ensures CarryBits(width, cf, val) == RotateLeft(CarryBits(width, carry, dest), amt)
  {
    ghost var s := CarryBits(width, carry, dest);
    val, cf := dest, carry;
    var k := 0;
    NotRotated(s);
    while k < amt
      invariant 0 <= k <= amt && val < Modulus(width)
      invariant CarryBits(width, cf, val) == RotateLeft(s, k)
    {
      val, cf := RclBit(width, val, cf, s, k);
      k := k + 1;
    }
  }

  /** Rotate through carry left. */
  method Rcl(width: nat, dest: nat, count: nat, f: Flags) returns (r: nat, g: Flags)
    requires IsWidth(width) && dest < Modulus(width)
    ensures r < Modulus(width)
    ensures CarryBits(width, g.cf, r) == RotateLeft(CarryBits(width, f.cf, dest), Amount(width, count))
    ensures g == if Amount(width, count) == 0 then f else f.(cf := g.cf, of := g.cf != SignBit(width, r))
  {
    r, g := dest, f;
    var amt := Amount(width, count);
    NotRotated(CarryBits(width, f.cf, dest));
    if amt > 0 {
      var cf;
      r, cf := RclTurns(width, dest, f.cf, amt);
      g := g.(of := false, cf := cf);
      g := g.(of := cf != SignBit(width, r));
    }
  }

  /** The loop of RCR. */
  method RcrTurns(width: nat, dest: nat, carry: bool, amt: nat) returns (val: nat, cf: bool)
    requires IsWidth(width) && dest < Modulus(width) && amt <= width
    ensures val < Modulus(width)
    ensures CarryBits(width, cf, val) == RotateRight(CarryBits(width, carry, dest), amt)
  {
    ghost var s := CarryBits(width, carry, dest);
    val, cf := dest, carry;
    var k := 0;
    NotRotated(s);
    while k < amt
      invariant 0 <= k <= amt && val < Modulus(width)
      invariant CarryBits(width, cf, val) == RotateRight(s, k)
    {
      val, cf := RcrBit(width, val, cf, s, k);
      k := k + 1;
    }
  }

  /** Rotate through carry right. */
  method Rcr(width: nat, dest: nat, count: nat, f: Flags) returns (r: nat, g: Flags)
    requires IsWidth(width) && dest < Modulus(width)
    ensures r < Modulus(width)
    ensures CarryBits(width, g.cf, r) == RotateRight(CarryBits(width, f.cf, dest), Amount(width, count))
    ensures g == if Amount(width, count) == 0 then f else f.(cf := g.cf, of := f.cf != SignBit(width, dest))
  {
    r, g := dest, f;
    var amt := Amount(width, count);
    NotRotated(CarryBits(width, f.cf, dest));
    if amt > 0 {
      g := g.(of := SignBit(width, dest) != f.cf, cf := false);
      var cf;
      r, cf := RcrTurns(width, dest, f.cf, amt);
      g := g.(cf := cf);
    }
  }

  /** RCL then RCR by the same count gives back the operand and the carry. */
  method RclThenRcr(width: nat, dest: nat, count: nat, f: Flags) returns (r: nat, g: Flags)
    requires IsWidth(width) && dest < Modulus(width)
    ensures r == dest && g.cf == f.cf
  {
    r, g := Rcl(width, dest, count, f);
    r, g := Rcr(width, r, count, g);
    RotateBack(CarryBits(width, f.cf, dest), Amount(width, count));
    CarryBitsUnique(width, g.cf, r, f.cf, dest);
  }

  /** RCL by n is RCR by width + 1 - n, except where one of the two counts is 32, which rotates nothing. */
  method RclMeetsRcr(width: nat, dest: nat, n: nat, f: Flags) returns (l: nat, lf: Flags, r: nat, rf: Flags)
    requires IsWidth(width) && dest < Modulus(width) && 0 < n <= width
    ensures n < 32 && width + 1 - n < 32 ==> l == r && lf.cf == rf.cf
    ensures n == 32 ==> l == dest && lf == f
    ensures width + 1 - n == 32 ==> r == dest && rf == f
  {
    l, lf := Rcl(width, dest, n, f);
    r, rf := Rcr(width, dest, width + 1 - n, f);
    SmallAmount(width, n);
    SmallAmount(width, width + 1 - n);
    if n < 32 && width + 1 - n < 32 {
      BothWays(width, f.cf, dest, n, width + 1 - n, lf.cf, l, rf.cf, r);
    } else if n == 32 {
      Unmoved(width, f.cf, dest, lf.cf, l);
    } else {
      Unmoved(width, f.cf, dest, rf.cf, r);
    }
  }

  lemma Unmoved(width: nat, cf: bool, dest: nat, cf': bool, r: nat)
    requires IsWidth(width) && dest < Modulus(width) && r < Modulus(width)
    requires CarryBits(width, cf', r) == RotateLeft(CarryBits(width, cf, dest), 0)
             || CarryBits(width, cf', r) == RotateRight(CarryBits(width, cf, dest), 0)
    ensures cf == cf' && r == dest
  {
    NotRotated(CarryBits(width, cf, dest));
    CarryBitsUnique(width, cf', r, cf, dest);
  }

  lemma BothWays(width: nat, cf: bool, dest: nat, a: nat, b: nat, lcf: bool, l: nat, rcf: bool, r: nat)
    requires IsWidth(width) && dest < Modulus(width) && l < Modulus(width) && r < Modulus(width) && a + b == width + 1
    requires CarryBits(width, lcf, l) == RotateLeft(CarryBits(width, cf, dest), a)
    requires CarryBits(width, rcf, r) == RotateRight(CarryBits(width, cf, dest), b)
    ensures l == r && lcf == rcf
  {
    OtherWayRound(CarryBits(width, cf, dest), a);
    CarryBitsUnique(width, lcf, l, rcf, r);
  }

  lemma CarryNumber(width: nat, cf: bool, dest: nat)
    requires IsWidth(width) && dest < Modulus(width)
    ensures Number(CarryBits(width, cf, dest)) == If(cf, Modulus(width)) + dest
  {
    PowWidth(width);
    NumberOfBits(WithCarry(width, cf, dest), width + 1);
  }

  lemma RclExchanges(width: nat, cf: bool, dest: nat, n: nat, cf': bool, r: nat)
    requires IsWidth(width) && dest < Modulus(width) && r < Modulus(width) && n <= width
    requires CarryBits(width, cf', r) == RotateLeft(CarryBits(width, cf, dest), n)
    ensures Exchanged(If(cf, Modulus(width)) + dest, If(cf', Modulus(width)) + r, n, width + 1 - n)
  {
    LeftNumber(CarryBits(width, cf, dest), n);
    CarryNumber(width, cf, dest);
    CarryNumber(width, cf', r);
  }

  lemma RcrExchanges(width: nat, cf: bool, dest: nat, n: nat, cf': bool, r: nat)
    requires IsWidth(width) && dest < Modulus(width) && r < Modulus(width) && n <= width
    requires CarryBits(width, cf', r) == RotateRight(CarryBits(width, cf, dest), n)
    ensures Exchanged(If(cf, Modulus(width)) + dest, If(cf', Modulus(width)) + r, width + 1 - n, n)
  {
    RightNumber(CarryBits(width, cf, dest), n);
    CarryNumber(width, cf, dest);
    CarryNumber(width, cf', r);
  }

  /** RCL on the number that CF and the operand make up: its top bits go to the bottom. */
  method RclNumber(width: nat, dest: nat, count: nat, f: Flags) returns (r: nat, g: Flags)
    requires IsWidth(width) && dest < Modulus(width)
    ensures var n := count % 32 % (width + 1);
            Exchanged(If(f.cf, Modulus(width)) + dest, If(g.cf, Modulus(width)) + r, n, width + 1 - n)
  {
    r, g := Rcl(width, dest, count, f);
    AmountIs(width, count);
    RclExchanges(width, f.cf, dest, Amount(width, count), g.cf, r);
  }

  /** RCR: its low bits go to the top. */
  method RcrNumber(width: nat, dest: nat, count: nat, f: Flags) returns (r: nat, g: Flags)
    requires IsWidth(width) && dest < Modulus(width)
    ensures var n := count % 32 % (width + 1);
            Exchanged(If(f.cf, Modulus(width)) + dest, If(g.cf, Modulus(width)) + r, width + 1 - n, n)
  {
    r, g := Rcr(width, dest, count, f);
    AmountIs(width, count);
    RcrExchanges(width, f.cf, dest, Amount(width, count), g.cf, r);
  }

  /** The bits of a number one by one. */
  lemma {:induction false} BitsAt(x: nat, n: nat, k: nat)
    requires k < n
    ensures Bits(x, n)[n - 1 - k] <==> x / Pow(2, k) % 2 == 1
  {
    if k > 0 {
      BitsAt(x / 2, n - 1, k - 1);
      HalfFirst(x, Pow(2, k - 1));
    } else {
      assert x / Pow(2, 0) == x;
    }
  }

  lemma HalfFirst(x: nat, p: nat)
    requires p > 0
    ensures x / 2 / p == x / (2 * p)
  {
    var (h, b) := (x / 2, x % 2);
    var (q, r) := (h / p, h % p);
    assert h == q * p + r;
    assert x == q * (2 * p) + (2 * r + b);
    ModUnique(x, 2 * p, q, 2 * r + b);
  }
}
