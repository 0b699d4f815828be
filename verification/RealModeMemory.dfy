/**
 Segmented memory of the real-mode emulator (extra/rme_internal.h), as values: addresses, words,
 and sixteen-bit offsets that move in equal steps.
 */
module RealModeMemory {
  import opened Common

  type Word = x: nat | x < 0x1_0000
  type Memory = map<nat, Byte>

  /** The address of Seg:Ofs. */
  function Linear(segment: Word, ofs: Word): nat {
    segment * 16 + ofs
  }

  /** `ofs` moved by less than a segment, in sixteen bits. */
  function Step(ofs: Word, d: int): Word
    requires -0x1_0000 < d < 0x1_0000
  {
    if ofs + d < 0 then ofs + d + 0x1_0000
    else if ofs + d >= 0x1_0000 then ofs + d - 0x1_0000
    else ofs + d
  }

  /** `ofs` after `n` steps. */
  function Walk(ofs: Word, d: int, n: nat): Word
    requires -0x1_0000 < d < 0x1_0000
  {
    if n == 0 then ofs else Step(Walk(ofs, d, n - 1), d)
  }

  /** The distance that `n` steps cover. */
  function Distance(d: int, n: nat): int {
    if d == 1 then n else if d == -1 then 0 - n else if d == 2 then 2 * n else if d == -2 then 0 - 2 * n else d * n
  }

  lemma StepIsMod(x: int, d: int)
    requires -0x1_0000 < d < 0x1_0000
    ensures Step(x % 0x1_0000, d) == (x + d) % 0x1_0000
  {
    assert x == 0x1_0000 * (x / 0x1_0000) + x % 0x1_0000;
  }

  /** Walking is addition modulo 2^16. */
  lemma {:induction false} WalkIsMod(ofs: Word, d: int, n: nat)
    requires -0x1_0000 < d < 0x1_0000
    ensures Walk(ofs, d, n) == (ofs + Distance(d, n)) % 0x1_0000
  {
    if n > 0 {
      WalkIsMod(ofs, d, n - 1);
      StepIsMod(ofs + Distance(d, n - 1), d);
      assert Distance(d, n) == Distance(d, n - 1) + d;
    }
  }

  lemma {:induction false} WalkAdds(ofs: Word, d: int, a: nat, b: nat)
    requires -0x1_0000 < d < 0x1_0000
    ensures Walk(Walk(ofs, d, a), d, b) == Walk(ofs, d, a + b)
    decreases b
  {
    if b > 0 {
      WalkAdds(ofs, d, a, b - 1);
    }
  }

  lemma {:induction false} WalkBack(ofs: Word, d: int, n: nat, k: nat)
    requires -0x1_0000 < d < 0x1_0000 && k <= n
    ensures Walk(Walk(ofs, d, n), 0 - d, k) == Walk(ofs, d, n - k)
    decreases k
  {
    if k > 0 {
      WalkBack(ofs, d, n, k - 1);
    }
  }

  /** Within one segment's length a walk does not meet itself. */
  lemma WalkDistinct(ofs: Word, d: int, j: nat, k: nat)
    requires d == 1 || d == -1 || d == 2 || d == -2
    requires j < k && (d == 1 || d == -1 ==> k - j < 0x1_0000) && (d == 2 || d == -2 ==> k - j < 0x8000)
    ensures Walk(ofs, d, j) != Walk(ofs, d, k)
  {
    WalkIsMod(ofs, d, j);
    WalkIsMod(ofs, d, k);
    var (x, y) := (ofs + Distance(d, j), ofs + Distance(d, k));
    assert x == 0x1_0000 * (x / 0x1_0000) + x % 0x1_0000;
    assert y == 0x1_0000 * (y / 0x1_0000) + y % 0x1_0000;
  }

  lemma {:induction false} WalkEven(ofs: Word, d: int, n: nat)
    requires ofs % 2 == 0 && (d == 2 || d == -2)
    ensures Walk(ofs, d, n) % 2 == 0
  {
    if n > 0 {
      WalkEven(ofs, d, n - 1);
    }
  }

  ghost predicate Mapped(mem: Memory, at: seq<nat>) {
    forall k :: 0 <= k < |at| ==> at[k] in mem
  }

  ghost predicate AllDifferent(at: seq<nat>) {
    forall j, k :: 0 <= j < k < |at| ==> at[j] != at[k]
  }

  function WordAt(mem: Memory, a: nat): Word
    requires a in mem && a + 1 in mem
  {
    (mem[a] as int) + 0x100 * (mem[a + 1] as int)
  }

  function StoreWord(mem: Memory, a: nat, v: Word): (m: Memory)
    ensures m.Keys == mem.Keys + {a, a + 1}
  {
    mem[a := v % 0x100][a + 1 := v / 0x100]
  }

  /** A word at an even address lies in one block, so its two bytes are mapped together. */
  ghost predicate Paired(mem: Memory) {
    forall a: nat :: a % 2 == 0 ==> PairAt(mem, a)
  }

  ghost predicate PairAt(mem: Memory, a: nat) {
    a in mem <==> a + 1 in mem
  }

  /** The word at `a` does not run out of the memory that its first byte lies in. */
  ghost predicate Whole(mem: Memory, a: nat) {
    a in mem ==> a + 1 in mem
  }

  lemma StoreHere(mem: Memory, a: nat, v: Word)
    ensures WordAt(StoreWord(mem, a, v), a) == v
    ensures StoreWord(mem, a, v)[a] == v % 256 && StoreWord(mem, a, v)[a + 1] == v / 256
    ensures forall x :: x in mem && x != a && x != a + 1 ==> StoreWord(mem, a, v)[x] == mem[x]
  {
  }

  lemma StoreElsewhere(mem: Memory, a: nat, v: Word, b: nat)
    requires a % 2 == 0 && b % 2 == 0 && a != b && b in mem && b + 1 in mem
    ensures WordAt(StoreWord(mem, a, v), b) == WordAt(mem, b)
  {
  }
}
