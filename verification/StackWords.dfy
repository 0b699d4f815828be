/**
 The stack of the real-mode emulator as values: which words a run of PUSH macros stores, where, and
 that they can be read back (PUSH and POP of extra/rme_internal.h).
 */
module StackWords {
  import opened Common
  import opened RealModeMemory

  /** The address of the word that the `n`-th PUSH from SP on writes. */
  function Below(ss: Word, sp: Word, n: nat): nat {
    Linear(ss, Walk(sp, -2, n))
  }

  /** The address of the stack word `k` words above SP. */
  function Above(ss: Word, sp: Word, k: nat): nat {
    Linear(ss, Walk(sp, 2, k))
  }

  /** The stack word `k` words above SP, or zero where nothing is mapped. */
  function Peek(mem: Memory, ss: Word, sp: Word, k: nat): Word {
    var a := Above(ss, sp, k);
    if a in mem && a + 1 in mem then WordAt(mem, a) else 0
  }

  /** The `n` words below SP are mapped. */
  ghost predicate Room(mem: Memory, ss: Word, sp: Word, n: nat) {
    n == 0 || (Room(mem, ss, sp, n - 1) && Below(ss, sp, n) in mem)
  }

  /** In numbers: the stack grows down, by two bytes a word, within its segment. */
  lemma StackPlaces(ss: Word, sp: Word, n: nat)
    ensures Below(ss, sp, n) == ss * 16 + (sp - 2 * n) % 0x1_0000
    ensures Above(ss, sp, n) == ss * 16 + (sp + 2 * n) % 0x1_0000
  {
    WalkIsMod(sp, -2, n);
    WalkIsMod(sp, 2, n);
  }

  lemma {:induction false} NoRoom(mem: Memory, ss: Word, sp: Word, n: nat, i: nat)
    requires 0 < i <= n && Below(ss, sp, i) !in mem
    ensures !Room(mem, ss, sp, n)
  {
    if i < n {
      NoRoom(mem, ss, sp, n - 1, i);
    }
  }

  /** Word addresses that do not overlap. */
  ghost predicate Spaced(at: seq<nat>) {
    AllDifferent(at) && forall k :: 0 <= k < |at| ==> at[k] % 2 == 0
  }

  /** The memory after storing the words `vs` at the addresses `at`, in order. */
  ghost function StoreAll(mem: Memory, at: seq<nat>, vs: seq<Word>): Memory
    requires |at| == |vs|
    decreases |vs|
  {
    if vs == [] then mem
    else var n := |vs| - 1; StoreWord(StoreAll(mem, at[..n], vs[..n]), at[n], vs[n])
  }

  lemma StoreAllAppend(mem: Memory, at: seq<nat>, vs: seq<Word>, a: nat, v: Word)
    requires |at| == |vs|
    ensures StoreAll(mem, at + [a], vs + [v]) == StoreWord(StoreAll(mem, at, vs), a, v)
  {
    assert (at + [a])[..|vs|] == at && (vs + [v])[..|vs|] == vs;
  }

  lemma {:induction false} StoreAllKeys(mem: Memory, at: seq<nat>, vs: seq<Word>)
    requires |at| == |vs| && Paired(mem) && Mapped(mem, at) && Spaced(at)
    ensures StoreAll(mem, at, vs).Keys == mem.Keys
    decreases |vs|
  {
    if vs != [] {
      StoreAllKeys(mem, at[..|vs| - 1], vs[..|vs| - 1]);
      assert PairAt(mem, at[|vs| - 1]);
    }
  }

  /** Every stored word can be read back. */
  lemma {:induction false} StoreAllAt(mem: Memory, at: seq<nat>, vs: seq<Word>, i: nat)
    requires i < |at| == |vs| && Spaced(at)
    ensures at[i] in StoreAll(mem, at, vs) && at[i] + 1 in StoreAll(mem, at, vs)
    ensures WordAt(StoreAll(mem, at, vs), at[i]) == vs[i]
    decreases |vs|
  {
    var n := |vs| - 1;
    var m := StoreAll(mem, at[..n], vs[..n]);
    if i < n {
      StoreAllAt(mem, at[..n], vs[..n], i);
      StoreElsewhere(m, at[n], vs[n], at[i]);
    } else {
      StoreHere(m, at[n], vs[n]);
    }
  }

  /** The addresses of the first `n` words below SP, in the order they are pushed. */
  function Slots(ss: Word, sp: Word, n: nat): (r: seq<nat>)
    ensures |r| == n
  {
    if n == 0 then [] else Slots(ss, sp, n - 1) + [Below(ss, sp, n)]
  }

  lemma {:induction false} SlotsAt(ss: Word, sp: Word, n: nat, i: nat)
    requires i < n
    ensures Slots(ss, sp, n)[i] == Below(ss, sp, i + 1)
  {
    if i < n - 1 {
      SlotsAt(ss, sp, n - 1, i);
    }
  }

  lemma BelowEven(ss: Word, sp: Word, n: nat)
    requires sp % 2 == 0
    ensures Below(ss, sp, n) % 2 == 0
  {
    WalkEven(sp, -2, n);
    assert ss * 16 == 2 * (ss * 8);
  }

  /** A stack of up to 32768 words wraps in its segment without overlapping. */
  lemma SlotsSpaced(ss: Word, sp: Word, n: nat)
    requires sp % 2 == 0 && n <= 0x8000
    ensures Spaced(Slots(ss, sp, n))
  {
    var at := Slots(ss, sp, n);
    forall k | 0 <= k < n
      ensures at[k] % 2 == 0
    {
      SlotsAt(ss, sp, n, k);
      BelowEven(ss, sp, k + 1);
    }
    forall j, k | 0 <= j < k < n
      ensures at[j] != at[k]
    {
      SlotsAt(ss, sp, n, j);
      SlotsAt(ss, sp, n, k);
      WalkDistinct(sp, -2, j + 1, k + 1);
    }
  }

  /** The memory after pushing the words `vs`, the first one first. */
  ghost function Pushed(mem: Memory, ss: Word, sp: Word, vs: seq<Word>): Memory {
    StoreAll(mem, Slots(ss, sp, |vs|), vs)
  }

  lemma {:induction false} RoomIsMapped(mem: Memory, ss: Word, sp: Word, n: nat)
    requires Room(mem, ss, sp, n)
    ensures Mapped(mem, Slots(ss, sp, n))
  {
    if n > 0 {
      RoomIsMapped(mem, ss, sp, n - 1);
    }
  }

  /** Up to 32768 pushed words can all be read back. */
  lemma PushedAt(mem: Memory, ss: Word, sp: Word, vs: seq<Word>, i: nat, b: nat)
    requires sp % 2 == 0 && i < |vs| <= 0x8000 && b == Below(ss, sp, i + 1)
    ensures b in Pushed(mem, ss, sp, vs) && b + 1 in Pushed(mem, ss, sp, vs)
    ensures WordAt(Pushed(mem, ss, sp, vs), b) == vs[i]
  {
    SlotsSpaced(ss, sp, |vs|);
    StoreAllAt(mem, Slots(ss, sp, |vs|), vs, i);
    SlotsAt(ss, sp, |vs|, i);
  }

  /** The words `vs` were pushed one after the other since SP was `base` and the memory was `start`. */
  ghost predicate StackState(start: Memory, ss: Word, base: Word, vs: seq<Word>, mem: Memory, sp: Word) {
    Room(start, ss, base, |vs|) && mem == Pushed(start, ss, base, vs) && sp == Walk(base, -2, |vs|)
  }

  /** Where there is room, pushing maps nothing new. */
  lemma StackKeys(start: Memory, ss: Word, base: Word, vs: seq<Word>, mem: Memory, sp: Word)
    requires StackState(start, ss, base, vs, mem, sp) && Paired(start) && base % 2 == 0 && |vs| <= 0x8000
    ensures mem.Keys == start.Keys && Paired(mem)
  {
    RoomIsMapped(start, ss, base, |vs|);
    SlotsSpaced(ss, base, |vs|);
    StoreAllKeys(start, Slots(ss, base, |vs|), vs);
    SamePairs(start, mem);
  }

  lemma SamePairs(start: Memory, mem: Memory)
    requires Paired(start) && mem.Keys == start.Keys
    ensures Paired(mem)
  {
    forall a: nat | a % 2 == 0 ensures PairAt(mem, a) {
      assert PairAt(start, a);
    }
  }

  lemma PushOne(start: Memory, ss: Word, base: Word, vs: seq<Word>, mem: Memory, sp: Word, v: Word)
    requires StackState(start, ss, base, vs, mem, sp) && Below(ss, base, |vs| + 1) in start
    ensures StackState(start, ss, base, vs + [v], StoreWord(mem, Below(ss, base, |vs| + 1), v), Step(sp, -2))
  {
    StoreAllAppend(start, Slots(ss, base, |vs|), vs, Below(ss, base, |vs| + 1), v);
  }

  /** Reading the stack gives back what was pushed, last word first. */
  lemma StackHolds(start: Memory, ss: Word, base: Word, vs: seq<Word>, mem: Memory, sp: Word, k: nat)
    requires StackState(start, ss, base, vs, mem, sp) && base % 2 == 0 && k < |vs| <= 0x8000
    ensures Above(ss, sp, k) in mem && Peek(mem, ss, sp, k) == vs[|vs| - 1 - k]
  {
    WalkBack(base, -2, |vs|, k);
    PushedAt(start, ss, base, vs, |vs| - 1 - k, Above(ss, sp, k));
  }

  /** The words POPA reads, all but the saved SP, are mapped. */
  ghost predicate PopaSlots(mem: Memory, ss: Word, sp: Word) {
    && Above(ss, sp, 0) in mem && Above(ss, sp, 1) in mem && Above(ss, sp, 2) in mem
    && Above(ss, sp, 4) in mem && Above(ss, sp, 5) in mem && Above(ss, sp, 6) in mem && Above(ss, sp, 7) in mem
  }

  /** What POPA finds after PUSHA has pushed the eight words `vs`. */
  lemma PushaHolds(start: Memory, ss: Word, base: Word, vs: seq<Word>, mem: Memory, sp: Word)
    requires StackState(start, ss, base, vs, mem, sp) && base % 2 == 0 && |vs| == 8
    ensures PopaSlots(mem, ss, sp)
    ensures Peek(mem, ss, sp, 0) == vs[7] && Peek(mem, ss, sp, 1) == vs[6] && Peek(mem, ss, sp, 2) == vs[5]
    ensures Peek(mem, ss, sp, 4) == vs[3] && Peek(mem, ss, sp, 5) == vs[2] && Peek(mem, ss, sp, 6) == vs[1]
    ensures Peek(mem, ss, sp, 7) == vs[0]
  {
    StackHolds(start, ss, base, vs, mem, sp, 0);
    StackHolds(start, ss, base, vs, mem, sp, 1);
    StackHolds(start, ss, base, vs, mem, sp, 2);
    StackHolds(start, ss, base, vs, mem, sp, 4);
    StackHolds(start, ss, base, vs, mem, sp, 5);
    StackHolds(start, ss, base, vs, mem, sp, 6);
    StackHolds(start, ss, base, vs, mem, sp, 7);
  }

  /** What IRET finds after an interrupt has pushed three words. */
  lemma InterruptHolds(start: Memory, ss: Word, base: Word, vs: seq<Word>, mem: Memory, sp: Word)
    requires StackState(start, ss, base, vs, mem, sp) && Paired(start) && base % 2 == 0 && |vs| == 3
    ensures Paired(mem) && sp % 2 == 0 && Walk(sp, 2, 3) == base
    ensures Above(ss, sp, 0) in mem && Above(ss, sp, 1) in mem && Above(ss, sp, 2) in mem
    ensures Peek(mem, ss, sp, 0) == vs[2] && Peek(mem, ss, sp, 1) == vs[1] && Peek(mem, ss, sp, 2) == vs[0]
  {
    StackKeys(start, ss, base, vs, mem, sp);
    StackHolds(start, ss, base, vs, mem, sp, 0);
    StackHolds(start, ss, base, vs, mem, sp, 1);
    StackHolds(start, ss, base, vs, mem, sp, 2);
    WalkEven(base, -2, 3);
    WalkBack(base, -2, 3, 3);
  }

  lemma OneBelow(ss: Word, base: Word)
    requires base % 2 == 0
    ensures Walk(base, -2, 1) == Step(base, -2) && Step(base, -2) % 2 == 0 && Step(Step(base, -2), 2) == base
    ensures Above(ss, Step(base, -2), 0) == Below(ss, base, 1)
  {
  }

  /** What LEAVE finds at the frame pointer: the first word that ENTER pushed. */
  lemma FrameHolds(start: Memory, ss: Word, base: Word, vs: seq<Word>, mem: Memory, a: nat)
    requires mem == Pushed(start, ss, base, vs) && base % 2 == 0 && 0 < |vs| < 0x8000 && a == Below(ss, base, 1)
    ensures a in mem && a + 1 in mem && WordAt(mem, a) == vs[0]
  {
    PushedAt(start, ss, base, vs, 0, a);
  }

  /** The same from the frame pointer that ENTER leaves. */
  lemma EnteredHolds(start: Memory, ss: Word, base: Word, vs: seq<Word>, mem: Memory, bp: Word)
    requires mem == Pushed(start, ss, base, vs) && base % 2 == 0 && 0 < |vs| < 0x8000 && bp == Step(base, -2)
    ensures Above(ss, bp, 0) in mem && Above(ss, bp, 0) + 1 in mem && Peek(mem, ss, bp, 0) == vs[0]
  {
    OneBelow(ss, base);
    FrameHolds(start, ss, base, vs, mem, Below(ss, base, 1));
  }

  /** The `n` words below a frame pointer, where they are there at all, are there whole. */
  ghost predicate WholeBelow(mem: Memory, ss: Word, bp: Word, n: nat) {
    n == 0 || (WholeBelow(mem, ss, bp, n - 1) && Whole(mem, Below(ss, bp, n)))
  }

  lemma {:induction false} WholeAt(mem: Memory, ss: Word, bp: Word, n: nat, i: nat)
    requires 0 < i <= n && WholeBelow(mem, ss, bp, n)
    ensures Whole(mem, Below(ss, bp, i))
  {
    if i < n {
      WholeAt(mem, ss, bp, n - 1, i);
    }
  }

  /** Below an even frame pointer all words are whole. */
  lemma {:induction false} EvenIsWhole(mem: Memory, ss: Word, bp: Word, n: nat)
    requires Paired(mem) && bp % 2 == 0
    ensures WholeBelow(mem, ss, bp, n)
  {
    if n > 0 {
      EvenIsWhole(mem, ss, bp, n - 1);
      BelowEven(ss, bp, n);
      assert PairAt(mem, Below(ss, bp, n));
    }
  }

  /** With room for a whole copy there is room for each of its words, where it is read and where it is written. */
  lemma CopyRoom(mem: Memory, ss: Word, base: Word, frame: Word, level: nat, i: nat)
    requires 1 <= i < level && Room(mem, ss, base, level) && Room(mem, ss, frame, level - 1)
    ensures Below(ss, frame, i) in mem && Below(ss, base, i + 1) in mem
  {
    if Below(ss, frame, i) !in mem {
      NoRoom(mem, ss, frame, level - 1, i);
    }
    if Below(ss, base, i + 1) !in mem {
      NoRoom(mem, ss, base, level, i + 1);
    }
  }

  /** Each word but the first is the one found that many words below `bp`, where it is mapped, when it was pushed. */
  ghost predicate Display(start: Memory, ss: Word, base: Word, bp: Word, vs: seq<Word>)
    decreases |vs|
  {
    var n := |vs| - 1;
    n <= 0
    || (Display(start, ss, base, bp, vs[..n]) && Below(ss, bp, n) in start
        && vs[n] == Peek(Pushed(start, ss, base, vs[..n]), ss, Walk(bp, -2, n), 0))
  }

  lemma {:induction false} DisplayRoom(start: Memory, ss: Word, base: Word, bp: Word, vs: seq<Word>)
    requires vs != [] && Display(start, ss, base, bp, vs)
    ensures Room(start, ss, bp, |vs| - 1)
    decreases |vs|
  {
    if |vs| > 1 {
      DisplayRoom(start, ss, base, bp, vs[..|vs| - 1]);
    }
  }

  lemma DisplayGrows(start: Memory, ss: Word, base: Word, bp: Word, vs: seq<Word>, mem: Memory, v: Word)
    requires vs != [] && Display(start, ss, base, bp, vs) && mem == Pushed(start, ss, base, vs)
    requires v == Peek(mem, ss, Walk(bp, -2, |vs|), 0) && Below(ss, bp, |vs|) in start
    ensures Display(start, ss, base, bp, vs + [v])
  {
    assert (vs + [v])[..|vs|] == vs;
  }
}
