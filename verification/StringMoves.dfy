/**
 What the repeated string instructions of extra/ops_string.c do to memory and what they compare,
 as values.
 */
module StringMoves {
  import opened Common
  import opened RealModeMemory

  /** One byte moved from address `x` to address `y`. */
  function MoveByte(mem: Memory, x: nat, y: nat): Memory {
    if x in mem then mem[y := mem[x]] else mem
  }

  /** The memory after moving one byte per turn from the addresses `src` to the addresses `dest`. */
  ghost function Moved(mem: Memory, src: seq<nat>, dest: seq<nat>): Memory
    requires |src| == |dest|
    decreases |src|
  {
    if src == [] then mem
    else var n := |src| - 1; MoveByte(Moved(mem, src[..n], dest[..n]), src[n], dest[n])
  }

  lemma MovedAppend(mem: Memory, src: seq<nat>, dest: seq<nat>, x: nat, y: nat)
    requires |src| == |dest|
    ensures Moved(mem, src + [x], dest + [y]) == MoveByte(Moved(mem, src, dest), x, y)
  {
    assert (src + [x])[..|src|] == src && (dest + [y])[..|src|] == dest;
  }

  /** A move in two parts, the second starting where the first stopped. */
  lemma {:induction false} MovedSplits(mem: Memory, s1: seq<nat>, d1: seq<nat>, s2: seq<nat>, d2: seq<nat>)
    requires |s1| == |d1| && |s2| == |d2|
    ensures Moved(mem, s1 + s2, d1 + d2) == Moved(Moved(mem, s1, d1), s2, d2)
    decreases |s2|
  {
    if s2 == [] {
      assert s1 + s2 == s1 && d1 + d2 == d1;
    } else {
      var n := |s2| - 1;
      MovedSplits(mem, s1, d1, s2[..n], d2[..n]);
      MovedAppend(mem, s1 + s2[..n], d1 + d2[..n], s2[n], d2[n]);
      assert s1 + s2 == s1 + s2[..n] + [s2[n]] && d1 + d2 == d1 + d2[..n] + [d2[n]];
    }
  }

  /** No byte is overwritten before it is read; disjoint ranges are such a case. */
  ghost predicate NoHazard(src: seq<nat>, dest: seq<nat>) {
    forall j, k :: 0 <= j < k < |src| && j < |dest| ==> dest[j] != src[k]
  }

  lemma {:induction false} MovedElsewhere(mem: Memory, src: seq<nat>, dest: seq<nat>, x: nat)
    requires |src| == |dest| && x in mem && x !in dest
    ensures x in Moved(mem, src, dest) && Moved(mem, src, dest)[x] == mem[x]
    decreases |src|
  {
    if src != [] {
      MovedElsewhere(mem, src[..|src| - 1], dest[..|src| - 1], x);
    }
  }

  /** Without a hazard every destination byte gets the original source byte. */
  lemma {:induction false} MovedCopies(mem: Memory, src: seq<nat>, dest: seq<nat>, k: nat)
    requires k < |src| == |dest| && Mapped(mem, src) && NoHazard(src, dest) && AllDifferent(dest)
    ensures dest[k] in Moved(mem, src, dest) && Moved(mem, src, dest)[dest[k]] == mem[src[k]]
    decreases |src|
  {
    var n := |src| - 1;
    if k == n {
      assert src[n] !in dest[..n];
      MovedElsewhere(mem, src[..n], dest[..n], src[n]);
    } else {
      MovedCopies(mem, src[..n], dest[..n], k);
    }
  }

  /** The pointers of a string instruction and its direction flag. */
  datatype Strings = Strings(srcSeg: Word, si: Word, destSeg: Word, di: Word, down: bool) {

    function By(): int {
      if down then -1 else 1
    }

    function Src(k: nat): nat {
      Linear(srcSeg, Walk(si, By(), k))
    }

    function Dest(k: nat): nat {
      Linear(destSeg, Walk(di, By(), k))
    }

    /** The pointers after `k` turns. */
    function After(k: nat): Strings {
      this.(si := Walk(si, By(), k), di := Walk(di, By(), k))
    }

    /** The addresses read and written in the first `n` turns. */
    function SrcRange(n: nat): (r: seq<nat>)
      ensures |r| == n
    {
      if n == 0 then [] else SrcRange(n - 1) + [Src(n - 1)]
    }

    function DestRange(n: nat): (r: seq<nat>)
      ensures |r| == n
    {
      if n == 0 then [] else DestRange(n - 1) + [Dest(n - 1)]
    }
  }

  lemma {:induction false} RangeAt(t: Strings, n: nat, k: nat)
    requires k < n
    ensures t.SrcRange(n)[k] == t.Src(k) && t.DestRange(n)[k] == t.Dest(k)
  {
    if k < n - 1 {
      RangeAt(t, n - 1, k);
    }
  }

  lemma AfterAdds(t: Strings, a: nat, b: nat)
    ensures t.After(a).Src(b) == t.Src(a + b) && t.After(a).Dest(b) == t.Dest(a + b)
    ensures t.After(a).After(b) == t.After(a + b)
  {
    WalkAdds(t.si, t.By(), a, b);
    WalkAdds(t.di, t.By(), a, b);
  }

  /** The first `n` turns touch mapped memory only. */
  ghost predicate Turnable(mem: Memory, t: Strings, n: nat) {
    n == 0 || (Turnable(mem, t, n - 1) && t.Src(n - 1) in mem && t.Dest(n - 1) in mem)
  }

  /** The memory after `n` turns of MOVSB. */
  ghost function MovedBy(mem: Memory, t: Strings, n: nat): Memory {
    if n == 0 then mem else MoveByte(MovedBy(mem, t, n - 1), t.Src(n - 1), t.Dest(n - 1))
  }

  ghost predicate MoveState(mem: Memory, t: Strings, n: nat, m: Memory) {
    Turnable(mem, t, n) && m == MovedBy(mem, t, n) && m.Keys == mem.Keys
  }

  lemma {:induction false} MovedByRanges(mem: Memory, t: Strings, n: nat)
    ensures MovedBy(mem, t, n) == Moved(mem, t.SrcRange(n), t.DestRange(n))
  {
    if n > 0 {
      MovedByRanges(mem, t, n - 1);
      MovedAppend(mem, t.SrcRange(n - 1), t.DestRange(n - 1), t.Src(n - 1), t.Dest(n - 1));
    }
  }

  lemma {:induction false} TurnableRanges(mem: Memory, t: Strings, n: nat)
    requires Turnable(mem, t, n)
    ensures Mapped(mem, t.SrcRange(n)) && Mapped(mem, t.DestRange(n))
  {
    if n > 0 {
      TurnableRanges(mem, t, n - 1);
    }
  }

  lemma {:induction false} TurnableAt(mem: Memory, t: Strings, n: nat, k: nat)
    requires Turnable(mem, t, n) && k < n
    ensures t.Src(k) in mem && t.Dest(k) in mem
  {
    if k < n - 1 {
      TurnableAt(mem, t, n - 1, k);
    }
  }

  lemma {:induction false} TurnableSplits(mem: Memory, m: Memory, t: Strings, a: nat, b: nat)
    requires Turnable(mem, t, a + b) && m.Keys == mem.Keys
    ensures Turnable(mem, t, a) && Turnable(m, t.After(a), b)
    decreases b
  {
    if b > 0 {
      TurnableSplits(mem, m, t, a, b - 1);
      AfterAdds(t, a, b - 1);
    }
  }

  lemma {:induction false} SrcSplits(t: Strings, a: nat, b: nat, u: Strings)
    requires u == t.After(a)
    ensures t.SrcRange(a + b) == t.SrcRange(a) + u.SrcRange(b)
    decreases b
  {
    if b > 0 {
      SrcSplits(t, a, b - 1, u);
      AfterAdds(t, a, b - 1);
      assert t.SrcRange(a + b) == t.SrcRange(a + (b - 1)) + [t.Src(a + (b - 1))];
    }
  }

  lemma {:induction false} DestSplits(t: Strings, a: nat, b: nat, u: Strings)
    requires u == t.After(a)
    ensures t.DestRange(a + b) == t.DestRange(a) + u.DestRange(b)
    decreases b
  {
    if b > 0 {
      DestSplits(t, a, b - 1, u);
      AfterAdds(t, a, b - 1);
      assert t.DestRange(a + b) == t.DestRange(a + (b - 1)) + [t.Dest(a + (b - 1))];
    }
  }

  /** REP MOVSB of a + b bytes is REP MOVSB of a bytes followed by REP MOVSB of b bytes. */
  lemma RepMovsSplits(mem: Memory, t: Strings, a: nat, b: nat, u: Strings)
    requires u == t.After(a)
    ensures MovedBy(mem, t, a + b) == MovedBy(MovedBy(mem, t, a), u, b)
  {
    SrcSplits(t, a, b, u);
    DestSplits(t, a, b, u);
    MovedByRanges(mem, t, a + b);
    MovedByRanges(mem, t, a);
    MovedByRanges(MovedBy(mem, t, a), u, b);
    MovedSplits(mem, t.SrcRange(a), t.DestRange(a), u.SrcRange(b), u.DestRange(b));
  }

  /** Within one segment's length no destination byte is written twice. */
  lemma DestAllDifferent(t: Strings, n: nat)
    requires n <= 0x1_0000
    ensures AllDifferent(t.DestRange(n))
  {
    forall j, k | 0 <= j < k < n
      ensures t.DestRange(n)[j] != t.DestRange(n)[k]
    {
      WalkDistinct(t.di, t.By(), j, k);
      RangeAt(t, n, j);
      RangeAt(t, n, k);
    }
  }

  /** REP MOVSB copies exactly, in either direction, whenever it overwrites no byte it has still to read. */
  lemma RepMovsCopies(mem: Memory, t: Strings, n: nat, m: Memory)
    requires n <= 0x1_0000 && MoveState(mem, t, n, m) && NoHazard(t.SrcRange(n), t.DestRange(n))
    ensures forall k: nat :: k < n ==> t.Dest(k) in m && t.Src(k) in mem && m[t.Dest(k)] == mem[t.Src(k)]
    ensures forall x :: x in mem && x !in t.DestRange(n) ==> x in m && m[x] == mem[x]
  {
    var (src, dest) := (t.SrcRange(n), t.DestRange(n));
    MovedByRanges(mem, t, n);
    TurnableRanges(mem, t, n);
    DestAllDifferent(t, n);
    forall k: nat | k < n
      ensures t.Dest(k) in m && t.Src(k) in mem && m[t.Dest(k)] == mem[t.Src(k)]
    {
      MovedCopies(mem, src, dest, k);
      RangeAt(t, n, k);
    }
    forall x | x in mem && x !in dest
      ensures x in m && m[x] == mem[x]
    {
      MovedElsewhere(mem, src, dest, x);
    }
  }

  /** The outcomes of the first `n` comparisons of SCASB with the byte `al`: true for equal. */
  ghost function Scanned(mem: Memory, t: Strings, al: Byte, n: nat): (r: seq<bool>)
    ensures |r| == n
  {
    if n == 0 then []
    else Scanned(mem, t, al, n - 1) + [t.Dest(n - 1) in mem && mem[t.Dest(n - 1)] == al]
  }

  /** The outcomes of the first `n` comparisons of CMPSB. */
  ghost function Compared(mem: Memory, t: Strings, n: nat): (r: seq<bool>)
    ensures |r| == n
  {
    if n == 0 then []
    else Compared(mem, t, n - 1)
         + [t.Src(n - 1) in mem && t.Dest(n - 1) in mem && mem[t.Src(n - 1)] == mem[t.Dest(n - 1)]]
  }

  lemma {:induction false} ScannedAt(mem: Memory, t: Strings, al: Byte, n: nat, k: nat)
    requires k < n
    ensures Scanned(mem, t, al, n)[k] <==> t.Dest(k) in mem && mem[t.Dest(k)] == al
  {
    if k < n - 1 {
      ScannedAt(mem, t, al, n - 1, k);
    }
  }

  lemma {:induction false} ComparedAt(mem: Memory, t: Strings, n: nat, k: nat)
    requires k < n
    ensures Compared(mem, t, n)[k] <==> t.Src(k) in mem && t.Dest(k) in mem && mem[t.Src(k)] == mem[t.Dest(k)]
  {
    if k < n - 1 {
      ComparedAt(mem, t, n - 1, k);
    }
  }

  /**
   How a repeated comparison ends when `n` turns were allowed and `r` are the outcomes it saw: it
   stopped at the first outcome equal to `nz`, or saw `n` others.  ZF is the last outcome.
   */
  ghost predicate Stopped(r: seq<bool>, n: nat, nz: bool, zf: bool) {
    && (forall j :: 0 <= j < |r| - 1 ==> r[j] != nz)
    && |r| <= n && (0 < n ==> 0 < |r|)
    && (0 < |r| ==> r[|r| - 1] == zf)
    && (|r| < n ==> zf == nz)
  }

  /** The address of an offset moved by `d`, in sixteen bits. */
  function Place(segment: Word, ofs: Word, d: int): nat {
    segment * 16 + (ofs + d) % 0x1_0000
  }

  /** With the direction flag clear the pointers go up, and with it set they go down. */
  lemma PlacesUp(t: Strings, k: nat)
    requires !t.down
    ensures t.Src(k) == Place(t.srcSeg, t.si, k) && t.Dest(k) == Place(t.destSeg, t.di, k)
    ensures t.After(k).si == (t.si + k) % 0x1_0000 && t.After(k).di == (t.di + k) % 0x1_0000
  {
    WalkIsMod(t.si, 1, k);
    WalkIsMod(t.di, 1, k);
  }

  lemma PlacesDown(t: Strings, k: nat)
    requires t.down
    ensures t.Src(k) == Place(t.srcSeg, t.si, 0 - k) && t.Dest(k) == Place(t.destSeg, t.di, 0 - k)
    ensures t.After(k).si == (t.si - k) % 0x1_0000 && t.After(k).di == (t.di - k) % 0x1_0000
  {
    WalkIsMod(t.si, -1, k);
    WalkIsMod(t.di, -1, k);
  }

  /** Going up, no byte is overwritten before it is read. */
  ghost predicate FreeUp(srcSeg: Word, si: Word, destSeg: Word, di: Word, n: nat) {
    forall j, k :: 0 <= j < k < n ==> Place(destSeg, di, j) != Place(srcSeg, si, k)
  }

  /** Going down. */
  ghost predicate FreeDown(srcSeg: Word, si: Word, destSeg: Word, di: Word, n: nat) {
    forall j, k :: 0 - n < k < j <= 0 ==> Place(destSeg, di, j) != Place(srcSeg, si, k)
  }

  /** From `low` to `high` every byte was copied from its place in the source, and no other byte has changed. */
  ghost predicate BytesCopied(start: Memory, mem: Memory, srcSeg: Word, si: Word, destSeg: Word, di: Word,
                              low: int, high: int) {
    && (forall d :: low <= d <= high ==>
          && Place(destSeg, di, d) in mem && Place(srcSeg, si, d) in start
          && mem[Place(destSeg, di, d)] == start[Place(srcSeg, si, d)])
    && (forall x :: x in start && (forall d :: low <= d <= high ==> Place(destSeg, di, d) != x) ==>
          x in mem && mem[x] == start[x])
  }

  lemma CopiedUp(mem: Memory, t: Strings, n: nat, m: Memory)
    requires !t.down && n <= 0x1_0000 && MoveState(mem, t, n, m) && FreeUp(t.srcSeg, t.si, t.destSeg, t.di, n)
    ensures BytesCopied(mem, m, t.srcSeg, t.si, t.destSeg, t.di, 0, n - 1)
  {
    forall k: nat | k < n
      ensures t.SrcRange(n)[k] == t.Src(k) == Place(t.srcSeg, t.si, k)
      ensures t.DestRange(n)[k] == t.Dest(k) == Place(t.destSeg, t.di, k)
    {
      RangeAt(t, n, k);
      PlacesUp(t, k);
    }
    RepMovsCopies(mem, t, n, m);
    forall d | 0 <= d <= n - 1
      ensures Place(t.destSeg, t.di, d) in m && Place(t.srcSeg, t.si, d) in mem
      ensures m[Place(t.destSeg, t.di, d)] == mem[Place(t.srcSeg, t.si, d)]
    {
      assert t.Dest(d) in m;
    }
    forall x | x in mem && forall d :: 0 <= d <= n - 1 ==> Place(t.destSeg, t.di, d) != x
      ensures x !in t.DestRange(n)
    {
    }
  }

  lemma CopiedDown(mem: Memory, t: Strings, n: nat, m: Memory)
    requires t.down && n <= 0x1_0000 && MoveState(mem, t, n, m) && FreeDown(t.srcSeg, t.si, t.destSeg, t.di, n)
    ensures BytesCopied(mem, m, t.srcSeg, t.si, t.destSeg, t.di, 1 - n, 0)
  {
    forall k: nat | k < n
      ensures t.SrcRange(n)[k] == t.Src(k) == Place(t.srcSeg, t.si, 0 - k)
      ensures t.DestRange(n)[k] == t.Dest(k) == Place(t.destSeg, t.di, 0 - k)
    {
      RangeAt(t, n, k);
      PlacesDown(t, k);
    }
    RepMovsCopies(mem, t, n, m);
    forall d | 1 - n <= d <= 0
      ensures Place(t.destSeg, t.di, d) in m && Place(t.srcSeg, t.si, d) in mem
      ensures m[Place(t.destSeg, t.di, d)] == mem[Place(t.srcSeg, t.si, d)]
    {
      assert t.Dest(0 - d) in m;
    }
    forall x | x in mem && forall d :: 1 - n <= d <= 0 ==> Place(t.destSeg, t.di, d) != x
      ensures x !in t.DestRange(n)
    {
    }
  }

  /** The byte `d` away from an offset is there and equals `al`. */
  ghost predicate Matches(mem: Memory, segment: Word, ofs: Word, d: int, al: Byte) {
    Place(segment, ofs, d) in mem && mem[Place(segment, ofs, d)] == al
  }

  /** The two bytes `d` away from two offsets are there and equal. */
  ghost predicate Equal(mem: Memory, srcSeg: Word, si: Word, destSeg: Word, di: Word, d: int) {
    Place(srcSeg, si, d) in mem && Matches(mem, destSeg, di, d, mem[Place(srcSeg, si, d)])
  }

  lemma ScannedUp(mem: Memory, t: Strings, al: Byte, n: nat)
    requires !t.down
    ensures forall d :: 0 <= d < n ==> (Scanned(mem, t, al, n)[d] <==> Matches(mem, t.destSeg, t.di, d, al))
  {
    forall d | 0 <= d < n ensures Scanned(mem, t, al, n)[d] <==> Matches(mem, t.destSeg, t.di, d, al) {
      ScannedAt(mem, t, al, n, d);
      PlacesUp(t, d);
    }
  }

  lemma ScannedDown(mem: Memory, t: Strings, al: Byte, n: nat)
    requires t.down
    ensures forall d :: 0 - n < d <= 0 ==> (Scanned(mem, t, al, n)[0 - d] <==> Matches(mem, t.destSeg, t.di, d, al))
  {
    forall d | 0 - n < d <= 0 ensures Scanned(mem, t, al, n)[0 - d] <==> Matches(mem, t.destSeg, t.di, d, al) {
      ScannedAt(mem, t, al, n, 0 - d);
      PlacesDown(t, 0 - d);
    }
  }

  lemma ComparedUp(mem: Memory, t: Strings, n: nat)
    requires !t.down
    ensures forall d :: 0 <= d < n ==>
              (Compared(mem, t, n)[d] <==> Equal(mem, t.srcSeg, t.si, t.destSeg, t.di, d))
  {
    forall d | 0 <= d < n ensures Compared(mem, t, n)[d] <==> Equal(mem, t.srcSeg, t.si, t.destSeg, t.di, d) {
      ComparedAt(mem, t, n, d);
      PlacesUp(t, d);
    }
  }

  lemma ComparedDown(mem: Memory, t: Strings, n: nat)
    requires t.down
    ensures forall d :: 0 - n < d <= 0 ==>
              (Compared(mem, t, n)[0 - d] <==> Equal(mem, t.srcSeg, t.si, t.destSeg, t.di, d))
  {
    forall d | 0 - n < d <= 0 ensures Compared(mem, t, n)[0 - d] <==> Equal(mem, t.srcSeg, t.si, t.destSeg, t.di, d) {
      ComparedAt(mem, t, n, 0 - d);
      PlacesDown(t, 0 - d);
    }
  }

  /** How a repeated scan upwards ended after `k` of `n` turns, in memory alone. */
  ghost predicate ScanEndedUp(mem: Memory, segment: Word, ofs: Word, al: Byte, k: nat, n: nat, nz: bool, zf: bool) {
    && 0 < k <= n && (k < n ==> zf == nz)
    && (forall d :: 0 <= d < k - 1 ==> Matches(mem, segment, ofs, d, al) != nz)
    && Matches(mem, segment, ofs, k - 1, al) == zf
  }

  ghost predicate ScanEndedDown(mem: Memory, segment: Word, ofs: Word, al: Byte, k: nat, n: nat, nz: bool, zf: bool) {
    && 0 < k <= n && (k < n ==> zf == nz)
    && (forall d :: 1 - k < d <= 0 ==> Matches(mem, segment, ofs, d, al) != nz)
    && Matches(mem, segment, ofs, 1 - k, al) == zf
  }

  /** The same for a comparison. */
  ghost predicate CompareEndedUp(mem: Memory, srcSeg: Word, si: Word, destSeg: Word, di: Word, k: nat, n: nat,
                                 nz: bool, zf: bool) {
    && 0 < k <= n && (k < n ==> zf == nz)
    && (forall d :: 0 <= d < k - 1 ==> Equal(mem, srcSeg, si, destSeg, di, d) != nz)
    && Equal(mem, srcSeg, si, destSeg, di, k - 1) == zf
  }

  ghost predicate CompareEndedDown(mem: Memory, srcSeg: Word, si: Word, destSeg: Word, di: Word, k: nat, n: nat,
                                   nz: bool, zf: bool) {
    && 0 < k <= n && (k < n ==> zf == nz)
    && (forall d :: 1 - k < d <= 0 ==> Equal(mem, srcSeg, si, destSeg, di, d) != nz)
    && Equal(mem, srcSeg, si, destSeg, di, 1 - k) == zf
  }

  lemma ScanEnds(mem: Memory, t: Strings, al: Byte, k: nat, n: nat, nz: bool, zf: bool)
    requires n > 0 && Stopped(Scanned(mem, t, al, k), n, nz, zf)
    ensures !t.down ==> ScanEndedUp(mem, t.destSeg, t.di, al, k, n, nz, zf)
    ensures t.down ==> ScanEndedDown(mem, t.destSeg, t.di, al, k, n, nz, zf)
  {
    var r := Scanned(mem, t, al, k);
    if t.down {
      ScannedDown(mem, t, al, k);
      assert r[0 - (1 - k)] == zf;
      forall d | 1 - k < d <= 0 ensures Matches(mem, t.destSeg, t.di, d, al) != nz {
        assert r[0 - d] != nz;
      }
    } else {
      ScannedUp(mem, t, al, k);
    }
  }

  lemma CompareEnds(mem: Memory, t: Strings, k: nat, n: nat, nz: bool, zf: bool)
    requires n > 0 && Stopped(Compared(mem, t, k), n, nz, zf)
    ensures !t.down ==> CompareEndedUp(mem, t.srcSeg, t.si, t.destSeg, t.di, k, n, nz, zf)
    ensures t.down ==> CompareEndedDown(mem, t.srcSeg, t.si, t.destSeg, t.di, k, n, nz, zf)
  {
    var r := Compared(mem, t, k);
    if t.down {
      ComparedDown(mem, t, k);
      assert r[0 - (1 - k)] == zf;
      forall d | 1 - k < d <= 0 ensures Equal(mem, t.srcSeg, t.si, t.destSeg, t.di, d) != nz {
        assert r[0 - d] != nz;
      }
    } else {
      ComparedUp(mem, t, k);
    }
  }
}
