/**
 The machine state of the real-mode emulator and the instructions whose effect spans many memory
 accesses: the repeated string operations (extra/ops_string.c), and the stack and call primitives
 (extra/ops_stack.c, extra/ops_call.c).
 */
module RealMode {
  import opened Alu
  import opened Common
  import opened RealModeMemory
  import opened StringMoves
  import opened StackWords
  import RotateCarry

  /**
   BadMem is the answer of the test for a missing block in RME_Int_GetPtr. Without the test such an access goes
   through a null pointer: NullAccess stands for it, and the state is then the one before the access.
   */
  datatype Error = Ok | BadMem | NullAccess | UndefOpcode

  /** The bits of FLAGS that are not status flags; those without a name are numbered. */
  datatype Control = Control(tf: bool, ifl: bool, df: bool,
                             b1: bool, b3: bool, b5: bool, b12: bool, b13: bool, b14: bool, b15: bool)

  function FlagBits(f: Flags, c: Control): seq<bool> {
    [c.b15, c.b14, c.b13, c.b12, f.of, c.df, c.ifl, c.tf, f.sf, f.zf, c.b5, f.af, c.b3, f.pf, c.b1, f.cf]
  }

  /** The sixteen-bit image of FLAGS that PUSHF and INT store. */
  function Pack(f: Flags, c: Control): Word {
    RotateCarry.NumberFront(false, FlagBits(f, c));
    RotateCarry.PowWidth(16);
    RotateCarry.Number(FlagBits(f, c))
  }

  function UnpackStatus(w: Word): Flags {
    var s := RotateCarry.Bits(w, 16);
    Flags(s[15], s[13], s[11], s[9], s[8], s[4])
  }

  function UnpackControl(w: Word): Control {
    var s := RotateCarry.Bits(w, 16);
    Control(s[7], s[6], s[5], s[14], s[12], s[10], s[3], s[2], s[1], s[0])
  }

  lemma PackRoundTrip(f: Flags, c: Control)
    ensures UnpackStatus(Pack(f, c)) == f && UnpackControl(Pack(f, c)) == c
  {
    RotateCarry.BitsOfNumber(FlagBits(f, c));
  }

  /** The flag with the mask 2^k. */
  predicate FlagOf(w: Word, k: nat) {
    w / Pow(2, k) % 2 == 1
  }

  lemma PackBit(f: Flags, c: Control, k: nat)
    requires k < 16
    ensures FlagOf(Pack(f, c), k) == FlagBits(f, c)[15 - k]
  {
    RotateCarry.BitsOfNumber(FlagBits(f, c));
    RotateCarry.BitsAt(Pack(f, c), 16, k);
  }

  /** Every flag is the bit with its mask. */
  lemma PackMasks(f: Flags, c: Control, w: Word)
    requires w == Pack(f, c)
    ensures FlagOf(w, 0) == f.cf && FlagOf(w, 2) == f.pf && FlagOf(w, 4) == f.af && FlagOf(w, 6) == f.zf
    ensures FlagOf(w, 7) == f.sf && FlagOf(w, 8) == c.tf && FlagOf(w, 9) == c.ifl && FlagOf(w, 10) == c.df
    ensures FlagOf(w, 11) == f.of
  {
    PackBit(f, c, 0);
    PackBit(f, c, 2);
    PackBit(f, c, 4);
    PackBit(f, c, 6);
    PackBit(f, c, 7);
    PackBit(f, c, 8);
    PackBit(f, c, 9);
    PackBit(f, c, 10);
    PackBit(f, c, 11);
  }

  class Machine {
    var ax: Word
    var cx: Word
    var dx: Word
    var bx: Word
    var sp: Word
    var bp: Word
    var si: Word
    var di: Word
    var ss: Word
    var ds: Word
    var es: Word
    var cs: Word
    var ip: Word
    var status: Flags
    var control: Control
    var mem: Memory

    /** Is the test for a missing block compiled in? */
    const blockTest: bool

    /** How an access to a missing block ends. */
    function Missing(): Error {
      if blockTest then BadMem else NullAccess
    }

    function Al(): Byte
      reads this`ax
    {
      ax % 0x100
    }

    ghost function Pointers(srcSeg: Word): Strings
      reads this
    {
      Strings(srcSeg, si, es, di, control.df)
    }

    /** RME_Int_Read8: the byte at Seg:Ofs, where its block is mapped. */
    method Read8(segment: Word, ofs: Word) returns (err: Error, v: Byte)
      ensures err == if Linear(segment, ofs) in mem then Ok else Missing()
      ensures err == Ok ==> v == mem[Linear(segment, ofs)]
    {
      var addr := Linear(segment, ofs);
      if addr !in mem {
        return Missing(), 0;
      }
      return Ok, mem[addr];
    }

    /** RME_Int_Write8. */
    method Write8(segment: Word, ofs: Word, v: Byte) returns (err: Error)
      modifies this`mem
      ensures err == if Linear(segment, ofs) in old(mem) then Ok else Missing()
      ensures mem == if err == Ok then old(mem)[Linear(segment, ofs) := v] else old(mem)
    {
      var addr := Linear(segment, ofs);
      if addr !in mem {
        return Missing();
      }
      mem := mem[addr := v];
      return Ok;
    }

    /** Turn `n` of a move from the memory `start`: the body of MOVSB and the pointer update. */
    method MoveTurn(srcSeg: Word, srcOfs: Word, destOfs: Word, ghost start: Memory, ghost t: Strings, ghost n: nat)
      returns (err: Error, nextSrc: Word, nextDest: Word)
      requires MoveState(start, t, n, mem)
      requires t.srcSeg == srcSeg && t.destSeg == es && t.down == control.df
      requires srcOfs == t.After(n).si && destOfs == t.After(n).di
      modifies this`mem
      ensures err == if t.Src(n) in start && t.Dest(n) in start then Ok else Missing()
      ensures MoveState(start, t, if err == Ok then n + 1 else n, mem)
      ensures err == Ok ==> nextSrc == t.After(n + 1).si && nextDest == t.After(n + 1).di
    {
      nextSrc, nextDest := srcOfs, destOfs;
      var tmp;
      err, tmp := Read8(srcSeg, srcOfs);
      if err == Ok {
        err := Write8(es, destOfs, tmp);
      }
      if err == Ok {
        nextSrc := Step(srcOfs, if control.df then -1 else 1);
        nextDest := Step(destOfs, if control.df then -1 else 1);
      }
    }

    /** MOVSB without a prefix. */
    method Movsb(srcSeg: Word) returns (err: Error)
      modifies this`si, this`di, this`mem
      ensures var t := old(Pointers(srcSeg));
              && err == (if t.Src(0) in old(mem) && t.Dest(0) in old(mem) then Ok else Missing())
              && MoveState(old(mem), t, if err == Ok then 1 else 0, mem)
              && Pointers(srcSeg) == t.After(if err == Ok then 1 else 0)
    {
      var srcOfs, destOfs;
      err, srcOfs, destOfs := MoveTurn(srcSeg, si, di, mem, Pointers(srcSeg), 0);
      if err == Ok {
        si, di := srcOfs, destOfs;
      }
    }

    /**
     REP MOVSB.  `turns` counts the bytes moved; it is all of them unless one lies in an unmapped
     block, in which case SI and DI are left as they were and CX counts the failed turn.
     */
    method RepMovsb(srcSeg: Word) returns (err: Error, ghost turns: nat)
      modifies this`cx, this`si, this`di, this`mem
      ensures turns <= old(cx) && MoveState(old(mem), old(Pointers(srcSeg)), turns, mem)
      ensures err == Ok ==> turns == old(cx) && cx == 0 && Pointers(srcSeg) == old(Pointers(srcSeg)).After(turns)
      ensures err != Ok ==> err == Missing() && cx == old(cx) - turns - 1 && Pointers(srcSeg) == old(Pointers(srcSeg))
      ensures err != Ok ==> var t := old(Pointers(srcSeg)); t.Src(turns) !in old(mem) || t.Dest(turns) !in old(mem)
    {
      ghost var t, start := Pointers(srcSeg), mem;
      turns := 0;
      var srcOfs, destOfs := si, di;
      while cx != 0
        invariant MoveState(start, t, turns, mem) && cx == old(cx) - turns
        invariant srcOfs == t.After(turns).si && destOfs == t.After(turns).di && si == old(si) && di == old(di)
      {
        cx := cx - 1;
        err, srcOfs, destOfs := MoveTurn(srcSeg, srcOfs, destOfs, start, t, turns);
        if err != Ok {
          return;
        }
        turns := turns + 1;
      }
      si, di := srcOfs, destOfs;
      err := Ok;
    }

    /** REP MOVSB with CX set to `n`, on memory that is there for all its turns. */
    method RepMovsbOf(srcSeg: Word, n: Word) returns (err: Error)
      requires Turnable(mem, Pointers(srcSeg), n)
      modifies this`cx, this`si, this`di, this`mem
      ensures err == Ok && cx == 0 && MoveState(old(mem), old(Pointers(srcSeg)), n, mem)
      ensures Pointers(srcSeg) == old(Pointers(srcSeg)).After(n)
    {
      cx := n;
      ghost var t, start, turns := Pointers(srcSeg), mem, 0;
      err, turns := RepMovsb(srcSeg);
      if turns < n {
        TurnableAt(start, t, n, turns);
      }
    }

    /** REP MOVSB of `a` bytes and then of `b` bytes ends as one REP MOVSB of `a + b` bytes does. */
    method RepMovsbTwice(srcSeg: Word, a: Word, b: Word) returns (err: Error)
      requires a + b < 0x1_0000 && Turnable(mem, Pointers(srcSeg), a + b)
      modifies this`cx, this`si, this`di, this`mem
      ensures err == Ok && cx == 0 && MoveState(old(mem), old(Pointers(srcSeg)), a + b, mem)
      ensures Pointers(srcSeg) == old(Pointers(srcSeg)).After(a + b)
    {
      ghost var t, start := Pointers(srcSeg), mem;
      TurnableSplits(start, start, t, a, b);
      err := RepMovsbOf(srcSeg, a);
      TurnableSplits(start, mem, t, a, b);
      AfterAdds(t, a, b);
      RepMovsSplits(start, t, a, b, t.After(a));
      err := RepMovsbOf(srcSeg, b);
    }

    /** The CMP code of SCASB and CMPSB on two bytes. */
    method CompareFlags(a: Byte, b: Byte)
      modifies this`status
      ensures status.zf <==> a == b
    {
      var v, f := Sub(8, a, b);
      status := f;
    }

    /** Turn `k` of SCASB: the comparison and the pointer update. */
    method ScanTurn(destOfs: Word, ghost t: Strings, ghost k: nat) returns (err: Error, next: Word)
      requires destOfs == t.After(k).di && t.destSeg == es && t.down == control.df
      modifies this`status
      ensures err == if t.Dest(k) in mem then Ok else Missing()
      ensures err == Ok ==> next == t.After(k + 1).di
      ensures err == Ok ==> Scanned(mem, t, Al(), k + 1) == Scanned(mem, t, Al(), k) + [status.zf]
    {
      next := destOfs;
      var tmp;
      err, tmp := Read8(es, destOfs);
      if err == Ok {
        CompareFlags(Al(), tmp);
        next := Step(destOfs, if control.df then -1 else 1);
      }
    }

    /**
     SCASB under REPNE (`nz`) or REPE.  REPNE stops at the first match and REPE at the first
     mismatch: ZF tells whether there was one, CX what is left, DI points just past it.
     */
    method RepScasb(nz: bool) returns (err: Error, ghost turns: nat)
      modifies this`cx, this`di, this`status
      ensures turns <= old(cx)
      ensures err == Ok ==> cx == old(cx) - turns && di == old(Pointers(0)).After(turns).di
      ensures err == Ok && old(cx) == 0 ==> status == old(status)
      ensures err == Ok && old(cx) > 0 ==>
                Stopped(Scanned(mem, old(Pointers(0)), Al(), turns), old(cx), nz, status.zf)
      ensures err != Ok ==> err == Missing() && old(Pointers(0)).Dest(turns) !in mem && di == old(di)
                            && cx == old(cx) - turns - 1
    {
      ghost var t := Pointers(0);
      turns := 0;
      ghost var seen: seq<bool> := [];
      var destOfs := di;
      var stop := false;
      while cx != 0 && !stop
        invariant cx == old(cx) - turns && destOfs == t.After(turns).di && di == old(di)
        invariant turns == 0 ==> status == old(status) && !stop
        invariant seen == Scanned(mem, t, Al(), turns) && forall j :: 0 <= j < turns - 1 ==> seen[j] != nz
        invariant turns > 0 ==> seen[turns - 1] == status.zf && stop == (status.zf == nz)
        decreases old(cx) - turns
      {
        cx := cx - 1;
        err, destOfs := ScanTurn(destOfs, t, turns);
        if err != Ok {
          return;
        }
        seen := seen + [status.zf];
        turns := turns + 1;
        stop := status.zf == nz;
      }
      di := destOfs;
      err := Ok;
    }

    /** Turn `k` of CMPSB: the comparison and the pointer updates. */
    method CompareTurn(srcSeg: Word, srcOfs: Word, destOfs: Word, ghost t: Strings, ghost k: nat)
      returns (err: Error, nextSrc: Word, nextDest: Word)
      requires srcOfs == t.After(k).si && destOfs == t.After(k).di
      requires t.srcSeg == srcSeg && t.destSeg == es && t.down == control.df
      modifies this`status
      ensures err == if t.Src(k) in mem && t.Dest(k) in mem then Ok else Missing()
      ensures err == Ok ==> nextSrc == t.After(k + 1).si && nextDest == t.After(k + 1).di
      ensures err == Ok ==> Compared(mem, t, k + 1) == Compared(mem, t, k) + [status.zf]
    {
      nextSrc, nextDest := srcOfs, destOfs;
      var a, b;
      err, a := Read8(srcSeg, srcOfs);
      if err != Ok {
        return;
      }
      err, b := Read8(es, destOfs);
      if err != Ok {
        return;
      }
      CompareFlags(a, b);
      nextSrc := Step(srcOfs, if control.df then -1 else 1);
      nextDest := Step(destOfs, if control.df then -1 else 1);
    }

    /** CMPSB under REPNE (`nz`) or REPE: REPE stops at the first mismatch, REPNE at the first match. */
    method RepCmpsb(nz: bool, srcSeg: Word) returns (err: Error, ghost turns: nat)
      modifies this`cx, this`si, this`di, this`status
      ensures turns <= old(cx)
      ensures err == Ok ==> cx == old(cx) - turns && Pointers(srcSeg) == old(Pointers(srcSeg)).After(turns)
      ensures err == Ok && old(cx) == 0 ==> status == old(status)
      ensures err == Ok && old(cx) > 0 ==>
                Stopped(Compared(mem, old(Pointers(srcSeg)), turns), old(cx), nz, status.zf)
      ensures err != Ok ==> err == Missing() && Pointers(srcSeg) == old(Pointers(srcSeg)) && cx == old(cx) - turns - 1
      ensures err != Ok ==> var t := old(Pointers(srcSeg)); t.Src(turns) !in mem || t.Dest(turns) !in mem
    {
      ghost var t := Pointers(srcSeg);
      turns := 0;
      ghost var seen: seq<bool> := [];
      var srcOfs, destOfs := si, di;
      var stop := false;
      while cx != 0 && !stop
        invariant cx == old(cx) - turns && si == old(si) && di == old(di)
        invariant srcOfs == t.After(turns).si && destOfs == t.After(turns).di
        invariant turns == 0 ==> status == old(status) && !stop
        invariant seen == Compared(mem, t, turns) && forall j :: 0 <= j < turns - 1 ==> seen[j] != nz
        invariant turns > 0 ==> seen[turns - 1] == status.zf && stop == (status.zf == nz)
        decreases old(cx) - turns
      {
        cx := cx - 1;
        err, srcOfs, destOfs := CompareTurn(srcSeg, srcOfs, destOfs, t, turns);
        if err != Ok {
          return;
        }
        seen := seen + [status.zf];
        turns := turns + 1;
        stop := status.zf == nz;
      }
      si, di := srcOfs, destOfs;
      err := Ok;
    }

    /** REP MOVSB in registers and memory, with the direction flag clear. */
    method MoveUp(srcSeg: Word) returns (err: Error, ghost turns: nat)
      requires !control.df
      modifies this`cx, this`si, this`di, this`mem
      ensures err == Ok ==> cx == 0 && turns == old(cx)
      ensures err == Ok ==> si == (old(si) + old(cx)) % 0x1_0000 && di == (old(di) + old(cx)) % 0x1_0000
      ensures err == Ok && FreeUp(srcSeg, old(si), es, old(di), old(cx)) ==>
                BytesCopied(old(mem), mem, srcSeg, old(si), es, old(di), 0, old(cx) - 1)
      ensures err != Ok ==> turns < old(cx)
      ensures err != Ok ==> Place(srcSeg, old(si), turns) !in old(mem) || Place(es, old(di), turns) !in old(mem)
    {
      ghost var (t, start, n) := (Pointers(srcSeg), mem, cx);
      err, turns := RepMovsb(srcSeg);
      PlacesUp(t, turns);
      if err == Ok && FreeUp(srcSeg, t.si, es, t.di, n) {
        CopiedUp(start, t, n, mem);
      }
    }

    /** And with it set. */
    method MoveDown(srcSeg: Word) returns (err: Error, ghost turns: nat)
      requires control.df
      modifies this`cx, this`si, this`di, this`mem
      ensures err == Ok ==> cx == 0 && turns == old(cx)
      ensures err == Ok ==> si == (old(si) - old(cx)) % 0x1_0000 && di == (old(di) - old(cx)) % 0x1_0000
      ensures err == Ok && FreeDown(srcSeg, old(si), es, old(di), old(cx)) ==>
                BytesCopied(old(mem), mem, srcSeg, old(si), es, old(di), 1 - old(cx), 0)
      ensures err != Ok ==> turns < old(cx)
      ensures err != Ok ==> Place(srcSeg, old(si), 0 - turns) !in old(mem) || Place(es, old(di), 0 - turns) !in old(mem)
    {
      ghost var (t, start, n) := (Pointers(srcSeg), mem, cx);
      err, turns := RepMovsb(srcSeg);
      PlacesDown(t, turns);
      if err == Ok && FreeDown(srcSeg, t.si, es, t.di, n) {
        CopiedDown(start, t, n, mem);
      }
    }

    /** Repeated SCASB in registers and memory, with the direction flag clear. */
    method ScanUp(nz: bool) returns (err: Error, ghost turns: nat)
      requires !control.df
      modifies this`cx, this`di, this`status
      ensures err == Ok ==> turns <= old(cx) && cx == old(cx) - turns && di == (old(di) + turns) % 0x1_0000
      ensures err == Ok && old(cx) > 0 ==> ScanEndedUp(mem, es, old(di), Al(), turns, old(cx), nz, status.zf)
      ensures err != Ok ==> turns < old(cx) && Place(es, old(di), turns) !in mem && di == old(di)
    {
      ghost var (t, n) := (Pointers(0), cx);
      err, turns := RepScasb(nz);
      PlacesUp(t, turns);
      if err == Ok && n > 0 {
        ScanEnds(mem, t, Al(), turns, n, nz, status.zf);
      }
    }

    /** And with it set. */
    method ScanDown(nz: bool) returns (err: Error, ghost turns: nat)
      requires control.df
      modifies this`cx, this`di, this`status
      ensures err == Ok ==> turns <= old(cx) && cx == old(cx) - turns && di == (old(di) - turns) % 0x1_0000
      ensures err == Ok && old(cx) > 0 ==> ScanEndedDown(mem, es, old(di), Al(), turns, old(cx), nz, status.zf)
      ensures err != Ok ==> turns < old(cx) && Place(es, old(di), 0 - turns) !in mem && di == old(di)
    {
      ghost var (t, n) := (Pointers(0), cx);
      err, turns := RepScasb(nz);
      PlacesDown(t, turns);
      if err == Ok && n > 0 {
        ScanEnds(mem, t, Al(), turns, n, nz, status.zf);
      }
    }

    /** REPNE SCASB upwards finds the first match, or there is none. */
    method FindByte() returns (err: Error, ghost k: nat)
      requires !control.df && cx > 0
      modifies this`cx, this`di, this`status
      ensures err == Ok && status.zf ==>
                && k < old(cx) && Matches(mem, es, old(di), k, Al())
                && (forall d :: 0 <= d < k ==> !Matches(mem, es, old(di), d, Al()))
                && di == (old(di) + k + 1) % 0x1_0000 && cx == old(cx) - k - 1
      ensures err == Ok && !status.zf ==>
                (forall d :: 0 <= d < old(cx) ==> !Matches(mem, es, old(di), d, Al())) && cx == 0
    {
      ghost var turns;
      err, turns := ScanUp(true);
      k := if turns > 0 then turns - 1 else 0;
    }

    /** Repeated CMPSB in registers and memory, with the direction flag clear. */
    method CompareUp(nz: bool, srcSeg: Word) returns (err: Error, ghost turns: nat)
      requires !control.df
      modifies this`cx, this`si, this`di, this`status
      ensures err == Ok ==> turns <= old(cx) && cx == old(cx) - turns
      ensures err == Ok ==> si == (old(si) + turns) % 0x1_0000 && di == (old(di) + turns) % 0x1_0000
      ensures err == Ok && old(cx) > 0 ==>
                CompareEndedUp(mem, srcSeg, old(si), es, old(di), turns, old(cx), nz, status.zf)
      ensures err != Ok ==> turns < old(cx)
      ensures err != Ok ==> Place(srcSeg, old(si), turns) !in mem || Place(es, old(di), turns) !in mem
    {
      ghost var (t, n) := (Pointers(srcSeg), cx);
      err, turns := RepCmpsb(nz, srcSeg);
      PlacesUp(t, turns);
      if err == Ok && n > 0 {
        CompareEnds(mem, t, turns, n, nz, status.zf);
      }
    }

    /** And with it set. */
    method CompareDown(nz: bool, srcSeg: Word) returns (err: Error, ghost turns: nat)
      requires control.df
      modifies this`cx, this`si, this`di, this`status
      ensures err == Ok ==> turns <= old(cx) && cx == old(cx) - turns
      ensures err == Ok ==> si == (old(si) - turns) % 0x1_0000 && di == (old(di) - turns) % 0x1_0000
      ensures err == Ok && old(cx) > 0 ==>
                CompareEndedDown(mem, srcSeg, old(si), es, old(di), turns, old(cx), nz, status.zf)
      ensures err != Ok ==> turns < old(cx)
      ensures err != Ok ==> Place(srcSeg, old(si), 0 - turns) !in mem || Place(es, old(di), 0 - turns) !in mem
    {
      ghost var (t, n) := (Pointers(srcSeg), cx);
      err, turns := RepCmpsb(nz, srcSeg);
      PlacesDown(t, turns);
      if err == Ok && n > 0 {
        CompareEnds(mem, t, turns, n, nz, status.zf);
      }
    }

    /** The words `vs` were pushed since SP was `base` and the memory was `start`. */
    ghost predicate Stacked(start: Memory, base: Word, vs: seq<Word>)
      reads this`mem, this`ss, this`sp
    {
      Paired(start) && base % 2 == 0 && |vs| < 0x8000 && StackState(start, ss, base, vs, mem, sp)
    }

    /** PUSH of one word; SP stays lowered when the write fails. */
    method Push(v: Word, ghost start: Memory, ghost base: Word, ghost vs: seq<Word>) returns (err: Error)
      requires Stacked(start, base, vs) && |vs| + 1 < 0x8000
      modifies this`sp, this`mem
      ensures err == if Below(ss, base, |vs| + 1) in start then Ok else Missing()
      ensures err == Ok ==> Stacked(start, base, vs + [v])
      ensures sp == Step(old(sp), -2) && (err != Ok ==> mem == old(mem))
    {
      StackKeys(start, ss, base, vs, mem, sp);
      ghost var was := sp;
      sp := Step(sp, -2);
      var addr := Linear(ss, sp);
      if addr !in mem {
        return Missing();
      }
      PushOne(start, ss, base, vs, mem, was, v);
      mem := StoreWord(mem, addr, v);
      return Ok;
    }

    /** POP of one word, `k` words above `base`. */
    method Pop(ghost base: Word, ghost k: nat) returns (err: Error, v: Word)
      requires sp == Walk(base, 2, k) && Whole(mem, Above(ss, base, k))
      modifies this`sp
      ensures err == if Above(ss, base, k) in mem then Ok else Missing()
      ensures err == Ok ==> v == Peek(mem, ss, base, k)
      ensures sp == Walk(base, 2, if err == Ok then k + 1 else k)
    {
      var addr := Linear(ss, sp);
      if addr !in mem {
        return Missing(), 0;
      }
      v := WordAt(mem, addr);
      sp := Step(sp, 2);
      err := Ok;
    }

    /** A run of PUSH macros, stopping at the first that fails. */
    method PushAll(vs: seq<Word>) returns (err: Error)
      requires Paired(mem) && sp % 2 == 0 && |vs| < 0x8000
      modifies this`sp, this`mem
      ensures err == if Room(old(mem), ss, old(sp), |vs|) then Ok else Missing()
      ensures err == Ok ==> Stacked(old(mem), old(sp), vs)
    {
      ghost var start, base := mem, sp;
      var i := 0;
      while i < |vs|
        invariant 0 <= i <= |vs| && Stacked(start, base, vs[..i])
      {
        assert vs[..i] + [vs[i]] == vs[..i + 1];
        err := Push(vs[i], start, base, vs[..i]);
        if err != Ok {
          NoRoom(start, ss, base, |vs|, i + 1);
          return;
        }
        i := i + 1;
      }
      assert vs[..i] == vs;
      err := Ok;
    }

    /** POP into a register, which keeps its value when the read fails. */
    method PopInto(was: Word, ghost base: Word, ghost k: nat) returns (err: Error, v: Word)
      requires Paired(mem) && base % 2 == 0 && sp == Walk(base, 2, k)
      modifies this`sp
      ensures err == if Above(ss, base, k) in mem then Ok else Missing()
      ensures v == if err == Ok then Peek(mem, ss, base, k) else was
      ensures sp == Walk(base, 2, if err == Ok then k + 1 else k)
    {
      WalkEven(base, 2, k);
      assert Above(ss, base, k) % 2 == 0 && PairAt(mem, Above(ss, base, k));
      var w;
      err, w := Pop(base, k);
      v := if err == Ok then w else was;
    }

    method Pusha(operandOverride: bool) returns (err: Error)
      requires Paired(mem) && sp % 2 == 0
      modifies this`sp, this`mem
      ensures err == if operandOverride then UndefOpcode else if Room(old(mem), ss, old(sp), 8) then Ok else Missing()
      ensures err == Ok ==> Stacked(old(mem), old(sp), [ax, cx, dx, bx, old(sp), bp, si, di])
    {
      if operandOverride {
        return UndefOpcode;
      }
      err := PushAll([ax, cx, dx, bx, sp, bp, si, di]);
    }

    /** The first three pops of POPA. */
    method PopPointers() returns (err: Error)
      requires Paired(mem) && sp % 2 == 0
      modifies this`sp, this`bp, this`si, this`di
      ensures err == Ok || err == Missing()
      ensures err == Ok <==>
              Above(ss, old(sp), 0) in mem && Above(ss, old(sp), 1) in mem && Above(ss, old(sp), 2) in mem
      ensures err == Ok ==> di == Peek(mem, ss, old(sp), 0) && si == Peek(mem, ss, old(sp), 1)
                            && bp == Peek(mem, ss, old(sp), 2) && sp == Walk(old(sp), 2, 3)
    {
      ghost var base := sp;
      err, di := PopInto(di, base, 0);
      if err != Ok { return; }
      err, si := PopInto(si, base, 1);
      if err != Ok { return; }
      err, bp := PopInto(bp, base, 2);
    }

    /** The last four pops of POPA, from `base` on. */
    method PopData(ghost base: Word) returns (err: Error)
      requires Paired(mem) && base % 2 == 0 && sp == Walk(base, 2, 4)
      modifies this`sp, this`ax, this`bx, this`cx, this`dx
      ensures err == Ok || err == Missing()
      ensures err == Ok <==> Above(ss, base, 4) in mem && Above(ss, base, 5) in mem
                             && Above(ss, base, 6) in mem && Above(ss, base, 7) in mem
      ensures err == Ok ==> bx == Peek(mem, ss, base, 4) && dx == Peek(mem, ss, base, 5)
                            && cx == Peek(mem, ss, base, 6) && ax == Peek(mem, ss, base, 7) && sp == Walk(base, 2, 8)
    {
      err, bx := PopInto(bx, base, 4);
      if err != Ok { return; }
      err, dx := PopInto(dx, base, 5);
      if err != Ok { return; }
      err, cx := PopInto(cx, base, 6);
      if err != Ok { return; }
      err, ax := PopInto(ax, base, 7);
    }

    method Popa(operandOverride: bool) returns (err: Error)
      requires Paired(mem) && sp % 2 == 0
      modifies this`sp, this`ax, this`bx, this`cx, this`dx, this`bp, this`si, this`di
      ensures err == if operandOverride then UndefOpcode else if PopaSlots(mem, ss, old(sp)) then Ok else Missing()
      ensures err == Ok ==>
                && di == Peek(mem, ss, old(sp), 0) && si == Peek(mem, ss, old(sp), 1) && bp == Peek(mem, ss, old(sp), 2)
                && bx == Peek(mem, ss, old(sp), 4) && dx == Peek(mem, ss, old(sp), 5) && cx == Peek(mem, ss, old(sp), 6)
                && ax == Peek(mem, ss, old(sp), 7) && sp == Walk(old(sp), 2, 8)
    {
      ghost var base := sp;
      if operandOverride {
        return UndefOpcode;
      }
      err := PopPointers();
      if err != Ok { return; }
      sp := Step(sp, 2);
      err := PopData(base);
    }

    /** PUSHA then POPA restores every register. */
    method PushaPopa() returns (err: Error)
      requires Paired(mem) && sp % 2 == 0 && Room(mem, ss, sp, 8)
      modifies this`sp, this`mem, this`ax, this`bx, this`cx, this`dx, this`bp, this`si, this`di
      ensures err == Ok && ax == old(ax) && bx == old(bx) && cx == old(cx) && dx == old(dx)
      ensures bp == old(bp) && si == old(si) && di == old(di) && sp == old(sp)
    {
      ghost var start, base, vs := mem, sp, [ax, cx, dx, bx, sp, bp, si, di];
      err := Pusha(false);
      StackKeys(start, ss, base, vs, mem, sp);
      PushaHolds(start, ss, base, vs, mem, sp);
      WalkEven(base, -2, 8);
      WalkBack(base, -2, 8, 8);
      err := Popa(false);
    }

    /** Steps to the next frame pointer below and reads it. */
    method LowerFrame(ghost frame: Word, ghost n: nat) returns (err: Error, val: Word)
      requires n > 0 && bp == Walk(frame, -2, n - 1) && Whole(mem, Below(ss, frame, n))
      modifies this`bp
      ensures bp == Walk(frame, -2, n) && err == if Below(ss, frame, n) in mem then Ok else Missing()
      ensures err == Ok ==> val == Peek(mem, ss, Walk(frame, -2, n), 0)
    {
      bp := Step(bp, -2);
      var addr := Linear(ss, bp);
      if addr !in mem {
        return Missing(), 0;
      }
      err, val := Ok, WordAt(mem, addr);
    }

    /** One turn of ENTER's copy loop: the next word of the old display, found below `frame`, is pushed. */
    method CopyWord(ghost start: Memory, ghost base: Word, ghost vs: seq<Word>, ghost frame: Word, ghost n: nat)
      returns (err: Error, val: Word)
      requires 0 < |vs| < 64 && Stacked(start, base, vs) && bp == Walk(frame, -2, |vs| - 1)
      requires |vs| <= n && WholeBelow(start, ss, frame, n)
      modifies this`sp, this`bp, this`mem
      ensures err == if Below(ss, frame, |vs|) in start && Below(ss, base, |vs| + 1) in start then Ok else Missing()
      ensures err == Ok ==> Stacked(start, base, vs + [val]) && bp == Walk(frame, -2, |vs|)
      ensures err == Ok ==> val == Peek(Pushed(start, ss, base, vs), ss, Walk(frame, -2, |vs|), 0)
    {
      StackKeys(start, ss, base, vs, mem, sp);
      WholeAt(start, ss, frame, n, |vs|);
      err, val := LowerFrame(frame, |vs|);
      if err != Ok {
        return;
      }
      err := Push(val, start, base, vs);
    }

    /** The same, where a failure means that some word of the whole copy is not there. */
    method CopyNext(ghost start: Memory, ghost base: Word, ghost vs: seq<Word>, ghost frame: Word, ghost level: nat)
      returns (err: Error, val: Word)
      requires 0 < |vs| < level <= 31 && Stacked(start, base, vs) && bp == Walk(frame, -2, |vs| - 1)
      requires WholeBelow(start, ss, frame, level - 1) && Display(start, ss, base, frame, vs)
      modifies this`sp, this`bp, this`mem
      ensures err != Ok ==> err == Missing() && !(Room(start, ss, base, level) && Room(start, ss, frame, level - 1))
      ensures err == Ok ==> Stacked(start, base, vs + [val]) && bp == Walk(frame, -2, |vs|)
      ensures err == Ok ==> Display(start, ss, base, frame, vs + [val])
    {
      if Room(start, ss, base, level) && Room(start, ss, frame, level - 1) {
        CopyRoom(start, ss, base, frame, level, |vs|);
      }
      err, val := CopyWord(start, base, vs, frame, level - 1);
      if err == Ok {
        DisplayGrows(start, ss, base, frame, vs, Pushed(start, ss, base, vs), val);
      }
    }

    /** The frame pointer and part of the display below it were pushed. */
    ghost predicate Copied(start: Memory, base: Word, frame: Word, vs: seq<Word>)
      reads this`mem, this`ss, this`sp, this`bp
    {
      && vs != [] && vs[0] == frame && Stacked(start, base, vs) && bp == Walk(frame, -2, |vs| - 1)
      && Display(start, ss, base, frame, vs)
    }

    /** The copy loop of ENTER. */
    method CopyDisplay(level: nat, ghost start: Memory, ghost base: Word) returns (err: Error, ghost vs: seq<Word>)
      requires 1 <= level <= 31 && WholeBelow(start, ss, bp, level - 1) && Stacked(start, base, [bp])
      modifies this`sp, this`bp, this`mem
      ensures Room(start, ss, base, level) && Room(start, ss, old(bp), level - 1) ==> err == Ok
      ensures err == Ok || err == Missing()
      ensures err == Ok ==> |vs| == level && Stacked(start, base, vs) && vs[0] == old(bp)
      ensures err == Ok ==> Display(start, ss, base, old(bp), vs)
    {
      vs := [bp];
      err := Ok;
      ghost var frame := bp;
      var i := 1;
      while i < level && err == Ok
        invariant 1 <= i <= level
        invariant err != Ok ==> err == Missing() && !(Room(start, ss, base, level) && Room(start, ss, frame, level - 1))
        invariant err == Ok ==> |vs| == i && Copied(start, base, frame, vs)
      {
        var val;
        err, val := CopyNext(start, base, vs, frame, level);
        vs := vs + [val];
        i := i + 1;
      }
    }

    /** ENTER above level one, after the old BP is pushed: the old display, then the new frame pointer. */
    method EnterLevels(level: nat, frameTemp: Word, ghost start: Memory, ghost base: Word)
      returns (err: Error, ghost vs: seq<Word>)
      requires 1 < level <= 31 && WholeBelow(start, ss, bp, level - 1) && Stacked(start, base, [bp])
      modifies this`sp, this`bp, this`mem
      ensures err == Ok || err == Missing()
      ensures err == Ok <==> Room(start, ss, base, level + 1) && Room(start, ss, old(bp), level - 1)
      ensures err == Ok ==> |vs| == level + 1 && Stacked(start, base, vs) && vs[0] == old(bp)
      ensures err == Ok ==> vs[level] == frameTemp && Display(start, ss, base, old(bp), vs[..level])
    {
      err, vs := CopyDisplay(level, start, base);
      if err != Ok {
        return;
      }
      DisplayRoom(start, ss, base, old(bp), vs);
      err := Push(frameTemp, start, base, vs);
      if err != Ok {
        NoRoom(start, ss, base, level + 1, level + 1);
        return;
      }
      assert (vs + [frameTemp])[..level] == vs;
      vs := vs + [frameTemp];
    }

    /** How many words ENTER pushes. */
    static function PushedBy(level: nat): nat {
      if level > 1 then level + 1 else 1
    }

    /** The stack words that ENTER of this level touches are mapped. */
    ghost predicate EnterRoom(level: nat)
      reads this`mem, this`ss, this`sp, this`bp
    {
      Room(mem, ss, sp, PushedBy(level)) && (level > 1 ==> Room(mem, ss, bp, level - 1))
    }

    /** What ENTER pushes, and the frame pointer that it sets afterwards. */
    method EnterStack(level: nat, operandOverride: bool) returns (err: Error, frameTemp: Word, ghost vs: seq<Word>)
      requires Paired(mem) && sp % 2 == 0 && level <= 31 && (level > 1 ==> WholeBelow(mem, ss, bp, level - 1))
      modifies this`sp, this`bp, this`mem
      ensures err == Ok <==> old(EnterRoom(level)) && !(operandOverride && level > 1)
      ensures err != Ok ==> err == Missing() || (err == UndefOpcode && operandOverride && level > 1)
      ensures err == Ok ==> frameTemp == Step(old(sp), -2) && Stacked(old(mem), old(sp), vs)
      ensures err == Ok ==> |vs| == PushedBy(level) && vs[0] == old(bp)
      ensures err == Ok && level > 1 ==> vs[level] == frameTemp && Display(old(mem), ss, old(sp), old(bp), vs[..level])
    {
      ghost var start, base := mem, sp;
      vs := [bp];
      assert [] + [bp] == [bp];
      err := Push(bp, start, base, []);
      frameTemp := sp;
      if err != Ok {
        NoRoom(start, ss, base, PushedBy(level), 1);
        return;
      }
      assert Stacked(start, base, [bp]) && sp == Walk(base, -2, 1);
      OneBelow(ss, base);
      if level > 1 {
        if operandOverride {
          err := UndefOpcode;
          return;
        }
        err, vs := EnterLevels(level, frameTemp, start, base);
      }
    }

    /**
     ENTER.  `vs` are the words pushed: the old BP and, above level one, the old display and the
     new frame pointer.  Level one pushes only the old BP, unlike the processor.
     */
    method Enter(size: Word, level: Byte, operandOverride: bool) returns (err: Error, ghost vs: seq<Word>)
      requires Paired(mem) && sp % 2 == 0 && (level % 32 > 1 ==> WholeBelow(mem, ss, bp, level % 32 - 1))
      modifies this`sp, this`bp, this`mem
      ensures err == Ok <==> old(EnterRoom(level % 32)) && !(operandOverride && level % 32 > 1)
      ensures err != Ok ==> err == Missing() || (err == UndefOpcode && operandOverride && level % 32 > 1)
      ensures err == Ok ==> bp == Step(old(sp), -2) && sp == Step(Walk(old(sp), -2, |vs|), 0 - size)
      ensures err == Ok ==> StackState(old(mem), ss, old(sp), vs, mem, Walk(old(sp), -2, |vs|))
      ensures err == Ok ==> |vs| == PushedBy(level % 32) && vs[0] == old(bp)
      ensures err == Ok && level % 32 > 1 ==>
                vs[level % 32] == bp && Display(old(mem), ss, old(sp), old(bp), vs[..level % 32])
    {
      var frameTemp;
      err, frameTemp, vs := EnterStack(level % 32, operandOverride);
      if err != Ok {
        return;
      }
      bp := frameTemp;
      sp := Step(sp, 0 - size);
    }

    method Leave(operandOverride: bool) returns (err: Error)
      requires Whole(mem, Above(ss, bp, 0))
      modifies this`sp, this`bp
      ensures operandOverride ==> err == Ok && sp == bp == old(bp)
      ensures !operandOverride ==> err == if Above(ss, old(bp), 0) in mem then Ok else Missing()
      ensures !operandOverride && err == Ok ==> bp == Peek(mem, ss, old(bp), 0) && sp == Step(old(bp), 2)
    {
      sp := bp;
      if operandOverride {
        return Ok;
      }
      var saved;
      err, saved := Pop(sp, 0);
      if err == Ok {
        bp := saved;
      }
    }

    /** ENTER with room, as far as the first word that it pushes. */
    method EnterPushed(size: Word, level: Byte) returns (err: Error, ghost vs: seq<Word>)
      requires Paired(mem) && sp % 2 == 0 && EnterRoom(level % 32)
      requires level % 32 > 1 ==> WholeBelow(mem, ss, bp, level % 32 - 1)
      modifies this`sp, this`bp, this`mem
      ensures err == Ok && bp == Step(old(sp), -2) && mem == Pushed(old(mem), ss, old(sp), vs)
      ensures 0 < |vs| < 0x8000 && vs[0] == old(bp)
    {
      err, vs := Enter(size, level, false);
    }

    /** The frame that ENTER leaves behind: BP points just below the old SP, at the saved BP. */
    method EnterFrame(size: Word, level: Byte) returns (err: Error)
      requires Paired(mem) && sp % 2 == 0 && EnterRoom(level % 32)
      requires level % 32 > 1 ==> WholeBelow(mem, ss, bp, level % 32 - 1)
      modifies this`sp, this`bp, this`mem
      ensures err == Ok && bp == Step(old(sp), -2)
      ensures Above(ss, bp, 0) in mem && Above(ss, bp, 0) + 1 in mem && Peek(mem, ss, bp, 0) == old(bp)
    {
      ghost var start, base := mem, sp;
      ghost var vs;
      err, vs := EnterPushed(size, level);
      EnteredHolds(start, ss, base, vs, mem, bp);
    }

    /**
     ENTER of any size and level followed by LEAVE restores SP and BP, for every BP; only above level one are words
     below BP read, and those must not run out of their memory.
     */
    method EnterLeave(size: Word, level: Byte) returns (err: Error)
      requires Paired(mem) && sp % 2 == 0 && EnterRoom(level % 32)
      requires level % 32 > 1 ==> WholeBelow(mem, ss, bp, level % 32 - 1)
      modifies this`sp, this`bp, this`mem
      ensures err == Ok && sp == old(sp) && bp == old(bp)
    {
      OneBelow(ss, sp);
      err := EnterFrame(size, level);
      err := Leave(false);
    }

    /** The vector is there and is the one of a high-level handler. */
    predicate HighLevel(num: Byte)
      requires Paired(mem)
      reads this`mem
    {
      && num * 4 in mem && num * 4 + 2 in mem
      && Vector(num) == (num, 0xB800)
    }

    /** The vector is there and is null. */
    predicate NullVector(num: Byte)
      requires Paired(mem)
      reads this`mem
    {
      num * 4 in mem && num * 4 + 2 in mem && Vector(num) == (0, 0)
    }

    /** The vector is there, is not null, and is not the one of a high-level handler. */
    predicate Emulated(num: Byte)
      requires Paired(mem)
      reads this`mem
    {
      && num * 4 in mem && num * 4 + 2 in mem
      && Vector(num) != (0, 0) && Vector(num) != (num, 0xB800)
    }

    /** Offset and segment of an interrupt vector. */
    function Vector(num: Byte): (nat, nat)
      requires Paired(mem) && num * 4 in mem && num * 4 + 2 in mem
      reads this`mem
    {
      assert PairAt(mem, num * 4) && PairAt(mem, num * 4 + 2);
      (WordAt(mem, num * 4), WordAt(mem, num * 4 + 2))
    }

    /** Reads an interrupt vector from the table at address zero. */
    method ReadVector(num: Byte) returns (err: Error, ofs: Word, segment: Word)
      requires Paired(mem)
      ensures err == if num * 4 in mem && num * 4 + 2 in mem then Ok else Missing()
      ensures err == Ok ==> num * 4 + 1 in mem && num * 4 + 3 in mem && (ofs, segment) == Vector(num)
    {
      var vector: nat := num * 4;
      if vector !in mem || vector + 2 !in mem {
        return Missing(), 0, 0;
      }
      assert PairAt(mem, vector) && PairAt(mem, vector + 2);
      err, ofs, segment := Ok, WordAt(mem, vector), WordAt(mem, vector + 2);
    }

    /** Call through interrupt vector `num`; an HLE vector returns without touching the stack. */
    method CallInterrupt(num: Byte, ipOffset: Word) returns (err: Error, hle: bool)
      requires Paired(mem) && sp % 2 == 0
      modifies this`sp, this`mem, this`ip, this`cs, this`control
      ensures old(Emulated(num)) && Room(old(mem), ss, old(sp), 3) <==> err == Ok && !hle
      ensures old(HighLevel(num)) <==> err == Ok && hle
      ensures err != Ok ==> err == if old(NullVector(num)) then BadMem else Missing()
      ensures old(NullVector(num)) ==> err == BadMem && mem == old(mem) && ip == old(ip) && cs == old(cs)
      ensures err == Ok && hle ==>
                sp == old(sp) && mem == old(mem) && ip == old(ip) && cs == old(cs) && control == old(control)
      ensures err == Ok && !hle ==>
                Stacked(old(mem), old(sp), [Pack(status, old(control)), old(cs), Step(old(ip), ipOffset)])
      ensures err == Ok && !hle ==>
                num * 4 in old(mem) && num * 4 + 1 in old(mem) && num * 4 + 2 in old(mem) && num * 4 + 3 in old(mem)
                && ip == WordAt(old(mem), num * 4) && cs == WordAt(old(mem), num * 4 + 2)
                && control == old(control).(ifl := false, tf := false)
    {
      hle := false;
      var ofs, segment;
      err, ofs, segment := ReadVector(num);
      if err != Ok {
        return;
      }
      if ofs == 0 && segment == 0 {
        return BadMem, false;
      }
      if segment == 0xB800 && ofs == num {
        return Ok, true;
      }
      err := PushAll([Pack(status, control), cs, Step(ip, ipOffset)]);
      if err != Ok {
        return;
      }
      ip, cs := ofs, segment;
      control := control.(ifl := false, tf := false);
    }

    method Iret() returns (err: Error)
      requires Paired(mem) && sp % 2 == 0
      modifies this`sp, this`ip, this`cs, this`status, this`control
      ensures err == Ok || err == Missing()
      ensures err == Ok <==>
              Above(ss, old(sp), 0) in mem && Above(ss, old(sp), 1) in mem && Above(ss, old(sp), 2) in mem
      ensures err == Ok ==> ip == Peek(mem, ss, old(sp), 0) && cs == Peek(mem, ss, old(sp), 1)
                            && status == UnpackStatus(Peek(mem, ss, old(sp), 2))
                            && control == UnpackControl(Peek(mem, ss, old(sp), 2)) && sp == Walk(old(sp), 2, 3)
    {
      ghost var base := sp;
      err, ip := PopInto(ip, base, 0);
      if err != Ok { return; }
      err, cs := PopInto(cs, base, 1);
      if err != Ok { return; }
      var w;
      err, w := PopInto(0, base, 2);
      if err != Ok { return; }
      status, control := UnpackStatus(w), UnpackControl(w);
    }

    /** An emulated INT whose handler returns at once: CS, FLAGS and SP are back, IP is past the INT. */
    method IntIret(num: Byte, ipOffset: Word) returns (err: Error, hle: bool)
      requires Paired(mem) && sp % 2 == 0
      modifies this`sp, this`mem, this`ip, this`cs, this`status, this`control
      ensures old(Emulated(num)) && Room(old(mem), ss, old(sp), 3) <==> err == Ok && !hle
      ensures err != Ok ==> err == if old(NullVector(num)) then BadMem else Missing()
      ensures err == Ok && !hle ==>
                cs == old(cs) && status == old(status) && control == old(control) && sp == old(sp)
                && ip == Step(old(ip), ipOffset)
    {
      ghost var start, base, vs := mem, sp, [Pack(status, control), cs, Step(ip, ipOffset)];
      PackRoundTrip(status, control);
      err, hle := CallInterrupt(num, ipOffset);
      if err == Ok && !hle {
        InterruptHolds(start, ss, base, vs, mem, sp);
        err := Iret();
      }
    }
  }
}
