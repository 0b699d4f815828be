/**
 The parameter blocks of a version 1 feature in driverso/fpga/dfl.c: dfh_get_param_size walks them
 in the registers, find_param walks the copy that is made afterwards. Every word of the area is
 given as the header that it would be, counted from the first one.
 */
module FeatureParams {
  import opened Common
  import opened FeatureHeaders

  /** The limit of feature_size in bytes. */
  const MAX_SIZE: nat := 0x100_0000

  /** The limit of an int that counts the bytes of this many words. */
  const INT_WORDS: int := 0x1000_0000

  /** What dfh_get_param_size returns, if it does. */
  datatype ParamSize = Returned(size: int) | Endless

  /** The loop after some turns: the total in words, or the value returned. */
  datatype Progress = At(words: int) | Done(size: int)

  /** A block of parameters: headers from `at` on, each with room for its data, the last one at the end. */
  predicate Chained(p: seq<Param>, at: nat)
    decreases |p| - at
  {
    && at < |p|
    && p[at].next > 0
    && (if p[at].last then at + p[at].next == |p| else Chained(p, at + p[at].next))
  }

  /** The same without an end: the headers from `at` on step forward until one is the last or lies outside. */
  predicate Stepping(p: seq<Param>, at: nat)
    decreases |p| - at
  {
    at < |p| ==> p[at].next > 0 && (p[at].last || Stepping(p, at + p[at].next))
  }

  lemma {:induction false} ChainedSteps(p: seq<Param>, at: nat)
    requires Chained(p, at)
    ensures Stepping(p, at)
    decreases |p| - at
  {
    if !p[at].last {
      ChainedSteps(p, at + p[at].next);
    }
  }

  /** The positions of the headers. */
  function Headers(p: seq<Param>, at: nat): (hs: seq<nat>)
    requires Stepping(p, at)
    ensures forall h :: h in hs ==> at <= h < |p|
    decreases |p| - at
  {
    if at >= |p| then [] else [at] + if p[at].last then [] else Headers(p, at + p[at].next)
  }

  /** The parameters of a feature as they are copied out of the registers. */
  function Copied(area: int -> Param, words: nat): (p: seq<Param>)
    ensures |p| == words
  {
    seq(words, i requires 0 <= i < words => area(i))
  }

  /** A number of words as an int keeps it in bytes. */
  function Wrapped(words: int): (w: int)
    ensures -INT_WORDS <= w < INT_WORDS && (-INT_WORDS <= words < INT_WORDS ==> w == words)
  {
    (words + INT_WORDS) % (2 * INT_WORDS) - INT_WORDS
  }

  /** A header at this place starts within a feature of `max` bytes. */
  predicate Within(max: nat, at: int) {
    0 <= 8 * at + PARAM_HDR < max
  }

  /** One turn of the loop, at a total that may have become negative. */
  function Turn(area: int -> Param, max: nat, at: int): Progress {
    if !Within(max, at) then Done(ENOENT)
    else if area(at).next == 0 then Done(EINVAL)
    else if area(at).last then Done(8 * Wrapped(at + area(at).next))
    else At(Wrapped(at + area(at).next))
  }

  function Run(area: int -> Param, max: nat, at: int, n: nat): Progress
    decreases n
  {
    if n == 0 then At(at) else
      match Turn(area, max, at)
      case Done(size) => Done(size)
      case At(to) => Run(area, max, to, n - 1)
  }

  /** What the code returns: the value with which some turn ends, if one does. */
  ghost function SizeOf(area: int -> Param, max: nat): ParamSize {
    if n: nat :| Run(area, max, 0, n).Done? then Returned(Run(area, max, 0, n).size) else Endless
  }

  lemma {:induction false} RunAdd(area: int -> Param, max: nat, at: int, m: nat, n: nat)
    ensures var r := Run(area, max, at, m);
            Run(area, max, at, m + n) == if r.Done? then r else Run(area, max, r.words, n)
    decreases m
  {
    if m > 0 && Turn(area, max, at).At? {
      RunAdd(area, max, Turn(area, max, at).words, m - 1, n);
    }
  }

  /** The value returned is that of any turn that ends. */
  lemma SizeIs(area: int -> Param, max: nat, n: nat)
    requires Run(area, max, 0, n).Done?
    ensures SizeOf(area, max) == Returned(Run(area, max, 0, n).size)
  {
    forall m: nat | Run(area, max, 0, m).Done? ensures Run(area, max, 0, m) == Run(area, max, 0, n) {
      if m <= n {
        RunAdd(area, max, 0, m, n - m);
      } else {
        RunAdd(area, max, 0, n, m - n);
      }
    }
  }

  lemma {:induction false} Cycle(area: int -> Param, max: nat, at: int, period: nat, n: nat)
    requires period > 0 && Run(area, max, at, period) == At(at)
    ensures Run(area, max, at, n).At?
  {
    if n <= period {
      RunAdd(area, max, at, n, period - n);
    } else {
      Cycle(area, max, at, period, n - period);
      RunAdd(area, max, at, period, n - period);
    }
  }

  /** The totals of the turns so far, and the one reached. */
  ghost predicate Trail(area: int -> Param, max: nat, path: seq<int>, at: int) {
    Run(area, max, 0, |path|) == At(at) && forall i :: 0 <= i < |path| ==> Run(area, max, 0, i) == At(path[i])
  }

  /** A total met twice is met again and again. */
  lemma MetTwice(area: int -> Param, max: nat, path: seq<int>, at: int)
    requires Trail(area, max, path, at) && at in path
    ensures SizeOf(area, max) == Endless
  {
    var i :| 0 <= i < |path| && path[i] == at;
    RunAdd(area, max, 0, i, |path| - i);
    forall n: nat ensures Run(area, max, 0, n).At? {
      if n <= i {
        RunAdd(area, max, 0, n, i - n);
      } else {
        Cycle(area, max, at, |path| - i, n - i);
        RunAdd(area, max, 0, i, n - i);
      }
    }
  }

  lemma TrailStep(area: int -> Param, max: nat, path: seq<int>, at: int)
    requires Trail(area, max, path, at)
    ensures Run(area, max, 0, |path| + 1) == Turn(area, max, at)
    ensures Turn(area, max, at).At? ==> Trail(area, max, path + [at], Turn(area, max, at).words)
  {
    RunAdd(area, max, 0, |path|, 1);
    assert Run(area, max, at, 1) == Turn(area, max, at);
  }

  /** Where the chain of headers from `at` on, in a feature of `max` bytes, ends: every header must start within it. */
  function WalkEnd(area: int -> Param, max: nat, at: int): (end: Option<int>)
    ensures end.Some? ==> at < end.value
    decreases max - 8 * at
  {
    if !Within(max, at) || area(at).next == 0 then None
    else if area(at).last then Some(at + area(at).next)
    else WalkEnd(area, max, at + area(at).next)
  }

  /**
   A chain of parameter headers `hs` from `at` to `end`: each starts within the feature, behind the 0x28 bytes of the
   feature's own registers, and where the one before says; only the last one is marked as the last.
   */
  ghost predicate Chain(area: int -> Param, max: nat, at: int, hs: seq<int>, end: int) {
    && hs != [] && hs[0] == at && end == hs[|hs| - 1] + area(hs[|hs| - 1]).next
    && (forall i :: 0 <= i < |hs| ==> 0 <= 8 * hs[i] + 0x28 < max && area(hs[i]).next > 0)
    && (forall i :: 0 <= i < |hs| ==> (area(hs[i]).last <==> i == |hs| - 1))
    && (forall i :: 0 <= i < |hs| - 1 ==> hs[i + 1] == hs[i] + area(hs[i]).next)
  }

  lemma ChainTail(area: int -> Param, max: nat, at: int, hs: seq<int>, end: int)
    requires Chain(area, max, at, hs, end) && |hs| > 1
    ensures Chain(area, max, at + area(at).next, hs[1..], end)
  {
    var rest := hs[1..];
    assert forall i :: 0 <= i < |rest| ==> rest[i] == hs[i + 1];
  }

  lemma ChainFront(area: int -> Param, max: nat, at: int, rest: seq<int>, end: int)
    requires Within(max, at) && area(at).next > 0 && !area(at).last
    requires Chain(area, max, at + area(at).next, rest, end)
    ensures Chain(area, max, at, [at] + rest, end)
  {
    var hs := [at] + rest;
    assert forall i :: 0 < i < |hs| ==> hs[i] == rest[i - 1];
  }

  lemma {:induction false} ChainEnds(area: int -> Param, max: nat, at: int, hs: seq<int>, end: int)
    requires Chain(area, max, at, hs, end)
    ensures WalkEnd(area, max, at) == Some(end)
    decreases |hs|
  {
    assert area(hs[0]).next > 0;
    if |hs| > 1 {
      ChainTail(area, max, at, hs, end);
      ChainEnds(area, max, at + area(at).next, hs[1..], end);
    }
  }

  lemma {:induction false} ChainOf(area: int -> Param, max: nat, at: int) returns (hs: seq<int>)
    requires WalkEnd(area, max, at).Some?
    ensures Chain(area, max, at, hs, WalkEnd(area, max, at).value)
    decreases max - 8 * at
  {
    hs := [at];
    if !area(at).last {
      var rest := ChainOf(area, max, at + area(at).next);
      ChainFront(area, max, at, rest, WalkEnd(area, max, at).value);
      hs := [at] + rest;
    }
  }

  /** The walk ends at `end` if and only if there is such a chain. */
  lemma WalkEndExactly(area: int -> Param, max: nat, at: int, end: int)
    ensures WalkEnd(area, max, at) == Some(end) <==> exists hs :: Chain(area, max, at, hs, end)
  {
    if hs :| Chain(area, max, at, hs, end) {
      ChainEnds(area, max, at, hs, end);
    }
    if WalkEnd(area, max, at) == Some(end) {
      var hs := ChainOf(area, max, at);
    }
  }

  /** Every total on that chain is below the limit of an int. */
  predicate WalkFits(area: int -> Param, max: nat, at: int)
    decreases max - 8 * at
  {
    !Within(max, at) || area(at).next == 0
    || (at + area(at).next < INT_WORDS && (area(at).last || WalkFits(area, max, at + area(at).next)))
  }

  /** The code returns the size of the chain, or an error if the chain does not end well. */
  ghost predicate Agrees(area: int -> Param, max: nat) {
    var (r, end) := (SizeOf(area, max), WalkEnd(area, max, 0));
    r.Returned? && if end.Some? then r.size == 8 * end.value else r.size < 0
  }

  lemma {:induction false} FitsEnds(area: int -> Param, max: nat, at: int) returns (n: nat)
    requires WalkFits(area, max, at)
    ensures var (r, end) := (Run(area, max, at, n), WalkEnd(area, max, at));
            r.Done? && if end.Some? then r.size == 8 * end.value else r.size < 0
    decreases max - 8 * at
  {
    n := 1;
    assert Run(area, max, at, 1) == Turn(area, max, at);
    if Turn(area, max, at).At? {
      n := FitsEnds(area, max, at + area(at).next);
      n := n + 1;
    }
  }

  lemma FitsAgrees(area: int -> Param, max: nat)
    requires WalkFits(area, max, 0)
    ensures Agrees(area, max)
  {
    var n := FitsEnds(area, max, 0);
    SizeIs(area, max, n);
  }

  /** The header whose total is the first one beyond the limit. */
  function WrapAt(area: int -> Param, max: nat, at: int): (h: int)
    requires !WalkFits(area, max, at)
    ensures Within(max, h) && area(h).next > 0 && h + area(h).next >= INT_WORDS
    decreases max - 8 * at
  {
    if at + area(at).next >= INT_WORDS then at else WrapAt(area, max, at + area(at).next)
  }

  lemma {:induction false} WrapReached(area: int -> Param, max: nat, at: int) returns (n: nat)
    requires !WalkFits(area, max, at)
    ensures var h := WrapAt(area, max, at);
            Run(area, max, at, n) == At(h) && WalkEnd(area, max, at) == WalkEnd(area, max, h)
    decreases max - 8 * at
  {
    n := 0;
    if at + area(at).next < INT_WORDS {
      n := WrapReached(area, max, at + area(at).next);
      n := n + 1;
    }
  }

  /** From this total on, the loop ends with an error. */
  ghost predicate RefusedFrom(area: int -> Param, max: nat, at: int) {
    exists n: nat :: Run(area, max, at, n).Done? && Run(area, max, at, n).size < 0
  }

  lemma {:induction false} SizeBelow(area: int -> Param, max: nat, at: int, n: nat)
    ensures Run(area, max, at, n).Done? ==> Run(area, max, at, n).size < 8 * INT_WORDS
    decreases n
  {
    if n > 0 && Turn(area, max, at).At? {
      SizeBelow(area, max, Turn(area, max, at).words, n - 1);
    }
  }

  /** The chain ends, and not before the first parameter. */
  predicate TakenForSize(end: Option<int>) {
    end.Some? && end.value >= 0
  }

  /** Where the loop leads from one total to another, it is refused from both or from none. */
  lemma RefusedShift(area: int -> Param, max: nat, at: int, n: nat, to: int)
    requires Run(area, max, at, n) == At(to)
    ensures RefusedFrom(area, max, at) <==> RefusedFrom(area, max, to)
  {
    if m: nat :| Run(area, max, to, m).Done? && Run(area, max, to, m).size < 0 {
      RunAdd(area, max, at, n, m);
      assert Run(area, max, at, n + m).Done?;
    }
    if m: nat :| Run(area, max, at, m).Done? && Run(area, max, at, m).size < 0 {
      if m <= n {
        RunAdd(area, max, at, m, n - m);
        assert false;
      }
      RunAdd(area, max, at, n, m - n);
      assert Run(area, max, to, m - n).Done?;
    }
  }

  /** Only the value of the turn that ends matters. */
  lemma RefusedBy(area: int -> Param, max: nat, at: int, n: nat)
    requires Run(area, max, at, n).Done?
    ensures RefusedFrom(area, max, at) <==> Run(area, max, at, n).size < 0
  {
    forall m: nat | Run(area, max, at, m).Done? ensures Run(area, max, at, m) == Run(area, max, at, n) {
      if m <= n {
        RunAdd(area, max, at, m, n - m);
      } else {
        RunAdd(area, max, at, n, m - n);
      }
    }
  }

  /**
   Chain by chain, where the loop is refused: from a total whose chain wraps nowhere, unless it ends at a total that is
   taken for a size. From any other, at a last header that wraps if the wrapped total is negative, and at one that is
   not last if it is refused from there; that is so outside the feature.
   */
  lemma RefusedDecide(area: int -> Param, max: nat, at: int)
    ensures WalkFits(area, max, at) ==> (RefusedFrom(area, max, at) <==> !TakenForSize(WalkEnd(area, max, at)))
    ensures !WalkFits(area, max, at) ==>
              var h := WrapAt(area, max, at);
              var to := Wrapped(h + area(h).next);
              RefusedFrom(area, max, at) <==> if area(h).last then to < 0 else RefusedFrom(area, max, to)
    ensures !Within(max, at) ==> RefusedFrom(area, max, at)
  {
    if WalkFits(area, max, at) {
      var n := FitsEnds(area, max, at);
      RefusedBy(area, max, at, n);
    } else {
      var h := WrapAt(area, max, at);
      var n := WrapReached(area, max, at);
      RunAdd(area, max, at, n, 1);
      assert Run(area, max, h, 1) == Turn(area, max, h);
      if area(h).last {
        RefusedBy(area, max, at, n + 1);
      } else {
        RefusedShift(area, max, at, n + 1, Wrapped(h + area(h).next));
      }
    }
  }

  lemma SizeRefused(area: int -> Param, max: nat)
    ensures RefusedFrom(area, max, 0) <==> SizeOf(area, max).Returned? && SizeOf(area, max).size < 0
  {
    if n: nat :| Run(area, max, 0, n).Done? {
      SizeIs(area, max, n);
      RefusedBy(area, max, 0, n);
    }
  }

  lemma WrapTells(area: int -> Param, max: nat)
    requires max <= MAX_SIZE && !WalkFits(area, max, 0)
    ensures var h := WrapAt(area, max, 0);
            Agrees(area, max) <==> !area(h).last && RefusedFrom(area, max, Wrapped(h + area(h).next))
  {
    var h := WrapAt(area, max, 0);
    var n := WrapReached(area, max, 0);
    RunAdd(area, max, 0, n, 1);
    assert Run(area, max, h, 1) == Turn(area, max, h);
    if area(h).last {
      SizeIs(area, max, n + 1);
      assert WalkEnd(area, max, 0) == Some(h + area(h).next);
    } else {
      assert WalkEnd(area, max, h + area(h).next) == None;
      SizeRefused(area, max);
      RefusedDecide(area, max, 0);
    }
  }

  /**
   The result is right if no total reaches 2^31. Otherwise the first header `h` whose total does decides: if it is the
   last one the result is wrong; if not, it is right if and only if the loop is refused from the wrapped total, which
   RefusedDecide answers for every total and which is so for one outside the feature.
   */
  lemma TotalsDecide(area: int -> Param, max: nat)
    requires max <= MAX_SIZE
    ensures WalkFits(area, max, 0) ==> Agrees(area, max)
    ensures !WalkFits(area, max, 0) ==>
              var h := WrapAt(area, max, 0);
              var to := Wrapped(h + area(h).next);
              && (area(h).last ==> !Agrees(area, max))
              && (!area(h).last && !Within(max, to) ==> Agrees(area, max))
              && (!area(h).last && WalkFits(area, max, to) ==>
                    (Agrees(area, max) <==> !TakenForSize(WalkEnd(area, max, to))))
              && (!area(h).last ==> (Agrees(area, max) <==> RefusedFrom(area, max, to)))
  {
    if WalkFits(area, max, 0) {
      FitsAgrees(area, max);
    } else {
      var h := WrapAt(area, max, 0);
      WrapTells(area, max);
      RefusedDecide(area, max, Wrapped(h + area(h).next));
    }
  }

  lemma {:induction false} WalkIsChained(area: int -> Param, max: nat, at: nat, words: nat)
    requires WalkEnd(area, max, at) == Some(words as int)
    ensures Chained(Copied(area, words), at)
    decreases words - at
  {
    if !area(at).last {
      WalkIsChained(area, max, at + area(at).next, words);
    }
  }

  /** Whatever the totals, find_param steps forward in the copy. */
  lemma {:induction false} CopySteps(area: int -> Param, max: nat, at: nat, n: nat, words: nat)
    requires Run(area, max, at, n) == Done(8 * words)
    ensures Stepping(Copied(area, words), at)
    decreases n
  {
    SizeBelow(area, max, at, n);
    if at < words && !area(at).last && at + area(at).next < INT_WORDS {
      CopySteps(area, max, at + area(at).next, n - 1, words);
    }
  }

  /** The headers passed so far, none of them the last, lead from the first one to `at`. */
  ghost predicate Path(area: int -> Param, path: seq<int>, at: int) {
    if path == [] then at == 0 else
      var last := path[|path| - 1];
      && last >= 0 && area(last).next > 0 && !area(last).last && at == last + area(last).next
      && Path(area, path[..|path| - 1], last)
  }

  /** Where all totals fit, the loop follows the chain. */
  lemma {:induction false} TrailPath(area: int -> Param, max: nat, path: seq<int>, at: int)
    requires Trail(area, max, path, at) && WalkFits(area, max, 0)
    ensures at >= 0 && WalkFits(area, max, at) && WalkEnd(area, max, 0) == WalkEnd(area, max, at)
    ensures Path(area, path, at)
    decreases |path|
  {
    if path != [] {
      var (front, last) := (path[..|path| - 1], path[|path| - 1]);
      assert Run(area, max, 0, |front|) == At(last);
      TrailPath(area, max, front, last);
      TrailStep(area, max, front, last);
    }
  }

  lemma HeadersStep(p: seq<Param>, at: nat, next: nat)
    requires at < next < |p| && Chained(p, next) && p[at].next == next - at && !p[at].last
    ensures Chained(p, at) && Stepping(p, at) && Stepping(p, next) && Headers(p, at) == [at] + Headers(p, next)
  {
    ChainedSteps(p, next);
  }

  lemma {:induction false} PathHeaders(area: int -> Param, path: seq<int>, at: nat, p: seq<Param>)
    requires Path(area, path, at) && Chained(p, at) && p == Copied(area, |p|)
    ensures Chained(p, 0) && Stepping(p, 0) && Stepping(p, at) && Headers(p, 0) == path + Headers(p, at)
  {
    ChainedSteps(p, at);
    if path != [] {
      var (front, last) := (path[..|path| - 1], path[|path| - 1]);
      HeadersStep(p, last, at);
      PathHeaders(area, front, last, p);
      Regroup(path, Headers(p, at));
    }
  }

  lemma Regroup(path: seq<int>, rest: seq<int>)
    requires path != []
    ensures path[..|path| - 1] + ([path[|path| - 1]] + rest) == path + rest
  {
  }

  /** The copy after the last turn of the loop, at the header `at`. */
  lemma CopyOf(area: int -> Param, max: nat, path: seq<int>, at: int)
    requires max <= MAX_SIZE && Trail(area, max, path, at) && Turn(area, max, at).Done?
    requires area(at).last && Turn(area, max, at) != Done(ENOENT) && Turn(area, max, at) != Done(EINVAL)
    ensures var size := Turn(area, max, at).size;
            size >= 0 ==>
              && Stepping(Copied(area, size / 8), 0)
              && (WalkFits(area, max, 0) ==>
                    Chained(Copied(area, size / 8), 0) && path + [at] == Headers(Copied(area, size / 8), 0))
  {
    var size := Turn(area, max, at).size;
    TrailStep(area, max, path, at);
    if size >= 0 {
      var words: nat := size / 8;
      CopySteps(area, max, 0, |path| + 1, words);
      if WalkFits(area, max, 0) {
        TrailPath(area, max, path, at);
        WalkIsChained(area, max, at, words);
        PathHeaders(area, path, at, Copied(area, words));
      }
    }
  }

  /**
   dfh_get_param_size for a feature that has parameters, in words of eight bytes. The code does not keep the totals
   that it has met: they are how the loop here ends where that of the code does not.
   */
  method GetParamSize(area: int -> Param, max: nat) returns (r: ParamSize, ghost path: seq<int>)
    requires max <= MAX_SIZE
    ensures r == SizeOf(area, max)
    ensures WalkFits(area, max, 0) ==> Agrees(area, max)
    ensures r.Returned? && r.size >= 0 ==> Stepping(Copied(area, r.size / 8), 0)
    ensures r.Returned? && r.size >= 0 && WalkFits(area, max, 0) ==>
              Chained(Copied(area, r.size / 8), 0) && path == Headers(Copied(area, r.size / 8), 0)
  {
    if WalkFits(area, max, 0) {
      FitsAgrees(area, max);
    }
    path := [];
    var size, met: set<int> := 0, {};
    while 0 <= 8 * size + PARAM_HDR < max
      invariant Trail(area, max, path, size) && forall k :: k in met <==> k in path
      decreases (set k: int | -8 <= k < MAX_SIZE && Within(MAX_SIZE, k)) - met
    {
      if size in met {
        MetTwice(area, max, path, size);
        return Endless, path;
      }
      TrailStep(area, max, path, size);
      var next := area(size).next;
      if next == 0 {
        SizeIs(area, max, |path| + 1);
        return Returned(EINVAL), path;
      }
      met, path := met + {size}, path + [size];
      if area(size).last {
        SizeIs(area, max, |path|);
        CopyOf(area, max, path[..|path| - 1], size);
        size := Wrapped(size + next);
        return Returned(8 * size), path;
      }
      size := Wrapped(size + next);
    }
    TrailStep(area, max, path, size);
    SizeIs(area, max, |path| + 1);
    return Returned(ENOENT), path;
  }

  /** A header of 2^29 - 1 words steps back by one, and so never ends before a header of one word. */
  lemma EndlessTotals(regs: int -> Word, at: nat, max: nat)
    requires regs(at + PARAM_HDR) == 0xFFFF_FFF8_0000_0000 && regs(at + CSR_SIZE_GRP) == 0x8_8000_0000
    requires PARAM_HDR < max
    ensures Decoded(regs).csr(at).hasParams && SizeOf(Decoded(regs).params(at), max) == Endless
  {
    var area := Decoded(regs).params(at);
    assert area(0) == ParamFields(regs(at + PARAM_HDR)) && area(-1) == ParamFields(regs(at + CSR_SIZE_GRP));
    assert Decoded(regs).csr(at) == CsrFields(regs(at + CSR_ADDR), regs(at + CSR_SIZE_GRP));
    assert Turn(area, max, 0) == At(-1) && Turn(area, max, -1) == At(0);
    assert Run(area, max, 0, 2) == At(0);
    forall n: nat ensures Run(area, max, 0, n).At? {
      Cycle(area, max, 0, 2, n);
    }
  }

  /** A chain of 2^29 + 1 words is taken for one of a single word. */
  lemma ShortTotal(regs: int -> Word, at: nat, max: nat)
    requires regs(at + PARAM_HDR) == 0x10_0000_0000 && regs(at + PARAM_HDR + 16) == 0xFFFF_FFF9_0000_0000
    requires PARAM_HDR + 16 < max
    ensures var area := Decoded(regs).params(at);
            SizeOf(area, max) == Returned(8) && WalkEnd(area, max, 0) == Some(0x2000_0001)
  {
    var area := Decoded(regs).params(at);
    assert area(0) == ParamFields(regs(at + PARAM_HDR)) && area(2) == ParamFields(regs(at + PARAM_HDR + 16));
    assert Turn(area, max, 0) == At(2) && Turn(area, max, 2) == Done(8);
    assert Run(area, max, 0, 2) == Done(8);
    SizeIs(area, max, 2);
  }

  /** The first header from `at` on with the wanted id. */
  function FirstWith(p: seq<Param>, at: nat, id: nat): Option<nat>
    requires Stepping(p, at)
    decreases |p| - at
  {
    if at >= |p| then None
    else if p[at].id == id then Some(at)
    else if p[at].last then None
    else FirstWith(p, at + p[at].next, id)
  }

  lemma {:induction false} FirstIsFirst(p: seq<Param>, at: nat, id: nat)
    requires Stepping(p, at)
    ensures var r := FirstWith(p, at, id);
            if r.None? then forall h :: h in Headers(p, at) ==> p[h].id != id
            else r.value in Headers(p, at) && p[r.value].id == id
                 && forall h :: h in Headers(p, at) && h < r.value ==> p[h].id != id
    decreases |p| - at
  {
    if at < |p| && p[at].id != id && !p[at].last {
      FirstIsFirst(p, at + p[at].next, id);
    }
  }

  /** find_param: the first header with the wanted id. */
  method FindParam(p: seq<Param>, id: nat) returns (r: Option<nat>)
    requires Stepping(p, 0)
    ensures r.Some? ==> r.value in Headers(p, 0) && p[r.value].id == id
    ensures r.Some? ==> forall h :: h in Headers(p, 0) && h < r.value ==> p[h].id != id
    ensures r.None? ==> forall h :: h in Headers(p, 0) ==> p[h].id != id
  {
    FirstIsFirst(p, 0, id);
    var at: nat := 0;
    while at < |p|
      invariant Stepping(p, at) && FirstWith(p, 0, id) == FirstWith(p, at, id)
      decreases |p| - at
    {
      if p[at].id == id {
        return Some(at);
      }
      if p[at].last {
        break;
      }
      at := at + p[at].next;
    }
    return None;
  }

  /** In a chain, the data of every header lies in the block. */
  lemma {:induction false} DataInside(p: seq<Param>, at: nat, h: nat)
    requires Chained(p, at) && Stepping(p, at) && h in Headers(p, at)
    ensures h < |p| && 1 <= p[h].next && h + p[h].next <= |p|
    decreases |p| - at
  {
    if p[at].last {
      assert h == at;
    } else if h != at {
      DataInside(p, at + p[at].next, h);
    } else {
      assert at + p[at].next < |p|;
    }
  }

  lemma {:induction false} HeaderSteps(p: seq<Param>, at: nat, h: nat)
    requires Stepping(p, at) && h in Headers(p, at)
    ensures h < |p| && 1 <= p[h].next
    decreases |p| - at
  {
    if h != at {
      HeaderSteps(p, at + p[at].next, h);
    }
  }

  /** dfh_find_param: the data of a parameter, as the words after its header. */
  method FindData(p: seq<Param>, id: nat) returns (r: Option<(nat, nat)>)
    requires Stepping(p, 0)
    ensures r.Some? ==>
              var (from, words) := r.value;
              0 < from <= |p| && p[from - 1].id == id && words == p[from - 1].next - 1 &&
              (Chained(p, 0) ==> from + words <= |p|)
    ensures r.None? ==> forall h :: h in Headers(p, 0) ==> p[h].id != id
  {
    var found := FindParam(p, id);
    if found.None? {
      return None;
    }
    HeaderSteps(p, 0, found.value);
    if Chained(p, 0) {
      DataInside(p, 0, found.value);
    }
    r := Some((found.value + 1, p[found.value].next - 1));
  }

  /** The registers of ShortTotal: one word is copied, and the data of its header lies behind the copy. */
  method DataBehind(regs: int -> Word, at: nat, max: nat) returns (p: seq<Param>, r: Option<(nat, nat)>)
    requires regs(at + PARAM_HDR) == 0x10_0000_0000 && regs(at + PARAM_HDR + 16) == 0xFFFF_FFF9_0000_0000
    requires PARAM_HDR + 16 < max <= MAX_SIZE
    ensures SizeOf(Decoded(regs).params(at), max) == Returned(8) && p == Copied(Decoded(regs).params(at), 1)
    ensures r == Some((1, 1)) && |p| == 1
  {
    var area := Decoded(regs).params(at);
    ShortTotal(regs, at, max);
    p := Copied(area, 1);
    assert p[0] == ParamFields(regs(at + PARAM_HDR));
    assert p[0] == Param(0, 2, false);
    assert Stepping(p, 2) && Headers(p, 2) == [];
    assert Headers(p, 0) == [0] && 0 in Headers(p, 0);
    r := FindData(p, 0);
    assert r.Some? && r.value.0 == 1 && r.value.1 == p[0].next - 1;
  }
}
