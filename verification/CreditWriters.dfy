/** Bytes of an image as little-endian 32-bit words. */
module ImageWords {
  import opened Common

  /** The number whose bytes these are, the lowest first. */
  function LittleEndian(bytes: seq<Byte>): nat {
    if bytes == [] then 0 else bytes[0] + 256 * LittleEndian(bytes[1..])
  }

  function WordSize(bytes: seq<Byte>): nat {
    if |bytes| < 4 then |bytes| else 4
  }

  /** The words of an image; a last word of fewer than four bytes is filled up with zeros. */
  function Words(bytes: seq<Byte>): seq<nat> {
    if bytes == [] then [] else [LittleEndian(bytes[..WordSize(bytes)])] + Words(bytes[WordSize(bytes)..])
  }

  /** Whole words at the front can be split off anywhere. */
  lemma {:induction false} WordsAppend(a: seq<Byte>, b: seq<Byte>)
    requires |a| % 4 == 0
    ensures Words(a + b) == Words(a) + Words(b)
    decreases |a|
  {
    if a == [] {
      assert a + b == b;
    } else {
      var (c, w) := (a[4..], a[..4]);
      WordsAppend(c, b);
      assert (a + b)[..4] == w && (a + b)[4..] == c + b;
      assert Words(a + b) == [LittleEndian(w)] + Words(c + b);
      assert Words(a) == [LittleEndian(w)] + Words(c);
    }
  }

  /** A byte of the image, or zero behind its end. */
  function ByteAt(bytes: seq<Byte>, k: nat): nat {
    if k < |bytes| then bytes[k] else 0
  }

  /** Every word in bytes, the lowest first. */
  lemma {:induction false} WordBytes(bytes: seq<Byte>, i: nat)
    requires 4 * i < |bytes|
    ensures |Words(bytes)| == (|bytes| + 3) / 4 && i < |Words(bytes)|
    ensures Words(bytes)[i] == ByteAt(bytes, 4 * i) + 0x100 * ByteAt(bytes, 4 * i + 1)
                               + 0x1_0000 * ByteAt(bytes, 4 * i + 2) + 0x100_0000 * ByteAt(bytes, 4 * i + 3)
    decreases |bytes|
  {
    var n := WordSize(bytes);
    var (w, rest) := (bytes[..n], bytes[n..]);
    if i == 0 {
      FourBytes(w);
      if rest != [] {
        WordBytes(rest, 0);
      }
    } else {
      WordBytes(rest, i - 1);
      assert Words(bytes)[i] == Words(rest)[i - 1];
      assert forall k: nat :: ByteAt(rest, k) == ByteAt(bytes, k + 4);
    }
  }

  lemma FourBytes(w: seq<Byte>)
    requires 0 < |w| <= 4
    ensures LittleEndian(w) == ByteAt(w, 0) + 0x100 * ByteAt(w, 1) + 0x1_0000 * ByteAt(w, 2) + 0x100_0000 * ByteAt(w, 3)
  {
    var (a, b, c) := (w[1..], if |w| > 1 then w[2..] else [], if |w| > 2 then w[3..] else []);
    assert LittleEndian(w) == w[0] + 256 * LittleEndian(a);
    if |w| > 1 {
      assert a[1..] == b && LittleEndian(a) == w[1] + 256 * LittleEndian(b);
    }
    if |w| > 2 {
      assert b[1..] == c && LittleEndian(b) == w[2] + 256 * LittleEndian(c);
    }
    if |w| > 3 {
      assert c[1..] == [] && LittleEndian(c) == w[3];
    }
  }

  lemma OneWord(bytes: seq<Byte>)
    requires 0 < |bytes| <= 4
    ensures Words(bytes) == [LittleEndian(bytes)]
  {
    assert bytes[..|bytes|] == bytes && bytes[|bytes|..] == [];
  }

  lemma NextWord(bytes: seq<Byte>, done: nat)
    requires done % 4 == 0 && done + 4 <= |bytes|
    ensures Words(bytes[..done + 4]) == Words(bytes[..done]) + [LittleEndian(bytes[done..done + 4])]
  {
    assert bytes[..done + 4] == bytes[..done] + bytes[done..done + 4];
    WordsAppend(bytes[..done], bytes[done..done + 4]);
    OneWord(bytes[done..done + 4]);
  }

  lemma WordsNext(bytes: seq<Byte>, done: nat, next: nat)
    requires done % 4 == 0 && done <= next <= |bytes|
    ensures Words(bytes[..next]) == Words(bytes[..done]) + Words(bytes[done..next])
  {
    assert bytes[..next] == bytes[..done] + bytes[done..next];
    WordsAppend(bytes[..done], bytes[done..next]);
  }

  /** What lies beyond the low bytes only adds multiples of the mask's size. */
  lemma {:induction false} LittleEndianAppend(a: seq<Byte>, b: seq<Byte>)
    ensures LittleEndian(a + b) == LittleEndian(a) + Pow(256, |a|) * LittleEndian(b)
    ensures LittleEndian(a) < Pow(256, |a|)
  {
    if a == [] {
      assert a + b == b;
    } else {
      LittleEndianAppend(a[1..], b);
      assert (a + b)[1..] == a[1..] + b;
      ScaleUp(Pow(256, |a| - 1), LittleEndian(b));
    }
  }

  lemma ScaleUp(p: nat, x: nat)
    ensures 256 * (p * x) == (256 * p) * x
  {
  }

  /** Masking with the low bytes takes away everything beyond them. */
  lemma MaskedTail(tail: seq<Byte>, beyond: seq<Byte>)
    ensures LittleEndian(tail + beyond) % Pow(256, |tail|) == LittleEndian(tail)
  {
    LittleEndianAppend(tail, beyond);
    SmallRemainder(LittleEndian(tail), Pow(256, |tail|), LittleEndian(beyond));
  }

  lemma SmallRemainder(r: nat, p: nat, q: nat)
    requires r < p
    ensures (r + p * q) % p == r
  {
    var x := r + p * q;
    var d := x / p - q;
    assert x == p * (x / p) + x % p;
    assert p * d == r - x % p;
    assert d >= 1 ==> p * d >= p;
    assert d <= -1 ==> p * d <= 0 - p;
  }
}

/**
 The partial-reconfiguration writer of driverso/fpga/dfl-fme-mgr.c. The engine frees queue entries
 on its own between any two accesses of the driver.
 */
module PartialReconfiguration {
  import opened Common
  import opened ImageWords

  const PR_WAIT_TIMEOUT: int := 8000000

  /** The entries freed before a time. */
  function Total(freed: nat -> nat, time: nat): nat {
    if time == 0 then 0 else Total(freed, time - 1) + freed(time - 1)
  }

  class Engine {
    var credit: nat
    var time: nat
    var data: seq<nat>
    const start: nat
    const freed: nat -> nat

    /** The free entries are those at the start and those freed since, less those taken. */
    ghost predicate Valid()
      reads this
    {
      credit + |data| == start + Total(freed, time)
    }

    /** What the nine-bit field shows at a time at which `pushed` words have been taken. */
    ghost function Shown(time: nat, pushed: nat): int {
      (start + Total(freed, time) - pushed) % 512
    }

    constructor (credit: nat, freed: nat -> nat)
      ensures Valid() && this.credit == start == credit && time == 0 && data == [] && this.freed == freed
    {
      start, this.freed := credit, freed;
      this.credit, time, data := credit, 0, [];
    }

    /** Between two accesses of the driver the engine may free entries. */
    method Pass()
      requires Valid()
      modifies this`credit, this`time
      ensures Valid() && credit == old(credit) + freed(old(time)) && time == old(time) + 1
    {
      credit := credit + freed(time);
      time := time + 1;
    }

    /** Reads the nine-bit credit field: the free entries, if there are fewer than 512. */
    method ReadCredit() returns (c: nat)
      requires Valid()
      modifies this`credit, this`time
      ensures Valid() && c <= credit && credit >= old(credit) && time == old(time) + 1
      ensures c == Shown(time, |data|) && (credit < 512 ==> c == credit)
    {
      Pass();
      c := credit % 512;
    }

    /** Writes the data register: the protocol wants more than one free entry. */
    method Push(word: nat)
      requires Valid() && credit > 1
      modifies this
      ensures Valid() && data == old(data) + [word] && credit >= old(credit) - 1 && time == old(time) + 1
    {
      data := data + [word];
      credit := credit - 1;
      assert credit + |data| == start + Total(freed, time);
      Pass();
    }
  }

  /** Reading again and again from now on, the driver sees more than one entry at the latest at the poll `n`. */
  ghost predicate ShowsBy(engine: Engine, time: nat, pushed: nat, n: nat) {
    exists u: nat :: time < u <= time + n && engine.Shown(u, pushed) > 1
  }

  /** The polling loop: the driver's own count never exceeds the engine's, and it ends as soon as it sees enough. */
  method WaitForCredit(engine: Engine, credit: nat, delay: int, ghost n: nat)
    returns (ok: bool, now: nat, delayed: int)
    requires engine.Valid() && credit <= engine.credit && delay <= PR_WAIT_TIMEOUT + 1
    modifies engine`credit, engine`time
    ensures engine.Valid() && now <= engine.credit && delay <= delayed
    ensures ok ==> now > 1 && delayed <= PR_WAIT_TIMEOUT + 1
    ensures !ok ==> now <= 1 && delayed > PR_WAIT_TIMEOUT + 1
    ensures engine.time - old(engine.time) == delayed - delay - (if ok then 0 else 1)
    ensures credit > 1 ==> ok && delayed == delay && now == credit
    ensures ShowsBy(engine, old(engine.time), |engine.data|, n) ==>
              (ok ==> delayed <= delay + n) && (delay + n <= PR_WAIT_TIMEOUT + 1 ==> ok)
    ensures !ok ==> !ShowsBy(engine, old(engine.time), |engine.data|, PR_WAIT_TIMEOUT + 1 - delay)
    ensures ok && credit <= 1 ==> ShowsBy(engine, old(engine.time), |engine.data|, delayed - delay)
  {
    now, delayed := credit, delay;
    ghost var (t, k) := (engine.time, |engine.data|);
    while now <= 1
      invariant engine.Valid() && now <= engine.credit && delay <= delayed <= PR_WAIT_TIMEOUT + 1
      invariant engine.time - t == delayed - delay
      invariant credit > 1 ==> now == credit && delayed == delay
      invariant forall u: nat :: t < u < engine.time ==> engine.Shown(u, k) <= 1
      invariant t < engine.time ==> now == engine.Shown(engine.time, k)
      invariant t == engine.time ==> now == credit
      decreases PR_WAIT_TIMEOUT + 1 - delayed, now <= 1
    {
      delayed := delayed + 1;
      if delayed - 1 > PR_WAIT_TIMEOUT {
        return false, now, delayed;
      }
      now := engine.ReadCredit();
    }
    ok := true;
  }

  /** The polls allowed for the first `n` words. */
  function Sum(polls: nat -> nat, n: nat): (s: nat)
    ensures n > 0 ==> s >= polls(n - 1)
  {
    if n == 0 then 0 else Sum(polls, n - 1) + polls(n - 1)
  }

  lemma {:induction false} SumGrows(polls: nat -> nat, m: nat, n: nat)
    requires m <= n
    ensures Sum(polls, m) <= Sum(polls, n)
  {
    if m < n {
      SumGrows(polls, m, n - 1);
    }
  }

  /** Whenever it is waited for, before any of `n` words, the engine shows more than one entry in time. */
  ghost predicate Prompt(engine: Engine, from: nat, taken: nat, polls: nat -> nat, n: nat) {
    forall t: nat, k: nat :: t >= from && k < n ==> PromptAt(engine, t, taken, polls, k)
  }

  ghost predicate PromptAt(engine: Engine, t: nat, taken: nat, polls: nat -> nat, k: nat) {
    ShowsBy(engine, t, taken + k, polls(k))
  }

  ghost predicate InTime(engine: Engine, from: nat, taken: nat, polls: nat -> nat, n: nat) {
    Prompt(engine, from, taken, polls, n) && Sum(polls, n) <= PR_WAIT_TIMEOUT + 1
  }

  /** The wait before word `k`. */
  method WaitBefore(engine: Engine, credit: nat, delay: int, ghost from: nat, ghost taken: nat,
                    ghost polls: nat -> nat, ghost k: nat, ghost n: nat) returns (ok: bool, now: nat, delayed: int)
    requires engine.Valid() && credit <= engine.credit && delay <= PR_WAIT_TIMEOUT + 1
    requires k < n && engine.time >= from && |engine.data| == taken + k
    modifies engine`credit, engine`time
    ensures engine.Valid() && now <= engine.credit && delay <= delayed
    ensures ok ==> now > 1 && delayed <= PR_WAIT_TIMEOUT + 1
    ensures engine.time - old(engine.time) == delayed - delay - (if ok then 0 else 1)
    ensures !ok ==> delayed > PR_WAIT_TIMEOUT + 1
    ensures credit > 1 ==> ok && delayed == delay && now == credit
    ensures ok && credit <= 1 ==> ShowsBy(engine, old(engine.time), |engine.data|, delayed - delay)
    ensures InTime(engine, from, taken, polls, n) && delay <= Sum(polls, k) ==> ok && delayed <= Sum(polls, k + 1)
  {
    SumGrows(polls, k + 1, n);
    if Prompt(engine, from, taken, polls, n) {
      assert PromptAt(engine, engine.time, taken, polls, k);
    }
    ok, now, delayed := WaitForCredit(engine, credit, delay, polls(k));
  }

  /** The words of an image, the last one maybe short. */
  function Turns(length: nat): nat {
    (length + 3) / 4
  }

  /** The first `i` words of the image were written. */
  ghost predicate Written(data: seq<nat>, before: seq<nat>, image: seq<Byte>, i: nat) {
    4 * i <= |image| && data == before + Words(image[..4 * i]) && |data| == |before| + i
  }

  lemma WrittenStart(before: seq<nat>, image: seq<Byte>)
    ensures Written(before, before, image, 0)
  {
    assert image[..0] == [];
  }

  lemma WrittenNext(data: seq<nat>, before: seq<nat>, image: seq<Byte>, i: nat)
    requires Written(data, before, image, i) && 4 * i + 4 <= |image|
    ensures Written(data + [LittleEndian(image[4 * i..4 * i + 4])], before, image, i + 1)
  {
    NextWord(image, 4 * i);
  }

  /** More than one entry was seen by the first read or by one of the polls after it. */
  lemma ShownFirst(engine: Engine, from: nat, pushed: nat, first: nat, delay: int)
    requires first == engine.Shown(from + 1, pushed) && 0 <= delay <= PR_WAIT_TIMEOUT + 1
    requires first > 1 || ShowsBy(engine, from + 1, pushed, delay)
    ensures ShowsBy(engine, from, pushed, PR_WAIT_TIMEOUT + 2)
  {
    if first <= 1 {
      var u: nat :| from + 1 < u <= from + 1 + delay && engine.Shown(u, pushed) > 1;
      assert from < u <= from + (PR_WAIT_TIMEOUT + 2);
    }
  }

  /** What the driver knows of its credit and has waited for before word `i`. */
  ghost predicate Turning(engine: Engine, from: nat, taken: nat, polls: nat -> nat, n: nat, i: nat,
                          credit: nat, delay: int)
    reads engine
  {
    && credit <= engine.credit && 0 <= delay <= PR_WAIT_TIMEOUT + 1 && delay <= engine.time - from
    && (InTime(engine, from, taken, polls, n) ==> delay <= Sum(polls, i))
    && (engine.Shown(from + 1, taken) > n ==> credit == engine.Shown(from + 1, taken) - i)
    && (if i == 0 then delay == 0 && engine.time == from + 1 && credit == engine.Shown(from + 1, taken)
        else ShowsBy(engine, from, taken, PR_WAIT_TIMEOUT + 2))
  }

  /** The wait of one turn. */
  method AwaitTurn(engine: Engine, credit: nat, delay: int, ghost from: nat, ghost taken: nat,
                   ghost polls: nat -> nat, ghost n: nat, ghost i: nat) returns (ok: bool, now: nat, delayed: int)
    requires engine.Valid() && Turning(engine, from, taken, polls, n, i, credit, delay)
    requires i < n && |engine.data| == taken + i
    modifies engine`credit, engine`time
    ensures engine.Valid() && engine.time >= old(engine.time)
    ensures ok ==> 1 < now <= engine.credit && 0 <= delayed <= PR_WAIT_TIMEOUT + 1 && delayed <= engine.time - from
    ensures ok ==> ShowsBy(engine, from, taken, PR_WAIT_TIMEOUT + 2)
    ensures ok && InTime(engine, from, taken, polls, n) ==> delayed <= Sum(polls, i + 1)
    ensures ok && engine.Shown(from + 1, taken) > n ==> now == engine.Shown(from + 1, taken) - i
    ensures !ok ==> engine.time - from > PR_WAIT_TIMEOUT && !InTime(engine, from, taken, polls, n)
    ensures !ok ==> engine.Shown(from + 1, taken) <= n
  {
    ok, now, delayed := WaitBefore(engine, credit, delay, from, taken, polls, i, n);
    if ok && i == 0 {
      ShownFirst(engine, from, taken, credit, delayed);
    }
  }

  lemma MoreTurns(i: nat, length: nat)
    requires 4 * i < length
    ensures i < Turns(length)
  {
  }

  /** The next word of the image. */
  method PushWord(engine: Engine, image: seq<Byte>, i: nat, ghost before: seq<nat>)
    requires engine.Valid() && engine.credit > 1 && Written(engine.data, before, image, i) && 4 * i + 4 <= |image|
    modifies engine
    ensures engine.Valid() && Written(engine.data, before, image, i + 1)
    ensures engine.credit >= old(engine.credit) - 1 && engine.time == old(engine.time) + 1
  {
    WrittenNext(engine.data, before, image, i);
    engine.Push(LittleEndian(image[4 * i..4 * i + 4]));
  }

  /** Why the write gave up: it polled for longer than the limit, and the engine was slow and showed few entries. */
  ghost predicate GaveUp(engine: Engine, from: nat, taken: nat, polls: nat -> nat, n: nat)
    reads engine
  {
    && engine.time - from > PR_WAIT_TIMEOUT && !InTime(engine, from, taken, polls, n)
    && engine.Shown(from + 1, taken) <= n
  }

  /** One turn of the loop. */
  method WriteTurn(engine: Engine, image: seq<Byte>, i: nat, credit: nat, delay: int,
                   ghost from: nat, ghost before: seq<nat>, ghost polls: nat -> nat)
    returns (ret: int, now: nat, delayed: int)
    requires engine.Valid() && Written(engine.data, before, image, i) && 4 * i < |image|
    requires Turning(engine, from, |before|, polls, Turns(|image|), i, credit, delay)
    modifies engine
    ensures engine.Valid() && (ret == 0 || ret == EINVAL || ret == ETIMEDOUT)
    ensures Written(engine.data, before, image, if ret == 0 then i + 1 else i)
    ensures ret == 0 ==> Turning(engine, from, |before|, polls, Turns(|image|), i + 1, now, delayed)
    ensures ret == EINVAL ==> |image| < 4 * i + 4
    ensures ret == ETIMEDOUT ==> GaveUp(engine, from, |before|, polls, Turns(|image|))
    ensures ret != ETIMEDOUT ==> ShowsBy(engine, from, |before|, PR_WAIT_TIMEOUT + 2)
  {
    var ok;
    MoreTurns(i, |image|);
    ok, now, delayed := AwaitTurn(engine, credit, delay, from, |before|, polls, Turns(|image|), i);
    if !ok {
      return ETIMEDOUT, now, delayed;
    }
    if |image| - 4 * i < 4 {
      return EINVAL, now, delayed;
    }
    PushWord(engine, image, i, before);
    ret, now := 0, now - 1;
  }

  /** The loop of fme_mgr_write; `i` counts the words. */
  method WriteWords(engine: Engine, image: seq<Byte>, ghost polls: nat -> nat) returns (ret: int, i: nat)
    requires engine.Valid()
    modifies engine
    ensures engine.Valid() && Written(engine.data, old(engine.data), image, i)
    ensures ret == 0 || ret == EINVAL || ret == ETIMEDOUT
    ensures ret == 0 ==> 4 * i == |image|
    ensures ret == EINVAL ==> 4 * i < |image| < 4 * i + 4
    ensures ret == ETIMEDOUT ==> GaveUp(engine, old(engine.time), |old(engine.data)|, polls, Turns(|image|))
    ensures ret != ETIMEDOUT && image != [] ==>
              ShowsBy(engine, old(engine.time), |old(engine.data)|, PR_WAIT_TIMEOUT + 2)
  {
    var delay: int := 0;
    i := 0;
    ghost var (before, from) := (engine.data, engine.time);
    var credit: nat := engine.ReadCredit();
    WrittenStart(before, image);
    while 4 * i < |image|
      invariant engine.Valid() && Written(engine.data, before, image, i)
      invariant Turning(engine, from, |before|, polls, Turns(|image|), i, credit, delay)
    {
      ret, credit, delay := WriteTurn(engine, image, i, credit, delay, from, before, polls);
      if ret != 0 {
        return;
      }
      i := i + 1;
    }
    ret := 0;
  }

  /**
   fme_mgr_write: the words of the image, each once and in order, and never without credit. It does not time out with
   an engine that answers within `polls`, if these are not more than the limit together, and not where the engine
   shows more entries at the start than there are words.
   */
  method FmeWrite(engine: Engine, image: seq<Byte>, ghost polls: nat -> nat) returns (ret: int)
    requires engine.Valid()
    modifies engine
    ensures engine.Valid() && (ret == 0 || ret == EINVAL || ret == ETIMEDOUT)
    ensures ret == ETIMEDOUT ==> engine.time - old(engine.time) > PR_WAIT_TIMEOUT
    ensures ret == 0 ==> |image| % 4 == 0 && engine.data == old(engine.data) + Words(image)
    ensures ret == EINVAL ==>
              |image| % 4 != 0 && engine.data == old(engine.data) + Words(image[..|image| - |image| % 4])
    ensures exists i: nat :: Written(engine.data, old(engine.data), image, i)
    ensures image != [] && !ShowsBy(engine, old(engine.time), |old(engine.data)|, PR_WAIT_TIMEOUT + 2) ==>
              ret == ETIMEDOUT
    ensures InTime(engine, old(engine.time), |old(engine.data)|, polls, Turns(|image|)) ==>
              ret == if |image| % 4 == 0 then 0 else EINVAL
    ensures engine.Shown(old(engine.time) + 1, |old(engine.data)|) > Turns(|image|) ==>
              ret == if |image| % 4 == 0 then 0 else EINVAL
  {
    var i;
    ret, i := WriteWords(engine, image, polls);
    assert image[..|image|] == image;
    if ret == EINVAL {
      assert |image| - |image| % 4 == 4 * i;
    }
  }

  lemma {:induction false} NothingFreed(freed: nat -> nat, time: nat)
    requires forall t: nat :: freed(t) == 0
    ensures Total(freed, time) == 0
  {
    if time > 0 {
      NothingFreed(freed, time - 1);
    }
  }

  /** An engine that shows 200 entries takes a word at once, though it never frees any. */
  method OneWordAtOnce(image: seq<Byte>) returns (engine: Engine, ret: int)
    requires |image| == 4
    ensures ret == 0 && engine.data == [LittleEndian(image)]
  {
    engine := new Engine(200, (t: nat) => 0);
    NothingFreed(engine.freed, 1);
    ret := FmeWrite(engine, image, (k: nat) => 0);
    ImageWords.OneWord(image);
  }

  /** With 512 entries the nine bits show none, and the same write times out. */
  method WrappedCredit(image: seq<Byte>) returns (ret: int)
    requires |image| == 4
    ensures ret == ETIMEDOUT
  {
    var engine := new Engine(512, (t: nat) => 0);
    forall u: nat ensures engine.Shown(u, 0) == 0 {
      NothingFreed(engine.freed, u);
    }
    ret := FmeWrite(engine, image, (k: nat) => 0);
  }
}

/**
 The writer of driverso/fpga/altera-cvp.c. A throttled device shows the low eight bits of the number
 of packets that it has granted so far, and grants more on its own.
 */
module CvpWriter {
  import opened Common
  import opened ImageWords

  const CREDIT_POLLS: nat := 2000

  /** The test of the driver: the low eight bits of the grants and of the packets sent differ. */
  predicate LooksGranted(granted: nat, sent: nat) {
    granted % 256 != sent % 256
  }

  /** The test is right as long as the grants are at most 255 ahead of the packets sent. */
  lemma TestIsRight(granted: nat, sent: nat)
    requires sent <= granted <= sent + 255
    ensures LooksGranted(granted, sent) <==> sent < granted
  {
  }

  /** In general it only tells whether the distance is a multiple of 256. */
  lemma TestExactly(granted: nat, sent: nat)
    requires sent <= granted
    ensures LooksGranted(granted, sent) <==> (granted - sent) % 256 != 0
  {
  }

  /** What the bus and the device answer, access by access. */
  datatype Answers = Answers(readFails: nat -> int, granted: nat -> nat, check: nat -> int)

  /** No read and no check fails. */
  ghost predicate Reliable(answers: Answers) {
    forall t: nat :: answers.readFails(t) == 0 && answers.check(t) == 0
  }

  /** From any time on, a packet is granted before the driver gives up. */
  ghost predicate Generous(answers: Answers) {
    forall t: nat :: GrantsInTime(answers, t)
  }

  ghost predicate GrantsInTime(answers: Answers, time: nat) {
    Grants(answers, time, 2 * CREDIT_POLLS + 1)
  }

  /** The device grants a packet in one of `n` passes. */
  ghost predicate Grants(answers: Answers, time: nat, n: nat) {
    exists t: nat :: time <= t < time + n && answers.granted(t) > 0
  }

  class Device {
    const answers: Answers
    const blockSize: nat
    const throttled: bool
    const checked: bool
    var granted: nat
    var sent: nat
    var words: seq<nat>
    var time: nat

    /** The window that the device keeps: at most 255 packets granted ahead of those sent. */
    ghost predicate Valid()
      reads this
    {
      blockSize > 0 && blockSize % 4 == 0 && (throttled ==> sent <= granted <= sent + 255)
    }

    constructor (answers: Answers, blockSize: nat, throttled: bool, checked: bool)
      requires blockSize > 0 && blockSize % 4 == 0
      ensures Valid() && sent == 0 && words == []
      ensures this.answers == answers && this.blockSize == blockSize &&
              this.throttled == throttled && this.checked == checked
    {
      this.answers, this.blockSize, this.throttled, this.checked := answers, blockSize, throttled, checked;
      granted, sent, words, time := 0, 0, [], 0;
    }

    /** Between two accesses the device may grant packets, up to its window. */
    method Pass()
      requires Valid()
      modifies this`granted, this`time
      ensures Valid() && granted >= old(granted) && time == old(time) + 1
      ensures throttled && answers.granted(old(time)) > 0 ==> granted > sent
      ensures answers.granted(old(time)) == 0 ==> granted == old(granted)
    {
      var more := granted + answers.granted(time);
      granted := if throttled && more > sent + 255 then sent + 255 else more;
      time := time + 1;
    }

    method ReadCredits() returns (ret: int, value: nat)
      requires Valid()
      modifies this`granted, this`time
      ensures Valid() && value == granted % 256 && granted >= old(granted) && ret == answers.readFails(old(time) + 1)
      ensures time == old(time) + 1 && (answers.granted(old(time)) == 0 ==> granted == old(granted))
      ensures throttled && answers.granted(old(time)) > 0 ==> granted > sent
    {
      Pass();
      ret, value := answers.readFails(time), granted % 256;
    }

    /** altera_cvp_chk_error. */
    method CheckError() returns (ret: int)
      requires Valid()
      modifies this`granted, this`time
      ensures Valid() && granted >= old(granted) && ret == answers.check(old(time) + 1)
      ensures time == old(time) + 1 && (answers.granted(old(time)) == 0 ==> granted == old(granted))
      ensures throttled && answers.granted(old(time)) > 0 ==> granted > sent
    {
      Pass();
      ret := answers.check(time);
    }

    /** altera_cvp_v2_wait_for_credit. */
    method WaitForCredit() returns (ret: int)
      requires Valid() && throttled
      modifies this`granted, this`time
      ensures Valid() && (ret == 0 ==> sent < granted)
      ensures old(sent < granted) && answers.readFails(old(time) + 1) == 0 ==> ret == 0
      ensures Reliable(answers) ==>
                (ret == 0 <==> old(sent < granted) || GrantsInTime(answers, old(time)))
      ensures Reliable(answers) && ret != 0 ==> ret == ETIMEDOUT && time == old(time) + 2 * (CREDIT_POLLS + 1)
      ensures time >= old(time)
    {
      var timeout: int := CREDIT_POLLS;
      while true
        invariant Valid() && 0 <= timeout <= CREDIT_POLLS && time == old(time) + 2 * (CREDIT_POLLS - timeout)
        invariant old(sent < granted) && answers.readFails(old(time) + 1) == 0 ==>
                    granted == old(granted) && time == old(time)
        invariant sent < granted <==> old(sent < granted) || Grants(answers, old(time), time - old(time))
        decreases timeout
      {
        var value;
        ret, value := ReadCredits();
        if ret != 0 {
          return;
        }
        if value != sent % 256 {
          TestIsRight(granted, sent);
          return 0;
        }
        TestIsRight(granted, sent);
        ret := CheckError();
        if ret != 0 {
          return EAGAIN;
        }
        if timeout == 0 {
          break;
        }
        timeout := timeout - 1;
      }
      ret := ETIMEDOUT;
    }

    /** altera_cvp_send_block: whole words, then a last one masked down to the bytes that belong to the block. */
    method SendBlock(block: seq<Byte>, beyond: seq<Byte>)
      requires throttled ==> sent < granted
      modifies this`words
      ensures words == old(words) + Words(block)
    {
      var n := |block| / 4;
      assert block[..0] == [];
      for i := 0 to n
        invariant words == old(words) + Words(block[..4 * i])
      {
        NextWord(block, 4 * i);
        words := words + [LittleEndian(block[4 * i..4 * i + 4])];
      }
      var remainder := |block| % 4;
      ghost var (whole, tail) := (block[..4 * n], block[4 * n..]);
      assert block == whole + tail;
      WordsAppend(whole, tail);
      if remainder != 0 {
        MaskedTail(tail, beyond);
        OneWord(tail);
        words := words + [LittleEndian(block[4 * n..] + beyond) % Pow(256, remainder)];
      }
    }

    /** One turn of altera_cvp_write: a credit where the device is throttled, and one block. */
    method WriteBlock(image: seq<Byte>, done: nat, beyond: seq<Byte>) returns (ret: int, next: nat)
      requires Valid() && done < |image| && done % 4 == 0
      modifies this`granted, this`time, this`words, this`sent
      ensures Valid()
      ensures ret == 0 ==>
                next == NextEnd(done, blockSize, |image|) && sent == old(sent) + 1
      ensures ret == 0 ==> words == old(words) + Words(image[done..next])
      ensures ret != 0 ==> words == old(words) && sent == old(sent) && throttled
      ensures time >= old(time)
      ensures Reliable(answers) && GrantsInTime(answers, old(time)) ==> ret == 0
    {
      ret, next := 0, done;
      if throttled {
        ret := WaitForCredit();
        if ret != 0 {
          return;
        }
      }
      var len := if blockSize < |image| - done then blockSize else |image| - done;
      SendBlock(image[done..done + len], if done + len == |image| then beyond else []);
      next := done + len;
      sent := sent + 1;
    }

    /** One turn with the check behind it, which is made where a multiple of 4096 bytes is done. */
    method WriteAndCheck(image: seq<Byte>, done: nat, beyond: seq<Byte>) returns (ret: int, next: nat)
      requires Valid() && done < |image| && done % 4 == 0
      modifies this`granted, this`time, this`words, this`sent
      ensures Valid() && time >= old(time) && (next == done || next == NextEnd(done, blockSize, |image|))
      ensures words == old(words) + Words(image[done..next])
      ensures sent == old(sent) + if next == done then 0 else 1
      ensures ret == 0 ==> next != done
      ensures ret == 0 && checked && next % 4096 == 0 ==> exists t: nat :: answers.check(t) >= 0
      ensures ret != 0 && next != done ==> ret < 0 && checked && next % 4096 == 0
      ensures ret != 0 && next == done ==> throttled
      ensures Reliable(answers) && (throttled ==> Generous(answers)) ==> ret == 0
    {
      if Generous(answers) {
        assert GrantsInTime(answers, time);
      }
      ret, next := WriteBlock(image, done, beyond);
      if ret != 0 {
        return ret, done;
      }
      if checked && next % 4096 == 0 {
        var status := CheckError();
        if status < 0 {
          ret := status;
        }
      }
    }

    /**
     altera_cvp_write: the words of the image, each once and in order, and never more packets than granted. `ends` are
     the ends of the packets; after a check that fails no packet is sent. The error check decides the answer only
     where it is switched on.
     */
    method Write(image: seq<Byte>, beyond: seq<Byte>) returns (ret: int, ghost ends: seq<nat>)
      requires Valid()
      modifies this
      ensures Valid() && Packets(ends, blockSize, |image|)
      ensures Last(ends) <= |image| && (Last(ends) % 4 == 0 || Last(ends) == |image|)
      ensures words == old(words) + Words(image[..Last(ends)]) && sent == old(sent) + |ends|
      ensures ret == 0 ==> Last(ends) == |image| && sent == old(sent) + Blocks(|image|, blockSize)
      ensures !throttled && !checked ==> ret == 0
      ensures Reliable(answers) && (throttled ==> Generous(answers)) ==> ret == 0
      ensures checked && Failing(answers) ==> forall i :: 0 <= i < |ends| - 1 ==> ends[i] % 4096 != 0
      ensures checked && Failing(answers) && !throttled ==> ret < 0
    {
      var done: nat := 0;
      ret, ends := 0, [];
      assert image[..0] == [] && Last(ends) == 0;
      while done < |image|
        invariant Valid() && Packets(ends, blockSize, |image|) && done == Last(ends) <= |image| && ret == 0
        invariant done % 4 == 0 || done == |image|
        invariant words == old(words) + Words(image[..done]) && sent == old(sent) + |ends|
        invariant checked && Failing(answers) ==> forall i :: 0 <= i < |ends| ==> ends[i] % 4096 != 0
      {
        var next;
        ret, next := WriteAndCheck(image, done, beyond);
        WordsNext(image, done, next);
        if next != done {
          PacketsMore(ends, blockSize, |image|, next);
          ends := ends + [next];
        }
        if ret != 0 {
          return;
        }
        done := next;
      }
      assert image[..|image|] == image;
      PacketsCount(ends, blockSize, |image|);
      if checked {
        ret := CheckError();
      }
    }
  }

  /** Every check fails. */
  ghost predicate Failing(answers: Answers) {
    forall t: nat :: answers.check(t) < 0
  }

  /** The end of the packet that starts at `done`. */
  function NextEnd(done: nat, blockSize: nat, length: nat): nat {
    if blockSize < length - done then done + blockSize else length
  }

  function Last(ends: seq<nat>): nat {
    if ends == [] then 0 else ends[|ends| - 1]
  }

  /** The ends of packets of a block each, the last one maybe shorter. */
  ghost predicate Packets(ends: seq<nat>, blockSize: nat, length: nat) {
    forall i :: 0 <= i < |ends| ==> PacketAt(ends, blockSize, length, i)
  }

  ghost predicate PacketAt(ends: seq<nat>, blockSize: nat, length: nat, i: nat)
    requires i < |ends|
  {
    var start := if i == 0 then 0 else ends[i - 1];
    start < length && ends[i] == NextEnd(start, blockSize, length)
  }

  lemma PacketsMore(ends: seq<nat>, blockSize: nat, length: nat, next: nat)
    requires Packets(ends, blockSize, length) && Last(ends) < length && next == NextEnd(Last(ends), blockSize, length)
    ensures Packets(ends + [next], blockSize, length) && Last(ends + [next]) == next
  {
    var more := ends + [next];
    forall i | 0 <= i < |more| ensures PacketAt(more, blockSize, length, i) {
      if i < |ends| {
        assert PacketAt(ends, blockSize, length, i);
      }
    }
  }

  /** All packets together are as many as the blocks of the image. */
  lemma {:induction false} PacketsCount(ends: seq<nat>, blockSize: nat, length: nat)
    requires blockSize > 0 && Packets(ends, blockSize, length)
    ensures |ends| + Blocks(length - Last(ends), blockSize) == Blocks(length, blockSize)
  {
    if ends != [] {
      var (front, k) := (ends[..|ends| - 1], |ends| - 1);
      forall i | 0 <= i < |front| ensures PacketAt(front, blockSize, length, i) {
        assert PacketAt(ends, blockSize, length, i);
      }
      PacketsCount(front, blockSize, length);
      assert PacketAt(ends, blockSize, length, k);
    }
  }

  /** The number of blocks that an image needs. */
  function Blocks(length: int, blockSize: nat): nat
    requires blockSize > 0
    decreases length
  {
    if length <= 0 then 0 else 1 + Blocks(length - blockSize, blockSize)
  }

  /** That is the length in blocks, rounded up. */
  lemma {:induction false} BlocksCover(length: nat, blockSize: nat)
    requires blockSize > 0
    ensures length <= Blocks(length, blockSize) * blockSize < length + blockSize
    decreases length
  {
    if length > 0 {
      if length > blockSize {
        BlocksCover(length - blockSize, blockSize);
      } else {
        assert Blocks(length - blockSize, blockSize) == 0;
      }
      var n := Blocks(length - blockSize, blockSize);
      assert (1 + n) * blockSize == blockSize + n * blockSize;
    }
  }
}
