/**
 The colorForth text code of tools/blocks_converter.py, tools/unpack.py and tools/cf2html.c: a
 prefix code over 48 characters, packed into the upper 28 bits of 32-bit words.
 */
module ForthCodec {
  import opened Common

  const FULL: nat := 0x1_0000_0000

  type Word32 = w: nat | w < FULL

  /** A position in the table " rtoeani" "smcylgfw" "dvpbhxuq" "01234567" "89j-k.z/" ";:!+@*,?". */
  type Letter = c: nat | c < 48

  const SPACE: Letter := 0

  /** The number of bits of a character's code. */
  function CodeLength(c: Letter): nat {
    if c <= 7 then 4 else if c <= 15 then 5 else 7
  }

  /** Two to the code length. */
  function CodeSize(c: Letter): nat {
    if c <= 7 then 16 else if c <= 15 then 32 else 128
  }

  /** The code: 0xxx, 10xxx or 11xxxxx. */
  function Code(c: Letter): nat {
    if c <= 7 then c else if c <= 15 then c + 8 else c + 80
  }

  /** The character that a 32-bit word starts with. */
  function FirstLetter(t: nat): Letter
    requires t < FULL
  {
    if t < 0x8000_0000 then t / 0x1000_0000
    else if t < 0xC000_0000 then 8 + t / 0x800_0000 % 8
    else (t / 0x1000_0000 - 10) * 8 + t / 0x200_0000 % 8
  }

  /** What is left of the word after that character. */
  function Rest(t: nat): nat
    requires t < FULL
  {
    t * CodeSize(FirstLetter(t)) % FULL
  }

  lemma {:induction false} Pow2Add(a: nat, b: nat)
    ensures Pow(2, a + b) == Pow(2, a) * Pow(2, b)
  {
    if a > 0 {
      Pow2Add(a - 1, b);
      TwoTimes(Pow(2, a - 1), Pow(2, b));
    }
  }

  lemma TwoTimes(p: nat, q: nat)
    ensures 2 * (p * q) == (2 * p) * q
  {
  }

  /** How many of the low `n` bits of `t` lie at or above its lowest one bit. */
  function Spread(t: nat, n: nat): (s: nat)
    ensures s <= n
  {
    if n == 0 then 0 else if t % 2 == 1 then n else Spread(t / 2, n - 1)
  }

  lemma {:induction false} SpreadNarrows(t: nat, n: nat)
    requires n > 0
    ensures Spread(t, n - 1) < Spread(t, n) || Spread(t, n) == Spread(t, n - 1) == 0
  {
    if n > 1 && t % 2 == 0 {
      SpreadNarrows(t / 2, n - 1);
    }
  }

  lemma {:induction false} SpreadOfMod(t: nat, n: nat)
    ensures Spread(t % Pow(2, n), n) == Spread(t, n)
  {
    if n > 0 {
      HalfOfMod(t, Pow(2, n - 1));
      SpreadOfMod(t / 2, n - 1);
    }
  }

  lemma {:induction false} SpreadZero(t: nat, n: nat)
    requires t < Pow(2, n)
    ensures Spread(t, n) == 0 <==> t == 0
  {
    if n > 0 {
      SpreadZero(t / 2, n - 1);
    }
  }

  lemma Pow2Full()
    ensures Pow(2, 32) == FULL && Pow(2, 28) * 16 == FULL && Pow(2, 4) == 16 && Pow(2, 5) == 32 && Pow(2, 7) == 128
  {
    assert Pow(2, 8) == 256;
    Pow2Add(8, 8);
    Pow2Add(16, 16);
    Pow2Add(28, 4);
  }

  /** Shifting a word left narrows what is left of it. */
  lemma {:induction false} SpreadShift(t: nat, k: nat, n: nat)
    requires k <= n
    ensures Spread(t * Pow(2, k), n) == Spread(t, n - k)
  {
    if k > 0 {
      assert t * Pow(2, k) == 2 * (t * Pow(2, k - 1));
      SpreadShift(t, k - 1, n - 1);
    }
  }

  lemma {:induction false} SpreadLess(t: nat, n: nat, k: nat)
    requires 0 < k <= n && Spread(t, n) > 0
    ensures Spread(t, n - k) < Spread(t, n)
    decreases k
  {
    if k > 1 {
      SpreadLess(t, n, k - 1);
      SpreadNarrows(t, n - k + 1);
    } else {
      SpreadNarrows(t, n);
    }
  }

  function WordBits(t: nat): nat {
    if t < FULL then 32 else 0
  }

  /** The bits of a 32-bit word down to its lowest one. */
  function Left(t: nat): nat {
    Spread(t, WordBits(t))
  }

  /** Every decoding step leaves less of a non-zero word. */
  lemma RestShrinks(t: nat)
    requires 0 < t < FULL
    ensures Left(Rest(t)) < Left(t)
  {
    var k := CodeLength(FirstLetter(t));
    Pow2Full();
    SpreadOfMod(t * Pow(2, k), 32);
    SpreadShift(t, k, 32);
    SpreadZero(t, 32);
    SpreadLess(t, 32, k);
  }

  /** The text of a 32-bit word. */
  function Decode(t: nat): seq<Letter>
    requires t < FULL
    decreases Left(t)
  {
    if t == 0 then [] else RestShrinks(t); [FirstLetter(t)] + Decode(Rest(t))
  }

  /** One turn of the decoder of tools/cf2html.c: one character and the shift that drops it. */
  method TakeLetter(t: nat) returns (c: Letter, rest: nat)
    requires 0 < t < FULL
    ensures rest < FULL && Decode(t) == [c] + Decode(rest) && Left(rest) < Left(t)
  {
    RestShrinks(t);
    if t < 0x8000_0000 {
      c := t / 0x1000_0000;
      rest := t * 16 % FULL;
    } else if t < 0xC000_0000 {
      c := 8 + t / 0x800_0000 % 8;
      rest := t * 32 % FULL;
    } else {
      c := (t / 0x1000_0000 - 10) * 8 + t / 0x200_0000 % 8;
      rest := t * 128 % FULL;
    }
  }

  /** The decoder of tools/cf2html.c, and print_text of tools/blocks_converter.py. */
  method PrintText(word: nat) returns (out: seq<Letter>)
    requires word < FULL
    ensures out == Decode(word)
  {
    var t := word;
    out := [];
    ghost var whole := Decode(word);
    while t != 0
      invariant 0 <= t < FULL && out + Decode(t) == whole
      decreases Left(t)
    {
      var c, rest := TakeLetter(t);
      assert out + Decode(t) == out + [c] + Decode(rest);
      out := out + [c];
      t := rest;
    }
  }

  /** A word without its four tag bits. */
  function Payload(word: nat): (t: nat)
    ensures t <= word
  {
    word - word % 16
  }

  lemma ModFull(q: nat, r: nat)
    requires r < FULL
    ensures (q * FULL + r) % FULL == r
  {
  }

  /** A nibble below 8 is a whole code. */
  lemma FourBits(t: nat, nibble: nat, r: nat)
    requires t == nibble * 0x1000_0000 + r && r < 0x1000_0000 && nibble < 8
    ensures t < FULL && FirstLetter(t) == nibble && Rest(t) == 16 * r
  {
    ModFull(nibble, 16 * r);
  }

  /** A nibble from 8 to 11 is a code together with the next bit. */
  lemma FiveBits(t: nat, nibble: nat, b: nat, r: nat)
    requires t == nibble * 0x1000_0000 + b * 0x800_0000 + r && r < 0x800_0000 && b <= 1 && 8 <= nibble < 12
    ensures t < FULL && FirstLetter(t) == (nibble - 4) * 2 + b && Rest(t) == 32 * r
  {
    assert t / 0x800_0000 == 2 * nibble + b;
    ModFull(2 * nibble + b, 32 * r);
  }

  /** A nibble from 12 on is a code together with the next three bits. */
  lemma SevenBits(t: nat, nibble: nat, b: nat, r: nat)
    requires t == nibble * 0x1000_0000 + b * 0x200_0000 + r && r < 0x200_0000 && b <= 7 && 12 <= nibble < 16
    ensures t < FULL && FirstLetter(t) == b + 8 * (nibble - 10) && Rest(t) == 128 * r
  {
    assert t / 0x200_0000 == 8 * nibble + b && t / 0x1000_0000 == nibble;
    ModFull(8 * nibble + b, 128 * r);
  }

  lemma NextBit(r: nat, b: nat)
    requires r < 0x1000_0000 && b == if 16 * r >= 0x8000_0000 then 1 else 0
    ensures b * 0x800_0000 <= r < (b + 1) * 0x800_0000 && 16 * r * 2 % FULL == 32 * (r - b * 0x800_0000)
  {
    ModFull(b, 32 * (r - b * 0x800_0000));
  }

  lemma NextThreeBits(r: nat, b: nat)
    requires r < 0x1000_0000 && b == 16 * r / 0x2000_0000
    ensures b <= 7 && b * 0x200_0000 <= r < (b + 1) * 0x200_0000
    ensures 16 * r * 8 % FULL == 128 * (r - b * 0x200_0000)
  {
    ModFull(b, 128 * (r - b * 0x200_0000));
  }

  /** One turn of the decoder of tools/unpack.py: a nibble, then one or three bits more if it asks for them. */
  method TakeNibble(t: nat) returns (c: Letter, rest: nat)
    requires 0 < t < FULL
    ensures rest < FULL && Decode(t) == [c] + Decode(rest) && Left(rest) < Left(t)
  {
    RestShrinks(t);
    c, rest := NibbleCode(t);
  }

  /** The arithmetic of that turn. */
  method NibbleCode(t: nat) returns (c: Letter, rest: nat)
    requires 0 < t < FULL
    ensures c == FirstLetter(t) && rest == Rest(t)
  {
    var nibble := t / 0x1000_0000;
    ghost var r := t % 0x1000_0000;
    assert t == nibble * 0x1000_0000 + r && t * 16 == nibble * FULL + 16 * r;
    ModFull(nibble, 16 * r);
    rest := t * 16 % FULL;
    if nibble < 8 {
      FourBits(t, nibble, r);
      c := nibble;
    } else if nibble < 12 {
      // nibble ^ 0xc is nibble - 4 for the nibbles 8 to 11
      var b := if rest >= 0x8000_0000 then 1 else 0;
      NextBit(r, b);
      FiveBits(t, nibble, b, r - b * 0x800_0000);
      c := (nibble - 4) * 2 + b;
      rest := rest * 2 % FULL;
    } else {
      var b := rest / 0x2000_0000;
      NextThreeBits(r, b);
      SevenBits(t, nibble, b, r - b * 0x200_0000);
      c := b + 8 * (nibble - 10);
      rest := rest * 8 % FULL;
    }
  }

  /** The nibble-based decoder of tools/unpack.py; it clears the tag bits itself. */
  method Unpack(word: nat) returns (text: seq<Letter>)
    requires word < FULL
    ensures text == Decode(Payload(word))
  {
    var coded := Payload(word);
    text := [];
    ghost var whole := Decode(coded);
    while coded != 0
      invariant 0 <= coded < FULL && text + Decode(coded) == whole
      decreases Left(coded)
    {
      var c, rest := TakeNibble(coded);
      assert text + Decode(coded) == text + [c] + Decode(rest);
      text := text + [c];
      coded := rest;
    }
  }
}
