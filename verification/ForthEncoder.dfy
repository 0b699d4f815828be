/**
 The encoders of tools/blocks_converter.py: packword packs a text into one word, and
 word_to_long_array packs a text of any length into 28-bit payloads, shrinking the last
 character of a payload where its low bits are zero.
 */
module ForthEncoder {
  import opened Common
  import opened ForthCodec

  /** The number of bits of a text. */
  function Length(w: seq<Letter>): nat {
    if w == [] then 0 else Length(w[..|w| - 1]) + CodeLength(w[|w| - 1])
  }

  /** Two to the number of bits of a text. */
  function Size(w: seq<Letter>): (p: nat)
    ensures p > 0
  {
    if w == [] then 1 else Size(w[..|w| - 1]) * CodeSize(w[|w| - 1])
  }

  /** The codes of a text, written one after the other. */
  function Packed(w: seq<Letter>): nat {
    if w == [] then 0 else Packed(w[..|w| - 1]) * CodeSize(w[|w| - 1]) + Code(w[|w| - 1])
  }

  lemma PackedAppend(w: seq<Letter>, c: Letter)
    ensures Size(w + [c]) == Size(w) * CodeSize(c)
    ensures Packed(w + [c]) == Packed(w) * CodeSize(c) + Code(c)
    ensures Length(w + [c]) == Length(w) + CodeLength(c)
  {
    assert (w + [c])[..|w|] == w;
  }

  /** Appending to a prepended text, in numbers. */
  lemma Regroup(c: nat, s: nat, p: nat, size: nat, code: nat, h: nat)
    ensures (h * s) * size == h * (s * size)
    ensures (c * s + p) * size + code == c * (s * size) + (p * size + code)
  {
    assert (c * s) * size == c * (s * size);
  }

  lemma {:induction false} PackedFront(c: Letter, w: seq<Letter>)
    ensures Size([c] + w) == CodeSize(c) * Size(w) && Packed([c] + w) == Code(c) * Size(w) + Packed(w)
  {
    if w == [] {
      PackedAppend([], c);
      assert [] + [c] == [c] + w;
    } else {
      var (v, d) := (w[..|w| - 1], w[|w| - 1]);
      PackedFront(c, v);
      PackedAppend([c] + v, d);
      PackedAppend(v, d);
      assert [c] + w == [c] + v + [d] && w == v + [d];
      Regroup(Code(c), Size(v), Packed(v), CodeSize(d), Code(d), CodeSize(c));
    }
  }

  lemma BelowProduct(p: nat, s: nat, code: nat, size: nat)
    requires p < s && code < size
    ensures p * size + code < s * size
  {
    assert (p + 1) * size <= s * size;
  }

  lemma {:induction false} PackedBound(w: seq<Letter>)
    ensures Packed(w) < Size(w)
  {
    if w != [] {
      var (v, d) := (w[..|w| - 1], w[|w| - 1]);
      PackedBound(v);
      BelowProduct(Packed(v), Size(v), Code(d), CodeSize(d));
    }
  }

  /** The word `t` holds the text `w`: as binary fractions, t / 2^32 is the concatenated code. */
  ghost predicate Holds(t: nat, w: seq<Letter>) {
    t * Size(w) == Packed(w) * FULL
  }

  /** A fraction below one scales to less than the whole. */
  lemma FractionBound(s: int, p: nat, r: nat)
    requires p > 0 && r < p && s * p == r * FULL
    ensures 0 <= s < FULL
  {
    assert s < 0 ==> s * p < 0;
    assert s >= FULL ==> s * p >= FULL * p;
    assert r * FULL < p * FULL;
  }

  /** The code of a character at the top of a word, with `s` left over. */
  lemma TopCode(t: nat, c: Letter, s: nat)
    requires t * CodeSize(c) == Code(c) * FULL + s && s < FULL
    ensures t < FULL && FirstLetter(t) == c && Rest(t) == s
  {
    ModFull(Code(c), s);
  }

  /** Taking `c` off the front, in numbers. */
  lemma TakeOff(t: nat, h: nat, p: nat, code: nat, r: nat)
    requires t * (h * p) == (code * p + r) * FULL
    ensures (t * h - code * FULL) * p == r * FULL
  {
    assert t * (h * p) == (t * h) * p;
    assert (code * p + r) * FULL == (code * FULL) * p + r * FULL;
    assert (t * h - code * FULL) * p == (t * h) * p - (code * FULL) * p;
  }

  /** Decoding one character of a word that holds `[c] + w` leaves a word that holds `w`. */
  lemma HoldsStep(t: nat, c: Letter, w: seq<Letter>)
    requires Holds(t, [c] + w)
    ensures t < FULL && FirstLetter(t) == c && Holds(Rest(t), w)
  {
    PackedFront(c, w);
    PackedBound(w);
    TakeOff(t, CodeSize(c), Size(w), Code(c), Packed(w));
    var s := t * CodeSize(c) - Code(c) * FULL;
    FractionBound(s, Size(w), Packed(w));
    TopCode(t, c, s);
  }

  predicate AllSpaces(w: seq<Letter>) {
    forall i :: 0 <= i < |w| ==> w[i] == SPACE
  }

  /** A text without its trailing spaces. */
  function Trimmed(w: seq<Letter>): seq<Letter> {
    if AllSpaces(w) then [] else [w[0]] + Trimmed(w[1..])
  }

  lemma {:induction false} SpacesAreZero(w: seq<Letter>)
    ensures Packed(w) == 0 <==> AllSpaces(w)
  {
    if w != [] {
      var (v, d) := (w[..|w| - 1], w[|w| - 1]);
      SpacesAreZero(v);
      assert w == v + [d];
      assert AllSpaces(w) <==> AllSpaces(v) && d == SPACE;
      assert Packed(v) * CodeSize(d) == 0 <==> Packed(v) == 0;
    }
  }

  /** A word decodes to the text it holds, up to trailing spaces. */
  lemma {:induction false} DecodeHolds(t: nat, w: seq<Letter>)
    requires Holds(t, w)
    ensures t < FULL && Decode(t) == Trimmed(w)
    decreases |w|
  {
    SpacesAreZero(w);
    if AllSpaces(w) {
      assert t * Size(w) == 0;
      assert t == 0;
    } else {
      assert w == [w[0]] + w[1..];
      HoldsStep(t, w[0], w[1..]);
      DecodeHolds(Rest(t), w[1..]);
      assert t != 0;
    }
  }

  /** The first character of a word and the rest make up the word. */
  lemma TopSplit(t: nat)
    requires t < FULL
    ensures t * CodeSize(FirstLetter(t)) == Code(FirstLetter(t)) * FULL + Rest(t)
  {
    var c := FirstLetter(t);
    var q := t * CodeSize(c) / FULL;
    if t < 0x8000_0000 {
      assert q == t / 0x1000_0000;
    } else if t < 0xC000_0000 {
      assert q == t / 0x800_0000;
      assert 16 <= q < 24;
    } else {
      assert q == t / 0x200_0000;
      assert t / 0x1000_0000 == q / 8;
      assert 96 <= q < 128;
    }
    assert q == Code(c);
  }

  /** Every word holds its own text, so decoding loses nothing. */
  lemma {:induction false} HoldsDecode(t: nat)
    requires t < FULL
    ensures Holds(t, Decode(t))
    ensures Decode(t) != [] ==> Decode(t)[|Decode(t)| - 1] != SPACE
    decreases Left(t)
  {
    if t != 0 {
      RestShrinks(t);
      var (c, r) := (FirstLetter(t), Rest(t));
      var w := Decode(r);
      HoldsDecode(r);
      TopSplit(t);
      PackedFront(c, w);
      PutBack(t, CodeSize(c), Size(w), Code(c), Packed(w), r);
      assert Decode(t) == [c] + w;
      assert w == [] ==> r == 0;
      assert r == 0 && c == SPACE ==> t * 16 == 0;
    }
  }

  /** Putting `c` back on the front, in numbers. */
  lemma PutBack(t: nat, h: nat, p: nat, code: nat, packed: nat, r: nat)
    requires t * h == code * FULL + r && r * p == packed * FULL
    ensures t * (h * p) == (code * p + packed) * FULL
  {
    assert t * (h * p) == (t * h) * p;
    assert (code * FULL + r) * p == (code * FULL) * p + r * p;
    assert (code * p + packed) * FULL == (code * FULL) * p + packed * FULL;
  }

  predicate EndsInSpace(w: seq<Letter>) {
    w != [] && w[|w| - 1] == SPACE
  }

  lemma {:induction false} TrimmedKeeps(w: seq<Letter>)
    ensures Trimmed(w) == w <==> !EndsInSpace(w)
    ensures |Trimmed(w)| <= |w|
  {
    if !AllSpaces(w) {
      TrimmedKeeps(w[1..]);
      assert w == [w[0]] + w[1..];
    } else if w != [] {
      assert w[|w| - 1] == SPACE;
    }
  }

  /** Exactly one word decodes to a text, and none to a text that ends in a space. */
  lemma DecodeExactly(t: nat, w: seq<Letter>)
    requires t < FULL
    ensures Decode(t) == w <==> Holds(t, w) && !EndsInSpace(w)
  {
    HoldsDecode(t);
    TrimmedKeeps(w);
    if Holds(t, w) {
      DecodeHolds(t, w);
    }
  }

  /** Different words decode to different texts. */
  lemma DecodeInjective(t: nat, u: nat)
    requires t < FULL && u < FULL && Decode(t) == Decode(u)
    ensures t == u
  {
    HoldsDecode(t);
    HoldsDecode(u);
    SameFactor(t, u, Size(Decode(t)));
  }

  /** With the tag bits cleared the two decoders agree on every word, and on a whole word only if they are clear. */
  method DecodersAgree(word: nat) returns (cleared: seq<Letter>, whole: seq<Letter>, python: seq<Letter>)
    requires word < FULL
    ensures cleared == python == Decode(Payload(word))
    ensures whole == python <==> word % 16 == 0
  {
    cleared := PrintText(Payload(word));
    whole := PrintText(word);
    python := Unpack(word);
    if whole == python {
      DecodeInjective(word, Payload(word));
    }
  }

  lemma CodeSizeIsPow(c: Letter)
    ensures CodeSize(c) == Pow(2, CodeLength(c)) && Code(c) < CodeSize(c)
  {
    assert Pow(2, 4) == 16 && Pow(2, 5) == 32 && Pow(2, 7) == 128;
  }

  lemma {:induction false} SizeIsPow(w: seq<Letter>)
    ensures Size(w) == Pow(2, Length(w))
  {
    if w != [] {
      var (v, d) := (w[..|w| - 1], w[|w| - 1]);
      SizeIsPow(v);
      CodeSizeIsPow(d);
      Pow2Add(Length(v), CodeLength(d));
    }
  }

  lemma Distribute(t: nat, piece: nat, size: nat, h: nat, packed: nat, code: nat)
    requires t * size == packed * FULL && piece * (size * h) == code * FULL
    ensures (t + piece) * (size * h) == (packed * h + code) * FULL
  {
    assert (t + piece) * (size * h) == (t * size) * h + piece * (size * h);
    assert (packed * FULL) * h == (packed * h) * FULL;
  }

  /** The number of different 28-bit payloads. */
  const PAYLOADS: nat := 0x1000_0000

  /** The number of bits of a payload. */
  const TEXT_BITS: nat := 28

  /** `packed` holds the characters of `chunk` with `bits` of the 28 bits still free. */
  ghost predicate Partial(packed: nat, bits: nat, chunk: seq<Letter>) {
    && bits <= TEXT_BITS
    && packed * Pow(2, bits) < PAYLOADS
    && Holds(packed * Pow(2, bits) * 16, chunk)
    && (bits > 0 ==> Size(chunk) * Pow(2, bits) == PAYLOADS)
  }

  lemma PartialEmpty()
    ensures Partial(0, TEXT_BITS, [])
  {
    Pow2Full();
    Pow2Add(28, 4);
  }

  /** Does the next character fit: whole, or with its low zero bits cut off? */
  predicate Fits(c: Letter, bits: nat) {
    bits >= CodeLength(c) || (bits > 0 && Code(c) % Pow(2, CodeLength(c) - bits) == 0)
  }

  /** Appending `s` with weight `v` to `packed` with weight `u == n * v` stays below the limit. */
  lemma AppendBound(packed: nat, u: nat, v: nat, n: nat, s: nat, size: nat)
    requires u == n * v && u > 0 && s < n && packed * u < size * u
    ensures (packed * n + s) * v == packed * u + s * v < size * u
  {
    assert packed >= size ==> packed * u >= size * u;
    assert (packed + 1) * u <= size * u;
    assert v > 0 && s * v < n * v;
    assert (packed * n + s) * v == packed * (n * v) + s * v;
  }

  /** The piece `s * v` is worth a code of which `n` are the bits kept and `k` the zeros dropped. */
  lemma PieceWorth(s: nat, v: nat, n: nat, k: nat, size: nat)
    ensures (s * v) * (size * (n * k)) == (s * k) * (size * (n * v))
  {
    calc {
      (s * v) * (size * (n * k));
      s * (v * (size * (n * k)));
      { assert v * (size * (n * k)) == k * (size * (n * v)); }
      s * (k * (size * (n * v)));
      (s * k) * (size * (n * v));
    }
  }

  /** The first `n` bits of a code whose other `k` bits are zero make up the code. */
  ghost predicate KeptBits(c: Letter, n: nat, k: nat, s: nat) {
    CodeSize(c) == Pow(2, n) * Pow(2, k) && Code(c) == s * Pow(2, k) && s < Pow(2, n)
  }

  lemma KeepBits(c: Letter, n: nat, s: nat)
    requires n <= CodeLength(c) && Code(c) == s * Pow(2, CodeLength(c) - n)
    ensures KeptBits(c, n, CodeLength(c) - n, s)
  {
    CodeSizeIsPow(c);
    Pow2Add(n, CodeLength(c) - n);
    SmallPiece(s, Pow(2, CodeLength(c) - n), Pow(2, n));
  }

  /** Appending, in numbers: `packed` with weight `u` holds `held` at size `size`. */
  lemma AppendNumbers(packed: nat, u: nat, v: nat, n: nat, k: nat, s: nat, size: nat, held: nat, next: nat)
    requires u == n * v && u > 0 && s < n && size * u == PAYLOADS && packed * u < PAYLOADS
    requires packed * u * 16 * size == held * FULL && next == packed * n + s
    ensures next * v < PAYLOADS && next * v * 16 * (size * (n * k)) == (held * (n * k) + s * k) * FULL
  {
    AppendBound(packed, u, v, n, s, size);
    PieceWorth(s, v, n, k, size);
    SixteenFold(s * v, size * (n * k), s * k);
    Distribute(packed * u * 16, s * v * 16, size, n * k, held, s * k);
  }

  /** A payload in numbers: `u` is the weight of its free bits. */
  ghost predicate Weighed(packed: nat, u: nat, size: nat, held: nat) {
    u > 0 && packed * u < PAYLOADS && packed * u * 16 * size == held * FULL
  }

  lemma PartialIs(packed: nat, bits: nat, chunk: seq<Letter>, u: nat)
    requires bits <= TEXT_BITS && u == Pow(2, bits)
    ensures Partial(packed, bits, chunk) <==>
            Weighed(packed, u, Size(chunk), Packed(chunk)) && (bits > 0 ==> Size(chunk) * u == PAYLOADS)
  {
  }

  /** Appending `s`, the first `n` bits of the code of `c`, with the other bits zero. */
  lemma Appended(packed: nat, bits: nat, chunk: seq<Letter>, c: Letter, n: nat, k: nat, s: nat, next: nat)
    requires Partial(packed, bits, chunk) && 0 < n <= bits && KeptBits(c, n, k, s)
    requires (k == 0 || n == bits) && next == packed * Pow(2, n) + s
    ensures Partial(next, bits - n, chunk + [c])
  {
    var (u, v, p, q) := (Pow(2, bits), Pow(2, bits - n), Pow(2, n), Pow(2, k));
    Pow2Add(n, bits - n);
    PartialIs(packed, bits, chunk, u);
    PackedAppend(chunk, c);
    AppendedWeight(packed, u, v, p, q, s, Size(chunk), Packed(chunk), next, CodeSize(c), Code(c));
    PartialIs(next, bits - n, chunk + [c], v);
  }

  lemma AppendedWeight(packed: nat, u: nat, v: nat, n: nat, k: nat, s: nat, size: nat, held: nat, next: nat,
                       codes: nat, code: nat)
    requires Weighed(packed, u, size, held) && size * u == PAYLOADS && u == n * v && s < n && next == packed * n + s
    requires codes == n * k && code == s * k
    ensures Weighed(next, v, size * codes, held * codes + code) && (k == 1 ==> (size * codes) * v == PAYLOADS)
  {
    AppendNumbers(packed, u, v, n, k, s, size, held, next);
    Associate(size, n, v);
  }

  lemma Associate(a: nat, b: nat, c: nat)
    ensures (a * b) * c == a * (b * c)
  {
  }

  lemma SmallPiece(s: nat, k: nat, n: nat)
    requires s * k < n * k
    ensures s < n
  {
    assert s >= n ==> s * k >= n * k;
  }

  lemma SixteenFold(piece: nat, size: nat, code: nat)
    requires piece * size == code * PAYLOADS
    ensures (piece * 16) * size == code * FULL
  {
    assert (piece * 16) * size == 16 * (piece * size);
  }

  /** An odd factor leaves no further power of two. */
  lemma OddPart(s: nat, j: nat, k: nat)
    requires s % 2 == 1 && j < k
    ensures (s * Pow(2, j)) % Pow(2, k) != 0
  {
    Pow2Add(j, k - j);
    assert Pow(2, k - j) == 2 * Pow(2, k - j - 1);
    OddMultiple(s, Pow(2, j), Pow(2, k - j - 1));
  }

  lemma OddMultiple(s: nat, p: nat, h: nat)
    requires s % 2 == 1 && p > 0 && h > 0
    ensures p * (2 * h) > 0 && (s * p) % (p * (2 * h)) != 0
  {
    assert p * (2 * h) > 0;
    var (q, m) := (p * (2 * h), s * p / (p * (2 * h)));
    assert s * p == q * m + (s * p) % q;
    assert (s * p) % q == 0 ==> s * p == (2 * (h * m)) * p;
    SameFactor(s, 2 * (h * m), p);
  }

  lemma SameFactor(a: nat, b: nat, p: nat)
    requires p > 0
    ensures a * p == b * p ==> a == b
  {
    assert a < b ==> a * p < b * p;
    assert a > b ==> a * p > b * p;
  }

  lemma Halved(code: nat, s: nat, j: nat)
    requires code == s * Pow(2, j) && s % 2 != 1
    ensures code == (s / 2) * Pow(2, j + 1)
  {
    var (h, p) := (s / 2, Pow(2, j));
    assert s == 2 * h;
    assert (2 * h) * p == h * (2 * p);
  }

  /** The shrinking loop: drop low zero bits until the character fits, or give up at a one. */
  method Shrink(c: Letter, bits: nat) returns (fits: bool, shrunk: nat)
    requires 0 < bits < CodeLength(c)
    ensures fits == Fits(c, bits)
    ensures fits ==> Code(c) == shrunk * Pow(2, CodeLength(c) - bits)
  {
    var n := CodeLength(c);
    shrunk := Code(c);
    while bits < n
      invariant bits <= n <= CodeLength(c)
      invariant Code(c) == shrunk * Pow(2, CodeLength(c) - n)
    {
      if shrunk % 2 == 1 {
        OddPart(shrunk, CodeLength(c) - n, CodeLength(c) - bits);
        return false, shrunk;
      }
      Halved(Code(c), shrunk, CodeLength(c) - n);
      shrunk := shrunk / 2;
      n := n - 1;
    }
    fits := true;
    ExactMultiple(Code(c), shrunk, Pow(2, CodeLength(c) - bits));
  }

  lemma ExactMultiple(x: nat, q: nat, p: nat)
    requires p > 0 && x == q * p
    ensures x % p == 0
  {
    ModUnique(x, p, q, 0);
  }

  lemma WholeCode(c: Letter)
    ensures KeptBits(c, CodeLength(c), 0, Code(c))
  {
    CodeSizeIsPow(c);
  }

  /** The free bits after a character that fits. */
  function FreeAfter(c: Letter, bits: nat): nat {
    if bits >= CodeLength(c) then bits - CodeLength(c) else 0
  }

  /** A payload of 28 bits that is the text `w`. */
  ghost predicate PayloadHolds(p: nat, w: seq<Letter>) {
    p < PAYLOADS && Holds(p * 16, w)
  }

  lemma FitWhole(packed: nat, bits: nat, chunk: seq<Letter>, c: Letter)
    requires Partial(packed, bits, chunk) && bits >= CodeLength(c)
    ensures Partial(packed * Pow(2, CodeLength(c)) + Code(c), bits - CodeLength(c), chunk + [c])
  {
    WholeCode(c);
    Appended(packed, bits, chunk, c, CodeLength(c), 0, Code(c), packed * Pow(2, CodeLength(c)) + Code(c));
  }

  lemma FitShrunk(packed: nat, bits: nat, chunk: seq<Letter>, c: Letter, s: nat)
    requires Partial(packed, bits, chunk) && 0 < bits < CodeLength(c) && Code(c) == s * Pow(2, CodeLength(c) - bits)
    ensures Partial(packed * Pow(2, bits) + s, 0, chunk + [c])
  {
    KeepBits(c, bits, s);
    Appended(packed, bits, chunk, c, bits, CodeLength(c) - bits, s, packed * Pow(2, bits) + s);
  }

  /** The bits of a code that does fit. */
  lemma ShrunkCode(c: Letter, bits: nat) returns (s: nat)
    requires 0 < bits < CodeLength(c) && Fits(c, bits)
    ensures Code(c) == s * Pow(2, CodeLength(c) - bits)
  {
    s := ExactQuotient(Code(c), Pow(2, CodeLength(c) - bits));
  }

  lemma ExactQuotient(x: nat, p: nat) returns (q: nat)
    requires p > 0 && x % p == 0
    ensures x == q * p
  {
    q := x / p;
  }

  /** A character that fits is packed. */
  lemma FitAppends(packed: nat, bits: nat, chunk: seq<Letter>, c: Letter) returns (next: nat)
    requires Partial(packed, bits, chunk) && bits > 0 && Fits(c, bits)
    ensures Partial(next, FreeAfter(c, bits), chunk + [c])
  {
    if bits >= CodeLength(c) {
      next := packed * Pow(2, CodeLength(c)) + Code(c);
      FitWhole(packed, bits, chunk, c);
    } else {
      var s := ShrunkCode(c, bits);
      next := packed * Pow(2, bits) + s;
      FitShrunk(packed, bits, chunk, c, s);
    }
  }

  /** Cancelling in the equation of a held text, whose last code has `h` values and which has `u` left. */
  lemma HeldNumbers(p: nat, size: nat, u: nat, h: nat, held: nat, code: nat)
    requires size > 0 && size * u == PAYLOADS && p * 16 * (size * h) == (held * h + code) * FULL
    ensures p * h == (held * h + code) * u
  {
    var x := held * h + code;
    assert p * 16 * (size * h) == (p * h) * (16 * size);
    assert x * FULL == (x * u) * (16 * size) by {
      assert FULL == u * (16 * size);
    }
    SameFactor(p * h, x * u, 16 * size);
  }

  /** A code of `k * u` values, of which `u` are left, ends in zeros if it is held. */
  lemma HeldEndsInZeros(p: nat, u: nat, k: nat, held: nat, code: nat)
    requires u > 0 && k > 0 && p * (k * u) == (held * (k * u) + code) * u
    ensures code % k == 0
  {
    var x := held * (k * u) + code;
    assert p * (k * u) == (p * k) * u;
    SameFactor(p * k, x, u);
    assert held * (k * u) == (held * u) * k;
    var q := p - held * u;
    assert q * k == code;
    assert q < 0 ==> q * k < 0;
    ExactMultiple(code, q, k);
  }

  /** The character does not fit exactly when no payload at all holds it behind the others. */
  lemma FitsExactly(packed: nat, bits: nat, chunk: seq<Letter>, c: Letter)
    requires Partial(packed, bits, chunk) && bits > 0
    ensures Fits(c, bits) <==> exists p: nat :: PayloadHolds(p, chunk + [c])
  {
    if Fits(c, bits) {
      var next := FitAppends(packed, bits, chunk, c);
      assert PayloadHolds(next * Pow(2, FreeAfter(c, bits)), chunk + [c]);
    }
    if bits < CodeLength(c) {
      if p: nat :| PayloadHolds(p, chunk + [c]) {
        var (u, k) := (Pow(2, bits), Pow(2, CodeLength(c) - bits));
        PackedAppend(chunk, c);
        CodeSizeIsPow(c);
        Pow2Add(CodeLength(c) - bits, bits);
        HeldNumbers(p, Size(chunk), u, CodeSize(c), Packed(chunk), Code(c));
        HeldEndsInZeros(p, u, k, Packed(chunk), Code(c));
      }
    }
  }

  /** Two payloads of texts that differ by a last code of `h` values. */
  lemma HeldDifference(p: nat, q: nat, size: nat, h: nat, held: nat, code: nat)
    requires p * 16 * size == held * FULL && q * 16 * (size * h) == (held * h + code) * FULL
    ensures (q - p) * (size * h) == code * PAYLOADS
  {
    assert (p * 16 * size) * h == 16 * (p * (size * h));
    assert (held * FULL) * h == 16 * ((held * h) * PAYLOADS);
    assert q * 16 * (size * h) == 16 * (q * (size * h));
    assert (held * h + code) * FULL == 16 * ((held * h) * PAYLOADS + code * PAYLOADS);
    assert (q - p) * (size * h) == q * (size * h) - p * (size * h);
  }

  lemma OnlyZero(d: int, size: nat, h: nat, code: nat)
    requires size >= PAYLOADS && code < h && d * (size * h) == code * PAYLOADS
    ensures code == 0
  {
    assert size * h >= PAYLOADS * h > PAYLOADS * code;
    assert d >= 1 ==> d * (size * h) >= size * h;
    assert d <= -1 ==> d * (size * h) < 0;
  }

  /** Behind a full payload nothing is held but spaces. */
  lemma FullHoldsSpace(p: nat, chunk: seq<Letter>, c: Letter, q: nat)
    requires Size(chunk) >= PAYLOADS && PayloadHolds(p, chunk) && PayloadHolds(q, chunk + [c])
    ensures c == SPACE
  {
    PackedAppend(chunk, c);
    CodeSizeIsPow(c);
    HeldDifference(p, q, Size(chunk), CodeSize(c), Packed(chunk), Code(c));
    OnlyZero(q - p, Size(chunk), CodeSize(c), Code(c));
  }

  /** A space is held behind any text: it is zeros, like the unused bits. */
  lemma SpaceIsHeld(p: nat, chunk: seq<Letter>)
    requires PayloadHolds(p, chunk)
    ensures PayloadHolds(p, chunk + [SPACE])
  {
    PackedAppend(chunk, SPACE);
    SixteenTimes(p, Size(chunk), Packed(chunk));
  }

  lemma SixteenTimes(p: nat, size: nat, held: nat)
    requires p * 16 * size == held * FULL
    ensures p * 16 * (size * 16) == (held * 16) * FULL
  {
    assert p * 16 * (size * 16) == (p * 16 * size) * 16;
  }

  /** Packs one more character into the current word, where it fits. */
  method PackLetter(packed: nat, bits: nat, c: Letter, ghost chunk: seq<Letter>)
    returns (fits: bool, next: nat, free: nat)
    requires Partial(packed, bits, chunk) && bits > 0
    ensures fits == Fits(c, bits)
    ensures fits <==> exists p: nat :: PayloadHolds(p, chunk + [c])
    ensures fits ==> Partial(next, free, chunk + [c]) && free == FreeAfter(c, bits)
  {
    FitsExactly(packed, bits, chunk, c);
    var n := CodeLength(c);
    if bits >= n {
      fits, next, free := true, packed * Pow(2, n) + Code(c), bits - n;
      FitWhole(packed, bits, chunk, c);
    } else {
      var shrunk;
      fits, shrunk := Shrink(c, bits);
      next, free := packed * Pow(2, bits) + shrunk, 0;
      if fits {
        FitShrunk(packed, bits, chunk, c, shrunk);
      }
    }
  }
}
