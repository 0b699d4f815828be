/**
 Whole texts in tools/blocks_converter.py: word_to_long_array splits a text into chunks of 28 bits
 and packs one word for each chunk; packword packs a text into exactly one word or fails.
 */
module ForthWords {
  import opened Common
  import opened ForthCodec
  import opened ForthEncoder

  /** The free bits of a payload that holds `w`. */
  function FreeBits(w: seq<Letter>): nat {
    if w == [] then TEXT_BITS else FreeAfter(w[|w| - 1], FreeBits(w[..|w| - 1]))
  }

  /** How many characters of `w` fit into `bits` bits, the last one possibly shrunk. */
  function Take(w: seq<Letter>, bits: nat): (n: nat)
    ensures n <= |w|
    ensures n == 0 <==> w == [] || bits == 0 || !Fits(w[0], bits)
  {
    if w == [] || bits == 0 || !Fits(w[0], bits) then 0
    else 1 + Take(w[1..], FreeAfter(w[0], bits))
  }

  /** The greedy split of a text into chunks of 28 bits. */
  function Chunks(w: seq<Letter>): seq<seq<Letter>> {
    if w == [] then [] else [w[..Take(w, TEXT_BITS)]] + Chunks(w[Take(w, TEXT_BITS)..])
  }

  function Joined(cs: seq<seq<Letter>>): seq<Letter> {
    if cs == [] then [] else cs[0] + Joined(cs[1..])
  }

  lemma JoinedFront(c: seq<Letter>, cs: seq<seq<Letter>>)
    ensures Joined([c] + cs) == c + Joined(cs)
  {
    assert ([c] + cs)[1..] == cs;
  }

  /** The chunks are the whole text, in order. */
  lemma {:induction false} ChunksJoin(w: seq<Letter>)
    ensures Joined(Chunks(w)) == w
    decreases |w|
  {
    if w != [] {
      var n := Take(w, TEXT_BITS);
      ChunksJoin(w[n..]);
      JoinedFront(w[..n], Chunks(w[n..]));
    }
  }

  /** Every chunk is a non-empty text that the payload takes whole. */
  lemma {:induction false} ChunkAt(w: seq<Letter>, i: nat)
    requires i < |Chunks(w)|
    ensures Chunks(w)[i] != [] && Take(Chunks(w)[i], TEXT_BITS) == |Chunks(w)[i]|
    decreases |w|
  {
    var n := Take(w, TEXT_BITS);
    if i == 0 {
      TakePrefix(w, TEXT_BITS);
    } else {
      ChunkAt(w[n..], i - 1);
      assert Chunks(w)[i] == Chunks(w[n..])[i - 1];
    }
  }

  lemma {:induction false} TakePrefix(w: seq<Letter>, bits: nat)
    ensures Take(w[..Take(w, bits)], bits) == Take(w, bits)
    decreases |w|
  {
    var n := Take(w, bits);
    if n > 0 {
      TakePrefix(w[1..], FreeAfter(w[0], bits));
      assert w[..n][1..] == w[1..][..n - 1];
    }
  }

  /** Some payload holds the chunk and one character more. */
  ghost predicate HoldsOneMore(chunk: seq<Letter>, c: Letter) {
    exists p: nat :: PayloadHolds(p, chunk + [c])
  }

  /** A payload is full when the code of its last character reached the last bit. */
  lemma FullSize(packed: nat, bits: nat, chunk: seq<Letter>, c: Letter)
    requires Partial(packed, bits, chunk) && 0 < bits <= CodeLength(c)
    ensures Size(chunk + [c]) >= PAYLOADS
  {
    PackedAppend(chunk, c);
    CodeSizeIsPow(c);
    Pow2Add(bits, CodeLength(c) - bits);
    LargerFactor(Size(chunk), Pow(2, bits), Pow(2, CodeLength(c) - bits));
  }

  lemma LargerFactor(size: nat, u: nat, k: nat)
    requires k > 0
    ensures size * (u * k) >= size * u
  {
    assert u * k >= u;
  }

  /** What the first chunk of a text fills, and why the next character is not in it. */
  lemma FirstChunk(w: seq<Letter>) returns (packed: nat, bits: nat)
    ensures var n := Take(w, TEXT_BITS);
            && Partial(packed, bits, w[..n]) && (bits == 0 ==> Size(w[..n]) >= PAYLOADS)
            && (n < |w| ==> bits == 0 || !Fits(w[n], bits))
  {
    PartialEmpty();
    packed, bits := 0, TEXT_BITS;
    var i := 0;
    assert w[..0] == [] && w[0..] == w;
    while i < |w| && bits > 0 && Fits(w[i], bits)
      invariant 0 <= i <= |w| && Partial(packed, bits, w[..i]) && (bits == 0 ==> Size(w[..i]) >= PAYLOADS)
      invariant Take(w, TEXT_BITS) == i + Take(w[i..], bits)
    {
      var next := FitAppends(packed, bits, w[..i], w[i]);
      if bits <= CodeLength(w[i]) {
        FullSize(packed, bits, w[..i], w[i]);
      }
      assert w[..i + 1] == w[..i] + [w[i]] && w[i..][1..] == w[i + 1..];
      packed, bits, i := next, FreeAfter(w[i], bits), i + 1;
    }
  }

  lemma SpaceFits(bits: nat)
    requires bits > 0
    ensures Fits(SPACE, bits)
  {
    ExactMultiple(0, 0, Pow(2, 4));
  }

  /** The encoder is greedy: a chunk ends only where no payload holds the next character, or where that is a space. */
  lemma FirstIsGreedy(w: seq<Letter>)
    requires Take(w, TEXT_BITS) < |w|
    ensures HoldsOneMore(w[..Take(w, TEXT_BITS)], w[Take(w, TEXT_BITS)]) <==> w[Take(w, TEXT_BITS)] == SPACE
  {
    var n := Take(w, TEXT_BITS);
    var packed, bits := FirstChunk(w);
    if bits > 0 {
      FitsExactly(packed, bits, w[..n], w[n]);
      SpaceFits(bits);
    } else {
      assert packed * Pow(2, 0) == packed;
      assert PayloadHolds(packed, w[..n]);
      SpaceIsHeld(packed, w[..n]);
      if p: nat :| PayloadHolds(p, w[..n] + [w[n]]) {
        FullHoldsSpace(packed, w[..n], w[n], p);
      }
    }
  }

  /** No chunk could take the next character as well, unless that is a space. */
  ghost predicate Greedy(cs: seq<seq<Letter>>) {
    forall i :: 0 <= i < |cs| - 1 ==> GreedyAt(cs, i)
  }

  ghost predicate GreedyAt(cs: seq<seq<Letter>>, i: nat)
    requires i + 1 < |cs|
  {
    cs[i + 1] != [] && (HoldsOneMore(cs[i], cs[i + 1][0]) <==> cs[i + 1][0] == SPACE)
  }

  lemma {:induction false} ChunksGreedy(w: seq<Letter>, i: nat)
    requires i + 1 < |Chunks(w)|
    ensures GreedyAt(Chunks(w), i)
    decreases |w|
  {
    var n := Take(w, TEXT_BITS);
    var rest := Chunks(w[n..]);
    ChunkAt(w, i + 1);
    if i == 0 {
      assert rest[0] == w[n..][..Take(w[n..], TEXT_BITS)];
      FirstIsGreedy(w);
    } else {
      ChunksGreedy(w[n..], i - 1);
      assert Chunks(w)[i] == rest[i - 1] && Chunks(w)[i + 1] == rest[i];
    }
  }

  /** A chunk that stops the encoder: only spaces, and no free bit. */
  predicate Blocks(chunk: seq<Letter>) {
    AllSpaces(chunk) && FreeBits(chunk) == 0
  }

  lemma {:induction false} SpacesTake(w: seq<Letter>, b: nat)
    requires AllSpaces(w)
    ensures Take(w, 4 * b) == if |w| <= b then |w| else b
    decreases |w|
  {
    if w != [] && b > 0 {
      assert w[0] == SPACE && AllSpaces(w[1..]);
      SpacesTake(w[1..], b - 1);
    }
  }

  lemma {:induction false} SpacesFree(w: seq<Letter>)
    requires AllSpaces(w)
    ensures FreeBits(w) == if |w| <= 7 then TEXT_BITS - 4 * |w| else 0
  {
    if w != [] {
      SpacesFree(w[..|w| - 1]);
    }
  }

  /** Among the chunks, the blocking ones are exactly those of seven spaces. */
  lemma BlocksIsSeven(w: seq<Letter>)
    requires Take(w, TEXT_BITS) == |w|
    ensures Blocks(w) <==> AllSpaces(w) && |w| == 7
  {
    if AllSpaces(w) {
      SpacesTake(w, 7);
      SpacesFree(w);
    }
  }

  /** A word that carries one chunk. */
  ghost predicate Carries(word: Word32, chunk: seq<Letter>, tag: nat) {
    word % 16 == tag && Decode(Payload(word)) == Trimmed(chunk)
  }

  /** finish_pack: shift the payload into place and add the tag. */
  method FinishPack(packed: nat, bits: nat, tag: nat, ghost chunk: seq<Letter>) returns (word: Word32)
    requires tag < 16 && Partial(packed, bits, chunk)
    ensures Carries(word, chunk, tag)
  {
    TagBits(packed * Pow(2, bits), tag);
    word := packed * Pow(2, bits) * 16 + tag;
    DecodeHolds(packed * Pow(2, bits) * 16, chunk);
  }

  lemma TagBits(t: nat, tag: nat)
    requires tag < 16 && t < PAYLOADS
    ensures t * 16 + tag < FULL && (t * 16 + tag) % 16 == tag && Payload(t * 16 + tag) == t * 16
  {
  }

  /** The first words carry the first chunks; the tag is on the first word only. */
  ghost predicate Encoded(words: seq<Word32>, cs: seq<seq<Letter>>, tag: nat) {
    |words| <= |cs| && forall i :: 0 <= i < |words| ==> CarriesAt(words, cs, tag, i)
  }

  ghost predicate CarriesAt(words: seq<Word32>, cs: seq<seq<Letter>>, tag: nat, i: nat)
    requires i < |words| <= |cs|
  {
    Carries(words[i], cs[i], if i == 0 then tag else 0) && !Blocks(cs[i])
  }

  /** The words so far carry the chunks of the text before `start`. */
  ghost predicate Emitted(param: seq<Letter>, tag: nat, words: seq<Word32>, start: nat) {
    && start <= |param|
    && Encoded(words, Chunks(param), tag)
    && Chunks(param)[|words|..] == Chunks(param[start..])
  }

  /** The state of word_to_long_array: `param[start..idx]` is in the current payload. */
  ghost predicate Progress(param: seq<Letter>, tag: nat, words: seq<Word32>, start: nat, idx: nat,
                           packed: nat, bits: nat) {
    && start <= idx <= |param|
    && Partial(packed, bits, param[start..idx])
    && bits == FreeBits(param[start..idx])
    && (start < idx ==> bits < TEXT_BITS)
    && Take(param[start..], TEXT_BITS) == idx - start + Take(param[idx..], bits)
    && Emitted(param, tag, words, start)
  }

  lemma ProgressStart(param: seq<Letter>, tag: nat)
    ensures Progress(param, tag, [], 0, 0, 0, TEXT_BITS)
  {
    PartialEmpty();
    assert param[0..] == param && param[0..0] == [];
  }

  /** One more character in the payload. */
  lemma ProgressLetter(param: seq<Letter>, tag: nat, words: seq<Word32>, start: nat, idx: nat, packed: nat, bits: nat,
                       next: nat, free: nat)
    requires Progress(param, tag, words, start, idx, packed, bits) && idx < |param| && bits > 0
    requires Fits(param[idx], bits) && free == FreeAfter(param[idx], bits)
    requires Partial(next, free, param[start..idx] + [param[idx]])
    ensures Progress(param, tag, words, start, idx + 1, next, free)
  {
    var chunk := param[start..idx];
    assert param[start..idx + 1] == chunk + [param[idx]];
    assert (chunk + [param[idx]])[..|chunk|] == chunk;
    assert param[idx..][1..] == param[idx + 1..];
  }

  /** A finished chunk leaves the chunks of the rest. */
  lemma ChunkDone(param: seq<Letter>, start: nat, idx: nat)
    requires start < idx <= |param| && Take(param[start..], TEXT_BITS) == idx - start
    ensures Chunks(param[start..]) == [param[start..idx]] + Chunks(param[idx..])
  {
    var w := param[start..];
    assert w[..idx - start] == param[start..idx] && w[idx - start..] == param[idx..];
  }

  lemma EmittedMore(param: seq<Letter>, tag: nat, words: seq<Word32>, start: nat, idx: nat, word: Word32)
    requires Emitted(param, tag, words, start) && start < idx <= |param|
    requires Take(param[start..], TEXT_BITS) == idx - start && !Blocks(param[start..idx])
    requires Carries(word, param[start..idx], if words == [] then tag else 0)
    ensures Emitted(param, tag, words + [word], idx)
  {
    var cs := Chunks(param);
    ChunkDone(param, start, idx);
    assert cs[|words|..][0] == cs[|words|] == param[start..idx];
    assert cs[|words|..][1..] == cs[|words| + 1..];
    EncodedMore(words, cs, tag, word);
  }

  /** One more word, when no further character fits. */
  lemma ProgressWord(param: seq<Letter>, tag: nat, words: seq<Word32>, start: nat, idx: nat,
                     packed: nat, bits: nat, word: Word32)
    requires Progress(param, tag, words, start, idx, packed, bits) && start < idx
    requires Take(param[idx..], bits) == 0 && (packed != 0 || bits > 0)
    requires Carries(word, param[start..idx], if words == [] then tag else 0)
    ensures Progress(param, tag, words + [word], idx, idx, 0, TEXT_BITS)
  {
    NotBlocked(packed, bits, param[start..idx]);
    EmittedMore(param, tag, words, start, idx, word);
    PartialEmpty();
    assert param[idx..idx] == [];
  }

  lemma NotBlocked(packed: nat, bits: nat, chunk: seq<Letter>)
    requires Partial(packed, bits, chunk) && bits == FreeBits(chunk) && (packed != 0 || bits > 0)
    ensures !Blocks(chunk)
  {
    if AllSpaces(chunk) {
      SpacesHoldZero(packed, bits, chunk);
    }
  }

  lemma SpacesHoldZero(packed: nat, bits: nat, chunk: seq<Letter>)
    requires Partial(packed, bits, chunk)
    ensures packed == 0 <==> AllSpaces(chunk)
  {
    SpacesAreZero(chunk);
    ZeroProduct(packed, Pow(2, bits));
    ZeroProduct(packed * Pow(2, bits) * 16, Size(chunk));
  }

  lemma ZeroProduct(a: nat, b: nat)
    requires b > 0
    ensures a * b == 0 <==> a == 0
  {
  }

  lemma EncodedMore(words: seq<Word32>, cs: seq<seq<Letter>>, tag: nat, word: Word32)
    requires Encoded(words, cs, tag) && |words| < |cs|
    requires Carries(word, cs[|words|], if words == [] then tag else 0) && !Blocks(cs[|words|])
    ensures Encoded(words + [word], cs, tag)
  {
    forall i | 0 <= i < |words| + 1
      ensures CarriesAt(words + [word], cs, tag, i)
    {
      assert i < |words| ==> CarriesAt(words, cs, tag, i);
    }
  }

  /** One turn of the inner loop: one more character, or a finished word. */
  method FillStep(param: seq<Letter>, tag: nat, before: seq<Word32>, from: nat, at: nat, held: nat, room: nat)
    returns (words: seq<Word32>, start: nat, idx: nat, packed: nat, bits: nat)
    requires tag < 16 && Progress(param, tag, before, from, at, held, room) && at < |param| && room > 0
    ensures Progress(param, tag, words, start, idx, packed, bits) && from <= start
    ensures (at < idx && start == from) || (idx == start == at && room < bits == TEXT_BITS)
  {
    var fits, next, free := PackLetter(held, room, param[at], param[from..at]);
    if fits {
      ProgressLetter(param, tag, before, from, at, held, room, next, free);
      words, start, idx, packed, bits := before, from, at + 1, next, free;
    } else {
      var word := FinishPack(held, room, if before == [] then tag else 0, param[from..at]);
      ProgressWord(param, tag, before, from, at, held, room, word);
      words, start, idx, packed, bits := before + [word], at, at, 0, TEXT_BITS;
    }
  }

  /** The inner loop: fill payloads until one has no free bit or the text ends. */
  method FillWords(param: seq<Letter>, tag: nat, before: seq<Word32>, from: nat)
    returns (words: seq<Word32>, start: nat, idx: nat, packed: nat, bits: nat)
    requires tag < 16 && from < |param| && Progress(param, tag, before, from, from, 0, TEXT_BITS)
    ensures Progress(param, tag, words, start, idx, packed, bits) && from <= start < idx
    ensures bits == 0 || idx == |param|
  {
    words, start, idx, packed, bits := before, from, from, 0, TEXT_BITS;
    while bits > 0 && idx < |param|
      invariant Progress(param, tag, words, start, idx, packed, bits) && from <= start
      invariant start == idx ==> idx < |param| && bits == TEXT_BITS
      decreases |param| - idx, TEXT_BITS - bits
    {
      words, start, idx, packed, bits := FillStep(param, tag, words, start, idx, packed, bits);
    }
  }

  /** The text of a sequence of words. */
  function Read(words: seq<Word32>): seq<Letter> {
    if words == [] then [] else Decode(Payload(words[0])) + Read(words[1..])
  }

  predicate NoChunkEndsInSpace(param: seq<Letter>) {
    forall i :: 0 <= i < |Chunks(param)| ==> !EndsInSpace(Chunks(param)[i])
  }

  /** All chunks are carried, except one of spaces at the end of the text. */
  ghost predicate Finished(param: seq<Letter>, tag: nat, words: seq<Word32>) {
    var cs := Chunks(param);
    Encoded(words, cs, tag) && (|words| == |cs| || (|words| + 1 == |cs| && AllSpaces(cs[|words|])))
  }

  /** The encoder waits for ever in front of a chunk that is not the last. */
  ghost predicate Waiting(param: seq<Letter>, tag: nat, words: seq<Word32>) {
    var cs := Chunks(param);
    Encoded(words, cs, tag) && |words| + 1 < |cs| && Blocks(cs[|words|])
  }

  /** What is known where the text of a payload has no further character. */
  lemma PayloadEnds(param: seq<Letter>, tag: nat, words: seq<Word32>, start: nat, idx: nat, packed: nat, bits: nat)
    requires Progress(param, tag, words, start, idx, packed, bits) && start < idx && packed == 0
    requires bits == 0 || idx == |param|
    ensures idx == |param| ==> Finished(param, tag, words)
    ensures idx < |param| ==> Waiting(param, tag, words)
  {
    var cs := Chunks(param);
    ChunkDone(param, start, idx);
    SpacesHoldZero(packed, bits, param[start..idx]);
    assert cs[|words|..][0] == cs[|words|] == param[start..idx];
    assert |cs| - |words| == 1 + |Chunks(param[idx..])|;
  }

  /** The words decode to their chunks up to trailing spaces. */
  ghost predicate Decoded(words: seq<Word32>, cs: seq<seq<Letter>>) {
    && |words| <= |cs|
    && (forall i :: 0 <= i < |words| ==> Decode(Payload(words[i])) == Trimmed(cs[i]))
    && (forall i :: 0 <= i < |cs| ==> cs[i] != [])
  }

  /** Reading gives the text back exactly when every chunk is there and none ends in a space. */
  lemma {:induction false} ReadBack(words: seq<Word32>, cs: seq<seq<Letter>>)
    requires Decoded(words, cs)
    ensures |Read(words)| <= |Joined(cs)|
    ensures Read(words) == Joined(cs) <==> |words| == |cs| && forall i :: 0 <= i < |cs| ==> !EndsInSpace(cs[i])
  {
    if words != [] {
      ReadBack(words[1..], cs[1..]);
      TrimmedKeeps(cs[0]);
      SplitEqual(Trimmed(cs[0]), Read(words[1..]), cs[0], Joined(cs[1..]));
      FirstAndRest(cs);
    } else if cs != [] {
      assert cs[0] != [];
    }
  }

  lemma SplitEqual(a: seq<Letter>, b: seq<Letter>, c: seq<Letter>, d: seq<Letter>)
    requires |a| <= |c| && |b| <= |d|
    ensures a + b == c + d <==> a == c && b == d
  {
    if a + b == c + d {
      assert |a + b| == |c + d|;
      assert a == (a + b)[..|a|] && b == (a + b)[|a|..];
    }
  }

  lemma FirstAndRest(cs: seq<seq<Letter>>)
    requires cs != []
    ensures (forall i :: 0 <= i < |cs| ==> !EndsInSpace(cs[i]))
       <==> !EndsInSpace(cs[0]) && forall i :: 0 <= i < |cs[1..]| ==> !EndsInSpace(cs[1..][i])
  {
    if forall i :: 0 <= i < |cs[1..]| ==> !EndsInSpace(cs[1..][i]) {
      assert forall i :: 1 <= i < |cs| ==> cs[i] == cs[1..][i - 1];
    }
  }

  lemma EncodedDecodes(param: seq<Letter>, tag: nat, words: seq<Word32>)
    requires Encoded(words, Chunks(param), tag)
    ensures Decoded(words, Chunks(param))
  {
    var cs := Chunks(param);
    forall i | 0 <= i < |cs|
      ensures cs[i] != []
    {
      ChunkAt(param, i);
    }
    forall i | 0 <= i < |words|
      ensures Decode(Payload(words[i])) == Trimmed(cs[i])
    {
      assert CarriesAt(words, cs, tag, i);
    }
  }

  predicate BlockedBeforeEnd(cs: seq<seq<Letter>>) {
    exists i :: 0 <= i < |cs| - 1 && Blocks(cs[i])
  }

  /** The encoder waits exactly for texts with a blocking chunk before the last one. */
  lemma WaitsExactly(param: seq<Letter>, tag: nat, words: seq<Word32>, waits: bool)
    requires if waits then Waiting(param, tag, words) else Finished(param, tag, words)
    ensures waits <==> BlockedBeforeEnd(Chunks(param))
  {
    var cs := Chunks(param);
    if !waits {
      forall i | 0 <= i < |cs| - 1
        ensures !Blocks(cs[i])
      {
        assert CarriesAt(words, cs, tag, i);
      }
    } else {
      var n := |words|;
      assert Blocks(cs[n]);
    }
  }

  /** The text comes back exactly when no chunk ends in a space. */
  lemma ReadsBack(param: seq<Letter>, tag: nat, words: seq<Word32>, waits: bool)
    requires if waits then Waiting(param, tag, words) else Finished(param, tag, words)
    ensures !waits && Read(words) == param <==> NoChunkEndsInSpace(param)
  {
    var (cs, n) := (Chunks(param), |words|);
    EncodedDecodes(param, tag, words);
    ChunksJoin(param);
    ReadBack(words, cs);
    if n < |cs| {
      assert cs[n] != [] && AllSpaces(cs[n]);
      assert EndsInSpace(cs[n]);
    }
  }

  /** A text without spaces always comes back, whatever its length. */
  lemma SpaceFree(param: seq<Letter>)
    requires SPACE !in param
    ensures NoChunkEndsInSpace(param)
  {
    forall i | 0 <= i < |Chunks(param)|
      ensures !EndsInSpace(Chunks(param)[i])
    {
      ChunkMember(param, i);
    }
  }

  lemma {:induction false} ChunkMember(w: seq<Letter>, i: nat)
    requires i < |Chunks(w)|
    ensures forall c :: c in Chunks(w)[i] ==> c in w
    decreases |w|
  {
    var n := Take(w, TEXT_BITS);
    if i > 0 {
      ChunkMember(w[n..], i - 1);
      assert Chunks(w)[i] == Chunks(w[n..])[i - 1];
    }
  }

  /** Eight spaces are a chunk of seven, before which the encoder waits for ever, and one more. */
  lemma EightSpaces(w: seq<Letter>)
    requires AllSpaces(w) && |w| == 8
    ensures Chunks(w) == [w[..7], w[7..]] && BlockedBeforeEnd(Chunks(w))
  {
    SpacesTake(w, 7);
    SpacesTake(w[7..], 7);
    SpacesFree(w[..7]);
    assert w[7..][..1] == w[7..] && w[7..][1..] == [];
    assert Chunks(w[7..]) == [w[7..]];
    assert Blocks(Chunks(w)[0]);
  }

  /** A single space is not given back. */
  lemma OneSpace()
    ensures Chunks([SPACE]) == [[SPACE]] && !NoChunkEndsInSpace([SPACE])
  {
    SpacesTake([SPACE], 7);
    assert [SPACE][..1] == [SPACE] && [SPACE][1..] == [];
    assert EndsInSpace(Chunks([SPACE])[0]);
  }

  lemma AllGreedy(w: seq<Letter>)
    ensures Greedy(Chunks(w))
  {
    forall i | 0 <= i < |Chunks(w)| - 1 ensures GreedyAt(Chunks(w), i) {
      ChunksGreedy(w, i);
    }
  }

  /** word_to_long_array for a function with a text parameter; `waits` stands for the endless loop. */
  method WordToLongArray(param: seq<Letter>, tag: nat) returns (words: seq<Word32>, waits: bool)
    requires tag < 16
    ensures Encoded(words, Chunks(param), tag)
    ensures Greedy(Chunks(param))
    ensures waits <==> BlockedBeforeEnd(Chunks(param))
    ensures !waits && Read(words) == param <==> NoChunkEndsInSpace(param)
    ensures SPACE !in param ==> !waits && Read(words) == param
  {
    words, waits := [], false;
    var idx := 0;
    ProgressStart(param, tag);
    while idx < |param|
      invariant Progress(param, tag, words, idx, idx, 0, TEXT_BITS) && !waits
      decreases |param| - idx
    {
      var start, packed, bits;
      words, start, idx, packed, bits := FillWords(param, tag, words, idx);
      if bits != TEXT_BITS && packed != 0 {
        var word := FinishPack(packed, bits, if words == [] then tag else 0, param[start..idx]);
        ProgressWord(param, tag, words, start, idx, packed, bits, word);
        words := words + [word];
      } else {
        PayloadEnds(param, tag, words, start, idx, packed, bits);
        waits := idx < |param|;
        break;
      }
    }
    WaitsExactly(param, tag, words, waits);
    ReadsBack(param, tag, words, waits);
    AllGreedy(param);
    if SPACE !in param {
      SpaceFree(param);
    }
  }

  /** Letters of four bits are taken one by one. */
  lemma {:induction false} TakeShort(w: seq<Letter>, n: nat, bits: nat)
    requires n <= |w| && bits >= 4 * n && forall i :: 0 <= i < n ==> w[i] <= 7
    ensures Take(w, bits) == n + Take(w[n..], bits - 4 * n)
    decreases n
  {
    if n == 0 {
      assert w[0..] == w;
    } else {
      TakeShort(w[1..], n - 1, bits - 4);
      assert w[1..][n - 1..] == w[n..];
    }
  }

  /** The text "rtoean0": the code of the last character loses its three low zeros, and one word carries all of it. */
  method PackSeven(tag: nat) returns (words: seq<Word32>, waits: bool)
    requires tag < 16
    ensures !waits && words == [0x1234_56D0 + tag]
  {
    var text: seq<Letter> := [1, 2, 3, 4, 5, 6, 24];
    words, waits := WordToLongArray(text, tag);
    SevenChunks(text);
    SevenDecodes();
    OneWord(text, tag, words, 0x1234_56D0);
  }

  /** The one word of a text of one chunk. */
  lemma OneWord(w: seq<Letter>, tag: nat, words: seq<Word32>, t: nat)
    requires Chunks(w) == [w] && !EndsInSpace(w) && tag < 16 && Encoded(words, Chunks(w), tag) && Read(words) == w
    requires t < FULL && t % 16 == 0 && Decode(t) == w
    ensures words == [t + tag]
  {
    assert w != [];
    assert CarriesAt(words, Chunks(w), tag, 0);
    TrimmedKeeps(w);
    DecodeInjective(Payload(words[0]), t);
  }

  lemma SevenChunks(w: seq<Letter>)
    requires w == [1, 2, 3, 4, 5, 6, 24]
    ensures Chunks(w) == [w] && !EndsInSpace(w)
  {
    TakeShort(w, 6, TEXT_BITS);
    assert w[6..] == [24] && Code(24) == 104 && Pow(2, 3) == 8;
    assert Fits(24, 4) && FreeAfter(24, 4) == 0;
    assert [24][1..] == [] && Take([24], 4) == 1;
    assert w[..7] == w && w[7..] == [];
    assert Chunks(w) == [w[..7]] + Chunks(w[7..]);
  }

  lemma SevenDecodes()
    ensures Decode(0x1234_56D0) == [1, 2, 3, 4, 5, 6, 24]
  {
    assert Rest(0xD000_0000) == 0 && FirstLetter(0xD000_0000) == 24;
    assert Decode(0xD000_0000) == [24];
    assert Rest(0x6D00_0000) == 0xD000_0000 && Decode(0x6D00_0000) == [6] + Decode(0xD000_0000);
    assert Rest(0x56D0_0000) == 0x6D00_0000 && Decode(0x56D0_0000) == [5] + Decode(0x6D00_0000);
    assert Rest(0x456D_0000) == 0x56D0_0000 && Decode(0x456D_0000) == [4] + Decode(0x56D0_0000);
    assert Rest(0x3456_D000) == 0x456D_0000 && Decode(0x3456_D000) == [3] + Decode(0x456D_0000);
    assert Rest(0x2345_6D00) == 0x3456_D000 && Decode(0x2345_6D00) == [2] + Decode(0x3456_D000);
    assert Rest(0x1234_56D0) == 0x2345_6D00 && Decode(0x1234_56D0) == [1] + Decode(0x2345_6D00);
  }

  /** Seven letters fill a payload: the space behind them is a chunk of its own, although the same payload holds it. */
  lemma SpaceLeftOut(w: seq<Letter>)
    requires |w| == 8 && w[7] == SPACE && forall i :: 0 <= i < 7 ==> w[i] == 1
    ensures Chunks(w) == [w[..7], [SPACE]] && HoldsOneMore(w[..7], SPACE)
  {
    TakeShort(w, 7, TEXT_BITS);
    assert w[7..] == [SPACE] && Take(w, TEXT_BITS) == 7;
    OneSpace();
    FirstIsGreedy(w);
  }

  /** The texts that fit into one word: 28 bits, or up to four bits more if those are zero. */
  predicate Packable(w: seq<Letter>) {
    && !EndsInSpace(w)
    && (Length(w) <= TEXT_BITS || (Length(w) <= TEXT_BITS + 4 && Packed(w) % Pow(2, Length(w) - TEXT_BITS) == 0))
  }

  /** The shifted code fills a word and holds the text. */
  lemma ShiftedHolds(w: seq<Letter>, shift: nat)
    requires Length(w) + shift == TEXT_BITS + 4
    ensures Packed(w) * Pow(2, shift) < FULL && Holds(Packed(w) * Pow(2, shift), w)
  {
    SizeIsPow(w);
    PackedBound(w);
    Pow2Add(Length(w), shift);
    Pow2Full();
    SmallerFactor(Packed(w), Size(w), Pow(2, shift));
  }

  lemma SmallerFactor(a: nat, b: nat, p: nat)
    requires a < b && p > 0
    ensures a * p < b * p && (a * p) * b == a * (b * p)
  {
  }

  lemma SixteenDivides(x: nat, p: nat)
    ensures x * (p * 16) % 16 == 0
  {
    assert x * (p * 16) == (x * p) * 16;
  }

  lemma LongShift(x: nat, n: nat)
    ensures x * Pow(2, n + 4) % 16 == 0
  {
    Pow2Add(n, 4);
    assert Pow(2, 4) == 16;
    SixteenDivides(x, Pow(2, n));
  }

  lemma ShortShift(x: nat, shift: nat)
    requires shift <= 4
    ensures x * Pow(2, shift) % 16 == 0 <==> x % Pow(2, 4 - shift) == 0
  {
    Pow2Add(shift, 4 - shift);
    assert Pow(2, 4) == 16;
    ScaledMultiple(x, Pow(2, 4 - shift), Pow(2, shift));
  }

  /** Shifting by four bits or more clears the tag; by less, the low code bits must be zero. */
  lemma TagClear(w: seq<Letter>, shift: nat)
    requires Length(w) + shift == TEXT_BITS + 4
    ensures Packed(w) * Pow(2, shift) % 16 == 0 <==>
            Length(w) <= TEXT_BITS || Packed(w) % Pow(2, Length(w) - TEXT_BITS) == 0
  {
    if Length(w) <= TEXT_BITS {
      LongShift(Packed(w), shift - 4);
    } else {
      ShortShift(Packed(w), shift);
    }
  }

  lemma ScaledMultiple(x: nat, p: nat, q: nat)
    requires p > 0 && q > 0
    ensures q * p > 0 && (x * q % (q * p) == 0 <==> x % p == 0)
  {
    var (m, r) := (x / p, x % p);
    assert x * q == m * (q * p) + r * q;
    assert r * q < q * p;
    ModUnique(x * q, q * p, m, r * q);
  }

  /** Exactly one word holds a text, so cutting the tag off must change nothing. */
  lemma PackableExactly(w: seq<Letter>, shift: nat, t: nat)
    requires Length(w) + shift == TEXT_BITS + 4 && t == Packed(w) * Pow(2, shift)
    ensures t < FULL
    ensures Decode(Payload(t)) == w <==> Packable(w)
    ensures Packable(w) ==> Payload(t) == t
  {
    ShiftedHolds(w, shift);
    TagClear(w, shift);
    DecodeExactly(Payload(t), w);
    SameFactor(Payload(t), t, Size(w));
  }

  /** A text of the letter with code 1, four bits each. */
  lemma {:induction false} OnesLength(w: seq<Letter>)
    requires forall i :: 0 <= i < |w| ==> w[i] == 1
    ensures Length(w) == 4 * |w| && (w != [] ==> Packed(w) % 16 == 1)
  {
    if w != [] {
      OnesLength(w[..|w| - 1]);
    }
  }

  /** Eight of them have 32 bits; the last four are not zero, and so they are not ignored. */
  lemma EightLetters(w: seq<Letter>)
    requires |w| == 8 && forall i :: 0 <= i < |w| ==> w[i] == 1
    ensures Length(w) == TEXT_BITS + 4 && !Packable(w)
  {
    OnesLength(w);
    assert Pow(2, 4) == 16;
  }

  datatype PackResult = Word(word: Word32) | NegativeShift | Mismatch(word: Word32)

  /** packword: one word for the whole text, decoded again before it is returned. */
  method Packword(w: seq<Letter>) returns (r: PackResult)
    ensures r.Word? <==> Packable(w)
    ensures r.Word? ==> r.word % 16 == 0 && Decode(r.word) == w
    ensures r.NegativeShift? <==> Length(w) > TEXT_BITS + 4
  {
    var packed, bits: int := 0, TEXT_BITS;
    for i := 0 to |w|
      invariant packed == Packed(w[..i]) && bits == TEXT_BITS - Length(w[..i])
    {
      PackedAppend(w[..i], w[i]);
      assert w[..i + 1] == w[..i] + [w[i]];
      packed := packed * CodeSize(w[i]) + Code(w[i]);
      bits := bits - CodeLength(w[i]);
    }
    assert w[..|w|] == w;
    if bits + 4 < 0 {
      return NegativeShift;
    }
    packed := packed * Pow(2, bits + 4);
    PackableExactly(w, bits + 4, packed);
    var text := Unpack(packed);
    r := if text != w then Mismatch(packed) else Word(packed);
  }
}
