/** The encrypted stream byte by byte. */
module StreamFormat {
  import opened Common
  import opened CryptoStream

  function U32Le(b: ByteString, at: nat): int
    requires at + 4 <= |b|
  {
    b[at] as int + b[at + 1] as int * 256 + b[at + 2] as int * 65536 + b[at + 3] as int * 16777216
  }

  function U32Be(b: ByteString, at: nat): int
    requires at + 4 <= |b|
  {
    b[at] as int * 16777216 + b[at + 1] as int * 65536 + b[at + 2] as int * 256 + b[at + 3] as int
  }

  predicate HeaderIs(b: ByteString, h: Header) {
    && |b| == 45
    && b[0] == h.version && b[1..33] == h.publicKey && b[33..41] == h.noncePrefix && U32Le(b, 41) == h.chunkSize
  }

  predicate NonceIs(b: ByteString, h: Header, index: nat) {
    |b| == 12 && b[..8] == h.noncePrefix && U32Be(b, 8) == index
  }

  /** The magic, the header, the index and the frame header. */
  predicate AadIs(b: ByteString, h: Header, index: nat, flags: Byte, len: nat) {
    && |b| == 62
    && b[..8] == [0x64, 0x73, 0x74, 0x6b, 0x73, 0x63, 0x72, 0x74]
    && HeaderIs(b[8..53], h)
    && U32Le(b, 53) == index && b[57] == flags && U32Le(b, 58) == len
  }

  /** A flag byte, 1 in the last frame and 0 in the others, the length, and the chunk sealed with its tag. */
  ghost predicate IsFrame(
    aead: Aead, key: ByteString, h: Header, index: nat, final: bool, chunk: ByteString, b: ByteString)
  {
    && |b| == 5 + |chunk| + 16
    && b[0] == (if final then 1 else 0) && U32Le(b, 1) == |chunk|
    && exists nonce, aad :: NonceIs(nonce, h, index) && AadIs(aad, h, index, b[0], |chunk|)
                         && b[5..] == aead.seal(key, nonce, aad, chunk)
  }

  // ----- the pieces -----

  lemma LeIs(v: Word32, b: ByteString, at: nat)
    requires at + 4 <= |b| && b[at..at + 4] == Le(v, 4)
    ensures U32Le(b, at) == v
  {
    var c := b[at..at + 4];
    assert c[0] == b[at] && c[1] == b[at + 1] && c[2] == b[at + 2] && c[3] == b[at + 3];
    LeBytes(v);
  }

  lemma LeBytes(v: Word32)
    ensures var c := Le(v, 4); U32Le(c, 0) == v
  {
    WordSizes();
    LeRoundTrip(v, 4);
    var c := Le(v, 4);
    hide Le;
    FromLeBytes(c);
  }

  lemma FromLeBytes(c: ByteString)
    requires |c| == 4
    ensures FromLe(c) == U32Le(c, 0)
  {
    var c1, c2, c3 := c[1..], c[2..], c[3..];
    assert c1[1..] == c2 && c2[1..] == c3 && c3[1..] == [];
    assert FromLe(c3) == c[3];
    assert FromLe(c2) == c[2] as int + 256 * FromLe(c3);
    assert FromLe(c1) == c[1] as int + 256 * FromLe(c2);
  }

  lemma HeaderLayout(h: Header)
    requires WellFormed(h)
    ensures HeaderIs(HeaderBytes(h), h)
  {
    hide Le;
    var b := HeaderBytes(h);
    assert b[1..33] == h.publicKey && b[33..41] == h.noncePrefix && b[41..45] == Le(h.chunkSize, 4);
    LeIs(h.chunkSize, b, 41);
  }

  lemma NonceLayout(h: Header, index: Word32)
    requires WellFormed(h)
    ensures NonceIs(Nonce(h.noncePrefix, index), h, index)
  {
    var b := Nonce(h.noncePrefix, index);
    BigEndianReadsBack(index);
    hide BigEndian;
    var e := BigEndian(index);
    assert b[8] == e[0] && b[9] == e[1] && b[10] == e[2] && b[11] == e[3];
  }

  lemma AadLayout(h: Header, index: Word32, flags: Byte, len: Word32)
    requires WellFormed(h)
    ensures AadIs(Aad(h, index, FrameHeaderBytes(flags, len)), h, index, flags, len)
  {
    hide Le, HeaderBytes, HeaderIs, U32Le;
    var b := Aad(h, index, FrameHeaderBytes(flags, len));
    HeaderLayout(h);
    assert b[..8] == STREAM_MAGIC && b[8..53] == HeaderBytes(h) && b[53..57] == Le(index, 4);
    assert b[57] == flags && b[58..62] == Le(len, 4);
    LeIs(index, b, 53);
    LeIs(len, b, 58);
  }

  lemma FrameLayout(aead: Aead, key: ByteString, h: Header, index: Word32, final: bool, chunk: ByteString)
    requires Correct(aead) && WellFormed(h) && |chunk| < 0x1_0000_0000
    ensures IsFrame(aead, key, h, index, final, chunk, Frame(aead, key, h, index, final, chunk))
  {
    var flags: Byte := if final then 1 else 0;
    var nonce, aad := Nonce(h.noncePrefix, index), Aad(h, index, FrameHeaderBytes(flags, |chunk|));
    var sealed := aead.seal(key, nonce, aad, chunk);
    NonceLayout(h, index);
    AadLayout(h, index, flags, |chunk|);
    hide Le, Nonce, Aad, NonceIs, AadIs, U32Le;
    var b := Frame(aead, key, h, index, final, chunk);
    assert |sealed| == |chunk| + 16;
    assert b[0] == flags && b[1..5] == Le(|chunk|, 4) && b[5..] == sealed;
    LeIs(|chunk|, b, 1);
  }

  // ----- the whole stream -----

  function Times(k: nat, n: nat): nat {
    k * n
  }

  lemma TimesNext(k: nat, n: nat)
    ensures Times(0, n) == 0 && Times(k + 1, n) == Times(k, n) + n
  {
    assert (k + 1) * n == k * n + n;
  }

  /** The chunks of a text, in closed form. */
  function Chunk(text: ByteString, size: nat, k: nat): (r: ByteString)
    requires Times(k, size) <= |text|
    ensures |r| <= size
  {
    var at := Times(k, size);
    if |text| - at < size then text[at..] else text[at..at + size]
  }

  /** A text has more than `k` chunks only if `k` of them fill up; only the last may be short. */
  lemma {:induction false} ChunkAt(text: ByteString, size: nat, k: nat)
    requires size > 0 && k < ChunkCount(text, size)
    ensures Times(k, size) <= |text|
    ensures k == ChunkCount(text, size) - 1 <==> |text| - Times(k, size) <= size
    decreases |text|
  {
    hide Times;
    TimesNext(k, size);
    if k > 0 {
      ChunkAt(text[size..], size, k - 1);
      TimesNext(k - 1, size);
    } else if |text| > size {
      AtLeastOne(text[size..], size);
    }
  }

  lemma ChunkFirst(text: ByteString, size: nat)
    requires size > 0
    ensures Times(0, size) == 0 && Chunk(text, size, 0) == if |text| <= size then text else text[..size]
  {
    TimesNext(0, size);
    hide Times;
  }

  lemma ChunkLater(text: ByteString, size: nat, k: nat)
    requires size > 0 && |text| >= size && Times(k, size) <= |text| - size
    ensures Times(k + 1, size) == Times(k, size) + size
    ensures Chunk(text, size, k + 1) == Chunk(text[size..], size, k)
  {
    TimesNext(k, size);
    hide Times;
    var at := Times(k, size);
    if |text| - at - size >= size {
      assert text[size..][at..at + size] == text[at + size..at + size + size];
    } else {
      assert text[size..][at..] == text[at + size..];
    }
  }

  /** `frames` holds `frame` at `at`, and ends there if it is the last. */
  predicate Holds(frames: ByteString, at: nat, frame: ByteString, final: bool) {
    at + |frame| <= |frames| && frames[at..at + |frame|] == frame && (final ==> at + |frame| == |frames|)
  }

  lemma HoldsFirst(first: ByteString, rest: ByteString)
    ensures Holds(first, 0, first, true) && Holds(first + rest, 0, first, false)
  {
    assert (first + rest)[..|first|] == first;
  }

  lemma HoldsLater(first: ByteString, rest: ByteString, at: nat, frame: ByteString, final: bool)
    requires Holds(rest, at, frame, final)
    ensures Holds(first + rest, |first| + at, frame, final)
  {
    assert (first + rest)[|first| + at..|first| + at + |frame|] == rest[at..at + |frame|];
  }

  /** Frame `k` is where it should be. */
  predicate Placed(aead: Aead, key: ByteString, h: Header, index: nat, text: ByteString, frames: ByteString, k: nat)
    requires h.chunkSize > 0 && index + k < 0x1_0000_0000 && Times(k, h.chunkSize) <= |text|
  {
    var final := k == ChunkCount(text, h.chunkSize) - 1;
    Holds(frames, Times(k, 21 + h.chunkSize), Frame(aead, key, h, index + k, final, Chunk(text, h.chunkSize, k)), final)
  }

  lemma PlacedLast(aead: Aead, key: ByteString, h: Header, index: nat, text: ByteString)
    requires h.chunkSize > 0 && index < 0x1_0000_0000 && |text| <= h.chunkSize
    ensures Times(0, h.chunkSize) == 0
    ensures Placed(aead, key, h, index, text, Frame(aead, key, h, index, true, text), 0)
  {
    ChunkFirst(text, h.chunkSize);
    TimesNext(0, 21 + h.chunkSize);
    hide Frame, Chunk, Times, Holds;
    HoldsFirst(Frame(aead, key, h, index, true, text), []);
  }

  lemma PlacedFirst(aead: Aead, key: ByteString, h: Header, index: nat, text: ByteString, rest: ByteString)
    requires h.chunkSize > 0 && index < 0x1_0000_0000 && |text| > h.chunkSize
    ensures Times(0, h.chunkSize) == 0
    ensures Placed(aead, key, h, index, text, Frame(aead, key, h, index, false, text[..h.chunkSize]) + rest, 0)
  {
    ChunkFirst(text, h.chunkSize);
    AtLeastOne(text[h.chunkSize..], h.chunkSize);
    TimesNext(0, 21 + h.chunkSize);
    hide Frame, Chunk, Times, Holds;
    HoldsFirst(Frame(aead, key, h, index, false, text[..h.chunkSize]), rest);
  }

  lemma PlacedLater(
    aead: Aead, key: ByteString, h: Header, index: nat, text: ByteString, first: ByteString, rest: ByteString, k: nat)
    requires h.chunkSize > 0 && index + 1 + k < 0x1_0000_0000 && |text| > h.chunkSize && |first| == 21 + h.chunkSize
    requires Times(k, h.chunkSize) <= |text| - h.chunkSize
    requires Placed(aead, key, h, index + 1, text[h.chunkSize..], rest, k)
    ensures Times(k + 1, h.chunkSize) <= |text|
    ensures Placed(aead, key, h, index, text, first + rest, k + 1)
  {
    hide Frame, Chunk, Times, Holds, ChunkCount;
    ChunkLater(text, h.chunkSize, k);
    TimesNext(k, 21 + h.chunkSize);
    OneChunkMore(text, h.chunkSize);
    var final := k == ChunkCount(text[h.chunkSize..], h.chunkSize) - 1;
    HoldsLater(first, rest, Times(k, 21 + h.chunkSize),
               Frame(aead, key, h, index + 1 + k, final, Chunk(text[h.chunkSize..], h.chunkSize, k)), final);
  }

  lemma OneChunkMore(text: ByteString, size: nat)
    requires size > 0 && |text| > size
    ensures ChunkCount(text, size) == 1 + ChunkCount(text[size..], size)
  {
  }

  lemma {:induction false} FramesAt(aead: Aead, key: ByteString, h: Header, index: nat, text: ByteString, k: nat)
    requires Correct(aead) && h.chunkSize > 0 && index + ChunkCount(text, h.chunkSize) <= 0x1_0000_0000
    requires k < ChunkCount(text, h.chunkSize)
    ensures Times(k, h.chunkSize) <= |text|
    ensures Placed(aead, key, h, index, text, Frames(aead, key, h, index, text), k)
    decreases |text|
  {
    hide Frame, Times, Placed, Correct;
    if |text| <= h.chunkSize {
      PlacedLast(aead, key, h, index, text);
    } else {
      var chunk, more := text[..h.chunkSize], text[h.chunkSize..];
      AtLeastOne(more, h.chunkSize);
      var first, rest := Frame(aead, key, h, index, false, chunk), Frames(aead, key, h, index + 1, more);
      if k == 0 {
        PlacedFirst(aead, key, h, index, text, rest);
      } else {
        FrameHas(aead, key, h, index, false, chunk);
        FramesAt(aead, key, h, index + 1, more, k - 1);
        PlacedLater(aead, key, h, index, text, first, rest, k - 1);
      }
    }
  }

  lemma FrameHas(aead: Aead, key: ByteString, h: Header, index: Word32, final: bool, chunk: ByteString)
    requires Correct(aead)
    ensures |Frame(aead, key, h, index, final, chunk)| == 21 + |chunk|
  {
    hide Nonce, Aad;
  }

  /** After the magic, the stream is the header followed by the frames, back to back: frame `k` starts
      at byte 45 + k * (21 + chunk size), seals chunk `k` of the text under its own index, and is marked
      as the last exactly if it is the last and the stream ends with it. */
  lemma StreamLayout(aead: Aead, key: ByteString, h: Header, text: ByteString, k: nat)
    requires Correct(aead) && WellFormed(h) && h.chunkSize > 0 && ChunkCount(text, h.chunkSize) <= 0x1_0000_0000
    requires k < ChunkCount(text, h.chunkSize)
    ensures Times(k, h.chunkSize) <= |text|
    ensures var stream, chunk := EncryptSpec(aead, key, h, text), Chunk(text, h.chunkSize, k);
            var at, final := 45 + Times(k, 21 + h.chunkSize), |text| - Times(k, h.chunkSize) <= h.chunkSize;
            && at + 21 + |chunk| <= |stream|
            && HeaderIs(stream[..45], h)
            && IsFrame(aead, key, h, k, final, chunk, stream[at..at + 21 + |chunk|])
            && (final ==> at + 21 + |chunk| == |stream|)
  {
    hide Correct, HeaderBytes, Frames, Frame, IsFrame, HeaderIs, ChunkCount, Chunk, Times, Holds;
    ChunkAt(text, h.chunkSize, k);
    var final, at := |text| - Times(k, h.chunkSize) <= h.chunkSize, Times(k, 21 + h.chunkSize);
    var chunk := Chunk(text, h.chunkSize, k);
    FramesAt(aead, key, h, 0, text, k);
    HeaderLayout(h);
    FrameLayout(aead, key, h, k, final, chunk);
    FrameHas(aead, key, h, k, final, chunk);
    var b, frames := HeaderBytes(h), Frames(aead, key, h, 0, text);
    InStream(b, frames, at, Frame(aead, key, h, k, final, chunk), final);
  }

  lemma InStream(b: ByteString, frames: ByteString, at: nat, frame: ByteString, final: bool)
    requires |b| == 45 && Holds(frames, at, frame, final)
    ensures (b + frames)[..45] == b
    ensures 45 + at + |frame| <= |b + frames| && (b + frames)[45 + at..45 + at + |frame|] == frame
    ensures final ==> 45 + at + |frame| == |b + frames|
  {
    HoldsLater(b, frames, at, frame, final);
  }

  /** The headers that are refused, whatever follows. */
  lemma RefusedHeaders(aead: Aead, dh: Dh, secret: ByteString, h: Header, rest: ByteString)
    requires WellFormed(h)
    ensures var key := dh.agree(secret, h.publicKey);
            DecryptSpec(aead, dh, secret, HeaderBytes(h) + rest)
            == if h.version != 0 || h.chunkSize == 0 || h.chunkSize > 16777216 || AllZero(key) then Failed()
               else OpenFrames(aead, key, h, 0, rest)
  {
    hide HeaderBytes, DecodeHeader, OpenFrames, AllZero;
    HeaderReadsBack(h);
    var input := HeaderBytes(h) + rest;
    assert input[..45] == HeaderBytes(h) && input[45..] == rest;
  }

  /** The frames that are refused, whatever they seal. */
  lemma RefusedFrames(aead: Aead, key: ByteString, h: Header, index: Word32, input: ByteString)
    requires |input| >= 5
    requires input[0] > 1 || U32Le(input, 1) > h.chunkSize || (input[0] == 0 && U32Le(input, 1) != h.chunkSize)
             || |input| < 21 + U32Le(input, 1)
    ensures OpenFrames(aead, key, h, index, input) == Failed()
  {
    var c := input[1..5];
    FromLeBytes(c);
    hide FromLe, Nonce, Aad, FrameHeaderBytes;
    assert c[0] == input[1] && c[1] == input[2] && c[2] == input[3] && c[3] == input[4];
  }
}
