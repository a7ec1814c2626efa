/** A stream the decoder accepts is the one that was sent, whole and in order, unless a frame opens
    that the sender never sealed. */
module StreamIntegrity {
  import opened Common
  import opened CryptoStream

  /** The cipher call that seals a chunk. */
  ghost predicate Seals(
    aead: Aead, key: ByteString, h: Header, index: Word32, final: bool, chunk: ByteString,
    nonce: ByteString, aad: ByteString, sealed: ByteString)
  {
    && nonce == Nonce(h.noncePrefix, index)
    && aad == Aad(h, index, FrameHeaderBytes(if final then 1 else 0, |chunk|))
    && sealed == aead.seal(key, nonce, aad, chunk)
  }

  /** One of the cipher calls for the chunks of `text`, the first of which has this index. */
  ghost predicate SealedBy(
    aead: Aead, key: ByteString, h: Header, index: nat, text: ByteString,
    nonce: ByteString, aad: ByteString, sealed: ByteString)
    requires h.chunkSize > 0 && index + ChunkCount(text, h.chunkSize) <= 0x1_0000_0000
    decreases |text|
  {
    if |text| <= h.chunkSize then Seals(aead, key, h, index, true, text, nonce, aad, sealed)
    else
      || Seals(aead, key, h, index, false, text[..h.chunkSize], nonce, aad, sealed)
      || SealedBy(aead, key, h, index + 1, text[h.chunkSize..], nonce, aad, sealed)
  }

  /** No later chunk is sealed under this chunk's nonce. */
  lemma {:induction false} NotLater(
    aead: Aead, key: ByteString, h: Header, i: Word32, index: nat, text: ByteString, aad: ByteString, sealed: ByteString)
    requires h.chunkSize > 0 && index + ChunkCount(text, h.chunkSize) <= 0x1_0000_0000 && i < index
    ensures !SealedBy(aead, key, h, index, text, Nonce(h.noncePrefix, i), aad, sealed)
    decreases |text|
  {
    hide Nonce, Aad, FrameHeaderBytes;
    AtLeastOne(text, h.chunkSize);
    NoncesDiffer(h.noncePrefix, i, index);
    if |text| > h.chunkSize {
      NotLater(aead, key, h, i, index + 1, text[h.chunkSize..], aad, sealed);
    }
  }

  /** Associated data determines the stream header, the index and the frame header. */
  lemma SameAad(h: Header, h': Header, i: Word32, j: Word32, f: ByteString, g: ByteString)
    requires WellFormed(h) && WellFormed(h') && |f| == |g| == 5 && Aad(h, i, f) == Aad(h', j, g)
    ensures h == h' && f == g
  {
    hide HeaderBytes;
    var a, b := Aad(h, i, f), Aad(h', j, g);
    assert a[8..53] == HeaderBytes(h) && b[8..53] == HeaderBytes(h');
    assert a[57..] == f && b[57..] == g;
    HeaderReadsBack(h);
    HeaderReadsBack(h');
  }

  lemma SameFrameHeader(flags: Byte, len: nat, flags': Byte, len': nat)
    requires FrameHeaderBytes(flags, len) == FrameHeaderBytes(flags', len')
    requires len < 0x1_0000_0000 && len' < 0x1_0000_0000
    ensures flags == flags' && len == len'
  {
    hide Le, FromLe;
    var a, b := FrameHeaderBytes(flags, len), FrameHeaderBytes(flags', len');
    assert a[1..] == Le(len, 4) && b[1..] == Le(len', 4) && a[0] == flags && b[0] == flags';
    WordSizes();
    LeRoundTrip(len, 4);
    LeRoundTrip(len', 4);
  }

  /** A frame whose cipher call seals this chunk is the chunk's own frame. */
  lemma FrameIs(
    aead: Aead, key: ByteString, h: Header, index: Word32, final: bool, chunk: ByteString, input: ByteString)
    requires Correct(aead) && WellFormed(h) && |chunk| < 0x1_0000_0000 && |input| >= 5
    requires var len := FromLe(input[1..5]);
             && |input| >= 21 + len && FrameAccepted(h, input[0], len)
             && Seals(aead, key, h, index, final, chunk, Nonce(h.noncePrefix, index),
                      Aad(h, index, FrameHeaderBytes(input[0], len)), input[5..21 + len])
    ensures input[..21 + FromLe(input[1..5])] == Frame(aead, key, h, index, final, chunk)
    ensures FromLe(input[1..5]) == |chunk|
  {
    hide Nonce, Aad, FrameHeaderBytes, FromLe, Le;
    var len := FromLe(input[1..5]);
    SameAad(h, h, index, index, FrameHeaderBytes(input[0], len), FrameHeaderBytes(if final then 1 else 0, |chunk|));
    SameFrameHeader(input[0], len, if final then 1 else 0, |chunk|);
    FrameHeaderReads(input);
    assert input[..21 + len] == input[..5] + input[5..21 + len];
  }

  lemma FrameHeaderReads(input: ByteString)
    requires |input| >= 5
    ensures input[..5] == FrameHeaderBytes(input[0], FromLe(input[1..5]))
  {
    hide Le, FromLe;
    FromLeRoundTrip(input[1..5]);
    assert input[..5] == [input[0]] + input[1..5];
  }

  /** The first frame is read and its seal opens. */
  ghost predicate Opens(aead: Aead, key: ByteString, h: Header, index: Word32, input: ByteString) {
    && |input| >= 5
    && var len := FromLe(input[1..5]);
       && FrameAccepted(h, input[0], len) && |input| >= 21 + len
       && var aad := Aad(h, index, FrameHeaderBytes(input[0], len));
          aead.open(key, Nonce(h.noncePrefix, index), aad, input[5..21 + len]).Some?
  }

  lemma NothingOpens(aead: Aead, key: ByteString, h: Header, index: Word32, input: ByteString)
    requires !Opens(aead, key, h, index, input)
    ensures OpenFrames(aead, key, h, index, input) == Failed()
  {
    hide Nonce, Aad, FrameHeaderBytes, FromLe, FrameAccepted;
  }

  /** The first frame opens, by a cipher call that seals none of the chunks. */
  ghost predicate Forged(
    aead: Aead, key: ByteString, h: Header, index: nat, text: ByteString, h': Header, j: Word32, input: ByteString)
    requires h.chunkSize > 0 && index + ChunkCount(text, h.chunkSize) <= 0x1_0000_0000
  {
    && Opens(aead, key, h', j, input)
    && var len := FromLe(input[1..5]);
       !SealedBy(aead, key, h, index, text, Nonce(h'.noncePrefix, j), Aad(h', j, FrameHeaderBytes(input[0], len)),
                 input[5..21 + len])
  }

  /** A first frame that opens is the frame of the first chunk, or forged. */
  lemma TheChunk(aead: Aead, key: ByteString, h: Header, index: Word32, text: ByteString, input: ByteString)
    requires Correct(aead) && WellFormed(h) && h.chunkSize > 0
    requires index + ChunkCount(text, h.chunkSize) <= 0x1_0000_0000
    requires Opens(aead, key, h, index, input) && !Forged(aead, key, h, index, text, h, index, input)
    ensures var final := |text| <= h.chunkSize;
            var chunk := if final then text else text[..h.chunkSize];
            |input| >= 21 + |chunk| && input[..21 + |chunk|] == Frame(aead, key, h, index, final, chunk)
  {
    hide Nonce, Aad, FrameHeaderBytes, FromLe, Correct, Seals, Frame;
    var final := |text| <= h.chunkSize;
    var chunk := if final then text else text[..h.chunkSize];
    var len := FromLe(input[1..5]);
    var aad, sealed := Aad(h, index, FrameHeaderBytes(input[0], len)), input[5..21 + len];
    if !final {
      NotLater(aead, key, h, index, index + 1, text[h.chunkSize..], aad, sealed);
    }
    FrameIs(aead, key, h, index, final, chunk, input);
  }

  // ----- the frames of a text -----

  /** Where the `n`-th frame begins when those before it are full. */
  function FrameOffset(h: Header, n: nat): nat {
    n * (21 + h.chunkSize)
  }

  lemma NextOffset(h: Header, n: nat)
    ensures FrameOffset(h, n + 1) == 21 + h.chunkSize + FrameOffset(h, n) && FrameOffset(h, 0) == 0
  {
  }

  /** Frame `index + n` of the input is forged, and all before it are the sender's. */
  ghost predicate ForgedAt(
    aead: Aead, key: ByteString, h: Header, index: nat, text: ByteString, input: ByteString, n: nat)
    requires h.chunkSize > 0 && index + ChunkCount(text, h.chunkSize) <= 0x1_0000_0000
  {
    && index + n < 0x1_0000_0000 && FrameOffset(h, n) <= |input|
    && input[..FrameOffset(h, n)] <= Frames(aead, key, h, index, text)
    && Forged(aead, key, h, index, text, h, index + n, input[FrameOffset(h, n)..])
  }

  /** A forged frame further on, seen from one chunk earlier. */
  lemma ForgedLater(aead: Aead, key: ByteString, h: Header, index: nat, text: ByteString, rest: ByteString, n: nat)
    requires Correct(aead) && h.chunkSize > 0 && |text| > h.chunkSize
    requires index + ChunkCount(text, h.chunkSize) <= 0x1_0000_0000
    requires ForgedAt(aead, key, h, index + 1, text[h.chunkSize..], rest, n)
    ensures ForgedAt(aead, key, h, index, text,
                     Frame(aead, key, h, index, false, text[..h.chunkSize]) + rest, n + 1)
  {
    hide Correct, Frame, Frames, ChunkCount, Forged, FrameOffset;
    var f, more := Frame(aead, key, h, index, false, text[..h.chunkSize]), text[h.chunkSize..];
    var k := FrameOffset(h, n);
    FrameLength(aead, key, h, index, false, text[..h.chunkSize]);
    NextOffset(h, n);
    NextFrame(aead, key, h, index, text[..h.chunkSize], more);
    assert text[..h.chunkSize] + more == text;
    assert (f + rest)[|f| + k..] == rest[k..];
    Before(f, rest, k, Frames(aead, key, h, index + 1, more));
    ForgedEarlier(aead, key, h, index, text, index + 1 + n, rest[k..]);
  }

  lemma FrameLength(aead: Aead, key: ByteString, h: Header, index: Word32, final: bool, chunk: ByteString)
    requires Correct(aead)
    ensures |Frame(aead, key, h, index, final, chunk)| == 21 + |chunk|
  {
    hide Nonce, Aad;
  }

  lemma Before(f: ByteString, rest: ByteString, k: nat, frames: ByteString)
    requires k <= |rest| && rest[..k] <= frames
    ensures (f + rest)[..|f| + k] <= f + frames
  {
    assert (f + rest)[..|f| + k] == f + rest[..k];
  }

  lemma ForgedEarlier(
    aead: Aead, key: ByteString, h: Header, index: nat, text: ByteString, j: Word32, frame: ByteString)
    requires h.chunkSize > 0 && |text| > h.chunkSize && index < j
    requires index + ChunkCount(text, h.chunkSize) <= 0x1_0000_0000
    requires Forged(aead, key, h, index + 1, text[h.chunkSize..], h, j, frame)
    ensures Forged(aead, key, h, index, text, h, j, frame)
  {
    hide Nonce, Aad, FrameHeaderBytes, FromLe, Opens;
    NoncesDiffer(h.noncePrefix, index, j);
  }

  lemma ForgedNow(aead: Aead, key: ByteString, h: Header, index: Word32, text: ByteString, input: ByteString)
    requires h.chunkSize > 0 && index + ChunkCount(text, h.chunkSize) <= 0x1_0000_0000
    requires Forged(aead, key, h, index, text, h, index, input)
    ensures ForgedAt(aead, key, h, index, text, input, 0)
  {
    hide Forged, FrameOffset, Frames;
    NextOffset(h, 0);
    assert input[0..] == input && input[..0] == [];
  }

  /** Whatever the frames read: what is written is a prefix of the text and they are accepted only if
      they are the text's frames, or one of them is forged. */
  lemma {:induction false} AcceptedFrames(
    aead: Aead, key: ByteString, h: Header, index: nat, text: ByteString, input: ByteString)
    requires Correct(aead) && WellFormed(h) && h.chunkSize > 0
    requires index + ChunkCount(text, h.chunkSize) <= 0x1_0000_0000
    ensures var d := OpenFrames(aead, key, h, index, input);
            || (d.written <= text && (d.ok ==> input == Frames(aead, key, h, index, text)))
            || exists n: nat :: ForgedAt(aead, key, h, index, text, input, n)
    decreases |text|
  {
    hide Nonce, Aad, FrameHeaderBytes, FromLe, Correct, Frame, OpenFrames, Forged, ForgedAt, Opens;
    AtLeastOne(text, h.chunkSize);
    if !Opens(aead, key, h, index, input) {
      NothingOpens(aead, key, h, index, input);
    } else if Forged(aead, key, h, index, text, h, index, input) {
      ForgedNow(aead, key, h, index, text, input);
    } else {
      var final := |text| <= h.chunkSize;
      var chunk := if final then text else text[..h.chunkSize];
      TheChunk(aead, key, h, index, text, input);
      var rest := input[21 + |chunk|..];
      assert input == Frame(aead, key, h, index, final, chunk) + rest;
      OpenFrame(aead, key, h, index, final, chunk, rest);
      if !final {
        var more := text[h.chunkSize..];
        AtLeastOne(more, h.chunkSize);
        var next := index + 1;
        AcceptedFrames(aead, key, h, next, more, rest);
        if n: nat :| ForgedAt(aead, key, h, next, more, rest, n) {
          ForgedLater(aead, key, h, index, text, rest, n);
        }
        assert chunk + more == text;
      }
    }
  }

  // ----- whole streams -----

  /** The header of the stream is the sender's, once a frame opens. */
  lemma TheHeader(
    aead: Aead, key: ByteString, h: Header, h': Header, index: nat, text: ByteString, nonce: ByteString,
    frameHeader: ByteString, sealed: ByteString)
    requires WellFormed(h) && WellFormed(h') && h.chunkSize > 0 && |frameHeader| == 5
    requires index + ChunkCount(text, h.chunkSize) <= 0x1_0000_0000
    requires SealedBy(aead, key, h, index, text, nonce, Aad(h', 0, frameHeader), sealed)
    ensures h == h'
    decreases |text|
  {
    hide Nonce, Aad, FrameHeaderBytes;
    AtLeastOne(text, h.chunkSize);
    var final := |text| <= h.chunkSize;
    var chunk := if final then text else text[..h.chunkSize];
    if Seals(aead, key, h, index, final, chunk, nonce, Aad(h', 0, frameHeader), sealed) {
      SameAad(h', h, 0, index, frameHeader, FrameHeaderBytes(if final then 1 else 0, |chunk|));
    } else {
      TheHeader(aead, key, h, h', index + 1, text[h.chunkSize..], nonce, frameHeader, sealed);
    }
  }

  lemma HeaderReads(b: ByteString)
    requires |b| == 45
    ensures HeaderBytes(DecodeHeader(b)) == b
  {
    hide Le, FromLe;
    FromLeRoundTrip(b[41..]);
    assert b == [b[0]] + b[1..33] + b[33..41] + b[41..];
  }

  /** Under another header nothing opens, or the first frame is forged. */
  lemma OtherHeader(aead: Aead, key: ByteString, h: Header, h': Header, text: ByteString, input: ByteString)
    requires WellFormed(h) && WellFormed(h') && h.chunkSize > 0 && h != h'
    requires ChunkCount(text, h.chunkSize) <= 0x1_0000_0000
    ensures OpenFrames(aead, key, h', 0, input) == Failed() || Forged(aead, key, h, 0, text, h', 0, input)
  {
    hide OpenFrames, SealedBy, Nonce, Aad, FrameHeaderBytes, FromLe, FrameAccepted;
    if !Opens(aead, key, h', 0, input) {
      NothingOpens(aead, key, h', 0, input);
    } else if !Forged(aead, key, h, 0, text, h', 0, input) {
      var len := FromLe(input[1..5]);
      TheHeader(aead, key, h, h', 0, text, Nonce(h'.noncePrefix, 0), FrameHeaderBytes(input[0], len), input[5..21 + len]);
    }
  }

  /** Frame `n` of the input opens under the key its header leads to, by a cipher call the sender
      never made: under another key, or none of those for the chunks of `text`. Everything before
      the frame is the sender's stream, but for the header if `n` is 0. */
  ghost predicate ForgedFrame(
    aead: Aead, dh: Dh, secret: ByteString, h: Header, key: ByteString, text: ByteString, input: ByteString, n: nat)
    requires h.chunkSize > 0 && ChunkCount(text, h.chunkSize) <= 0x1_0000_0000
  {
    && n < 0x1_0000_0000 && 45 + FrameOffset(h, n) <= |input|
    && var h' := DecodeHeader(input[..45]);
       var key' := dh.agree(secret, h'.publicKey);
       var frame := input[45 + FrameOffset(h, n)..];
       && (n > 0 ==> input[..45 + FrameOffset(h, n)] <= EncryptSpec(aead, key, h, text))
       && Opens(aead, key', h', n, frame)
       && (key' == key ==> Forged(aead, key, h, 0, text, h', n, frame))
  }

  /** For every input, whether reordered, spliced, cut short, lengthened or under another header: the
      decoder writes a prefix of the text and accepts it if and only if it is the stream that was
      sent; or a frame opens, named by its number, that the sender never sealed. */
  lemma AcceptedIsSent(
    aead: Aead, dh: Dh, secret: ByteString, h: Header, key: ByteString, text: ByteString, input: ByteString)
    requires Correct(aead) && WellFormed(h) && h.version == 0 && ValidChunkSize(h.chunkSize)
    requires Agreed(dh, secret, h, key) && ChunkCount(text, h.chunkSize) <= 0x1_0000_0000
    ensures var d := DecryptSpec(aead, dh, secret, input);
            || (d.written <= text && (d.ok <==> input == EncryptSpec(aead, key, h, text)))
            || exists n: nat :: ForgedFrame(aead, dh, secret, h, key, text, input, n)
  {
    hide Correct, HeaderBytes, Frames, OpenFrames, Agreed, ChunkCount, DecodeHeader, EncryptSpec, ForgedFrame, Forged;
    RoundTrip(aead, dh, secret, h, key, text);
    if |input| >= 45 {
      var h', rest := DecodeHeader(input[..45]), input[45..];
      HeaderReads(input[..45]);
      DecodedWellFormed(input[..45]);
      if h' == h {
        assert input == HeaderBytes(h) + rest;
        DecryptIsOpen(aead, dh, secret, h, key, rest);
        SameHeader(aead, dh, secret, h, key, text, rest);
      } else {
        OtherStream(aead, dh, secret, h, key, text, input);
      }
    }
  }

  lemma SameHeader(aead: Aead, dh: Dh, secret: ByteString, h: Header, key: ByteString, text: ByteString, rest: ByteString)
    requires Correct(aead) && WellFormed(h) && h.chunkSize > 0 && Agreed(dh, secret, h, key)
    requires ChunkCount(text, h.chunkSize) <= 0x1_0000_0000
    ensures var d, input := OpenFrames(aead, key, h, 0, rest), HeaderBytes(h) + rest;
            || (d.written <= text && (d.ok ==> input == EncryptSpec(aead, key, h, text)))
            || exists n: nat :: ForgedFrame(aead, dh, secret, h, key, text, input, n)
  {
    hide Correct, HeaderBytes, Frames, OpenFrames, ChunkCount, DecodeHeader, ForgedAt, ForgedFrame;
    AcceptedFrames(aead, key, h, 0, text, rest);
    if n: nat :| ForgedAt(aead, key, h, 0, text, rest, n) {
      ForgedInStream(aead, dh, secret, h, key, text, rest, n);
    }
  }

  lemma ForgedInStream(
    aead: Aead, dh: Dh, secret: ByteString, h: Header, key: ByteString, text: ByteString, rest: ByteString, n: nat)
    requires WellFormed(h) && h.chunkSize > 0 && Agreed(dh, secret, h, key)
    requires ChunkCount(text, h.chunkSize) <= 0x1_0000_0000 && ForgedAt(aead, key, h, 0, text, rest, n)
    ensures ForgedFrame(aead, dh, secret, h, key, text, HeaderBytes(h) + rest, n)
  {
    hide Frames, ChunkCount, DecodeHeader, SealedBy, HeaderBytes, FrameOffset, Opens;
    HeaderReadsBack(h);
    var input, k := HeaderBytes(h) + rest, FrameOffset(h, n);
    assert input[..45] == HeaderBytes(h) && input[45 + k..] == rest[k..];
    assert input[..45 + k] == HeaderBytes(h) + rest[..k];
  }

  lemma OtherStream(
    aead: Aead, dh: Dh, secret: ByteString, h: Header, key: ByteString, text: ByteString, input: ByteString)
    requires WellFormed(h) && h.chunkSize > 0 && ChunkCount(text, h.chunkSize) <= 0x1_0000_0000
    requires |input| >= 45 && DecodeHeader(input[..45]) != h && WellFormed(DecodeHeader(input[..45]))
    ensures DecryptSpec(aead, dh, secret, input) == Failed() || ForgedFrame(aead, dh, secret, h, key, text, input, 0)
  {
    hide OpenFrames, ChunkCount, DecodeHeader, Forged, Opens, EncryptSpec, FrameOffset, AllZero;
    NextOffset(h, 0);
    var h', rest := DecodeHeader(input[..45]), input[45..];
    var key' := dh.agree(secret, h'.publicKey);
    if !Opens(aead, key', h', 0, rest) {
      NothingOpens(aead, key', h', 0, rest);
    } else if key' == key {
      OtherHeader(aead, key, h, h', text, rest);
    }
  }

  lemma DecodedWellFormed(b: ByteString)
    requires |b| == 45
    ensures WellFormed(DecodeHeader(b))
  {
  }

  // ----- the stream that was sent -----

  lemma OwnFrame(aead: Aead, key: ByteString, h: Header, index: Word32, final: bool, chunk: ByteString, rest: ByteString)
    requires Correct(aead) && |chunk| < 0x1_0000_0000
    ensures var input := Frame(aead, key, h, index, final, chunk) + rest;
            && |input| >= 21 + |chunk| && FromLe(input[1..5]) == |chunk|
            && Seals(aead, key, h, index, final, chunk, Nonce(h.noncePrefix, index),
                     Aad(h, index, FrameHeaderBytes(input[0], |chunk|)), input[5..21 + |chunk|])
  {
    FrameOpens(aead, key, h, index, final, chunk, rest);
    FrameLength(aead, key, h, index, final, chunk);
    hide FromLe, Nonce, Aad, FrameHeaderBytes, Correct;
    var f := Frame(aead, key, h, index, final, chunk);
    assert (f + rest)[5..21 + |chunk|] == f[5..];
  }

  /** No frame of the sent stream is forged. */
  lemma {:induction false} OwnFrames(aead: Aead, key: ByteString, h: Header, index: nat, text: ByteString, n: nat)
    requires Correct(aead) && h.chunkSize > 0 && index + ChunkCount(text, h.chunkSize) <= 0x1_0000_0000
    requires index + n < 0x1_0000_0000
    ensures var frames := Frames(aead, key, h, index, text);
            FrameOffset(h, n) <= |frames| ==>
              !Forged(aead, key, h, index, text, h, index + n, frames[FrameOffset(h, n)..])
    decreases n
  {
    hide Correct, Frame, FrameOffset, FromLe, Nonce, Aad, FrameHeaderBytes, Opens, Seals;
    AtLeastOne(text, h.chunkSize);
    NextOffset(h, if n == 0 then 0 else n - 1);
    var final := |text| <= h.chunkSize;
    var chunk := if final then text else text[..h.chunkSize];
    var f := Frame(aead, key, h, index, final, chunk);
    var rest := if final then [] else Frames(aead, key, h, index + 1, text[h.chunkSize..]);
    FrameLength(aead, key, h, index, final, chunk);
    var frames := Frames(aead, key, h, index, text);
    assert frames == f + rest;
    if n == 0 {
      OwnFrame(aead, key, h, index, final, chunk, rest);
      assert frames[0..] == frames;
    } else if final {
      if FrameOffset(h, n) <= |frames| {
        NoFrame(aead, key, h, index + n, frames[FrameOffset(h, n)..]);
      }
    } else {
      OwnFrames(aead, key, h, index + 1, text[h.chunkSize..], n - 1);
      if FrameOffset(h, n) <= |frames| {
        assert frames[FrameOffset(h, n)..] == rest[FrameOffset(h, n - 1)..];
      }
    }
  }

  lemma NoFrame(aead: Aead, key: ByteString, h: Header, j: Word32, rest: ByteString)
    requires rest == []
    ensures !Opens(aead, key, h, j, rest)
  {
  }

  /** In the stream that was sent no frame is forged, for any correct cipher. */
  lemma SentIsNotForged(aead: Aead, dh: Dh, secret: ByteString, h: Header, key: ByteString, text: ByteString, n: nat)
    requires Correct(aead) && WellFormed(h) && h.chunkSize > 0 && Agreed(dh, secret, h, key)
    requires ChunkCount(text, h.chunkSize) <= 0x1_0000_0000
    ensures !ForgedFrame(aead, dh, secret, h, key, text, EncryptSpec(aead, key, h, text), n)
  {
    hide Correct, HeaderBytes, Frames, ChunkCount, DecodeHeader, FrameOffset, Forged, Opens, AllZero;
    HeaderReadsBack(h);
    var input, frames, k := EncryptSpec(aead, key, h, text), Frames(aead, key, h, 0, text), FrameOffset(h, n);
    assert input[..45] == HeaderBytes(h);
    if n < 0x1_0000_0000 && 45 + k <= |input| {
      OwnFrames(aead, key, h, 0, text, n);
      assert input[45 + k..] == frames[k..];
    }
  }
}
