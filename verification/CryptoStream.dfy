/** The chunked authenticated stream: a look-ahead encoder over two buffers, and its decoder. */
module CryptoStream {
  import opened Common
  import opened Sequences

  const STREAM_MAGIC: ByteString := [0x64, 0x73, 0x74, 0x6b, 0x73, 0x63, 0x72, 0x74]
  const MAX_CHUNK_SIZE := 16 * 1024 * 1024

  /** The AEAD: `seal` and `open` take the key, the nonce, the associated data and the text. */
  datatype Aead = Aead(
    seal: (ByteString, ByteString, ByteString, ByteString) -> ByteString,
    open: (ByteString, ByteString, ByteString, ByteString) -> Option<ByteString>)

  /** What is sealed opens again, and sealing adds a 16-byte tag. */
  ghost predicate Correct(aead: Aead) {
    forall key, nonce, aad, text ::
      && |aead.seal(key, nonce, aad, text)| == |text| + 16
      && aead.open(key, nonce, aad, aead.seal(key, nonce, aad, text)) == Some(text)
  }

  datatype Header = Header(version: Byte, publicKey: ByteString, noncePrefix: ByteString, chunkSize: Word32)

  predicate WellFormed(h: Header) {
    |h.publicKey| == 32 && |h.noncePrefix| == 8
  }

  function HeaderBytes(h: Header): (b: ByteString)
    ensures WellFormed(h) ==> |b| == 45
  {
    [h.version] + h.publicKey + h.noncePrefix + Le(h.chunkSize, 4)
  }

  function FrameHeaderBytes(flags: Byte, len: nat): (b: ByteString)
    ensures |b| == 5
  {
    [flags] + Le(len, 4)
  }

  /** The index in the nonce is big-endian, in the associated data little-endian. */
  function BigEndian(v: Word32): (b: ByteString)
    ensures |b| == 4
  {
    [v / 0x100_0000, v / 0x1_0000 % 256, v / 0x100 % 256, v % 256]
  }

  function Nonce(prefix: ByteString, index: Word32): ByteString {
    prefix + BigEndian(index)
  }

  function Aad(h: Header, index: Word32, frameHeader: ByteString): ByteString {
    STREAM_MAGIC + HeaderBytes(h) + Le(index, 4) + frameHeader
  }

  /** Under one key, no two chunks share a nonce. */
  lemma NoncesDiffer(prefix: ByteString, i: Word32, j: Word32)
    requires i != j
    ensures Nonce(prefix, i) != Nonce(prefix, j)
  {
    var a, b := Nonce(prefix, i), Nonce(prefix, j);
    assert a[|prefix|..] == BigEndian(i) && b[|prefix|..] == BigEndian(j);
    BigEndianReadsBack(i);
    BigEndianReadsBack(j);
  }

  function FromBigEndian(b: ByteString): int
    requires |b| == 4
  {
    b[0] as int * 0x100_0000 + b[1] as int * 0x1_0000 + b[2] as int * 0x100 + b[3] as int
  }

  lemma BigEndianReadsBack(v: Word32)
    ensures FromBigEndian(BigEndian(v)) == v
  {
    assert v / 0x1_0000 == v / 0x100 / 256 && v / 0x100_0000 == v / 0x1_0000 / 256;
  }

  // ----- the stream of a plaintext -----

  /** How many chunks a text makes; the empty text makes one. */
  function ChunkCount(text: ByteString, size: nat): nat
    requires size > 0
    decreases |text|
  {
    if |text| <= size then 1 else 1 + ChunkCount(text[size..], size)
  }

  function Frame(aead: Aead, key: ByteString, h: Header, index: Word32, final: bool, chunk: ByteString): ByteString {
    var frameHeader := FrameHeaderBytes(if final then 1 else 0, |chunk|);
    frameHeader + aead.seal(key, Nonce(h.noncePrefix, index), Aad(h, index, frameHeader), chunk)
  }

  function Frames(aead: Aead, key: ByteString, h: Header, index: nat, text: ByteString): ByteString
    requires h.chunkSize > 0 && index + ChunkCount(text, h.chunkSize) <= 0x1_0000_0000
    decreases |text|
  {
    if |text| <= h.chunkSize then Frame(aead, key, h, index, true, text)
    else
      Frame(aead, key, h, index, false, text[..h.chunkSize]) + Frames(aead, key, h, index + 1, text[h.chunkSize..])
  }

  // ----- reading a stream -----

  /** What the decoder has written when it stops, and whether it was satisfied. */
  datatype Decoded = Decoded(written: ByteString, ok: bool)

  function Failed(): Decoded {
    Decoded([], false)
  }

  function DecodeHeader(b: ByteString): Header
    requires |b| == 45
  {
    FromLe4(b[41..]);
    Header(b[0], b[1..33], b[33..41], FromLe(b[41..]))
  }

  lemma FromLe4(b: ByteString)
    requires |b| == 4
    ensures FromLe(b) < 0x1_0000_0000
  {
    FromLeBound(b);
    WordSizes();
  }

  predicate FrameAccepted(h: Header, flags: Byte, len: nat) {
    flags <= 1 && len <= h.chunkSize && (flags == 1 || len == h.chunkSize)
  }

  function OpenFrames(aead: Aead, key: ByteString, h: Header, index: Word32, input: ByteString): Decoded
    decreases |input|
  {
    if |input| < 5 then Failed()
    else
      var flags, len := input[0], FromLe(input[1..5]);
      if !FrameAccepted(h, flags, len) || |input| < 5 + len + 16 then Failed()
      else
        var aad := Aad(h, index, FrameHeaderBytes(flags, len));
        var chunk := aead.open(key, Nonce(h.noncePrefix, index), aad, input[5..5 + len + 16]);
        if chunk.None? then Failed()
        else
          var rest := input[5 + len + 16..];
          if flags == 1 then Decoded(chunk.value, rest == [])
          else if index == 0xffff_ffff then Decoded(chunk.value, false)
          else
            var more := OpenFrames(aead, key, h, index + 1, rest);
            Decoded(chunk.value + more.written, more.ok)
  }

  // ----- round trip -----

  lemma FrameOpens(aead: Aead, key: ByteString, h: Header, index: Word32, final: bool, chunk: ByteString, rest: ByteString)
    requires Correct(aead) && |chunk| < 0x1_0000_0000
    ensures var input := Frame(aead, key, h, index, final, chunk) + rest;
            && |input| == 5 + |chunk| + 16 + |rest|
            && input[0] == (if final then 1 else 0) && FromLe(input[1..5]) == |chunk|
            && aead.open(key, Nonce(h.noncePrefix, index), Aad(h, index, FrameHeaderBytes(input[0], |chunk|)),
                         input[5..5 + |chunk| + 16]) == Some(chunk)
            && input[5 + |chunk| + 16..] == rest
  {
    hide Le, FromLe, Nonce, Aad;
    var frameHeader := FrameHeaderBytes(if final then 1 else 0, |chunk|);
    var sealed := aead.seal(key, Nonce(h.noncePrefix, index), Aad(h, index, frameHeader), chunk);
    var input := Frame(aead, key, h, index, final, chunk) + rest;
    assert |sealed| == |chunk| + 16;
    assert input == frameHeader + sealed + rest;
    assert input[1..5] == Le(|chunk|, 4);
    assert input[5..5 + |chunk| + 16] == sealed;
    WordSizes();
    LeRoundTrip(|chunk|, 4);
  }

  /** Reading on past a frame. */
  lemma OpenFrame(aead: Aead, key: ByteString, h: Header, index: Word32, final: bool, chunk: ByteString, rest: ByteString)
    requires Correct(aead) && |chunk| <= h.chunkSize && (final || (|chunk| == h.chunkSize && index < 0xffff_ffff))
    ensures var d := OpenFrames(aead, key, h, index, Frame(aead, key, h, index, final, chunk) + rest);
            if final then d == Decoded(chunk, rest == [])
            else
              var more := OpenFrames(aead, key, h, index + 1, rest);
              d == Decoded(chunk + more.written, more.ok)
  {
    FrameOpens(aead, key, h, index, final, chunk, rest);
    hide Frame, FromLe, Nonce, Aad, FrameHeaderBytes, Correct;
  }

  lemma {:induction false} FramesOpen(aead: Aead, key: ByteString, h: Header, index: nat, text: ByteString)
    requires Correct(aead) && h.chunkSize > 0 && index + ChunkCount(text, h.chunkSize) <= 0x1_0000_0000
    ensures OpenFrames(aead, key, h, index, Frames(aead, key, h, index, text)) == Decoded(text, true)
    decreases |text|
  {
    hide Frame, OpenFrames, Correct;
    if |text| <= h.chunkSize {
      OpenFrame(aead, key, h, index, true, text, []);
      var f := Frame(aead, key, h, index, true, text);
      assert f + [] == f;
    } else {
      var chunk, more := text[..h.chunkSize], text[h.chunkSize..];
      AtLeastOne(more, h.chunkSize);
      FramesOpen(aead, key, h, index + 1, more);
      OpenFrame(aead, key, h, index, false, chunk, Frames(aead, key, h, index + 1, more));
      assert chunk + more == text;
    }
  }

  // ----- truncation -----

  lemma CutFrameFails(
    aead: Aead, key: ByteString, h: Header, index: Word32, final: bool, chunk: ByteString, rest: ByteString,
    input: ByteString)
    requires Correct(aead) && |chunk| < 0x1_0000_0000
    requires input <= Frame(aead, key, h, index, final, chunk) + rest
    requires |input| < |Frame(aead, key, h, index, final, chunk)|
    ensures OpenFrames(aead, key, h, index, input) == Failed()
  {
    FrameOpens(aead, key, h, index, final, chunk, rest);
    var all := Frame(aead, key, h, index, final, chunk) + rest;
    hide Frame, FromLe, Nonce, Aad, FrameHeaderBytes, Correct, FrameAccepted;
    assert |input| < 5 + |chunk| + 16;
    assert |input| >= 5 ==> input[1..5] == all[1..5];
  }

  /** A stream cut short anywhere is an error, and what was written by then is a prefix of the text. */
  lemma {:induction false} CutFramesFail(
    aead: Aead, key: ByteString, h: Header, index: nat, text: ByteString, input: ByteString)
    requires Correct(aead) && h.chunkSize > 0 && index + ChunkCount(text, h.chunkSize) <= 0x1_0000_0000
    requires input < Frames(aead, key, h, index, text)
    ensures !OpenFrames(aead, key, h, index, input).ok && OpenFrames(aead, key, h, index, input).written <= text
    decreases |text|
  {
    hide Frame, OpenFrames, Correct;
    if |text| <= h.chunkSize {
      var f := Frame(aead, key, h, index, true, text);
      assert f + [] == f;
      CutFrameFails(aead, key, h, index, true, text, [], input);
    } else {
      var chunk, more := text[..h.chunkSize], text[h.chunkSize..];
      var f, g := Frame(aead, key, h, index, false, chunk), Frames(aead, key, h, index + 1, more);
      if |input| < |f| {
        CutFrameFails(aead, key, h, index, false, chunk, g, input);
      } else {
        var input' := input[|f|..];
        SplitPrefix(input, f, g);
        AtLeastOne(more, h.chunkSize);
        CutFramesFail(aead, key, h, index + 1, more, input');
        OpenFrame(aead, key, h, index, false, chunk, input');
        assert chunk + more == text;
      }
    }
  }

  lemma SplitPrefix(input: ByteString, f: ByteString, g: ByteString)
    requires input < f + g && |input| >= |f|
    ensures input == f + input[|f|..] && input[|f|..] < g
  {
    assert f == input[..|f|];
    assert (f + g)[|f|..] == g;
  }

  // ----- whole streams -----

  /** X25519: agreement, and the public key of a secret. */
  datatype Dh = Dh(agree: (ByteString, ByteString) -> ByteString, public: ByteString -> ByteString)

  predicate AllZero(b: ByteString) {
    forall i :: 0 <= i < |b| ==> b[i] == 0
  }

  predicate ValidChunkSize(size: int) {
    1 <= size <= MAX_CHUNK_SIZE
  }

  /** What the decoder makes of the bytes after the magic. */
  function DecryptSpec(aead: Aead, dh: Dh, secret: ByteString, input: ByteString): Decoded {
    if |input| < 45 then Failed()
    else
      var h := DecodeHeader(input[..45]);
      var key := dh.agree(secret, h.publicKey);
      if h.version != 0 || !ValidChunkSize(h.chunkSize) || AllZero(key) then Failed()
      else OpenFrames(aead, key, h, 0, input[45..])
  }

  /** The encoder's output after the magic. */
  function EncryptSpec(aead: Aead, key: ByteString, h: Header, text: ByteString): ByteString
    requires h.chunkSize > 0 && ChunkCount(text, h.chunkSize) <= 0x1_0000_0000
  {
    HeaderBytes(h) + Frames(aead, key, h, 0, text)
  }

  lemma HeaderReadsBack(h: Header)
    requires WellFormed(h)
    ensures DecodeHeader(HeaderBytes(h)) == h
  {
    hide Le, FromLe;
    var b := HeaderBytes(h);
    assert b[1..33] == h.publicKey && b[33..41] == h.noncePrefix && b[41..] == Le(h.chunkSize, 4);
    WordSizes();
    LeRoundTrip(h.chunkSize, 4);
  }

  /** The sender and the receiver agree on a key that is not all zero. */
  ghost predicate Agreed(dh: Dh, secret: ByteString, h: Header, key: ByteString) {
    dh.agree(secret, h.publicKey) == key && !AllZero(key)
  }

  lemma DecryptIsOpen(aead: Aead, dh: Dh, secret: ByteString, h: Header, key: ByteString, rest: ByteString)
    requires WellFormed(h) && h.version == 0 && ValidChunkSize(h.chunkSize) && Agreed(dh, secret, h, key)
    ensures DecryptSpec(aead, dh, secret, HeaderBytes(h) + rest) == OpenFrames(aead, key, h, 0, rest)
  {
    hide HeaderBytes, DecodeHeader, OpenFrames, AllZero;
    HeaderReadsBack(h);
    var input := HeaderBytes(h) + rest;
    assert input[..45] == HeaderBytes(h) && input[45..] == rest;
  }

  /** Decrypting an encrypted stream returns the plaintext. */
  lemma RoundTrip(aead: Aead, dh: Dh, secret: ByteString, h: Header, key: ByteString, text: ByteString)
    requires Correct(aead) && WellFormed(h) && h.version == 0 && ValidChunkSize(h.chunkSize)
    requires Agreed(dh, secret, h, key) && ChunkCount(text, h.chunkSize) <= 0x1_0000_0000
    ensures DecryptSpec(aead, dh, secret, EncryptSpec(aead, key, h, text)) == Decoded(text, true)
  {
    hide Correct, HeaderBytes, Frames, OpenFrames, DecryptSpec, Agreed, ChunkCount;
    DecryptIsOpen(aead, dh, secret, h, key, Frames(aead, key, h, 0, text));
    FramesOpen(aead, key, h, 0, text);
  }

  /** Every strict prefix of the stream is an error, and what was written by then is a prefix of
      the plaintext. */
  lemma Truncation(aead: Aead, dh: Dh, secret: ByteString, h: Header, key: ByteString, text: ByteString, input: ByteString)
    requires Correct(aead) && WellFormed(h) && h.version == 0 && ValidChunkSize(h.chunkSize)
    requires Agreed(dh, secret, h, key) && ChunkCount(text, h.chunkSize) <= 0x1_0000_0000
    requires input < EncryptSpec(aead, key, h, text)
    ensures var d := DecryptSpec(aead, dh, secret, input); !d.ok && d.written <= text
  {
    hide Correct, HeaderBytes, Frames, OpenFrames, Agreed, ChunkCount, DecodeHeader;
    if |input| >= 45 {
      SplitPrefix(input, HeaderBytes(h), Frames(aead, key, h, 0, text));
      DecryptIsOpen(aead, dh, secret, h, key, input[45..]);
      CutFramesFail(aead, key, h, 0, text, input[45..]);
    }
  }

  // ----- the encoder -----

  /** A reader that may return fewer bytes than asked for, but none only at the end. One that is
      not reliable may fail at any call. */
  class Source {
    const data: ByteString
    const reliable: bool
    var pos: nat

    ghost predicate Valid()
      reads this
    {
      pos <= |data|
    }

    constructor (data: ByteString, reliable: bool)
      ensures Valid() && this.data == data && this.reliable == reliable && pos == 0
    {
      this.data := data;
      this.reliable := reliable;
      pos := 0;
    }

    method Read(buffer: array<Byte>, from: nat) returns (res: Result<nat>)
      requires Valid() && from <= buffer.Length
      modifies this`pos, buffer
      ensures Valid() && (reliable ==> res.Ok?)
      ensures res.Err? ==> pos == old(pos)
      ensures res.Ok? ==>
        && pos == old(pos) + res.value && from + res.value <= buffer.Length
        && (res.value == 0 <==> from == buffer.Length || old(pos) == |data|)
        && buffer[..from] == old(buffer[..from]) && buffer[from..from + res.value] == data[old(pos)..pos]
    {
      var fails: bool := *;
      if fails && !reliable {
        return Err;
      }
      var most := if |data| - pos < buffer.Length - from then |data| - pos else buffer.Length - from;
      if most == 0 {
        return Ok(0);
      }
      var n :| 1 <= n <= most;
      for i := 0 to n
        invariant pos == old(pos) && buffer[..from] == old(buffer[..from])
        invariant buffer[from..from + i] == data[pos..pos + i]
      {
        buffer[from + i] := data[pos + i];
      }
      pos := pos + n;
      return Ok(n);
    }
  }

  /** `read_chunk`: fills the buffer unless the input ends, or fails, first. */
  method ReadChunk(input: Source, buffer: array<Byte>) returns (res: Result<nat>)
    requires input.Valid()
    modifies input`pos, buffer
    ensures input.Valid() && old(input.pos) <= input.pos && (input.reliable ==> res.Ok?)
    ensures res.Ok? ==>
      && input.pos == old(input.pos) + res.value && res.value <= buffer.Length
      && (res.value < buffer.Length ==> input.pos == |input.data|)
      && buffer[..res.value] == input.data[old(input.pos)..input.pos]
  {
    var read := 0;
    while read < buffer.Length
      invariant input.Valid() && input.pos == old(input.pos) + read && read <= buffer.Length
      invariant buffer[..read] == input.data[old(input.pos)..input.pos]
    {
      ghost var pos := input.pos;
      var n := input.Read(buffer, read);
      if n.Err? {
        return Err;
      }
      if n.value == 0 {
        break;
      }
      JoinSlices(input.data, old(input.pos), pos, input.pos);
      assert buffer[..read + n.value] == buffer[..read] + buffer[read..read + n.value];
      read := read + n.value;
    }
    return Ok(read);
  }

  lemma JoinSlices(s: ByteString, a: nat, b: nat, c: nat)
    requires a <= b <= c <= |s|
    ensures s[a..b] + s[b..c] == s[a..c]
  {
  }

  lemma LastFrame(aead: Aead, key: ByteString, h: Header, index: nat, text: ByteString)
    requires h.chunkSize > 0 && |text| <= h.chunkSize && index < 0x1_0000_0000
    ensures ChunkCount(text, h.chunkSize) == 1
    ensures Frames(aead, key, h, index, text) == Frame(aead, key, h, index, true, text)
  {
  }

  lemma NextFrame(aead: Aead, key: ByteString, h: Header, index: nat, chunk: ByteString, more: ByteString)
    requires h.chunkSize > 0 && |chunk| == h.chunkSize && more != []
    ensures ChunkCount(chunk + more, h.chunkSize) == 1 + ChunkCount(more, h.chunkSize)
    ensures index + 1 + ChunkCount(more, h.chunkSize) <= 0x1_0000_0000 ==>
              Frames(aead, key, h, index, chunk + more)
              == Frame(aead, key, h, index, false, chunk) + Frames(aead, key, h, index + 1, more)
  {
    hide Frame;
    assert (chunk + more)[..|chunk|] == chunk && (chunk + more)[|chunk|..] == more;
  }

  /** `out` and the frames still to come make up the stream. */
  ghost predicate Underway(
    aead: Aead, key: ByteString, h: Header, text: ByteString, out: ByteString, index: nat, left: ByteString)
    requires h.chunkSize > 0
  {
    && index + ChunkCount(left, h.chunkSize) == ChunkCount(text, h.chunkSize)
    && (ChunkCount(text, h.chunkSize) <= 0x1_0000_0000 ==>
          out + Frames(aead, key, h, index, left) == STREAM_MAGIC + EncryptSpec(aead, key, h, text))
  }

  lemma Finish(
    aead: Aead, key: ByteString, h: Header, text: ByteString, out: ByteString, index: nat, left: ByteString,
    reliable: bool)
    requires h.chunkSize > 0 && index < 0x1_0000_0000 && |left| <= h.chunkSize
    requires Underway(aead, key, h, text, out, index, left)
    ensures ChunkCount(text, h.chunkSize) == index + 1
    ensures Encrypts(aead, key, h, text, reliable, Ok(()), out + Frame(aead, key, h, index, true, left))
  {
    hide Frame, Frames, ChunkCount, EncryptSpec;
    LastFrame(aead, key, h, index, left);
  }

  lemma Advance(
    aead: Aead, key: ByteString, h: Header, text: ByteString, out: ByteString, index: nat, chunk: ByteString,
    more: ByteString)
    requires h.chunkSize > 0 && index < 0x1_0000_0000 && |chunk| == h.chunkSize && more != []
    requires Underway(aead, key, h, text, out, index, chunk + more)
    ensures Underway(aead, key, h, text, out + Frame(aead, key, h, index, false, chunk), index + 1, more)
    ensures index == 0xffff_ffff ==> ChunkCount(text, h.chunkSize) > 0x1_0000_0000
  {
    hide Frame, Frames, EncryptSpec;
    NextFrame(aead, key, h, index, chunk, more);
    AtLeastOne(more, h.chunkSize);
    hide ChunkCount;
    if ChunkCount(text, h.chunkSize) <= 0x1_0000_0000 {
      Assoc(out, Frame(aead, key, h, index, false, chunk), Frames(aead, key, h, index + 1, more));
    }
  }

  lemma AtLeastOne(text: ByteString, size: nat)
    requires size > 0
    ensures ChunkCount(text, size) >= 1
  {
  }

  predicate Distinct(nonces: seq<ByteString>) {
    forall i, j :: 0 <= i < j < |nonces| ==> nonces[i] != nonces[j]
  }

  /** `dh_encrypt_stream`, given the random ephemeral secret and nonce prefix. `nonces` lists the
      nonces handed to the cipher: those of chunks 0, 1, 2 and so on, no two of them equal. */
  method EncryptStream(
    aead: Aead, dh: Dh, ephemeral: ByteString, noncePrefix: ByteString, remotePublic: ByteString, input: Source,
    chunkSize: nat)
    returns (res: Result<()>, out: ByteString, ghost nonces: seq<ByteString>)
    requires input.Valid() && input.pos == 0
    modifies input`pos
    ensures NoncesUpTo(noncePrefix, |nonces|, nonces) && Distinct(nonces)
    ensures res.Ok? ==> ValidChunkSize(chunkSize) && |nonces| == ChunkCount(input.data, chunkSize)
    ensures !ValidChunkSize(chunkSize) || AllZero(dh.agree(ephemeral, remotePublic)) ==> res.Err? && out == []
    ensures ValidChunkSize(chunkSize) && !AllZero(dh.agree(ephemeral, remotePublic)) ==>
      var h := Header(0, dh.public(ephemeral), noncePrefix, chunkSize);
      Encrypts(aead, dh.agree(ephemeral, remotePublic), h, input.data, input.reliable, res, out)
  {
    var key := dh.agree(ephemeral, remotePublic);
    if !ValidChunkSize(chunkSize) || AllZero(key) {
      return Err, [], [];
    }
    res, out, nonces := EncryptChunks(aead, key, Header(0, dh.public(ephemeral), noncePrefix, chunkSize), input);
  }

  /** The whole stream, or an error: if the reader failed or there are too many chunks. Short of too
      many chunks, what was written is a prefix of the stream. */
  ghost predicate Encrypts(
    aead: Aead, key: ByteString, h: Header, text: ByteString, reliable: bool, res: Result<()>, out: ByteString)
    requires h.chunkSize > 0
  {
    if ChunkCount(text, h.chunkSize) > 0x1_0000_0000 then res.Err?
    else
      var all := STREAM_MAGIC + EncryptSpec(aead, key, h, text);
      (reliable ==> res.Ok?) && (if res.Ok? then out == all else out <= all)
  }

  method EncryptChunks(aead: Aead, key: ByteString, h: Header, input: Source)
    returns (res: Result<()>, out: ByteString, ghost nonces: seq<ByteString>)
    requires input.Valid() && input.pos == 0 && h.chunkSize > 0
    modifies input`pos
    ensures NoncesUpTo(h.noncePrefix, |nonces|, nonces) && Distinct(nonces)
    ensures res.Ok? ==> |nonces| == ChunkCount(input.data, h.chunkSize)
    ensures Encrypts(aead, key, h, input.data, input.reliable, res, out)
  {
    hide Frame, Frames, ChunkCount, HeaderBytes, Underway, Encrypts, Nonce, Distinct;
    ghost var text := input.data;
    var current, next := new Byte[h.chunkSize](_ => 0), new Byte[h.chunkSize](_ => 0);
    out, nonces := STREAM_MAGIC + HeaderBytes(h), [];
    Start(aead, key, h, text);
    NoNonces(h.noncePrefix);
    var first := ReadChunk(input, current);
    if first.Err? {
      Interrupted(aead, key, h, text, out, 0, text);
      return Err, out, nonces;
    }
    var currentLen: nat := first.value;
    var index: Word32 := 0;
    assert text[..input.pos] + text[input.pos..] == text;
    while true
      invariant fresh(current) && fresh(next) && current != next && current.Length == next.Length == h.chunkSize
      invariant input.Valid() && currentLen <= h.chunkSize
      invariant currentLen < h.chunkSize ==> input.pos == |text|
      invariant Underway(aead, key, h, text, out, index, current[..currentLen] + text[input.pos..])
      invariant NoncesUpTo(h.noncePrefix, index, nonces)
      decreases |text| - input.pos
    {
      ghost var chunk, rest := current[..currentLen], text[input.pos..];
      DistinctNonces(h.noncePrefix, index, nonces);
      var read := ReadChunk(input, next);
      assert current[..currentLen] == chunk;
      if read.Err? {
        Interrupted(aead, key, h, text, out, index, chunk + rest);
        return Err, out, nonces;
      }
      var nextLen: nat := read.value;
      NextNonce(h.noncePrefix, index, nonces);
      nonces := nonces + [Nonce(h.noncePrefix, index)];
      DistinctNonces(h.noncePrefix, index + 1, nonces);
      if nextLen == 0 {
        assert rest == [] && chunk + rest == chunk;
        Finish(aead, key, h, text, out, index, chunk, input.reliable);
        out := out + Frame(aead, key, h, index, true, current[..currentLen]);
        return Ok(()), out, nonces;
      }
      assert rest == next[..nextLen] + text[input.pos..];
      Advance(aead, key, h, text, out, index, chunk, rest);
      out := out + Frame(aead, key, h, index, false, current[..currentLen]);
      if index == 0xffff_ffff {
        TooMany(aead, key, h, text, input.reliable, out);
        return Err, out, nonces;
      }
      index := index + 1;
      current, next := next, current;
      currentLen := nextLen;
    }
  }

  /** The nonces of the first `n` chunks. */
  ghost predicate NoncesUpTo(prefix: ByteString, n: nat, nonces: seq<ByteString>) {
    |nonces| == n <= 0x1_0000_0000 && forall i :: 0 <= i < n ==> nonces[i] == Nonce(prefix, i)
  }

  lemma NoNonces(prefix: ByteString)
    ensures NoncesUpTo(prefix, 0, []) && Distinct([])
  {
  }

  lemma NextNonce(prefix: ByteString, n: Word32, nonces: seq<ByteString>)
    requires NoncesUpTo(prefix, n, nonces)
    ensures NoncesUpTo(prefix, n + 1, nonces + [Nonce(prefix, n)])
  {
    hide Nonce;
  }

  lemma DistinctNonces(prefix: ByteString, n: nat, nonces: seq<ByteString>)
    requires NoncesUpTo(prefix, n, nonces)
    ensures Distinct(nonces)
  {
    hide Nonce;
    forall i, j | 0 <= i < j < n
      ensures nonces[i] != nonces[j]
    {
      NoncesDiffer(prefix, i, j);
    }
  }

  lemma Interrupted(aead: Aead, key: ByteString, h: Header, text: ByteString, out: ByteString, index: nat, left: ByteString)
    requires h.chunkSize > 0 && Underway(aead, key, h, text, out, index, left)
    ensures Encrypts(aead, key, h, text, false, Err, out)
  {
    hide Frames, ChunkCount, EncryptSpec;
  }

  lemma TooMany(aead: Aead, key: ByteString, h: Header, text: ByteString, reliable: bool, out: ByteString)
    requires h.chunkSize > 0 && ChunkCount(text, h.chunkSize) > 0x1_0000_0000
    ensures Encrypts(aead, key, h, text, reliable, Err, out)
  {
    hide ChunkCount, EncryptSpec;
  }

  lemma Start(aead: Aead, key: ByteString, h: Header, text: ByteString)
    requires h.chunkSize > 0
    ensures Underway(aead, key, h, text, STREAM_MAGIC + HeaderBytes(h), 0, text)
  {
    hide Frames, ChunkCount, HeaderBytes;
    if ChunkCount(text, h.chunkSize) <= 0x1_0000_0000 {
      Assoc(STREAM_MAGIC, HeaderBytes(h), Frames(aead, key, h, 0, text));
    }
  }

  // ----- the decoder -----

  /** `read_exact`: `n` bytes, or an error if the input ends, or fails, first. */
  method ReadExact(input: Source, n: nat) returns (res: Result<ByteString>)
    requires input.Valid()
    modifies input`pos
    ensures input.Valid() && old(input.pos) <= input.pos
    ensures res.Ok? ==>
      && |input.data| - old(input.pos) >= n && input.pos == old(input.pos) + n
      && res.value == input.data[old(input.pos)..old(input.pos) + n]
    ensures res.Err? && input.reliable ==> |input.data| - old(input.pos) < n
  {
    var buffer := new Byte[n](_ => 0);
    var read := ReadChunk(input, buffer);
    if read.Err? || read.value < n {
      return Err;
    }
    assert buffer[..] == buffer[..n];
    return Ok(buffer[..]);
  }

  /** One frame: its chunk, and whether it is the final one. */
  method ReadFrame(aead: Aead, key: ByteString, h: Header, index: Word32, input: Source)
    returns (res: Result<(ByteString, bool)>)
    requires input.Valid()
    modifies input`pos
    ensures input.Valid() && old(input.pos) <= input.pos
    ensures FrameReadIs(aead, key, h, index, input.data[old(input.pos)..], res) || (res.Err? && !input.reliable)
    ensures res.Ok? ==> input.pos == old(input.pos) + 21 + FromLe(input.data[old(input.pos)..][1..5])
  {
    hide FromLe, Nonce, Aad, FrameHeaderBytes, FrameAccepted;
    ghost var rest := input.data[input.pos..];
    var head := ReadExact(input, 5);
    if head.Err? {
      return Err;
    }
    assert head.value == rest[..5] && head.value[1..5] == rest[1..5];
    var flags, len := head.value[0], FromLe(head.value[1..5]);
    if !FrameAccepted(h, flags, len) {
      return Err;
    }
    var sealed := ReadExact(input, len + 16);
    if sealed.Err? {
      return Err;
    }
    assert sealed.value == rest[5..5 + len + 16];
    var chunk := aead.open(key, Nonce(h.noncePrefix, index), Aad(h, index, FrameHeaderBytes(flags, len)), sealed.value);
    if chunk.None? {
      return Err;
    }
    return Ok((chunk.value, flags == 1));
  }

  /** `res` is what reading a frame off `rest` gives. */
  ghost predicate FrameReadIs(
    aead: Aead, key: ByteString, h: Header, index: Word32, rest: ByteString, res: Result<(ByteString, bool)>)
  {
    if |rest| < 5 then res.Err?
    else
      var flags, len := rest[0], FromLe(rest[1..5]);
      if !FrameAccepted(h, flags, len) || |rest| < 5 + len + 16 then res.Err?
      else
        var aad := Aad(h, index, FrameHeaderBytes(flags, len));
        var chunk := aead.open(key, Nonce(h.noncePrefix, index), aad, rest[5..5 + len + 16]);
        if chunk.None? then res.Err? else res == Ok((chunk.value, flags == 1))
  }

  lemma OpenByFrame(
    aead: Aead, key: ByteString, h: Header, index: Word32, rest: ByteString, res: Result<(ByteString, bool)>)
    requires FrameReadIs(aead, key, h, index, rest, res) || res.Err?
    ensures res.Err? && FrameReadIs(aead, key, h, index, rest, res) ==> OpenFrames(aead, key, h, index, rest) == Failed()
    ensures res.Ok? ==> |rest| >= 21 + FromLe(rest[1..5])
    ensures res.Ok? && res.value.1 ==>
      OpenFrames(aead, key, h, index, rest) == Decoded(res.value.0, rest[21 + FromLe(rest[1..5])..] == [])
    ensures res.Ok? && !res.value.1 && index == 0xffff_ffff ==>
      OpenFrames(aead, key, h, index, rest) == Decoded(res.value.0, false)
    ensures res.Ok? && !res.value.1 && index < 0xffff_ffff ==>
      var more := OpenFrames(aead, key, h, index + 1, rest[21 + FromLe(rest[1..5])..]);
      OpenFrames(aead, key, h, index, rest) == Decoded(res.value.0 + more.written, more.ok)
  {
    hide FromLe, Nonce, Aad, FrameHeaderBytes, FrameAccepted;
  }

  /** What the decoder did is `all`, or the reader failed and it wrote a part of it. */
  ghost predicate Decrypts(all: Decoded, reliable: bool, ok: bool, out: ByteString) {
    Decoded(out, ok) == all || (!reliable && !ok && out <= all.written)
  }

  /** The frames after the header. */
  method DecryptFrames(aead: Aead, key: ByteString, h: Header, input: Source) returns (ok: bool, out: ByteString)
    requires input.Valid()
    modifies input`pos
    ensures input.Valid()
    ensures Decrypts(OpenFrames(aead, key, h, 0, input.data[old(input.pos)..]), input.reliable, ok, out)
  {
    hide OpenFrames, FrameReadIs, FromLe;
    ghost var all := OpenFrames(aead, key, h, 0, input.data[input.pos..]);
    out := [];
    var index: Word32 := 0;
    while true
      invariant input.Valid()
      invariant var rest := OpenFrames(aead, key, h, index, input.data[input.pos..]);
                all == Decoded(out + rest.written, rest.ok)
      decreases |input.data| - input.pos
    {
      ghost var rest := input.data[input.pos..];
      var frame := ReadFrame(aead, key, h, index, input);
      if frame.Err? {
        OpenByFrame(aead, key, h, index, rest, frame);
        return false, out;
      }
      OpenByFrame(aead, key, h, index, rest, frame);
      assert rest[21 + FromLe(rest[1..5])..] == input.data[input.pos..];
      ghost var before := out;
      out := out + frame.value.0;
      if frame.value.1 {
        var trailing := new Byte[1](_ => 0);
        var n := input.Read(trailing, 0);
        return n.Ok? && n.value == 0, out;
      }
      if index == 0xffff_ffff {
        return false, out;
      }
      Assoc(before, frame.value.0, OpenFrames(aead, key, h, index + 1, input.data[input.pos..]).written);
      index := index + 1;
    }
  }

  /** `dh_decrypt_stream`: the bytes written and whether it succeeded. */
  method DecryptStream(aead: Aead, dh: Dh, secret: ByteString, input: Source) returns (ok: bool, out: ByteString)
    requires input.Valid()
    modifies input`pos
    ensures Decrypts(DecryptSpec(aead, dh, secret, input.data[old(input.pos)..]), input.reliable, ok, out)
  {
    hide OpenFrames, DecodeHeader, AllZero;
    ghost var all := input.data[input.pos..];
    var head := ReadExact(input, 45);
    if head.Err? {
      return false, [];
    }
    assert head.value == all[..45] && input.data[input.pos..] == all[45..];
    var h := DecodeHeader(head.value);
    if h.version != 0 || !ValidChunkSize(h.chunkSize) {
      return false, [];
    }
    var key := dh.agree(secret, h.publicKey);
    if AllZero(key) {
      return false, [];
    }
    ok, out := DecryptFrames(aead, key, h, input);
  }
}
