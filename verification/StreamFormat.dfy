/** The V2RC record written out in terms of the primitives alone, for what is encrypted and for what is
    accepted (usbvault-crypto/src/streaming.rs). */
module StreamFormat {
  import opened Options
  import opened CryptoResult
  import opened NumberTheory
  import opened Bytes
  import opened Primitives
  import opened Kdf
  import opened Frames
  import opened Streaming
  import opened StreamIntegrity

  // ---------- What encryption writes ----------

  /** The nonce of a position. */
  function NonceAt(s: Stream, index: nat): bytes {
    s.prim.hkdf(Some(s.baseNonce), s.key, Ascii("stream_chunk_nonce:") + U64Le(index), 24)
  }

  /** `frame` is the nonce of the position and the piece sealed under the key derived from that nonce. */
  predicate IsSealed(s: Stream, piece: bytes, index: nat, frame: bytes) {
    var nonce := NonceAt(s, index);
    var chunkKey := s.prim.hkdf(Some(s.baseNonce), s.key, Ascii("stream_chunk_key:") + nonce, 32);
    var aeadNonce := match s.cipher
      case XChaCha20Poly1305 => nonce
      case Aes256GcmSiv => s.prim.hkdf(None, nonce, Ascii("aes_gcm_siv_nonce"), 12);
    var sealed := s.prim.seal(s.cipher, chunkKey, aeadNonce, piece);
    sealed.Some? && frame == nonce + sealed.value
  }

  lemma NonceWrittenOut(s: Stream, index: nat)
    ensures s.ChunkNonceAt(index) == NonceAt(s, index)
  {
    RemainderTwice(index, TWO_64);
  }

  lemma SealWrittenOut(s: Stream, piece: bytes, index: nat, frame: bytes)
    ensures s.EncryptWithKey(piece, s.ChunkNonceAt(index)) == Ok(frame) <==> IsSealed(s, piece, index, frame)
  {
    NonceWrittenOut(s, index);
    hide Stream.ChunkNonceAt, NonceAt;
    var nonce := NonceAt(s, index);
    assert Info(ChunkKey(nonce)) == Ascii("stream_chunk_key:") + nonce;
    assert Info(GcmNonce) == Ascii("aes_gcm_siv_nonce");
  }

  /** The first frame holds record type, name and lengths, and frame i the i-th run of 65536 data bytes. */
  predicate IsPiece(filename: bytes, data: bytes, i: nat, piece: bytes) {
    if i == 0 then
      piece == [1] + U32Le(|filename|) + filename + U64Le(|data|)
    else
      && 65536 * (i - 1) < |data|
      && piece == data[65536 * (i - 1)..if 65536 * i < |data| then 65536 * i else |data|]
  }

  lemma PieceWrittenOut(filename: bytes, data: bytes, i: nat)
    requires i < |Pieces(filename, data)|
    ensures IsPiece(filename, data, i, Pieces(filename, data)[i])
  {
    hide U32Le, U64Le;
    if i > 0 {
      ChunkIsSlice(data, i - 1);
    }
  }

  /** All data is covered: there is one frame for the metadata and one for each begun run of 65536 bytes. */
  lemma {:induction false} ChunkCount(data: bytes)
    ensures |Chunks(data)| == (|data| + 65535) / 65536
    decreases |data|
  {
    if |data| > CHUNK_SIZE {
      ChunkCount(data[CHUNK_SIZE..]);
    }
  }

  /** Every record that encryption returns is magic, version and base nonce, the framed sealed pieces in order,
      and the MAC of everything before it. */
  lemma RecordWrittenOut(s: Stream, filename: bytes, data: bytes, used: set<bytes>)
      returns (pieces: seq<bytes>, frames: seq<bytes>)
    requires s.Valid() && EncryptSpec(s, filename, data, used).0.Ok?
    ensures |frames| == |pieces| == 1 + (|data| + 65535) / 65536
    ensures forall i :: 0 <= i < |pieces| ==>
      IsPiece(filename, data, i, pieces[i]) && IsSealed(s, pieces[i], i, frames[i])
    ensures var body := Ascii("V2RC") + [2] + s.baseNonce + Join(frames);
      EncryptSpec(s, filename, data, used).0.value
        == body + s.prim.hmac(s.prim.hkdf(None, s.key, Ascii("stream_hmac_key"), 32), body)
  {
    hide Info, SealFrom, Join, IsPiece, IsSealed, Stream.EncryptWithKey, Stream.ChunkNonceAt, Metadata;
    pieces := Pieces(filename, data);
    frames := SealFrom(s, pieces, 0, used).result.value;
    SealedFrames(s, pieces, 0, used);
    ChunkCount(data);
    forall i | 0 <= i < |pieces|
      ensures IsPiece(filename, data, i, pieces[i]) && IsSealed(s, pieces[i], i, frames[i])
    {
      PieceWrittenOut(filename, data, i);
      SealWrittenOut(s, pieces[i], i, frames[i]);
    }
    HmacWrittenOut(s, Body(s, frames));
  }

  // ---------- When encryption fails ----------

  /** The nonces of n positions from `index` on. */
  ghost function NoncesFrom(s: Stream, index: nat, n: nat): set<bytes>
    decreases n
  {
    if n == 0 then {} else {NonceAt(s, index)} + NoncesFrom(s, index + 1, n - 1)
  }

  ghost predicate CanBeSealed(s: Stream, piece: bytes, index: nat) {
    exists frame :: IsSealed(s, piece, index, frame)
  }

  ghost predicate IsReused(s: Stream, index: nat, used: set<bytes>, i: nat) {
    NonceAt(s, index + i) in used + NoncesFrom(s, index, i)
  }

  /** Position `index + i` is the first that is not sealed: its nonce was used before, or the cipher refuses. */
  ghost predicate FailsAt(s: Stream, pieces: seq<bytes>, index: nat, used: set<bytes>, i: nat, error: CryptoError) {
    && i < |pieces|
    && (forall j :: 0 <= j < i ==> !IsReused(s, index, used, j) && CanBeSealed(s, pieces[j], index + j))
    && (if IsReused(s, index, used, i) then error == NonceReuse
        else error == DecryptionFailed && !CanBeSealed(s, pieces[i], index + i))
  }

  lemma ReusedShift(s: Stream, index: nat, used: set<bytes>, i: nat)
    ensures IsReused(s, index, used, i + 1) <==> IsReused(s, index + 1, used + {NonceAt(s, index)}, i)
  {
    hide NonceAt;
    assert index + (i + 1) == index + 1 + i;
  }

  lemma {:induction false} SealingFails(s: Stream, pieces: seq<bytes>, index: nat, used: set<bytes>) returns (i: nat)
    requires SealFrom(s, pieces, index, used).result.Err?
    ensures FailsAt(s, pieces, index, used, i, SealFrom(s, pieces, index, used).result.error)
    decreases |pieces|
  {
    hide NonceAt, IsSealed, Stream.EncryptWithKey, Stream.ChunkNonceAt;
    var nonce := s.ChunkNonceAt(index);
    NonceWrittenOut(s, index);
    var sealed := s.EncryptWithKey(pieces[0], nonce);
    if sealed.Ok? {
      SealWrittenOut(s, pieces[0], index, sealed.value);
    } else {
      SealErrors(s, pieces[0], nonce);
      forall f ensures !IsSealed(s, pieces[0], index, f) {
        SealWrittenOut(s, pieces[0], index, f);
      }
    }
    i := 0;
    if nonce !in used && sealed.Ok? {
      var k := SealingFails(s, pieces[1..], index + 1, used + {nonce});
      FailsLater(s, pieces, index, used, k, SealFrom(s, pieces, index, used).result.error, sealed.value);
      i := k + 1;
    }
  }

  lemma SealErrors(s: Stream, piece: bytes, nonce: bytes)
    ensures s.EncryptWithKey(piece, nonce).Err? ==> s.EncryptWithKey(piece, nonce).error == DecryptionFailed
  {}

  lemma FailsLater(s: Stream, pieces: seq<bytes>, index: nat, used: set<bytes>, k: nat, error: CryptoError, f: bytes)
    requires pieces != [] && NonceAt(s, index) !in used && IsSealed(s, pieces[0], index, f)
    requires FailsAt(s, pieces[1..], index + 1, used + {NonceAt(s, index)}, k, error)
    ensures FailsAt(s, pieces, index, used, k + 1, error)
  {
    hide NonceAt, IsSealed, IsReused;
    ReusedShift(s, index, used, k);
    FirstIsNew(s, index, used);
    forall j | 0 <= j < k + 1
      ensures !IsReused(s, index, used, j) && CanBeSealed(s, pieces[j], index + j)
    {
      if j > 0 {
        ReusedShift(s, index, used, j - 1);
        assert pieces[1..][j - 1] == pieces[j] && index + 1 + (j - 1) == index + j;
      } else {
        assert index + 0 == index;
        assert CanBeSealed(s, pieces[0], index);
      }
    }
    assert pieces[1..][k] == pieces[k + 1] && index + 1 + k == index + (k + 1);
  }

  lemma FirstIsNew(s: Stream, index: nat, used: set<bytes>)
    ensures IsReused(s, index, used, 0) <==> NonceAt(s, index) in used
  {
    hide NonceAt;
    assert index + 0 == index;
  }

  /** encrypt_record fails only where a nonce comes up again or the cipher refuses a piece, and with the error of
      the first such position. */
  lemma EncryptionErrors(s: Stream, filename: bytes, data: bytes, used: set<bytes>) returns (i: nat)
    requires EncryptSpec(s, filename, data, used).0.Err?
    ensures FailsAt(s, Pieces(filename, data), 0, used, i, EncryptSpec(s, filename, data, used).0.error)
  {
    hide SealFrom, FailsAt, Pieces;
    i := SealingFails(s, Pieces(filename, data), 0, used);
  }

  // ---------- What decryption accepts ----------

  /** Type, name length, name and data length, and any bytes behind them. */
  ghost predicate IsMetadata(prim: Primitives, m: bytes, filename: bytes, dataLen: nat) {
    && prim.utf8(filename) && |filename| < TWO_32 && dataLen < TWO_64
    && [1] + U32Le(|filename|) + filename + U64Le(dataLen) <= m
  }

  lemma MetadataExactly(prim: Primitives, m: bytes, filename: bytes, dataLen: nat)
    ensures ParseMetadata(prim, m) == Ok((filename, dataLen)) <==> IsMetadata(prim, m, filename, dataLen)
  {
    hide LittleEndian, FromLittleEndian, U32Le, U64Le;
    var n := |filename|;
    if ParseMetadata(prim, m) == Ok((filename, dataLen)) {
      U32OfValue(m[1..5]);
      U64OfValue(m[5 + n..13 + n]);
      assert m[..13 + n] == [1] + m[1..5] + m[5..5 + n] + m[5 + n..13 + n];
    }
    if IsMetadata(prim, m, filename, dataLen) {
      var front := [1] + U32Le(n) + filename + U64Le(dataLen);
      assert m[..13 + n] == front;
      assert m[1..5] == front[1..5] == U32Le(n);
      assert m[5..5 + n] == front[5..5 + n] == filename;
      assert m[5 + n..13 + n] == front[5 + n..13 + n] == U64Le(dataLen);
      U32RoundTrip(n);
      U64RoundTrip(dataLen);
      SmallRemainder(n, TWO_32);
      SmallRemainder(dataLen, TWO_64);
    }
  }

  lemma U64OfValue(b: bytes)
    requires |b| == 8
    ensures FromLittleEndian(b) < TWO_64 && U64Le(FromLittleEndian(b)) == b
  {
    hide LittleEndian, FromLittleEndian, Pow;
    Widths();
    LittleEndianOfValue(b);
    SmallRemainder(FromLittleEndian(b), TWO_64);
  }

  lemma MetadataErrors(prim: Primitives, m: bytes)
    requires ParseMetadata(prim, m).Err?
    ensures ParseMetadata(prim, m).error == if m != [] && m[0] != 1 then InvalidHeader else CorruptedChunk
  {
    hide FromLittleEndian;
  }

  /** The region is a whole number of frames, which open to the chunks, each under the key of its position. */
  ghost predicate RegionOpens(s: Stream, region: bytes, chunks: seq<bytes>) {
    exists frames :: Framable(frames) && region == Join(frames) && Opens(s, frames, 0, chunks)
  }

  /** A record decrypts to a name and data if and only if its tag verifies, its region opens to chunks, the first
      chunk is metadata with that name, and the others together start with the data, cut at the length given. */
  lemma DecryptsExactly(prim: Primitives, cipher: CipherId, key: bytes, record: bytes, filename: bytes, data: bytes)
    ensures DecryptV2Spec(prim, cipher, key, record) == Ok((filename, data)) <==>
      Accepts(prim, cipher, key, record, filename, data)
  {
    hide Info, DecryptFrom, ParseMetadata, Stream.FinalHmac, Opens, IsMetadata;
    if TagVerifies(prim, key, record) {
      var s, region := Stream(prim, cipher, key, record[5..29]), record[..|record| - 32][29..];
      assert region == record[29..|record| - 32];
      HmacWrittenOut(s, record[..|record| - 32]);
      if DecryptV2Spec(prim, cipher, key, record) == Ok((filename, data)) {
        var chunks := DecryptFrom(s, region, 0).value;
        RegionOpensTo(s, region, chunks);
        var dataLen := ParseMetadata(prim, chunks[0]).value.1;
        MetadataExactly(prim, chunks[0], filename, dataLen);
        assert Holds(prim, chunks, filename, data, dataLen);
      }
      if Accepts(prim, cipher, key, record, filename, data) {
        var chunks, dataLen :| RegionOpens(s, region, chunks) && Holds(prim, chunks, filename, data, dataLen);
        RegionOpensTo(s, region, chunks);
        MetadataExactly(prim, chunks[0], filename, dataLen);
      }
    } else {
      TagIsRequired(prim, cipher, key, record);
    }
  }

  ghost predicate Holds(prim: Primitives, chunks: seq<bytes>, filename: bytes, data: bytes, dataLen: nat) {
    && chunks != [] && IsMetadata(prim, chunks[0], filename, dataLen)
    && var whole := Concat(chunks[1..]);
       data == if |whole| <= dataLen then whole else whole[..dataLen]
  }

  ghost predicate Accepts(prim: Primitives, cipher: CipherId, key: bytes, record: bytes, filename: bytes, data: bytes) {
    && TagVerifies(prim, key, record)
    && exists chunks, dataLen ::
         && RegionOpens(Stream(prim, cipher, key, record[5..29]), record[29..|record| - 32], chunks)
         && Holds(prim, chunks, filename, data, dataLen)
  }

  lemma RegionOpensTo(s: Stream, region: bytes, chunks: seq<bytes>)
    ensures RegionOpens(s, region, chunks) <==> DecryptFrom(s, region, 0) == Ok(chunks)
  {
    hide DecryptFrom, Opens, Split;
    DecryptsExactlyTheFrames(s, region, 0, chunks);
    if Split(region).Some? {
      RegionIsOneSequenceOfFrames(region, Split(region).value);
    }
    forall frames | Framable(frames) && region == Join(frames) ensures Split(region) == Some(frames) {
      SplitJoin(frames);
    }
  }

  // ---------- When decryption fails ----------

  /** Frames that open come first; then the region is cut off inside a frame, or the next frame is too short for
      a nonce, or the cipher refuses it. */
  ghost predicate BreaksAt(s: Stream, region: bytes, index: nat, frames: seq<bytes>, chunks: seq<bytes>, rest: bytes,
                           error: CryptoError) {
    && Framable(frames) && region == Join(frames) + rest && Opens(s, frames, index, chunks)
    && rest != []
    && match FirstFrame(rest)
       case None => error == CorruptedChunk
       case Some(data) =>
         && s.DecryptWithKey(s.ChunkKeyAt(index + |frames|), data).Err?
         && error == if |data| < 24 then InvalidNonce else DecryptionFailed
  }

  /** A region that does not decrypt has one first place where it breaks, and that gives the error. */
  lemma {:induction false} RegionErrors(s: Stream, region: bytes, index: nat)
      returns (frames: seq<bytes>, chunks: seq<bytes>, rest: bytes)
    requires DecryptFrom(s, region, index).Err?
    ensures BreaksAt(s, region, index, frames, chunks, rest, DecryptFrom(s, region, index).error)
    decreases |region|
  {
    hide Info, FirstFrame, Frame, Stream.ChunkKeyFor, Stream.ChunkNonceAt, Stream.AeadNonce;
    frames, chunks, rest := [], [], region;
    if FirstFrame(region).Some? {
      var data := FirstFrame(region).value;
      var head := s.DecryptWithKey(s.ChunkKeyAt(index), data);
      if head.Ok? {
        FrameOfFirstFrame(region);
        var fs, cs, r := RegionErrors(s, region[4 + |data|..], index + 1);
        frames, chunks, rest := [data] + fs, [head.value] + cs, r;
        assert frames[1..] == fs && chunks[1..] == cs;
        assert Join(frames) == Frame(data) + Join(fs);
        assert index + 1 + |fs| == index + |frames|;
      }
    }
  }
}
