/** The V2RC streaming record (usbvault-crypto/src/streaming.rs): a stateful encryptor, a parser, and the
    properties that hold between them for all lawful primitives. */
module Streaming {
  import opened Options
  import opened CryptoResult
  import opened NumberTheory
  import opened Bytes
  import opened Primitives
  import opened Kdf
  import opened Frames

  const MIN_CHUNK_SIZE: nat := 4096
  const MAX_CHUNK_SIZE: nat := 64 * 1024 * 1024
  const CHUNK_SIZE: nat := 65536
  const RECORD_MAGIC: bytes := Ascii("V2RC")
  const FORMAT_VERSION: byte := 0x02
  const RECORD_TYPE_PUT: byte := 0x01
  const HEADER_SIZE: nat := 29

  // ---------- The keys of one record ----------

  /** A cipher, a master key and the base nonce of one record. */
  datatype Stream = Stream(prim: Primitives, cipher: CipherId, key: bytes, baseNonce: bytes) {

    ghost predicate Valid() {
      prim.Lawful() && |baseNonce| == 24
    }

    function ChunkNonceAt(index: nat): bytes {
      prim.hkdf(Some(baseNonce), key, Info(ChunkNonce(index % TWO_64)), 24)
    }

    function ChunkKeyFor(nonce: bytes): bytes {
      prim.hkdf(Some(baseNonce), key, Info(ChunkKey(nonce)), 32)
    }

    /** The key the decryptor derives for a position. */
    function ChunkKeyAt(index: nat): bytes {
      ChunkKeyFor(ChunkNonceAt(index))
    }

    function FinalHmac(data: bytes): bytes {
      prim.hmac(prim.hkdf(None, key, Info(StreamHmacKey), 32), data)
    }

    /** The nonce handed to the cipher: AES-GCM-SIV takes 12 bytes derived from the 24. */
    function AeadNonce(nonce: bytes): bytes {
      match cipher
      case XChaCha20Poly1305 => nonce
      case Aes256GcmSiv => prim.hkdf(None, nonce, Info(GcmNonce), 12)
    }

    function EncryptWithKey(plaintext: bytes, nonce: bytes): Result<bytes> {
      match prim.seal(cipher, ChunkKeyFor(nonce), AeadNonce(nonce), plaintext)
      case None => Err(DecryptionFailed)
      case Some(ciphertext) => Ok(nonce + ciphertext)
    }

    function DecryptWithKey(chunkKey: bytes, data: bytes): Result<bytes> {
      if |data| < 24 then Err(InvalidNonce)
      else
        match prim.open(cipher, chunkKey, AeadNonce(data[..24]), data[24..])
        case None => Err(DecryptionFailed)
        case Some(plaintext) => Ok(plaintext)
    }

    function Header(): bytes {
      RECORD_MAGIC + [FORMAT_VERSION] + baseNonce
    }

    /** The key the encryptor used at a position opens the frame there. */
    lemma DecryptsOwnFrame(plaintext: bytes, index: nat)
      requires Valid() && EncryptWithKey(plaintext, ChunkNonceAt(index)).Ok?
      ensures var frame := EncryptWithKey(plaintext, ChunkNonceAt(index)).value;
        |frame| == |plaintext| + 40 && DecryptWithKey(ChunkKeyAt(index), frame) == Ok(plaintext)
    {
      hide Info;
      var nonce := ChunkNonceAt(index);
      var frame := EncryptWithKey(plaintext, nonce).value;
      assert frame[..24] == nonce;
      assert frame[24..] == prim.seal(cipher, ChunkKeyFor(nonce), AeadNonce(nonce), plaintext).value;
    }
  }

  // ---------- Encryption ----------

  /** `data.chunks(CHUNK_SIZE)`. */
  function Chunks(data: bytes): seq<bytes> {
    if data == [] then []
    else if |data| <= CHUNK_SIZE then [data]
    else [data[..CHUNK_SIZE]] + Chunks(data[CHUNK_SIZE..])
  }

  /** Chunk i is the i-th run of 65536 bytes; all but the last are that long. */
  lemma {:induction false} ChunkIsSlice(data: bytes, i: nat)
    requires i < |Chunks(data)|
    ensures 65536 * i < |data|
    ensures var end := if i + 1 < |Chunks(data)| then 65536 * (i + 1) else |data|;
      && 65536 * i < end <= |data| && end <= 65536 * (i + 1)
      && Chunks(data)[i] == data[65536 * i..end]
    decreases |data|
  {
    if |data| > CHUNK_SIZE {
      var rest := data[CHUNK_SIZE..];
      if i > 0 {
        ChunkIsSlice(rest, i - 1);
        var end := if i + 1 < |Chunks(data)| then 65536 * (i + 1) else |data|;
        assert rest[65536 * (i - 1)..end - CHUNK_SIZE] == data[65536 * i..end];
      } else {
        assert |Chunks(rest)| > 0;
      }
    }
  }

  lemma {:induction false} ChunksJoin(data: bytes)
    ensures Concat(Chunks(data)) == data
    ensures forall i :: 0 <= i < |Chunks(data)| ==> 0 < |Chunks(data)[i]| <= CHUNK_SIZE
  {
    if data != [] {
      if |data| <= CHUNK_SIZE {
        assert Concat([data]) == data + Concat([]);
      } else {
        ChunksJoin(data[CHUNK_SIZE..]);
      }
    }
  }

  function Metadata(filename: bytes, dataLen: nat): (m: bytes)
    ensures |m| == |filename| + 13
  {
    [RECORD_TYPE_PUT] + U32Le(|filename|) + filename + U64Le(dataLen)
  }

  method BuildMetadata(filename: bytes, dataLen: nat) returns (m: bytes)
    ensures m == Metadata(filename, dataLen)
  {
    m := [RECORD_TYPE_PUT];
    m := m + U32Le(|filename|);
    m := m + filename;
    m := m + U64Le(dataLen);
  }

  /** The plaintext of the frames: the metadata, then the data in chunks. */
  function Pieces(filename: bytes, data: bytes): seq<bytes> {
    [Metadata(filename, |data|)] + Chunks(data)
  }

  /** What sealing leaves behind: the frames or an error, the nonces marked as used, and the nonces the
      cipher was given, in order. */
  datatype Sealing = Sealing(result: Result<seq<bytes>>, used: set<bytes>, nonces: seq<bytes>)

  /** Seal the pieces for the positions from `index` on, refusing a nonce that was used before. */
  function SealFrom(s: Stream, pieces: seq<bytes>, index: nat, used: set<bytes>): Sealing {
    if pieces == [] then Sealing(Ok([]), used, [])
    else
      var nonce := s.ChunkNonceAt(index);
      if nonce in used then Sealing(Err(NonceReuse), used, [])
      else
        match s.EncryptWithKey(pieces[0], nonce)
        case Err(e) => Sealing(Err(e), used + {nonce}, [nonce])
        case Ok(frame) => Before(frame, nonce, SealFrom(s, pieces[1..], index + 1, used + {nonce}))
  }

  function Before(frame: bytes, nonce: bytes, rest: Sealing): Sealing {
    Sealing(match rest.result case Ok(frames) => Ok([frame] + frames) case Err(e) => Err(e),
            rest.used, [nonce] + rest.nonces)
  }

  /** The chunk region of a record is authenticated together with the header. */
  function Body(s: Stream, frames: seq<bytes>): bytes {
    s.Header() + Join(frames)
  }

  function Seal(s: Stream, body: bytes): bytes {
    body + s.FinalHmac(body)
  }

  function EncryptSpec(s: Stream, filename: bytes, data: bytes, used: set<bytes>): (Result<bytes>, Sealing) {
    var sealing := SealFrom(s, Pieces(filename, data), 0, used);
    (match sealing.result case Ok(frames) => Ok(Seal(s, Body(s, frames))) case Err(e) => Err(e), sealing)
  }

  method ValidateChunkSize(size: nat) returns (r: Result<()>)
    ensures r == if 4096 <= size <= 0x400_0000 then Ok(()) else Err(InvalidInput)
  {
    if size < MIN_CHUNK_SIZE {
      return Err(InvalidInput);
    }
    if size > MAX_CHUNK_SIZE {
      return Err(InvalidInput);
    }
    return Ok(());
  }

  ghost predicate NoDuplicates(s: seq<bytes>) {
    forall i, j :: 0 <= i < j < |s| ==> s[i] != s[j]
  }

  ghost function Elements(s: seq<bytes>): set<bytes> {
    set x | x in s
  }

  class StreamingEncryptor {
    const prim: Primitives
    const cipherId: CipherId
    const baseNonce: bytes
    const masterKey: bytes
    var usedNonces: set<bytes>
    /** Every nonce the cipher was ever given, in order. */
    ghost var sealed: seq<bytes>

    function Keys(): Stream {
      Stream(prim, cipherId, masterKey, baseNonce)
    }

    /** The cipher never saw a nonce twice, and exactly the nonces it saw are marked as used. */
    ghost predicate Valid()
      reads this
    {
      Keys().Valid() && NoDuplicates(sealed) && Elements(sealed) == usedNonces
    }

    constructor (prim: Primitives, cipherId: CipherId, key: bytes, baseNonce: bytes)
      requires prim.Lawful() && |baseNonce| == 24
      ensures Valid() && usedNonces == {} && Keys() == Stream(prim, cipherId, key, baseNonce)
    {
      this.prim := prim;
      this.cipherId := cipherId;
      this.baseNonce := baseNonce;
      this.masterKey := key;
      usedNonces := {};
      sealed := [];
    }

    method CheckNonceReuse(nonce: bytes) returns (r: Result<()>)
      modifies this`usedNonces
      ensures r == if nonce in old(usedNonces) then Err(NonceReuse) else Ok(())
      ensures usedNonces == old(usedNonces) + {nonce}
    {
      if nonce in usedNonces {
        return Err(NonceReuse);
      }
      usedNonces := usedNonces + {nonce};
      return Ok(());
    }

    /** Derive the nonce of a position, refuse it if it was used, and seal. */
    method SealChunk(plaintext: bytes, index: nat) returns (r: Result<bytes>)
      requires Valid()
      modifies this
      ensures Valid()
      ensures var nonce := Keys().ChunkNonceAt(index);
        if nonce in old(usedNonces) then
          r == Err(NonceReuse) && usedNonces == old(usedNonces) && sealed == old(sealed)
        else
          && r == Keys().EncryptWithKey(plaintext, nonce)
          && usedNonces == old(usedNonces) + {nonce} && sealed == old(sealed) + [nonce]
    {
      hide Info;
      var nonce := Keys().ChunkNonceAt(index);
      var unused := CheckNonceReuse(nonce);
      if unused.Err? {
        assert usedNonces == old(usedNonces);
        return Err(unused.error);
      }
      r := Keys().EncryptWithKey(plaintext, nonce);
      sealed := sealed + [nonce];
    }

    method EncryptRecord(filename: bytes, data: bytes) returns (r: Result<bytes>)
      requires Valid()
      modifies this
      ensures Valid() && old(usedNonces) <= usedNonces
      ensures var (record, sealing) := EncryptSpec(Keys(), filename, data, old(usedNonces));
        r == record && usedNonces == sealing.used && sealed == old(sealed) + sealing.nonces
    {
      hide Info, SealFrom, After, Metadata, Chunks, Frame, Stream.EncryptWithKey, Stream.ChunkNonceAt, Stream.FinalHmac;
      var sizeOk := ValidateChunkSize(CHUNK_SIZE);
      assert sizeOk.Ok?;
      var record := RECORD_MAGIC;
      record := record + [FORMAT_VERSION];
      record := record + baseNonce;
      var metadata := BuildMetadata(filename, |data|);
      var chunks := Chunks(data);
      ghost var s, pieces := Keys(), [metadata] + chunks;
      ghost var total := SealFrom(s, pieces, 0, usedNonces);
      ghost var frames: seq<bytes>, nonces: seq<bytes> := [], [];
      AfterNothing(total);
      assert pieces[0..] == pieces;

      SealStep(s, pieces, 0, usedNonces, frames, nonces);
      var encrypted0 := SealChunk(metadata, 0);
      if encrypted0.Err? {
        return Err(encrypted0.error);
      }
      var chunksData := Frame(encrypted0.value);
      JoinAppend(frames, encrypted0.value);
      frames, nonces := frames + [encrypted0.value], nonces + [s.ChunkNonceAt(0)];
      for i := 0 to |chunks|
        invariant Valid() && old(usedNonces) <= usedNonces
        invariant total == After(frames, nonces, SealFrom(s, pieces[i + 1..], i + 1, usedNonces))
        invariant sealed == old(sealed) + nonces
        invariant chunksData == Join(frames)
      {
        SealStep(s, pieces, i + 1, usedNonces, frames, nonces);
        var encrypted := SealChunk(chunks[i], i + 1);
        if encrypted.Err? {
          return Err(encrypted.error);
        }
        chunksData := chunksData + Frame(encrypted.value);
        JoinAppend(frames, encrypted.value);
        frames, nonces := frames + [encrypted.value], nonces + [s.ChunkNonceAt(i + 1)];
      }
      assert pieces[|chunks| + 1..] == [];
      AfterAll(s, frames, nonces, |pieces|, usedNonces);
      record := record + chunksData;
      record := record + Keys().FinalHmac(record);
      return Ok(record);
    }
  }

  /** The outcome when `frames` were sealed first, under `nonces`. */
  ghost function After(frames: seq<bytes>, nonces: seq<bytes>, rest: Sealing): Sealing {
    Sealing(match rest.result case Ok(more) => Ok(frames + more) case Err(e) => Err(e),
            rest.used, nonces + rest.nonces)
  }

  lemma AfterNothing(total: Sealing)
    ensures After([], [], total) == total
  {
    assert [] + total.nonces == total.nonces;
    if total.result.Ok? {
      assert [] + total.result.value == total.result.value;
    }
  }

  lemma AfterAll(s: Stream, frames: seq<bytes>, nonces: seq<bytes>, index: nat, used: set<bytes>)
    ensures After(frames, nonces, SealFrom(s, [], index, used)) == Sealing(Ok(frames), used, nonces)
  {
    assert frames + [] == frames && nonces + [] == nonces;
  }

  lemma SealStep(s: Stream, pieces: seq<bytes>, i: nat, used: set<bytes>, frames: seq<bytes>, nonces: seq<bytes>)
    requires i < |pieces|
    ensures var nonce := s.ChunkNonceAt(i);
      var sealed := s.EncryptWithKey(pieces[i], nonce);
      After(frames, nonces, SealFrom(s, pieces[i..], i, used)) ==
        if nonce in used then Sealing(Err(NonceReuse), used, nonces)
        else if sealed.Err? then Sealing(Err(sealed.error), used + {nonce}, nonces + [nonce])
        else After(frames + [sealed.value], nonces + [nonce], SealFrom(s, pieces[i + 1..], i + 1, used + {nonce}))
  {
    hide Info;
    assert pieces[i..][1..] == pieces[i + 1..];
    var nonce := s.ChunkNonceAt(i);
    var sealed := s.EncryptWithKey(pieces[i], nonce);
    assert nonces + [] == nonces;
    if nonce !in used && sealed.Ok? {
      var rest := SealFrom(s, pieces[i + 1..], i + 1, used + {nonce});
      assert nonces + ([nonce] + rest.nonces) == nonces + [nonce] + rest.nonces;
      if rest.result.Ok? {
        assert frames + ([sealed.value] + rest.result.value) == frames + [sealed.value] + rest.result.value;
      }
    }
  }

  // ---------- Nonces over a whole run ----------

  /** Sealing gives the cipher only nonces that are new, all different, and marks exactly those as used. */
  lemma {:induction false} SealingNonces(s: Stream, pieces: seq<bytes>, index: nat, used: set<bytes>)
    ensures var r := SealFrom(s, pieces, index, used);
      NoDuplicates(r.nonces) && Elements(r.nonces) !! used && r.used == used + Elements(r.nonces)
    decreases |pieces|
  {
    hide Info;
    if pieces != [] && s.ChunkNonceAt(index) !in used {
      var nonce := s.ChunkNonceAt(index);
      if s.EncryptWithKey(pieces[0], nonce).Ok? {
        SealingNonces(s, pieces[1..], index + 1, used + {nonce});
        var rest := SealFrom(s, pieces[1..], index + 1, used + {nonce}).nonces;
        assert forall x :: x in rest ==> x in Elements(rest);
        assert Elements([nonce] + rest) == {nonce} + Elements(rest);
      }
    }
  }

  /** The outcomes of a sequence of encrypt_record calls on one encryptor, each a file name and its data. */
  function Run(s: Stream, calls: seq<(bytes, bytes)>, used: set<bytes>): (seq<Result<bytes>>, seq<bytes>) {
    if calls == [] then ([], [])
    else
      var (r, sealing) := EncryptSpec(s, calls[0].0, calls[0].1, used);
      var (rs, nonces) := Run(s, calls[1..], sealing.used);
      ([r] + rs, sealing.nonces + nonces)
  }

  lemma UsedUpEncryptor(s: Stream, filename: bytes, data: bytes, used: set<bytes>)
    ensures s.ChunkNonceAt(0) in EncryptSpec(s, filename, data, used).1.used
    ensures s.ChunkNonceAt(0) in used ==>
      EncryptSpec(s, filename, data, used) == (Err(NonceReuse), Sealing(Err(NonceReuse), used, []))
  {
    hide Info;
    SealingNonces(s, Pieces(filename, data), 0, used);
    var nonce := s.ChunkNonceAt(0);
    var sealing := SealFrom(s, Pieces(filename, data), 0, used);
    if nonce !in used {
      assert sealing.nonces[0] == nonce;
      assert nonce in Elements(sealing.nonces);
    }
  }

  lemma {:induction false} UsedUpRun(s: Stream, calls: seq<(bytes, bytes)>, used: set<bytes>)
    requires s.ChunkNonceAt(0) in used
    ensures var (results, nonces) := Run(s, calls, used);
      |results| == |calls| && nonces == [] && forall i :: 0 <= i < |calls| ==> results[i] == Err(NonceReuse)
  {
    hide EncryptSpec;
    if calls != [] {
      UsedUpEncryptor(s, calls[0].0, calls[0].1, used);
      UsedUpRun(s, calls[1..], used);
    }
  }

  /** Over any sequence of calls on one encryptor the cipher never sees a nonce twice, and at most the
      first call returns a record: every later one returns NonceReuse. */
  lemma OneRecordPerEncryptor(s: Stream, calls: seq<(bytes, bytes)>, used: set<bytes>)
    ensures var (results, nonces) := Run(s, calls, used);
      && |results| == |calls|
      && NoDuplicates(nonces) && Elements(nonces) !! used
      && forall i :: 1 <= i < |calls| ==> results[i] == Err(NonceReuse)
  {
    if calls != [] {
      var (filename, data) := calls[0];
      SealingNonces(s, Pieces(filename, data), 0, used);
      UsedUpEncryptor(s, filename, data, used);
      var sealing := EncryptSpec(s, filename, data, used).1;
      UsedUpRun(s, calls[1..], sealing.used);
      assert sealing.nonces + [] == sealing.nonces;
    }
  }

  // ---------- Decryption ----------

  /** Walk the frames of a region from position `index` on, opening each with the key of its position. */
  function DecryptFrom(s: Stream, region: bytes, index: nat): Result<seq<bytes>>
    decreases |region|
  {
    if region == [] then Ok([])
    else
      match FirstFrame(region)
      case None => Err(CorruptedChunk)
      case Some(data) =>
        match s.DecryptWithKey(s.ChunkKeyAt(index), data)
        case Err(e) => Err(e)
        case Ok(plaintext) => Prepend([plaintext], DecryptFrom(s, region[4 + |data|..], index + 1))
  }

  function Prepend(done: seq<bytes>, rest: Result<seq<bytes>>): Result<seq<bytes>> {
    match rest
    case Err(e) => Err(e)
    case Ok(more) => Ok(done + more)
  }

  function ParseMetadata(prim: Primitives, m: bytes): Result<(bytes, nat)> {
    if m == [] then Err(CorruptedChunk)
    else if m[0] != RECORD_TYPE_PUT then Err(InvalidHeader)
    else if 5 > |m| then Err(CorruptedChunk)
    else
      var n := FromLittleEndian(m[1..5]);
      if 5 + n > |m| then Err(CorruptedChunk)
      else if !prim.utf8(m[5..5 + n]) then Err(CorruptedChunk)
      else if 13 + n > |m| then Err(CorruptedChunk)
      else Ok((m[5..5 + n], FromLittleEndian(m[5 + n..13 + n])))
  }

  /** `Vec::truncate`. */
  function Truncate(b: bytes, n: nat): bytes {
    if |b| <= n then b else b[..n]
  }

  function Assemble(prim: Primitives, chunks: seq<bytes>): Result<(bytes, bytes)> {
    if chunks == [] then Err(CorruptedChunk)
    else
      match ParseMetadata(prim, chunks[0])
      case Err(e) => Err(e)
      case Ok((filename, dataLen)) => Ok((filename, Truncate(Concat(chunks[1..]), dataLen)))
  }

  function DecryptV2Spec(prim: Primitives, cipher: CipherId, key: bytes, record: bytes): Result<(bytes, bytes)> {
    if |record| < HEADER_SIZE + 32 then Err(InvalidHeader)
    else
      var s, body := Stream(prim, cipher, key, record[5..29]), record[..|record| - 32];
      if s.FinalHmac(body) != record[|record| - 32..] then Err(DecryptionFailed)
      else
        match DecryptFrom(s, body[HEADER_SIZE..], 0)
        case Err(e) => Err(e)
        case Ok(chunks) => Assemble(prim, chunks)
  }

  function DecryptRecordSpec(prim: Primitives, cipher: CipherId, key: bytes, record: bytes,
                             legacy: Result<(bytes, bytes)>): Result<(bytes, bytes)> {
    if |record| < 4 then Err(InvalidHeader)
    else if record[..4] != RECORD_MAGIC then Err(InvalidMagic)
    else if |record| < 5 then Err(InvalidVersion)
    else if record[4] == 0x02 then DecryptV2Spec(prim, cipher, key, record)
    else if record[4] == 0x01 then legacy
    else Err(InvalidVersion)
  }

  /** Terminates and stays in bounds on every byte string: there is no precondition. */
  method DecryptV2(prim: Primitives, cipher: CipherId, key: bytes, record: bytes)
    returns (r: Result<(bytes, bytes)>)
    ensures r == DecryptV2Spec(prim, cipher, key, record)
  {
    hide Info, FromLittleEndian, DecryptFrom;
    if |record| < HEADER_SIZE + 32 {
      return Err(InvalidHeader);
    }
    var s := Stream(prim, cipher, key, record[5..29]);
    var hmacStart := |record| - 32;
    var recordData := record[..hmacStart];
    var expectedHmac := s.FinalHmac(recordData);
    if expectedHmac != record[hmacStart..] {
      return Err(DecryptionFailed);
    }
    var offset, chunkIndex := HEADER_SIZE, 0;
    var allChunks: seq<bytes> := [];
    ghost var whole := DecryptFrom(s, recordData[offset..], 0);
    PrependNothing(whole);
    while offset < hmacStart
      invariant HEADER_SIZE <= offset <= hmacStart
      invariant whole == Prepend(allChunks, DecryptFrom(s, recordData[offset..], chunkIndex))
      decreases hmacStart - offset
    {
      DecryptStep(s, recordData, offset, chunkIndex, allChunks);
      if offset + 4 > hmacStart {
        return Err(CorruptedChunk);
      }
      var chunkLen := FromLittleEndian(recordData[offset..offset + 4]);
      offset := offset + 4;
      if offset + chunkLen > hmacStart {
        return Err(CorruptedChunk);
      }
      var encryptedChunk := recordData[offset..offset + chunkLen];
      offset := offset + chunkLen;
      var chunkKey := s.ChunkKeyAt(chunkIndex);
      var decrypted := s.DecryptWithKey(chunkKey, encryptedChunk);
      if decrypted.Err? {
        return Err(decrypted.error);
      }
      allChunks := allChunks + [decrypted.value];
      chunkIndex := chunkIndex + 1;
    }
    DecryptNothing(s, recordData[offset..], chunkIndex);
    assert allChunks + [] == allChunks;
    return Assemble(prim, allChunks);
  }

  lemma PrependNothing(whole: Result<seq<bytes>>)
    ensures Prepend([], whole) == whole
  {
    if whole.Ok? {
      assert [] + whole.value == whole.value;
    }
  }

  lemma DecryptNothing(s: Stream, region: bytes, index: nat)
    requires region == []
    ensures DecryptFrom(s, region, index) == Ok([])
  {}

  lemma DecryptStep(s: Stream, data: bytes, offset: nat, index: nat, done: seq<bytes>)
    requires offset < |data|
    ensures Prepend(done, DecryptFrom(s, data[offset..], index)) ==
      if offset + 4 > |data| then Err(CorruptedChunk)
      else
        var n := FromLittleEndian(data[offset..offset + 4]);
        if offset + 4 + n > |data| then Err(CorruptedChunk)
        else
          var r := s.DecryptWithKey(s.ChunkKeyAt(index), data[offset + 4..offset + 4 + n]);
          if r.Err? then Err(r.error)
          else Prepend(done + [r.value], DecryptFrom(s, data[offset + 4 + n..], index + 1))
  {
    hide Info, FromLittleEndian, Stream.DecryptWithKey, Stream.ChunkKeyFor, Stream.ChunkNonceAt;
    var region := data[offset..];
    if |region| >= 4 {
      assert region[..4] == data[offset..offset + 4];
      var n := FromLittleEndian(region[..4]);
      if 4 + n <= |region| {
        assert region[4..4 + n] == data[offset + 4..offset + 4 + n];
        assert region[4 + n..] == data[offset + 4 + n..];
        var r := s.DecryptWithKey(s.ChunkKeyAt(index), region[4..4 + n]);
        var rest := DecryptFrom(s, region[4 + n..], index + 1);
        if r.Ok? && rest.Ok? {
          assert done + ([r.value] + rest.value) == done + [r.value] + rest.value;
        }
      }
    }
  }

  /** `legacy` is the outcome of the version 1 path, which is not part of this model. */
  method DecryptRecord(prim: Primitives, cipher: CipherId, key: bytes, record: bytes,
                       legacy: Result<(bytes, bytes)>) returns (r: Result<(bytes, bytes)>)
    ensures r == DecryptRecordSpec(prim, cipher, key, record, legacy)
    ensures |record| < 4 ==> r == Err(InvalidHeader)
    ensures |record| >= 4 && record[..4] != Ascii("V2RC") ==> r == Err(InvalidMagic)
    ensures record == Ascii("V2RC") ==> r == Err(InvalidVersion)
    ensures |record| >= 5 && record[..4] == Ascii("V2RC") ==>
      r == match record[4]
           case 1 => legacy
           case 2 => DecryptV2Spec(prim, cipher, key, record)
           case _ => Err(InvalidVersion)
  {
    hide DecryptV2Spec;
    var sizeOk := ValidateChunkSize(CHUNK_SIZE);
    assert sizeOk.Ok?;
    if |record| < 4 {
      return Err(InvalidHeader);
    }
    if record[0..4] != RECORD_MAGIC {
      return Err(InvalidMagic);
    }
    if |record| < 5 {
      return Err(InvalidVersion);
    }
    var formatVersion := record[4];
    if formatVersion == 0x02 {
      r := DecryptV2(prim, cipher, key, record);
    } else if formatVersion == 0x01 {
      r := legacy;
    } else {
      r := Err(InvalidVersion);
    }
  }

  /** The frames open, each under the key of its position, to the chunks. */
  ghost predicate Opens(s: Stream, frames: seq<bytes>, index: nat, chunks: seq<bytes>) {
    if frames == [] then chunks == []
    else
      && chunks != []
      && s.DecryptWithKey(s.ChunkKeyAt(index), frames[0]) == Ok(chunks[0])
      && Opens(s, frames[1..], index + 1, chunks[1..])
  }

  /** Decryption reads exactly the frames of the region: it returns some chunks if and only if the region is
      a whole number of frames that open to them. */
  lemma {:induction false} DecryptsExactlyTheFrames(s: Stream, region: bytes, index: nat, chunks: seq<bytes>)
    ensures DecryptFrom(s, region, index) == Ok(chunks)
      <==> Split(region).Some? && Opens(s, Split(region).value, index, chunks)
    decreases |region|
  {
    hide Info, FirstFrame;
    if region != [] && FirstFrame(region).Some? {
      var data := FirstFrame(region).value;
      var rest := region[4 + |data|..];
      if chunks != [] {
        DecryptsExactlyTheFrames(s, rest, index + 1, chunks[1..]);
        assert chunks == [chunks[0]] + chunks[1..];
      }
      if Split(rest).Some? {
        assert ([data] + Split(rest).value)[1..] == Split(rest).value;
      }
      var tail := DecryptFrom(s, rest, index + 1);
      var head := s.DecryptWithKey(s.ChunkKeyAt(index), data);
      if head.Ok? && tail.Ok? {
        assert ([head.value] + tail.value)[1..] == tail.value;
      }
    }
  }

  // ---------- Round trip ----------

  /** A sealed sequence of frames holds, position by position, the sealed pieces. */
  lemma {:induction false} SealedFrames(s: Stream, pieces: seq<bytes>, index: nat, used: set<bytes>)
    requires SealFrom(s, pieces, index, used).result.Ok?
    ensures var r := SealFrom(s, pieces, index, used);
      var frames := r.result.value;
      && |frames| == |r.nonces| == |pieces|
      && forall i :: 0 <= i < |pieces| ==>
           && r.nonces[i] == s.ChunkNonceAt(index + i)
           && s.EncryptWithKey(pieces[i], r.nonces[i]) == Ok(frames[i])
    decreases |pieces|
  {
    hide Info, Stream.EncryptWithKey, Stream.ChunkNonceAt;
    if pieces != [] {
      var nonce := s.ChunkNonceAt(index);
      SealedFrames(s, pieces[1..], index + 1, used + {nonce});
      var r, rest := SealFrom(s, pieces, index, used), SealFrom(s, pieces[1..], index + 1, used + {nonce});
      forall i | 1 <= i < |pieces|
        ensures r.nonces[i] == rest.nonces[i - 1] && r.result.value[i] == rest.result.value[i - 1] {}
    }
  }

  ghost predicate HoldsPieces(s: Stream, frames: seq<bytes>, pieces: seq<bytes>, index: nat) {
    && |frames| == |pieces|
    && forall i :: 0 <= i < |frames| ==>
         |frames[i]| == |pieces[i]| + 40 && s.DecryptWithKey(s.ChunkKeyAt(index + i), frames[i]) == Ok(pieces[i])
  }

  lemma SealedFramesOpen(s: Stream, pieces: seq<bytes>, used: set<bytes>)
    requires s.Valid() && SealFrom(s, pieces, 0, used).result.Ok?
    ensures HoldsPieces(s, SealFrom(s, pieces, 0, used).result.value, pieces, 0)
  {
    hide Info, SealFrom, Stream.EncryptWithKey, Stream.DecryptWithKey, Stream.ChunkNonceAt;
    SealedFrames(s, pieces, 0, used);
    forall i | 0 <= i < |pieces| {
      s.DecryptsOwnFrame(pieces[i], i);
    }
  }

  lemma {:induction false} DecryptJoined(s: Stream, frames: seq<bytes>, pieces: seq<bytes>, index: nat)
    requires HoldsPieces(s, frames, pieces, index) && Framable(frames)
    ensures DecryptFrom(s, Join(frames), index) == Ok(pieces)
  {
    hide Info, Frame, FirstFrame;
    if frames != [] {
      FirstFrameOfFrame(frames[0], Join(frames[1..]));
      assert |Frame(frames[0])| >= 4;
      forall i | 0 <= i < |frames| - 1
        ensures s.DecryptWithKey(s.ChunkKeyAt(index + 1 + i), frames[1..][i]) == Ok(pieces[1..][i])
      {
        assert index + 1 + i == index + (i + 1);
      }
      DecryptJoined(s, frames[1..], pieces[1..], index + 1);
      assert [pieces[0]] + pieces[1..] == pieces;
    } else {
      assert pieces == [];
    }
  }

  /** Metadata is read back exactly when the name is valid UTF-8 and both lengths fit their fields. */
  lemma MetadataRoundTrip(prim: Primitives, filename: bytes, dataLen: nat)
    ensures ParseMetadata(prim, Metadata(filename, dataLen)) == Ok((filename, dataLen))
      <==> prim.utf8(filename) && |filename| < TWO_32 && dataLen < TWO_64
  {
    hide LittleEndian, FromLittleEndian, U32Le, U64Le;
    var m, n := Metadata(filename, dataLen), |filename|;
    assert m[1..5] == U32Le(n);
    U32RoundTrip(n);
    U64RoundTrip(dataLen);
    if n < TWO_32 {
      SmallRemainder(n, TWO_32);
      assert m[5..5 + n] == filename;
      assert m[5 + n..13 + n] == U64Le(dataLen);
      if dataLen < TWO_64 {
        SmallRemainder(dataLen, TWO_64);
      }
    }
  }

  /** The record the format can hold: the metadata frame length fits its 32-bit field. */
  ghost predicate Representable(prim: Primitives, filename: bytes, data: bytes) {
    prim.utf8(filename) && |filename| + 53 < TWO_32 && |data| < TWO_64
  }

  lemma SealedRecordLayout(s: Stream, frames: seq<bytes>)
    requires s.Valid()
    ensures var body := Body(s, frames);
      var record := Seal(s, body);
      && |record| >= HEADER_SIZE + 32
      && record[..4] == RECORD_MAGIC && record[4] == FORMAT_VERSION && record[5..29] == s.baseNonce
      && record[..|record| - 32] == body && record[|record| - 32..] == s.FinalHmac(body)
      && body[HEADER_SIZE..] == Join(frames)
  {
    hide Info, Join;
    var body := Body(s, frames);
    assert |s.Header()| == HEADER_SIZE;
    assert Seal(s, body)[..4] == RECORD_MAGIC;
  }

  lemma PiecesFit(s: Stream, filename: bytes, data: bytes, used: set<bytes>)
    requires s.Valid() && Representable(s.prim, filename, data)
    requires SealFrom(s, Pieces(filename, data), 0, used).result.Ok?
    ensures Framable(SealFrom(s, Pieces(filename, data), 0, used).result.value)
    ensures HoldsPieces(s, SealFrom(s, Pieces(filename, data), 0, used).result.value, Pieces(filename, data), 0)
  {
    hide Info, SealFrom;
    ChunksJoin(data);
    SealedFramesOpen(s, Pieces(filename, data), used);
  }

  /** Round trip: whatever record encrypt_record returns, decrypt_record returns exactly the file name and
      the data, for both ciphers and every data length. */
  lemma RecordRoundTrip(s: Stream, filename: bytes, data: bytes, used: set<bytes>, legacy: Result<(bytes, bytes)>)
    requires s.Valid() && Representable(s.prim, filename, data)
    requires EncryptSpec(s, filename, data, used).0.Ok?
    ensures DecryptRecordSpec(s.prim, s.cipher, s.key, EncryptSpec(s, filename, data, used).0.value, legacy)
         == Ok((filename, data))
  {
    hide Info, SealFrom, DecryptFrom, ParseMetadata, Metadata, Seal, Body;
    var pieces := Pieces(filename, data);
    var frames := SealFrom(s, pieces, 0, used).result.value;
    var record := Seal(s, Body(s, frames));
    PiecesFit(s, filename, data, used);
    DecryptJoined(s, frames, pieces, 0);
    SealedRecordLayout(s, frames);
    assert Stream(s.prim, s.cipher, s.key, record[5..29]) == s;
    MetadataRoundTrip(s.prim, filename, |data|);
    ChunksJoin(data);
    assert pieces[1..] == Chunks(data);
  }

  /** What can be read from the first chunk is bounded by its length, and the data by its length field. */
  lemma AssembleBounds(prim: Primitives, chunks: seq<bytes>)
    ensures Assemble(prim, chunks).Ok? ==>
      var (filename, data) := Assemble(prim, chunks).value;
      && prim.utf8(filename)
      && chunks != [] && |filename| + 13 <= |chunks[0]|
      && |data| < TWO_64
  {
    hide FromLittleEndian;
    if Assemble(prim, chunks).Ok? {
      var m := chunks[0];
      var n := FromLittleEndian(m[1..5]);
      hide Concat;
      LittleEndianOfValue(m[5 + n..13 + n]);
      Widths();
    }
  }

  lemma DecryptRemovesForty(s: Stream, key: bytes, data: bytes)
    requires s.Valid()
    ensures s.DecryptWithKey(key, data).Ok? ==> |s.DecryptWithKey(key, data).value| + 40 == |data|
  {}

  /** The first chunk decrypted from a region is 40 bytes shorter than the first length field says. */
  lemma FirstChunkLength(s: Stream, frames: seq<bytes>)
    requires s.Valid() && frames != []
    ensures var r := DecryptFrom(s, Join(frames), 0);
      r.Ok? ==> r.value != [] && |r.value[0]| + 40 == |frames[0]| % TWO_32
  {
    hide Info, U32Le, FromLittleEndian, Stream.DecryptWithKey;
    var region, n := Join(frames), |frames[0]|;
    assert region[..4] == U32Le(n);
    U32RoundTrip(n);
    if DecryptFrom(s, region, 0).Ok? {
      var data := FirstFrame(region).value;
      assert |data| == n % TWO_32;
      DecryptRemovesForty(s, s.ChunkKeyAt(0), data);
    }
  }

  lemma WrappedLength(n: nat)
    ensures n % TWO_32 <= n && (n >= TWO_32 ==> n % TWO_32 < n)
  {}

  lemma FirstFrameLength(s: Stream, filename: bytes, data: bytes, used: set<bytes>)
    requires s.Valid() && SealFrom(s, Pieces(filename, data), 0, used).result.Ok?
    ensures var frames := SealFrom(s, Pieces(filename, data), 0, used).result.value;
      frames != [] && |frames[0]| == |filename| + 53
  {
    hide Info, SealFrom, Metadata, Stream.DecryptWithKey;
    SealedFramesOpen(s, Pieces(filename, data), used);
  }

  /** The round trip holds exactly for what the format can hold: of all records that encryption returns, those
      and only those with a UTF-8 name, a metadata frame below 2^32 bytes and data below 2^64 bytes decrypt to
      the name and data that went in. */
  lemma RoundTripExactly(s: Stream, filename: bytes, data: bytes, used: set<bytes>, legacy: Result<(bytes, bytes)>)
    requires s.Valid() && EncryptSpec(s, filename, data, used).0.Ok?
    ensures var record := EncryptSpec(s, filename, data, used).0.value;
      var r := DecryptRecordSpec(s.prim, s.cipher, s.key, record, legacy);
      r == Ok((filename, data)) <==> Representable(s.prim, filename, data)
  {
    hide Info, SealFrom, DecryptFrom, Assemble, Metadata, Seal, Body, Join;
    if Representable(s.prim, filename, data) {
      RecordRoundTrip(s, filename, data, used, legacy);
    } else {
      var frames := SealFrom(s, Pieces(filename, data), 0, used).result.value;
      var record := Seal(s, Body(s, frames));
      SealedRecordLayout(s, frames);
      assert Stream(s.prim, s.cipher, s.key, record[5..29]) == s;
      FirstFrameLength(s, filename, data, used);
      FirstChunkLength(s, frames);
      WrappedLength(|frames[0]|);
      var chunks := DecryptFrom(s, Join(frames), 0);
      if chunks.Ok? {
        AssembleBounds(s.prim, chunks.value);
      }
    }
  }

  lemma SealOnePiece(s: Stream, piece: bytes, index: nat)
    ensures SealFrom(s, [piece], index, {}).result.Ok? <==> s.EncryptWithKey(piece, s.ChunkNonceAt(index)).Ok?
  {
    hide Info, Stream.EncryptWithKey, Stream.ChunkNonceAt;
    assert [piece][1..] == [];
    assert SealFrom(s, [], index + 1, {s.ChunkNonceAt(index)}).result == Ok([]);
  }

  /** Names of any length are written: with the toy primitives an empty file always gives a record, and with a
      name of 2^32 - 53 bytes or more that record does not give the name back. */
  lemma LongNamesAreWritten(cipher: CipherId, key: bytes, baseNonce: bytes, filename: bytes,
                            legacy: Result<(bytes, bytes)>)
    requires |baseNonce| == 24
    ensures var s := Stream(Toy(), cipher, key, baseNonce);
      var record := EncryptSpec(s, filename, [], {}).0;
      && s.Valid() && record.Ok?
      && var r := DecryptRecordSpec(s.prim, cipher, key, record.value, legacy);
         r == Ok((filename, [])) <==> |filename| + 53 < TWO_32
  {
    hide Info, Metadata, Seal, Body, DecryptRecordSpec, SealFrom;
    var s := Stream(Toy(), cipher, key, baseNonce);
    ToyIsLawful();
    assert Pieces(filename, []) == [Metadata(filename, 0)];
    SealOnePiece(s, Metadata(filename, 0), 0);
    RoundTripExactly(s, filename, [], {}, legacy);
  }

  /** Just beyond the 32-bit length field decryption does not even find a nonce: a metadata frame of 2^32 to
      2^32 + 23 bytes is always reported as InvalidNonce. */
  lemma OversizedMetadataIsLost(s: Stream, filename: bytes, data: bytes, used: set<bytes>, legacy: Result<(bytes, bytes)>)
    requires s.Valid() && TWO_32 <= |filename| + 53 < TWO_32 + 24
    requires EncryptSpec(s, filename, data, used).0.Ok?
    ensures DecryptRecordSpec(s.prim, s.cipher, s.key, EncryptSpec(s, filename, data, used).0.value, legacy)
         == Err(InvalidNonce)
  {
    hide Info, SealFrom, Metadata, Seal, Body, FromLittleEndian, LittleEndian, U32Le;
    var pieces := Pieces(filename, data);
    var frames := SealFrom(s, pieces, 0, used).result.value;
    var record := Seal(s, Body(s, frames));
    SealedFramesOpen(s, pieces, used);
    SealedRecordLayout(s, frames);
    assert Stream(s.prim, s.cipher, s.key, record[5..29]) == s;
    var region, n := Join(frames), |frames[0]|;
    assert n == |filename| + 53;
    assert region[..4] == U32Le(n);
    U32RoundTrip(n);
    SameRemainder(n, n - TWO_32, 1, TWO_32);
    SmallRemainder(n - TWO_32, TWO_32);
    assert FirstFrame(region) == Some(region[4..4 + (n - TWO_32)]);
  }
}
