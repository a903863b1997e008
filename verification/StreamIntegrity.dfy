/** What the two layers of a V2RC record guarantee against altered records, for ideal primitives. */
module StreamIntegrity {
  import opened Options
  import opened CryptoResult
  import opened Bytes
  import opened Primitives
  import opened Kdf
  import opened Frames
  import opened Streaming

  // ---------- With an ideal MAC ----------

  /** One file written under a master key, and the record it became. */
  datatype Written = Written(baseNonce: bytes, filename: bytes, data: bytes, used: set<bytes>, record: bytes)

  ghost predicate IsRecordOf(prim: Primitives, cipher: CipherId, key: bytes, w: Written) {
    && |w.baseNonce| == 24
    && Representable(prim, w.filename, w.data)
    && EncryptSpec(Stream(prim, cipher, key, w.baseNonce), w.filename, w.data, w.used).0 == Ok(w.record)
  }

  /** The last 32 bytes of `record` are the MAC of all bytes before them, under the key derived for it. */
  ghost predicate TagVerifies(prim: Primitives, key: bytes, record: bytes) {
    && |record| >= HEADER_SIZE + 32
    && prim.hmac(prim.hkdf(None, key, Ascii("stream_hmac_key"), 32), record[..|record| - 32])
         == record[|record| - 32..]
  }

  /** Decryption accepts nothing whose tag does not verify: such a string is DecryptionFailed if it is long
      enough to have a header and a tag, and InvalidHeader if not. */
  lemma TagIsRequired(prim: Primitives, cipher: CipherId, key: bytes, record: bytes)
    ensures !TagVerifies(prim, key, record) ==>
      DecryptV2Spec(prim, cipher, key, record)
        == Err(if |record| < 61 then InvalidHeader else DecryptionFailed)
  {
    hide DecryptFrom, Assemble;
  }

  /** An ideal MAC: a tag verifies only over a body the key holder authenticated. */
  ghost predicate MacIsIdeal(prim: Primitives, key: bytes, history: seq<Written>, record: bytes) {
    TagVerifies(prim, key, record) ==>
      exists i :: 0 <= i < |history| && |history[i].record| >= 32
        && history[i].record[..|history[i].record| - 32] == record[..|record| - 32]
  }

  ghost predicate WasWritten(history: seq<Written>, record: bytes, filename: bytes, data: bytes) {
    exists i :: 0 <= i < |history|
      && history[i].record == record && history[i].filename == filename && history[i].data == data
  }

  /** Under an ideal MAC, decrypting any byte string whatsoever gives an error, or the string is one of the
      records written and the result is exactly the file written into it. */
  lemma AlteredRecordsAreRejected(prim: Primitives, cipher: CipherId, key: bytes,
                                  history: seq<Written>, record: bytes)
    requires prim.Lawful()
    requires forall i :: 0 <= i < |history| ==> IsRecordOf(prim, cipher, key, history[i])
    requires MacIsIdeal(prim, key, history, record)
    ensures var r := DecryptV2Spec(prim, cipher, key, record);
      r.Err? || WasWritten(history, record, r.value.0, r.value.1)
  {
    TagIsRequired(prim, cipher, key, record);
    if DecryptV2Spec(prim, cipher, key, record).Ok? {
      hide Info, EncryptSpec, DecryptV2Spec, DecryptRecordSpec, Representable, TagVerifies;
      assert TagVerifies(prim, key, record);
      var i :| 0 <= i < |history| && |history[i].record| >= 32
        && history[i].record[..|history[i].record| - 32] == record[..|record| - 32];
      var w := history[i];
      assert IsRecordOf(prim, cipher, key, w);
      var s := Stream(prim, cipher, key, w.baseNonce);
      RecordRoundTrip(s, w.filename, w.data, w.used, Err(InvalidVersion));
      RecordIsV2(s, w.filename, w.data, w.used);
      SameBodySameRecord(prim, key, w.record, record);
    }
  }

  lemma HmacWrittenOut(s: Stream, data: bytes)
    ensures s.FinalHmac(data) == s.prim.hmac(s.prim.hkdf(None, s.key, Ascii("stream_hmac_key"), 32), data)
  {}

  /** Records carry the V2 header, so decrypt_record takes the V2 path. */
  lemma RecordIsV2(s: Stream, filename: bytes, data: bytes, used: set<bytes>)
    requires s.Valid() && EncryptSpec(s, filename, data, used).0.Ok?
    ensures var record := EncryptSpec(s, filename, data, used).0.value;
      && TagVerifies(s.prim, s.key, record)
      && forall legacy :: DecryptRecordSpec(s.prim, s.cipher, s.key, record, legacy)
           == DecryptV2Spec(s.prim, s.cipher, s.key, record)
  {
    hide Info, SealFrom, Seal, Body, DecryptV2Spec;
    var frames := SealFrom(s, Pieces(filename, data), 0, used).result.value;
    SealedRecordLayout(s, frames);
    HmacWrittenOut(s, Body(s, frames));
  }

  lemma SameBodySameRecord(prim: Primitives, key: bytes, a: bytes, b: bytes)
    requires TagVerifies(prim, key, a) && TagVerifies(prim, key, b)
    requires a[..|a| - 32] == b[..|b| - 32]
    ensures a == b
  {
    hide Info;
    assert a == a[..|a| - 32] + a[|a| - 32..];
    assert b == b[..|b| - 32] + b[|b| - 32..];
    assert a[5..29] == a[..|a| - 32][5..29] == b[..|b| - 32][5..29] == b[5..29];
  }

  // ---------- With an ideal AEAD alone ----------

  /** The cipher call behind frame `i`. */
  ghost predicate SealedAt(s: Stream, frames: seq<bytes>, i: nat, key: bytes, nonce: bytes, ciphertext: bytes) {
    && i < |frames| && |frames[i]| >= 24
    && key == s.ChunkKeyAt(i) && nonce == s.AeadNonce(frames[i][..24]) && ciphertext == frames[i][24..]
  }

  /** `data` opens at a position only if the encryptor sealed it under that key and nonce. */
  ghost predicate NotForged(s: Stream, frames: seq<bytes>, data: bytes) {
    forall index: nat :: s.DecryptWithKey(s.ChunkKeyAt(index), data).Ok? ==>
      exists i :: SealedAt(s, frames, i, s.ChunkKeyAt(index), s.AeadNonce(data[..24]), data[24..])
  }

  /** An ideal AEAD: of the frames in `given`, nothing opens but what the encryptor sealed in `frames`. */
  ghost predicate AeadIsIdeal(s: Stream, frames: seq<bytes>, given: seq<bytes>) {
    forall k :: 0 <= k < |given| ==> NotForged(s, frames, given[k])
  }

  /** The chunk keys of the positions in use differ from those of all other positions. */
  ghost predicate ChunkKeysDiffer(s: Stream, count: nat) {
    forall i, j {:trigger s.ChunkKeyAt(i), s.ChunkKeyAt(j)} ::
      0 <= i < count && 0 <= j < TWO_64 && i != j ==> s.ChunkKeyAt(i) != s.ChunkKeyAt(j)
  }

  /** A frame opens at a position only if it is the frame sealed there, as far as the cipher can tell. */
  lemma OpensOnlyAtItsPosition(s: Stream, frames: seq<bytes>, pieces: seq<bytes>, index: nat, data: bytes)
    requires HoldsPieces(s, frames, pieces, 0) && NotForged(s, frames, data)
    requires ChunkKeysDiffer(s, |frames|) && index < TWO_64
    requires s.DecryptWithKey(s.ChunkKeyAt(index), data).Ok?
    ensures index < |frames| && s.DecryptWithKey(s.ChunkKeyAt(index), data) == Ok(pieces[index])
    ensures |frames[index]| >= 24 && s.AeadNonce(data[..24]) == s.AeadNonce(frames[index][..24])
    ensures data[24..] == frames[index][24..]
  {
    hide Info;
    var i: nat :| SealedAt(s, frames, i, s.ChunkKeyAt(index), s.AeadNonce(data[..24]), data[24..]);
    assert i == index;
    assert s.DecryptWithKey(s.ChunkKeyAt(0 + i), frames[i]) == Ok(pieces[i]);
  }

  /** Even without the MAC, whatever replaces the chunk region decrypts to an error or to a prefix of the
      original pieces: only cutting off whole frames at the end goes unnoticed by the cipher. */
  lemma {:induction false} AlteredRegionGivesPrefix(s: Stream, frames: seq<bytes>, pieces: seq<bytes>,
                                                    region: bytes, index: nat)
    requires HoldsPieces(s, frames, pieces, 0) && ChunkKeysDiffer(s, |frames|)
    requires Split(region).Some? ==> AeadIsIdeal(s, frames, Split(region).value)
    requires index <= |pieces| && index + |region| < TWO_64
    ensures var r := DecryptFrom(s, region, index);
      r.Ok? ==> index + |r.value| <= |pieces| && r.value == pieces[index..index + |r.value|]
    decreases |region|
  {
    hide Info, FirstFrame, HoldsPieces, AeadIsIdeal, NotForged, ChunkKeysDiffer;
    var r := DecryptFrom(s, region, index);
    if region != [] && r.Ok? {
      DecryptsExactlyTheFrames(s, region, index, r.value);
      var data := FirstFrame(region).value;
      var given := Split(region).value;
      assert data == given[0];
      IdealForAll(s, frames, given);
      OpensOnlyAtItsPosition(s, frames, pieces, index, data);
      HoldsAsMany(s, frames, pieces);
      AlteredRegionGivesPrefix(s, frames, pieces, region[4 + |data|..], index + 1);
    }
  }

  lemma IdealForAll(s: Stream, frames: seq<bytes>, given: seq<bytes>)
    requires given != [] && AeadIsIdeal(s, frames, given)
    ensures NotForged(s, frames, given[0]) && AeadIsIdeal(s, frames, given[1..])
  {}

  lemma HoldsAsMany(s: Stream, frames: seq<bytes>, pieces: seq<bytes>)
    requires HoldsPieces(s, frames, pieces, 0)
    ensures |frames| == |pieces|
  {}

  /** The nonces handed to the cipher differ between frames. */
  ghost predicate AeadNoncesDiffer(s: Stream, frames: seq<bytes>) {
    forall i, j :: 0 <= i < j < |frames| && |frames[i]| >= 24 && |frames[j]| >= 24 ==>
      s.AeadNonce(frames[i][..24]) != s.AeadNonce(frames[j][..24])
  }

  function Rearrange(frames: seq<bytes>, order: seq<nat>): (g: seq<bytes>)
    requires forall i :: 0 <= i < |order| ==> order[i] < |frames|
    ensures |g| == |order|
  {
    seq(|order|, i requires 0 <= i < |order| => frames[order[i]])
  }

  ghost predicate InPlace(order: seq<nat>, index: nat) {
    forall i :: 0 <= i < |order| ==> order[i] == index + i
  }

  lemma InPlaceStep(order: seq<nat>, index: nat)
    requires order != []
    ensures InPlace(order, index) <==> order[0] == index && InPlace(order[1..], index + 1)
  {
    var rest := order[1..];
    assert forall i :: 0 <= i < |rest| ==> rest[i] == order[i + 1];
    assert forall i :: 1 <= i < |order| ==> order[i] == rest[i - 1];
  }

  /** Any rearrangement of honest frames - moved, swapped, duplicated, dropped - decrypts if and only if
      every frame is in its place; otherwise it fails at the first displaced frame. */
  lemma {:induction false} DisplacedFrameFails(s: Stream, frames: seq<bytes>, pieces: seq<bytes>,
                                               order: seq<nat>, index: nat)
    requires HoldsPieces(s, frames, pieces, 0) && AeadIsIdeal(s, frames, frames) && ChunkKeysDiffer(s, |frames|)
    requires AeadNoncesDiffer(s, frames) && Framable(frames)
    requires (forall i :: 0 <= i < |order| ==> order[i] < |frames|) && index + |order| < TWO_64
    ensures DecryptFrom(s, Join(Rearrange(frames, order)), index) ==
      if InPlace(order, index) then Ok(Rearrange(pieces, order)) else Err(DecryptionFailed)
    decreases |order|
  {
    hide Info, FirstFrame, Frame, NotForged, ChunkKeysDiffer, Stream.ChunkNonceAt, Stream.ChunkKeyFor, Stream.AeadNonce;
    var g := Rearrange(frames, order);
    if order != [] {
      var rest := order[1..];
      assert g[1..] == Rearrange(frames, rest);
      DisplacedFrameFails(s, frames, pieces, rest, index + 1);
      InPlaceStep(order, index);
      var data := g[0];
      FirstFrameOfFrame(data, Join(g[1..]));
      assert |Frame(data)| >= 4;
      var outcome := s.DecryptWithKey(s.ChunkKeyAt(index), data);
      if outcome.Ok? {
        OpensOnlyAtItsPosition(s, frames, pieces, index, data);
        assert order[0] == index;
        assert [pieces[index]] + Rearrange(pieces, rest) == Rearrange(pieces, order);
      } else {
        assert |data| == |pieces[order[0]]| + 40;
      }
    }
  }

  // ---------- Records of the encryptor ----------

  /** With XChaCha20-Poly1305 the reuse check keeps the nonces of the frames apart. */
  lemma SealedNoncesDiffer(s: Stream, pieces: seq<bytes>, used: set<bytes>)
    requires s.Valid() && s.cipher == XChaCha20Poly1305 && SealFrom(s, pieces, 0, used).result.Ok?
    ensures AeadNoncesDiffer(s, SealFrom(s, pieces, 0, used).result.value)
  {
    hide Info, SealFrom, Stream.ChunkNonceAt, Stream.EncryptWithKey;
    SealedFrames(s, pieces, 0, used);
    SealingNonces(s, pieces, 0, used);
    var r := SealFrom(s, pieces, 0, used);
    forall i | 0 <= i < |pieces| ensures |r.result.value[i]| >= 24 && r.result.value[i][..24] == r.nonces[i] {
      NonceComesFirst(s, pieces[i], i);
    }
  }

  lemma NonceComesFirst(s: Stream, piece: bytes, index: nat)
    requires s.Valid() && s.EncryptWithKey(piece, s.ChunkNonceAt(index)).Ok?
    ensures |s.EncryptWithKey(piece, s.ChunkNonceAt(index)).value| >= 24
    ensures s.EncryptWithKey(piece, s.ChunkNonceAt(index)).value[..24] == s.ChunkNonceAt(index)
  {
    hide Info;
  }

  /** The frames of any record written with XChaCha20-Poly1305, moved, swapped, duplicated or dropped, decrypt
      if and only if every frame is in its place. */
  lemma DisplacedRecordFails(s: Stream, filename: bytes, data: bytes, used: set<bytes>, order: seq<nat>)
    requires s.Valid() && s.cipher == XChaCha20Poly1305 && Representable(s.prim, filename, data)
    requires EncryptSpec(s, filename, data, used).0.Ok?
    requires var frames := SealFrom(s, Pieces(filename, data), 0, used).result.value;
      && AeadIsIdeal(s, frames, frames) && ChunkKeysDiffer(s, |frames|)
      && |order| < TWO_64 && forall i :: 0 <= i < |order| ==> order[i] < |frames|
    ensures var frames, pieces := SealFrom(s, Pieces(filename, data), 0, used).result.value, Pieces(filename, data);
      && |frames| == |pieces|
      && DecryptFrom(s, Join(Rearrange(frames, order)), 0) ==
           if InPlace(order, 0) then Ok(Rearrange(pieces, order)) else Err(DecryptionFailed)
  {
    hide Info, SealFrom, AeadIsIdeal, ChunkKeysDiffer, AeadNoncesDiffer, InPlace, DecryptFrom;
    var pieces := Pieces(filename, data);
    var frames := SealFrom(s, pieces, 0, used).result.value;
    PiecesFit(s, filename, data, used);
    SealedNoncesDiffer(s, pieces, used);
    DisplacedFrameFails(s, frames, pieces, order, 0);
  }
}
