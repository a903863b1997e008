/** Primitives for which the ideal assumptions of StreamIntegrity hold, so that its results are not empty. */
module IdealPrimitives {
  import opened Options
  import opened CryptoResult
  import opened NumberTheory
  import opened Bytes
  import opened Primitives
  import opened Kdf
  import opened Frames
  import opened Streaming
  import opened StreamIntegrity

  /** The last n bytes, after zeros if there are fewer. */
  function LastBytes(b: bytes, n: nat): (r: bytes)
    ensures |r| == n
  {
    if |b| >= n then b[|b| - n..] else Zeros(n - |b|) + b
  }

  /** Nonce and key of a position: the ends of their info strings. */
  function NonceOf(index: nat): bytes {
    LastBytes(Info(ChunkNonce(index % TWO_64)), 24)
  }

  function KeyOf(index: nat): bytes {
    LastBytes(Info(ChunkKey(NonceOf(index))), 32)
  }

  /** One of the pieces, under key and nonce of its position. */
  predicate IsSealed(pieces: seq<bytes>, key: bytes, nonce: bytes, p: bytes) {
    exists i :: 0 <= i < |pieces| && pieces[i] == p && key == KeyOf(i) && nonce == NonceOf(i)
  }

  function ClosedSeal(pieces: seq<bytes>, key: bytes, nonce: bytes, p: bytes): Option<bytes> {
    if IsSealed(pieces, key, nonce, p) then Some(p + Zeros(16)) else None
  }

  function ClosedOpen(pieces: seq<bytes>, key: bytes, nonce: bytes, t: bytes): (p: Option<bytes>)
    ensures p.Some? ==> t == p.value + Zeros(16) && IsSealed(pieces, key, nonce, p.value)
  {
    if |t| >= 16 && t[|t| - 16..] == Zeros(16) && IsSealed(pieces, key, nonce, t[..|t| - 16])
    then Some(t[..|t| - 16]) else None
  }

  lemma OpensWhatItSeals(pieces: seq<bytes>, key: bytes, nonce: bytes, p: bytes)
    requires IsSealed(pieces, key, nonce, p)
    ensures ClosedOpen(pieces, key, nonce, p + Zeros(16)) == Some(p)
  {
    hide IsSealed;
    var t := p + Zeros(16);
    assert t[..|t| - 16] == p && t[|t| - 16..] == Zeros(16);
  }

  /** A cipher that knows only the given pieces; its tag is constant. */
  function Closed(pieces: seq<bytes>): Primitives {
    Primitives(
      (salt, ikm, info, n: nat) => LastBytes(info, n),
      (key, data) => LastBytes(data, 32),
      (c, key, nonce, p) => ClosedSeal(pieces, key, nonce, p),
      (c, key, nonce, t) => ClosedOpen(pieces, key, nonce, t),
      b => true)
  }

  lemma ClosedIsLawful(pieces: seq<bytes>)
    ensures Closed(pieces).Lawful()
  {
    hide LastBytes, IsSealed, ClosedOpen;
    var prim := Closed(pieces);
    forall c, key, nonce, p: bytes | prim.seal(c, key, nonce, p).Some?
      ensures prim.open(c, key, nonce, prim.seal(c, key, nonce, p).value) == Some(p)
    {
      OpensWhatItSeals(pieces, key, nonce, p);
    }
  }

  /** Nonce and key of a position end in its number. */
  lemma EndsInIndex(index: nat)
    ensures var mark := U64Le(index % TWO_64);
      |NonceOf(index)| == 24 && NonceOf(index)[16..] == mark && |KeyOf(index)| == 32 && KeyOf(index)[24..] == mark
  {
    hide U64Le;
    var mark := U64Le(index % TWO_64);
    var info := Ascii("stream_chunk_nonce:") + mark;
    assert Info(ChunkNonce(index % TWO_64)) == info;
    var nonce := NonceOf(index);
    assert nonce == info[3..];
    assert nonce[16..] == mark;
    var keyInfo := Ascii("stream_chunk_key:") + nonce;
    assert Info(ChunkKey(nonce)) == keyInfo;
    assert KeyOf(index) == keyInfo[9..];
    assert KeyOf(index)[24..] == nonce[16..];
  }

  /** Positions below 2^64 have different nonces and different keys. */
  lemma PositionsDiffer(i: nat, j: nat)
    requires i < TWO_64 && j < TWO_64 && (NonceOf(i) == NonceOf(j) || KeyOf(i) == KeyOf(j))
    ensures i == j
  {
    hide NonceOf, KeyOf, U64Le;
    EndsInIndex(i);
    EndsInIndex(j);
    SmallRemainder(i, TWO_64);
    SmallRemainder(j, TWO_64);
    U64Injective(i, j);
  }

  function ClosedStream(pieces: seq<bytes>, key: bytes, baseNonce: bytes): Stream {
    Stream(Closed(pieces), XChaCha20Poly1305, key, baseNonce)
  }

  lemma StreamDerives(pieces: seq<bytes>, key: bytes, baseNonce: bytes, index: nat)
    ensures var s := ClosedStream(pieces, key, baseNonce);
      s.ChunkNonceAt(index) == NonceOf(index) && s.ChunkKeyAt(index) == KeyOf(index)
  {
    hide Info, LastBytes;
  }

  lemma KeyForNonce(pieces: seq<bytes>, key: bytes, baseNonce: bytes, index: nat)
    ensures ClosedStream(pieces, key, baseNonce).ChunkKeyFor(NonceOf(index)) == KeyOf(index)
  {
    hide Info, LastBytes;
  }

  function FrameOf(piece: bytes, index: nat): bytes {
    NonceOf(index) + (piece + Zeros(16))
  }

  lemma SealsPiece(pieces: seq<bytes>, key: bytes, baseNonce: bytes, i: nat)
    requires i < |pieces|
    ensures ClosedStream(pieces, key, baseNonce).EncryptWithKey(pieces[i], NonceOf(i)) == Ok(FrameOf(pieces[i], i))
  {
    hide NonceOf, KeyOf, LastBytes, ClosedOpen;
    KeyForNonce(pieces, key, baseNonce, i);
    assert IsSealed(pieces, KeyOf(i), NonceOf(i), pieces[i]);
  }

  lemma FrameParts(piece: bytes, index: nat)
    ensures FrameOf(piece, index)[..24] == NonceOf(index) && FrameOf(piece, index)[24..] == piece + Zeros(16)
  {
    hide NonceOf;
    EndsInIndex(index);
  }

  lemma OpeningIsClosed(pieces: seq<bytes>, key: bytes, baseNonce: bytes, chunkKey: bytes, data: bytes)
    requires ClosedStream(pieces, key, baseNonce).DecryptWithKey(chunkKey, data).Ok?
    ensures |data| >= 24 && ClosedOpen(pieces, chunkKey, data[..24], data[24..]).Some?
  {
    hide ClosedOpen, LastBytes;
  }

  lemma SealedPiece(pieces: seq<bytes>, key: bytes, nonce: bytes, p: bytes) returns (i: nat)
    requires IsSealed(pieces, key, nonce, p)
    ensures i < |pieces| && pieces[i] == p && key == KeyOf(i) && nonce == NonceOf(i)
  {
    hide KeyOf, NonceOf;
    i :| 0 <= i < |pieces| && pieces[i] == p && key == KeyOf(i) && nonce == NonceOf(i);
  }

  lemma LongEnough(piece: bytes, index: nat)
    ensures |FrameOf(piece, index)| >= 24
  {
    hide NonceOf;
    EndsInIndex(index);
  }

  /** Nothing at all opens but the sealed pieces. */
  lemma NothingIsForged(pieces: seq<bytes>, key: bytes, baseNonce: bytes, frames: seq<bytes>, data: bytes)
    requires |frames| == |pieces| && forall i :: 0 <= i < |pieces| ==> frames[i] == FrameOf(pieces[i], i)
    ensures NotForged(ClosedStream(pieces, key, baseNonce), frames, data)
  {
    hide LastBytes, NonceOf, KeyOf, FrameOf, IsSealed, Stream.ChunkKeyFor, Stream.ChunkNonceAt, Stream.DecryptWithKey;
    var s := ClosedStream(pieces, key, baseNonce);
    forall index: nat | s.DecryptWithKey(s.ChunkKeyAt(index), data).Ok?
      ensures |data| >= 24
      ensures exists i :: SealedAt(s, frames, i, s.ChunkKeyAt(index), s.AeadNonce(data[..24]), data[24..])
    {
      var chunkKey := s.ChunkKeyAt(index);
      OpeningIsClosed(pieces, key, baseNonce, chunkKey, data);
      var p := ClosedOpen(pieces, chunkKey, data[..24], data[24..]).value;
      hide ClosedOpen;
      var i := SealedPiece(pieces, chunkKey, data[..24], p);
      StreamDerives(pieces, key, baseNonce, i);
      FrameParts(pieces[i], i);
      LongEnough(pieces[i], i);
      assert SealedAt(s, frames, i, chunkKey, s.AeadNonce(data[..24]), data[24..]);
    }
  }

  /** For any pieces there are lawful primitives under which the frames of the encryptor satisfy everything
      that `AlteredRegionGivesPrefix` and `DisplacedFrameFails` assume, for every region and rearrangement. */
  lemma IdealAeadExists(pieces: seq<bytes>, key: bytes, baseNonce: bytes) returns (s: Stream, frames: seq<bytes>)
    requires |pieces| <= TWO_64 && |baseNonce| == 24
    ensures s.Valid() && s.key == key && s.baseNonce == baseNonce && |frames| == |pieces|
    ensures forall i :: 0 <= i < |pieces| ==> s.EncryptWithKey(pieces[i], s.ChunkNonceAt(i)) == Ok(frames[i])
    ensures HoldsPieces(s, frames, pieces, 0) && ChunkKeysDiffer(s, |frames|) && AeadNoncesDiffer(s, frames)
    ensures forall given :: AeadIsIdeal(s, frames, given)
    ensures Framable(frames) <==> forall i :: 0 <= i < |pieces| ==> |pieces[i]| + 40 < TWO_32
  {
    hide Info, Closed, FrameOf, NonceOf, KeyOf, NotForged, Stream.EncryptWithKey, Stream.DecryptWithKey,
      Stream.ChunkNonceAt, Stream.ChunkKeyFor;
    ClosedIsLawful(pieces);
    s := ClosedStream(pieces, key, baseNonce);
    frames := seq(|pieces|, i requires 0 <= i < |pieces| => FrameOf(pieces[i], i));
    forall i | 0 <= i < |pieces|
      ensures s.EncryptWithKey(pieces[i], s.ChunkNonceAt(i)) == Ok(frames[i])
      ensures |frames[i]| == |pieces[i]| + 40 && frames[i][..24] == NonceOf(i)
      ensures s.DecryptWithKey(s.ChunkKeyAt(i), frames[i]) == Ok(pieces[i])
    {
      StreamDerives(pieces, key, baseNonce, i);
      SealsPiece(pieces, key, baseNonce, i);
      s.DecryptsOwnFrame(pieces[i], i);
      FrameParts(pieces[i], i);
    }
    forall i, j {:trigger s.ChunkKeyAt(i), s.ChunkKeyAt(j)} | 0 <= i < |frames| && 0 <= j < TWO_64 && i != j
      ensures s.ChunkKeyAt(i) != s.ChunkKeyAt(j)
    {
      StreamDerives(pieces, key, baseNonce, i);
      StreamDerives(pieces, key, baseNonce, j);
      if KeyOf(i) == KeyOf(j) {
        PositionsDiffer(i, j);
      }
    }
    forall i, j | 0 <= i < j < |frames| ensures s.AeadNonce(frames[i][..24]) != s.AeadNonce(frames[j][..24]) {
      if NonceOf(i) == NonceOf(j) {
        PositionsDiffer(i, j);
      }
    }
    forall data: bytes ensures NotForged(s, frames, data) {
      NothingIsForged(pieces, key, baseNonce, frames, data);
    }
  }
}
