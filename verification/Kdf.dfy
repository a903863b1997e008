/** Key-derivation contexts (usbvault-crypto/src/kdf.rs) and the HKDF info strings of the whole crate. */
module Kdf {
  import opened Options
  import opened CryptoResult
  import opened NumberTheory
  import opened Bytes
  import opened Primitives

  type u32 = x: int | 0 <= x < 0x1_0000_0000
  type u64 = x: int | 0 <= x < 0x1_0000_0000_0000_0000

  // ---------- The transcript of a key derivation ----------

  datatype KdfContext = KdfContext(
    version: byte, kdfHashId: byte, cipherId: byte, salt: bytes, memory: u32, time: u32, parallelism: byte)

  function Transcript(c: KdfContext): (t: bytes)
    ensures |t| == 16 + |c.salt|
  {
    [c.version, c.kdfHashId, c.cipherId] + U32Le(|c.salt|) + c.salt
      + (U32Le(c.memory) + U32Le(c.time) + [c.parallelism])
  }

  method BuildKdfTranscript(version: byte, kdfHashId: byte, cipherId: byte, salt: bytes,
                            argon2Memory: u32, argon2Time: u32, argon2Parallelism: byte) returns (t: bytes)
    ensures t == Transcript(
      KdfContext(version, kdfHashId, cipherId, salt, argon2Memory, argon2Time, argon2Parallelism))
  {
    t := [];
    t := t + [version];
    t := t + [kdfHashId];
    t := t + [cipherId];
    t := t + U32Le(|salt|);
    t := t + salt;
    t := t + U32Le(argon2Memory);
    t := t + U32Le(argon2Time);
    t := t + [argon2Parallelism];
  }

  /** The bytes of a transcript, field by field: three single bytes, the salt behind its length, the memory and
      time cost in 32 bits each, and the parallelism. */
  lemma TranscriptLayout(c: KdfContext)
    ensures var t, n := Transcript(c), |c.salt|;
      && t[0] == c.version && t[1] == c.kdfHashId && t[2] == c.cipherId
      && FromLittleEndian(t[3..7]) == n % TWO_32 && t[7..7 + n] == c.salt
      && FromLittleEndian(t[7 + n..11 + n]) == c.memory
      && FromLittleEndian(t[11 + n..15 + n]) == c.time
      && t[15 + n] == c.parallelism && |t| == 16 + n
  {
    hide LittleEndian, FromLittleEndian, U32Le;
    var t, n := Transcript(c), |c.salt|;
    assert t[3..7] == U32Le(n);
    assert t[7 + n..11 + n] == U32Le(c.memory);
    assert t[11 + n..15 + n] == U32Le(c.time);
    U32RoundTrip(n);
    U32RoundTrip(c.memory);
    U32RoundTrip(c.time);
    SmallRemainder(c.memory, TWO_32);
    SmallRemainder(c.time, TWO_32);
  }

  /** Reads one transcript off the front of a byte string. */
  function ParseTranscript(b: bytes): Option<(KdfContext, bytes)> {
    if |b| < 7 then None
    else
      var n := FromLittleEndian(b[3..7]);
      if |b| < 16 + n then None
      else
        U32OfValue(b[7 + n..11 + n]);
        U32OfValue(b[11 + n..15 + n]);
        Some((KdfContext(b[0], b[1], b[2], b[7..7 + n],
                         FromLittleEndian(b[7 + n..11 + n]), FromLittleEndian(b[11 + n..15 + n]), b[15 + n]),
              b[16 + n..]))
  }

  /** A transcript can be read back from the front of any string, with the exact rest, if and only if the
      salt length fits the 32-bit length field. */
  lemma TranscriptIsSelfDelimiting(c: KdfContext, rest: bytes)
    ensures ParseTranscript(Transcript(c) + rest) == Some((c, rest)) <==> |c.salt| < TWO_32
  {
    hide LittleEndian, FromLittleEndian, U32Le;
    var b, n := Transcript(c) + rest, |c.salt|;
    assert b[3..7] == U32Le(n);
    U32RoundTrip(n);
    if n < TWO_32 {
      SmallRemainder(n, TWO_32);
      assert b[7..7 + n] == c.salt;
      assert b[7 + n..11 + n] == U32Le(c.memory);
      assert b[11 + n..15 + n] == U32Le(c.time);
      assert b[15 + n] == c.parallelism;
      assert b[16 + n..] == rest;
      U32RoundTrip(c.memory);
      U32RoundTrip(c.time);
      SmallRemainder(c.memory, TWO_32);
      SmallRemainder(c.time, TWO_32);
    } else {
      assert FromLittleEndian(b[3..7]) < TWO_32;
    }
  }

  /** Whatever the parser accepts is the transcript of what it returns. */
  lemma ParseIsExact(b: bytes)
    ensures ParseTranscript(b).Some? ==>
      var (c, rest) := ParseTranscript(b).value;
      |c.salt| < TWO_32 && b == Transcript(c) + rest
  {
    hide LittleEndian, FromLittleEndian, U32Le;
    if ParseTranscript(b).Some? {
      var (c, rest) := ParseTranscript(b).value;
      U32OfValue(b[3..7]);
      var n := |c.salt|;
      U32OfValue(b[7 + n..11 + n]);
      U32OfValue(b[11 + n..15 + n]);
      assert b == [b[0], b[1], b[2]] + b[3..7] + b[7..7 + n]
               + (b[7 + n..11 + n] + b[11 + n..15 + n] + [b[15 + n]]) + b[16 + n..];
    }
  }

  /** As whole strings, transcripts are injective without any bound on the salt. */
  lemma TranscriptInjective(c: KdfContext, c': KdfContext)
    requires Transcript(c) == Transcript(c')
    ensures c == c'
  {
    hide LittleEndian, FromLittleEndian, U32Le;
    var t, t', n := Transcript(c), Transcript(c'), |c.salt|;
    assert |c'.salt| == n;
    assert t[0] == c.version && t[1] == c.kdfHashId && t[2] == c.cipherId;
    assert t[7..7 + n] == c.salt && t'[7..7 + n] == c'.salt;
    assert t[7 + n..11 + n] == U32Le(c.memory) && t'[7 + n..11 + n] == U32Le(c'.memory);
    assert t[11 + n..15 + n] == U32Le(c.time) && t'[11 + n..15 + n] == U32Le(c'.time);
    assert t[15 + n] == c.parallelism && t'[15 + n] == c'.parallelism;
    U32Injective(c.memory, c'.memory);
    U32Injective(c.time, c'.time);
  }

  lemma U32Injective(m: u32, m': u32)
    requires U32Le(m) == U32Le(m')
    ensures m == m'
  {
    U32RoundTrip(m);
    U32RoundTrip(m');
    SmallRemainder(m, TWO_32);
    SmallRemainder(m', TWO_32);
  }

  lemma U64Injective(m: u64, m': u64)
    requires U64Le(m) == U64Le(m')
    ensures m == m'
  {
    U64RoundTrip(m);
    U64RoundTrip(m');
    SmallRemainder(m, TWO_64);
    SmallRemainder(m', TWO_64);
  }

  // ---------- Domain separation ----------

  /** Everything the crate derives with HKDF. */
  datatype Purpose =
    | FileKey(fileId: bytes)
    | ChunkNonce(index: u64)
    | ChunkKey(nonce: bytes)
    | StreamHmacKey
    | GcmNonce
    | KekV6(transcript: bytes)
    | VaultIndexKey
    | SharingSeal
    | HybridSealV1
    | HybridSealV2(handshake: bytes)

  function Info(p: Purpose): bytes {
    match p
    case FileKey(id) => Ascii("file_encryption:") + id
    case ChunkNonce(i) => Ascii("stream_chunk_nonce:") + U64Le(i)
    case ChunkKey(nonce) => Ascii("stream_chunk_key:") + nonce
    case StreamHmacKey => Ascii("stream_hmac_key")
    case GcmNonce => Ascii("aes_gcm_siv_nonce")
    case KekV6(t) => Ascii("USBVault-KDF-transcript-v6:") + t
    case VaultIndexKey => Ascii("vault_index_encryption")
    case SharingSeal => Ascii("seal")
    case HybridSealV1 => Ascii("hybrid_seal_x25519_mlkem1024")
    case HybridSealV2(t) => Ascii("hybrid_seal_x25519_mlkem1024_v2:") + t
  }

  /** Which of the purposes an info string serves, read off a few of its bytes. */
  function Family(info: bytes): nat {
    if |info| == 4 then 7
    else if |info| == 15 then 3
    else if |info| < 15 then 10
    else if info[0] == 'f' as int then 0
    else if info[0] == 'a' as int then 4
    else if info[0] == 'U' as int then 5
    else if info[0] == 'v' as int then 6
    else if info[0] == 'h' as int then (if |info| == 28 then 8 else 9)
    else if info[13] == 'n' as int then 1
    else 2
  }

  function FamilyOf(p: Purpose): nat {
    match p
    case FileKey(_) => 0
    case ChunkNonce(_) => 1
    case ChunkKey(_) => 2
    case StreamHmacKey => 3
    case GcmNonce => 4
    case KekV6(_) => 5
    case VaultIndexKey => 6
    case SharingSeal => 7
    case HybridSealV1 => 8
    case HybridSealV2(_) => 9
  }

  lemma InfoShowsFamily(p: Purpose)
    ensures Family(Info(p)) == FamilyOf(p)
  {
    hide U64Le;
  }

  /** No two purposes share an info string, whatever their parameters. */
  lemma InfoInjective(p: Purpose, p': Purpose)
    requires Info(p) == Info(p')
    ensures p == p'
  {
    hide Ascii, U64Le, Family;
    InfoShowsFamily(p);
    InfoShowsFamily(p');
    match p {
      case FileKey(id) => Tail(Ascii("file_encryption:"), id, p'.fileId);
      case ChunkNonce(i) =>
        Tail(Ascii("stream_chunk_nonce:"), U64Le(i), U64Le(p'.index));
        U64Injective(i, p'.index);
      case ChunkKey(nonce) => Tail(Ascii("stream_chunk_key:"), nonce, p'.nonce);
      case KekV6(t) => Tail(Ascii("USBVault-KDF-transcript-v6:"), t, p'.transcript);
      case HybridSealV2(t) => Tail(Ascii("hybrid_seal_x25519_mlkem1024_v2:"), t, p'.handshake);
      case _ =>
    }
  }

  lemma Tail(prefix: bytes, a: bytes, b: bytes)
    requires prefix + a == prefix + b
    ensures a == b
  {
    assert a == (prefix + a)[|prefix|..];
    assert b == (prefix + b)[|prefix|..];
  }

  /** The info string of a V6 key-encryption key fixes the whole derivation context. */
  lemma KekInfoFixesContext(c: KdfContext, c': KdfContext)
    requires Info(KekV6(Transcript(c))) == Info(KekV6(Transcript(c')))
    ensures c == c'
  {
    InfoInjective(KekV6(Transcript(c)), KekV6(Transcript(c')));
    TranscriptInjective(c, c');
  }

  // ---------- Derived keys ----------

  method DeriveSubkey(prim: Primitives, master: bytes, info: bytes) returns (r: Result<bytes>)
    ensures r == if master == [] || info == [] || |info| > 256 then Err(InvalidArgument)
                 else Ok(prim.hkdf(None, master, info, 32))
  {
    if master == [] {
      return Err(InvalidArgument);
    }
    if info == [] || |info| > 256 {
      return Err(InvalidArgument);
    }
    return Ok(prim.hkdf(None, master, info, 32));
  }

  /** File ids of up to 240 bytes have a key; longer ones are refused. */
  method DeriveFileKey(prim: Primitives, encryptionKey: bytes, fileId: bytes) returns (r: Result<bytes>)
    requires |encryptionKey| == 32
    ensures r.Ok? <==> |fileId| <= 240
    ensures r.Ok? ==> r.value == prim.hkdf(None, encryptionKey, Ascii("file_encryption:") + fileId, 32)
    ensures r.Err? ==> r.error == InvalidArgument
  {
    var info := Ascii("file_encryption:") + fileId;
    r := DeriveSubkey(prim, encryptionKey, info);
  }

  predicate SaneArgon2(memory: u32, time: u32, parallelism: byte) {
    8192 <= memory <= 1048576 && 1 <= time <= 16 && 1 <= parallelism <= 16
  }

  /** `argon` is Argon2id on password, salt and cost parameters. */
  method DeriveKekV6(prim: Primitives, argon: (bytes, bytes, u32, u32, byte) -> Result<bytes>,
                     password: bytes, salt: bytes, transcript: bytes, memory: u32, time: u32, parallelism: byte)
    returns (r: Result<bytes>)
    ensures (|salt| != 32 || memory < 8192 || memory > 1048576 || time < 1 || time > 16
             || parallelism < 1 || parallelism > 16) ==> r == Err(InvalidArgument)
    ensures (|salt| == 32 && 8192 <= memory <= 1048576 && 1 <= time <= 16 && 1 <= parallelism <= 16) ==>
      var base := argon(password, salt, memory, time, parallelism);
      r == if base.Err? then base
           else Ok(prim.hkdf(None, base.value, Ascii("USBVault-KDF-transcript-v6:") + transcript, 32))
  {
    if |salt| != 32 {
      return Err(InvalidArgument);
    }
    if !SaneArgon2(memory, time, parallelism) {
      return Err(InvalidArgument);
    }
    var base := argon(password, salt, memory, time, parallelism);
    if base.Err? {
      return base;
    }
    var info := Ascii("USBVault-KDF-transcript-v6:") + transcript;
    return Ok(prim.hkdf(None, base.value, info, 32));
  }
}
