/** The SRP-6a client (usbvault-crypto/src/srp_client.rs), with the server side its tests run against.

    The group, SHA-256 and Argon2id are parameters. Padding and hash inputs follow sections 2.5.3,
    2.5.4 and 2.6 of RFC 5054 as the source applies them. */
module Srp {
  import opened CryptoResult
  import opened NumberTheory
  import opened Bytes

  // ---------- Padding ----------

  /** The byte length of the 3072-bit modulus. */
  const PAD_LEN: nat := 384

  /** Left-pad with zeros to PAD_LEN bytes; keep the low bytes of an oversized string. */
  function Pad(b: bytes): (p: bytes)
    ensures |p| == PAD_LEN
  {
    if |b| <= PAD_LEN then Zeros(PAD_LEN - |b|) + b else b[|b| - PAD_LEN..]
  }

  method PadBytes(b: bytes) returns (p: bytes)
    ensures p == Pad(b)
  {
    var out := new byte[PAD_LEN](_ => 0);
    if |b| <= PAD_LEN {
      forall i | 0 <= i < |b| {
        out[PAD_LEN - |b| + i] := b[i];
      }
    } else {
      forall i | 0 <= i < PAD_LEN {
        out[i] := b[|b| - PAD_LEN + i];
      }
    }
    p := out[..];
  }

  function PadNumber(v: nat): (p: bytes)
    ensures |p| == PAD_LEN
  {
    Pad(ToBigEndian(v))
  }

  /** The numbers that fit in PAD_LEN bytes are those below this bound. */
  function PadBound(): nat {
    Pow(256, PAD_LEN)
  }

  /** Padding keeps the value modulo 256^384, hence exactly when the string is short enough. */
  lemma PadKeepsValue(b: bytes)
    ensures |Pad(b)| == 384
    ensures FromBigEndian(Pad(b)) < PadBound()
    ensures FromBigEndian(Pad(b)) == FromBigEndian(b) % PadBound()
    ensures |b| <= PAD_LEN ==> FromBigEndian(Pad(b)) == FromBigEndian(b)
  {
    hide Pow, Pad, FromBigEndian;
    BigEndianBound(Pad(b));
    if |b| <= PAD_LEN {
      PadOfShort(b);
      SmallRemainder(FromBigEndian(b), PadBound());
    } else {
      var high := PadOfLong(b);
      SameRemainder(FromBigEndian(b), FromBigEndian(Pad(b)), high, PadBound());
      SmallRemainder(FromBigEndian(Pad(b)), PadBound());
    }
  }

  lemma PadOfShort(b: bytes)
    requires |b| <= PAD_LEN
    ensures FromBigEndian(Pad(b)) == FromBigEndian(b)
  {
    hide Pow, FromBigEndian;
    BigEndianAppend(Zeros(PAD_LEN - |b|), b);
    ZerosValue(PAD_LEN - |b|);
  }

  lemma PadOfLong(b: bytes) returns (high: nat)
    requires |b| > PAD_LEN
    ensures FromBigEndian(b) == FromBigEndian(Pad(b)) + high * PadBound()
  {
    hide Pow, FromBigEndian;
    var front := b[..|b| - PAD_LEN];
    assert b == front + Pad(b);
    BigEndianAppend(front, Pad(b));
    high := FromBigEndian(front);
  }

  /** Padding the received bytes is padding the number they stand for: leading zeros do not matter. */
  lemma PadIgnoresLeadingZeros(b: bytes)
    ensures Pad(b) == PadNumber(FromBigEndian(b))
  {
    hide Pow, FromBigEndian;
    var v := FromBigEndian(b);
    ToBigEndianRoundTrip(v);
    PadKeepsValue(b);
    PadKeepsValue(ToBigEndian(v));
    BigEndianInjective(Pad(b), PadNumber(v));
  }

  /** Padded numbers coincide exactly when the numbers are congruent modulo 256^384. */
  lemma PadNumberInjective(v: nat, w: nat)
    ensures PadBound() > 0
    ensures PadNumber(v) == PadNumber(w) <==> v % PadBound() == w % PadBound()
    ensures v < PadBound() && w < PadBound() && PadNumber(v) == PadNumber(w) ==> v == w
  {
    hide Pow, FromBigEndian;
    ToBigEndianRoundTrip(v);
    ToBigEndianRoundTrip(w);
    PadKeepsValue(ToBigEndian(v));
    PadKeepsValue(ToBigEndian(w));
    if v % PadBound() == w % PadBound() {
      BigEndianInjective(PadNumber(v), PadNumber(w));
    }
    if v < PadBound() && w < PadBound() {
      SmallRemainder(v, PadBound());
      SmallRemainder(w, PadBound());
    }
  }

  // ---------- Hash inputs ----------

  function PairInput(a: nat, b: nat): bytes {
    PadNumber(a) + PadNumber(b)
  }

  function Proof1Input(a: nat, b: nat, key: bytes): bytes {
    PadNumber(a) + PadNumber(b) + key
  }

  function Proof2Input(a: nat, m1: bytes, key: bytes): bytes {
    PadNumber(a) + m1 + key
  }

  /** Every hash input determines its operands. PairInput serves k and u, PadNumber serves K. */
  lemma HashInputsInjective(a: nat, b: nat, key: bytes, m1: bytes, a': nat, b': nat, key': bytes, m1': bytes)
    requires a < PadBound() && a' < PadBound() && b < PadBound() && b' < PadBound()
    ensures PairInput(a, b) == PairInput(a', b') ==> a == a' && b == b'
    ensures Proof1Input(a, b, key) == Proof1Input(a', b', key') ==> a == a' && b == b' && key == key'
    ensures |m1| == |m1'| && Proof2Input(a, m1, key) == Proof2Input(a', m1', key') ==>
      a == a' && m1 == m1' && key == key'
  {
    hide Pow, PadNumber;
    PadNumberInjective(a, a');
    PadNumberInjective(b, b');
    if PairInput(a, b) == PairInput(a', b') {
      SameHalves(PadNumber(a), PadNumber(b), PadNumber(a'), PadNumber(b'));
    }
    if Proof1Input(a, b, key) == Proof1Input(a', b', key') {
      SameHalves(PadNumber(a) + PadNumber(b), key, PadNumber(a') + PadNumber(b'), key');
      SameHalves(PadNumber(a), PadNumber(b), PadNumber(a'), PadNumber(b'));
    }
    if |m1| == |m1'| && Proof2Input(a, m1, key) == Proof2Input(a', m1', key') {
      SameHalves(PadNumber(a) + m1, key, PadNumber(a') + m1', key');
      SameHalves(PadNumber(a), m1, PadNumber(a'), m1');
    }
  }

  lemma SameHalves(a: bytes, b: bytes, a': bytes, b': bytes)
    requires a + b == a' + b' && |a| == |a'|
    ensures a == a' && b == b'
  {
    assert a == (a + b)[..|a|] && b == (a + b)[|a|..];
    assert a' == (a' + b')[..|a'|] && b' == (a' + b')[|a'|..];
  }

  // ---------- The two secrets ----------

  /** B - k g^x on unsigned numbers: N is added first when B is the smaller. */
  function ClientBase(b: nat, kgx: nat, n: nat): (r: nat)
    requires kgx < n
    ensures r < n
  {
    if b >= kgx then (b - kgx) % n else (b + n - kgx) % n
  }

  function ClientExponent(a: nat, u: nat, x: nat, n: nat): nat
    requires n >= 2
  {
    (a + (u * x) % (n - 1)) % (n - 1)
  }

  function ClientSecret(n: nat, g: nat, k: nat, b: nat, a: nat, u: nat, x: nat): nat
    requires n >= 2
  {
    ModPow(ClientBase(b, (k * ModPow(g, x, n)) % n, n), ClientExponent(a, u, x, n), n)
  }

  function ServerPublic(n: nat, g: nat, k: nat, v: nat, b: nat): nat
    requires n > 0
  {
    ((k * v) % n + ModPow(g, b, n)) % n
  }

  function ServerSecret(n: nat, a: nat, v: nat, u: nat, b: nat): nat
    requires n > 0
  {
    ModPow((a * ModPow(v, u, n)) % n, b, n)
  }

  /** Both branches compute B - k g^x modulo N, for every B, also B >= N: the result is the one number
      below N that gives B when k g^x is added back. */
  lemma ClientBaseIsDifference(b: nat, kgx: nat, n: nat, r: nat)
    requires kgx < n
    ensures r == ClientBase(b, kgx, n) <==> r < n && (r + kgx) % n == b % n
  {
    var base, d := ClientBase(b, kgx, n), if b >= kgx then b - kgx else b + n - kgx;
    RemainderTwice(d, n);
    AddRemainder(base, d, kgx, kgx, n);
    SameRemainder(d + kgx, b, if b >= kgx then 0 else 1, n);
    assert (base + kgx) % n == b % n;
    if r < n && (r + kgx) % n == b % n {
      CancelAddend(r, base, kgx, n);
    }
  }

  lemma CancelAddend(r: nat, base: nat, c: nat, n: nat)
    requires r < n && base < n && (r + c) % n == (base + c) % n
    ensures r == base
  {
    var k := Difference(r + c, base + c, n);
    SmallMultiple(k, n);
  }

  lemma ClientExponentIsReduced(a: nat, u: nat, x: nat, n: nat)
    requires n >= 2
    ensures ClientExponent(a, u, x, n) == (a + u * x) % (n - 1)
  {
    RemainderTwice(u * x, n - 1);
    AddRemainder(a, a, (u * x) % (n - 1), u * x, n - 1);
  }

  /** Against an honest server the client's base is g^b. */
  lemma ClientBaseOfHonestServer(n: nat, g: nat, k: nat, v: nat, b: nat)
    requires n >= 2
    ensures ClientBase(ServerPublic(n, g, k, v, b), (k * v) % n, n) == ModPow(g, b, n)
  {
    hide Pow, ClientBase;
    HonestBase((k * v) % n, ModPow(g, b, n), n);
  }

  lemma HonestBase(kgx: nat, gb: nat, n: nat)
    requires kgx < n && gb < n
    ensures ClientBase((kgx + gb) % n, kgx, n) == gb
  {
    hide ClientBase;
    RemainderTwice(kgx + gb, n);
    ClientBaseIsDifference((kgx + gb) % n, kgx, n, gb);
  }

  lemma ServerSecretIsPower(n: nat, g: nat, a: nat, x: nat, u: nat, b: nat)
    requires n >= 2
    ensures ServerSecret(n, ModPow(g, a, n), ModPow(g, x, n), u, b) == Pow(g, (a + u * x) * b) % n
  {
    hide Pow;
    var pa, v, pv := ModPow(g, a, n), ModPow(g, x, n), Pow(Pow(g, x), u);
    RemainderTwice(Pow(g, a), n);
    RemainderTwice(Pow(g, x), n);
    PowRemainder(v, Pow(g, x), u, n);
    RemainderTwice(Pow(v, u), n);
    MulRemainder(pa, Pow(g, a), ModPow(v, u, n), pv, n);
    var avu := (pa * ModPow(v, u, n)) % n;
    RemainderTwice(pa * ModPow(v, u, n), n);
    PowMul(g, x, u);
    PowAdd(g, a, x * u);
    assert x * u == u * x;
    PowRemainder(avu, Pow(g, a + u * x), b, n);
    PowMul(g, a + u * x, b);
  }

  /** SRP agreement: client and server compute the same secret, although the client subtracts on
      unsigned numbers and reduces its exponent modulo N - 1. */
  lemma SecretsAgree(n: nat, g: nat, k: nat, a: nat, b: nat, u: nat, x: nat)
    requires Prime(n) && g % n != 0
    ensures var v := ModPow(g, x, n);
      ClientSecret(n, g, k, ServerPublic(n, g, k, v, b), a, u, x)
        == ServerSecret(n, ModPow(g, a, n), v, u, b)
  {
    hide Pow, ClientBase, ClientExponent, ServerPublic, ServerSecret;
    var v, e, gb := ModPow(g, x, n), a + u * x, ModPow(g, b, n);
    ClientBaseOfHonestServer(n, g, k, v, b);
    ClientExponentIsReduced(a, u, x, n);
    ServerSecretIsPower(n, g, a, x, u, b);
    ClientPower(n, g, b, e);
    assert b * e == e * b;
  }

  /** For any B at all: reducing the exponent gives the power with the full exponent, which the
      known-answer test uses, except when B = k g^x and the reduction turns a positive exponent into 0. */
  lemma ReducedSecretExactly(n: nat, g: nat, k: nat, b: nat, a: nat, u: nat, x: nat)
    requires Prime(n)
    ensures var base := ClientBase(b, (k * ModPow(g, x, n)) % n, n);
      (ClientSecret(n, g, k, b, a, u, x) == ModPow(base, a + u * x, n))
        == (base != 0 || a + u * x == 0 || (a + u * x) % (n - 1) != 0)
  {
    hide Pow, ClientBase, ClientExponent;
    var base, e := ClientBase(b, (k * ModPow(g, x, n)) % n, n), a + u * x;
    ClientExponentIsReduced(a, u, x, n);
    ReduceExponentExactly(n, base, e);
    SmallRemainder(base, n);
  }

  /** The reduction does nothing to an exponent that is already below N - 1, whatever N and B are ... */
  lemma SmallExponentIsKept(n: nat, g: nat, k: nat, b: nat, a: nat, u: nat, x: nat)
    requires n >= 2 && a + u * x < n - 1
    ensures ClientSecret(n, g, k, b, a, u, x)
         == ModPow(ClientBase(b, (k * ModPow(g, x, n)) % n, n), a + u * x, n)
  {
    hide Pow, ModPow, ClientBase, ClientExponent;
    ClientExponentIsReduced(a, u, x, n);
    SmallRemainder(a + u * x, n - 1);
  }

  /** ... as it always is for the 32-byte a, u and x of the code when N has more than 65 bytes. */
  lemma ThirtyTwoByteExponentIsKept(n: nat, g: nat, k: nat, b: nat, a: bytes, u: bytes, x: bytes)
    requires n > Pow(256, 65) && |a| == |u| == |x| == 32
    ensures var (aa, uu, xx) := (FromBigEndian(a), FromBigEndian(u), FromBigEndian(x));
      && n >= 2 && aa + uu * xx < n - 1
      && ClientSecret(n, g, k, b, aa, uu, xx)
           == ModPow(ClientBase(b, (k * ModPow(g, xx, n)) % n, n), aa + uu * xx, n)
  {
    hide Pow, FromBigEndian, ModPow, ClientBase, ClientSecret;
    BigEndianBound(a);
    BigEndianBound(u);
    BigEndianBound(x);
    ExponentBound(FromBigEndian(a), FromBigEndian(u), FromBigEndian(x));
    SmallExponentIsKept(n, g, k, b, FromBigEndian(a), FromBigEndian(u), FromBigEndian(x));
  }

  lemma ExponentBound(a: nat, u: nat, x: nat)
    requires a < Pow(256, 32) && u < Pow(256, 32) && x < Pow(256, 32)
    ensures a + u * x < Pow(256, 65) - 1
  {
    var w := Pow(256, 32);
    assert w >= 256 by {
      hide Pow;
      PowAdd(256, 31, 1);
      PowPositive(256, 31);
      PowOfOne(256);
    }
    hide Pow;
    PowAdd(256, 32, 32);
    PowAdd(256, 64, 1);
    PowOfOne(256);
    ProductBound(u, x, w);
  }

  lemma PowOfOne(b: nat)
    ensures Pow(b, 1) == b
  {
    assert Pow(b, 1) == b * Pow(b, 0);
  }

  lemma ProductBound(u: nat, x: nat, w: nat)
    requires u < w && x < w && w >= 256
    ensures u * x <= w * w && w * w * 256 > w * w + w + 1
  {
    assert u * x <= u * w <= w * w;
    assert w * w >= w * 1;
  }

  /** In a small group the exception occurs: a B for which client and full exponent disagree, in the group of 5. */
  lemma ReducedSecretCanDiffer()
    ensures Prime(5)
    ensures ClientBase(2, (1 * ModPow(2, 1, 5)) % 5, 5) == 0
    ensures ClientSecret(5, 2, 1, 2, 3, 1, 1) == 1 && ModPow(0, 3 + 1 * 1, 5) == 0
  {
    assert Pow(2, 1) == 2 * Pow(2, 0);
    assert Pow(0, 4) == 0 * Pow(0, 3);
    forall d: nat | 1 < d < 5 ensures 5 % d != 0 {
      assert d == 2 || d == 3 || d == 4;
    }
  }

  lemma ClientPower(n: nat, g: nat, b: nat, e: nat)
    requires Prime(n) && g % n != 0
    ensures ModPow(ModPow(g, b, n), e % (n - 1), n) == Pow(g, b * e) % n
  {
    hide Pow;
    var gb := ModPow(g, b, n);
    PowNotDivisible(n, g, b);
    RemainderTwice(Pow(g, b), n);
    ReduceExponent(n, gb, e);
    PowRemainder(gb, Pow(g, b), e, n);
    PowMul(g, b, e);
  }

  // ---------- Client and server on bytes ----------

  /** The group and the primitives. `argon` takes the password and the salt. */
  datatype Suite = Suite(n: nat, g: nat, hash: bytes -> bytes, argon: (bytes, bytes) -> Result<bytes>) {

    ghost predicate Valid() {
      && n >= 2
      && (forall m: bytes :: |hash(m)| == 32)
    }

    function Multiplier(): nat {
      FromBigEndian(hash(PairInput(n, g)))
    }

    function Scrambler(a: nat, b: nat): nat {
      FromBigEndian(hash(PairInput(a, b)))
    }

    function SessionKey(s: nat): bytes {
      hash(PadNumber(s))
    }

    function DeriveX(salt: bytes, username: bytes, password: bytes): Result<bytes> {
      argon(password, hash(SaltInput(salt, username)))
    }

    /** The outcome of a challenge: the proof M1 and the session key K. */
    function Challenge(publicA: nat, username: bytes, a: nat, salt: bytes, password: bytes, serverB: bytes)
      : Result<(bytes, bytes)>
      requires n >= 2
    {
      var b := FromBigEndian(serverB);
      if b % n == 0 then Err(SrpError)
      else
        var x := DeriveX(salt, username, password);
        if x.Err? then Err(x.error)
        else
          var s := ClientSecret(n, g, Multiplier(), b, a, Scrambler(publicA, b), FromBigEndian(x.value));
          var key := SessionKey(s);
          Ok((hash(Proof1Input(publicA, b, key)), key))
    }

    // What a server holding the verifier computes from the bytes on the wire.

    function ServerPublicBytes(verifier: bytes, b: nat): bytes
      requires n > 0
    {
      ToBigEndian(ServerPublic(n, g, Multiplier(), FromBigEndian(verifier), b))
    }

    function ServerKey(clientA: bytes, serverB: bytes, verifier: bytes, b: nat): bytes
      requires n > 0
    {
      var u := FromBigEndian(hash(Pad(clientA) + Pad(serverB)));
      SessionKey(ServerSecret(n, FromBigEndian(clientA), FromBigEndian(verifier), u, b))
    }

    function ServerProof(clientA: bytes, m1: bytes, key: bytes): bytes {
      hash(Pad(clientA) + m1 + key)
    }

    /** The whole handshake, written out: for the password that was registered and an honest B, the client
        refuses exactly B = 0 and otherwise has the K and M1 that the server computes from its own formulas. The
        server's B, K and M2 are those of the functions above. */
    lemma HandshakeAgrees(username: bytes, password: bytes, salt: bytes, a: nat, b: nat)
      requires Valid() && Prime(n) && g % n != 0
      requires argon(password, hash(Ascii("srp-verifier") + salt + username)).Ok?
      ensures
        var x := FromBigEndian(argon(password, hash(Ascii("srp-verifier") + salt + username)).value);
        var k := FromBigEndian(hash(Pad(ToBigEndian(n)) + Pad(ToBigEndian(g))));
        var v, publicA := Pow(g, x) % n, Pow(g, a) % n;
        var publicB := ((k * v) % n + Pow(g, b) % n) % n;
        var clientA, serverB, verifier := ToBigEndian(publicA), ToBigEndian(publicB), ToBigEndian(v);
        var u := FromBigEndian(hash(Pad(clientA) + Pad(serverB)));
        var s := Pow((publicA * (Pow(v, u) % n)) % n, b) % n;
        var key := hash(Pad(ToBigEndian(s)));
        var m1 := hash(Pad(clientA) + Pad(serverB) + key);
        && Challenge(publicA, username, a, salt, password, serverB)
             == (if publicB == 0 then Err(SrpError) else Ok((m1, key)))
        && ServerPublicBytes(verifier, b) == serverB
        && ServerKey(clientA, serverB, verifier, b) == key
        && ServerProof(clientA, m1, key) == hash(Pad(clientA) + m1 + key)
    {
      hide Pow, FromBigEndian, ToBigEndian, Pad, PadNumber, ClientSecret;
      var x := FromBigEndian(DeriveX(salt, username, password).value);
      var v, publicA, k := ModPow(g, x, n), ModPow(g, a, n), Multiplier();
      var serverPublic := ServerPublic(n, g, k, v, b);
      PadNumbers(n, g);
      PadNumbers(publicA, serverPublic);
      ToBigEndianRoundTrip(v);
      ToBigEndianRoundTrip(publicA);
      ToBigEndianRoundTrip(serverPublic);
      ServerPublicBelow(n, g, k, v, b);
      SecretsAgree(n, g, k, a, b, Scrambler(publicA, serverPublic), x);
      var s := ClientSecret(n, g, k, serverPublic, a, Scrambler(publicA, serverPublic), x);
      PadNumbers(s, s);
    }

    /** What the client does with any B at all, written out: it refuses multiples of N and passes on a failing
        derivation; otherwise S is the reduced power of the one number below N that gives B when k g^x is added. */
    lemma ChallengeExactly(publicA: nat, username: bytes, a: nat, salt: bytes, password: bytes, serverB: bytes)
        returns (base: nat, s: nat)
      requires n >= 2
      ensures
        var b, x := FromBigEndian(serverB), argon(password, hash(Ascii("srp-verifier") + salt + username));
        var r := Challenge(publicA, username, a, salt, password, serverB);
        if b % n == 0 then r == Err(SrpError)
        else if x.Err? then r == Err(x.error)
        else
          var k := FromBigEndian(hash(Pad(ToBigEndian(n)) + Pad(ToBigEndian(g))));
          var xx := FromBigEndian(x.value);
          var pads := Pad(ToBigEndian(publicA)) + Pad(ToBigEndian(b));
          var u := FromBigEndian(hash(pads));
          && base < n && (base + (k * (Pow(g, xx) % n)) % n) % n == b % n
          && s == Pow(base, (a + u * xx) % (n - 1)) % n
          && r == Ok((hash(pads + hash(Pad(ToBigEndian(s)))), hash(Pad(ToBigEndian(s)))))
    {
      hide Pow, FromBigEndian, ToBigEndian, Pad, PadNumber, ClientBase, ClientExponent;
      base, s := 0, 0;
      var b, x := FromBigEndian(serverB), DeriveX(salt, username, password);
      if b % n != 0 && x.Ok? {
        var k, u, xx := Multiplier(), Scrambler(publicA, b), FromBigEndian(x.value);
        var kgx := (k * ModPow(g, xx, n)) % n;
        base := ClientBase(b, kgx, n);
        s := ClientSecret(n, g, k, b, a, u, xx);
        ClientBaseIsDifference(b, kgx, n, base);
        ClientExponentIsReduced(a, u, xx, n);
        PadNumbers(n, g);
        PadNumbers(publicA, b);
        PadNumbers(s, s);
      }
    }

    ghost predicate HashIsInjective() {
      forall m: bytes, m': bytes :: hash(m) == hash(m') ==> m == m'
    }

    ghost predicate ArgonIsInjective() {
      forall p: bytes, t: bytes, p': bytes, t': bytes ::
        argon(p, t).Ok? && argon(p, t) == argon(p', t') ==> p == p' && t == t'
    }

    /** K depends on S and on nothing else: for a hash without collisions and N that fits the padding, two
        accepted challenges have one key if and only if they have one S. */
    lemma KeyFixesSecret(publicA: nat, user: bytes, a: nat, salt: bytes, pw: bytes, serverB: bytes,
                         publicA': nat, user': bytes, a': nat, salt': bytes, pw': bytes, serverB': bytes)
      requires n >= 2 && n <= PadBound() && HashIsInjective()
      requires Challenge(publicA, user, a, salt, pw, serverB).Ok?
      requires Challenge(publicA', user', a', salt', pw', serverB').Ok?
      ensures
        var b, b' := FromBigEndian(serverB), FromBigEndian(serverB');
        var x, x' := FromBigEndian(DeriveX(salt, user, pw).value), FromBigEndian(DeriveX(salt', user', pw').value);
        var s := ClientSecret(n, g, Multiplier(), b, a, Scrambler(publicA, b), x);
        var s' := ClientSecret(n, g, Multiplier(), b', a', Scrambler(publicA', b'), x');
        var r := Challenge(publicA, user, a, salt, pw, serverB);
        var r' := Challenge(publicA', user', a', salt', pw', serverB');
        r.value.1 == r'.value.1 <==> s == s'
    {
      hide Pow, FromBigEndian, ToBigEndian, PadNumber, ClientBase, ClientExponent;
      var b, b' := FromBigEndian(serverB), FromBigEndian(serverB');
      var x, x' := FromBigEndian(DeriveX(salt, user, pw).value), FromBigEndian(DeriveX(salt', user', pw').value);
      var s := ClientSecret(n, g, Multiplier(), b, a, Scrambler(publicA, b), x);
      var s' := ClientSecret(n, g, Multiplier(), b', a', Scrambler(publicA', b'), x');
      PadNumberInjective(s, s');
    }

    /** x is bound to the credentials: without collisions and with salts of one length, equal x come from equal
        password, salt and user name. */
    lemma CredentialsFixX(salt: bytes, user: bytes, pw: bytes, salt': bytes, user': bytes, pw': bytes)
      requires HashIsInjective() && ArgonIsInjective() && |salt| == |salt'|
      requires DeriveX(salt, user, pw).Ok? && DeriveX(salt, user, pw) == DeriveX(salt', user', pw')
      ensures pw == pw' && salt == salt' && user == user'
    {
      hide Ascii;
      var t, t' := hash(SaltInput(salt, user)), hash(SaltInput(salt', user'));
      assert argon(pw, t) == argon(pw', t');
      assert t == t';
      SaltInputInjective(salt, user, salt', user');
    }
  }

  lemma PadNumbers(a: nat, b: nat)
    ensures PairInput(a, b) == Pad(ToBigEndian(a)) + Pad(ToBigEndian(b))
    ensures PadNumber(a) == Pad(ToBigEndian(a)) && PadNumber(b) == Pad(ToBigEndian(b))
  {}

  /** What is hashed into the Argon2id salt. */
  function SaltInput(salt: bytes, user: bytes): bytes {
    Ascii("srp-verifier") + salt + user
  }

  /** The salt handed to Argon2id determines salt and user name when the salts have one length ... */
  lemma SaltInputInjective(salt: bytes, user: bytes, salt': bytes, user': bytes)
    requires |salt| == |salt'|
    requires SaltInput(salt, user) == SaltInput(salt', user')
    ensures salt == salt' && user == user'
  {
    var tag := Ascii("srp-verifier");
    SameHalves(tag + salt, user, tag + salt', user');
    SameHalves(tag, salt, tag, salt');
  }

  ghost predicate SaltInputFixes(n: nat, n': nat) {
    forall salt: bytes, user: bytes, salt': bytes, user': bytes |
      |salt| == n && |salt'| == n' && SaltInput(salt, user) == SaltInput(salt', user') ::
      salt == salt' && user == user'
  }

  /** ... and for no two different lengths: the lengths are not part of the input. */
  lemma SaltInputInjectiveExactly(n: nat, n': nat)
    ensures SaltInputFixes(n, n') <==> n == n'
  {
    hide Ascii;
    if n == n' {
      forall salt: bytes, user: bytes, salt': bytes, user': bytes |
        |salt| == n && |salt'| == n' && SaltInput(salt, user) == SaltInput(salt', user')
        ensures salt == salt' && user == user'
      {
        SaltInputInjective(salt, user, salt', user');
      }
    } else {
      var tag := Ascii("srp-verifier");
      assert tag + Zeros(n) + Zeros(n') == tag + Zeros(n') + Zeros(n);
      assert SaltInput(Zeros(n), Zeros(n')) == SaltInput(Zeros(n'), Zeros(n));
      assert |Zeros(n)| != |Zeros(n')|;
    }
  }

  class SrpClient {
    const suite: Suite
    const username: bytes
    const password: bytes
    var privateKeyA: bytes
    var publicKeyA: nat

    constructor (suite: Suite, username: bytes, password: bytes)
      ensures this.suite == suite && this.username == username && this.password == password
      ensures privateKeyA == Zeros(32) && publicKeyA == 0
    {
      this.suite := suite;
      this.username := username;
      this.password := password;
      privateKeyA := Zeros(32);
      publicKeyA := 0;
    }

    method ComputeVerifier(salt: bytes) returns (r: Result<bytes>)
      requires suite.Valid()
      ensures var x := suite.DeriveX(salt, username, password);
        r == if x.Err? then Err(x.error) else Ok(ToBigEndian(ModPow(suite.g, FromBigEndian(x.value), suite.n)))
    {
      var xBytes := suite.DeriveX(salt, username, password);
      if xBytes.Err? {
        return Err(xBytes.error);
      }
      var x := FromBigEndian(xBytes.value);
      var v := ModPow(suite.g, x, suite.n);
      return Ok(ToBigEndian(v));
    }

    /** `aBytes` are the random bytes of the ephemeral key. */
    method StartAuth(aBytes: bytes) returns (r: Result<bytes>, session: SrpClientSession?)
      requires suite.Valid()
      modifies this
      ensures var a := EphemeralKey(FromBigEndian(aBytes), suite.n);
        var publicA := ModPow(suite.g, a, suite.n);
        if a <= 1 || publicA <= 1 then
          r == Err(SrpError) && session == null && unchanged(this)
        else
          && r == Ok(ToBigEndian(publicA))
          && publicKeyA == publicA && FromBigEndian(privateKeyA) == a
          && session != null && fresh(session) && session.suite == suite && session.username == username
          && session.publicKeyA == publicA && FromBigEndian(session.privateKeyA) == a
          && session.clientProofM1 == [] && session.sessionKey == []
    {
      hide Pow, FromBigEndian, ToBigEndian;
      var n := suite.n;
      var a := FromBigEndian(aBytes);
      if a >= n {
        a := a % (n - 1) + 1;
      }
      if a <= 1 {
        return Err(SrpError), null;
      }
      var publicA := ModPow(suite.g, a, n);
      if publicA == 0 || publicA == 1 || publicA % n == 0 {
        SmallRemainder(publicA, n);
        return Err(SrpError), null;
      }
      ToBigEndianRoundTrip(a);
      session := new SrpClientSession(suite, publicA, username, ToBigEndian(a));
      privateKeyA := ToBigEndian(a);
      publicKeyA := publicA;
      r := Ok(ToBigEndian(publicA));
    }
  }

  /** The client's arithmetic, step by step. */
  method ComputeSecret(n: nat, g: nat, k: nat, b: nat, a: nat, u: nat, x: nat) returns (s: nat)
    requires n >= 2
    ensures s == ClientSecret(n, g, k, b, a, u, x)
  {
    hide Pow;
    var gx := ModPow(g, x, n);
    var kgx := (k * gx) % n;
    var base;
    if b >= kgx {
      base := (b - kgx) % n;
    } else {
      base := (b + n - kgx) % n;
    }
    var ux := (u * x) % (n - 1);
    var exponent := (a + ux) % (n - 1);
    s := ModPow(base, exponent, n);
  }

  /** The random number, brought below N. */
  function EphemeralKey(a: nat, n: nat): nat
    requires n >= 2
  {
    if a >= n then a % (n - 1) + 1 else a
  }

  /** A draw below N is kept, and every other one lands in 1..N-1, congruent to a + 1 modulo N - 1. */
  lemma EphemeralKeyRange(a: nat, n: nat)
    requires n >= 2
    ensures a < n ==> EphemeralKey(a, n) == a
    ensures a >= n ==> 1 <= EphemeralKey(a, n) <= n - 1
    ensures a >= n ==> EphemeralKey(a, n) % (n - 1) == (a + 1) % (n - 1)
  {
    RemainderTwice(a, n - 1);
    AddRemainder(a % (n - 1), a, 1, 1, n - 1);
  }

  class SrpClientSession {
    const suite: Suite
    const publicKeyA: nat
    const username: bytes
    const privateKeyA: bytes
    var clientProofM1: bytes
    var sessionKey: bytes

    constructor (suite: Suite, publicKeyA: nat, username: bytes, privateKeyA: bytes)
      ensures this.suite == suite && this.publicKeyA == publicKeyA
      ensures this.username == username && this.privateKeyA == privateKeyA
      ensures clientProofM1 == [] && sessionKey == []
    {
      this.suite := suite;
      this.publicKeyA := publicKeyA;
      this.username := username;
      this.privateKeyA := privateKeyA;
      clientProofM1 := [];
      sessionKey := [];
    }

    method ProcessChallenge(salt: bytes, password: bytes, serverB: bytes) returns (r: Result<(bytes, bytes)>)
      requires suite.Valid()
      modifies this
      ensures r == suite.Challenge(publicKeyA, username, FromBigEndian(privateKeyA), salt, password, serverB)
      ensures r.Err? ==> unchanged(this)
      ensures r.Ok? ==> clientProofM1 == r.value.0 && sessionKey == r.value.1
    {
      hide Pow, FromBigEndian, ClientSecret, Pad;
      var n, g := suite.n, suite.g;
      var b := FromBigEndian(serverB);
      if b == 0 || b % n == 0 {
        SmallRemainder(0, n);
        return Err(SrpError);
      }
      var aPad := PadBytes(ToBigEndian(publicKeyA));
      var bPad := PadBytes(ToBigEndian(b));
      var u := FromBigEndian(suite.hash(aPad + bPad));
      var xBytes := suite.DeriveX(salt, username, password);
      if xBytes.Err? {
        return Err(xBytes.error);
      }
      var x := FromBigEndian(xBytes.value);
      var k := suite.Multiplier();
      var a := FromBigEndian(privateKeyA);
      var s := ComputeSecret(n, g, k, b, a, u, x);
      var sPad := PadBytes(ToBigEndian(s));
      var key := suite.hash(sPad);
      var m1 := suite.hash(aPad + bPad + key);
      clientProofM1 := m1;
      sessionKey := key;
      return Ok((m1, key));
    }

    /** Accepts exactly the M2 of a server that knows K. */
    method VerifyServer(serverM2: bytes) returns (r: Result<()>)
      requires suite.Valid()
      ensures r == if serverM2 == suite.hash(Pad(ToBigEndian(publicKeyA)) + clientProofM1 + sessionKey)
                   then Ok(()) else Err(SrpError)
    {
      var aPad := PadBytes(ToBigEndian(publicKeyA));
      var expected := suite.hash(aPad + clientProofM1 + sessionKey);
      if |serverM2| != 32 {
        return Err(SrpError);
      }
      if expected == serverM2 {
        return Ok(());
      }
      return Err(SrpError);
    }
  }

  /** The whole exchange of the source's test_full_srp_flow, with every random choice a parameter: unless a
      weak value is refused on the way, client and server end with one key, the one the server computes, and the
      client accepts M2. */
  method FullFlow(suite: Suite, username: bytes, password: bytes, salt: bytes, aBytes: bytes, b: nat)
    returns (completed: bool, clientKey: bytes, serverKey: bytes, accepted: bool)
    requires suite.Valid() && Prime(suite.n) && suite.g % suite.n != 0
    ensures completed <==>
      var n, g, x := suite.n, suite.g, suite.DeriveX(salt, username, password);
      var a := EphemeralKey(FromBigEndian(aBytes), n);
      && x.Ok? && a > 1 && ModPow(g, a, n) > 1
      && ServerPublic(n, g, suite.Multiplier(), ModPow(g, FromBigEndian(x.value), n), b) != 0
    ensures completed ==>
      var n, g := suite.n, suite.g;
      var verifier := ToBigEndian(ModPow(g, FromBigEndian(suite.DeriveX(salt, username, password).value), n));
      var clientA := ToBigEndian(ModPow(g, EphemeralKey(FromBigEndian(aBytes), n), n));
      && serverKey == suite.ServerKey(clientA, suite.ServerPublicBytes(verifier, b), verifier, b)
      && clientKey == serverKey && accepted
  {
    hide Pow, FromBigEndian, ToBigEndian, ServerPublic, ServerSecret, ClientSecret, Pad;
    var client := new SrpClient(suite, username, password);
    var verifier := client.ComputeVerifier(salt);
    if verifier.Err? {
      return false, [], [], false;
    }
    ghost var v := ModPow(suite.g, FromBigEndian(suite.DeriveX(salt, username, password).value), suite.n);
    ToBigEndianRoundTrip(v);
    var clientA, session := client.StartAuth(aBytes);
    if clientA.Err? {
      return false, [], [], false;
    }
    var serverB := suite.ServerPublicBytes(verifier.value, b);
    ServerPublicBelow(suite.n, suite.g, suite.Multiplier(), v, b);
    ToBigEndianRoundTrip(ServerPublic(suite.n, suite.g, suite.Multiplier(), v, b));
    suite.HandshakeAgrees(username, password, salt, EphemeralKey(FromBigEndian(aBytes), suite.n), b);
    var answer := session.ProcessChallenge(salt, password, serverB);
    if answer.Err? {
      return false, [], [], false;
    }
    clientKey := answer.value.1;
    serverKey := suite.ServerKey(clientA.value, serverB, verifier.value, b);
    var serverM2 := suite.ServerProof(clientA.value, answer.value.0, serverKey);
    var verified := session.VerifyServer(serverM2);
    return true, clientKey, serverKey, verified.Ok?;
  }

  lemma ServerPublicBelow(n: nat, g: nat, k: nat, v: nat, b: nat)
    requires n >= 2
    ensures ServerPublic(n, g, k, v, b) % n == ServerPublic(n, g, k, v, b)
  {
    RemainderTwice((k * v) % n + ModPow(g, b, n), n);
  }
}
