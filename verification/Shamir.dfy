/** Shamir's secret sharing over bytes (usbvault-crypto/src/shamir.rs).

    The random coefficients, which the source draws from the operating system, are a parameter:
    every statement holds for every choice of them. */
module Shamir {
  import opened CryptoResult
  import opened Gf256
  import opened Polynomial
  import NumberTheory

  type u8 = x: int | 0 <= x < 256

  /** The position of a share among at most 255. */
  type position = x: int | 0 <= x < 255

  const DEFAULT_THRESHOLD: u8 := 3
  const DEFAULT_TOTAL_SHARES: nat := 5

  // ---------- Splitting ----------

  /** One random byte for each coefficient above the constant term, secret byte by secret byte. */
  predicate EnoughRandom(secret: seq<bv8>, threshold: u8, random: seq<bv8>) {
    threshold >= 1 && |random| == |secret| * (threshold - 1)
  }

  lemma RowInBounds(b: nat, rows: nat, count: nat)
    requires b < rows
    ensures 0 <= b * count <= b * count + count <= rows * count
  {
    var rest := rows - b - 1;
    NumberTheory.Distributes(b, 1, count);
    NumberTheory.Distributes(b + 1, rest, count);
    ProductOfNats(b, count);
    ProductOfNats(rest, count);
  }

  lemma ProductOfNats(a: nat, b: nat)
    ensures a * b >= 0
  {}

  /** The random coefficients of secret byte `b`. */
  function Row(random: seq<bv8>, count: nat, b: nat, rows: nat): (row: seq<bv8>)
    requires b < rows && |random| == rows * count
    ensures |row| == count
  {
    RowInBounds(b, rows, count);
    random[b * count..b * count + count]
  }

  function Poly(secret: seq<bv8>, threshold: u8, random: seq<bv8>, b: nat): (p: seq<bv8>)
    requires EnoughRandom(secret, threshold, random) && b < |secret|
    ensures |p| == threshold
  {
    [secret[b]] + Row(random, threshold - 1, b, |secret|)
  }

  /** The x-coordinate of share `i`. */
  function Index(i: position): bv8 {
    (i + 1) as bv8
  }

  lemma IndexValue(i: position)
    ensures Index(i) as int == i + 1
  {
    ByteOfInt(i + 1);
  }

  lemma IndexInjective(i: position, j: position)
    ensures Index(i) == Index(j) ==> i == j
    ensures Index(i) != 0
  {
    hide Index;
    IndexValue(i);
    IndexValue(j);
    ZeroByte(Index(i));
  }

  lemma ZeroByte(b: bv8)
    ensures b == 0 ==> b as int == 0
  {}

  /** Share `i` with the data of the first `bytes` secret bytes. */
  function SharePrefix(secret: seq<bv8>, threshold: u8, random: seq<bv8>, i: position, bytes: nat): (s: seq<bv8>)
    requires EnoughRandom(secret, threshold, random) && bytes <= |secret|
    ensures |s| == bytes + 1
  {
    if bytes == 0 then [Index(i)]
    else SharePrefix(secret, threshold, random, i, bytes - 1)
           + [Eval(Poly(secret, threshold, random, bytes - 1), Index(i))]
  }

  function Share(secret: seq<bv8>, threshold: u8, random: seq<bv8>, i: position): seq<bv8>
    requires EnoughRandom(secret, threshold, random)
  {
    SharePrefix(secret, threshold, random, i, |secret|)
  }

  method BuildPolynomial(secret: seq<bv8>, threshold: u8, random: seq<bv8>, byteIdx: nat)
    returns (poly: seq<bv8>)
    requires EnoughRandom(secret, threshold, random) && byteIdx < |secret|
    ensures poly == Poly(secret, threshold, random, byteIdx)
  {
    var count := threshold - 1;
    poly := [secret[byteIdx]];
    RowInBounds(byteIdx, |secret|, count);
    ghost var start := byteIdx * count;
    for c := 0 to count
      invariant poly == [secret[byteIdx]] + random[start..start + c]
    {
      poly := poly + [random[byteIdx * count + c]];
    }
  }

  method CreateShares(secret: seq<bv8>, threshold: u8, total: nat, random: seq<bv8>)
    returns (r: Result<seq<seq<bv8>>>)
    requires (secret != [] && 2 <= threshold <= total <= 255) ==> EnoughRandom(secret, threshold, random)
    ensures r.Ok? <==> secret != [] && 2 <= threshold <= total <= 255
    ensures r.Err? ==> r.error == InvalidArgument
    ensures r.Ok? ==> |r.value| == total
    ensures r.Ok? ==> forall i :: 0 <= i < total ==> r.value[i] == Share(secret, threshold, random, i)
  {
    hide Eval, Poly, Index;
    if secret == [] {
      return Err(InvalidArgument);
    }
    if threshold < 2 {
      return Err(InvalidArgument);
    }
    if total < threshold || total > 255 {
      return Err(InvalidArgument);
    }
    var shares := new seq<bv8>[total](_ => []);
    for i := 0 to total
      invariant forall k :: 0 <= k < i ==> shares[k] == SharePrefix(secret, threshold, random, k, 0)
      invariant forall k :: i <= k < total ==> shares[k] == []
    {
      shares[i] := shares[i] + [Index(i)];
    }
    for byteIdx := 0 to |secret|
      invariant forall k :: 0 <= k < total ==> shares[k] == SharePrefix(secret, threshold, random, k, byteIdx)
    {
      var poly := BuildPolynomial(secret, threshold, random, byteIdx);
      for i := 0 to total
        invariant forall k :: 0 <= k < i ==> shares[k] == SharePrefix(secret, threshold, random, k, byteIdx + 1)
        invariant forall k :: i <= k < total ==> shares[k] == SharePrefix(secret, threshold, random, k, byteIdx)
      {
        var y := Gf256Eval(poly, Index(i));
        shares[i] := shares[i] + [y];
      }
    }
    return Ok(shares[..]);
  }

  lemma {:induction false} SharePrefixAt(secret: seq<bv8>, threshold: u8, random: seq<bv8>, i: position, bytes: nat)
    requires EnoughRandom(secret, threshold, random) && bytes <= |secret|
    ensures var s := SharePrefix(secret, threshold, random, i, bytes);
      && s[0] == Index(i)
      && forall b :: 0 <= b < bytes ==> s[1 + b] == Eval(Poly(secret, threshold, random, b), Index(i))
  {
    hide Eval;
    if bytes > 0 {
      SharePrefixAt(secret, threshold, random, i, bytes - 1);
    }
  }

  /** A share is its number, from 1 on, and for every secret byte the sum of c_j x^j over that byte and its own
      run of random bytes. */
  lemma ShareWrittenOut(secret: seq<bv8>, threshold: u8, random: seq<bv8>, i: position, b: nat)
    requires EnoughRandom(secret, threshold, random) && b < |secret|
    ensures var share, count := Share(secret, threshold, random, i), threshold - 1;
      && |share| == |secret| + 1 && share[0] as int == i + 1
      && 0 <= b * count <= b * count + count <= |random|
      && var p := [secret[b]] + random[b * count..b * count + count];
         share[1 + b] == TermSum(p, share[0], |p|)
  {
    hide Eval, TermSum, Index;
    SharePrefixAt(secret, threshold, random, i, |secret|);
    IndexValue(i);
    RowInBounds(b, |secret|, threshold - 1);
    HornerIsTermSum(Poly(secret, threshold, random, b), Index(i));
  }

  // ---------- Recovery ----------

  function Indices(shares: seq<seq<bv8>>): seq<bv8>
    requires forall k :: 0 <= k < |shares| ==> shares[k] != []
  {
    seq(|shares|, k requires 0 <= k < |shares| => shares[k][0])
  }

  function Column(shares: seq<seq<bv8>>, b: nat): seq<bv8>
    requires forall k :: 0 <= k < |shares| ==> |shares[k]| > 1 + b
  {
    seq(|shares|, k requires 0 <= k < |shares| => shares[k][1 + b])
  }

  /** Shares of one length with at least one data byte and different x-coordinates. */
  ghost predicate WellFormed(shares: seq<seq<bv8>>) {
    && shares != []
    && |shares[0]| > 1
    && (forall k :: 0 <= k < |shares| ==> |shares[k]| == |shares[0]|)
    && Distinct(Indices(shares))
  }

  /** Byte by byte, the value at 0 of Lagrange's formula. */
  function Recovered(shares: seq<seq<bv8>>): seq<bv8>
    requires shares != [] && |shares[0]| > 1 && forall k :: 0 <= k < |shares| ==> |shares[k]| == |shares[0]|
  {
    seq(|shares[0]| - 1, b requires 0 <= b < |shares[0]| - 1 =>
      LagrangeAtZero(Indices(shares), Column(shares, b)))
  }

  ghost function RecoverSpec(shares: seq<seq<bv8>>, threshold: u8): Result<seq<bv8>>
    requires threshold > 0
  {
    if |shares| < threshold then Err(InvalidArgument)
    else if WellFormed(shares[..threshold]) then Ok(Recovered(shares[..threshold]))
    else Err(SharingError)
  }

  /** The first `threshold` shares have one length, at least one data byte, and different numbers. */
  predicate Usable(shares: seq<seq<bv8>>, threshold: u8)
    requires 0 < threshold <= |shares|
  {
    && |shares[0]| > 1
    && (forall k :: 0 <= k < threshold ==> |shares[k]| == |shares[0]|)
    && forall i, j :: 0 <= i < j < threshold ==> shares[i][0] != shares[j][0]
  }

  /** Recovery, written out: too few shares are an InvalidArgument and unusable ones a SharingError; otherwise
      byte b is the constant term of the polynomial with `threshold` coefficients through byte b of the first
      `threshold` shares. Shares behind these play no part. */
  lemma RecoverExactly(shares: seq<seq<bv8>>, threshold: u8)
    requires threshold > 0
    ensures var r := RecoverSpec(shares, threshold);
      if |shares| < threshold then r == Err(InvalidArgument)
      else if !Usable(shares, threshold) then r == Err(SharingError)
      else
        && r.Ok? && |r.value| == |shares[0]| - 1
        && forall b, p: seq<bv8> |
             && 0 <= b < |shares[0]| - 1 && |p| == threshold
             && forall k :: 0 <= k < threshold ==> Eval(p, shares[k][0]) == shares[k][1 + b] ::
             r.value[b] == p[0]
  {
    if |shares| >= threshold && Usable(shares, threshold) {
      hide Eval, LagrangeAtZero;
      var first := shares[..threshold];
      assert WellFormed(first);
      forall b, p: seq<bv8> | 0 <= b < |shares[0]| - 1 && |p| == threshold
        && forall k :: 0 <= k < threshold ==> Eval(p, shares[k][0]) == shares[k][1 + b]
        ensures LagrangeAtZero(Indices(first), Column(first, b)) == p[0]
      {
        assert Values(p, Indices(first)) == Column(first, b);
        LagrangeRecovers(p, Indices(first));
        EvalAtZero(p);
      }
    } else if |shares| >= threshold {
      var first := shares[..threshold];
      if WellFormed(first) {
        NumbersDiffer(first);
      }
    }
  }

  lemma NumbersDiffer(shares: seq<seq<bv8>>)
    requires WellFormed(shares)
    ensures forall i, j :: 0 <= i < j < |shares| ==> shares[i][0] != shares[j][0]
  {
    var xs := Indices(shares);
    forall i, j | 0 <= i < j < |shares| ensures shares[i][0] != shares[j][0] {
      assert xs[i] != xs[j];
    }
  }

  method RecoverSecret(shares0: seq<seq<bv8>>, threshold: u8) returns (r: Result<seq<bv8>>)
    requires threshold > 0 && (|shares0| >= threshold ==> shares0[0] != [])
    ensures r == RecoverSpec(shares0, threshold)
  {
    hide LagrangeSum, Basis, Factor, Mul, Inv;
    if |shares0| < threshold {
      return Err(InvalidArgument);
    }
    var shares := shares0[..threshold];
    var dataLen := |shares[0]| - 1;
    if dataLen == 0 {
      return Err(SharingError);
    }
    for k := 0 to |shares|
      invariant forall i :: 0 <= i < k ==> |shares[i]| == dataLen + 1
    {
      if |shares[k]| != dataLen + 1 {
        return Err(SharingError);
      }
    }
    var xs := Indices(shares);
    for i := 0 to |xs|
      invariant forall a, b :: 0 <= a < i && a < b < |xs| ==> xs[a] != xs[b]
    {
      for j := i + 1 to |xs|
        invariant forall b :: i < b < j ==> xs[i] != xs[b]
      {
        if xs[i] == xs[j] {
          return Err(SharingError);
        }
      }
    }
    var secret := new bv8[dataLen](_ => 0);
    for byteIdx := 0 to dataLen
      invariant forall b :: 0 <= b < byteIdx ==> secret[b] == Recovered(shares)[b]
    {
      secret[byteIdx] := InterpolateByte(shares, xs, byteIdx);
    }
    assert secret[..] == Recovered(shares);
    return Ok(secret[..]);
  }

  /** The sum over the shares, for one byte position. */
  method InterpolateByte(shares: seq<seq<bv8>>, xs: seq<bv8>, byteIdx: nat) returns (value: bv8)
    requires WellFormed(shares) && xs == Indices(shares) && byteIdx < |shares[0]| - 1
    ensures value == LagrangeAtZero(xs, Column(shares, byteIdx))
  {
    hide Mul, Basis;
    ghost var ys := Column(shares, byteIdx);
    value := 0;
    for i := 0 to |xs|
      invariant value == LagrangeSum(xs, ys, i)
    {
      var yi := shares[i][1 + byteIdx];
      var basis := BasisAtZero(xs, i);
      var term := Gf256Mul(yi, basis);
      value := value ^ term;
    }
  }

  /** The product over the other shares. */
  method BasisAtZero(xs: seq<bv8>, i: nat) returns (basis: bv8)
    requires i < |xs| && Distinct(xs)
    ensures basis == Basis(xs, i, |xs|)
  {
    hide Add, Mul, Inv;
    basis := 1;
    for j := 0 to |xs|
      invariant basis == Basis(xs, i, j)
    {
      if i != j {
        var num := xs[j];
        var den := xs[j] ^ xs[i];
        DifferenceNonZero(xs[j], xs[i]);
        if den == 0 {
          assert false; // the x-coordinates are distinct, so this guard never fires
        }
        var inverse := Gf256Inv(den);
        var factor := Gf256Mul(num, inverse);
        basis := Gf256Mul(basis, factor);
      }
    }
  }

  lemma DifferenceNonZero(a: bv8, b: bv8)
    ensures a ^ b == Add(a, b)
    ensures a ^ b == 0 <==> a == b
  {}

  // ---------- Any quorum recovers the secret ----------

  function Select(secret: seq<bv8>, threshold: u8, random: seq<bv8>, sel: seq<position>): (s: seq<seq<bv8>>)
    requires EnoughRandom(secret, threshold, random)
    ensures |s| == |sel|
  {
    seq(|sel|, k requires 0 <= k < |sel| => Share(secret, threshold, random, sel[k]))
  }

  /** Different positions among `total` shares, in any order. */
  ghost predicate Selection(sel: seq<position>, total: nat) {
    (forall k :: 0 <= k < |sel| ==> sel[k] < total) && forall i, j :: 0 <= i < j < |sel| ==> sel[i] != sel[j]
  }

  function IndicesOf(sel: seq<position>): seq<bv8>
  {
    seq(|sel|, k requires 0 <= k < |sel| => Index(sel[k]))
  }

  lemma SelectedIndices(sel: seq<position>, total: nat)
    requires Selection(sel, total) && total <= 255
    ensures Distinct(IndicesOf(sel))
    ensures forall k :: 0 <= k < |sel| ==> IndicesOf(sel)[k] != 0
  {
    hide Index;
    forall i, j | 0 <= i < j < |sel| ensures IndicesOf(sel)[i] != IndicesOf(sel)[j] {
      IndexInjective(sel[i], sel[j]);
    }
    forall k | 0 <= k < |sel| ensures IndicesOf(sel)[k] != 0 {
      IndexInjective(sel[k], sel[k]);
    }
  }

  /** Selected shares are well formed, and column b holds the values of the b-th polynomial. */
  lemma SelectedColumns(secret: seq<bv8>, threshold: u8, random: seq<bv8>, sel: seq<position>, total: nat)
    requires secret != [] && EnoughRandom(secret, threshold, random)
    requires sel != [] && Selection(sel, total) && total <= 255
    ensures var s := Select(secret, threshold, random, sel);
      && WellFormed(s) && |s[0]| == |secret| + 1 && Indices(s) == IndicesOf(sel)
      && forall b :: 0 <= b < |secret| ==>
           Column(s, b) == Values(Poly(secret, threshold, random, b), IndicesOf(sel))
  {
    hide Eval, Index;
    var s := Select(secret, threshold, random, sel);
    SelectedIndices(sel, total);
    forall k | 0 <= k < |sel|
      ensures s[k][0] == Index(sel[k])
      ensures forall b :: 0 <= b < |secret| ==> s[k][1 + b] == Eval(Poly(secret, threshold, random, b), Index(sel[k]))
    {
      SharePrefixAt(secret, threshold, random, sel[k], |secret|);
    }
    assert Indices(s) == IndicesOf(sel);
  }

  /** Any selection of distinct shares, in any order, gives the secret back exactly, for every recovery
      threshold from the splitting threshold up to the number of shares selected. */
  lemma QuorumRecovers(secret: seq<bv8>, threshold: u8, total: nat, random: seq<bv8>,
                       sel: seq<position>, quorum: u8)
    requires secret != [] && 2 <= threshold <= total <= 255 && EnoughRandom(secret, threshold, random)
    requires Selection(sel, total) && threshold <= quorum <= |sel|
    ensures RecoverSpec(Select(secret, threshold, random, sel), quorum) == Ok(secret)
  {
    hide LagrangeSum, Eval, Index;
    var used := sel[..quorum];
    var shares := Select(secret, threshold, random, sel);
    assert shares[..quorum] == Select(secret, threshold, random, used);
    SelectedColumns(secret, threshold, random, used, total);
    forall b | 0 <= b < |secret| ensures Recovered(shares[..quorum])[b] == secret[b] {
      LagrangeRecovers(Poly(secret, threshold, random, b), IndicesOf(used));
      EvalAtZero(Poly(secret, threshold, random, b));
    }
    assert Recovered(shares[..quorum]) == secret;
  }

  lemma EvalAtZero(p: seq<bv8>)
    requires p != []
    ensures Eval(p, 0) == p[0]
  {
    hide Add, Mul;
    BytesAreAField(Eval(p[1..], 0), 0, 0);
    AddLaws(p[0], 0, 0);
  }

  /** The coefficient of the highest power for secret byte `b`. */
  function TopCoefficient(secret: seq<bv8>, threshold: u8, random: seq<bv8>, b: nat): bv8
    requires EnoughRandom(secret, threshold, random) && b < |secret|
  {
    Last(Poly(secret, threshold, random, b))
  }

  /** With exactly one share too few, recovery succeeds but returns the secret if and only if every
      top coefficient happens to be 0. */
  lemma OneShareShort(secret: seq<bv8>, threshold: u8, total: nat, random: seq<bv8>, sel: seq<position>)
    requires secret != [] && 2 <= threshold <= total <= 255 && EnoughRandom(secret, threshold, random)
    requires Selection(sel, total) && |sel| == threshold - 1
    ensures var r := RecoverSpec(Select(secret, threshold, random, sel), threshold - 1);
      && r.Ok? && |r.value| == |secret|
      && (forall b :: 0 <= b < |secret| ==>
            r.value[b] == Add(secret[b], Mul(TopCoefficient(secret, threshold, random, b), Product(IndicesOf(sel)))))
      && (r.value == secret <==>
            forall b :: 0 <= b < |secret| ==> TopCoefficient(secret, threshold, random, b) == 0)
  {
    hide Add, Mul, LagrangeSum, Eval, Index, Product;
    var shares, xs := Select(secret, threshold, random, sel), IndicesOf(sel);
    assert shares[..threshold - 1] == shares;
    SelectedColumns(secret, threshold, random, sel, total);
    SelectedIndices(sel, total);
    ProductNonZero(xs);
    var value := Recovered(shares);
    forall b | 0 <= b < |secret|
      ensures value[b] == Add(secret[b], Mul(TopCoefficient(secret, threshold, random, b), Product(xs)))
      ensures value[b] == secret[b] <==> TopCoefficient(secret, threshold, random, b) == 0
    {
      var p := Poly(secret, threshold, random, b);
      LagrangeOnePointShort(p, xs);
      EvalAtZero(p);
      AddLaws(secret[b], Mul(Last(p), Product(xs)), 0);
      AddLaws(secret[b], secret[b], 0);
      NoZeroDivisors(Last(p), Product(xs));
    }
  }

  // ---------- Fewer shares than the threshold say nothing ----------

  /** The coefficients above the constant term `s` that fit the points. */
  function FittingRow(xs: seq<bv8>, ys: seq<bv8>, s: bv8): (row: seq<bv8>)
    requires |xs| == |ys|
    ensures |row| == |xs|
  {
    Interpolant([0] + xs, [s] + ys)[1..]
  }

  /** For any threshold - 1 points and any candidate byte, exactly one coefficient vector fits. */
  lemma ExactlyOneRowFits(xs: seq<bv8>, ys: seq<bv8>, s: bv8)
    requires |xs| == |ys| && Distinct(xs) && forall i :: 0 <= i < |xs| ==> xs[i] != 0
    ensures Values([s] + FittingRow(xs, ys, s), xs) == ys
    ensures forall row: seq<bv8> :: |row| == |xs| && Values([s] + row, xs) == ys ==> row == FittingRow(xs, ys, s)
  {
    hide Eval, Interpolant;
    var xs0, ys0 := [0] + xs, [s] + ys;
    var p := Interpolant(xs0, ys0);
    InterpolantFits(xs0, ys0);
    EvalAtZero(p);
    assert Values(p, xs0)[0] == s;
    assert p == [s] + FittingRow(xs, ys, s);
    forall i | 0 <= i < |xs| ensures Eval(p, xs[i]) == ys[i] {
      assert Values(p, xs0)[i + 1] == ys0[i + 1];
    }
    assert Values(p, xs) == ys;
    forall row: seq<bv8> | |row| == |xs| && Values([s] + row, xs) == ys
      ensures row == FittingRow(xs, ys, s)
    {
      var p' := [s] + row;
      EvalAtZero(p');
      forall i | 0 <= i < |xs0| ensures Values(p', xs0)[i] == ys0[i] {
        if i > 0 {
          assert Values(p', xs)[i - 1] == ys[i - 1];
        }
      }
      assert Values(p', xs0) == ys0;
      FitIsUnique(p, p', xs0);
      assert row == p'[1..];
    }
  }

  /** The shares at positions `sel` are the given x-coordinates followed by the given data. */
  ghost predicate Fits(secret: seq<bv8>, threshold: u8, random: seq<bv8>, sel: seq<position>, data: seq<seq<bv8>>)
    requires EnoughRandom(secret, threshold, random) && |sel| == |data|
  {
    forall k :: 0 <= k < |sel| ==> Share(secret, threshold, random, sel[k]) == [Index(sel[k])] + data[k]
  }

  function DataColumn(data: seq<seq<bv8>>, bytes: nat, b: nat): seq<bv8>
    requires b < bytes && forall k :: 0 <= k < |data| ==> |data[k]| == bytes
  {
    seq(|data|, k requires 0 <= k < |data| => data[k][b])
  }

  /** Fitting the shares is fitting every byte position on its own. */
  lemma FitsByRow(secret: seq<bv8>, threshold: u8, random: seq<bv8>, sel: seq<position>, data: seq<seq<bv8>>)
    requires EnoughRandom(secret, threshold, random) && |sel| == |data|
    requires forall k :: 0 <= k < |data| ==> |data[k]| == |secret|
    ensures Fits(secret, threshold, random, sel, data) <==>
      forall b :: 0 <= b < |secret| ==>
        Values(Poly(secret, threshold, random, b), IndicesOf(sel)) == DataColumn(data, |secret|, b)
  {
    hide Eval, Index, Poly;
    forall k | 0 <= k < |sel|
      ensures Share(secret, threshold, random, sel[k])[0] == Index(sel[k])
      ensures forall b :: 0 <= b < |secret| ==>
        Share(secret, threshold, random, sel[k])[1 + b] == Eval(Poly(secret, threshold, random, b), Index(sel[k]))
    {
      SharePrefixAt(secret, threshold, random, sel[k], |secret|);
    }
    if Fits(secret, threshold, random, sel, data) {
      forall b | 0 <= b < |secret|
        ensures Values(Poly(secret, threshold, random, b), IndicesOf(sel)) == DataColumn(data, |secret|, b)
      {
        forall k | 0 <= k < |sel|
          ensures Eval(Poly(secret, threshold, random, b), Index(sel[k])) == data[k][b]
        {
          assert Share(secret, threshold, random, sel[k])[1 + b] == ([Index(sel[k])] + data[k])[1 + b];
        }
      }
    }
    if forall b :: 0 <= b < |secret| ==>
        Values(Poly(secret, threshold, random, b), IndicesOf(sel)) == DataColumn(data, |secret|, b)
    {
      forall k | 0 <= k < |sel|
        ensures Share(secret, threshold, random, sel[k]) == [Index(sel[k])] + data[k]
      {
        var share := Share(secret, threshold, random, sel[k]);
        forall b | 0 <= b < |secret| ensures share[1 + b] == data[k][b] {
          assert Values(Poly(secret, threshold, random, b), IndicesOf(sel))[k] == DataColumn(data, |secret|, b)[k];
        }
        assert share[1..] == data[k];
      }
    }
  }

  lemma CellOfRow(b: nat, c: nat, count: nat)
    requires c < count
    ensures (b * count + c) / count == b && (b * count + c) % count == c
  {
    var x := b * count + c;
    assert x == x / count * count + x % count;
    NumberTheory.DivisionIsUnique(x / count, x % count, b, c, count);
  }

  lemma CellInBounds(i: nat, rows: nat, count: nat)
    requires i < rows * count
    ensures count > 0 && i / count < rows && i % count < count
  {}

  /** The coefficient bytes whose rows are the given ones. */
  lemma JoinRows(rows: seq<seq<bv8>>, count: nat) returns (random: seq<bv8>)
    requires forall b :: 0 <= b < |rows| ==> |rows[b]| == count
    ensures |random| == |rows| * count
    ensures forall b :: 0 <= b < |rows| ==> Row(random, count, b, |rows|) == rows[b]
  {
    forall i | 0 <= i < |rows| * count ensures count > 0 && i / count < |rows| && i % count < count {
      CellInBounds(i, |rows|, count);
    }
    random := seq(|rows| * count, i requires 0 <= i < |rows| * count => rows[i / count][i % count]);
    forall b | 0 <= b < |rows| ensures Row(random, count, b, |rows|) == rows[b] {
      RowInBounds(b, |rows|, count);
      forall c | 0 <= c < count ensures Row(random, count, b, |rows|)[c] == rows[b][c] {
        CellOfRow(b, c, count);
      }
    }
  }

  lemma RowsDetermine(random: seq<bv8>, random': seq<bv8>, rows: nat, count: nat)
    requires |random| == |random'| == rows * count
    requires forall b :: 0 <= b < rows ==> Row(random, count, b, rows) == Row(random', count, b, rows)
    ensures random == random'
  {
    forall i | 0 <= i < |random| ensures random[i] == random'[i] {
      CellInBounds(i, rows, count);
      var b, c := i / count, i % count;
      RowInBounds(b, rows, count);
      assert i == b * count + c;
      assert Row(random, count, b, rows)[c] == Row(random', count, b, rows)[c];
    }
  }

  /** Any threshold - 1 shares, with any data at all, fit every secret of that length for exactly one
      choice of the random coefficients: they do not favour any secret. */
  lemma BelowThresholdFitsEverySecret(secret: seq<bv8>, threshold: u8, total: nat,
                                      sel: seq<position>, data: seq<seq<bv8>>) returns (random: seq<bv8>)
    requires secret != [] && 2 <= threshold <= total <= 255
    requires Selection(sel, total) && |sel| == |data| == threshold - 1
    requires forall k :: 0 <= k < |data| ==> |data[k]| == |secret|
    ensures EnoughRandom(secret, threshold, random) && Fits(secret, threshold, random, sel, data)
    ensures forall random' | EnoughRandom(secret, threshold, random') ::
      Fits(secret, threshold, random', sel, data) ==> random' == random
  {
    hide Eval, Index, FittingRow, Row, Share;
    var n, count, xs := |secret|, threshold - 1, IndicesOf(sel);
    SelectedIndices(sel, total);
    var rows := seq(n, b requires 0 <= b < n => FittingRow(xs, DataColumn(data, n, b), secret[b]));
    random := JoinRows(rows, count);
    forall b | 0 <= b < n
      ensures Values(Poly(secret, threshold, random, b), xs) == DataColumn(data, n, b)
    {
      ExactlyOneRowFits(xs, DataColumn(data, n, b), secret[b]);
      assert Poly(secret, threshold, random, b) == [secret[b]] + rows[b];
    }
    FitsByRow(secret, threshold, random, sel, data);
    forall random' | EnoughRandom(secret, threshold, random') && Fits(secret, threshold, random', sel, data)
      ensures random' == random
    {
      FitsByRow(secret, threshold, random', sel, data);
      forall b | 0 <= b < n ensures Row(random', count, b, n) == Row(random, count, b, n) {
        ExactlyOneRowFits(xs, DataColumn(data, n, b), secret[b]);
        assert Values([secret[b]] + Row(random', count, b, n), xs) == DataColumn(data, n, b);
      }
      RowsDetermine(random', random, n, count);
    }
  }

  // ---------- The master encryption key ----------

  method CreateMekShares(mek: seq<bv8>, random: seq<bv8>) returns (r: Result<seq<seq<bv8>>>)
    requires |mek| == 64 && EnoughRandom(mek, 3, random)
    ensures r.Ok? && |r.value| == 5
    ensures forall i :: 0 <= i < 5 ==> r.value[i] == Share(mek, 3, random, i)
  {
    r := CreateShares(mek, DEFAULT_THRESHOLD, DEFAULT_TOTAL_SHARES, random);
  }

  method RecoverMek(shares: seq<seq<bv8>>) returns (r: Result<seq<bv8>>)
    requires |shares| >= 3 ==> shares[0] != []
    ensures var s := RecoverSpec(shares, 3);
      r == if s.Ok? && |s.value| != 64 then Err(KeyWrappingFailed) else s
  {
    r := RecoverSecret(shares, DEFAULT_THRESHOLD);
    if r.Ok? && |r.value| != 64 {
      r := Err(KeyWrappingFailed);
    }
  }

  /** Any three or more of the five shares of a 64-byte key give the key back. */
  method BackUpAndRestoreMek(mek: seq<bv8>, random: seq<bv8>, sel: seq<position>) returns (restored: Result<seq<bv8>>)
    requires |mek| == 64 && EnoughRandom(mek, 3, random)
    requires Selection(sel, 5) && |sel| >= 3
    ensures restored == Ok(mek)
  {
    hide Share;
    var all := CreateMekShares(mek, random);
    var chosen := seq(|sel|, k requires 0 <= k < |sel| => all.value[sel[k]]);
    assert chosen == Select(mek, DEFAULT_THRESHOLD, random, sel);
    QuorumRecovers(mek, DEFAULT_THRESHOLD, DEFAULT_TOTAL_SHARES, random, sel, DEFAULT_THRESHOLD);
    SelectedColumns(mek, DEFAULT_THRESHOLD, random, sel, DEFAULT_TOTAL_SHARES);
    restored := RecoverMek(chosen);
  }
}
