/** Byte strings and the fixed-width and minimal encodings of numbers used by usbvault-crypto. */
module Bytes {
  import opened NumberTheory

  type byte = x: int | 0 <= x < 256

  type bytes = seq<byte>

  const TWO_32: nat := 0x1_0000_0000
  const TWO_64: nat := 0x1_0000_0000_0000_0000

  /** The bytes of an ASCII literal. */
  function Ascii(s: string): (b: bytes)
    ensures |b| == |s|
  {
    seq(|s|, i requires 0 <= i < |s| => s[i] as int % 256)
  }

  // ---------- Little endian ----------

  function LittleEndian(n: nat, width: nat): (b: bytes)
    ensures |b| == width
  {
    if width == 0 then [] else [n % 256] + LittleEndian(n / 256, width - 1)
  }

  function FromLittleEndian(b: bytes): nat {
    if b == [] then 0 else b[0] + 256 * FromLittleEndian(b[1..])
  }

  lemma {:induction false} LittleEndianRoundTrip(n: nat, width: nat)
    requires n < Pow(256, width)
    ensures FromLittleEndian(LittleEndian(n, width)) == n
  {
    if width > 0 {
      LittleEndianRoundTrip(n / 256, width - 1);
      assert LittleEndian(n, width)[1..] == LittleEndian(n / 256, width - 1);
    }
  }

  lemma {:induction false} LittleEndianOfValue(b: bytes)
    ensures FromLittleEndian(b) < Pow(256, |b|)
    ensures LittleEndian(FromLittleEndian(b), |b|) == b
  {
    if b != [] {
      LittleEndianOfValue(b[1..]);
      var v := FromLittleEndian(b[1..]);
      assert FromLittleEndian(b) % 256 == b[0] && FromLittleEndian(b) / 256 == v;
    }
  }

  /** The least significant byte comes first: byte k is the k-th digit in base 256. */
  lemma {:induction false} LittleEndianDigit(n: nat, width: nat, k: nat)
    requires k < width
    ensures Pow(256, k) > 0 && LittleEndian(n, width)[k] == n / Pow(256, k) % 256
  {
    PowPositive(256, k);
    if k > 0 {
      LittleEndianDigit(n / 256, width - 1, k - 1);
      DivideTwice(n, 256, Pow(256, k - 1));
    }
  }

  lemma DivideTwice(n: nat, a: nat, b: nat)
    requires a > 0 && b > 0
    ensures a * b > 0 && n / a / b == n / (a * b)
  {
    var q, r := n / a / b, n / a % b;
    assert n / a == q * b + r;
    assert n == (q * b + r) * a + n % a;
    Associates(q, b, a);
    assert b * a == a * b;
    Distributes(q * b, r, a);
    var low := r * a + n % a;
    assert (r + 1) * a <= b * a;
    Distributes(r, 1, a);
    DivMod(n, a * b);
    DivisionIsUnique(q, low, n / (a * b), n % (a * b), a * b);
  }

  lemma Widths()
    ensures Pow(256, 4) == TWO_32
    ensures Pow(256, 8) == TWO_64
  {
    assert Pow(256, 2) == 0x1_0000;
    PowAdd(256, 2, 2);
    PowAdd(256, 4, 4);
  }

  /** `(n as u32).to_le_bytes()`: the cast keeps the low 32 bits. */
  function U32Le(n: nat): (b: bytes)
    ensures |b| == 4
  {
    LittleEndian(n % TWO_32, 4)
  }

  /** `(n as u64).to_le_bytes()`. */
  function U64Le(n: nat): (b: bytes)
    ensures |b| == 8
  {
    LittleEndian(n % TWO_64, 8)
  }

  lemma U32RoundTrip(n: nat)
    ensures FromLittleEndian(U32Le(n)) == n % TWO_32
  {
    Widths();
    LittleEndianRoundTrip(n % TWO_32, 4);
  }

  lemma U64RoundTrip(n: nat)
    ensures FromLittleEndian(U64Le(n)) == n % TWO_64
  {
    Widths();
    LittleEndianRoundTrip(n % TWO_64, 8);
  }

  lemma U32OfValue(b: bytes)
    requires |b| == 4
    ensures FromLittleEndian(b) < TWO_32 && U32Le(FromLittleEndian(b)) == b
  {
    hide LittleEndian, FromLittleEndian, Pow;
    Widths();
    LittleEndianOfValue(b);
    SmallRemainder(FromLittleEndian(b), TWO_32);
  }

  // ---------- Big endian ----------

  function FromBigEndian(b: bytes): nat {
    if b == [] then 0 else 256 * FromBigEndian(b[..|b| - 1]) + b[|b| - 1]
  }

  /** The digits of n in base 256, most significant first; none for 0. */
  function Digits(n: nat): bytes {
    if n == 0 then [] else Digits(n / 256) + [n % 256]
  }

  /** `BigUint::to_bytes_be`: no leading zeros, and one zero byte for 0. */
  function ToBigEndian(n: nat): bytes {
    if n == 0 then [0] else Digits(n)
  }

  function Zeros(n: nat): (b: bytes)
    ensures |b| == n
  {
    seq(n, _ => 0)
  }

  lemma {:induction false} DigitsRoundTrip(n: nat)
    ensures FromBigEndian(Digits(n)) == n
  {
    if n > 0 {
      DigitsRoundTrip(n / 256);
      assert Digits(n)[..|Digits(n)| - 1] == Digits(n / 256);
    }
  }

  lemma ToBigEndianRoundTrip(n: nat)
    ensures FromBigEndian(ToBigEndian(n)) == n
  {
    DigitsRoundTrip(n);
    assert FromBigEndian([0]) == 256 * FromBigEndian([0][..0]) + 0;
  }

  lemma FromOneByte(x: byte)
    ensures FromBigEndian([x]) == x
  {
    assert FromBigEndian([x]) == 256 * FromBigEndian([x][..0]) + x;
  }

  /** The encoding of a number has no leading zero, except that of 0, which is one zero byte. */
  lemma ToBigEndianIsMinimal(n: nat)
    ensures ToBigEndian(0) == [0]
    ensures n > 0 ==> ToBigEndian(n) != [] && ToBigEndian(n)[0] != 0
  {
    if n > 0 {
      DigitsStart(n);
    }
  }

  lemma {:induction false} DigitsStart(n: nat)
    requires n > 0
    ensures Digits(n) != [] && Digits(n)[0] != 0
  {
    if n / 256 > 0 {
      DigitsStart(n / 256);
    } else {
      assert Digits(n / 256) == [];
    }
  }

  lemma {:induction false} DigitsLength(n: nat, width: nat)
    requires n < Pow(256, width)
    ensures |Digits(n)| <= width
  {
    if n > 0 {
      if width == 0 {
        assert false;
      }
      DigitsLength(n / 256, width - 1);
    }
  }

  lemma {:induction false} BigEndianAppend(a: bytes, b: bytes)
    ensures FromBigEndian(a + b) == FromBigEndian(a) * Pow(256, |b|) + FromBigEndian(b)
  {
    if b == [] {
      assert a + b == a;
    } else {
      var h, l := b[..|b| - 1], b[|b| - 1];
      assert (a + b)[..|a + b| - 1] == a + h;
      BigEndianAppend(a, h);
      ShiftedProduct(FromBigEndian(a), Pow(256, |b| - 1));
    }
  }

  lemma ShiftedProduct(x: nat, w: nat)
    ensures 256 * (x * w) == x * (256 * w)
  {}

  lemma {:induction false} BigEndianBound(b: bytes)
    ensures FromBigEndian(b) < Pow(256, |b|)
  {
    if b != [] {
      BigEndianBound(b[..|b| - 1]);
    }
  }

  lemma {:induction false} ZerosValue(n: nat)
    ensures FromBigEndian(Zeros(n)) == 0
  {
    if n > 0 {
      ZerosValue(n - 1);
      assert Zeros(n)[..n - 1] == Zeros(n - 1);
    }
  }

  /** Strings of one width are equal when their values are. */
  lemma {:induction false} BigEndianInjective(a: bytes, b: bytes)
    requires |a| == |b| && FromBigEndian(a) == FromBigEndian(b)
    ensures a == b
  {
    if a != [] {
      BigEndianInjective(a[..|a| - 1], b[..|b| - 1]);
      assert a == a[..|a| - 1] + [a[|a| - 1]];
      assert b == b[..|b| - 1] + [b[|b| - 1]];
    }
  }
}
