/** Arithmetic in GF(2^8) with the polynomial x^8 + x^4 + x^3 + x + 1 (section 4.2 of FIPS 197).

    A byte stands for the polynomial whose coefficients are its bits, so addition is exclusive or.
    The functions specify the loops of usbvault-crypto/src/shamir.rs; the lemmas show that the
    multiplication loop reduces the true polynomial product and that bytes form a field. */
module Gf256 {

  // ---------- Bits ----------

  function Add(a: bv8, b: bv8): bv8 {
    a ^ b
  }

  predicate Odd(b: bv8) {
    b & 1 != 0
  }

  function Half(b: bv8): (h: bv8)
    ensures b != 0 ==> h < b
  {
    b >> 1
  }

  /** The polynomial times x, reduced. Written without a branch; `XtimeBranches` is the source's form. */
  function Xtime(a: bv8): bv8 {
    var t := a >> 7;
    (a << 1) ^ t ^ (t << 1) ^ (t << 3) ^ (t << 4)
  }

  lemma XtimeBranches(a: bv8)
    ensures Xtime(a) == if a & 0x80 != 0 then (a << 1) ^ 0x1B else a << 1
  {}

  lemma XtimeLinear(a: bv8, b: bv8)
    ensures Xtime(Add(a, b)) == Add(Xtime(a), Xtime(b))
  {}

  lemma XtimeZero()
    ensures Xtime(0) == 0
  {}

  /** A byte is its lowest bit plus x times the rest. */
  lemma SplitLowBit(b: bv8)
    ensures b == Add(if Odd(b) then 1 else 0, Xtime(Half(b)))
  {}

  lemma AddLaws(a: bv8, b: bv8, c: bv8)
    ensures Add(a, b) == Add(b, a)
    ensures Add(Add(a, b), c) == Add(a, Add(b, c))
    ensures Add(a, 0) == a && Add(0, a) == a
    ensures Add(a, a) == 0
    ensures Add(a, Add(a, b)) == b
    ensures Add(a, b) == 0 <==> a == b
  {}

  lemma AddSwap(a: bv8, b: bv8, c: bv8, d: bv8)
    ensures Add(Add(a, b), Add(c, d)) == Add(Add(a, c), Add(b, d))
  {
    hide Add;
    AddLaws(a, b, Add(c, d));
    AddLaws(b, c, d);
    AddLaws(c, b, d);
    AddLaws(a, c, Add(b, d));
  }

  lemma ByteOfInt(n: nat)
    requires n < 256
    ensures (n as bv8) as int == n
  {
    assert n == n % 256;
  }

  // ---------- Multiplication ----------

  /** Russian peasant multiplication, one bit of `b` at a time. */
  function Mul(a: bv8, b: bv8): bv8
    decreases b
  {
    if b == 0 then 0
    else if Odd(b) then Add(a, Mul(Xtime(a), Half(b)))
    else Mul(Xtime(a), Half(b))
  }

  method Gf256Mul(a0: bv8, b0: bv8) returns (result: bv8)
    ensures result == Mul(a0, b0)
  {
    var a, b := a0, b0;
    result := 0;
    AddLaws(Mul(a, b), 0, 0);
    while b > 0
      invariant Add(result, Mul(a, b)) == Mul(a0, b0)
      decreases b
    {
      ghost var r0, a1, b1 := result, a, b;
      if b & 1 != 0 {
        result := result ^ a;
      }
      var carry := a & 0x80;
      a := a << 1;
      if carry != 0 {
        a := a ^ 0x1B;
      }
      b := b >> 1;
      MulLoopStep(r0, a1, b1, result, a, b);
    }
    AddLaws(result, 0, 0);
  }

  /** One iteration of the loop keeps the pending product. */
  lemma MulLoopStep(r: bv8, a: bv8, b: bv8, r': bv8, a': bv8, b': bv8)
    requires b != 0
    requires r' == if b & 1 != 0 then r ^ a else r
    requires a' == if a & 0x80 != 0 then (a << 1) ^ 0x1B else a << 1
    requires b' == b >> 1
    ensures b' < b
    ensures Add(r', Mul(a', b')) == Add(r, Mul(a, b))
  {
    XtimeBranches(a);
    LoopStepBits(r, a, b, r', b');
    var m := Mul(a', b');
    MulStepAbstract(r, a, b, r', m);
  }

  lemma LoopStepBits(r: bv8, a: bv8, b: bv8, r': bv8, b': bv8)
    requires b != 0
    requires r' == if b & 1 != 0 then r ^ a else r
    requires b' == b >> 1
    ensures r' == if Odd(b) then Add(r, a) else r
    ensures b' == Half(b)
  {}

  lemma MulStepAbstract(r: bv8, a: bv8, b: bv8, r': bv8, m: bv8)
    requires b != 0
    requires r' == if Odd(b) then Add(r, a) else r
    requires m == Mul(Xtime(a), Half(b))
    ensures Add(r', m) == Add(r, Mul(a, b))
  {
    hide Add, Xtime, Odd, Half;
    AddLaws(r, a, m);
  }

  lemma {:induction false} MulZeroLeft(b: bv8)
    ensures Mul(0, b) == 0
    decreases b
  {
    hide Add, Xtime, Odd, Half;
    if b != 0 {
      XtimeZero();
      MulZeroLeft(Half(b));
      AddLaws(0, 0, 0);
    }
  }

  lemma {:induction false} MulXtime(a: bv8, b: bv8)
    ensures Mul(Xtime(a), b) == Xtime(Mul(a, b))
    decreases b
  {
    hide Add, Xtime, Odd, Half;
    if b == 0 {
      XtimeZero();
    } else {
      MulXtime(Xtime(a), Half(b));
      XtimeLinear(a, Mul(Xtime(a), Half(b)));
    }
  }

  lemma {:induction false} MulAddLeft(a: bv8, c: bv8, b: bv8)
    ensures Mul(Add(a, c), b) == Add(Mul(a, b), Mul(c, b))
    decreases b
  {
    hide Add, Xtime, Odd, Half;
    if b == 0 {
      AddLaws(0, 0, 0);
    } else {
      XtimeLinear(a, c);
      MulAddLeft(Xtime(a), Xtime(c), Half(b));
      AddSwap(a, c, Mul(Xtime(a), Half(b)), Mul(Xtime(c), Half(b)));
    }
  }

  /** The recursion of `Mul`, read from the low end of `b`. */
  lemma MulLowBit(a: bv8, b: bv8)
    ensures Mul(a, b) == Add(if Odd(b) then a else 0, Xtime(Mul(a, Half(b))))
  {
    hide Add, Xtime, Half;
    if b == 0 {
      HalfZero();
      XtimeZero();
      AddLaws(0, 0, 0);
    } else {
      MulXtime(a, Half(b));
      AddLaws(Xtime(Mul(a, Half(b))), 0, 0);
    }
  }

  lemma HalfZero()
    ensures Half(0) == 0
  {}

  lemma {:induction false} MulOne(b: bv8)
    ensures Mul(1, b) == b
    decreases b
  {
    hide Add, Xtime, Odd, Half;
    if b != 0 {
      MulOne(Half(b));
      MulLowBit(1, b);
      SplitLowBit(b);
    }
  }

  lemma {:induction false} MulCommutes(a: bv8, b: bv8)
    ensures Mul(a, b) == Mul(b, a)
    decreases b
  {
    hide Add, Xtime, Odd, Half;
    MulZeroLeft(a);
    if b != 0 {
      var low := if Odd(b) then 1 else 0;
      SplitLowBit(b);
      MulAddLeft(low, Xtime(Half(b)), a);
      MulOne(a);
      MulXtime(Half(b), a);
      MulCommutes(a, Half(b));
      MulLowBit(a, b);
    }
  }

  lemma MulAddRight(a: bv8, b: bv8, c: bv8)
    ensures Mul(a, Add(b, c)) == Add(Mul(a, b), Mul(a, c))
  {
    hide Add, Mul;
    MulCommutes(a, Add(b, c));
    MulCommutes(a, b);
    MulCommutes(a, c);
    MulAddLeft(b, c, a);
  }

  lemma {:induction false} MulAssociates(a: bv8, b: bv8, c: bv8)
    ensures Mul(Mul(a, b), c) == Mul(a, Mul(b, c))
    decreases c
  {
    hide Add, Xtime, Odd, Half;
    MulZeroLeft(a);
    MulCommutes(a, 0);
    if c != 0 {
      var h := Mul(b, Half(c));
      MulAssociates(a, b, Half(c));
      MulLowBit(Mul(a, b), c);
      MulLowBit(b, c);
      MulAddRight(a, if Odd(c) then b else 0, Xtime(h));
      MulCommutes(a, Xtime(h));
      MulCommutes(a, h);
      MulXtime(h, a);
    }
  }

  // ---------- The polynomial product behind the loop ----------

  function Add16(a: bv16, b: bv16): bv16 {
    a ^ b
  }

  function Shift16(a: bv16): bv16 {
    a << 1
  }

  function Widen(a: bv8): bv16 {
    a as bv16
  }

  const FIELD_POLYNOMIAL: bv16 := 0x11B

  /** The product of two polynomials over GF(2), without reduction. Two bytes have a product of
      degree at most 14 and the field polynomial times a byte has degree at most 15, so 16 bits hold both. */
  function CarrylessMul(p: bv16, q: bv8): bv16
    decreases q
  {
    if q == 0 then 0 else Add16(if Odd(q) then p else 0, Shift16(CarrylessMul(p, Half(q))))
  }

  /** The quotient of the product of `a` and `b` by the field polynomial. */
  function Quotient(a: bv8, b: bv8): (q: bv8)
    ensures b != 0 ==> q < b
    decreases b
  {
    if b == 0 then 0 else AppendBit(Quotient(a, Half(b)), Mul(a, Half(b)) & 0x80 != 0, b)
  }

  function AppendBit(q: bv8, bit: bool, bound: bv8): (r: bv8)
    requires bound != 0 && (q < Half(bound) || (q == 0 && (Half(bound) == 0 ==> !bit)))
    ensures r < bound && Half(r) == q && Odd(r) == bit
  {
    if bit then (q << 1) ^ 1 else q << 1
  }

  lemma CarrylessLowBit(p: bv16, q: bv8)
    ensures CarrylessMul(p, q) == Add16(if Odd(q) then p else 0, Shift16(CarrylessMul(p, Half(q))))
  {
    HalfZero();
  }

  /** `Mul` is the remainder of the true product by the field polynomial ... */
  lemma {:induction false} MulIsRemainder(a: bv8, b: bv8)
    ensures CarrylessMul(Widen(a), b)
         == Add16(CarrylessMul(FIELD_POLYNOMIAL, Quotient(a, b)), Widen(Mul(a, b)))
    decreases b
  {
    hide Add, Xtime, Odd, Half, Add16, Shift16, Widen, AppendBit;
    if b == 0 {
      WidenZero();
    } else {
      var h := Half(b);
      MulIsRemainder(a, h);
      MulLowBit(a, b);
      CarrylessLowBit(Widen(a), b);
      CarrylessLowBit(FIELD_POLYNOMIAL, Quotient(a, b));
      RemainderStep(a, Odd(b), Mul(a, h), CarrylessMul(FIELD_POLYNOMIAL, Quotient(a, h)));
    }
  }

  lemma WidenZero()
    ensures Widen(0) == 0 && Add16(0, 0) == 0
  {}

  lemma RemainderStep(a: bv8, odd: bool, m: bv8, product: bv16)
    ensures Add16(if odd then Widen(a) else 0, Shift16(Add16(product, Widen(m))))
         == Add16(Add16(if m & 0x80 != 0 then FIELD_POLYNOMIAL else 0, Shift16(product)),
                  Widen(Add(if odd then a else 0, Xtime(m))))
  {
    hide Add, Xtime, Add16, Shift16, Widen;
    var low, carry := if odd then a else 0, if m & 0x80 != 0 then FIELD_POLYNOMIAL else 0;
    WidenZero();
    ShiftWidened(m);
    ShiftAdd16(product, Widen(m));
    WidenAdd(low, Xtime(m));
    var l, p, x := Widen(low), Shift16(product), Widen(Xtime(m));
    Add16Laws(p, carry, x);
    Add16Laws(l, Add16(carry, p), x);
    Add16Laws(Add16(carry, p), l, x);
    Add16Laws(carry, p, x);
  }

  lemma ShiftWidened(m: bv8)
    ensures Shift16(Widen(m)) == Add16(if m & 0x80 != 0 then FIELD_POLYNOMIAL else 0, Widen(Xtime(m)))
  {}

  lemma ShiftAdd16(a: bv16, b: bv16)
    ensures Shift16(Add16(a, b)) == Add16(Shift16(a), Shift16(b))
  {}

  lemma WidenAdd(a: bv8, b: bv8)
    ensures Widen(Add(a, b)) == Add16(Widen(a), Widen(b))
  {}

  lemma Add16Laws(a: bv16, b: bv16, c: bv16)
    ensures Add16(a, b) == Add16(b, a)
    ensures Add16(Add16(a, b), c) == Add16(a, Add16(b, c))
  {}

  /** ... and only one byte can be that remainder. */
  lemma RemainderIsUnique(q: bv8, r: bv8, q': bv8, r': bv8)
    requires Add16(CarrylessMul(FIELD_POLYNOMIAL, q), Widen(r))
          == Add16(CarrylessMul(FIELD_POLYNOMIAL, q'), Widen(r'))
    ensures q == q' && r == r'
  {
    hide CarrylessMul, Odd, Half;
    MultipleShifts(q);
    MultipleShifts(q');
    MultiplesDiffer(q, r, q', r');
  }

  function ShiftedSum(q: bv16): bv16 {
    (q << 8) ^ (q << 4) ^ (q << 3) ^ (q << 1) ^ q
  }

  lemma {:induction false} MultipleShifts(q: bv8)
    ensures CarrylessMul(FIELD_POLYNOMIAL, q) == ShiftedSum(Widen(q))
    decreases q
  {
    hide Add16, Shift16, Widen, Odd, Half, ShiftedSum;
    if q == 0 {
      ShiftedZero();
    } else {
      MultipleShifts(Half(q));
      ShiftedStep(q);
    }
  }

  lemma ShiftedZero()
    ensures ShiftedSum(Widen(0)) == 0
  {}

  lemma ShiftedStep(q: bv8)
    ensures ShiftedSum(Widen(q))
         == Add16(if Odd(q) then FIELD_POLYNOMIAL else 0, Shift16(ShiftedSum(Widen(Half(q)))))
  {}

  lemma MultiplesDiffer(q: bv8, r: bv8, q': bv8, r': bv8)
    requires Add16(ShiftedSum(Widen(q)), Widen(r)) == Add16(ShiftedSum(Widen(q')), Widen(r'))
    ensures q == q' && r == r'
  {}

  // ---------- Powers and the inverse ----------

  function Pow(a: bv8, n: nat): bv8 {
    if n == 0 then 1 else Mul(a, Pow(a, n - 1))
  }

  lemma {:induction false} PowAdd(a: bv8, m: nat, n: nat)
    ensures Pow(a, m + n) == Mul(Pow(a, m), Pow(a, n))
  {
    hide Mul;
    if m == 0 {
      MulOne(Pow(a, n));
    } else {
      PowAdd(a, m - 1, n);
      MulAssociates(a, Pow(a, m - 1), Pow(a, n));
    }
  }

  lemma PowOne(a: bv8)
    ensures Pow(a, 1) == a
  {
    hide Mul;
    assert Pow(a, 1) == Mul(a, Pow(a, 0));
    MulCommutes(a, 1);
    MulOne(a);
  }

  /** The square of a byte, which is linear in its bits. */
  function Square(a: bv8): bv8 {
    var even := (a & 1) ^ ((a & 2) << 1) ^ ((a & 4) << 2) ^ ((a & 8) << 3);
    var t4, t5, t6, t7 := (a >> 4) & 1, (a >> 5) & 1, (a >> 6) & 1, a >> 7;
    even ^ (t4 * 0x1B) ^ (t5 * 0x6C) ^ (t6 * 0xAB) ^ (t7 * 0x9A)
  }

  lemma SquareStep(a: bv8)
    ensures Square(a) == Add(if Odd(a) then 1 else 0, Xtime(Xtime(Square(Half(a)))))
  {}

  lemma SquareFacts(a: bv8)
    ensures Square(0) == 0 && Square(1) == 1
    ensures Square(a) == a ==> a == 0 || a == 1
    ensures Square(Square(Square(Square(Square(Square(Square(Square(a)))))))) == a
  {}

  /** Squaring is additive, so a square follows from the square of the higher bits. */
  lemma {:induction false} MulSelf(a: bv8)
    ensures Mul(a, a) == Square(a)
    decreases a
  {
    hide Add, Xtime, Odd, Half, Square;
    SquareFacts(a);
    if a != 0 {
      var low, x := if Odd(a) then 1 else 0, Xtime(Half(a));
      SplitLowBit(a);
      SquareStep(a);
      MulSelf(Half(a));
      MulXtime(Half(a), x);
      MulCommutes(Half(a), x);
      MulXtime(Half(a), Half(a));
      assert Mul(x, x) == Xtime(Xtime(Square(Half(a))));
      SquareOfSum(low, x);
      MulOne(1);
    }
  }

  lemma SquareOfSum(a: bv8, b: bv8)
    ensures Mul(Add(a, b), Add(a, b)) == Add(Mul(a, a), Mul(b, b))
  {
    hide Add, Mul;
    var s := Add(a, b);
    MulAddLeft(a, b, s);
    MulAddRight(a, a, b);
    MulAddRight(b, a, b);
    MulCommutes(a, b);
    AddSwap(Mul(a, a), Mul(a, b), Mul(a, b), Mul(b, b));
    AddLaws(Mul(b, b), Mul(a, b), Mul(a, a));
    AddMiddleCancels(Mul(a, a), Mul(a, b), Mul(b, b));
  }

  lemma AddMiddleCancels(a: bv8, b: bv8, c: bv8)
    ensures Add(Add(a, b), Add(b, c)) == Add(a, c)
  {
    hide Add;
    AddLaws(a, b, Add(b, c));
    AddLaws(b, c, 0);
  }

  lemma PowDouble(a: bv8, n: nat)
    ensures Pow(a, 2 * n) == Square(Pow(a, n))
  {
    hide Mul, Square;
    PowAdd(a, n, n);
    MulSelf(Pow(a, n));
  }

  /** Every byte is its own 256th power. */
  lemma Pow256(a: bv8)
    ensures Pow(a, 256) == a
  {
    hide Pow, Square;
    PowOne(a);
    PowDouble(a, 1);
    PowDouble(a, 2);
    PowDouble(a, 4);
    PowDouble(a, 8);
    PowDouble(a, 16);
    PowDouble(a, 32);
    PowDouble(a, 64);
    PowDouble(a, 128);
    SquareFacts(a);
  }

  /** a^255 equals its own square, and only 0 and 1 do. */
  lemma Pow255(a: bv8)
    requires a != 0
    ensures Pow(a, 255) == 1
  {
    hide Mul, Pow, Square;
    var e := Pow(a, 255);
    Pow256(a);
    PowOne(a);
    PowAdd(a, 254, 256);
    PowAdd(a, 254, 1);
    PowAdd(a, 255, 255);
    MulSelf(e);
    SquareFacts(e);
    PowAdd(a, 255, 1);
    MulZeroLeft(a);
  }

  function Inv(a: bv8): bv8 {
    Pow(a, 254)
  }

  lemma InverseCorrect(a: bv8)
    ensures a != 0 ==> Mul(a, Inv(a)) == 1
    ensures Inv(0) == 0
  {
    hide Mul;
    if a != 0 {
      Pow255(a);
    }
    MulZeroLeft(Pow(0, 253));
  }

  /** The exponent reached after `rounds` rounds of squaring and multiplying: 1, 3, 7, ..., 127. */
  function ChainExponent(rounds: nat): nat {
    if rounds == 0 then 1 else 2 * ChainExponent(rounds - 1) + 1
  }

  lemma ChainRound(a: bv8, k: nat)
    ensures Mul(Pow(a, k), Pow(a, k)) == Pow(a, 2 * k)
    ensures Mul(Pow(a, 2 * k), a) == Pow(a, 2 * k + 1)
  {
    hide Mul, Pow;
    PowAdd(a, k, k);
    PowAdd(a, 2 * k, 1);
    PowOne(a);
  }

  method Gf256Inv(a: bv8) returns (result: bv8)
    ensures result == Inv(a)
    ensures if a == 0 then result == 0 else Mul(a, result) == 1
  {
    InverseCorrect(a);
    hide Mul, Pow;
    if a == 0 {
      return 0;
    }
    result := a;
    PowOne(a);
    for i := 0 to 6
      invariant result == Pow(a, ChainExponent(i))
    {
      ChainRound(a, ChainExponent(i));
      result := Gf256Mul(result, result);
      result := Gf256Mul(result, a);
    }
    assert ChainExponent(2) == 7 && ChainExponent(4) == 31 && ChainExponent(6) == 127;
    ChainRound(a, 127);
    result := Gf256Mul(result, result);
  }

  lemma NoZeroDivisors(a: bv8, b: bv8)
    ensures Mul(a, b) == 0 <==> a == 0 || b == 0
  {
    hide Mul, Inv;
    MulZeroLeft(b);
    MulZeroLeft(a);
    MulCommutes(a, 0);
    if a != 0 && Mul(a, b) == 0 {
      InverseCorrect(a);
      MulCommutes(a, Inv(a));
      MulAssociates(Inv(a), a, b);
      MulOne(b);
      MulZeroLeft(Inv(a));
      MulCommutes(Inv(a), 0);
    }
  }

  /** Bytes under exclusive or and the multiplication loop are a field. */
  lemma BytesAreAField(a: bv8, b: bv8, c: bv8)
    ensures Add(Add(a, b), c) == Add(a, Add(b, c)) && Add(a, b) == Add(b, a)
    ensures Add(a, 0) == a && Add(a, a) == 0
    ensures Mul(Mul(a, b), c) == Mul(a, Mul(b, c)) && Mul(a, b) == Mul(b, a)
    ensures Mul(a, Add(b, c)) == Add(Mul(a, b), Mul(a, c))
    ensures Mul(a, 1) == a && Mul(a, 0) == 0
    ensures a != 0 ==> Mul(a, Inv(a)) == 1
  {
    hide Add, Mul, Inv;
    AddLaws(a, b, c);
    MulAssociates(a, b, c);
    MulCommutes(a, b);
    MulAddRight(a, b, c);
    MulCommutes(a, 1);
    MulOne(a);
    MulZeroLeft(a);
    MulCommutes(a, 0);
    InverseCorrect(a);
  }
}
