/**
 * Integer and bit helpers shared by the encoder, the packer and the matrix
 * builder. PHP integers are modelled by unbounded `nat`s: every shift in the
 * core stays far below 64 bits, so no wrap-around is modelled.
 */
module Bits {

  /** One byte, as `ord`/`chr` and `unpack("C*")` produce it. */
  type Byte = x: int | 0 <= x < 256

  function Pow2(n: nat): (r: nat)
    ensures r >= 1
  {
    if n == 0 then 1 else 2 * Pow2(n - 1)
  }

  lemma {:induction false} Pow2Add(a: nat, b: nat)
    ensures Pow2(a + b) == Pow2(a) * Pow2(b)
  {
    if b > 0 {
      Pow2Add(a, b - 1);
      assert Pow2(a + b) == 2 * Pow2(a + b - 1);
    }
  }

  lemma {:induction false} Pow2Monotone(a: nat, b: nat)
    requires a <= b
    ensures Pow2(a) <= Pow2(b)
  {
    if a < b {
      Pow2Monotone(a, b - 1);
    }
  }

  /** PHP `chr`: the byte of an integer, modulo 256. */
  function Chr(x: int): Byte
  {
    x % 256
  }

  /** Uniqueness of Euclidean division, used to move divisions around. */
  lemma DivModUnique(v: int, d: int, q: int, r: int)
    requires d > 0 && 0 <= r < d && v == d * q + r
    ensures v / d == q && v % d == r
  {
    var q', r' := v / d, v % d;
    assert d * (q' - q) == r - r';
    if q' > q {
      MulAtLeast(d, q' - q);
    } else if q' < q {
      MulAtLeast(d, q - q');
    }
  }

  /** A non-negative number divided by a positive one leaves a non-negative quotient and remainder. */
  lemma DivNonNegative(v: nat, d: int)
    requires d > 0
    ensures v / d >= 0 && v % d >= 0
  {
  }

  /** Counting one further: the quotient steps up exactly when the remainder wraps. */
  lemma DivSucc(i: nat, d: nat)
    requires d > 0
    ensures (i + 1) / d == i / d + (if i % d == d - 1 then 1 else 0)
  {
    if i % d == d - 1 {
      DivModUnique(i + 1, d, i / d + 1, 0);
    } else {
      DivModUnique(i + 1, d, i / d, i % d + 1);
    }
  }

  lemma {:induction false} MulAtLeast(d: int, x: int)
    requires d > 0 && x >= 1
    ensures d * x >= d
    decreases x
  {
    if x > 1 {
      MulAtLeast(d, x - 1);
      assert d * x == d * (x - 1) + d;
    }
  }

  lemma DivPow2Succ(v: nat, n: nat)
    ensures v / Pow2(n + 1) == (v / 2) / Pow2(n)
    ensures (v % Pow2(n + 1)) / 2 == (v / 2) % Pow2(n)
    ensures (v % Pow2(n + 1)) % 2 == v % 2
  {
    var p := Pow2(n);
    var q, r2, r1 := (v / 2) / p, (v / 2) % p, v % 2;
    assert v == 2 * (v / 2) + r1;
    assert v / 2 == p * q + r2;
    assert v == (2 * p) * q + (2 * r2 + r1);
    DivModUnique(v, 2 * p, q, 2 * r2 + r1);
    DivModUnique(2 * r2 + r1, 2, r2, r1);
  }

  /** Bit `t` (0 = least significant) of a non-negative integer. */
  predicate BitOf(v: nat, t: nat)
  {
    (v / Pow2(t)) % 2 == 1
  }

  /**
   * PHP's `|` on non-negative integers, defined bit by bit so that it does
   * not presuppose that the operands occupy disjoint bits.
   */
  function Or(a: nat, b: nat): (r: nat)
    decreases a + b
  {
    if a == 0 then b
    else if b == 0 then a
    else 2 * Or(a / 2, b / 2) + (if a % 2 == 1 || b % 2 == 1 then 1 else 0)
  }

  /** Shifting `a` left by `k` and or-ing in a value of at most `k` bits is addition. */
  lemma {:induction false} OrShifted(a: nat, k: nat, b: nat)
    requires b < Pow2(k)
    ensures Or(a * Pow2(k), b) == a * Pow2(k) + b
    decreases k
  {
    if a == 0 || b == 0 {
    } else {
      assert k > 0;
      var p := Pow2(k - 1);
      assert a * Pow2(k) == 2 * (a * p);
      DivModUnique(a * Pow2(k), 2, a * p, 0);
      OrShifted(a, k - 1, b / 2);
      assert Or(a * Pow2(k), b) == 2 * Or(a * p, b / 2) + b % 2;
    }
  }

  /** PHP `<<` on a non-negative value, by doubling. */
  function Shl(v: nat, n: nat): nat
  {
    if n == 0 then v else 2 * Shl(v, n - 1)
  }

  /** PHP `>>` on a non-negative value, by halving. */
  function Shr(v: nat, n: nat): nat
  {
    if n == 0 then v else Shr(v / 2, n - 1)
  }

  lemma {:induction false} ShlMul(v: nat, n: nat)
    ensures Shl(v, n) == v * Pow2(n)
    decreases n
  {
    if n > 0 {
      ShlMul(v, n - 1);
      assert v * Pow2(n) == 2 * (v * Pow2(n - 1));
    }
  }

  lemma {:induction false} ShrDiv(v: nat, n: nat)
    ensures Shr(v, n) == v / Pow2(n)
    decreases n
  {
    if n > 0 {
      ShrDiv(v / 2, n - 1);
      DivPow2Succ(v, n - 1);
    }
  }

  /** Shifting right once more is shifting by one more place. */
  lemma {:induction false} ShrSucc(v: nat, n: nat, m: nat)
    requires m == n + 1
    ensures Shr(Shr(v, n), 1) == Shr(v, m)
    decreases n
  {
    if n > 0 {
      ShrSucc(v / 2, n - 1, n);
    }
  }

  /** Shifting `a` left by `k` and or-ing in a value of at most `k` bits is addition. */
  lemma ShlOr(a: nat, k: nat, b: nat)
    requires b < Pow2(k)
    ensures Or(Shl(a, k), b) == Shl(a, k) + b
  {
    ShlMul(a, k);
    OrShifted(a, k, b);
  }

  /** PHP `^` on non-negative integers (and, byte by byte, on strings). */
  function Xor(a: nat, b: nat): nat
    decreases a + b
  {
    if a == 0 then b
    else if b == 0 then a
    else 2 * Xor(a / 2, b / 2) + (if a % 2 != b % 2 then 1 else 0)
  }

  lemma {:induction false} XorBound(a: nat, b: nat, n: nat)
    requires a < Pow2(n) && b < Pow2(n)
    ensures Xor(a, b) < Pow2(n)
    decreases n
  {
    if a != 0 && b != 0 {
      XorBound(a / 2, b / 2, n - 1);
    }
  }

  /** The byte-wise XOR of two bytes is a byte. */
  function XorByte(a: Byte, b: Byte): (r: Byte)
  {
    XorBound(a, b, 8);
    Xor(a, b)
  }

  lemma {:induction false} XorSelf(a: nat)
    ensures Xor(a, a) == 0
    decreases a
  {
    if a != 0 {
      XorSelf(a / 2);
    }
  }

  lemma {:induction false} XorComm(a: nat, b: nat)
    ensures Xor(a, b) == Xor(b, a)
    decreases a + b
  {
    if a != 0 && b != 0 {
      XorComm(a / 2, b / 2);
    }
  }

  lemma {:induction false} XorDigits(a: nat, b: nat)
    ensures Xor(a, b) / 2 == Xor(a / 2, b / 2)
    ensures Xor(a, b) % 2 == (if a % 2 != b % 2 then 1 else 0)
  {
    if a == 0 {
    } else if b == 0 {
    } else {
      var x := Xor(a / 2, b / 2);
      var r := if a % 2 != b % 2 then 1 else 0;
      DivModUnique(2 * x + r, 2, x, r);
    }
  }

  lemma {:induction false} XorAssoc(a: nat, b: nat, c: nat)
    ensures Xor(Xor(a, b), c) == Xor(a, Xor(b, c))
    decreases a + b + c
  {
    if a == 0 || b == 0 || c == 0 {
    } else {
      XorAssoc(a / 2, b / 2, c / 2);
      XorDigits(a, b);
      XorDigits(b, c);
      XorUnfold(Xor(a, b), c);
      XorUnfold(a, Xor(b, c));
    }
  }

  /** The recursive step of `Xor` holds even when an operand is zero. */
  lemma XorUnfold(a: nat, b: nat)
    ensures Xor(a, b) == 2 * Xor(a / 2, b / 2) + (if a % 2 != b % 2 then 1 else 0)
  {
    XorDigits(a, b);
  }

  /** Bit `t` of a XOR is the XOR of the operands' bits `t`. */
  lemma {:induction false} XorBit(a: nat, b: nat, t: nat)
    ensures BitOf(Xor(a, b), t) == (BitOf(a, t) != BitOf(b, t))
    decreases t
  {
    XorDigits(a, b);
    if t == 0 {
      assert a / Pow2(0) == a && b / Pow2(0) == b && Xor(a, b) / Pow2(0) == Xor(a, b);
    } else {
      XorBit(a / 2, b / 2, t - 1);
      DivPow2Succ(a, t - 1);
      DivPow2Succ(b, t - 1);
      DivPow2Succ(Xor(a, b), t - 1);
    }
  }

  /** PHP `&` on non-negative integers (and, byte by byte, on strings). */
  function And(a: nat, b: nat): nat
    decreases a + b
  {
    if a == 0 || b == 0 then 0
    else 2 * And(a / 2, b / 2) + (if a % 2 == 1 && b % 2 == 1 then 1 else 0)
  }

  lemma {:induction false} AndBound(a: nat, b: nat)
    ensures And(a, b) <= a
    decreases a + b
  {
    if a != 0 && b != 0 {
      AndBound(a / 2, b / 2);
    }
  }

  lemma {:induction false} AndSelf(a: nat)
    ensures And(a, a) == a
    decreases a
  {
    if a != 0 {
      AndSelf(a / 2);
    }
  }

  /** And-ing with a single bit keeps that bit and clears the others. */
  lemma {:induction false} AndPow2(b: nat, i: nat)
    ensures And(b, Pow2(i)) == if BitOf(b, i) then Pow2(i) else 0
    decreases i
  {
    if b == 0 {
      assert 0 / Pow2(i) == 0;
    } else if i == 0 {
      assert b / Pow2(0) == b;
      assert And(b, 1) == 2 * And(b / 2, 0) + b % 2;
    } else {
      var p := Pow2(i - 1);
      DivModUnique(Pow2(i), 2, p, 0);
      assert And(b, Pow2(i)) == 2 * And(b / 2, p);
      AndPow2(b / 2, i - 1);
      DivPow2Succ(b, i - 1);
      assert BitOf(b, i) == BitOf(b / 2, i - 1);
    }
  }

  /** And-ing with `2^n - 1` keeps the `n` low bits: `$x & ((1 << $n) - 1)` is `$x % 2^n`. */
  lemma {:induction false} AndLowMask(v: nat, n: nat)
    ensures And(v, Pow2(n) - 1) == v % Pow2(n)
    decreases n
  {
    if n > 0 {
      var p, q := Pow2(n - 1), Pow2(n);
      assert q == 2 * p;
      DivModUnique(q - 1, 2, p - 1, 1);
      AndUnfold(v, q - 1);
      AndLowMask(v / 2, n - 1);
      DivPow2Succ(v, n - 1);
      LowBits(v % q);
    }
  }

  /** The recursive step of `And` holds even when an operand is zero. */
  lemma AndUnfold(a: nat, b: nat)
    ensures And(a, b) == 2 * And(a / 2, b / 2) + (if a % 2 == 1 && b % 2 == 1 then 1 else 0)
  {
  }

  lemma LowBits(w: nat)
    ensures w == 2 * (w / 2) + w % 2
  {
  }

  lemma {:induction false} OrBound(a: nat, b: nat, n: nat)
    requires a < Pow2(n) && b < Pow2(n)
    ensures Or(a, b) < Pow2(n)
    decreases n
  {
    if a != 0 && b != 0 {
      OrBound(a / 2, b / 2, n - 1);
    }
  }

  lemma {:induction false} OrZero(a: nat, b: nat)
    ensures Or(a, b) == 0 <==> a == 0 && b == 0
    decreases a + b
  {
    if a != 0 && b != 0 {
      OrZero(a / 2, b / 2);
    }
  }

  function AndByte(a: Byte, b: Byte): Byte
  {
    AndBound(a, b);
    And(a, b)
  }

  function OrByte(a: Byte, b: Byte): Byte
  {
    OrBound(a, b, 8);
    Or(a, b)
  }

  /** PHP `~` on one byte of a string. */
  function NotByte(a: Byte): Byte
  {
    255 - a
  }

  /** A bit string, most significant bit first. */
  type BitString = seq<bool>

  function Zeros(n: nat): (z: BitString)
    ensures |z| == n && forall i :: 0 <= i < n ==> !z[i]
  {
    seq(n, i => false)
  }

  /** The `width` low bits of `v`, most significant first. */
  function ToBits(v: nat, width: nat): (s: BitString)
    ensures |s| == width
  {
    if width == 0 then [] else ToBits(v / 2, width - 1) + [v % 2 == 1]
  }

  /** The `a + b` low bits of `v` are its `a` bits above bit `b`, then its `b` low bits. */
  lemma {:induction false} ToBitsSplit(v: nat, a: nat, b: nat)
    ensures ToBits(v, a + b) == ToBits(Shr(v, b), a) + ToBits(v % Pow2(b), b)
    decreases b
  {
    if b > 0 {
      ToBitsSplit(v / 2, a, b - 1);
      DivPow2Succ(v, b - 1);
      ToBitsSplitStep(v, a, b, Shr(v, b), v % Pow2(b), (v / 2) % Pow2(b - 1));
    }
  }

  /** One step of `ToBitsSplit`, with the quotient `h` and the remainder `w` named. */
  lemma ToBitsSplitStep(v: nat, a: nat, b: nat, h: nat, w: nat, l: nat)
    requires b > 0 && w / 2 == l && w % 2 == v % 2
    requires ToBits(v / 2, a + (b - 1)) == ToBits(h, a) + ToBits(l, b - 1)
    ensures ToBits(v, a + b) == ToBits(h, a) + ToBits(w, b)
  {
    var high, low := ToBits(h, a), ToBits(l, b - 1);
    assert ToBits(w, b) == low + [v % 2 == 1];
    calc {
      ToBits(v, a + b);
      ToBits(v / 2, a + (b - 1)) + [v % 2 == 1];
      (high + low) + [v % 2 == 1];
      high + (low + [v % 2 == 1]);
    }
  }

  /** The value of a bit string read most significant bit first. */
  function FromBits(s: BitString): (v: nat)
    ensures v < Pow2(|s|)
  {
    if s == [] then 0 else 2 * FromBits(s[..|s| - 1]) + (if s[|s| - 1] then 1 else 0)
  }

  lemma {:induction false} FromBitsToBits(v: nat, width: nat)
    ensures FromBits(ToBits(v, width)) == v % Pow2(width)
  {
    if width > 0 {
      var s := ToBits(v, width);
      assert s[..width - 1] == ToBits(v / 2, width - 1);
      FromBitsToBits(v / 2, width - 1);
      DivPow2Succ(v, width - 1);
      var p := Pow2(width);
      assert v % p == 2 * ((v % p) / 2) + (v % p) % 2;
    }
  }

  lemma {:induction false} FromBitsAppend(a: BitString, b: BitString)
    ensures FromBits(a + b) == FromBits(a) * Pow2(|b|) + FromBits(b)
    decreases |b|
  {
    if b == [] {
      assert a + b == a;
    } else {
      var b' := b[..|b| - 1];
      var ab := a + b;
      var last := if b[|b| - 1] then 1 else 0;
      assert ab[..|ab| - 1] == a + b';
      assert ab[|ab| - 1] == b[|b| - 1];
      FromBitsAppend(a, b');
      FromBitsAppendStep(FromBits(a), Pow2(|b'|), FromBits(b'), last);
      assert FromBits(b) == 2 * FromBits(b') + last;
    }
  }

  /** The arithmetic step of `FromBitsAppend`: one more low bit doubles both parts. */
  lemma FromBitsAppendStep(fa: nat, p: nat, fb: nat, last: nat)
    ensures 2 * (fa * p + fb) + last == fa * (2 * p) + (2 * fb + last)
  {
    DoubleProduct(fa, p);
  }

  lemma DoubleProduct(x: nat, y: nat)
    ensures 2 * (x * y) == x * (2 * y)
  {
  }

  lemma {:induction false} FromBitsZeros(n: nat)
    ensures FromBits(Zeros(n)) == 0
  {
    if n > 0 {
      assert Zeros(n)[..n - 1] == Zeros(n - 1);
      FromBitsZeros(n - 1);
    }
  }

  /** A bit field: one entry of the encoder's value and width arrays. */
  datatype Field = Field(value: nat, width: nat)

  /** The bits a sequence of fields stands for, each written big-endian. */
  function Stream(fields: seq<Field>): (s: BitString)
    ensures |s| == TotalWidth(fields)
  {
    if fields == [] then []
    else Stream(fields[..|fields| - 1]) + ToBits(fields[|fields| - 1].value, fields[|fields| - 1].width)
  }

  function TotalWidth(fields: seq<Field>): nat
  {
    if fields == [] then 0 else TotalWidth(fields[..|fields| - 1]) + fields[|fields| - 1].width
  }

  /** Every value fits its width, as the encoder guarantees. */
  predicate Fits(fields: seq<Field>)
  {
    forall i :: 0 <= i < |fields| ==> fields[i].value < Pow2(fields[i].width)
  }

  function Sum(s: seq<nat>): nat
  {
    if s == [] then 0 else Sum(s[..|s| - 1]) + s[|s| - 1]
  }

  lemma {:induction false} SumAppend(a: seq<nat>, b: seq<nat>)
    ensures Sum(a + b) == Sum(a) + Sum(b)
    decreases |b|
  {
    if b == [] {
      assert a + b == a;
    } else {
      assert (a + b)[..|a + b| - 1] == a + b[..|b| - 1];
      SumAppend(a, b[..|b| - 1]);
    }
  }
}
