/** 64-bit division on a machine that divides 64 bits by 32 bits and traps when the quotient does not fit. */
module Arith64 {
  import opened Powers

  const B: nat := 0x1_0000_0000
  const B64: nat := 0x1_0000_0000_0000_0000

  lemma Pow2Values()
    ensures Pow2(1) == 2 && Pow2(2) == 4 && Pow2(4) == 16 && Pow2(8) == 256
    ensures Pow2(16) == 0x1_0000 && Pow2(31) == 0x8000_0000 && Pow2(32) == B && Pow2(33) == 2 * B
  {
    Pow2Split(2, 2);
    Pow2Split(4, 4);
    Pow2Split(8, 8);
    Pow2Split(16, 15);
    Pow2Split(8, 7);
    Pow2Split(4, 3);
    assert Pow2(3) == 8;
  }

  // ----- division facts

  /** q is the quotient of x by d, rounded down. */
  ghost predicate IsQuot(x: nat, d: nat, q: nat) {
    0 < d && q * d <= x < q * d + d
  }

  lemma QuotIs(x: nat, d: nat)
    requires d > 0
    ensures IsQuot(x, d, x / d)
  {
  }

  lemma QuotUnique(x: nat, d: nat, q: nat, q': nat)
    requires IsQuot(x, d, q) && IsQuot(x, d, q')
    ensures q == q'
  {
    if q < q' {
      MulMono(q + 1, q', d, d);
      assert false;
    } else if q > q' {
      MulMono(q' + 1, q, d, d);
      assert false;
    }
  }

  /** Two floors in a row are one. */
  lemma QuotQuot(x: nat, a: nat, b: nat, y: nat, q: nat)
    requires IsQuot(x, a, y) && IsQuot(y, b, q)
    ensures IsQuot(x, a * b, q)
  {
    MulMono(q * b, y, a, a);
    MulMono(y + 1, q * b + b, a, a);
    assert q * b * a == q * (a * b) && (q * b + b) * a == q * (a * b) + a * b;
    MulMono(1, a, 1, b);
  }

  // ----- the code

  /** The DIVL instruction; the last precondition is that it does not trap. */
  method Divl(n: nat, d: nat) returns (q: nat)
    requires n < B64 && 0 < d < B && n < B * d
    ensures IsQuot(n, d, q)
  {
    QuotIs(n, d);
    q := n / d;
  }

  /** x << k in 32 bits, for p == 2^k: bits above the word are lost. */
  function Shl32(x: nat, p: nat): (r: nat)
    ensures x * p < B ==> r == x * p
  {
    x * p % B
  }

  /** Number of leading zero bits: x stands between 2^(31-n) and 2^(32-n). */
  ghost predicate IsNlz(x: nat, n: nat) {
    n < 32 && Pow2(31 - n) <= x < Pow2(32 - n)
  }

  lemma Scaled(x: nat, lo: nat, hi: nat, p: nat)
    requires p > 0 && lo * p <= x * p < hi * p
    ensures lo <= x < hi
  {
    if x < lo {
      MulMono(x + 1, lo, p, p);
      assert false;
    } else if x >= hi {
      MulMono(hi, x, p, p);
      assert false;
    }
  }

  /** A shift that loses no bit takes k leading zeros away. */
  lemma NlzShift(x: nat, k: nat, p: nat, n: nat)
    requires n + k < 32 && p == Pow2(k) && IsNlz(x * p, n)
    ensures IsNlz(x, n + k)
  {
    Pow2Split(31 - n - k, k);
    Pow2Split(32 - n - k, k);
    Scaled(x, Pow2(31 - n - k), Pow2(32 - n - k), Pow2(k));
  }

  /** The shifts nlz makes. */
  predicate IsShift(k: nat, p: nat) {
    (k == 16 && p == 0x1_0000) || (k == 8 && p == 0x100) || (k == 4 && p == 16) || (k == 2 && p == 4)
  }

  /** The step of nlz that tests for k clear top bits, undone: x' is x, shifted if it was below 2^(32-k). */
  lemma NlzStepBack(x: nat, x': nat, k: nat, p: nat, n: nat)
    requires IsShift(k, p) && n + k < 32 && IsNlz(x', n) && x' == (if x * p < B then x * p else x)
    ensures IsNlz(x, if x * p < B then n + k else n)
  {
    Pow2Values();
    if x * p < B { NlzShift(x, k, p, n); }
  }

  lemma NlzTop(x: nat)
    requires 0x4000_0000 <= x < B
    ensures IsNlz(x, if x <= 0x7FFF_FFFF then 1 else 0)
  {
    Pow2Values();
    assert Pow2(31) == 2 * Pow2(30);
  }

  /** One test of nlz: if the top k bits are clear, count them and shift them out. */
  method NlzStep(x: nat, n: nat, limit: nat, k: nat, p: nat) returns (x': nat, n': nat)
    requires IsShift(k, p) && (limit + 1) * p == B && x < B
    ensures x' == if x * p < B then x * p else x
    ensures n' == if x * p < B then n + k else n
  {
    x', n' := x, n;
    if x <= limit {
      n' := n + k;
      x' := Shl32(x, p);
    }
  }

  /** The last three tests of nlz, once the leading one is in the top byte. */
  method NlzByte(x: nat) returns (n: nat)
    requires 0x100_0000 <= x < B
    ensures IsNlz(x, n) && n < 8
  {
    var x1, n1 := NlzStep(x, 0, 0x0FFF_FFFF, 4, 16);
    var x2, n2 := NlzStep(x1, n1, 0x3FFF_FFFF, 2, 4);
    n := n2;
    if x2 <= 0x7FFF_FFFF {
      n := n + 1;
    }
    NlzTop(x2);
    NlzStepBack(x1, x2, 2, 4, n - n2);
    NlzStepBack(x, x1, 4, 16, n - n1);
  }

  /** nlz: a search by halving, shifting the leading one into the top half each time. */
  method Nlz(x: nat) returns (n: nat)
    requires 0 < x < B
    ensures IsNlz(x, n)
  {
    var x1, n1 := NlzStep(x, 0, 0x0000_FFFF, 16, 0x1_0000);
    var x2, n2 := NlzStep(x1, n1, 0x00FF_FFFF, 8, 0x100);
    var low := NlzByte(x2);
    n := n2 + low;
    NlzStepBack(x1, x2, 8, 0x100, low);
    NlzStepBack(x, x1, 16, 0x1_0000, n - n1);
  }

  // ----- the wide case

  /** A divisor above 2^31 p leaves a quotient below r == 2^33 / p. */
  lemma QuotientSmall(n: nat, d: nat, p: nat, r: nat, q: nat)
    requires q * d <= n < B64 && 0x8000_0000 * p <= d && p * r == 2 * B
    ensures q < r
  {
    assert r * (0x8000_0000 * p) == 0x8000_0000 * (p * r);
    if q >= r {
      MulMono(r, q, 0x8000_0000 * p, d);
      assert false;
    }
  }

  /** The bits dropped from the divisor, q + 1 times over, fit into what is left of it. */
  lemma DroppedFits(q: nat, dropped: nat, p: nat, r: nat, e: nat)
    requires q < r && dropped < p && p * r == 2 * B && (p == 2 || p >= 4) && 0x8000_0000 * p <= e
    ensures (q + 1) * dropped <= e
  {
    MulMono(q + 1, r, dropped, p - 1);
    assert r * (p - 1) == 2 * B - r;
  }

  lemma NearQuotient(n: nat, d: nat, e: nat, q: nat, q': nat)
    requires IsQuot(n, d, q) && IsQuot(n, e, q') && e <= d && (q + 1) * (d - e) <= e
    ensures q <= q' <= q + 1
  {
    MulMono(q, q, e, d);
    assert (q + 1) * d == (q + 1) * (d - e) + (q + 1) * e;
    assert n < (q + 2) * e;
    if q' < q {
      MulMono(q' + 1, q, e, e);
      assert false;
    } else if q' > q + 1 {
      MulMono(q + 2, q', e, e);
      assert false;
    }
  }

  /** Keeping only the top bits v of the divisor, in units of p, can only raise the quotient, and by at most
      one. */
  lemma EstimateClose(n: nat, d: nat, p: nat, r: nat, v: nat, q: nat, q': nat)
    requires n < B64 && p * r == 2 * B && (p == 2 || p >= 4)
    requires IsQuot(d, p, v) && 0x8000_0000 <= v && IsQuot(n, d, q) && IsQuot(n, v * p, q')
    ensures q' == q || q' == q + 1
  {
    MulMono(0x8000_0000, v, p, p);
    QuotientSmall(n, d, p, r, q);
    DroppedFits(q, d - v * p, p, r, v * p);
    NearQuotient(n, d, v * p, q, q');
  }

  lemma Pow2Complement(s: nat)
    requires s < 32
    ensures Pow2(s) * Pow2(32 - s) == B && Pow2(32 - s) == 2 * Pow2(31 - s)
  {
    Pow2Split(s, 32 - s);
    Pow2Values();
  }

  lemma ScaledBelow(d: nat, d1: nat, p: nat, m: nat)
    requires IsQuot(d, B, d1) && d1 < p && m * p == B
    ensures d < p * B && d * m < B64
  {
    MulMono(d1 + 1, p, B, B);
    MulMono(d + 1, p * B, m, m);
    assert p * B * m == B * (m * p);
    assert m > 0;
  }

  /** The divisor with s leading zeros, shifted left by s: its top 32 bits start with a one and are those of d
      in units of 2^(32-s). */
  lemma Normalized(d: nat, d1: nat, s: nat, v: nat)
    requires IsQuot(d, B, d1) && IsNlz(d1, s) && IsQuot(d, Pow2(32 - s), v)
    ensures d * Pow2(s) < B64 && IsQuot(d * Pow2(s), B, v)
    ensures 0x8000_0000 <= v < B
  {
    Pow2Complement(s);
    var m, p := Pow2(s), Pow2(32 - s);
    ScaledBelow(d, d1, p, m);
    QuotScale(d, m, p, v);
    HighBits(d, d1, p, v);
  }

  lemma QuotScale(d: nat, m: nat, p: nat, v: nat)
    requires IsQuot(d, p, v) && m * p == B
    ensures IsQuot(d * m, B, v)
  {
    MulMono(v * p, d, m, m);
    MulMono(d + 1, v * p + p, m, m);
    assert v * p * m == v * B && (v * p + p) * m == v * B + B && (d + 1) * m == d * m + m;
    MulMono(1, m, 1, 1);
  }

  lemma HighBits(d: nat, d1: nat, p: nat, v: nat)
    requires IsQuot(d, p, v) && IsQuot(d, B, d1) && d < p * B && p <= 2 * d1
    ensures 0x8000_0000 <= v < B
  {
    MulMono(p, 2 * d1, B, B);
    if v < 0x8000_0000 {
      MulMono(v + 1, 0x8000_0000, p, p);
      assert false;
    } else if v >= B {
      MulMono(B, v, p, p);
      assert false;
    }
  }

  lemma EstimateQuot(n: nat, v: nat, half: nat, h: nat, e: nat, q': nat)
    requires IsQuot(n, 2, h) && IsQuot(h, v, e) && IsQuot(e, half, q')
    ensures IsQuot(n, v * (2 * half), q')
  {
    QuotQuot(n, 2, v, h, e);
    QuotQuot(n, 2 * v, half, e, q');
    assert 2 * v * half == v * (2 * half);
  }

  /** The estimate of the wide case, q' == (n / 2) / v / 2^(31-s), is the quotient or one more. */
  lemma WideEstimate(n: nat, d: nat, s: nat, v: nat, h: nat, e: nat, q': nat, q: nat)
    requires n < B64 && s < 32 && IsQuot(d, Pow2(32 - s), v) && 0x8000_0000 <= v
    requires IsQuot(n, 2, h) && IsQuot(h, v, e) && IsQuot(e, Pow2(31 - s), q') && IsQuot(n, d, q)
    ensures q' == q || q' == q + 1
  {
    Pow2Complement(s);
    EstimateQuot(n, v, Pow2(31 - s), h, e, q');
    var m := Pow2(s);
    assert Pow2(32 - s) * (2 * m) == 2 * B;
    EstimateClose(n, d, Pow2(32 - s), 2 * m, v, q, q');
  }

  // ----- udiv64 and its relatives

  /** x >> k, for p == 2^k. */
  method Shr(x: nat, p: nat) returns (q: nat)
    requires p > 0
    ensures IsQuot(x, p, q)
  {
    QuotIs(x, p);
    q := x / p;
  }

  /** x << k in 64 bits, for p == 2^k. */
  method Shl64(x: nat, p: nat) returns (r: nat)
    ensures x * p < B64 ==> r == x * p
  {
    r := x * p % B64;
  }

  /** n - (q - 1) * d in 64 bits. */
  method Residue(n: nat, q: nat, d: nat) returns (r: nat)
    requires n < B64
    ensures q >= 1 && (q - 1) * d <= n ==> r == n - (q - 1) * d
  {
    r := (n - (q - 1) * d) % B64;
  }

  lemma DivlFits(x: nat, v: nat)
    requires x < 0x8000_0000_0000_0000 && 0x8000_0000 <= v
    ensures x < B * v
  {
    MulMono(B, B, 0x8000_0000, v);
  }

  lemma Correction(n: nat, d: nat, e: nat, q: nat)
    requires d <= n && IsQuot(n, d, q) && (e == q || e == q + 1)
    ensures e >= 1 && (e - 1) * d <= n && (n - (e - 1) * d < d <==> e == q + 1)
  {
    assert q == 0 ==> q * d == 0;
    assert (e - 1) * d == e * d - d;
    assert (q + 1) * d == q * d + d;
  }

  /** The estimate from the top 32 bits of the divisor, corrected downwards if one too large. */
  method WideDivide(n: nat, d: nat) returns (q: nat)
    requires B <= d <= n < B64
    ensures IsQuot(n, d, q)
  {
    var d1 := Shr(d, B);
    WordSized(d, d1);
    var s := Nlz(d1);
    ghost var v0, exact := d / Pow2(32 - s), n / d;
    QuotIs(d, Pow2(32 - s));
    QuotIs(n, d);
    Normalized(d, d1, s, v0);
    var shifted := Shl64(d, Pow2(s));
    var v := Shr(shifted, B);
    QuotUnique(shifted, B, v, v0);
    var half := Shr(n, 2);
    DivlFits(half, v);
    var estimate := Divl(half, v);
    var e := Shr(estimate, Pow2(31 - s));
    WideEstimate(n, d, s, v, half, estimate, e, exact);
    Correction(n, d, e, exact);
    var rest := Residue(n, e, d);
    q := if rest < d then e - 1 else e;
  }

  lemma WordSized(d: nat, d1: nat)
    requires B <= d < B64 && IsQuot(d, B, d1)
    ensures 0 < d1 < B
  {
  }

  lemma NarrowFits(r: nat, n0: nat, d: nat)
    requires r < d < B && n0 < B
    ensures B * r + n0 < B * d
  {
    MulMono(r + 1, d, B, B);
  }

  lemma NarrowExact(n1: nat, n0: nat, d: nat, k: nat, r: nat, low: nat)
    requires n1 == k * d + r && IsQuot(B * r + n0, d, low)
    ensures IsQuot(n1 * B + n0, d, low + B * k)
  {
    assert (low + B * k) * d == low * d + B * (k * d);
  }

  /** Schoolbook division by one 32-bit digit. */
  method NarrowDivide(n: nat, d: nat) returns (q: nat)
    requires n < B64 && 0 < d < B
    ensures IsQuot(n, d, q)
  {
    var n1 := Shr(n, B);
    var n0 := n - n1 * B;
    var k := Shr(n1, d);
    var r := n1 - k * d;
    NarrowFits(r, n0, d);
    MulMono(B, B, d, B);
    var low := Divl(B * r + n0, d);
    NarrowExact(n1, n0, d, k, r, low);
    q := low + B * k;
  }

  lemma QuotDiv(x: nat, d: nat, q: nat)
    requires IsQuot(x, d, q)
    ensures q == x / d
  {
    QuotIs(x, d);
    QuotUnique(x, d, q, x / d);
  }

  method DivideCases(n: nat, d: nat) returns (q: nat)
    requires n < B64 && 0 < d < B64
    ensures IsQuot(n, d, q)
  {
    var d1 := Shr(d, B);
    if d1 == 0 {
      q := NarrowDivide(n, d);
    } else if n < d {
      q := 0;
    } else {
      q := WideDivide(n, d);
    }
  }

  /** udiv64.  Both uses of DIVL are within its range, so it never traps. */
  method Udiv64(n: nat, d: nat) returns (q: nat)
    requires n < B64 && 0 < d < B64
    ensures q == n / d
  {
    q := DivideCases(n, d);
    QuotDiv(n, d, q);
  }

  /** umod64 returns a 32-bit type, so the remainder is cut to its low word. */
  method Umod64(n: nat, d: nat) returns (r: nat)
    requires n < B64 && 0 < d < B64
    ensures r == n % d % B
  {
    var q := Udiv64(n, d);
    r := (n - d * q) % B64 % B;
    assert n - d * q == n % d;
    SmallMod(n % d, B64);
  }

  lemma SmallMod(x: nat, m: nat)
    requires x < m
    ensures x % m == x
  {
  }

  /** umod64 gives the remainder of every dividend exactly when the divisor is at most 2^32. */
  lemma Umod64ExactIff(d: nat)
    requires 0 < d < B64
    ensures (forall n: nat :: n < B64 ==> n % d % B == n % d) <==> d <= B
  {
    if d <= B {
      forall n: nat | n < B64 ensures n % d % B == n % d { SmallMod(n % d, B); }
    } else {
      SmallMod(B, d);
      assert B % d % B != B % d;
    }
  }

  // ----- signed division

  const H64: int := 0x8000_0000_0000_0000
  const H: int := 0x8000_0000

  function Abs(x: int): nat {
    if x < 0 then -x else x
  }

  /** Two's complement: the value of the low 64, or 32, bits of x as a signed number. */
  function Wrap64(x: int): (r: int)
    ensures Int64(r) && (Int64(x) ==> r == x)
  {
    if x % B64 < H64 then x % B64 else x % B64 - B64
  }

  function Wrap32(x: int): (r: int)
    ensures -H <= r < H && (-H <= x < H ==> r == x)
  {
    if x % B < H then x % B else x % B - B
  }

  predicate Int64(x: int) {
    -H64 <= x < H64
  }

  /** Division that truncates toward zero, as section 6.5.5 of ISO C99 defines it. */
  function TruncDiv(n: int, d: int): int
    requires d != 0
  {
    if (n < 0) == (d < 0) then Abs(n) / Abs(d) else -(Abs(n) / Abs(d))
  }

  function TruncRem(n: int, d: int): int
    requires d != 0
  {
    n - d * TruncDiv(n, d)
  }

  lemma NegMul(d: int, q: int)
    ensures d * -q == -(d * q) && -d * q == -(d * q)
  {
  }

  /** The remainder that goes with truncation takes the dividend's sign. */
  lemma TruncRemSign(n: int, d: int)
    requires d != 0
    ensures TruncRem(n, d) == if n < 0 then -(Abs(n) % Abs(d)) else Abs(n) % Abs(d)
  {
    SignedRemainder(n, d, Abs(n) / Abs(d), Abs(n) % Abs(d));
  }

  lemma SignedRemainder(n: int, d: int, q: int, m: int)
    requires Abs(n) == Abs(d) * q + m
    ensures n - d * (if (n < 0) == (d < 0) then q else -q) == if n < 0 then -m else m
  {
    NegMul(d, q);
  }

  /** A magnitude quotient with its sign put back; only the minimum by -1 leaves the range. */
  lemma SignBack(n: int, d: int, qAbs: nat)
    requires Int64(n) && Int64(d) && d != 0 && qAbs == Abs(n) / Abs(d)
    ensures (if (n < 0) == (d < 0) then Wrap64(qAbs) else Wrap64(-Wrap64(qAbs))) == Wrap64(TruncDiv(n, d))
    ensures Wrap64(TruncDiv(n, d)) == TruncDiv(n, d) <==> !(n == -H64 && d == -1)
  {
    QuotIs(Abs(n), Abs(d));
    QuotientRange(Abs(n), Abs(d), qAbs);
  }

  lemma QuotientRange(n: nat, d: nat, q: nat)
    requires IsQuot(n, d, q) && n <= H64
    ensures q <= H64 && (q == H64 <==> n == H64 && d == 1)
  {
    MulMono(q, q, 1, d);
    if q == H64 && d > 1 {
      MulMono(q, q, 2, d);
      assert false;
    }
  }

  /** x >= 0 ? (uint64_t) x : -(uint64_t) x. */
  method Magnitude(x: int) returns (r: nat)
    requires Int64(x)
    ensures r == Abs(x)
  {
    r := if x >= 0 then x else -(x % B64) % B64;
  }

  /** sdiv64: divides magnitudes and puts the sign back; only the minimum by -1 wraps around. */
  method Sdiv64(n: int, d: int) returns (q: int)
    requires Int64(n) && Int64(d) && d != 0
    ensures q == Wrap64(TruncDiv(n, d))
    ensures q == TruncDiv(n, d) <==> !(n == -H64 && d == -1)
  {
    var nAbs := Magnitude(n);
    var dAbs := Magnitude(d);
    var qAbs := Udiv64(nAbs, dAbs);
    SignBack(n, d, qAbs);
    q := if (n < 0) == (d < 0) then Wrap64(qAbs) else Wrap64(-Wrap64(qAbs));
  }

  /** The 64-bit remainder is exact in every case, the wrapped quotient included. */
  lemma RemainderFits(n: int, d: int, q: int)
    requires Int64(n) && Int64(d) && d != 0 && q == Wrap64(TruncDiv(n, d))
    requires q == TruncDiv(n, d) <==> !(n == -H64 && d == -1)
    ensures Wrap64(n - d * q) == TruncRem(n, d)
  {
    TruncRemSign(n, d);
  }

  /** smod64 returns a 32-bit type too. */
  method Smod64(n: int, d: int) returns (r: int)
    requires Int64(n) && Int64(d) && d != 0
    ensures r == Wrap32(TruncRem(n, d))
  {
    var q := Sdiv64(n, d);
    RemainderFits(n, d, q);
    r := Wrap32(Wrap64(n - d * q));
  }

  lemma Smod64Exact(n: int, d: int)
    requires d != 0 && Abs(d) <= H
    ensures Wrap32(TruncRem(n, d)) == TruncRem(n, d)
  {
    TruncRemSign(n, d);
  }

  /** smod64 gives the remainder of every dividend exactly when the divisor's magnitude is at most 2^31. */
  lemma Smod64ExactIff(d: int)
    requires Int64(d) && d != 0
    ensures (forall n: int :: Int64(n) ==> Wrap32(TruncRem(n, d)) == TruncRem(n, d)) <==> Abs(d) <= H
  {
    if Abs(d) <= H {
      forall n: int | Int64(n) ensures Wrap32(TruncRem(n, d)) == TruncRem(n, d) { Smod64Exact(n, d); }
    } else {
      assert Int64(H);
      TruncRemSign(H, d);
      SmallMod(H, Abs(d));
      assert Wrap32(TruncRem(H, d)) != TruncRem(H, d);
    }
  }
}
