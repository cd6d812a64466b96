/** Machine words as naturals, with bitwise operations defined bit by bit. */
module Bits {

  import opened Powers

  /** Bit k of x. */
  predicate Bit(x: nat, k: nat) {
    if k == 0 then x % 2 == 1 else Bit(x / 2, k - 1)
  }

  function Digit(b: bool): nat {
    if b then 1 else 0
  }

  function And(x: nat, y: nat): nat {
    if x == 0 || y == 0 then 0 else 2 * And(x / 2, y / 2) + Digit(x % 2 == 1 && y % 2 == 1)
  }

  function Or(x: nat, y: nat): nat {
    if x == 0 then y else if y == 0 then x else 2 * Or(x / 2, y / 2) + Digit(x % 2 == 1 || y % 2 == 1)
  }

  /** The complement of a word of n bits. */
  function Not(n: nat, x: nat): nat
    requires x < Pow2(n)
  {
    Pow2(n) - 1 - x
  }

  lemma {:induction false} ZeroBit(k: nat)
    ensures !Bit(0, k)
  {
    if k > 0 { ZeroBit(k - 1); }
  }

  lemma {:induction false} AndBit(x: nat, y: nat, k: nat)
    ensures Bit(And(x, y), k) <==> Bit(x, k) && Bit(y, k)
  {
    ZeroBit(k);
    if x != 0 && y != 0 && k > 0 {
      AndBit(x / 2, y / 2, k - 1);
      assert And(x, y) / 2 == And(x / 2, y / 2);
    }
  }

  lemma {:induction false} OrBit(x: nat, y: nat, k: nat)
    ensures Bit(Or(x, y), k) <==> Bit(x, k) || Bit(y, k)
  {
    ZeroBit(k);
    if x != 0 && y != 0 && k > 0 {
      OrBit(x / 2, y / 2, k - 1);
      assert Or(x, y) / 2 == Or(x / 2, y / 2);
    }
  }

  lemma {:induction false} NotBit(n: nat, x: nat, k: nat)
    requires x < Pow2(n) && k < n
    ensures Bit(Not(n, x), k) <==> !Bit(x, k)
  {
    if k > 0 {
      NotBit(n - 1, x / 2, k - 1);
      assert Not(n, x) / 2 == Not(n - 1, x / 2);
    }
  }

  lemma {:induction false} PowBit(k: nat, j: nat)
    ensures Bit(Pow2(k), j) <==> j == k
  {
    if k == 0 {
      if j > 0 { ZeroBit(j - 1); }
    } else if j > 0 {
      PowBit(k - 1, j - 1);
    }
  }

  /** A mask of one bit tests that bit. */
  lemma {:induction false} MaskTests(x: nat, k: nat)
    ensures And(x, Pow2(k)) != 0 <==> Bit(x, k)
  {
    if x == 0 {
      ZeroBit(k);
    } else if k > 0 {
      MaskTests(x / 2, k - 1);
    } else {
      assert And(x / 2, 0) == 0;
    }
  }

  lemma {:induction false} AndBound(x: nat, y: nat)
    ensures And(x, y) <= x && And(x, y) <= y
  {
    if x != 0 && y != 0 { AndBound(x / 2, y / 2); }
  }

  lemma {:induction false} OrBound(n: nat, x: nat, y: nat)
    requires x < Pow2(n) && y < Pow2(n)
    ensures Or(x, y) < Pow2(n)
  {
    if x != 0 && y != 0 { OrBound(n - 1, x / 2, y / 2); }
  }

  lemma {:induction false} AndSelf(x: nat)
    ensures And(x, x) == x
  {
    if x > 0 { AndSelf(x / 2); }
  }

  /** x & (x - 1) halves down with an even x, and just clears the last bit of an odd one. */
  lemma TurnOffEven(h: nat)
    requires h > 0
    ensures And(2 * h, 2 * h - 1) == 2 * And(h, h - 1)
  {
    assert 2 * h / 2 == h && (2 * h - 1) / 2 == h - 1;
  }

  lemma TurnOffOdd(h: nat)
    ensures And(2 * h + 1, 2 * h) == 2 * h
  {
    assert (2 * h + 1) / 2 == h && 2 * h / 2 == h;
    AndSelf(h);
  }

  /** The largest power of two not above x. */
  ghost function TopPower(x: nat): (p: nat)
    requires x > 0
    ensures p <= x < 2 * p
  {
    if x == 1 then 1 else 2 * TopPower(x / 2)
  }

  lemma {:induction false} TopPowerIsPower(x: nat) returns (k: nat)
    requires x > 0
    ensures TopPower(x) == Pow2(k)
  {
    k := 0;
    if x > 1 {
      k := TopPowerIsPower(x / 2);
      k := k + 1;
    }
  }

  /** x & (x - 1) is smaller than x, and zero exactly when x is a power of two; otherwise it keeps the top
      bit. */
  lemma {:induction false} TurnOff(x: nat)
    requires x > 0
    ensures And(x, x - 1) < x
    ensures And(x, x - 1) == 0 <==> x == TopPower(x)
    ensures And(x, x - 1) > 0 ==> TopPower(And(x, x - 1)) == TopPower(x)
  {
    var h := x / 2;
    if x % 2 == 1 {
      TurnOffOdd(h);
      if h > 0 { assert 2 * h / 2 == h; }
    } else {
      TurnOff(h);
      TurnOffEven(h);
      var w := And(h, h - 1);
      assert w > 0 ==> 2 * w / 2 == w;
    }
  }
}
