/** lib/kernel/bitmap.c: an array of bits packed into 32-bit words. */
module Bitmaps {

  import opened Powers
  import opened Bits
  import opened Wrappers

  const ELEM_BITS := 32

  function ElemIdx(bit: nat): nat {
    bit / ELEM_BITS
  }

  function BitMask(bit: nat): nat {
    Pow2(bit % ELEM_BITS)
  }

  function ElemCnt(bits: nat): nat {
    (bits + ELEM_BITS - 1) / ELEM_BITS
  }

  /** cnt bits from i on all have the given value. */
  ghost predicate Fits(s: seq<bool>, i: nat, cnt: nat, value: bool) {
    i + cnt <= |s| && forall k {:trigger s[k]} :: i <= k < i + cnt ==> s[k] == value
  }

  /** The first place at or after start where cnt bits in a row have the given value, if there is one. */
  ghost predicate IsFirstFit(s: seq<bool>, start: nat, cnt: nat, value: bool, r: Option<nat>) {
    match r
    case None => forall i: nat {:trigger Fits(s, i, cnt, value)} :: start <= i ==> !Fits(s, i, cnt, value)
    case Some(at) =>
      && start <= at
      && Fits(s, at, cnt, value)
      && forall i: nat {:trigger Fits(s, i, cnt, value)} :: start <= i < at ==> !Fits(s, i, cnt, value)
  }

  /** s with cnt bits from start on set to the given value. */
  ghost function Filled(s: seq<bool>, start: nat, cnt: nat, value: bool): (r: seq<bool>)
    ensures |r| == |s|
  {
    seq(|s|, k requires 0 <= k < |s| => if start <= k < start + cnt then value else s[k])
  }

  ghost function FirstFit(s: seq<bool>, start: nat, cnt: nat, value: bool): Option<nat>
    decreases |s| - start
  {
    if start + cnt > |s| then None
    else if Fits(s, start, cnt, value) then Some(start)
    else FirstFit(s, start + 1, cnt, value)
  }

  lemma {:induction false} FirstFitFinds(s: seq<bool>, start: nat, cnt: nat, value: bool)
    ensures IsFirstFit(s, start, cnt, value, FirstFit(s, start, cnt, value))
    decreases |s| - start
  {
    if start + cnt <= |s| && !Fits(s, start, cnt, value) {
      FirstFitFinds(s, start + 1, cnt, value);
    }
  }

  /** No two outcomes of a search are both right. */
  lemma FirstFitUnique(s: seq<bool>, start: nat, cnt: nat, value: bool, r: Option<nat>)
    requires IsFirstFit(s, start, cnt, value, r)
    ensures r == FirstFit(s, start, cnt, value)
  {
    FirstFitFinds(s, start, cnt, value);
    var r' := FirstFit(s, start, cnt, value);
    if r.Some? {
      assert Fits(s, r.value, cnt, value);
    }
    if r'.Some? {
      assert Fits(s, r'.value, cnt, value);
    }
  }

  /** A group of no bits is found at start itself, so it is found at 0, as the comment above
      bitmap_scan_and_flip has it, exactly when start is 0. */
  lemma EmptyGroup(s: seq<bool>, start: nat, value: bool, r: Option<nat>)
    requires start <= |s| && IsFirstFit(s, start, 0, value, r)
    ensures r == Some(start)
    ensures r == Some(0) <==> start == 0
  {
    assert Fits(s, start, 0, value);
  }

  /** Giving back what a search took restores the bits. */
  lemma FlipBack(s: seq<bool>, at: nat, cnt: nat, value: bool)
    requires Fits(s, at, cnt, value)
    ensures Fits(Filled(s, at, cnt, !value), at, cnt, !value)
    ensures Filled(Filled(s, at, cnt, !value), at, cnt, value) == s
  {
  }

  /** The word after orl or andl with a one-bit mask. */
  function WithBit(w: nat, k: nat, value: bool): (r: nat)
    requires w < Pow2(ELEM_BITS) && k < ELEM_BITS
  {
    Pow2Mono(k, ELEM_BITS);
    if value then Or(w, Pow2(k)) else And(w, Not(ELEM_BITS, Pow2(k)))
  }

  lemma WithBitSets(w: nat, k: nat, value: bool, j: nat)
    requires w < Pow2(ELEM_BITS) && k < ELEM_BITS && j < ELEM_BITS
    ensures WithBit(w, k, value) < Pow2(ELEM_BITS)
    ensures Bit(WithBit(w, k, value), j) <==> if j == k then value else Bit(w, j)
  {
    Pow2Mono(k, ELEM_BITS);
    PowBit(k, j);
    if value {
      OrBit(w, Pow2(k), j);
      OrBound(ELEM_BITS, w, Pow2(k));
    } else {
      AndBit(w, Not(ELEM_BITS, Pow2(k)), j);
      NotBit(ELEM_BITS, Pow2(k), j);
      AndBound(w, Not(ELEM_BITS, Pow2(k)));
    }
  }

  /** n bits packed into words, the lowest bit of the first word first. */
  ghost predicate Packs(words: seq<nat>, n: nat) {
    |words| == ElemCnt(n) && forall e :: 0 <= e < |words| ==> words[e] < Pow2(ELEM_BITS)
  }

  ghost function BitAt(words: seq<nat>, i: nat): bool
    requires ElemIdx(i) < |words|
  {
    Bit(words[ElemIdx(i)], i % ELEM_BITS)
  }

  ghost function Unpacked(words: seq<nat>, n: nat): (s: seq<bool>)
    requires Packs(words, n)
    ensures |s| == n
  {
    seq(n, i requires 0 <= i < n => BitAt(words, i))
  }

  lemma SetBitAt(words: seq<nat>, n: nat, idx: nat, value: bool, i: nat)
    requires Packs(words, n) && idx < n && i < n
    ensures BitAt(words[ElemIdx(idx) := WithBit(words[ElemIdx(idx)], idx % ELEM_BITS, value)], i)
         == if i == idx then value else BitAt(words, i)
  {
    WithBitSets(words[ElemIdx(idx)], idx % ELEM_BITS, value, i % ELEM_BITS);
  }

  /** Setting a bit of one word sets one bit of the bitmap. */
  lemma SetPacked(words: seq<nat>, n: nat, idx: nat, value: bool, words': seq<nat>)
    requires Packs(words, n) && idx < n
    requires words' == words[ElemIdx(idx) := WithBit(words[ElemIdx(idx)], idx % ELEM_BITS, value)]
    ensures Packs(words', n)
    ensures Unpacked(words', n) == Unpacked(words, n)[idx := value]
  {
    WithBitSets(words[ElemIdx(idx)], idx % ELEM_BITS, value, 0);
    forall i: nat | i < n
      ensures BitAt(words', i) == if i == idx then value else BitAt(words, i)
    {
      SetBitAt(words, n, idx, value, i);
    }
  }

  class Bitmap {
    const bitCnt: nat
    const bits: array<nat>

    ghost predicate Valid()
      reads bits
    {
      Packs(bits[..], bitCnt)
    }

    /** The bitmap seen from outside. */
    ghost function Contents(): (s: seq<bool>)
      requires Valid()
      reads bits
      ensures |s| == bitCnt
    {
      Unpacked(bits[..], bitCnt)
    }

    constructor (cnt: nat)
      ensures Valid() && fresh(bits) && bitCnt == cnt
      ensures Contents() == seq(cnt, _ => false)
    {
      bitCnt := cnt;
      bits := new nat[ElemCnt(cnt)](_ => 0);
      new;
      SetMultiple(0, cnt, false);
    }

    method Test(idx: nat) returns (value: bool)
      requires Valid() && idx < bitCnt
      ensures value == Contents()[idx]
    {
      MaskTests(bits[ElemIdx(idx)], idx % ELEM_BITS);
      value := And(bits[ElemIdx(idx)], BitMask(idx)) != 0;
    }

    method Set(idx: nat, value: bool)
      requires Valid() && idx < bitCnt
      modifies bits
      ensures Valid() && Contents() == old(Contents())[idx := value]
    {
      ghost var words := bits[..];
      bits[ElemIdx(idx)] := WithBit(bits[ElemIdx(idx)], idx % ELEM_BITS, value);
      SetPacked(words, bitCnt, idx, value, bits[..]);
    }

    method SetMultiple(start: nat, cnt: nat, value: bool)
      requires Valid() && start + cnt <= bitCnt
      modifies bits
      ensures Valid() && Contents() == Filled(old(Contents()), start, cnt, value)
    {
      var i := 0;
      while i < cnt
        invariant i <= cnt && Valid()
        invariant Contents() == Filled(old(Contents()), start, i, value)
      {
        Set(start + i, value);
        i := i + 1;
      }
    }

    method Contains(start: nat, cnt: nat, value: bool) returns (found: bool)
      requires Valid() && start + cnt <= bitCnt
      ensures found <==> !Fits(Contents(), start, cnt, !value)
    {
      var i := 0;
      while i < cnt
        invariant i <= cnt
        invariant Fits(Contents(), start, i, !value)
      {
        var v := Test(start + i);
        if v == value {
          return true;
        }
        i := i + 1;
      }
      return false;
    }

    method Scan(start: nat, cnt: nat, value: bool) returns (r: Option<nat>)
      requires Valid() && start <= bitCnt
      ensures IsFirstFit(Contents(), start, cnt, value, r)
    {
      if cnt <= bitCnt {
        var i := start;
        while i <= bitCnt - cnt
          invariant forall j: nat {:trigger Fits(Contents(), j, cnt, value)} ::
              start <= j < i ==> !Fits(Contents(), j, cnt, value)
        {
          var other := Contains(i, cnt, !value);
          if !other {
            return Some(i);
          }
          i := i + 1;
        }
      }
      return None;
    }

    method ScanAndFlip(start: nat, cnt: nat, value: bool) returns (r: Option<nat>)
      requires Valid() && start <= bitCnt
      modifies bits
      ensures Valid() && r == FirstFit(old(Contents()), start, cnt, value)
      ensures Contents() == if r.Some? then Filled(old(Contents()), r.value, cnt, !value) else old(Contents())
    {
      r := Scan(start, cnt, value);
      FirstFitUnique(Contents(), start, cnt, value, r);
      if r.Some? {
        SetMultiple(r.value, cnt, !value);
      }
    }
  }
}
