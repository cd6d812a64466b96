/** Sequences turned round, and sequences of sequences laid end to end. */
module Sequences {

  import opened Ordering

  function Reversed<E>(s: seq<E>): (r: seq<E>)
    ensures |r| == |s|
  {
    seq(|s|, i requires 0 <= i < |s| => s[|s| - 1 - i])
  }

  /** The first n sequences, one after the other. */
  ghost function Listing<E>(bs: seq<seq<E>>, n: nat): seq<E>
    requires n <= |bs|
  {
    if n == 0 then [] else Listing(bs, n - 1) + bs[n - 1]
  }

  lemma {:induction false} ListingHolds<E>(bs: seq<seq<E>>, n: nat, e: E)
    requires n <= |bs|
    ensures e in Listing(bs, n) <==> exists i :: 0 <= i < n && e in bs[i]
  {
    if n > 0 { ListingHolds(bs, n - 1, e); }
  }

  lemma DistinctParts<E>(s: seq<E>, t: seq<E>)
    requires Distinct(s + t)
    ensures Distinct(s) && Distinct(t) && forall x :: x in s ==> x !in t
  {
    var u := s + t;
    forall i, j | 0 <= i < j < |s|
      ensures s[i] != s[j]
    {
      assert u[i] != u[j];
    }
    forall i, j | 0 <= i < j < |t|
      ensures t[i] != t[j]
    {
      assert u[|s| + i] != u[|s| + j];
    }
    forall i, j | 0 <= i < |s| && 0 <= j < |t|
      ensures s[i] != t[j]
    {
      assert u[i] != u[|s| + j];
    }
  }

  lemma DistinctConcat<E>(s: seq<E>, t: seq<E>)
    requires Distinct(s) && Distinct(t) && forall x :: x in s ==> x !in t
    ensures Distinct(s + t)
  {
    var u := s + t;
    forall i, j | 0 <= i < j < |u|
      ensures u[i] != u[j]
    {
      if i < |s| <= j { assert u[i] in s && u[j] in t; }
    }
  }

  /** No sequence repeats an element, and no two share one. */
  ghost predicate NoRepeats<E>(bs: seq<seq<E>>, n: nat)
    requires n <= |bs|
  {
    && (forall i :: 0 <= i < n ==> Distinct(bs[i]))
    && (forall i, k, x {:trigger x in bs[i], x in bs[k]} :: 0 <= i < k < n && x in bs[i] ==> x !in bs[k])
  }

  lemma {:induction false} ListingDistinct<E>(bs: seq<seq<E>>, n: nat)
    requires n <= |bs| && NoRepeats(bs, n)
    ensures Distinct(Listing(bs, n))
  {
    if n > 0 {
      ListingDistinct(bs, n - 1);
      var s, t := Listing(bs, n - 1), bs[n - 1];
      forall x | x in s
        ensures x !in t
      {
        ListingHolds(bs, n - 1, x);
      }
      DistinctConcat(s, t);
    }
  }

  lemma {:induction false} DistinctListing<E>(bs: seq<seq<E>>, n: nat)
    requires n <= |bs| && Distinct(Listing(bs, n))
    ensures NoRepeats(bs, n)
  {
    if n > 0 {
      var s, t := Listing(bs, n - 1), bs[n - 1];
      DistinctParts(s, t);
      DistinctListing(bs, n - 1);
      forall i, x | 0 <= i < n - 1 && x in bs[i]
        ensures x !in t
      {
        ListingHolds(bs, n - 1, x);
      }
    }
  }
}
