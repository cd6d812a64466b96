/** lib/kernel/hash.c: a chained hash table that regroups its elements as their number changes. */
module HashTable {

  import opened Wrappers
  import opened Powers
  import opened Bits
  import opened Ordering
  import opened Sequences

  /** Elements that neither function tells apart hash alike, and being alike is transitive. */
  ghost predicate Consistent<E(!new)>(hash: E -> nat, less: (E, E) -> bool) {
    && (forall a, b {:trigger Equivalent(less, a, b)} :: Equivalent(less, a, b) ==> hash(a) == hash(b))
    && (forall a {:trigger Equivalent(less, a, a)} :: Equivalent(less, a, a))
    && (forall a, b, c {:trigger Equivalent(less, a, b), Equivalent(less, b, c)} ::
        Equivalent(less, a, b) && Equivalent(less, b, c) ==> Equivalent(less, a, c))
  }

  // ----- a set of elements, no two alike

  ghost predicate NoneAlike<E>(less: (E, E) -> bool, s: set<E>) {
    forall a, b {:trigger Equivalent(less, a, b)} :: a in s && b in s && Equivalent(less, a, b) ==> a == b
  }

  ghost predicate IsMatch<E>(less: (E, E) -> bool, s: set<E>, e: E, r: Option<E>) {
    match r
    case None => forall x {:trigger Equivalent(less, x, e)} :: x in s ==> !Equivalent(less, x, e)
    case Some(x) => x in s && Equivalent(less, x, e)
  }

  /** The element of s that is like e. */
  ghost function Match<E>(less: (E, E) -> bool, s: set<E>, e: E): (r: Option<E>)
    ensures IsMatch(less, s, e, r)
  {
    if x :| x in s && Equivalent(less, x, e) then Some(x) else None
  }

  lemma MatchUnique<E(!new)>(hash: E -> nat, less: (E, E) -> bool, s: set<E>, e: E, r: Option<E>)
    requires Consistent(hash, less) && NoneAlike(less, s) && IsMatch(less, s, e, r)
    ensures r == Match(less, s, e)
  {
    var m := Match(less, s, e);
    if r.Some? && m.Some? {
      assert Equivalent(less, m.value, e) && Equivalent(less, e, m.value);
      assert Equivalent(less, r.value, m.value);
    }
  }

  datatype Op<E> = Insert(e: E) | Replace(e: E) | Find(e: E) | Delete(e: E)

  /** What each operation does to a plain set, and what it returns. */
  ghost function SetStep<E>(less: (E, E) -> bool, s: set<E>, op: Op<E>): (Option<E>, set<E>) {
    var r := Match(less, s, op.e);
    match op
    case Insert(e) => (r, if r.None? then s + {e} else s)
    case Replace(e) => (r, (if r.Some? then s - {r.value} else s) + {e})
    case Find(e) => (r, s)
    case Delete(e) => (r, if r.Some? then s - {r.value} else s)
  }

  ghost function SetRun<E>(less: (E, E) -> bool, s: set<E>, ops: seq<Op<E>>): (seq<Option<E>>, set<E>) {
    if ops == [] then ([], s)
    else
      var (rs, s1) := SetRun(less, s, ops[..|ops| - 1]);
      var (r, s2) := SetStep(less, s1, ops[|ops| - 1]);
      (rs + [r], s2)
  }

  // ----- buckets

  /** find_bucket */
  function Slot<E>(hash: E -> nat, e: E, n: nat): (i: nat)
    requires n > 0
    ensures i < n
  {
    AndBound(hash(e), n - 1);
    And(hash(e), n - 1)
  }

  /** The elements of all buckets, in the order hash_next visits them. */
  ghost function All<E>(bs: seq<seq<E>>): seq<E> {
    Listing(bs, |bs|)
  }

  lemma {:induction false} ListingChange<E>(bs: seq<seq<E>>, n: nat, i: nat, b: seq<E>)
    requires n <= |bs| && i < |bs|
    ensures |Listing(bs[i := b], n)| == |Listing(bs, n)| + if i < n then |b| - |bs[i]| else 0
  {
    if n > 0 { ListingChange(bs, n - 1, i, b); }
  }

  ghost predicate Apart<E>(less: (E, E) -> bool, s: seq<E>) {
    forall i, j {:trigger Equivalent(less, s[i], s[j])} :: 0 <= i < j < |s| ==> !Equivalent(less, s[i], s[j])
  }

  ghost predicate Placed<E>(hash: E -> nat, bs: seq<seq<E>>, i: nat)
    requires i < |bs|
  {
    forall e {:trigger e in bs[i]} :: e in bs[i] ==> Slot(hash, e, |bs|) == i
  }

  /** Every element is in the bucket its hash selects, no bucket holds two alike, and the number of buckets is a
      power of two, at least four. */
  ghost predicate BucketsInv<E>(hash: E -> nat, less: (E, E) -> bool, bs: seq<seq<E>>) {
    && |bs| >= 4 && (exists k: nat :: |bs| == Pow2(k))
    && forall i: nat :: i < |bs| ==> Placed(hash, bs, i) && Apart(less, bs[i])
  }

  lemma {:induction false} ListingApart<E(!new)>(hash: E -> nat, less: (E, E) -> bool, bs: seq<seq<E>>, n: nat)
    requires Consistent(hash, less) && n <= |bs|
    requires forall i: nat :: i < |bs| ==> Placed(hash, bs, i) && Apart(less, bs[i])
    ensures Apart(less, Listing(bs, n))
  {
    if n > 0 {
      ListingApart(hash, less, bs, n - 1);
      var front, last := Listing(bs, n - 1), bs[n - 1];
      assert Placed(hash, bs, n - 1) && Apart(less, last);
      forall e, x | e in front && x in last
        ensures !Equivalent(less, e, x)
      {
        ListingHolds(bs, n - 1, e);
        var i :| 0 <= i < n - 1 && e in bs[i];
        assert Placed(hash, bs, i);
      }
      ConcatApart(less, front, last);
    }
  }

  lemma ConcatApart<E>(less: (E, E) -> bool, s: seq<E>, t: seq<E>)
    requires Apart(less, s) && Apart(less, t)
    requires forall e, x {:trigger Equivalent(less, e, x)} :: e in s && x in t ==> !Equivalent(less, e, x)
    ensures Apart(less, s + t)
  {
    var u := s + t;
    forall i, j | 0 <= i < j < |u|
      ensures !Equivalent(less, u[i], u[j])
    {
      if j < |s| {
        assert !Equivalent(less, s[i], s[j]);
      } else if i >= |s| {
        assert !Equivalent(less, t[i - |s|], t[j - |s|]);
      } else {
        assert !Equivalent(less, s[i], t[j - |s|]);
      }
    }
  }

  ghost function Contents<E>(bs: seq<seq<E>>): set<E> {
    Elements(All(bs))
  }

  lemma ContentsHold<E>(bs: seq<seq<E>>, e: E)
    ensures e in Contents(bs) <==> exists i :: 0 <= i < |bs| && e in bs[i]
  {
    ListingHolds(bs, |bs|, e);
  }

  lemma {:induction false} DistinctSize<E>(s: seq<E>)
    requires Distinct(s)
    ensures |Elements(s)| == |s|
  {
    if s != [] {
      var n := |s| - 1;
      assert s[..n] + [s[n]] == s;
      DistinctSize(s[..n]);
      assert Elements(s) == Elements(s[..n]) + {s[n]};
    }
  }

  /** The table holds a set without two elements alike, and its chains add up to the size of that set. */
  lemma ContentsSet<E(!new)>(hash: E -> nat, less: (E, E) -> bool, bs: seq<seq<E>>)
    requires Consistent(hash, less) && BucketsInv(hash, less, bs)
    ensures NoneAlike(less, Contents(bs))
    ensures Distinct(All(bs)) && |Contents(bs)| == |All(bs)|
  {
    ListingApart(hash, less, bs, |bs|);
    var all := All(bs);
    forall i, j | 0 <= i < j < |all|
      ensures all[i] != all[j]
    {
      assert !Equivalent(less, all[i], all[j]);
    }
    DistinctSize(all);
    forall a, b | a in Contents(bs) && b in Contents(bs) && Equivalent(less, a, b)
      ensures a == b
    {
      var i :| 0 <= i < |all| && all[i] == a;
      var j :| 0 <= j < |all| && all[j] == b;
      assert Equivalent(less, all[i], all[j]) && Equivalent(less, all[j], all[i]);
    }
  }

  /** One chain decides whether an element is in the table. */
  lemma OneChain<E(!new)>(hash: E -> nat, less: (E, E) -> bool, bs: seq<seq<E>>, e: E, r: Option<E>)
    requires Consistent(hash, less) && BucketsInv(hash, less, bs)
    requires IsMatch(less, Elements(bs[Slot(hash, e, |bs|)]), e, r)
    ensures r == Match(less, Contents(bs), e)
  {
    var n := Slot(hash, e, |bs|);
    match r {
      case Some(x) =>
        ContentsHold(bs, x);
      case None =>
        forall x | x in Contents(bs)
          ensures !Equivalent(less, x, e)
        {
          ContentsHold(bs, x);
          var i: nat :| i < |bs| && x in bs[i];
          assert Placed(hash, bs, i);
          if i == n { assert x in Elements(bs[n]); }
        }
    }
    ContentsSet(hash, less, bs);
    MatchUnique(hash, less, Contents(bs), e, r);
  }

  lemma Push<E(!new)>(hash: E -> nat, less: (E, E) -> bool, bs: seq<seq<E>>, e: E, bs': seq<seq<E>>)
    requires Consistent(hash, less) && |bs| > 0
    requires forall i: nat :: i < |bs| ==> Placed(hash, bs, i) && Apart(less, bs[i])
    requires var i := Slot(hash, e, |bs|); bs' == bs[i := [e] + bs[i]]
    requires IsMatch(less, Elements(bs[Slot(hash, e, |bs|)]), e, None)
    ensures forall i: nat :: i < |bs'| ==> Placed(hash, bs', i) && Apart(less, bs'[i])
    ensures Contents(bs') == Contents(bs) + {e}
    ensures |All(bs')| == |All(bs)| + 1
  {
    var n := Slot(hash, e, |bs|);
    ListingChange(bs, |bs|, n, [e] + bs[n]);
    forall i: nat | i < |bs'|
      ensures Placed(hash, bs', i) && Apart(less, bs'[i])
    {
      assert Placed(hash, bs, i) && Apart(less, bs[i]);
      if i == n {
        forall x | x in bs[n]
          ensures !Equivalent(less, e, x)
        {
          assert x in Elements(bs[n]) && !Equivalent(less, x, e);
        }
        ConcatApart(less, [e], bs[n]);
      }
    }
    forall x
      ensures x in Contents(bs') <==> x in Contents(bs) || x == e
    {
      ContentsHold(bs, x);
      ContentsHold(bs', x);
      if x in bs[n] || x == e { assert x in bs'[n]; }
      if i :| 0 <= i < |bs| && x in bs[i] { assert x in bs'[i]; }
      if i :| 0 <= i < |bs| && x in bs'[i] && (i != n || x != e) { assert x in bs[i]; }
    }
  }

  lemma Pull<E(!new)>(hash: E -> nat, less: (E, E) -> bool, bs: seq<seq<E>>, n: nat, j: nat, bs': seq<seq<E>>)
    requires Consistent(hash, less) && BucketsInv(hash, less, bs)
    requires n < |bs| && j < |bs[n]| && bs' == bs[n := bs[n][..j] + bs[n][j + 1..]]
    ensures BucketsInv(hash, less, bs')
    ensures Contents(bs') == Contents(bs) - {bs[n][j]}
    ensures |All(bs')| == |All(bs)| - 1
    ensures IsMatch(less, Elements(bs'[n]), bs[n][j], None)
  {
    var b, b' := bs[n], bs'[n];
    ListingChange(bs, |bs|, n, b');
    assert Apart(less, b) && Placed(hash, bs, n);
    forall x, y | 0 <= x < y < |b'|
      ensures !Equivalent(less, b'[x], b'[y])
    {
      assert !Equivalent(less, b[if x < j then x else x + 1], b[if y < j then y else y + 1]);
    }
    forall x | x in b'
      ensures x in b && !Equivalent(less, x, b[j])
    {
      var i :| 0 <= i < |b'| && b'[i] == x;
      assert b'[i] == b[if i < j then i else i + 1];
      assert if i < j then !Equivalent(less, b[i], b[j]) else !Equivalent(less, b[j], b[i + 1]);
    }
    forall i: nat | i < |bs'|
      ensures Placed(hash, bs', i) && Apart(less, bs'[i])
    {
      assert Placed(hash, bs, i) && Apart(less, bs[i]);
    }
    forall x
      ensures x in Contents(bs') <==> x in Contents(bs) && x != b[j]
    {
      PullOne(hash, less, bs, n, j, bs', x);
    }
  }

  lemma PullOne<E(!new)>(hash: E -> nat, less: (E, E) -> bool, bs: seq<seq<E>>, n: nat, j: nat, bs': seq<seq<E>>, x: E)
    requires Consistent(hash, less) && BucketsInv(hash, less, bs)
    requires n < |bs| && j < |bs[n]| && bs' == bs[n := bs[n][..j] + bs[n][j + 1..]]
    requires forall y :: y in bs'[n] ==> y in bs[n] && !Equivalent(less, y, bs[n][j])
    ensures x in Contents(bs') <==> x in Contents(bs) && x != bs[n][j]
  {
    var b := bs[n];
    assert Placed(hash, bs, n) && b[j] in b;
    assert b == b[..j] + [b[j]] + b[j + 1..];
    ContentsHold(bs, x);
    ContentsHold(bs', x);
    if i: nat :| i < |bs| && x in bs[i] && x != b[j] {
      assert x in bs'[i];
    }
    if i: nat :| i < |bs'| && x in bs'[i] {
      assert Placed(hash, bs, i) && x in bs[i];
      assert Equivalent(less, x, x);
    }
  }

  // ----- regrouping

  /** The elements moved one by one, in order, to the front of the chains of n new buckets. */
  ghost function Regroup<E>(hash: E -> nat, items: seq<E>, n: nat): (bs: seq<seq<E>>)
    requires n > 0
    ensures |bs| == n
  {
    if items == [] then seq(n, _ => [])
    else
      var bs := Regroup(hash, items[..|items| - 1], n);
      var e := items[|items| - 1];
      var i := Slot(hash, e, n);
      bs[i := [e] + bs[i]]
  }

  lemma {:induction false} EmptyListing<E>(bs: seq<seq<E>>, n: nat)
    requires n <= |bs| && forall i :: 0 <= i < |bs| ==> bs[i] == []
    ensures Listing(bs, n) == []
  {
    if n > 0 { EmptyListing(bs, n - 1); }
  }

  lemma {:induction false} RegroupKeeps<E(!new)>(hash: E -> nat, less: (E, E) -> bool, items: seq<E>, n: nat)
    requires Consistent(hash, less) && n > 0 && Apart(less, items)
    ensures var bs := Regroup(hash, items, n);
      && (forall i: nat :: i < n ==> Placed(hash, bs, i) && Apart(less, bs[i]))
      && Contents(bs) == Elements(items)
      && |All(bs)| == |items|
  {
    if items == [] {
      EmptyListing(Regroup(hash, items, n), n);
    } else {
      var front, e := items[..|items| - 1], items[|items| - 1];
      RegroupKeeps(hash, less, front, n);
      var bs := Regroup(hash, front, n);
      forall x | x in Elements(bs[Slot(hash, e, n)])
        ensures !Equivalent(less, x, e)
      {
        ContentsHold(bs, x);
        var i :| 0 <= i < |front| && front[i] == x;
        assert !Equivalent(less, items[i], items[|items| - 1]);
      }
      Push(hash, less, bs, e, Regroup(hash, items, n));
      assert items == front + [e];
    }
  }

  /** The number of buckets rehash aims at. */
  ghost function Ideal(cnt: nat): nat {
    TopPower(if cnt / 2 < 4 then 4 else cnt / 2)
  }

  /** With the ideal number of buckets, chains are shorter than four on average, and, past the least number of
      buckets, at least two. */
  lemma IdealLoad(cnt: nat)
    ensures Ideal(cnt) >= 4 && cnt < 4 * Ideal(cnt)
    ensures Ideal(cnt) > 4 ==> 2 * Ideal(cnt) <= cnt
    ensures exists k: nat :: Ideal(cnt) == Pow2(k)
  {
    var x := if cnt / 2 < 4 then 4 else cnt / 2;
    var k := TopPowerIsPower(x);
    assert Pow2(0) == 1 && Pow2(1) == 2 && Pow2(2) == 4;
    if k > 2 { Pow2Mono(2, k); }
  }

  // ----- the code

  class Hash<E(==, !new)> {
    const hash: E -> nat
    const less: (E, E) -> bool
    var buckets: array<seq<E>>
    var elemCnt: nat

    ghost predicate Valid()
      reads this, buckets
    {
      && Consistent(hash, less)
      && BucketsInv(hash, less, buckets[..])
      && elemCnt == |All(buckets[..])|
    }

    ghost function Held(): set<E>
      reads this, buckets
    {
      Contents(buckets[..])
    }

    constructor (hash: E -> nat, less: (E, E) -> bool)
      requires Consistent(hash, less)
      ensures this.hash == hash && this.less == less
      ensures Valid() && fresh(buckets) && Held() == {} && buckets.Length == 4
    {
      this.hash, this.less, elemCnt := hash, less, 0;
      buckets := new seq<E>[4](_ => []);
      new;
      EmptyListing(buckets[..], 4);
      assert Pow2(2) == 4;
    }

    /** find_elem: the position in a bucket of the element like e, if there is one. */
    method FindElem(n: nat, e: E) returns (at: Option<nat>)
      requires n < buckets.Length
      ensures at.Some? ==> at.value < |buckets[n]|
      ensures IsMatch(less, Elements(buckets[n]), e, if at.Some? then Some(buckets[n][at.value]) else None)
    {
      var i := 0;
      while i < |buckets[n]|
        invariant i <= |buckets[n]|
        invariant IsMatch(less, Elements(buckets[n][..i]), e, None)
      {
        var hi := buckets[n][i];
        if !less(hi, e) && !less(e, hi) {
          return Some(i);
        }
        i := i + 1;
      }
      assert buckets[n][..i] == buckets[n];
      return None;
    }

    method InsertElem(n: nat, e: E)
      requires Valid() && n == Slot(hash, e, buckets.Length) && Match(less, Held(), e) == None
      modifies this`elemCnt, buckets
      ensures Valid() && Held() == old(Held()) + {e}
    {
      ghost var bs := buckets[..];
      forall x | x in Elements(bs[n])
        ensures !Equivalent(less, x, e)
      {
        ContentsHold(bs, x);
      }
      elemCnt := elemCnt + 1;
      buckets[n] := [e] + buckets[n];
      Push(hash, less, bs, e, buckets[..]);
    }

    method RemoveElem(n: nat, at: nat)
      requires Valid() && n < buckets.Length && at < |buckets[n]|
      modifies this`elemCnt, buckets
      ensures Valid() && Held() == old(Held()) - {old(buckets[n][at])}
    {
      ghost var bs := buckets[..];
      Pull(hash, less, bs, n, at, bs[n := bs[n][..at] + bs[n][at + 1..]]);
      buckets[n] := buckets[n][..at] + buckets[n][at + 1..];
      assert buckets[..] == bs[n := bs[n][..at] + bs[n][at + 1..]];
      elemCnt := elemCnt - 1;
    }

    /** The loop that picks the number of buckets. */
    method BucketsFor() returns (n: nat)
      ensures n == Ideal(elemCnt)
    {
      n := elemCnt / 2;
      if n < 4 {
        n := 4;
      }
      ghost var x := n;
      TurnOff(n);
      while And(n, n - 1) != 0
        invariant n > 0 && TopPower(n) == TopPower(x)
        invariant And(n, n - 1) == 0 <==> n == TopPower(n)
      {
        TurnOff(n);
        n := And(n, n - 1);
        TurnOff(n);
      }
    }

    /** ok says whether malloc finds room for the new buckets. */
    method Rehash(ok: bool)
      requires Valid()
      modifies this`buckets
      ensures Valid() && Held() == old(Held())
      ensures buckets == old(buckets) || fresh(buckets)
      ensures buckets.Length == if ok then Ideal(elemCnt) else old(buckets.Length)
    {
      var n := BucketsFor();
      if n == buckets.Length || !ok {
        return;
      }
      IdealLoad(elemCnt);
      var fresh_ := new seq<E>[n](_ => []);
      Distribute(fresh_);
      ListingApart(hash, less, buckets[..], buckets.Length);
      RegroupKeeps(hash, less, All(buckets[..]), n);
      buckets := fresh_;
    }

    /** Moves each element to its new bucket. */
    method Distribute(target: array<seq<E>>)
      requires target.Length > 0 && target != buckets && forall i :: 0 <= i < target.Length ==> target[i] == []
      modifies target
      ensures target[..] == Regroup(hash, All(buckets[..]), target.Length)
    {
      ghost var n := target.Length;
      assert target[..] == Regroup(hash, [], n);
      var i := 0;
      while i < buckets.Length
        invariant i <= buckets.Length
        invariant target[..] == Regroup(hash, Listing(buckets[..], i), n)
      {
        ghost var done := Listing(buckets[..], i);
        var j := 0;
        assert done + buckets[i][..0] == done;
        while j < |buckets[i]|
          invariant j <= |buckets[i]|
          invariant target[..] == Regroup(hash, done + buckets[i][..j], n)
        {
          var e := buckets[i][j];
          var m := Slot(hash, e, target.Length);
          ghost var items := done + buckets[i][..j + 1];
          assert items[..|items| - 1] == done + buckets[i][..j];
          target[m] := [e] + target[m];
          j := j + 1;
        }
        assert buckets[i][..j] == buckets[i];
        i := i + 1;
      }
      assert buckets[..][..i] == buckets[..];
    }

    method Insert(e: E, ok: bool) returns (r: Option<E>)
      requires Valid()
      modifies this, buckets
      ensures Valid() && (buckets == old(buckets) || fresh(buckets))
      ensures (r, Held()) == SetStep(less, old(Held()), Op.Insert(e))
      ensures ok ==> buckets.Length == Ideal(elemCnt)
    {
      var n := Slot(hash, e, buckets.Length);
      var at := FindElem(n, e);
      r := if at.Some? then Some(buckets[n][at.value]) else None;
      OneChain(hash, less, buckets[..], e, r);
      if at.None? {
        InsertElem(n, e);
      }
      Rehash(ok);
    }

    method Replace(e: E, ok: bool) returns (r: Option<E>)
      requires Valid()
      modifies this, buckets
      ensures Valid() && (buckets == old(buckets) || fresh(buckets))
      ensures (r, Held()) == SetStep(less, old(Held()), Op.Replace(e))
      ensures ok ==> buckets.Length == Ideal(elemCnt)
    {
      var n := Slot(hash, e, buckets.Length);
      var at := FindElem(n, e);
      r := if at.Some? then Some(buckets[n][at.value]) else None;
      OneChain(hash, less, buckets[..], e, r);
      ContentsSet(hash, less, buckets[..]);
      if at.Some? {
        RemoveElem(n, at.value);
        assert Match(less, Held(), e) == None by {
          NoOther(old(Held()), e, r.value);
        }
      }
      InsertElem(n, e);
      Rehash(ok);
    }

    /** Once the element like e is gone, there is none. */
    lemma NoOther(s: set<E>, e: E, x: E)
      requires Consistent(hash, less) && NoneAlike(less, s) && x in s && Equivalent(less, x, e)
      ensures Match(less, s - {x}, e) == None
    {
      forall y | y in s - {x}
        ensures !Equivalent(less, y, e)
      {
        assert Equivalent(less, e, x);
        assert Equivalent(less, y, e) ==> Equivalent(less, y, x);
      }
    }

    method Find(e: E) returns (r: Option<E>)
      requires Valid()
      ensures r == Match(less, Held(), e)
    {
      var n := Slot(hash, e, buckets.Length);
      var at := FindElem(n, e);
      r := if at.Some? then Some(buckets[n][at.value]) else None;
      OneChain(hash, less, buckets[..], e, r);
    }

    method Delete(e: E, ok: bool) returns (r: Option<E>)
      requires Valid()
      modifies this, buckets
      ensures Valid() && (buckets == old(buckets) || fresh(buckets))
      ensures (r, Held()) == SetStep(less, old(Held()), Op.Delete(e))
      ensures ok && r.Some? ==> buckets.Length == Ideal(elemCnt)
    {
      var n := Slot(hash, e, buckets.Length);
      var at := FindElem(n, e);
      r := if at.Some? then Some(buckets[n][at.value]) else None;
      OneChain(hash, less, buckets[..], e, r);
      if at.Some? {
        RemoveElem(n, at.value);
        Rehash(ok);
      }
    }

    method Do(op: Op<E>, ok: bool) returns (r: Option<E>)
      requires Valid()
      modifies this, buckets
      ensures Valid() && (buckets == old(buckets) || fresh(buckets))
      ensures (r, Held()) == SetStep(less, old(Held()), op)
    {
      match op
      case Insert(e) => r := Insert(e, ok);
      case Replace(e) => r := Replace(e, ok);
      case Find(e) => r := Find(e);
      case Delete(e) => r := Delete(e, ok);
    }

    /** Any run of operations answers just as a plain set would, whichever allocations fail. */
    method Run(ops: seq<Op<E>>, mallocs: seq<bool>) returns (rs: seq<Option<E>>)
      requires Valid() && |mallocs| == |ops|
      modifies this, buckets
      ensures Valid() && (rs, Held()) == SetRun(less, old(Held()), ops)
    {
      rs := [];
      var i := 0;
      while i < |ops|
        invariant i <= |ops| && Valid() && (buckets == old(buckets) || fresh(buckets))
        invariant (rs, Held()) == SetRun(less, old(Held()), ops[..i])
      {
        assert ops[..i + 1][..i] == ops[..i];
        var r := Do(ops[i], mallocs[i]);
        rs := rs + [r];
        i := i + 1;
      }
      assert ops[..i] == ops;
    }
  }

  // ----- iteration

  lemma {:induction false} ListingAt<E>(bs: seq<seq<E>>, b: nat, i: nat, n: nat)
    requires b < n <= |bs| && i < |bs[b]|
    ensures |Listing(bs, b)| + i < |Listing(bs, n)|
    ensures Listing(bs, n)[|Listing(bs, b)| + i] == bs[b][i]
  {
    if b + 1 < n { ListingAt(bs, b, i, n - 1); }
  }

  /** hash_init; memory says whether there is any for the first four buckets. */
  method HashInit<E(==, !new)>(hash: E -> nat, less: (E, E) -> bool, memory: bool) returns (h: Option<Hash<E>>)
    requires Consistent(hash, less)
    ensures h.Some? <==> memory
    ensures h.Some? ==> fresh(h.value) && fresh(h.value.buckets) && h.value.hash == hash && h.value.less == less
    ensures h.Some? ==> h.value.Valid() && h.value.Held() == {}
  {
    if !memory {
      return None;
    }
    var t := new Hash(hash, less);
    h := Some(t);
  }

  class HashIterator<E(==, !new)> {
    const table: Hash<E>
    var bucket: nat
    /** How many elements of the bucket have been visited. */
    var next: nat
    var ended: bool

    ghost predicate Valid()
      reads this, table, table.buckets
    {
      && table.Valid()
      && (!ended ==> bucket < table.buckets.Length && next <= |table.buckets[bucket]|)
    }

    /** How many elements of the table have been visited. */
    ghost function Visited(): nat
      requires Valid()
      reads this, table, table.buckets
    {
      var bs := table.buckets[..];
      if ended then |All(bs)| else |Listing(bs, bucket)| + next
    }

    /** hash_first */
    constructor (table: Hash<E>)
      requires table.Valid()
      ensures this.table == table && Valid() && !ended && Visited() == 0
    {
      this.table := table;
      bucket, next, ended := 0, 0, false;
    }

    method Next() returns (r: Option<E>)
      requires Valid() && !ended
      modifies this
      ensures Valid() && ended == r.None?
      ensures r.None? ==> old(Visited()) == |All(table.buckets[..])|
      ensures r.Some? ==>
        && old(Visited()) < |All(table.buckets[..])| && Visited() == old(Visited()) + 1
        && r.value == All(table.buckets[..])[old(Visited())]
    {
      ghost var bs := table.buckets[..];
      while next == |table.buckets[bucket]|
        invariant Valid() && !ended && Visited() == old(Visited())
        decreases table.buckets.Length - bucket
      {
        if bucket + 1 >= table.buckets.Length {
          ended := true;
          return None;
        }
        bucket, next := bucket + 1, 0;
      }
      ListingAt(bs, bucket, next, |bs|);
      r := Some(table.buckets[bucket][next]);
      next := next + 1;
    }
  }

  /** The iteration idiom visits every element of the table exactly once. */
  method VisitAll<E(==, !new)>(table: Hash<E>) returns (seen: seq<E>)
    requires table.Valid()
    ensures Elements(seen) == table.Held() && Distinct(seen) && |seen| == table.elemCnt
  {
    ghost var all := All(table.buckets[..]);
    ContentsSet(table.hash, table.less, table.buckets[..]);
    var i := new HashIterator(table);
    seen := [];
    var e := i.Next();
    while e.Some?
      invariant fresh(i) && i.table == table && i.Valid() && i.ended == e.None?
      invariant e.Some? ==> |seen| < |all| && i.Visited() == |seen| + 1 && e.value == all[|seen|]
      invariant e.None? ==> |seen| == |all|
      invariant |seen| <= |all| && seen == all[..|seen|]
      decreases |all| - |seen|
    {
      seen := seen + [e.value];
      e := i.Next();
    }
  }
}
