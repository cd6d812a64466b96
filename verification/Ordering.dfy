/** Orders given by a `less` callback, and what sorting with one promises. */
module Ordering {

  /** `less` is a strict weak order on S: asymmetric, and "not less" is transitive. */
  ghost predicate StrictWeakOrder<T>(less: (T, T) -> bool, S: set<T>) {
    && (forall a, b {:trigger less(a, b)} :: a in S && b in S && less(a, b) ==> !less(b, a))
    && (forall a, b, c {:trigger less(a, c), less(a, b)} {:trigger less(a, c), less(b, c)} ::
          a in S && b in S && c in S && less(a, c) ==> less(a, b) || less(b, c))
  }

  ghost predicate Equivalent<T>(less: (T, T) -> bool, a: T, b: T) {
    !less(a, b) && !less(b, a)
  }

  ghost function Elements<T>(s: seq<T>): set<T> {
    set x | x in s
  }

  /** s with s[i..j] cut out. */
  ghost function Without<T>(s: seq<T>, i: nat, j: nat): seq<T>
    requires i <= j <= |s|
  {
    s[..i] + s[j..]
  }

  ghost predicate Distinct<T>(s: seq<T>) {
    forall i, j :: 0 <= i < j < |s| ==> s[i] != s[j]
  }

  ghost predicate Sorted<T>(less: (T, T) -> bool, s: seq<T>) {
    forall i, j {:trigger less(s[j], s[i])} :: 0 <= i < j < |s| ==> !less(s[j], s[i])
  }

  /** Position of x in s; unique when s is distinct. */
  ghost function IndexOf<T>(s: seq<T>, x: T): (i: nat)
    requires x in s
    ensures i < |s| && s[i] == x
  {
    var i :| 0 <= i < |s| && s[i] == x; i
  }

  /** Equivalent elements of s stand in the order they have in s0. */
  ghost predicate KeepsTies<T>(less: (T, T) -> bool, s0: seq<T>, s: seq<T>) {
    forall i, j {:trigger Equivalent(less, s[i], s[j])} ::
      0 <= i < j < |s| && s[i] in s0 && s[j] in s0 && Equivalent(less, s[i], s[j])
      ==> IndexOf(s0, s[i]) < IndexOf(s0, s[j])
  }

  /** s is a stable sort of s0. */
  ghost predicate StableSortOf<T>(less: (T, T) -> bool, s0: seq<T>, s: seq<T>) {
    multiset(s) == multiset(s0) && Sorted(less, s) && KeepsTies(less, s0, s)
  }

  /** A position where a new maximal run starts. */
  ghost predicate DescentAt<T>(less: (T, T) -> bool, s: seq<T>, i: int) {
    0 < i < |s| && less(s[i], s[i - 1])
  }

  /** Number of descents; a nonempty s splits into Descents + 1 maximal runs. */
  ghost function Descents<T>(less: (T, T) -> bool, s: seq<T>): nat {
    if |s| < 2 then 0
    else Descents(less, s[..|s| - 1]) + if DescentAt(less, s, |s| - 1) then 1 else 0
  }

  ghost function Runs<T>(less: (T, T) -> bool, s: seq<T>): nat {
    if s == [] then 0 else Descents(less, s) + 1
  }

  lemma {:induction false} DescentsOfSorted<T>(less: (T, T) -> bool, s: seq<T>)
    requires Sorted(less, s)
    ensures Descents(less, s) == 0
  {
    if |s| >= 2 {
      DescentsOfSorted(less, s[..|s| - 1]);
    }
  }

  /** Descents add up over a concatenation, plus the one at the seam. */
  lemma {:induction false} DescentsConcat<T>(less: (T, T) -> bool, s: seq<T>, t: seq<T>)
    ensures Descents(less, s + t) == Descents(less, s) + Descents(less, t)
                                     + if s != [] && DescentAt(less, s + t, |s|) then 1 else 0
  {
    if t == [] {
      assert s + t == s;
    } else {
      DescentsConcat(less, s, t[..|t| - 1]);
      assert (s + t)[..|s + t| - 1] == s + t[..|t| - 1];
      if |t| == 1 {
        assert s + t[..0] == s;
      }
    }
  }

  /** No descent means sorted, when `less` is a strict weak order. */
  lemma {:induction false} NoDescentsSorted<T>(less: (T, T) -> bool, s: seq<T>)
    requires StrictWeakOrder(less, Elements(s)) && Descents(less, s) == 0
    ensures Sorted(less, s)
  {
    if |s| >= 2 {
      var t := s[..|s| - 1];
      assert forall x :: x in t ==> x in s;
      assert forall x :: x in Elements(t) ==> x in Elements(s);
      NoDescentsSorted(less, t);
      var n := |s| - 1;
      forall i | 0 <= i < n ensures !less(s[n], s[i]) {
        assert s[i] in Elements(s) && s[n - 1] in Elements(s) && s[n] in Elements(s);
        if i < n - 1 { assert !less(t[n - 1], t[i]); }
      }
    }
  }

  /** A stable sort is unique: every two stable sorts of s0 agree. */
  lemma {:induction false} StableSortUnique<T>(less: (T, T) -> bool, s0: seq<T>, s: seq<T>, t: seq<T>)
    requires StableSortOf(less, s0, s) && StableSortOf(less, s0, t)
    ensures s == t
  {
    SameOrder(less, s0, s, t);
  }

  lemma HeadsAgree<T>(less: (T, T) -> bool, s0: seq<T>, s: seq<T>, t: seq<T>, i: nat, j: nat)
    requires Sorted(less, s) && Sorted(less, t)
    requires KeepsTies(less, s0, s) && KeepsTies(less, s0, t)
    requires i < |t| && j < |s| && t[i] == s[0] && s[j] == t[0]
    requires s[0] in s0 && t[0] in s0
    ensures s[0] == t[0]
  {
    if i > 0 && j > 0 && Equivalent(less, s[0], s[j]) && Equivalent(less, t[0], t[i]) {
      assert false;
    }
  }

  lemma TailStaysSorted<T>(less: (T, T) -> bool, s0: seq<T>, s: seq<T>)
    requires s != [] && Sorted(less, s) && KeepsTies(less, s0, s)
    ensures Sorted(less, s[1..]) && KeepsTies(less, s0, s[1..])
    ensures multiset(s[1..]) == multiset(s) - multiset{s[0]}
  {
    assert s == [s[0]] + s[1..];
  }

  lemma {:induction false} SameOrder<T>(less: (T, T) -> bool, s0: seq<T>, s: seq<T>, t: seq<T>)
    requires multiset(s) == multiset(t) <= multiset(s0)
    requires Sorted(less, s) && Sorted(less, t)
    requires KeepsTies(less, s0, s) && KeepsTies(less, s0, t)
    ensures s == t
  {
    assert |s| == |multiset(s)| && |t| == |multiset(t)|;
    if s != [] {
      assert s[0] in multiset(s) && t[0] in multiset(t);
      var i :| 0 <= i < |t| && t[i] == s[0];
      var j :| 0 <= j < |s| && s[j] == t[0];
      HeadsAgree(less, s0, s, t, i, j);
      TailStaysSorted(less, s0, s);
      TailStaysSorted(less, s0, t);
      SameOrder(less, s0, s[1..], t[1..]);
      assert s == [s[0]] + s[1..] && t == [t[0]] + t[1..];
    }
  }

  ghost predicate SortedRange<T>(less: (T, T) -> bool, s: seq<T>, a: nat, b: nat) {
    b <= |s| && forall i, j {:trigger less(s[j], s[i])} :: a <= i < j < b ==> !less(s[j], s[i])
  }
}
