/** What list_unique keeps and drops, as functions on sequences. */
module Deduplication {
  import opened Ordering

  /** list_unique from position i on, with `dropped` removed so far: the final list and all it drops. */
  ghost function Dedup<T>(less: (T, T) -> bool, s: seq<T>, i: nat, dropped: seq<T>): (seq<T>, seq<T>)
    requires i < |s|
    decreases |s| - i
  {
    if i + 1 == |s| then (s, dropped)
    else if Equivalent(less, s[i], s[i + 1]) then
      Dedup(less, Without(s, i + 1, i + 2), i, dropped + [s[i + 1]])
    else Dedup(less, s, i + 1, dropped)
  }

  /** The first element of each group of adjacent equivalent elements. */
  ghost function GroupFirsts<T>(less: (T, T) -> bool, s: seq<T>): seq<T> {
    if |s| < 2 then s
    else GroupFirsts(less, s[..|s| - 1])
         + if Equivalent(less, s[|s| - 2], s[|s| - 1]) then [] else [s[|s| - 1]]
  }

  /** All the others, in list order. */
  ghost function GroupRests<T>(less: (T, T) -> bool, s: seq<T>): seq<T> {
    if |s| < 2 then []
    else GroupRests(less, s[..|s| - 1])
         + if Equivalent(less, s[|s| - 2], s[|s| - 1]) then [s[|s| - 1]] else []
  }

  lemma {:induction false} FirstsEndEquivalent<T>(less: (T, T) -> bool, s: seq<T>)
    requires s != [] && StrictWeakOrder(less, Elements(s))
    ensures var f := GroupFirsts(less, s); f != [] && f[|f| - 1] in s && Equivalent(less, f[|f| - 1], s[|s| - 1])
  {
    var n := |s| - 1;
    assert s[n] in Elements(s);
    if n > 0 {
      var t := s[..n];
      assert forall x :: x in Elements(t) ==> x in Elements(s);
      FirstsEndEquivalent(less, t);
      var f := GroupFirsts(less, t);
      assert f[|f| - 1] in Elements(s) && s[n - 1] in Elements(s);
    }
  }

  /** Whether orig[k] starts a new group can be read off the last element kept before it. */
  lemma GroupTest<T>(less: (T, T) -> bool, orig: seq<T>, k: nat)
    requires 0 < k < |orig| && StrictWeakOrder(less, Elements(orig))
    ensures var f := GroupFirsts(less, orig[..k]);
            f != [] && (Equivalent(less, f[|f| - 1], orig[k]) <==> Equivalent(less, orig[k - 1], orig[k]))
  {
    var prefix := orig[..k];
    assert forall x :: x in Elements(prefix) ==> x in Elements(orig);
    FirstsEndEquivalent(less, prefix);
    var f := GroupFirsts(less, prefix);
    assert f[|f| - 1] in Elements(orig) && orig[k - 1] in Elements(orig) && orig[k] in Elements(orig);
  }

  lemma GroupsGrow<T>(less: (T, T) -> bool, orig: seq<T>, k: nat)
    requires 0 < k < |orig|
    ensures GroupFirsts(less, orig[..k + 1])
         == GroupFirsts(less, orig[..k]) + if Equivalent(less, orig[k - 1], orig[k]) then [] else [orig[k]]
    ensures GroupRests(less, orig[..k + 1])
         == GroupRests(less, orig[..k]) + if Equivalent(less, orig[k - 1], orig[k]) then [orig[k]] else []
  {
    assert orig[..k + 1][..k] == orig[..k];
  }

  /** list_unique keeps exactly the first of each group and drops the rest, in order. */
  lemma {:induction false} DedupKeepsFirsts<T>(less: (T, T) -> bool, orig: seq<T>, k: nat, kept: seq<T>)
    requires 0 < k <= |orig| && StrictWeakOrder(less, Elements(orig))
    requires kept == GroupFirsts(less, orig[..k]) && kept != []
    ensures Dedup(less, kept + orig[k..], |kept| - 1, GroupRests(less, orig[..k]))
         == (GroupFirsts(less, orig), GroupRests(less, orig))
    decreases |orig| - k
  {
    var s := kept + orig[k..];
    var i := |kept| - 1;
    if k == |orig| {
      assert s == kept && orig[..k] == orig;
    } else {
      GroupTest(less, orig, k);
      GroupsGrow(less, orig, k);
      assert orig[k..] == [orig[k]] + orig[k + 1..];
      assert s[i] == kept[i] && s[i + 1] == orig[k];
      if Equivalent(less, s[i], s[i + 1]) {
        assert Without(s, i + 1, i + 2) == kept + orig[k + 1..];
        DedupKeepsFirsts(less, orig, k + 1, kept);
      } else {
        assert s == (kept + [orig[k]]) + orig[k + 1..];
        assert GroupRests(less, orig[..k + 1]) == GroupRests(less, orig[..k]);
        DedupKeepsFirsts(less, orig, k + 1, kept + [orig[k]]);
      }
    }
  }

  lemma DedupCorrect<T>(less: (T, T) -> bool, s: seq<T>)
    requires s != [] && StrictWeakOrder(less, Elements(s))
    ensures Dedup(less, s, 0, []) == (GroupFirsts(less, s), GroupRests(less, s))
  {
    DedupKeepsFirsts(less, s, 1, s[..1]);
    assert s[..1] + s[1..] == s;
  }
}
