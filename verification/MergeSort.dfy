/** The natural merge sort of list_sort as functions on sequences, and its correctness. */
module MergeSort {
  import opened Ordering

  /** End (exclusive) of the run of s that starts at p. */
  ghost function EndOfRun<T>(less: (T, T) -> bool, s: seq<T>, p: nat): (q: nat)
    requires p < |s|
    ensures p < q <= |s|
    decreases |s| - p
  {
    if p + 1 < |s| && !less(s[p + 1], s[p]) then EndOfRun(less, s, p + 1) else p + 1
  }

  /** s with s[q] moved in front of s[p]. */
  ghost function MovedBack<T>(s: seq<T>, p: nat, q: nat): (t: seq<T>)
    requires p <= q < |s|
    ensures |t| == |s| && t[p] == s[q]
    ensures forall i :: 0 <= i < p || q < i < |s| ==> t[i] == s[i]
    ensures forall i :: p < i <= q ==> t[i] == s[i - 1]
  {
    seq(|s|, i requires 0 <= i < |s| => if i < p || q < i then s[i] else if i == p then s[q] else s[i - 1])
  }

  /** inplace_merge from a state where s[p..q] and s[q..hi] are still to be merged. */
  ghost function Merge<T>(less: (T, T) -> bool, s: seq<T>, p: nat, q: nat, hi: nat): (t: seq<T>)
    requires p <= q <= hi <= |s|
    ensures |t| == |s|
    decreases hi - p
  {
    if p == q || q == hi then s
    else if !less(s[q], s[p]) then Merge(less, s, p + 1, q, hi)
    else Merge(less, MovedBack(s, p, q), p + 1, q + 1, hi)
  }

  /** The rest of a pass of list_sort that has reached p after m output runs. */
  ghost function Pass<T>(less: (T, T) -> bool, s: seq<T>, p: nat, m: nat): (r: (seq<T>, nat))
    requires p <= |s|
    ensures |r.0| == |s|
    decreases |s| - p
  {
    if p == |s| then (s, m)
    else
      var q := EndOfRun(less, s, p);
      if q == |s| then (s, m + 1)
      else
        var r := EndOfRun(less, s, q);
        Pass(less, Merge(less, s, p, q, r), r, m + 1)
  }

  /** Halfway through merging s[lo..] with a later run: s[lo..p] is final, s[p..q] and s[q..hi] are the
      unmerged rests of the two runs. */
  ghost predicate Merging<T>(less: (T, T) -> bool, s: seq<T>, lo: nat, p: nat, q: nat, hi: nat) {
    && lo <= p <= q <= hi <= |s|
    && SortedRange(less, s, lo, p) && SortedRange(less, s, p, q) && SortedRange(less, s, q, hi)
    && forall i, j {:trigger less(s[j], s[i])} :: lo <= i < p <= j < hi ==> !less(s[j], s[i])
  }

  lemma MovedBackPermutes<T>(s: seq<T>, p: nat, q: nat)
    requires p <= q < |s|
    ensures multiset(MovedBack(s, p, q)) == multiset(s)
  {
    assert s == s[..p] + s[p..q] + [s[q]] + s[q + 1..];
    assert MovedBack(s, p, q) == s[..p] + [s[q]] + s[p..q] + s[q + 1..];
  }

  /** The branch of inplace_merge that keeps the front of the first run. */
  lemma MergeAdvance<T>(less: (T, T) -> bool, s: seq<T>, lo: nat, p: nat, q: nat, hi: nat)
    requires StrictWeakOrder(less, Elements(s)) && Merging(less, s, lo, p, q, hi)
    requires p < q < hi && !less(s[q], s[p])
    ensures Merging(less, s, lo, p + 1, q, hi)
  {
    assert s[p] in Elements(s) && s[q] in Elements(s);
    forall j | p < j < hi ensures !less(s[j], s[p]) {
      assert s[j] in Elements(s);
    }
  }

  /** The branch that moves the front of the second run ahead: it passes only strictly greater elements. */
  lemma MergeMove<T>(less: (T, T) -> bool, s: seq<T>, lo: nat, p: nat, q: nat, hi: nat)
    requires StrictWeakOrder(less, Elements(s)) && Merging(less, s, lo, p, q, hi)
    requires p < q < hi && less(s[q], s[p])
    ensures Merging(less, MovedBack(s, p, q), lo, p + 1, q + 1, hi)
    ensures forall i :: p <= i < q ==> less(s[q], s[i]) && !less(s[i], s[q])
  {
    assert s[p] in Elements(s) && s[q] in Elements(s);
    forall i | p <= i < q ensures less(s[q], s[i]) && !less(s[i], s[q]) {
      assert s[i] in Elements(s);
    }
    var t := MovedBack(s, p, q);
    forall j | p < j < hi ensures !less(t[j], t[p]) {
      assert j > q ==> t[j] == s[j];
    }
    assert forall i, j :: lo <= i < p <= j < hi ==> !less(t[j], t[i]);
  }

  lemma MoveKeepsTies<T>(less: (T, T) -> bool, s0: seq<T>, s: seq<T>, p: nat, q: nat)
    requires p <= q < |s| && KeepsTies(less, s0, s)
    requires forall i :: p <= i < q ==> less(s[q], s[i])
    ensures KeepsTies(less, s0, MovedBack(s, p, q))
  {
    var t := MovedBack(s, p, q);
    forall i, j | 0 <= i < j < |t| && t[i] in s0 && t[j] in s0 && Equivalent(less, t[i], t[j])
      ensures IndexOf(s0, t[i]) < IndexOf(s0, t[j])
    {
      var i' := if i < p || i > q then i else if i == p then q else i - 1;
      var j' := if j < p || j > q then j else if j == p then q else j - 1;
      assert t[i] == s[i'] && t[j] == s[j'];
      assert i' < j';
    }
  }

  lemma MergeDone<T>(less: (T, T) -> bool, s: seq<T>, lo: nat, p: nat, q: nat, hi: nat)
    requires Merging(less, s, lo, p, q, hi) && (p == q || q == hi)
    ensures SortedRange(less, s, lo, hi)
  {
  }

  /** Growing a prefix by one sorted stretch adds a descent only at the seam. */
  lemma DescentsGrow<T>(less: (T, T) -> bool, s: seq<T>, p: nat, r: nat)
    requires p < r <= |s| && SortedRange(less, s, p, r)
    ensures Descents(less, s[..r]) == Descents(less, s[..p]) + if DescentAt(less, s, p) then 1 else 0
  {
    assert s[..p] + s[p..r] == s[..r];
    DescentsOfSorted(less, s[p..r]);
    DescentsConcat(less, s[..p], s[p..r]);
  }

  /** Where a pass stands after m output runs: the first p elements held 2m input runs and now hold
      at most m. */
  ghost predicate PassAt<T>(less: (T, T) -> bool, before: seq<T>, now: seq<T>, p: nat, m: nat) {
    && p <= |before| == |now| && now[p..] == before[p..]
    && (p == 0 <==> m == 0)
    && (p > 0 ==> Descents(less, before[..p]) + 1 == 2 * m && Descents(less, now[..p]) + 1 <= m)
    && (0 < p < |before| ==> DescentAt(less, before, p))
  }

  /** One iteration of a pass: input runs [p..q] and [q..r] became one output run. */
  lemma PassStep<T>(less: (T, T) -> bool, before: seq<T>, now: seq<T>, p: nat, q: nat, r: nat, m: nat)
    requires p < q < r <= |before| == |now|
    requires p == 0 <==> m == 0
    requires p > 0 ==> Descents(less, before[..p]) + 1 == 2 * m && Descents(less, now[..p]) + 1 <= m
    requires p > 0 ==> DescentAt(less, before, p)
    requires SortedRange(less, before, p, q) && DescentAt(less, before, q) && SortedRange(less, before, q, r)
    requires r < |before| ==> DescentAt(less, before, r)
    requires SortedRange(less, now, p, r) && now[r..] == before[r..]
    ensures PassAt(less, before, now, r, m + 1)
  {
    DescentsGrow(less, before, p, q);
    DescentsGrow(less, before, q, r);
    DescentsGrow(less, now, p, r);
  }

  /** The pass runs out: on the end of the list, or on one last unpaired run [p..]. */
  lemma PassEnd<T>(less: (T, T) -> bool, before: seq<T>, now: seq<T>, p: nat, m: nat)
    requires PassAt(less, before, now, p, m) && SortedRange(less, before, p, |before|)
    ensures var m' := if p < |before| then m + 1 else m;
            m' == (Runs(less, before) + 1) / 2 && Runs(less, now) <= m'
  {
    assert before[..|before|] == before && now[..|now|] == now;
    if p < |before| {
      forall i | p <= i < |now| ensures now[i] == before[i] {
        assert now[p..][i - p] == before[p..][i - p];
      }
      DescentsGrow(less, before, p, |before|);
      DescentsGrow(less, now, p, |before|);
    }
  }

  lemma {:induction false} EndOfRunSorted<T>(less: (T, T) -> bool, s: seq<T>, p: nat)
    requires p < |s| && StrictWeakOrder(less, Elements(s))
    ensures SortedRange(less, s, p, EndOfRun(less, s, p))
    ensures EndOfRun(less, s, p) < |s| ==> DescentAt(less, s, EndOfRun(less, s, p))
    decreases |s| - p
  {
    if p + 1 < |s| && !less(s[p + 1], s[p]) {
      EndOfRunSorted(less, s, p + 1);
      var q := EndOfRun(less, s, p);
      forall j | p < j < q ensures !less(s[j], s[p]) {
        assert s[j] in Elements(s) && s[p] in Elements(s) && s[p + 1] in Elements(s);
      }
    }
  }

  /** `now` rearranges before[lo..hi] only, without reordering elements that tie. */
  ghost predicate Rearranged<T>(less: (T, T) -> bool, s0: seq<T>, before: seq<T>, now: seq<T>, lo: nat, hi: nat) {
    && lo <= hi <= |before| == |now| && multiset(now) == multiset(before)
    && now[..lo] == before[..lo] && now[hi..] == before[hi..]
    && KeepsTies(less, s0, now)
  }

  lemma MoveRearranges<T>(less: (T, T) -> bool, s0: seq<T>, s: seq<T>, lo: nat, p: nat, q: nat, hi: nat)
    requires KeepsTies(less, s0, s) && lo <= p < q < hi <= |s|
    requires forall i :: p <= i < q ==> less(s[q], s[i])
    ensures Rearranged(less, s0, s, MovedBack(s, p, q), lo, hi)
  {
    MoveKeepsTies(less, s0, s, p, q);
    MovedBackPermutes(s, p, q);
    var t := MovedBack(s, p, q);
    assert t[..lo] == s[..lo] && t[hi..] == s[hi..];
  }

  /** inplace_merge sorts the merged range, is stable, and touches nothing outside it. */
  lemma {:induction false} MergeCorrect<T>(less: (T, T) -> bool, s0: seq<T>, s: seq<T>,
                                           lo: nat, p: nat, q: nat, hi: nat)
    requires Merging(less, s, lo, p, q, hi) && StrictWeakOrder(less, Elements(s)) && KeepsTies(less, s0, s)
    ensures SortedRange(less, Merge(less, s, p, q, hi), lo, hi)
    ensures Rearranged(less, s0, s, Merge(less, s, p, q, hi), lo, hi)
    decreases hi - p
  {
    if p == q || q == hi {
      MergeDone(less, s, lo, p, q, hi);
    } else if !less(s[q], s[p]) {
      MergeAdvance(less, s, lo, p, q, hi);
      MergeCorrect(less, s0, s, lo, p + 1, q, hi);
    } else {
      MergeMove(less, s, lo, p, q, hi);
      MoveRearranges(less, s0, s, lo, p, q, hi);
      SameElements(MovedBack(s, p, q), s);
      MergeCorrect(less, s0, MovedBack(s, p, q), lo, p + 1, q + 1, hi);
    }
  }

  lemma SameElements<T>(s: seq<T>, t: seq<T>)
    requires multiset(s) == multiset(t)
    ensures Elements(s) == Elements(t)
  {
    forall x ensures x in s <==> x in t {
      assert x in multiset(s) <==> x in multiset(t);
    }
  }

  lemma AgreeFrom<T>(s: seq<T>, t: seq<T>, p: nat)
    requires p <= |s| == |t| && s[p..] == t[p..]
    ensures forall i :: p <= i < |s| ==> s[i] == t[i]
    ensures forall r :: p <= r <= |s| ==> s[r..] == t[r..]
  {
    forall i | p <= i < |s| ensures s[i] == t[i] {
      assert s[p..][i - p] == t[p..][i - p];
    }
  }

  /** What a pass keeps: run counts, the element set, and the order of ties. */
  ghost predicate PassInv<T>(less: (T, T) -> bool, s0: seq<T>, before: seq<T>, now: seq<T>, p: nat, m: nat) {
    && PassAt(less, before, now, p, m) && StrictWeakOrder(less, Elements(now)) && KeepsTies(less, s0, now)
  }

  lemma PassKeeps<T>(less: (T, T) -> bool, s0: seq<T>, before: seq<T>, now: seq<T>, p: nat, q: nat, r: nat, m: nat)
    requires PassInv(less, s0, before, now, p, m) && p < q < r <= |now|
    requires q == EndOfRun(less, now, p) && r == EndOfRun(less, now, q)
    ensures PassInv(less, s0, before, Merge(less, now, p, q, r), r, m + 1)
    ensures multiset(Merge(less, now, p, q, r)) == multiset(now)
  {
    AgreeFrom(before, now, p);
    EndOfRunSorted(less, now, p);
    EndOfRunSorted(less, now, q);
    MergeCorrect(less, s0, now, p, p, q, r);
    SameElements(Merge(less, now, p, q, r), now);
    PassStep(less, before, Merge(less, now, p, q, r), p, q, r, m);
  }

  /** What a finished pass promises about its result t and run count cnt. */
  ghost predicate PassResult<T>(less: (T, T) -> bool, s0: seq<T>, before: seq<T>, now: seq<T>, t: seq<T>, cnt: nat) {
    && multiset(t) == multiset(now) && KeepsTies(less, s0, t)
    && cnt == (Runs(less, before) + 1) / 2 && Runs(less, t) <= cnt
  }

  lemma PassLast<T>(less: (T, T) -> bool, s0: seq<T>, before: seq<T>, now: seq<T>, p: nat, m: nat)
    requires PassInv(less, s0, before, now, p, m)
    requires p < |now| ==> EndOfRun(less, now, p) == |now|
    ensures PassResult(less, s0, before, now, now, if p < |now| then m + 1 else m)
  {
    AgreeFrom(before, now, p);
    if p < |now| {
      EndOfRunSorted(less, now, p);
    }
    PassEnd(less, before, now, p, m);
  }

  /** A pass over r runs outputs ceil(r / 2) runs, permutes the list and is stable. */
  lemma {:induction false} PassCorrect<T>(less: (T, T) -> bool, s0: seq<T>, before: seq<T>, now: seq<T>,
                                          p: nat, m: nat)
    requires PassInv(less, s0, before, now, p, m)
    ensures PassResult(less, s0, before, now, Pass(less, now, p, m).0, Pass(less, now, p, m).1)
    decreases |now| - p
  {
    if p == |now| || EndOfRun(less, now, p) == |now| {
      PassLast(less, s0, before, now, p, m);
    } else {
      var q := EndOfRun(less, now, p);
      var r := EndOfRun(less, now, q);
      PassKeeps(less, s0, before, now, p, q, r, m);
      PassCorrect(less, s0, before, Merge(less, now, p, q, r), r, m + 1);
    }
  }
}
