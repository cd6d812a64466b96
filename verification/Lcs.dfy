/** Longest common subsequences by the Hunt-McIlroy method, as Algorithm::Diff computes them. */
module Lcs {
  import opened Wrappers

  // ----- what is computed

  /** A matched pair of positions: i into a, j into b. */
  datatype Match = Match(i: nat, j: nat)

  /** c pairs equal keys and moves strictly forward in both sequences. */
  ghost predicate Common<K>(a: seq<K>, b: seq<K>, c: seq<Match>) {
    && (forall n :: 0 <= n < |c| ==> c[n].i < |a| && c[n].j < |b| && a[c[n].i] == b[c[n].j])
    && (forall m, n :: 0 <= m < n < |c| ==> c[m].i < c[n].i && c[m].j < c[n].j)
  }

  /** A region of rows of a and columns of b; the upper ends are exclusive. */
  datatype Region = Region(aLo: nat, aHi: nat, bLo: nat, bHi: nat)

  ghost predicate Inside(c: seq<Match>, g: Region) {
    forall n :: 0 <= n < |c| ==> g.aLo <= c[n].i < g.aHi && g.bLo <= c[n].j < g.bHi
  }

  ghost predicate CommonIn<K>(a: seq<K>, b: seq<K>, c: seq<Match>, g: Region) {
    Common(a, b, c) && Inside(c, g)
  }

  /** The result: where each matched position of a goes. */
  type MatchVector = map<nat, nat>

  ghost predicate IsMatchVector<K>(a: seq<K>, b: seq<K>, mv: MatchVector) {
    && (forall i :: i in mv ==> i < |a| && mv[i] < |b| && a[i] == b[mv[i]])
    && (forall i, k :: i in mv && k in mv && i < k ==> mv[i] < mv[k])
  }

  // ----- thresholds

  ghost predicate Increasing(t: seq<nat>) {
    forall m, n :: 0 <= m < n < |t| ==> t[m] < t[n]
  }

  /** No common subsequence of the region beats t: one of length n is possible only if n <= |t|, and it ends
      no earlier in b than t[n - 1]. */
  ghost predicate Complete<K>(a: seq<K>, b: seq<K>, g: Region, t: seq<nat>) {
    forall c: seq<Match> :: c != [] && CommonIn(a, b, c, g) ==> Covers(t, c)
  }

  /** A chain of matches, last one first, as the code links them. */
  datatype Link = End | Link(prev: Link, i: nat, j: nat)

  ghost function Pairs(l: Link): seq<Match> {
    match l
    case End => []
    case Link(p, i, j) => Pairs(p) + [Match(i, j)]
  }

  /** l spells out a common subsequence of length k + 1 that ends at column j. */
  ghost predicate Spells<K>(a: seq<K>, b: seq<K>, g: Region, l: Link, k: nat, j: nat) {
    |Pairs(l)| == k + 1 && Pairs(l)[k].j == j && CommonIn(a, b, Pairs(l), g)
  }

  /** Each threshold t[k] is attained by the chain links[k]. */
  ghost predicate Attained<K>(a: seq<K>, b: seq<K>, g: Region, t: seq<nat>, links: seq<Link>) {
    && |links| == |t|
    && (forall k {:trigger Spells(a, b, g, links[k], k, t[k])} :: 0 <= k < |t| ==> Spells(a, b, g, links[k], k, t[k]))
  }

  /** How many thresholds lie below v. */
  ghost function Place(t: seq<nat>, v: nat): (k: nat)
    requires Increasing(t)
    ensures k <= |t| && (forall n :: 0 <= n < k ==> t[n] < v) && (forall n :: k <= n < |t| ==> t[n] >= v)
  {
    if t == [] || t[|t| - 1] < v then |t| else Place(t[..|t| - 1], v)
  }

  lemma PlaceIs(t: seq<nat>, v: nat, k: nat)
    requires Increasing(t) && k <= |t|
    requires (forall n :: 0 <= n < k ==> t[n] < v) && (forall n :: k <= n < |t| ==> t[n] >= v)
    ensures Place(t, v) == k
  {
    var p := Place(t, v);
    if p < |t| { assert t[p] >= v; }
    if k < |t| { assert t[k] >= v; }
  }

  ghost function PutAt<T>(t: seq<T>, k: nat, v: T): seq<T>
    requires k <= |t|
  {
    if k == |t| then t + [v] else t[k := v]
  }

  // ----- one row

  /** t improves on t0, but is t0 still below bound. */
  ghost predicate Improves(t0: seq<nat>, t: seq<nat>, bound: nat) {
    && Increasing(t) && |t0| <= |t|
    && (forall k :: 0 <= k < |t0| ==> t[k] <= t0[k])
    && (forall k :: 0 <= k < |t| && t[k] < bound ==> k < |t0| && t[k] == t0[k])
  }

  /** t accounts for the common subsequence c. */
  ghost predicate Covers(t: seq<nat>, c: seq<Match>)
    requires c != []
  {
    |c| <= |t| && t[|c| - 1] <= c[|c| - 1].j
  }

  /** t accounts for everything that ends in the region's last row at a column from `bound` on. */
  ghost predicate RowCovered<K>(a: seq<K>, b: seq<K>, g: Region, t: seq<nat>, bound: nat) {
    forall c: seq<Match> :: c != [] && CommonIn(a, b, c, g) && c[|c| - 1].i + 1 == g.aHi && c[|c| - 1].j >= bound
                            ==> Covers(t, c)
  }

  ghost function RowBefore(g: Region): Region
    requires g.aLo < g.aHi
  {
    g.(aHi := g.aHi - 1)
  }

  /** Chains that end in row i at column j need only what was known before the row. */
  lemma ExtendsOld<K>(a: seq<K>, b: seq<K>, g: Region, t0: seq<nat>, c: seq<Match>)
    requires g.aLo < g.aHi && Complete(a, b, RowBefore(g), t0) && Increasing(t0)
    requires c != [] && CommonIn(a, b, c, g) && c[|c| - 1].i + 1 == g.aHi
    ensures |c| - 1 <= |t0| && forall k :: 0 <= k < |c| - 1 ==> t0[k] < c[|c| - 1].j
  {
    var d := c[..|c| - 1];
    if d != [] {
      assert CommonIn(a, b, d, RowBefore(g));
      assert d[|d| - 1] == c[|c| - 2];
    }
  }

  /** The thresholds after column j is entered: j replaces the first one that is not below it. */
  ghost function Entered(t: seq<nat>, j: nat): seq<nat>
    requires Increasing(t)
  {
    PutAt(t, Place(t, j), j)
  }

  lemma EnteredImproves(t0: seq<nat>, t: seq<nat>, bound: nat, j: nat)
    requires Improves(t0, t, bound) && Increasing(t0) && j < bound
    ensures Improves(t0, Entered(t, j), j)
    ensures |t| <= |Entered(t, j)| && forall k :: 0 <= k < |t| ==> Entered(t, j)[k] <= t[k]
  {
  }

  lemma EnteredCovers<K>(a: seq<K>, b: seq<K>, g: Region, t0: seq<nat>, t: seq<nat>, bound: nat, j: nat, c: seq<Match>)
    requires g.aLo < g.aHi && Complete(a, b, RowBefore(g), t0) && Increasing(t0)
    requires Improves(t0, t, bound) && RowCovered(a, b, g, t, bound) && j < bound
    requires forall p :: j < p < bound && g.bLo <= p < g.bHi && p < |b| && g.aHi <= |a| ==> a[g.aHi - 1] != b[p]
    requires c != [] && CommonIn(a, b, c, g) && c[|c| - 1].i + 1 == g.aHi && c[|c| - 1].j >= j
    ensures Covers(Entered(t, j), c)
  {
    EnteredImproves(t0, t, bound, j);
    if c[|c| - 1].j < bound {
      ExtendsOld(a, b, g, t0, c);
      var k := Place(t, j);
      assert Entered(t, j)[k] == j;
      assert |c| - 1 <= k;
    }
  }

  // ----- links

  /** links spells out t; what stands below `bound` does not use the region's last row yet. */
  ghost predicate LinksAt<K>(a: seq<K>, b: seq<K>, g: Region, t: seq<nat>, links: seq<Link>, bound: nat)
    requires g.aLo < g.aHi
  {
    && Attained(a, b, g, t, links)
    && (forall k {:trigger Pairs(links[k])} :: 0 <= k < |t| && t[k] < bound ==> Inside(Pairs(links[k]), RowBefore(g)))
  }

  ghost function LinkFor(links: seq<Link>, k: nat, i: nat, j: nat): Link
    requires k <= |links|
  {
    Link(if k == 0 then End else links[k - 1], i, j)
  }

  /** Prolonging the chain below column j by the match (i, j). */
  lemma LinkAttained<K>(a: seq<K>, b: seq<K>, g: Region, t: seq<nat>, links: seq<Link>, bound: nat, k: nat, j: nat)
    requires g.aLo < g.aHi <= |a| && LinksAt(a, b, g, t, links, bound) && j < bound
    requires g.bLo <= j < g.bHi && j < |b| && a[g.aHi - 1] == b[j]
    requires k <= |t| && (k > 0 ==> t[k - 1] < j)
    ensures Spells(a, b, g, LinkFor(links, k, g.aHi - 1, j), k, j)
  {
    if k > 0 {
      var d := Pairs(links[k - 1]);
      assert Spells(a, b, g, links[k - 1], k - 1, t[k - 1]) && Inside(d, RowBefore(g));
      assert forall n :: 0 <= n < k - 1 ==> d[n].j < d[k - 1].j;
    }
  }

  lemma PutAttained<K>(a: seq<K>, b: seq<K>, g: Region, t: seq<nat>, links: seq<Link>, k: nat, j: nat, link: Link)
    requires Attained(a, b, g, t, links) && k <= |t|
    requires Spells(a, b, g, link, k, j)
    ensures Attained(a, b, g, PutAt(t, k, j), PutAt(links, k, link))
  {
    var t', links' := PutAt(t, k, j), PutAt(links, k, link);
    forall m | 0 <= m < |t'| ensures Spells(a, b, g, links'[m], m, t'[m]) {
      if m != k { assert Spells(a, b, g, links[m], m, t[m]); }
    }
  }

  lemma EnteredLinks<K>(a: seq<K>, b: seq<K>, g: Region, t: seq<nat>, links: seq<Link>, bound: nat, j: nat)
    requires g.aLo < g.aHi <= |a| && Increasing(t) && LinksAt(a, b, g, t, links, bound) && j < bound
    requires g.bLo <= j < g.bHi && j < |b| && a[g.aHi - 1] == b[j]
    ensures var k := Place(t, j);
            var links' := if j in t then links else PutAt(links, k, LinkFor(links, k, g.aHi - 1, j));
            LinksAt(a, b, g, Entered(t, j), links', j)
  {
    var k := Place(t, j);
    if j in t {
      assert k < |t| && t[k] == j && Entered(t, j) == t;
    } else {
      LinkAttained(a, b, g, t, links, bound, k, j);
      PutAttained(a, b, g, t, links, k, j, LinkFor(links, k, g.aHi - 1, j));
      var t', links' := Entered(t, j), PutAt(links, k, LinkFor(links, k, g.aHi - 1, j));
      forall m | 0 <= m < |t'| && t'[m] < j ensures Inside(Pairs(links'[m]), RowBefore(g)) {
        assert m < k && t[m] == t'[m] && links[m] == links'[m];
      }
    }
  }

  // ----- a whole row

  /** State of a row that has dealt with all columns from `bound` on. */
  ghost predicate RowInv<K>(a: seq<K>, b: seq<K>, g: Region, t0: seq<nat>, t: seq<nat>, links: seq<Link>, bound: nat)
    requires g.aLo < g.aHi
  {
    Improves(t0, t, bound) && RowCovered(a, b, g, t, bound) && LinksAt(a, b, g, t, links, bound)
  }

  /** Everything known about rows aLo..aHi. */
  ghost predicate Solved<K>(a: seq<K>, b: seq<K>, g: Region, t: seq<nat>, links: seq<Link>) {
    Increasing(t) && Complete(a, b, g, t) && Attained(a, b, g, t, links)
  }

  lemma SolvedEmpty<K>(a: seq<K>, b: seq<K>, g: Region)
    requires g.aLo == g.aHi
    ensures Solved(a, b, g, [], [])
  {
    forall c: seq<Match> | Inside(c, g) ensures c == [] {
      if c != [] {
        InsideNonempty(c, g);
        assert false;
      }
    }
  }

  lemma InsideNonempty(c: seq<Match>, g: Region)
    requires c != [] && Inside(c, g)
    ensures g.aLo < g.aHi
  {
    assert g.aLo <= c[0].i < g.aHi;
  }

  lemma RowStart<K>(a: seq<K>, b: seq<K>, g: Region, t: seq<nat>, links: seq<Link>)
    requires g.aLo < g.aHi && Solved(a, b, RowBefore(g), t, links)
    ensures RowInv(a, b, g, t, t, links, g.bHi)
  {
    forall k | 0 <= k < |t| ensures Spells(a, b, g, links[k], k, t[k]) && Inside(Pairs(links[k]), RowBefore(g)) {
      assert Spells(a, b, RowBefore(g), links[k], k, t[k]);
    }
    assert forall c: seq<Match> :: c != [] && Inside(c, g) ==> c[|c| - 1].j < g.bHi;
  }

  lemma RowEnter<K>(a: seq<K>, b: seq<K>, g: Region, t0: seq<nat>, t: seq<nat>, links: seq<Link>, bound: nat, j: nat)
    requires g.aLo < g.aHi <= |a| && Increasing(t0) && Complete(a, b, RowBefore(g), t0)
    requires RowInv(a, b, g, t0, t, links, bound) && g.bLo <= j < g.bHi <= |b| && j < bound && a[g.aHi - 1] == b[j]
    requires forall p :: j < p < bound && g.bLo <= p < g.bHi ==> a[g.aHi - 1] != b[p]
    ensures var k := Place(t, j);
            RowInv(a, b, g, t0, Entered(t, j),
                   if j in t then links else PutAt(links, k, LinkFor(links, k, g.aHi - 1, j)), j)
  {
    EnteredImproves(t0, t, bound, j);
    EnteredLinks(a, b, g, t, links, bound, j);
    forall c: seq<Match> | c != [] && CommonIn(a, b, c, g) && c[|c| - 1].i + 1 == g.aHi && c[|c| - 1].j >= j
      ensures Covers(Entered(t, j), c)
    {
      EnteredCovers(a, b, g, t0, t, bound, j, c);
    }
  }

  lemma RowEnd<K>(a: seq<K>, b: seq<K>, g: Region, t0: seq<nat>, t: seq<nat>, links: seq<Link>, bound: nat)
    requires g.aLo < g.aHi <= |a| && g.bHi <= |b| && Complete(a, b, RowBefore(g), t0)
    requires RowInv(a, b, g, t0, t, links, bound)
    requires forall p :: g.bLo <= p < g.bHi && p < bound ==> a[g.aHi - 1] != b[p]
    ensures Solved(a, b, g, t, links)
  {
    forall c: seq<Match> | c != [] && CommonIn(a, b, c, g) ensures Covers(t, c) {
      if c[|c| - 1].i + 1 < g.aHi {
        assert forall n :: 0 <= n < |c| - 1 ==> c[n].i < c[|c| - 1].i;
        assert CommonIn(a, b, c, RowBefore(g));
        assert Covers(t0, c);
      }
    }
  }

  // ----- the code

  /** _replaceNextLargerWith: enters v and says where, or None when v was there already.  A positive hint is a
      place whose threshold is known to be above v. */
  method ReplaceNextLargerWith(t: seq<nat>, v: nat, hint: Option<nat>) returns (t': seq<nat>, r: Option<nat>)
    requires Increasing(t)
    requires hint.Some? && hint.value > 0 ==> hint.value < |t| && v < t[hint.value]
    ensures t' == Entered(t, v)
    ensures r == if v in t then None else Some(Place(t, v))
  {
    var high: int := if hint.None? || hint.value == 0 then |t| - 1 else hint.value;
    if high == -1 || v > t[|t| - 1] {
      PlaceIs(t, v, |t|);
      return t + [v], Some(high + 1);
    }
    var low: int := 0;
    while low <= high
      invariant 0 <= low <= high + 1 <= |t|
      invariant forall n :: 0 <= n < low ==> t[n] < v
      invariant forall n :: high < n < |t| ==> t[n] > v
      decreases high - low
    {
      var index := (high + low) / 2;
      var found := t[index];
      if v == found {
        PlaceIs(t, v, index);
        return t, None;
      } else if v > found {
        low := index + 1;
      } else {
        high := index - 1;
      }
    }
    PlaceIs(t, v, low);
    return t[low := v], Some(low);
  }

  /** ps lists exactly the places of `key` in b[start..end], last one first. */
  ghost predicate PositionsOf<K>(b: seq<K>, start: nat, end: nat, key: K, ps: seq<nat>)
    requires end <= |b|
  {
    && (forall m, n :: 0 <= m < n < |ps| ==> ps[m] > ps[n])
    && (forall p :: p in ps <==> start <= p < end && b[p] == key)
  }

  lemma PositionsGrow<K(!new)>(b: seq<K>, start: nat, index: nat, d: map<K, seq<nat>>)
    requires start <= index < |b|
    requires forall key :: key in d ==> PositionsOf(b, start, index, key, d[key])
    ensures forall key :: key in d && key != b[index] ==> PositionsOf(b, start, index + 1, key, d[key])
    ensures b[index] in d ==> PositionsOf(b, start, index + 1, b[index], [index] + d[b[index]])
    ensures b[index] !in d && (forall p :: start <= p < index ==> b[p] in d) ==>
              PositionsOf(b, start, index + 1, b[index], [index])
  {
    if b[index] in d {
      var ps := d[b[index]];
      assert PositionsOf(b, start, index, b[index], ps);
      assert forall p :: p in [index] + ps <==> p == index || p in ps;
      assert forall n :: 0 <= n < |ps| ==> ps[n] in ps;
    }
  }

  /** _withPositionsOfInInterval, with an exclusive end. */
  method WithPositionsOfInInterval<K(==, !new)>(b: seq<K>, start: nat, end: nat) returns (d: map<K, seq<nat>>)
    requires start <= end <= |b|
    ensures forall key :: key in d ==> PositionsOf(b, start, end, key, d[key])
    ensures forall p :: start <= p < end ==> b[p] in d
  {
    d := map[];
    var index := start;
    while index < end
      invariant start <= index <= end
      invariant forall key :: key in d ==> PositionsOf(b, start, index, key, d[key])
      invariant forall p :: start <= p < index ==> b[p] in d
    {
      var key := b[index];
      PositionsGrow(b, start, index, d);
      if key in d {
        d := d[key := [index] + d[key]];
      } else {
        d := d[key := [index]];
      }
      index := index + 1;
    }
  }

  /** The body of the inner loop: column j of row i, with k the place last written in this row. */
  method EnterColumn(t: seq<nat>, links: seq<Link>, i: nat, j: nat, k: Option<nat>)
    returns (t': seq<nat>, links': seq<Link>, k': Option<nat>)
    requires Increasing(t) && |links| == |t|
    requires k.Some? && k.value > 0 ==> k.value < |t| && j < t[k.value]
    ensures t' == Entered(t, j)
    ensures k' == if j in t then None else Some(Place(t, j))
    ensures links' == if j in t then links else PutAt(links, Place(t, j), LinkFor(links, Place(t, j), i, j))
  {
    if k.Some? && k.value > 0 && t[k.value] > j && t[k.value - 1] < j {
      PlaceIs(t, j, k.value);
      t', k' := t[k.value := j], k;
    } else {
      t', k' := ReplaceNextLargerWith(t, j, k);
    }
    links' := links;
    if k'.Some? {
      var link := Link(if k'.value == 0 then End else links[k'.value - 1], i, j);
      links' := if k'.value == |links| then links + [link] else links[k'.value := link];
    }
  }

  /** One turn of the outer loop: the matches of row i, rightmost first. */
  method EnterRow<K(==, !new)>(ghost a: seq<K>, ghost b: seq<K>, ghost g: Region, i: nat, ps: seq<nat>,
                               t0: seq<nat>, links0: seq<Link>)
    returns (t: seq<nat>, links: seq<Link>)
    requires g.aLo <= i < g.aHi == i + 1 <= |a| && g.bLo <= g.bHi <= |b|
    requires PositionsOf(b, g.bLo, g.bHi, a[i], ps)
    requires Solved(a, b, RowBefore(g), t0, links0)
    ensures Solved(a, b, g, t, links)
  {
    t, links := t0, links0;
    var k: Option<nat> := Some(0);
    RowStart(a, b, g, t, links);
    ghost var bound := g.bHi;
    for n := 0 to |ps|
      invariant bound == if n == 0 then g.bHi else ps[n - 1]
      invariant k.Some? && k.value > 0 ==> k.value < |t| && t[k.value] == bound
      invariant RowInv(a, b, g, t0, t, links, bound)
    {
      NextPosition(b, g.bLo, g.bHi, a[i], ps, n);
      RowEnter(a, b, g, t0, t, links, bound, ps[n]);
      t, links, k := EnterColumn(t, links, i, ps[n], k);
      bound := ps[n];
    }
    NextPosition(b, g.bLo, g.bHi, a[i], ps, |ps|);
    RowEnd(a, b, g, t0, t, links, bound);
  }

  /** The key's places to the left of ps[n - 1] are those at or to the left of ps[n]. */
  lemma NextPosition<K>(b: seq<K>, start: nat, end: nat, key: K, ps: seq<nat>, n: nat)
    requires start <= end <= |b| && PositionsOf(b, start, end, key, ps) && n <= |ps|
    ensures var bound := if n == 0 then end else ps[n - 1];
            && (n < |ps| ==> start <= ps[n] < end && ps[n] < bound && b[ps[n]] == key)
            && (forall p :: start <= p < bound && p < end && b[p] == key ==> n < |ps| && p <= ps[n])
  {
    var bound := if n == 0 then end else ps[n - 1];
    if n < |ps| { assert ps[n] in ps; }
    forall p | start <= p < bound && p < end && b[p] == key ensures n < |ps| && p <= ps[n] {
      assert p in ps;
      var m :| 0 <= m < |ps| && ps[m] == p;
      assert m >= n;
    }
  }

  // ----- pruning

  /** Strict growth bounds each position of a common subsequence from both sides. */
  lemma {:induction false} PositionBounds<K>(a: seq<K>, b: seq<K>, c: seq<Match>, n: nat)
    requires Common(a, b, c) && n < |c|
    ensures n <= c[n].i && n <= c[n].j
    ensures c[n].i + (|c| - n) <= |a| && c[n].j + (|c| - n) <= |b|
  {
    LowBound(a, b, c, n);
    HighBound(a, b, c, n);
  }

  lemma {:induction false} LowBound<K>(a: seq<K>, b: seq<K>, c: seq<Match>, n: nat)
    requires Common(a, b, c) && n < |c|
    ensures n <= c[n].i && n <= c[n].j
  {
    if n > 0 { LowBound(a, b, c, n - 1); }
  }

  lemma {:induction false} HighBound<K>(a: seq<K>, b: seq<K>, c: seq<Match>, n: nat)
    requires Common(a, b, c) && n < |c|
    ensures c[n].i + (|c| - n) <= |a| && c[n].j + (|c| - n) <= |b|
    decreases |c| - n
  {
    if n + 1 < |c| { HighBound(a, b, c, n + 1); }
  }

  /** At most p matches touch the first p positions and at most q the last q, so the middle decides. */
  lemma PrunedBound<K>(a: seq<K>, b: seq<K>, p: nat, q: nat, t: seq<nat>, c: seq<Match>)
    requires p + q <= |a| && p + q <= |b| && Complete(a, b, Region(p, |a| - q, p, |b| - q), t)
    requires Common(a, b, c)
    ensures |c| <= p + |t| + q
  {
    if |c| > p + q {
      var d := c[p..|c| - q];
      forall n | 0 <= n < |d| ensures p <= d[n].i < |a| - q && p <= d[n].j < |b| - q {
        PositionBounds(a, b, c, p + n);
      }
      assert CommonIn(a, b, d, Region(p, |a| - q, p, |b| - q));
    }
  }

  // ----- match vectors

  /** What the last loop writes: the matches of l on top of mv. */
  ghost function Fill(mv: MatchVector, l: Link): MatchVector
    decreases l
  {
    match l
    case End => mv
    case Link(p, i, j) => Fill(mv[i := j], p)
  }

  /** Every entry of mv lies wholly before or wholly after every match of c. */
  ghost predicate Around(mv: MatchVector, c: seq<Match>) {
    forall x, n :: x in mv && 0 <= n < |c| ==>
      (x < c[n].i && mv[x] < c[n].j) || (c[n].i < x && c[n].j < mv[x])
  }

  lemma {:induction false} FillCorrect<K>(a: seq<K>, b: seq<K>, mv: MatchVector, l: Link)
    requires IsMatchVector(a, b, mv) && Common(a, b, Pairs(l)) && Around(mv, Pairs(l))
    ensures IsMatchVector(a, b, Fill(mv, l)) && |Fill(mv, l)| == |mv| + |Pairs(l)|
    decreases l
  {
    match l
    case End =>
    case Link(p, i, j) =>
      var c := Pairs(l);
      var m := |c| - 1;
      assert c[m] == Match(i, j) && forall n :: 0 <= n < m ==> c[n] == Pairs(p)[n];
      assert i !in mv;
      FillCorrect(a, b, mv[i := j], p);
  }

  lemma LargestKey(mv: MatchVector) returns (x: nat)
    requires mv != map[]
    ensures x in mv && forall y :: y in mv ==> y <= x
    decreases |mv|
  {
    x :| x in mv;
    var rest := mv - {x};
    if rest != map[] {
      assert rest.Keys == mv.Keys - {x};
      var y := LargestKey(rest);
      assert forall z :: z in mv && z != x ==> z in rest;
      if y > x { x := y; }
    } else {
      forall y | y in mv ensures y == x {
        assert y != x ==> y in rest;
      }
    }
  }

  lemma VectorLess<K>(a: seq<K>, b: seq<K>, mv: MatchVector, x: nat)
    requires IsMatchVector(a, b, mv) && x in mv
    ensures IsMatchVector(a, b, mv - {x}) && |mv - {x}| == |mv| - 1
  {
    assert (mv - {x}).Keys == mv.Keys - {x};
  }

  lemma CommonMore<K>(a: seq<K>, b: seq<K>, c: seq<Match>, m: Match)
    requires Common(a, b, c) && Common(a, b, [m]) && forall n :: 0 <= n < |c| ==> c[n].i < m.i && c[n].j < m.j
    ensures Common(a, b, c + [m])
  {
  }

  /** A match vector is a common subsequence read off by position. */
  lemma {:induction false} VectorSpells<K>(a: seq<K>, b: seq<K>, mv: MatchVector) returns (c: seq<Match>)
    requires IsMatchVector(a, b, mv)
    ensures Common(a, b, c) && |c| == |mv|
    ensures forall n :: 0 <= n < |c| ==> c[n].i in mv && c[n].j == mv[c[n].i]
    decreases |mv|
  {
    c := [];
    if mv != map[] {
      var x := LargestKey(mv);
      VectorLess(a, b, mv, x);
      var d := VectorSpells(a, b, mv - {x});
      CommonMore(a, b, d, Match(x, mv[x]));
      c := d + [Match(x, mv[x])];
    }
  }

  /** n is the length of a longest common subsequence. */
  ghost predicate IsLcsLength<K>(a: seq<K>, b: seq<K>, n: nat) {
    (exists c: seq<Match> :: Common(a, b, c) && |c| == n) && (forall c: seq<Match> :: Common(a, b, c) ==> |c| <= n)
  }

  /** The largest common subsequence is at least as long as any match vector. */
  lemma LcsBoundsVectors<K>(a: seq<K>, b: seq<K>, n: nat, mv: MatchVector)
    requires IsLcsLength(a, b, n) && IsMatchVector(a, b, mv)
    ensures |mv| <= n
  {
    var c := VectorSpells(a, b, mv);
  }

  /** The matches found by pruning: the diagonal of the common prefix of length p and of the common suffix of
      length q. */
  ghost predicate Pruned<K>(a: seq<K>, b: seq<K>, p: nat, q: nat, mv: MatchVector) {
    && p + q <= |a| && p + q <= |b|
    && (forall i :: 0 <= i < p ==> a[i] == b[i])
    && (forall i :: |a| - q <= i < |a| ==> a[i] == b[i - |a| + |b|])
    && |mv| == p + q && (forall i: nat :: i in mv <==> i < p || |a| - q <= i < |a|)
    && (forall i :: i in mv ==> mv[i] == if i < p then i else i - |a| + |b|)
  }

  lemma PrunedVector<K>(a: seq<K>, b: seq<K>, p: nat, q: nat, mv: MatchVector, t: seq<nat>, links: seq<Link>)
    requires Pruned(a, b, p, q, mv) && t != [] && Attained(a, b, Region(p, |a| - q, p, |b| - q), t, links)
    ensures IsMatchVector(a, b, mv)
    ensures IsMatchVector(a, b, Fill(mv, links[|t| - 1])) && |Fill(mv, links[|t| - 1])| == p + q + |t|
  {
    var k := |t| - 1;
    assert Spells(a, b, Region(p, |a| - q, p, |b| - q), links[k], k, t[k]);
    FillCorrect(a, b, mv, links[k]);
  }

  /** A pruned match vector completed by a complete and attained middle is optimal. */
  lemma LcsFound<K>(a: seq<K>, b: seq<K>, p: nat, q: nat, mv: MatchVector, t: seq<nat>, links: seq<Link>)
    requires Pruned(a, b, p, q, mv) && Solved(a, b, Region(p, |a| - q, p, |b| - q), t, links)
    ensures IsLcsLength(a, b, p + q + |t|)
  {
    if t == [] {
      var c := VectorSpells(a, b, mv);
    } else {
      PrunedVector(a, b, p, q, mv, t, links);
      var c := VectorSpells(a, b, Fill(mv, links[|t| - 1]));
    }
    forall c: seq<Match> | Common(a, b, c) ensures |c| <= p + q + |t| {
      PrunedBound(a, b, p, q, t, c);
    }
  }

  /** Matches off the common prefix and suffix. */
  method Prune<K(==)>(a: seq<K>, b: seq<K>)
    returns (aStart: nat, aFinish: int, bStart: nat, bFinish: int, mv: MatchVector, prunedCount: nat, ghost q: nat)
    ensures Pruned(a, b, aStart, q, mv) && prunedCount == aStart + q
    ensures bStart == aStart && aFinish == |a| - q - 1 && bFinish == |b| - q - 1
  {
    aStart, aFinish, bStart, bFinish := 0, |a| - 1, 0, |b| - 1;
    mv, prunedCount, q := map[], 0, 0;
    while aStart <= aFinish && bStart <= bFinish && a[aStart] == b[bStart]
      invariant Pruned(a, b, aStart, 0, mv) && prunedCount == aStart == bStart
      decreases aFinish - aStart
    {
      mv := mv[aStart := bStart];
      aStart, bStart, prunedCount := aStart + 1, bStart + 1, prunedCount + 1;
    }
    while aStart <= aFinish && bStart <= bFinish && a[aFinish] == b[bFinish]
      invariant Pruned(a, b, aStart, q, mv) && prunedCount == aStart + q && bStart == aStart
      invariant aFinish == |a| - q - 1 && bFinish == |b| - q - 1
      decreases aFinish - aStart
    {
      mv := mv[aFinish := bFinish];
      aFinish, bFinish, prunedCount, q := aFinish - 1, bFinish - 1, prunedCount + 1, q + 1;
    }
  }

  /** The two nested loops over the rows of a and their matching columns in b. */
  method MatchRows<K(==, !new)>(a: seq<K>, aStart: nat, aFinish: int, bMatches: map<K, seq<nat>>,
                                ghost b: seq<K>, ghost bLo: nat, ghost bHi: nat)
    returns (t: seq<nat>, links: seq<Link>)
    requires aStart <= aFinish + 1 <= |a| && bLo <= bHi <= |b|
    requires forall key :: key in bMatches ==> PositionsOf(b, bLo, bHi, key, bMatches[key])
    requires forall p :: bLo <= p < bHi ==> b[p] in bMatches
    ensures Solved(a, b, Region(aStart, aFinish + 1, bLo, bHi), t, links)
  {
    t, links := [], [];
    var i := aStart;
    SolvedEmpty(a, b, Region(aStart, i, bLo, bHi));
    while i <= aFinish
      invariant aStart <= i <= aFinish + 1
      invariant Solved(a, b, Region(aStart, i, bLo, bHi), t, links)
    {
      ghost var g := Region(aStart, i + 1, bLo, bHi);
      assert RowBefore(g) == Region(aStart, i, bLo, bHi);
      if a[i] in bMatches {
        t, links := EnterRow(a, b, g, i, bMatches[a[i]], t, links);
      } else {
        RowStart(a, b, g, t, links);
        RowEnd(a, b, g, t, t, links, bHi);
      }
      i := i + 1;
    }
  }

  /** The loop that writes a chain of links into the match vector. */
  method FillVector(mv: MatchVector, chain: Link) returns (r: MatchVector)
    ensures r == Fill(mv, chain)
  {
    r := mv;
    var link := chain;
    while link != End
      invariant Fill(r, link) == Fill(mv, chain)
      decreases link
    {
      r := r[link.i := link.j];
      link := link.prev;
    }
  }

  datatype Answer = Count(n: nat) | Vector(mv: MatchVector)

  /** _longestCommonSubsequence on two arrays of keys. */
  method LongestCommonSubsequence<K(==, !new)>(a: seq<K>, b: seq<K>, counting: bool) returns (r: Answer)
    ensures counting ==> r.Count? && IsLcsLength(a, b, r.n)
    ensures !counting ==> r.Vector? && IsMatchVector(a, b, r.mv) && IsLcsLength(a, b, |r.mv|)
  {
    var aStart, aFinish, bStart, bFinish, matchVector, prunedCount, q := Prune(a, b);
    var bMatches := WithPositionsOfInInterval(b, bStart, bFinish + 1);
    var thresh, links := MatchRows(a, aStart, aFinish, bMatches, b, bStart, bFinish + 1);
    LcsFound(a, b, aStart, q, matchVector, thresh, links);
    if thresh != [] {
      if counting { return Count(prunedCount + |thresh|); }
      PrunedVector(a, b, aStart, q, matchVector, thresh, links);
      matchVector := FillVector(matchVector, links[|thresh| - 1]);
    } else if counting {
      return Count(prunedCount);
    }
    return Vector(matchVector);
  }
}
