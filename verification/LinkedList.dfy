/** The intrusive doubly linked list and its in-place natural merge sort (list.c). */
module LinkedList {
  import opened Merging

  /** struct list_elem; the data lies in the structure around it, so an order is a function on elements. */
  class Elem {
    var prev: Elem?
    var next: Elem?

    constructor ()
      ensures prev == null && next == null
    {
      prev, next := null, null;
    }
  }

  /** C, from the head to the tail, is a properly linked list. */
  ghost predicate Linked(c: seq<Elem>)
    reads c
  {
    && |c| >= 2
    && (forall i, j :: 0 <= i < j < |c| ==> c[i] != c[j])
    && c[0].prev == null && c[|c| - 1].next == null
    && (forall i {:trigger c[i].next} :: 0 <= i < |c| - 1 ==> c[i].next == c[i + 1])
    && (forall i {:trigger c[i].prev} :: 1 <= i < |c| ==> c[i].prev == c[i - 1])
  }

  /** C with the elements F..L (exclusive) moved in front of position P, which lies outside of them. */
  ghost function Moved<T>(c: seq<T>, p: nat, f: nat, l: nat): (r: seq<T>)
    requires f <= l <= |c| && p <= |c| && (p <= f || l <= p)
    ensures |r| == |c|
  {
    if p <= f then c[..p] + c[f..l] + c[p..f] + c[l..]
    else c[..f] + c[l..p] + c[f..l] + c[p..]
  }

  /** list_insert */
  method Insert(before: Elem, elem: Elem, ghost c: seq<Elem>, ghost p: nat)
    requires Linked(c) && 1 <= p < |c| && c[p] == before && elem !in c
    modifies c, elem
    ensures Linked(c[..p] + [elem] + c[p..])
  {
    elem.prev := before.prev;
    elem.next := before;
    before.prev.next := elem;
    before.prev := elem;
  }

  /** list_remove */
  method Remove(elem: Elem, ghost c: seq<Elem>, ghost p: nat) returns (next: Elem)
    requires Linked(c) && 1 <= p < |c| - 1 && c[p] == elem
    modifies c
    ensures Linked(c[..p] + c[p + 1..]) && next == c[p + 1]
    ensures elem.prev == old(elem.prev) && elem.next == old(elem.next)
  {
    elem.prev.next := elem.next;
    elem.next.prev := elem.prev;
    next := elem.next;
  }

  /** A stretch of elements linked to each other; where its ends point does not matter. */
  ghost predicate Strand(r: seq<Elem>)
    reads r
  {
    && (forall i, j :: 0 <= i < j < |r| ==> r[i] != r[j])
    && (forall i {:trigger r[i].next} :: 0 <= i < |r| - 1 ==> r[i].next == r[i + 1])
    && (forall i {:trigger r[i].prev} :: 1 <= i < |r| ==> r[i].prev == r[i - 1])
  }

  /** The first half of list_splice: take FIRST..FINAL (inclusive) out of its list. */
  method Unlink(first: Elem, final: Elem, ghost c: seq<Elem>, ghost f: nat, ghost l: nat)
    requires Linked(c) && 1 <= f < l < |c| && c[f] == first && c[l - 1] == final
    modifies c
    ensures Linked(c[..f] + c[l..]) && Strand(c[f..l])
  {
    first.prev.next := final.next;
    final.next.prev := first.prev;
  }

  /** The second half of list_splice: link a strand in before BEFORE. */
  method LinkIn(before: Elem, first: Elem, final: Elem, ghost c: seq<Elem>, ghost p: nat, ghost r: seq<Elem>)
    requires Linked(c) && 1 <= p < |c| && c[p] == before && Strand(r) && |r| >= 1 && r[0] == first
    requires r[|r| - 1] == final
    requires forall i, j :: 0 <= i < |c| && 0 <= j < |r| ==> c[i] != r[j]
    modifies c, r
    ensures Linked(c[..p] + r + c[p..])
  {
    first.prev := before.prev;
    final.next := before;
    before.prev.next := first;
    before.prev := final;
  }

  /** The lists have no element in common. */
  ghost predicate Disjoint<T>(c: seq<T>, d: seq<T>) {
    forall i, j :: 0 <= i < |c| && 0 <= j < |d| ==> c[i] != d[j]
  }

  /** list_splice: the elements F..L of list C go to position Q of list REST, which is what remains of C or another
      list. */
  method Splice(before: Elem, first: Elem, last: Elem, ghost c: seq<Elem>, ghost f: nat, ghost l: nat,
                ghost rest: seq<Elem>, ghost q: nat)
    requires Linked(c) && 1 <= f <= l < |c| && c[f] == first && c[l] == last
    requires rest == c[..f] + c[l..] || (Linked(rest) && Disjoint(rest, c))
    requires 1 <= q < |rest| && rest[q] == before
    modifies c, rest
    ensures Linked(rest[..q] + c[f..l] + rest[q..])
    ensures rest != c[..f] + c[l..] ==> Linked(c[..f] + c[l..])
  {
    hide Strand;
    if first == last {
      assert c[..f] + c[l..] == c && rest[..q] + c[f..l] + rest[q..] == rest;
      return;
    }
    var final := last.prev;
    ghost var strand := c[f..l];
    Apart(c, f, l);
    Within(c, f, l);
    Unlink(first, final, c, f, l);
    LinkIn(before, first, final, rest, q, strand);
  }

  lemma MovedIs<T>(c: seq<T>, p: nat, f: nat, l: nat)
    requires f <= l <= |c| && p <= |c| && (p < f || l <= p)
    ensures var rest, q := c[..f] + c[l..], if p < f then p else p - (l - f);
            Moved(c, p, f, l) == rest[..q] + c[f..l] + rest[q..]
  {
    var rest := c[..f] + c[l..];
    if p < f {
      assert rest[..p] == c[..p];
      assert rest[p..] == c[p..f] + c[l..];
    } else {
      var q := p - (l - f);
      assert rest[..q] == c[..f] + c[l..p];
      assert rest[q..] == c[p..];
    }
  }

  lemma Apart<T>(c: seq<T>, f: nat, l: nat)
    requires f <= l <= |c| && forall i, j :: 0 <= i < j < |c| ==> c[i] != c[j]
    ensures forall i, j :: 0 <= i < |c| - (l - f) && 0 <= j < l - f ==> (c[..f] + c[l..])[i] != c[f..l][j]
  {
  }

  lemma Within<T>(c: seq<T>, f: nat, l: nat)
    requires f <= l <= |c|
    ensures forall x :: x in c[..f] + c[l..] || x in c[f..l] ==> x in c
  {
  }

  /** find_end_of_run: the maximal run that starts at A. */
  method FindEndOfRun(start: Elem, b: Elem, less: (Elem, Elem) -> bool, ghost c: seq<Elem>, ghost i: nat, ghost k: nat)
    returns (a: Elem, ghost e: nat)
    requires Linked(c) && 1 <= i < k < |c| && c[i] == start && c[k] == b
    ensures i < e <= k && c[e] == a && Run(less, c[i..e])
    ensures e < k ==> less(c[e], c[e - 1])
  {
    a, e := start.next, i + 1;
    while a != b && !less(a, a.prev)
      invariant i < e <= k && c[e] == a && Run(less, c[i..e])
      decreases k - e
    {
      assert c[i..e + 1] == c[i..e] + [c[e]];
      a, e := a.next, e + 1;
    }
  }

  lemma MergeStep(less: (Elem, Elem) -> bool, d: seq<Elem>, i: nat, a: nat, n: nat, b: nat)
    requires i <= a < n < b <= |d|
    ensures !less(d[n], d[a]) ==>
      d[i..a] + Merge(less, d[a..n], d[n..b]) == d[i..a + 1] + Merge(less, d[a + 1..n], d[n..b])
    ensures less(d[n], d[a]) ==>
      var d' := Moved(d, a, n, n + 1);
      && d[i..a] + Merge(less, d[a..n], d[n..b]) == d'[i..a + 1] + Merge(less, d'[a + 1..n + 1], d'[n + 1..b])
      && d'[a + 1] == d[a] && d'[n + 1..] == d[n + 1..] && d'[..a] == d[..a]
  {
    hide Moved;
    var xs, ys := d[a..n], d[n..b];
    if !less(d[n], d[a]) {
      assert xs[1..] == d[a + 1..n];
      assert d[i..a + 1] == d[i..a] + [d[a]];
    } else {
      assert ys[1..] == d[n + 1..b];
      MovedParts(d, i, a, n, b);
    }
  }

  lemma MovedParts<T>(d: seq<T>, i: nat, a: nat, n: nat, b: nat)
    requires i <= a < n < b <= |d|
    ensures var d' := Moved(d, a, n, n + 1);
            && d'[..a] == d[..a] && d'[n + 1..] == d[n + 1..] && d'[a + 1] == d[a]
            && d'[i..a + 1] == d[i..a] + [d[n]] && d'[a + 1..n + 1] == d[a..n] && d'[n + 1..b] == d[n + 1..b]
  {
    var d' := Moved(d, a, n, n + 1);
    var p, m, r := d[..a], d[a..n], d[n + 1..];
    assert d[n..n + 1] == [d[n]];
    assert d' == p + [d[n]] + m + r;
    assert d'[..a] == p && d'[a] == d[n] && d'[a + 1..n + 1] == m && d'[n + 1..] == r;
    assert d'[i..a] == d'[..a][i..] == d[i..a];
    assert d'[i..a + 1] == d'[i..a] + [d'[a]];
    assert d'[n + 1..b] == r[..b - n - 1] == d[n + 1..b];
    assert d'[a + 1] == m[0];
  }

  lemma MovedMembers<T>(c: seq<T>, p: nat, f: nat, l: nat)
    requires f <= l <= |c| && p <= |c| && (p <= f || l <= p)
    ensures forall k :: 0 <= k < |c| ==> Moved(c, p, f, l)[k] in c
  {
    var r := Moved(c, p, f, l);
    forall k | 0 <= k < |r|
      ensures r[k] in c
    {
    }
  }

  lemma Neighbours(c: seq<Elem>, i: nat)
    requires Linked(c) && i < |c|
    ensures i + 1 < |c| ==> c[i].next == c[i + 1]
    ensures i > 0 ==> c[i].prev == c[i - 1]
    ensures forall j :: 0 <= j < |c| && c[j] == c[i] ==> j == i
  {
  }

  /** What is left to do when A0 stands at A and A1B0 at N, and what is already in place. */
  ghost predicate MergeState(less: (Elem, Elem) -> bool, c: seq<Elem>, i: nat, b: nat, target: seq<Elem>, d: seq<Elem>,
                             a: nat, n: nat) {
    && |d| == |c| && i <= a <= n <= b < |c|
    && d[..i] == c[..i] && d[b..] == c[b..] && (forall k :: 0 <= k < |d| ==> d[k] in c)
    && d[i..a] + Merge(less, d[a..n], d[n..b]) == target
  }

  lemma MergeAdvance(less: (Elem, Elem) -> bool, c: seq<Elem>, i: nat, b: nat, target: seq<Elem>, d: seq<Elem>, a: nat,
                     n: nat)
    requires MergeState(less, c, i, b, target, d, a, n) && a < n < b
    ensures !less(d[n], d[a]) ==> MergeState(less, c, i, b, target, d, a + 1, n)
    ensures less(d[n], d[a]) ==> MergeState(less, c, i, b, target, Moved(d, a, n, n + 1), a + 1, n + 1)
    ensures less(d[n], d[a]) ==>
      var d' := Moved(d, a, n, n + 1); d'[a + 1] == d[a] && d'[n + 1] == d[n + 1] && d'[b] == d[b]
  {
    hide Moved, Merge;
    MergeStep(less, d, i, a, n, b);
    if less(d[n], d[a]) {
      MovedEnds(d, i, a, n, b);
      MovedMembers(d, a, n, n + 1);
    }
  }

  /** One round of the loop of inplace_merge. */
  method MergeRound(x: Elem, y: Elem, less: (Elem, Elem) -> bool, ghost c: seq<Elem>, ghost i: nat, ghost b: nat,
                    ghost target: seq<Elem>, ghost d: seq<Elem>, ghost a: nat, ghost n: nat)
    returns (a0: Elem, a1b0: Elem, ghost d': seq<Elem>, ghost a': nat, ghost n': nat)
    requires Linked(d) && 1 <= i && MergeState(less, c, i, b, target, d, a, n)
    requires 1 <= a < n < b < |d| && d[a] == x && d[n] == y
    modifies d
    ensures Linked(d') && MergeState(less, c, i, b, target, d', a', n') && a' == a + 1
    ensures a' <= n' <= b < |d'| == |d| && d'[a'] == a0 && d'[n'] == a1b0 && d'[b] == d[b]
  {
    hide *;
    Neighbours(d, a);
    Neighbours(d, n);
    Neighbours(d, n + 1);
    MergeAdvance(less, c, i, b, target, d, a, n);
    if !less(y, x) {
      a0, a1b0, d', a', n' := x.next, y, d, a + 1, n;
    } else {
      a0, a1b0 := x, y.next;
      ghost var rest := d[..n] + d[n + 1..];
      MovedIs(d, a, n, n + 1);
      Within(d, n, n + 1);
      Splice(a0, a1b0.prev, a1b0, d, n, n + 1, rest, a);
      d', a', n' := Moved(d, a, n, n + 1), a + 1, n + 1;
    }
  }

  /** inplace_merge: the two adjacent ranges become their stable merge, by splicing alone. */
  method InplaceMerge(first: Elem, middle: Elem, b1: Elem, less: (Elem, Elem) -> bool,
                      ghost c: seq<Elem>, ghost i: nat, ghost m: nat, ghost b: nat)
    returns (ghost d: seq<Elem>)
    requires Linked(c) && 1 <= i <= m <= b < |c| && c[i] == first && c[m] == middle && c[b] == b1
    modifies c
    ensures Linked(d) && d == c[..i] + Merge(less, c[i..m], c[m..b]) + c[b..]
    ensures |d| == |c| && forall k :: 0 <= k < |d| ==> d[k] in c
  {
    hide *;
    var a0, a1b0 := first, middle;
    ghost var a, n := i, m;
    d := c;
    ghost var target := Merge(less, c[i..m], c[m..b]);
    MergeStart(less, c, i, m, b);
    while a0 != a1b0 && a1b0 != b1
      invariant Linked(d) && |d| == |c| && i <= a <= n <= b && d[a] == a0 && d[n] == a1b0 && d[b] == b1
      invariant MergeState(less, c, i, b, target, d, a, n)
      invariant forall k :: 0 <= k < |d| ==> d[k] in c
      decreases b - a
    {
      a0, a1b0, d, a, n := MergeRound(a0, a1b0, less, c, i, b, target, d, a, n);
      MergeMembers(less, c, i, b, target, d, a, n);
    }
    Neighbours(d, n);
    MergeEnd(less, c, i, b, target, d, a, n);
  }

  lemma MergeStart(less: (Elem, Elem) -> bool, c: seq<Elem>, i: nat, m: nat, b: nat)
    requires i <= m <= b < |c|
    ensures MergeState(less, c, i, b, Merge(less, c[i..m], c[m..b]), c, i, m)
  {
    assert c[i..i] == [];
  }

  lemma MergeMembers(less: (Elem, Elem) -> bool, c: seq<Elem>, i: nat, b: nat, target: seq<Elem>, d: seq<Elem>, a: nat,
                     n: nat)
    requires MergeState(less, c, i, b, target, d, a, n)
    ensures |d| == |c| && i <= a <= n <= b && forall k :: 0 <= k < |d| ==> d[k] in c
  {
  }

  lemma MergeEnd(less: (Elem, Elem) -> bool, c: seq<Elem>, i: nat, b: nat, target: seq<Elem>, d: seq<Elem>, a: nat,
                 n: nat)
    requires MergeState(less, c, i, b, target, d, a, n) && (a == n || n == b)
    ensures d == c[..i] + target + c[b..]
  {
    MergeDone(less, d, i, a, n, b);
    assert d == d[..i] + d[i..b] + d[b..];
  }

  lemma MovedEnds(d: seq<Elem>, i: nat, a: nat, n: nat, b: nat)
    requires i <= a < n < b < |d|
    ensures var d' := Moved(d, a, n, n + 1);
            d'[..i] == d[..i] && d'[b..] == d[b..] && d'[n + 1] == d[n + 1] && d'[b] == d[b]
  {
  }

  lemma MergeDone(less: (Elem, Elem) -> bool, d: seq<Elem>, i: nat, a: nat, n: nat, b: nat)
    requires i <= a <= n <= b <= |d| && (a == n || n == b)
    ensures d[i..a] + Merge(less, d[a..n], d[n..b]) == d[i..b]
  {
  }

  // ---- sorting ----------------------------------------------------------------------------

  /** The elements between head and tail. */
  ghost function Inner<T>(c: seq<T>): seq<T>
    requires |c| >= 2
  {
    c[1..|c| - 1]
  }

  /** Two maximal runs at X..E1 and E1..E2 account for two runs of the rest of the list. */
  lemma TwoRuns(less: (Elem, Elem) -> bool, d: seq<Elem>, x: nat, e1: nat, e2: nat, z: nat)
    requires 1 <= x < e1 < e2 <= z < |d|
    requires Run(less, d[x..e1]) && Run(less, d[e1..e2]) && less(d[e1], d[e1 - 1])
    requires (e2 < z ==> less(d[e2], d[e2 - 1]))
    ensures Runs(less, d[x..z]) == 2 + Runs(less, d[e2..z])
  {
    hide Runs, Run;
    var xs, ys, q := d[x..e1], d[e1..e2], d[e2..z];
    Cut(d, x, e1, e2, z);
    assert xs[|xs| - 1] == d[e1 - 1] && (ys + q)[0] == d[e1];
    assert ys[|ys| - 1] == d[e2 - 1] && (e2 < z ==> q[0] == d[e2]);
    OneRun(less, xs);
    OneRun(less, ys);
    RunsConcat(less, ys, q);
    RunsConcat(less, xs, ys + q);
  }

  lemma Cut<T>(d: seq<T>, x: nat, e1: nat, e2: nat, z: nat)
    requires x <= e1 <= e2 <= z <= |d|
    ensures d[x..z] == d[x..e1] + (d[e1..e2] + d[e2..z])
  {
    assert d[e1..z] == d[e1..e2] + d[e2..z];
    assert d[x..z] == d[x..e1] + d[e1..z];
  }

  /** The merged range adds one run to the part already passed. */
  lemma PassedRuns(less: (Elem, Elem) -> bool, p: seq<Elem>, m: seq<Elem>)
    requires Run(less, m)
    ensures Runs(less, p + m) <= Runs(less, p) + 1
  {
    OneRun(less, m);
    RunsConcat(less, p, m);
  }

  lemma InnerOver(d: seq<Elem>, dom: set<Elem>, x: nat, e1: nat, e2: nat)
    requires 1 <= x <= e1 <= e2 < |d| && Over(Inner(d), dom)
    ensures Over(d[x..e1], dom) && Over(d[e1..e2], dom)
  {
    assert forall i :: x <= i < e2 ==> d[i] == Inner(d)[i - 1];
  }

  lemma InnerParts(d: seq<Elem>, x: nat, e1: nat, e2: nat)
    requires 1 <= x <= e1 <= e2 < |d|
    ensures Inner(d) == d[1..x] + (d[x..e1] + d[e1..e2]) + d[e2..|d| - 1]
  {
    assert d[x..e1] + d[e1..e2] == d[x..e2];
  }

  lemma InnerPatched(d: seq<Elem>, x: nat, e2: nat, m: seq<Elem>, d': seq<Elem>)
    requires 1 <= x <= e2 < |d| && |m| == e2 - x && d' == d[..x] + m + d[e2..]
    ensures |d'| == |d| && d'[1..e2] == d[1..x] + m && d'[e2..] == d[e2..]
    ensures Inner(d') == d[1..x] + m + d[e2..|d| - 1]
  {
    assert d'[1..x] == d[1..x] && d'[x..e2] == m && d'[e2..|d| - 1] == d[e2..|d| - 1];
    assert d'[1..e2] == d'[1..x] + d'[x..e2];
    assert Inner(d') == d'[1..e2] + d'[e2..|d| - 1];
  }

  /** One merge of a pass. */
  lemma PassStep(less: (Elem, Elem) -> bool, dom: set<Elem>, d: seq<Elem>, x: nat, e1: nat, e2: nat, d': seq<Elem>)
    requires StrictWeak(less, dom) && 1 <= x <= e1 <= e2 < |d| && Over(Inner(d), dom)
    requires Run(less, d[x..e1]) && Run(less, d[e1..e2])
    requires d' == d[..x] + Merge(less, d[x..e1], d[e1..e2]) + d[e2..]
    ensures |d'| == |d| && d'[e2..] == d[e2..] && d'[0] == d[0] && d'[|d| - 1] == d[|d| - 1]
    ensures Runs(less, d'[1..e2]) <= Runs(less, d[1..x]) + 1
    ensures Stable(less, Inner(d), Inner(d')) && Over(Inner(d'), dom)
  {
    hide Stable, Runs, Merge, StrictWeak, Inner;
    var xs, ys, p, q := d[x..e1], d[e1..e2], d[1..x], d[e2..|d| - 1];
    InnerOver(d, dom, x, e1, e2);
    var m := Merge(less, xs, ys);
    MergeRuns(less, dom, xs, ys);
    PassedRuns(less, p, m);
    InnerParts(d, x, e1, e2);
    InnerPatched(d, x, e2, m, d');
    MergeInside(less, dom, p, xs, ys, q);
    StableOver(less, dom, Inner(d), Inner(d'));
  }

  lemma StableOver(less: (Elem, Elem) -> bool, dom: set<Elem>, s: seq<Elem>, t: seq<Elem>)
    requires Stable(less, s, t) && Over(s, dom)
    ensures Over(t, dom)
  {
    forall i | 0 <= i < |t|
      ensures t[i] in dom
    {
      assert t[i] in multiset(t);
      assert t[i] in multiset(s);
    }
  }

  /** State of a pass: the part before X has at most CNT runs, the rest has all but 2 * CNT of the R0 there were. */
  ghost predicate PassState(less: (Elem, Elem) -> bool, dom: set<Elem>, c: seq<Elem>, d: seq<Elem>, x: nat, cnt: nat) {
    && |d| == |c| >= 2 && d[0] == c[0] && d[|d| - 1] == c[|c| - 1] && 1 <= x <= |d| - 1
    && (forall k :: 0 <= k < |d| ==> d[k] in c)
    && Over(Inner(d), dom) && Stable(less, Inner(c), Inner(d))
    && Runs(less, d[1..x]) <= cnt && Runs(less, d[x..|d| - 1]) + 2 * cnt == Runs(less, Inner(c))
  }

  lemma PassAdvance(less: (Elem, Elem) -> bool, dom: set<Elem>, c: seq<Elem>, d: seq<Elem>, x: nat, cnt: nat, e1: nat,
                    e2: nat, d': seq<Elem>)
    requires StrictWeak(less, dom) && PassState(less, dom, c, d, x, cnt) && x < e1 < e2 <= |d| - 1
    requires Run(less, d[x..e1]) && Run(less, d[e1..e2]) && less(d[e1], d[e1 - 1])
    requires (e2 < |d| - 1 ==> less(d[e2], d[e2 - 1]))
    requires d' == d[..x] + Merge(less, d[x..e1], d[e1..e2]) + d[e2..] && forall k :: 0 <= k < |d'| ==> d'[k] in d
    ensures PassState(less, dom, c, d', e2, cnt + 1) && d'[e2] == d[e2]
  {
    hide Stable, Runs, Merge, Run, StrictWeak;
    PassStep(less, dom, d, x, e1, e2, d');
    TwoRuns(less, d, x, e1, e2, |d| - 1);
    assert d'[e2..|d| - 1] == d[e2..|d| - 1] by {
      assert d'[e2..][..|d| - 1 - e2] == d[e2..][..|d| - 1 - e2];
    }
    assert d'[e2] == d[e2] by { assert d'[e2..][0] == d[e2..][0]; }
    StableTrans(less, Inner(c), Inner(d), Inner(d'));
  }

  /** A pass that stops with a single run left over. */
  lemma PassLast(less: (Elem, Elem) -> bool, dom: set<Elem>, c: seq<Elem>, d: seq<Elem>, x: nat, cnt: nat)
    requires PassState(less, dom, c, d, x, cnt) && x < |d| - 1 && Run(less, d[x..|d| - 1])
    ensures Runs(less, Inner(c)) == 2 * cnt + 1 && Runs(less, Inner(d)) <= cnt + 1
  {
    OneRun(less, d[x..|d| - 1]);
    PassedRuns(less, d[1..x], d[x..|d| - 1]);
    assert Inner(d) == d[1..x] + d[x..|d| - 1];
  }

  lemma PassAll(less: (Elem, Elem) -> bool, dom: set<Elem>, c: seq<Elem>, d: seq<Elem>, cnt: nat)
    requires |d| >= 2 && PassState(less, dom, c, d, |d| - 1, cnt)
    ensures Runs(less, Inner(c)) == 2 * cnt && Runs(less, Inner(d)) <= cnt
  {
  }

  lemma PassFacts(less: (Elem, Elem) -> bool, dom: set<Elem>, c: seq<Elem>, d: seq<Elem>, x: nat, cnt: nat)
    requires PassState(less, dom, c, d, x, cnt)
    ensures |d| == |c| >= 2 && 1 <= x <= |d| - 1 && d[0] == c[0] && d[|d| - 1] == c[|c| - 1]
    ensures forall k :: 0 <= k < |d| ==> d[k] in c
    ensures Over(Inner(d), dom) && Stable(less, Inner(c), Inner(d))
  {
  }

  lemma PassStart(less: (Elem, Elem) -> bool, dom: set<Elem>, c: seq<Elem>)
    requires Linked(c) && Over(Inner(c), dom)
    ensures PassState(less, dom, c, c, 1, 0)
  {
    StableRefl(less, Inner(c));
  }

  /** One pass of list_sort: adjacent runs are merged in pairs, and the runs written are counted. */
  method SortPass(head: Elem, tail: Elem, less: (Elem, Elem) -> bool, ghost dom: set<Elem>, ghost c: seq<Elem>)
    returns (runs: nat, ghost d: seq<Elem>)
    requires Linked(c) && c[0] == head && c[|c| - 1] == tail && StrictWeak(less, dom) && Over(Inner(c), dom)
    modifies c
    ensures Linked(d) && |d| == |c| && d[0] == head && d[|d| - 1] == tail && forall k :: 0 <= k < |d| ==> d[k] in c
    ensures Over(Inner(d), dom) && Stable(less, Inner(c), Inner(d))
    ensures runs == (Runs(less, Inner(c)) + 1) / 2 && Runs(less, Inner(d)) <= runs
  {
    hide *;
    d, runs := c, 0;
    PassStart(less, dom, c);
    PassFacts(less, dom, c, d, 1, 0);
    Neighbours(c, 0);
    var a0 := head.next;
    ghost var x := 1;
    while a0 != tail
      invariant Linked(d) && PassState(less, dom, c, d, x, runs)
      invariant |d| == |c| >= 2 && 1 <= x <= |d| - 1 && d[x] == a0 && d[0] == head && d[|d| - 1] == tail
      invariant forall k :: 0 <= k < |d| ==> d[k] in c
      decreases |d| - x
    {
      runs := runs + 1;
      var a1b0, b1;
      ghost var e1, e2;
      a1b0, e1 := FindEndOfRun(a0, tail, less, d, x, |d| - 1);
      if a1b0 == tail {
        Neighbours(d, e1);
        PassLast(less, dom, c, d, x, runs - 1);
        PassFacts(less, dom, c, d, x, runs - 1);
        return;
      }
      b1, e2 := FindEndOfRun(a1b0, tail, less, d, e1, |d| - 1);
      ghost var d' := InplaceMerge(a0, a1b0, b1, less, d, x, e1, e2);
      PassAdvance(less, dom, c, d, x, runs - 1, e1, e2, d');
      d, x := d', e2;
      PassFacts(less, dom, c, d, x, runs);
      a0 := b1;
    }
    Neighbours(d, x);
    PassAll(less, dom, c, d, runs);
    PassFacts(less, dom, c, d, x, runs);
  }

  /** struct list */
  class List {
    const head: Elem
    const tail: Elem
    ghost var chain: seq<Elem>

    ghost predicate Valid()
      reads this, chain
    {
      Linked(chain) && chain[0] == head && chain[|chain| - 1] == tail
    }

    ghost function Elements(): seq<Elem>
      requires Valid()
      reads this, chain
    {
      Inner(chain)
    }

    /** llist_init */
    constructor ()
      ensures Valid() && Elements() == [] && fresh(head) && fresh(tail)
    {
      head := new Elem();
      tail := new Elem();
      new;
      head.next := tail;
      tail.prev := head;
      chain := [head, tail];
    }

    /** list_sort: a stable in-place sort for any strict weak order.  It ends because every pass at least halves
        the number of runs. */
    method Sort(less: (Elem, Elem) -> bool, ghost dom: set<Elem>)
      requires Valid() && StrictWeak(less, dom) && Over(Elements(), dom)
      modifies this`chain, chain
      ensures Valid() && Sorted(less, Elements()) && Stable(less, old(Elements()), Elements())
    {
      hide *;
      ghost var c := chain;
      ghost var d := c;
      ValidIs();
      StableRefl(less, Inner(c));
      var runs := 2;
      while runs > 1
        invariant Linked(d) && |d| == |c| >= 2 && d[0] == head && d[|d| - 1] == tail
        invariant forall k :: 0 <= k < |d| ==> d[k] in c
        invariant Over(Inner(d), dom) && Stable(less, Inner(c), Inner(d))
        invariant runs <= 1 ==> Runs(less, Inner(d)) <= 1
        decreases runs > 1, Runs(less, Inner(d))
      {
        ghost var d';
        ghost var before := d;
        runs, d' := SortPass(head, tail, less, dom, d);
        StableTrans(less, Inner(c), Inner(before), Inner(d'));
        d := d';
      }
      OneRun(less, Inner(d));
      RunIsSorted(less, dom, Inner(d));
      chain := d;
      ValidNow();
    }

    lemma ValidIs()
      requires Valid()
      ensures Linked(chain) && |chain| >= 2 && chain[0] == head && chain[|chain| - 1] == tail
      ensures Elements() == Inner(chain)
    {
    }

    lemma ValidNow()
      requires Linked(chain) && |chain| >= 2 && chain[0] == head && chain[|chain| - 1] == tail
      ensures Valid() && Elements() == Inner(chain)
    {
    }
  }
}
