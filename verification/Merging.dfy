/** Runs, stable merging and sortedness on sequences: the theory behind the list sort of list.c. */
module Merging {

  /** LESS is a strict weak order on DOM: asymmetric, and "not less" is transitive. */
  ghost predicate StrictWeak<T>(less: (T, T) -> bool, dom: set<T>) {
    && (forall x, y :: x in dom && y in dom && less(x, y) ==> !less(y, x))
    && (forall x, y, z :: x in dom && y in dom && z in dom && !less(x, y) && !less(y, z) ==> !less(x, z))
  }

  ghost predicate Over<T>(s: seq<T>, dom: set<T>) {
    forall i :: 0 <= i < |s| ==> s[i] in dom
  }

  /** A nondecreasing run. */
  ghost predicate Run<T>(less: (T, T) -> bool, s: seq<T>) {
    forall i :: 1 <= i < |s| ==> !less(s[i], s[i - 1])
  }

  ghost predicate Sorted<T>(less: (T, T) -> bool, s: seq<T>) {
    forall i, j :: 0 <= i < j < |s| ==> !less(s[j], s[i])
  }

  lemma {:induction false} RunIsSorted<T>(less: (T, T) -> bool, dom: set<T>, s: seq<T>)
    requires StrictWeak(less, dom) && Over(s, dom) && Run(less, s)
    ensures Sorted(less, s)
  {
    forall i, j | 0 <= i < j < |s|
      ensures !less(s[j], s[i])
    {
      RunOrders(less, dom, s, i, j);
    }
  }

  lemma {:induction false} RunOrders<T>(less: (T, T) -> bool, dom: set<T>, s: seq<T>, i: nat, j: nat)
    requires StrictWeak(less, dom) && Over(s, dom) && Run(less, s) && i < j < |s|
    ensures !less(s[j], s[i])
  {
    if i + 1 < j {
      RunOrders(less, dom, s, i, j - 1);
      assert !less(s[j], s[j - 1]);
    }
  }

  /** The merge that takes from the left unless the right is strictly smaller. */
  function Merge<T>(less: (T, T) -> bool, xs: seq<T>, ys: seq<T>): (m: seq<T>)
    ensures |m| == |xs| + |ys|
    decreases |xs| + |ys|
  {
    if xs == [] then ys
    else if ys == [] then xs
    else if !less(ys[0], xs[0]) then [xs[0]] + Merge(less, xs[1..], ys)
    else [ys[0]] + Merge(less, xs, ys[1..])
  }

  lemma {:induction false} MergePermutes<T>(less: (T, T) -> bool, xs: seq<T>, ys: seq<T>)
    ensures multiset(Merge(less, xs, ys)) == multiset(xs + ys)
    decreases |xs| + |ys|
  {
    if xs == [] {
      assert xs + ys == ys;
    } else if ys == [] {
      assert xs + ys == xs;
    } else if !less(ys[0], xs[0]) {
      MergePermutes(less, xs[1..], ys);
      assert xs + ys == [xs[0]] + (xs[1..] + ys);
    } else {
      MergePermutes(less, xs, ys[1..]);
      assert ys == [ys[0]] + ys[1..];
    }
  }

  /** The first element of a merge is one of the two heads. */
  lemma MergeHead<T>(less: (T, T) -> bool, xs: seq<T>, ys: seq<T>)
    requires |xs| + |ys| > 0
    ensures var h := Merge(less, xs, ys)[0]; (xs != [] && h == xs[0]) || (ys != [] && h == ys[0])
  {
  }

  /** Merging two runs gives one run. */
  lemma {:induction false} MergeRuns<T>(less: (T, T) -> bool, dom: set<T>, xs: seq<T>, ys: seq<T>)
    requires StrictWeak(less, dom) && Over(xs, dom) && Over(ys, dom) && Run(less, xs) && Run(less, ys)
    ensures Run(less, Merge(less, xs, ys))
    decreases |xs| + |ys|
  {
    if xs != [] && ys != [] {
      if !less(ys[0], xs[0]) {
        MergeRuns(less, dom, xs[1..], ys);
        MergeHead(less, xs[1..], ys);
        ConsRun(less, xs[0], Merge(less, xs[1..], ys));
      } else {
        MergeRuns(less, dom, xs, ys[1..]);
        MergeHead(less, xs, ys[1..]);
        ConsRun(less, ys[0], Merge(less, xs, ys[1..]));
      }
    }
  }

  lemma ConsRun<T>(less: (T, T) -> bool, x: T, s: seq<T>)
    requires Run(less, s) && (s != [] ==> !less(s[0], x))
    ensures Run(less, [x] + s)
  {
  }

  // ---- stability ----------------------------------------------------------------------

  ghost predicate Before<T>(s: seq<T>, x: T, y: T) {
    exists i, j :: 0 <= i < j < |s| && s[i] == x && s[j] == y
  }

  predicate Equivalent<T>(less: (T, T) -> bool, x: T, y: T) {
    !less(x, y) && !less(y, x)
  }

  /** T is a rearrangement of S that keeps equivalent elements in order. */
  ghost predicate Stable<T>(less: (T, T) -> bool, s: seq<T>, t: seq<T>) {
    && multiset(s) == multiset(t)
    && forall i, j :: 0 <= i < j < |t| && Equivalent(less, t[i], t[j]) ==> Before(s, t[i], t[j])
  }

  lemma StableRefl<T>(less: (T, T) -> bool, s: seq<T>)
    ensures Stable(less, s, s)
  {
  }

  lemma StableTrans<T>(less: (T, T) -> bool, s: seq<T>, t: seq<T>, u: seq<T>)
    requires Stable(less, s, t) && Stable(less, t, u)
    ensures Stable(less, s, u)
  {
    forall i, j | 0 <= i < j < |u| && Equivalent(less, u[i], u[j])
      ensures Before(s, u[i], u[j])
    {
      assert Before(t, u[i], u[j]);
    }
  }

  lemma BeforeWiden<T>(p: seq<T>, s: seq<T>, q: seq<T>, x: T, y: T)
    requires Before(s, x, y)
    ensures Before(p + s + q, x, y)
  {
    var i, j :| 0 <= i < j < |s| && s[i] == x && s[j] == y;
    var w := p + s + q;
    assert w[|p| + i] == x && w[|p| + j] == y;
  }

  lemma BeforeAcross<T>(p: seq<T>, q: seq<T>, x: T, y: T)
    requires x in p && y in q
    ensures Before(p + q, x, y)
  {
    var i :| 0 <= i < |p| && p[i] == x;
    var j :| 0 <= j < |q| && q[j] == y;
    assert (p + q)[i] == x && (p + q)[|p| + j] == y;
  }

  lemma MemberOfMerge<T>(less: (T, T) -> bool, xs: seq<T>, ys: seq<T>, x: T)
    ensures x in Merge(less, xs, ys) <==> x in xs || x in ys
  {
    MergePermutes(less, xs, ys);
    assert x in Merge(less, xs, ys) <==> x in multiset(Merge(less, xs, ys));
    assert x in xs + ys <==> x in multiset(xs + ys);
  }

  /** The head, taken from the left, comes before all that follows. */
  lemma LeftHeadFirst<T>(less: (T, T) -> bool, xs: seq<T>, ys: seq<T>, y: T)
    requires xs != [] && y in Merge(less, xs[1..], ys)
    ensures Before(xs + ys, xs[0], y)
  {
    MemberOfMerge(less, xs[1..], ys, y);
    BeforeAcross([xs[0]], xs[1..] + ys, xs[0], y);
    assert [xs[0]] + (xs[1..] + ys) == xs + ys;
  }

  /** The head, taken from the right because it is smaller, has no equivalent on the left. */
  lemma RightHeadFirst<T>(less: (T, T) -> bool, dom: set<T>, xs: seq<T>, ys: seq<T>, y: T)
    requires StrictWeak(less, dom) && Over(xs, dom) && Over(ys, dom) && Run(less, xs)
    requires xs != [] && ys != [] && less(ys[0], xs[0]) && Equivalent(less, ys[0], y) && y in Merge(less, xs, ys[1..])
    ensures Before(xs + ys, ys[0], y)
  {
    BelowRun(less, dom, xs, ys[0]);
    MemberOfMerge(less, xs, ys[1..], y);
    var k :| 0 <= k < |ys[1..]| && ys[1..][k] == y;
    assert (xs + ys)[|xs|] == ys[0] && (xs + ys)[|xs| + 1 + k] == y;
  }

  /** Merging two runs is stable. */
  lemma {:induction false} MergeStable<T>(less: (T, T) -> bool, dom: set<T>, xs: seq<T>, ys: seq<T>, i: nat, j: nat)
    requires StrictWeak(less, dom) && Over(xs, dom) && Over(ys, dom) && Run(less, xs)
    requires i < j < |xs| + |ys| && Equivalent(less, Merge(less, xs, ys)[i], Merge(less, xs, ys)[j])
    ensures Before(xs + ys, Merge(less, xs, ys)[i], Merge(less, xs, ys)[j])
    decreases |xs| + |ys|
  {
    hide Before, StrictWeak;
    var m := Merge(less, xs, ys);
    if xs == [] || ys == [] {
      assert xs + ys == m;
      BeforeAt(m, i, j);
    } else if !less(ys[0], xs[0]) {
      assert m[j] == Merge(less, xs[1..], ys)[j - 1];
      if i > 0 {
        MergeStable(less, dom, xs[1..], ys, i - 1, j - 1);
        BeforeWiden([xs[0]], xs[1..] + ys, [], m[i], m[j]);
        assert xs + ys == [xs[0]] + (xs[1..] + ys) + [];
      } else {
        LeftHeadFirst(less, xs, ys, m[j]);
      }
    } else {
      assert m[j] == Merge(less, xs, ys[1..])[j - 1];
      if i > 0 {
        MergeStable(less, dom, xs, ys[1..], i - 1, j - 1);
        BeforeInsert(xs, ys, m[i], m[j]);
      } else {
        RightHeadFirst(less, dom, xs, ys, m[j]);
      }
    }
  }

  lemma BeforeAt<T>(s: seq<T>, i: nat, j: nat)
    requires i < j < |s|
    ensures Before(s, s[i], s[j])
  {
  }

  /** What is smaller than the first element of a run is smaller than all of it. */
  lemma BelowRun<T>(less: (T, T) -> bool, dom: set<T>, xs: seq<T>, y: T)
    requires StrictWeak(less, dom) && Over(xs, dom) && Run(less, xs) && y in dom && xs != [] && less(y, xs[0])
    ensures forall k :: 0 <= k < |xs| ==> less(y, xs[k])
  {
    forall k | 0 <= k < |xs|
      ensures less(y, xs[k])
    {
      if k > 0 {
        RunOrders(less, dom, xs, 0, k);
      }
    }
  }

  lemma BeforeInsert<T>(xs: seq<T>, ys: seq<T>, x: T, y: T)
    requires ys != [] && Before(xs + ys[1..], x, y)
    ensures Before(xs + ys, x, y)
  {
    var s := xs + ys[1..];
    var i, j :| 0 <= i < j < |s| && s[i] == x && s[j] == y;
    var i', j' := if i < |xs| then i else i + 1, if j < |xs| then j else j + 1;
    assert (xs + ys)[i'] == x && (xs + ys)[j'] == y;
  }

  /** Merging two adjacent runs in the middle of a sequence is stable. */
  lemma MergeInside<T>(less: (T, T) -> bool, dom: set<T>, p: seq<T>, xs: seq<T>, ys: seq<T>, q: seq<T>)
    requires StrictWeak(less, dom) && Over(xs, dom) && Over(ys, dom) && Run(less, xs)
    ensures Stable(less, p + (xs + ys) + q, p + Merge(less, xs, ys) + q)
  {
    var m := Merge(less, xs, ys);
    var s, t := p + (xs + ys) + q, p + m + q;
    MergePermutes(less, xs, ys);
    forall i, j | 0 <= i < j < |t| && Equivalent(less, t[i], t[j])
      ensures Before(s, t[i], t[j])
    {
      MergeInsideAt(less, dom, p, xs, ys, q, i, j);
    }
  }

  lemma MergeInsideAt<T>(less: (T, T) -> bool, dom: set<T>, p: seq<T>, xs: seq<T>, ys: seq<T>, q: seq<T>, i: nat,
                         j: nat)
    requires StrictWeak(less, dom) && Over(xs, dom) && Over(ys, dom) && Run(less, xs)
    requires i < j < |p| + |xs| + |ys| + |q|
    requires var t := p + Merge(less, xs, ys) + q; Equivalent(less, t[i], t[j])
    ensures var t := p + Merge(less, xs, ys) + q; Before(p + (xs + ys) + q, t[i], t[j])
  {
    hide Merge, StrictWeak, Run, Over, Equivalent;
    var m := Merge(less, xs, ys);
    var s, t := p + (xs + ys) + q, p + m + q;
    MemberOfMerge(less, xs, ys, t[i]);
    MemberOfMerge(less, xs, ys, t[j]);
    var a, b := |p|, |p| + |m|;
    if j < a || (i < a && j >= b) || i >= b {
      assert s[i] == t[i] && s[j] == t[j];
    } else if i < a {
      assert t[j] == m[j - a] && t[j] in m;
      BeforeAcross(p, xs + ys + q, t[i], t[j]);
      assert p + (xs + ys + q) == s;
    } else if j < b {
      MergeStable(less, dom, xs, ys, i - a, j - a);
      BeforeWiden(p, xs + ys, q, t[i], t[j]);
    } else {
      assert t[i] == m[i - a] && t[i] in m;
      BeforeAcross(p + (xs + ys), q, t[i], t[j]);
    }
  }

  // ---- counting runs --------------------------------------------------------------------

  /** Number of maximal nondecreasing runs. */
  function Runs<T>(less: (T, T) -> bool, s: seq<T>): nat {
    if |s| <= 1 then |s|
    else Runs(less, s[1..]) + if less(s[1], s[0]) then 1 else 0
  }

  lemma {:induction false} OneRun<T>(less: (T, T) -> bool, s: seq<T>)
    ensures Run(less, s) <==> Runs(less, s) <= 1
    ensures s != [] ==> Runs(less, s) >= 1
  {
    if |s| > 1 {
      OneRun(less, s[1..]);
      if Run(less, s[1..]) && !less(s[1], s[0]) {
        ConsRun(less, s[0], s[1..]);
        assert [s[0]] + s[1..] == s;
      }
      if Run(less, s) {
        assert !less(s[1], s[0]);
        forall i | 1 <= i < |s[1..]| ensures !less(s[1..][i], s[1..][i - 1]) {
          assert !less(s[i + 1], s[i]);
        }
      }
    }
  }

  lemma {:induction false} RunsConcat<T>(less: (T, T) -> bool, s: seq<T>, t: seq<T>)
    ensures s == [] || t == [] ==> Runs(less, s + t) == Runs(less, s) + Runs(less, t)
    ensures s != [] && t != [] ==>
      Runs(less, s + t) == Runs(less, s) + Runs(less, t) - if less(t[0], s[|s| - 1]) then 0 else 1
    decreases |s|
  {
    if s == [] {
      assert s + t == t;
    } else if t == [] {
      assert s + t == s;
    } else if |s| == 1 {
      assert (s + t)[1..] == t;
    } else {
      RunsConcat(less, s[1..], t);
      assert (s + t)[1..] == s[1..] + t;
    }
  }
}
