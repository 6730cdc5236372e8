/** The block trees that hang off an inode.  A tree of level 0 is one data sector; a tree of level 1
    or 2 is an index sector with 128 subtrees.  Trees are specification values: `Stored` ties one to
    the index sectors on the (logical) device. */
module BlockTree {
  import opened Layout

  datatype Tree = Hole | Leaf(sector: nat) | Node(sector: nat, kids: seq<Tree>)

  /** The pointer that stands for a tree; 0 means not allocated. */
  ghost function Entry(t: Tree): nat {
    if t.Hole? then 0 else t.sector
  }

  /** Data sectors under one pointer of an index block of the given level. */
  function Unit(level: nat): nat {
    if level <= 1 then 1 else FANOUT
  }

  /** Data sectors a tree can hold. */
  function Capacity(level: nat): nat {
    if level == 0 then 1 else FANOUT * Unit(level)
  }

  /** How many of the first K data sectors belong to child I, when each child holds U. */
  function Part(k: nat, i: nat, u: nat): nat {
    if k <= i * u then 0 else Min(k - i * u, u)
  }

  /** T holds exactly its first K data sectors, and the index blocks they need. */
  ghost predicate Shape(t: Tree, level: nat, k: nat) {
    match t
    case Hole => k == 0
    case Leaf(_) => level == 0 && k == 1
    case Node(_, kids) =>
      && 1 <= level <= 2 && 1 <= k <= Capacity(level) && |kids| == FANOUT
      && forall i :: 0 <= i < FANOUT ==> Shape(kids[i], level - 1, Part(k, i, Unit(level)))
  }

  /** The index sectors of T hold the pointers to its subtrees. */
  ghost predicate Stored(disk: Disk, t: Tree) {
    t.Node? ==>
      && t.sector < |disk| && |t.kids| == FANOUT
      && forall i :: 0 <= i < FANOUT ==>
           DecodePointers(disk[t.sector])[i] == Entry(t.kids[i]) && Stored(disk, t.kids[i])
  }

  /** All sectors of a tree, data and index. */
  ghost function Sectors(t: Tree): set<nat> {
    match t
    case Hole => {}
    case Leaf(s) => {s}
    case Node(s, kids) => {s} + set i, x | 0 <= i < |kids| && x in Sectors(kids[i]) :: x
  }

  ghost function IndexSectors(t: Tree): set<nat> {
    match t
    case Hole => {}
    case Leaf(s) => {}
    case Node(s, kids) => {s} + set i, x | 0 <= i < |kids| && x in IndexSectors(kids[i]) :: x
  }

  ghost predicate Apart(ts: seq<Tree>) {
    forall i, j :: 0 <= i < j < |ts| ==> Sectors(ts[i]) !! Sectors(ts[j])
  }

  /** No sector is used twice in T. */
  ghost predicate Separate(t: Tree) {
    t.Node? ==>
      && Apart(t.kids)
      && forall i :: 0 <= i < |t.kids| ==> t.sector !in Sectors(t.kids[i]) && Separate(t.kids[i])
  }

  /** The data sector with index I in T. */
  ghost function LeafAt(t: Tree, level: nat, i: nat): nat
    decreases level
  {
    if t.Hole? then 0
    else if t.Leaf? || level == 0 || |t.kids| != FANOUT || i >= Capacity(level) then t.sector
    else LeafAt(t.kids[i / Unit(level)], level - 1, i % Unit(level))
  }

  /** S may belong to a file: it is marked, it is neither reserved sector, and it is not one of the
      sectors FM of the free map's own file. */
  ghost predicate Usable(s: nat, used: seq<bool>, fm: set<nat>) {
    2 <= s < |used| && used[s] && s !in fm
  }

  ghost predicate Good(t: Tree, level: nat, k: nat, disk: Disk, used: seq<bool>, fm: set<nat>) {
    && Shape(t, level, k) && Stored(disk, t) && Separate(t)
    && forall s :: s in Sectors(t) ==> Usable(s, used, fm)
  }

  // ---- growth -------------------------------------------------------------------

  /** Bits are only set between two maps. */
  ghost predicate OnlyMarks(used: seq<bool>, used': seq<bool>) {
    |used| == |used'| && forall s :: 0 <= s < |used| && used[s] ==> used'[s]
  }

  /** First fit: no sector has been marked while a lower one stayed free. */
  ghost predicate LowestFirst(used: seq<bool>, used': seq<bool>) {
    |used| == |used'| && forall a, b :: 0 <= a < b < |used| && !used[a] && !used[b] && used'[b] ==> used'[a]
  }

  lemma LowestRefl(used: seq<bool>)
    ensures LowestFirst(used, used)
  {
  }

  lemma LowestTrans(a: seq<bool>, b: seq<bool>, c: seq<bool>)
    requires LowestFirst(a, b) && LowestFirst(b, c) && OnlyMarks(b, c)
    ensures LowestFirst(a, c)
  {
  }

  /** From T with K data sectors to T' with N: old data sectors stay where they are, new ones were
      free before and read as zeros. */
  ghost predicate KeepsLeaves(t: Tree, k: nat, t': Tree, n: nat, level: nat, disk': Disk) {
    && (forall i :: 0 <= i < k ==> LeafAt(t', level, i) == LeafAt(t, level, i))
    && (forall i :: k <= i < n ==>
          && LeafAt(t', level, i) !in Sectors(t)
          && LeafAt(t', level, i) < |disk'| && disk'[LeafAt(t', level, i)] == ZERO_SECTOR)
  }

  /** Sectors outside INDEX and FM that were in use keep their contents. */
  ghost predicate Frame(disk: Disk, used: seq<bool>, disk': Disk, index: set<nat>, fm: set<nat>) {
    && |disk| == |disk'| && |used| <= |disk|
    && forall s :: 0 <= s < |used| && used[s] && s !in index && s !in fm ==> disk'[s] == disk[s]
  }

  ghost predicate Grew(t: Tree, level: nat, k: nat, disk: Disk, used: seq<bool>,
                       t': Tree, n: nat, disk': Disk, used': seq<bool>, fm: set<nat>)
  {
    && Good(t', level, n, disk', used', fm) && (k > 0 ==> Entry(t') == Entry(t))
    && Sectors(t) <= Sectors(t') && IndexSectors(t) <= IndexSectors(t')
    && |used| == |used'|
    && (forall s :: 0 <= s < |used| ==> (used'[s] <==> used[s] || s in Sectors(t')))
    && (forall s :: s in Sectors(t') && s !in Sectors(t) ==> !used[s])
    && KeepsLeaves(t, k, t', n, level, disk')
    && Frame(disk, used, disk', IndexSectors(t), fm)
  }

  // ---- basic facts ------------------------------------------------------------------

  lemma {:induction false} IndexWithin(t: Tree)
    ensures IndexSectors(t) <= Sectors(t)
  {
    if t.Node? {
      forall i | 0 <= i < |t.kids|
        ensures IndexSectors(t.kids[i]) <= Sectors(t.kids[i])
      {
        IndexWithin(t.kids[i]);
      }
    }
  }

  /** Trees do not depend on sectors other than their index sectors. */
  lemma {:induction false} StoredFrame(disk: Disk, disk': Disk, t: Tree)
    requires Stored(disk, t) && |disk| == |disk'|
    requires forall s :: s in IndexSectors(t) && s < |disk| ==> disk'[s] == disk[s]
    ensures Stored(disk', t)
  {
    if t.Node? {
      assert t.sector in IndexSectors(t);
      forall i | 0 <= i < FANOUT
        ensures Stored(disk', t.kids[i])
      {
        assert IndexSectors(t.kids[i]) <= IndexSectors(t);
        StoredFrame(disk, disk', t.kids[i]);
      }
    }
  }

  lemma PartBounds(k: nat, level: nat, i: nat)
    requires 1 <= level <= 2 && k <= Capacity(level) && i < k
    ensures i / Unit(level) < FANOUT
    ensures i % Unit(level) < Part(k, i / Unit(level), Unit(level))
  {
    if level == 1 {
      assert i / 1 == i && i % 1 == 0;
    }
  }

  /** Data sector I < K of a tree is one of its sectors and not an index sector. */
  lemma {:induction false} LeafInside(t: Tree, level: nat, k: nat, i: nat)
    requires Shape(t, level, k) && Separate(t) && i < k
    ensures LeafAt(t, level, i) in Sectors(t) && LeafAt(t, level, i) !in IndexSectors(t)
    decreases t
  {
    if t.Node? {
      PartBounds(k, level, i);
      var q, r := i / Unit(level), i % Unit(level);
      assert Shape(t.kids[q], level - 1, Part(k, q, Unit(level)));
      LeafInside(t.kids[q], level - 1, Part(k, q, Unit(level)), r);
      forall j | 0 <= j < FANOUT && j != q
        ensures LeafAt(t, level, i) !in IndexSectors(t.kids[j])
      {
        IndexWithin(t.kids[j]);
        assert Sectors(t.kids[j]) !! Sectors(t.kids[q]);
      }
    }
  }

  lemma IndexOrder(level: nat, i: nat, j: nat)
    requires 1 <= level <= 2 && i < j
    ensures i / Unit(level) < j / Unit(level)
         || (i / Unit(level) == j / Unit(level) && i % Unit(level) < j % Unit(level))
  {
    if level == 1 {
      assert i / 1 == i && j / 1 == j;
    }
  }

  /** Different indices mean different data sectors. */
  lemma {:induction false} LeavesDistinct(t: Tree, level: nat, k: nat, i: nat, j: nat)
    requires Shape(t, level, k) && Separate(t) && i < j < k
    ensures LeafAt(t, level, i) != LeafAt(t, level, j)
    decreases t
  {
    assert t.Node?;
    PartBounds(k, level, i);
    PartBounds(k, level, j);
    IndexOrder(level, i, j);
    var p, q, x, y := i / Unit(level), j / Unit(level), i % Unit(level), j % Unit(level);
    var a, b := Part(k, p, Unit(level)), Part(k, q, Unit(level));
    assert LeafAt(t, level, i) == LeafAt(t.kids[p], level - 1, x);
    assert LeafAt(t, level, j) == LeafAt(t.kids[q], level - 1, y);
    if p == q {
      LeavesDistinct(t.kids[p], level - 1, a, x, y);
    } else {
      LeafInside(t.kids[p], level - 1, a, x);
      LeafInside(t.kids[q], level - 1, b, y);
      assert Sectors(t.kids[p]) !! Sectors(t.kids[q]);
    }
  }
}
