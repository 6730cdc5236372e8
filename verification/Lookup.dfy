/** Following block pointers on the device, whether or not the index holds more blocks than the file needs. */
module Lookup {
  import opened Layout
  import opened BlockTree
  import opened Growth
  import opened FileMap

  /** The chain of pointers that starts at E, a tree of the given level, leads to sector S for data block I. */
  ghost predicate Leads(disk: Disk, e: nat, level: nat, i: nat, s: nat)
    decreases level
  {
    if level == 0 then e == s
    else
      && e < |disk| && i < Capacity(level)
      && Leads(disk, DecodePointers(disk[e])[i / Unit(level)], level - 1, i % Unit(level), s)
  }

  /** The pointers on the device lead to the first K data sectors of T. */
  ghost predicate Finds(disk: Disk, t: Tree, level: nat, k: nat) {
    forall i :: 0 <= i < k ==> LeafAt(t, level, i) < |disk| && Leads(disk, Entry(t), level, i, LeafAt(t, level, i))
  }

  /** A stored index block delivers the pointers to its subtrees. */
  lemma PointerTo(t: Tree, level: nat, k: nat, disk: Disk, used: seq<bool>, fm: set<nat>, i: nat)
    requires Good(t, level, k, disk, used, fm) && |used| <= |disk| && level >= 1 && i < k
    ensures t.Node? && |t.kids| == FANOUT && t.sector < |disk| && i < Capacity(level) && i / Unit(level) < FANOUT
    ensures DecodePointers(disk[t.sector])[i / Unit(level)] == Entry(t.kids[i / Unit(level)])
    ensures Good(t.kids[i / Unit(level)], level - 1, Part(k, i / Unit(level), Unit(level)), disk, used, fm)
    ensures LeafAt(t, level, i) == LeafAt(t.kids[i / Unit(level)], level - 1, i % Unit(level))
    ensures i % Unit(level) < Part(k, i / Unit(level), Unit(level))
  {
    PartBounds(k, level, i);
    assert Sectors(t.kids[i / Unit(level)]) <= Sectors(t);
  }

  /** A stored tree is found. */
  lemma {:induction false} GoodLeads(t: Tree, level: nat, k: nat, disk: Disk, used: seq<bool>, fm: set<nat>, i: nat)
    requires Good(t, level, k, disk, used, fm) && |used| <= |disk| && i < k
    ensures Leads(disk, Entry(t), level, i, LeafAt(t, level, i))
    decreases level
  {
    hide Good, DecodePointers;
    if level == 0 {
      LeafOf(t, k, disk, used, fm, i);
    } else {
      PointerTo(t, level, k, disk, used, fm, i);
      var q := i / Unit(level);
      GoodLeads(t.kids[q], level - 1, Part(k, q, Unit(level)), disk, used, fm, i % Unit(level));
    }
  }

  lemma LeafOf(t: Tree, k: nat, disk: Disk, used: seq<bool>, fm: set<nat>, i: nat)
    requires Good(t, 0, k, disk, used, fm) && i < k
    ensures LeafAt(t, 0, i) == Entry(t)
  {
  }

  lemma GoodFinds(t: Tree, level: nat, k: nat, disk: Disk, used: seq<bool>, fm: set<nat>)
    requires Good(t, level, k, disk, used, fm) && |used| <= |disk|
    ensures Finds(disk, t, level, k)
  {
    forall i | 0 <= i < k
      ensures LeafAt(t, level, i) < |disk| && Leads(disk, Entry(t), level, i, LeafAt(t, level, i))
    {
      GoodLeads(t, level, k, disk, used, fm, i);
      LeafInside(t, level, k, i);
    }
  }

  /** What a tree held before it grew is found after it has grown. */
  lemma GrownFinds(t: Tree, k: nat, t': Tree, n: nat, level: nat, disk: Disk, used: seq<bool>, fm: set<nat>,
                   disk0: Disk)
    requires Good(t', level, n, disk, used, fm) && |used| <= |disk| && k <= n
    requires KeepsLeaves(t, k, t', n, level, disk0) && (k > 0 ==> Entry(t') == Entry(t))
    ensures Finds(disk, t, level, k)
  {
    hide Good, Leads;
    GoodFinds(t', level, n, disk, used, fm);
  }

  /** One tree of a family that has grown, after further changes that spare its index sectors. */
  lemma FamilyFinds(ts0: seq<Tree>, lv: seq<nat>, ct0: seq<nat>, disk0: Disk, used0: seq<bool>,
                    ts: seq<Tree>, ct: seq<nat>, disk: Disk, used: seq<bool>, fm: set<nat>,
                    disk': Disk, used': seq<bool>, q: nat)
    requires FamilyGrew(ts0, lv, ct0, disk0, used0, ts, ct, disk, used, fm) && q < |ts0| && ct0[q] <= ct[q]
    requires |disk| == |disk'| && OnlyMarks(used, used')
    requires forall s :: s in IndexSectors(ts[q]) && s < |disk| ==> disk'[s] == disk[s]
    ensures Finds(disk', ts0[q], lv[q], ct0[q])
  {
    hide Leads, KeepsLeaves, Finds;
    GoodFrame(ts[q], lv[q], ct[q], disk, used, fm, disk', used');
    GrownFinds(ts0[q], ct0[q], ts[q], ct[q], lv[q], disk', used', fm, disk);
  }

  /** The index block in sector E keeps its pointers, and each subtree is found. */
  lemma NodeFinds(e: nat, ts: seq<Tree>, level: nat, k: nat, disk: Disk)
    requires 1 <= level <= 2 && |ts| == FANOUT && e < |disk| && k <= Capacity(level)
    requires forall q :: 0 <= q < FANOUT ==> DecodePointers(disk[e])[q] == Entry(ts[q])
    requires forall q :: 0 <= q < FANOUT ==> Finds(disk, ts[q], level - 1, Part(k, q, Unit(level)))
    ensures Finds(disk, Node(e, ts), level, k)
  {
    forall i | 0 <= i < k
      ensures LeafAt(Node(e, ts), level, i) < |disk| && Leads(disk, e, level, i, LeafAt(Node(e, ts), level, i))
    {
      PartBounds(k, level, i);
      var q := i / Unit(level);
      assert Finds(disk, ts[q], level - 1, Part(k, q, Unit(level)));
      assert Leads(disk, Entry(ts[q]), level - 1, i % Unit(level), LeafAt(ts[q], level - 1, i % Unit(level)));
    }
  }

  // ---- files ----------------------------------------------------------------------------

  /** The pointer to root J in an inode. */
  function RootPointer(d: InodeDisk, j: nat): nat
    requires |d.direct| == DIRECT
  {
    if j < DIRECT then d.direct[j] else if j == 123 then d.indirect else d.doubly
  }

  /** The index of D leads to the first N data sectors of TS; it may hold more. */
  ghost predicate Located(d: InodeDisk, ts: seq<Tree>, n: nat, disk: Disk) {
    && n <= MAX_SECTORS && |d.direct| == DIRECT && |ts| == ROOTS
    && forall j :: 0 <= j < ROOTS ==> RootFound(d, ts, n, disk, j)
  }

  ghost predicate RootFound(d: InodeDisk, ts: seq<Tree>, n: nat, disk: Disk, j: nat)
    requires |d.direct| == DIRECT && |ts| == ROOTS && j < ROOTS
  {
    RootCount(n, j) > 0 ==> RootPointer(d, j) == Entry(ts[j]) && Finds(disk, ts[j], RootLevel(j), RootCount(n, j))
  }

  lemma MappedLocated(d: InodeDisk, ts: seq<Tree>, n: nat, disk: Disk, used: seq<bool>, fm: set<nat>)
    requires Mapped(d, ts, n, disk, used, fm)
    ensures Located(d, ts, n, disk)
  {
    hide Good, Finds;
    forall j | 0 <= j < ROOTS
      ensures RootFound(d, ts, n, disk, j)
    {
      RootGood(d, ts, n, disk, used, fm, j);
      GoodFinds(ts[j], RootLevel(j), RootCount(n, j), disk, used, fm);
    }
  }

  /** Block I of a file is found from its root. */
  lemma BlockLeads(d: InodeDisk, ts: seq<Tree>, n: nat, disk: Disk, i: nat)
    requires Located(d, ts, n, disk) && i < n
    ensures Leads(disk, RootPointer(d, RootOf(i)), RootLevel(RootOf(i)), i - RootBase(i), DataAt(ts, i))
    ensures DataAt(ts, i) < |disk|
  {
    hide Leads;
    assert RootFound(d, ts, n, disk, RootOf(i));
    assert 0 <= i - RootBase(i) < RootCount(n, RootOf(i));
  }
}
