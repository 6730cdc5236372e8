/** How a family of disjoint trees grows, one tree at a time; an index block and an inode are both
    such families. */
module Growth {
  import opened Layout
  import opened BlockTree

  ghost function AllSectors(ts: seq<Tree>): set<nat> {
    set i, s | 0 <= i < |ts| && s in Sectors(ts[i]) :: s
  }

  ghost function AllIndexSectors(ts: seq<Tree>): set<nat> {
    set i, s | 0 <= i < |ts| && s in IndexSectors(ts[i]) :: s
  }

  lemma AllIndexWithin(ts: seq<Tree>)
    ensures AllIndexSectors(ts) <= AllSectors(ts)
  {
    forall j | 0 <= j < |ts|
      ensures IndexSectors(ts[j]) <= Sectors(ts[j])
    {
      IndexWithin(ts[j]);
    }
  }

  /** TS are disjoint trees; tree I has level LV[I] and holds CT[I] data sectors. */
  ghost predicate Family(ts: seq<Tree>, lv: seq<nat>, ct: seq<nat>, disk: Disk, used: seq<bool>, fm: set<nat>) {
    && |ts| == |lv| == |ct|
    && (forall i :: 0 <= i < |ts| ==> Good(ts[i], lv[i], ct[i], disk, used, fm))
    && Apart(ts)
  }

  /** The same as `Grew`, for a whole family. */
  ghost predicate FamilyGrew(ts: seq<Tree>, lv: seq<nat>, ct: seq<nat>, disk: Disk, used: seq<bool>,
                             ts': seq<Tree>, ct': seq<nat>, disk': Disk, used': seq<bool>, fm: set<nat>)
  {
    && Family(ts', lv, ct', disk', used', fm) && |ts| == |ts'| == |ct|
    && (forall i :: 0 <= i < |ts| && ct[i] > 0 ==> Entry(ts'[i]) == Entry(ts[i]))
    && (forall i :: 0 <= i < |ts| ==> Sectors(ts[i]) <= Sectors(ts'[i]))
    && (forall i :: 0 <= i < |ts| ==> IndexSectors(ts[i]) <= IndexSectors(ts'[i]))
    && |used| == |used'|
    && (forall s :: 0 <= s < |used| ==> (used'[s] <==> used[s] || s in AllSectors(ts')))
    && (forall i, s {:trigger s in Sectors(ts'[i])} ::
          0 <= i < |ts| && s in Sectors(ts'[i]) && s !in Sectors(ts[i]) ==> !used[s])
    && (forall i :: 0 <= i < |ts| ==> KeepsLeaves(ts[i], ct[i], ts'[i], ct'[i], lv[i], disk'))
    && Frame(disk, used, disk', AllIndexSectors(ts), fm)
  }

  lemma FamilyGrewRefl(ts: seq<Tree>, lv: seq<nat>, ct: seq<nat>, disk: Disk, used: seq<bool>, fm: set<nat>)
    requires Family(ts, lv, ct, disk, used, fm) && |used| <= |disk|
    ensures FamilyGrew(ts, lv, ct, disk, used, ts, ct, disk, used, fm)
  {
  }

  /** A tree survives changes outside its index sectors, as long as its sectors stay marked. */
  lemma GoodFrame(t: Tree, level: nat, k: nat, disk: Disk, used: seq<bool>, fm: set<nat>, disk': Disk, used': seq<bool>)
    requires Good(t, level, k, disk, used, fm) && |disk| == |disk'| && |used| == |used'|
    requires forall s :: s in Sectors(t) && s < |used| && used[s] ==> used'[s]
    requires forall s :: s in IndexSectors(t) && s < |disk| ==> disk'[s] == disk[s]
    ensures Good(t, level, k, disk', used', fm)
  {
    StoredFrame(disk, disk', t);
  }

  /** While one tree of a family grows, the others do not change. */
  lemma OthersUntouched(a: Tree, la: nat, ka: nat, b: Tree, lb: nat, kb: nat, b': Tree, nb: nat,
                        disk: Disk, used: seq<bool>, disk': Disk, used': seq<bool>, fm: set<nat>)
    requires Good(a, la, ka, disk, used, fm) && Sectors(a) !! Sectors(b)
    requires Grew(b, lb, kb, disk, used, b', nb, disk', used', fm)
    ensures Good(a, la, ka, disk', used', fm) && Sectors(a) !! Sectors(b')
    ensures forall s :: s in Sectors(a) ==> s < |disk| && disk'[s] == disk[s]
  {
    IndexWithin(a);
    IndexWithin(b);
    forall s | s in Sectors(a)
      ensures s < |disk| && disk'[s] == disk[s]
    {
      assert Usable(s, used, fm);
    }
    GoodFrame(a, la, ka, disk, used, fm, disk', used');
    forall s | s in Sectors(b') && s !in Sectors(b)
      ensures s !in Sectors(a)
    {
      assert !used[s];
    }
  }

  lemma LeavesStayZero(t: Tree, k: nat, t': Tree, n: nat, level: nat, disk: Disk, used: seq<bool>, fm: set<nat>,
                       disk': Disk)
    requires Good(t', level, n, disk, used, fm) && |disk| == |disk'|
    requires KeepsLeaves(t, k, t', n, level, disk)
    requires forall s :: s in Sectors(t') ==> s < |disk| && disk'[s] == disk[s]
    ensures KeepsLeaves(t, k, t', n, level, disk')
  {
    forall i | k <= i < n
      ensures disk'[LeafAt(t', level, i)] == ZERO_SECTOR
    {
      LeafInside(t', level, n, i);
    }
  }

  /** Growing tree I of a family grows the family. */
  lemma GrowOne(ts: seq<Tree>, lv: seq<nat>, ct: seq<nat>, disk0: Disk, used0: seq<bool>,
                ts1: seq<Tree>, ct1: seq<nat>, disk1: Disk, used1: seq<bool>,
                i: nat, t': Tree, n: nat, disk2: Disk, used2: seq<bool>, fm: set<nat>)
    requires FamilyGrew(ts, lv, ct, disk0, used0, ts1, ct1, disk1, used1, fm)
    requires i < |ts| && ts1[i] == ts[i] && ct1[i] == ct[i]
    requires Grew(ts[i], lv[i], ct[i], disk1, used1, t', n, disk2, used2, fm)
    ensures FamilyGrew(ts, lv, ct, disk0, used0, ts1[i := t'], ct1[i := n], disk2, used2, fm)
  {
    hide KeepsLeaves, Sectors, IndexSectors;
    var ts2, ct2 := ts1[i := t'], ct1[i := n];
    forall j | 0 <= j < |ts| && j != i
      ensures Good(ts2[j], lv[j], ct2[j], disk2, used2, fm) && Sectors(ts2[j]) !! Sectors(t')
      ensures KeepsLeaves(ts[j], ct[j], ts2[j], ct2[j], lv[j], disk2)
    {
      assert Sectors(ts1[j]) !! Sectors(ts1[i]);
      OthersUntouched(ts1[j], lv[j], ct1[j], ts1[i], lv[i], ct1[i], t', n, disk1, used1, disk2, used2, fm);
      LeavesStayZero(ts[j], ct[j], ts1[j], ct1[j], lv[j], disk1, used1, fm, disk2);
    }
    assert Apart(ts2);
    GrowOneMap(ts, ts1, used0, used1, i, t', used2);
    forall s | 0 <= s < |used0| && used0[s] && s !in AllIndexSectors(ts) && s !in fm
      ensures disk2[s] == disk0[s]
    {
      assert disk1[s] == disk0[s] && used1[s];
    }
  }

  lemma GrowOneMap(ts: seq<Tree>, ts1: seq<Tree>, used0: seq<bool>, used1: seq<bool>, i: nat, t': Tree,
                   used2: seq<bool>)
    requires |used0| == |used1| == |used2| && i < |ts| == |ts1| && ts1[i] == ts[i] && Sectors(ts[i]) <= Sectors(t')
    requires forall s :: 0 <= s < |used0| ==> (used1[s] <==> used0[s] || s in AllSectors(ts1))
    requires forall s :: 0 <= s < |used0| ==> (used2[s] <==> used1[s] || s in Sectors(t'))
    ensures forall s :: 0 <= s < |used0| ==> (used2[s] <==> used0[s] || s in AllSectors(ts1[i := t']))
  {
    var ts2 := ts1[i := t'];
    forall s | s in AllSectors(ts1)
      ensures s in AllSectors(ts2)
    {
      var j :| 0 <= j < |ts1| && s in Sectors(ts1[j]);
      assert s in Sectors(ts2[j]);
    }
    forall s | s in Sectors(t')
      ensures s in AllSectors(ts2)
    {
      assert s in Sectors(ts2[i]);
    }
    forall s | s in AllSectors(ts2) && s !in Sectors(t')
      ensures s in AllSectors(ts1)
    {
      var j :| 0 <= j < |ts2| && s in Sectors(ts2[j]);
      assert j != i && s in Sectors(ts1[j]);
    }
  }

  // ---- index blocks ---------------------------------------------------------------

  /** Levels of the children of an index block. */
  ghost function KidLevels(level: nat): seq<nat>
    requires level >= 1
  {
    seq(FANOUT, _ => level - 1)
  }

  /** Data sectors of each child while an index block grows from K to N and I children are done. */
  ghost function KidCounts(k: nat, n: nat, i: nat, level: nat): seq<nat> {
    seq<nat>(FANOUT, (j: nat) => Part(if j < i then n else k, j, Unit(level)))
  }

  ghost function NoKids(): seq<Tree> {
    seq(FANOUT, _ => Hole)
  }

  lemma KidsOf(t: Tree, level: nat, k: nat, disk: Disk, used: seq<bool>, fm: set<nat>)
    requires t.Node? && Good(t, level, k, disk, used, fm)
    ensures 1 <= level && Family(t.kids, KidLevels(level), KidCounts(k, 0, 0, level), disk, used, fm)
    ensures Usable(t.sector, used, fm) && forall i :: 0 <= i < FANOUT ==> t.sector !in Sectors(t.kids[i])
  {
    assert t.sector in Sectors(t);
    forall i | 0 <= i < FANOUT
      ensures Good(t.kids[i], KidLevels(level)[i], KidCounts(k, 0, 0, level)[i], disk, used, fm)
    {
      assert Sectors(t.kids[i]) <= Sectors(t);
    }
  }

  lemma NoKidsFamily(level: nat, disk: Disk, used: seq<bool>, fm: set<nat>)
    requires 1 <= level <= 2
    ensures Family(NoKids(), KidLevels(level), KidCounts(0, 0, 0, level), disk, used, fm)
    ensures AllSectors(NoKids()) == {} && AllIndexSectors(NoKids()) == {}
  {
    forall i | 0 <= i < FANOUT
      ensures Part(0, i, Unit(level)) == 0
    {
    }
  }

  lemma NodeStored(e: nat, ts: seq<Tree>, disk: Disk, ptrs: Pointers)
    requires |ts| == FANOUT && e < |disk|
    requires forall i :: 0 <= i < FANOUT ==> Stored(disk, ts[i]) && e !in Sectors(ts[i])
    requires forall i :: 0 <= i < FANOUT ==> ptrs[i] == Entry(ts[i])
    ensures Stored(disk[e := EncodePointers(ptrs)], Node(e, ts))
  {
    hide DecodePointers, EncodePointers;
    var disk' := disk[e := EncodePointers(ptrs)];
    PointersRoundTrip(ptrs);
    forall i | 0 <= i < FANOUT
      ensures Stored(disk', ts[i])
    {
      IndexWithin(ts[i]);
      StoredFrame(disk, disk', ts[i]);
    }
  }

  /** A family whose pointers are written to sector E is an index block. */
  lemma NodeGood(e: nat, ts: seq<Tree>, level: nat, n: nat, disk: Disk, used: seq<bool>, fm: set<nat>, ptrs: Pointers)
    requires 1 <= level <= 2 && 1 <= n <= Capacity(level) && |ts| == FANOUT && e < |disk|
    requires forall i :: 0 <= i < FANOUT ==> Good(ts[i], level - 1, Part(n, i, Unit(level)), disk, used, fm)
    requires Apart(ts)
    requires Usable(e, used, fm) && forall i :: 0 <= i < FANOUT ==> e !in Sectors(ts[i])
    requires forall i :: 0 <= i < FANOUT ==> ptrs[i] == Entry(ts[i])
    ensures Good(Node(e, ts), level, n, disk[e := EncodePointers(ptrs)], used, fm)
  {
    NodeStored(e, ts, disk, ptrs);
    forall s | s in Sectors(Node(e, ts))
      ensures Usable(s, used, fm)
    {
      if s != e {
        var i :| 0 <= i < FANOUT && s in Sectors(ts[i]);
        assert Good(ts[i], level - 1, Part(n, i, Unit(level)), disk, used, fm);
      }
    }
  }

  /** Growth of the children is growth of the index block: leaves. */
  lemma NodeKeepsLeaves(t: Tree, e: nat, ts: seq<Tree>, ts': seq<Tree>, level: nat, k: nat, n: nat, disk: Disk,
                        disk': Disk)
    requires 1 <= level <= 2 && k <= n <= Capacity(level) && |ts| == |ts'| == FANOUT && |disk| == |disk'|
    requires t == Node(e, ts) || (t == Hole && k == 0)
    requires forall i :: 0 <= i < FANOUT ==>
      KeepsLeaves(ts[i], Part(k, i, Unit(level)), ts'[i], Part(n, i, Unit(level)), level - 1, disk)
    requires forall i, s :: 0 <= i < FANOUT && s in Sectors(ts'[i]) ==> s < |disk| && disk'[s] == disk[s]
    requires forall i, s :: 0 <= i < FANOUT && s in Sectors(ts'[i]) && s !in Sectors(ts[i]) ==> s !in Sectors(t)
    requires forall i :: 0 <= i < FANOUT ==> Shape(ts'[i], level - 1, Part(n, i, Unit(level))) && Separate(ts'[i])
    ensures KeepsLeaves(t, k, Node(e, ts'), n, level, disk')
  {
    var t' := Node(e, ts');
    forall i | 0 <= i < n
      ensures i < k ==> LeafAt(t', level, i) == LeafAt(t, level, i)
      ensures k <= i ==>
        && LeafAt(t', level, i) !in Sectors(t) && LeafAt(t', level, i) < |disk'|
        && disk'[LeafAt(t', level, i)] == ZERO_SECTOR
    {
      PartBounds(n, level, i);
      var q, r := i / Unit(level), i % Unit(level);
      assert LeafAt(t', level, i) == LeafAt(ts'[q], level - 1, r);
      assert KeepsLeaves(ts[q], Part(k, q, Unit(level)), ts'[q], Part(n, q, Unit(level)), level - 1, disk);
      LeafInside(ts'[q], level - 1, Part(n, q, Unit(level)), r);
      if i < k {
        PartBounds(k, level, i);
      } else {
        PartBeyond(k, level, i);
      }
    }
  }

  lemma PartBeyond(k: nat, level: nat, i: nat)
    requires 1 <= level <= 2 && k <= i
    ensures Part(k, i / Unit(level), Unit(level)) <= i % Unit(level)
  {
    if level == 1 {
      assert i / 1 == i;
    }
  }

  lemma SectorsOfNode(e: nat, ts: seq<Tree>)
    ensures Sectors(Node(e, ts)) == {e} + AllSectors(ts)
    ensures IndexSectors(Node(e, ts)) == {e} + AllIndexSectors(ts)
  {
  }

  /** The index block T lies open: its pointers TS have been read from sector E.  If T was a hole, E has
      just been allocated and zeroed, taking the state from DISK0 and USED0 to DISK1 and USED1. */
  ghost predicate Opened(t: Tree, e: nat, ts: seq<Tree>, k: nat, disk0: Disk, used0: seq<bool>, disk1: Disk,
                         used1: seq<bool>,
                         fm: set<nat>)
  {
    && |ts| == FANOUT && |disk0| == |disk1| && |used0| == |used1| && Usable(e, used1, fm)
    && (forall i :: 0 <= i < FANOUT ==> e !in Sectors(ts[i]))
    && (if t.Hole? then
          && k == 0 && ts == NoKids() && !used0[e] && used1 == used0[e := true]
          && Frame(disk0, used0, disk1, {}, fm)
        else
          t == Node(e, ts) && disk1 == disk0 && used1 == used0)
  }

  lemma GrownKids(e: nat, ts: seq<Tree>, level: nat, k: nat, disk1: Disk, used1: seq<bool>,
                  ts': seq<Tree>, n: nat, disk2: Disk, used2: seq<bool>, fm: set<nat>, i: nat)
    requires 1 <= level <= 2 && |ts| == FANOUT && i < FANOUT
    requires Usable(e, used1, fm) && e !in Sectors(ts[i])
    requires FamilyGrew(ts, KidLevels(level), KidCounts(k, n, 0, level), disk1, used1,
                        ts', KidCounts(k, n, FANOUT, level), disk2, used2, fm)
    ensures Good(ts'[i], level - 1, Part(n, i, Unit(level)), disk2, used2, fm)
    ensures KeepsLeaves(ts[i], Part(k, i, Unit(level)), ts'[i], Part(n, i, Unit(level)), level - 1, disk2)
    ensures e !in Sectors(ts'[i]) && Sectors(ts[i]) <= Sectors(ts'[i])
  {
    assert Good(ts'[i], KidLevels(level)[i], KidCounts(k, n, FANOUT, level)[i], disk2, used2, fm);
    assert KeepsLeaves(ts[i], KidCounts(k, n, 0, level)[i], ts'[i], KidCounts(k, n, FANOUT, level)[i],
                       KidLevels(level)[i], disk2);
  }

  /** Writing the pointers of the grown family back to sector E completes the growth of the index block. */
  lemma NodeGrew(t: Tree, e: nat, ts: seq<Tree>, level: nat, k: nat, disk0: Disk, used0: seq<bool>, disk1: Disk,
                 used1: seq<bool>,
                 ts': seq<Tree>, n: nat, disk2: Disk, used2: seq<bool>, ptrs: Pointers, fm: set<nat>)
    requires 1 <= level <= 2 && 1 <= n && k <= n <= Capacity(level)
    requires Opened(t, e, ts, k, disk0, used0, disk1, used1, fm)
    requires FamilyGrew(ts, KidLevels(level), KidCounts(k, n, 0, level), disk1, used1,
                        ts', KidCounts(k, n, FANOUT, level), disk2, used2, fm)
    requires forall i :: 0 <= i < FANOUT ==> ptrs[i] == Entry(ts'[i])
    ensures Grew(t, level, k, disk0, used0, Node(e, ts'), n, disk2[e := EncodePointers(ptrs)], used2, fm)
  {
    forall i | 0 <= i < FANOUT
      ensures Good(ts'[i], level - 1, Part(n, i, Unit(level)), disk2, used2, fm)
      ensures KeepsLeaves(ts[i], Part(k, i, Unit(level)), ts'[i], Part(n, i, Unit(level)), level - 1, disk2)
      ensures e !in Sectors(ts'[i]) && Sectors(ts[i]) <= Sectors(ts'[i])
    {
      GrownKids(e, ts, level, k, disk1, used1, ts', n, disk2, used2, fm, i);
    }
    assert Usable(e, used2, fm);
    NodeGood(e, ts', level, n, disk2, used2, fm, ptrs);
    NodeGrewSectors(t, e, ts, ts');
    NodeGrewMap(t, e, ts, used0, used1, ts', used2);
    NodeGrewLeaves(t, e, ts, level, k, ts', n, disk2, used2, ptrs, fm);
    NodeGrewFrame(t, e, ts, disk0, used0, disk1, used1, disk2, ptrs, fm);
  }

  lemma NodeGrewSectors(t: Tree, e: nat, ts: seq<Tree>, ts': seq<Tree>)
    requires t == Node(e, ts) || t == Hole
    requires |ts| == |ts'|
    requires forall i :: 0 <= i < |ts| ==> Sectors(ts[i]) <= Sectors(ts'[i])
    requires forall i :: 0 <= i < |ts| ==> IndexSectors(ts[i]) <= IndexSectors(ts'[i])
    ensures Sectors(t) <= Sectors(Node(e, ts')) && IndexSectors(t) <= IndexSectors(Node(e, ts'))
  {
  }

  lemma NodeGrewMap(t: Tree, e: nat, ts: seq<Tree>, used0: seq<bool>, used1: seq<bool>, ts': seq<Tree>,
                    used2: seq<bool>)
    requires |used0| == |used1| == |used2| && |ts| == |ts'| && 0 <= e < |used1| && used1[e]
    requires if t.Hole? then ts == NoKids() && !used0[e] && used1 == used0[e := true]
             else t == Node(e, ts) && used1 == used0
    requires forall s :: 0 <= s < |used1| ==> (used2[s] <==> used1[s] || s in AllSectors(ts'))
    requires forall i, s {:trigger s in Sectors(ts'[i])} ::
      0 <= i < |ts| && s in Sectors(ts'[i]) && s !in Sectors(ts[i]) ==> 0 <= s < |used1| && !used1[s]
    ensures forall s :: 0 <= s < |used0| ==> (used2[s] <==> used0[s] || s in Sectors(Node(e, ts')))
    ensures forall s :: s in Sectors(Node(e, ts')) && s !in Sectors(t) ==> s < |used0| && !used0[s]
  {
    hide Sectors, AllSectors;
    SectorsOfNode(e, ts);
    SectorsOfNode(e, ts');
    NoKidsSectors();
    forall s | s in Sectors(Node(e, ts')) && s !in Sectors(t) && s != e
      ensures s < |used0| && !used0[s]
    {
      NewUnderKids(ts, ts', used1, s);
    }
  }

  lemma NoKidsSectors()
    ensures AllSectors(NoKids()) == {}
  {
  }

  /** A sector that the subtrees gained was free. */
  lemma NewUnderKids(ts: seq<Tree>, ts': seq<Tree>, used: seq<bool>, s: nat)
    requires |ts| == |ts'| && s in AllSectors(ts') && s !in AllSectors(ts)
    requires forall i, x {:trigger x in Sectors(ts'[i])} ::
      0 <= i < |ts| && x in Sectors(ts'[i]) && x !in Sectors(ts[i]) ==> 0 <= x < |used| && !used[x]
    ensures s < |used| && !used[s]
  {
    hide Sectors;
    var i :| 0 <= i < |ts'| && s in Sectors(ts'[i]);
    assert s !in Sectors(ts[i]);
    assert 0 <= s < |used| && !used[s];
  }

  lemma NodeGrewLeaves(t: Tree, e: nat, ts: seq<Tree>, level: nat, k: nat, ts': seq<Tree>, n: nat, disk2: Disk,
                       used2: seq<bool>,
                       ptrs: Pointers, fm: set<nat>)
    requires 1 <= level <= 2 && k <= n <= Capacity(level) && |ts| == |ts'| == FANOUT && e < |disk2|
    requires |used2| <= |disk2|
    requires t == Node(e, ts) || (t == Hole && k == 0)
    requires Apart(ts')
    requires forall i :: 0 <= i < FANOUT ==>
      && Good(ts'[i], level - 1, Part(n, i, Unit(level)), disk2, used2, fm)
      && KeepsLeaves(ts[i], Part(k, i, Unit(level)), ts'[i], Part(n, i, Unit(level)), level - 1, disk2)
      && e !in Sectors(ts'[i]) && Sectors(ts[i]) <= Sectors(ts'[i])
    ensures KeepsLeaves(t, k, Node(e, ts'), n, level, disk2[e := EncodePointers(ptrs)])
  {
    var disk3 := disk2[e := EncodePointers(ptrs)];
    forall i, s | 0 <= i < FANOUT && s in Sectors(ts'[i])
      ensures s < |disk2| && disk3[s] == disk2[s]
      ensures s !in Sectors(ts[i]) ==> s !in Sectors(t)
    {
      assert Usable(s, used2, fm);
      if t.Node? && s !in Sectors(ts[i]) {
        forall j | 0 <= j < FANOUT && j != i ensures s !in Sectors(ts[j]) {
          assert Sectors(ts'[i]) !! Sectors(ts'[j]);
        }
      }
    }
    NodeKeepsLeaves(t, e, ts, ts', level, k, n, disk2, disk3);
  }

  lemma NodeGrewFrame(t: Tree, e: nat, ts: seq<Tree>, disk0: Disk, used0: seq<bool>, disk1: Disk, used1: seq<bool>,
                      disk2: Disk, ptrs: Pointers, fm: set<nat>)
    requires (t == Node(e, ts) && disk1 == disk0 && used1 == used0)
          || (t == Hole && ts == NoKids() && |used0| == |used1| && e < |used0| && !used0[e] && used1 == used0[e := true]
              && Frame(disk0, used0, disk1, {}, fm))
    requires e < |used1| && Frame(disk1, used1, disk2, AllIndexSectors(ts), fm)
    ensures Frame(disk0, used0, disk2[e := EncodePointers(ptrs)], IndexSectors(t), fm)
  {
    SectorsOfNode(e, ts);
  }
}
