/** Giving a file's sectors back: inode_deallocate and inode_deallocate_indirect. */
module Deallocate {
  import opened Layout
  import opened Bitmap
  import opened BlockTree
  import opened Growth
  import opened FileMap
  import opened Reserve
  import FreeMap

  /** Exactly the sectors in GONE have been released. */
  ghost predicate Released(used: seq<bool>, used': seq<bool>, gone: set<nat>) {
    |used| == |used'| && forall s :: 0 <= s < |used| ==> (used'[s] <==> used[s] && s !in gone)
  }

  /** Only sectors in FM differ. */
  ghost predicate SameBut(disk: Disk, disk': Disk, fm: set<nat>) {
    |disk| == |disk'| && forall s :: 0 <= s < |disk| && s !in fm ==> disk'[s] == disk[s]
  }

  lemma SameButTrans(a: Disk, b: Disk, c: Disk, fm: set<nat>)
    requires SameBut(a, b, fm) && SameBut(b, c, fm)
    ensures SameBut(a, c, fm)
  {
  }

  lemma ReleasedTrans(a: seq<bool>, b: seq<bool>, c: seq<bool>, x: set<nat>, y: set<nat>)
    requires Released(a, b, x) && Released(b, c, y)
    ensures Released(a, c, x + y)
  {
  }

  /** A tree is not affected by the release of other sectors. */
  lemma GoodAfterRelease(t: Tree, level: nat, k: nat, disk: Disk, used: seq<bool>, fm: set<nat>, disk': Disk,
                         used': seq<bool>, gone: set<nat>)
    requires Good(t, level, k, disk, used, fm) && SameBut(disk, disk', fm) && Released(used, used', gone)
    requires Sectors(t) !! gone
    ensures Good(t, level, k, disk', used', fm)
  {
    IndexWithin(t);
    forall s | s in IndexSectors(t) && s < |disk|
      ensures disk'[s] == disk[s]
    {
      assert Usable(s, used, fm);
    }
    GoodFrame(t, level, k, disk, used, fm, disk', used');
  }

  lemma OneReleased(used: seq<bool>, s: nat, used': seq<bool>)
    requires s < |used| && used' == Filled(used, s, 1, false)
    ensures Released(used, used', {s})
  {
  }

  /** free_map_release of one sector of a file. */
  method ReleaseOne(fm: FreeMap.Allocator, s: Word)
    requires fm.Valid() && fm.file.Open? && Usable(s, fm.Used(), fm.Own())
    modifies fm.bits.words, fm.cache, fm.cache.slots
    ensures fm.Valid() && SameBut(old(fm.cache.view), fm.cache.view, fm.Own())
    ensures Released(old(fm.Used()), fm.Used(), {s}) && fm.Free() == old(fm.Free()) + 1
  {
    hide Filled, FreeMap.Allocator.Valid, FreeMap.Recorded;
    ghost var used := fm.Used();
    fm.Release(s, 1);
    OneReleased(used, s, fm.Used());
  }

  /** The first I trees of a family have been given back; the others are as they were. */
  ghost predicate PartlyReleased(ts: seq<Tree>, lv: seq<nat>, ct: seq<nat>, disk0: Disk, used0: seq<bool>, i: nat,
                                 disk: Disk, used: seq<bool>, fm: set<nat>)
  {
    && |ts| == |lv| == |ct| && i <= |ts| && Apart(ts)
    && SameBut(disk0, disk, fm) && Released(used0, used, AllSectors(ts[..i]))
    && forall j :: i <= j < |ts| ==> Good(ts[j], lv[j], ct[j], disk, used, fm)
  }

  lemma NoneReleased(ts: seq<Tree>, lv: seq<nat>, ct: seq<nat>, disk: Disk, used: seq<bool>, fm: set<nat>)
    requires Family(ts, lv, ct, disk, used, fm)
    ensures PartlyReleased(ts, lv, ct, disk, used, 0, disk, used, fm)
  {
    assert ts[..0] == [];
  }

  lemma ReleaseNext(ts: seq<Tree>, lv: seq<nat>, ct: seq<nat>, disk0: Disk, used0: seq<bool>, i: nat,
                    disk: Disk, used: seq<bool>, fm: set<nat>, disk': Disk, used': seq<bool>)
    requires PartlyReleased(ts, lv, ct, disk0, used0, i, disk, used, fm) && i < |ts|
    requires SameBut(disk, disk', fm) && Released(used, used', Sectors(ts[i]))
    ensures PartlyReleased(ts, lv, ct, disk0, used0, i + 1, disk', used', fm)
  {
    hide Good, Sectors;
    assert AllSectors(ts[..i + 1]) == AllSectors(ts[..i]) + Sectors(ts[i]) by {
      assert ts[..i + 1] == ts[..i] + [ts[i]];
      AllSectorsAppend(ts[..i], ts[i]);
    }
    forall j | i + 1 <= j < |ts|
      ensures Good(ts[j], lv[j], ct[j], disk', used', fm)
    {
      GoodAfterRelease(ts[j], lv[j], ct[j], disk, used, fm, disk', used', Sectors(ts[i]));
    }
  }

  lemma AllSectorsAppend(ts: seq<Tree>, t: Tree)
    ensures AllSectors(ts + [t]) == AllSectors(ts) + Sectors(t)
  {
    var us := ts + [t];
    forall s | s in AllSectors(ts) ensures s in AllSectors(us) {
      var j :| 0 <= j < |ts| && s in Sectors(ts[j]);
      assert s in Sectors(us[j]);
    }
    forall s | s in Sectors(t) ensures s in AllSectors(us) {
      assert s in Sectors(us[|ts|]);
    }
  }

  /** Holes at the end hold nothing, so the family is already gone. */
  lemma RestAreHoles(ts: seq<Tree>, lv: seq<nat>, ct: seq<nat>, disk0: Disk, used0: seq<bool>, i: nat,
                     disk: Disk, used: seq<bool>, fm: set<nat>)
    requires PartlyReleased(ts, lv, ct, disk0, used0, i, disk, used, fm)
    requires forall j :: i <= j < |ts| ==> ct[j] == 0
    ensures Released(used0, used, AllSectors(ts))
  {
    forall j | i <= j < |ts|
      ensures Sectors(ts[j]) == {}
    {
      assert Good(ts[j], lv[j], ct[j], disk, used, fm);
    }
    forall s | s in AllSectors(ts)
      ensures s in AllSectors(ts[..i])
    {
      var j :| 0 <= j < |ts| && s in Sectors(ts[j]);
      assert ts[..i][j] == ts[j];
    }
    forall s | s in AllSectors(ts[..i])
      ensures s in AllSectors(ts)
    {
      var j :| 0 <= j < i && s in Sectors(ts[..i][j]);
      assert s in Sectors(ts[j]);
    }
  }

  lemma KidStep(ts: seq<Tree>, level: nat, num: nat, i: nat, disk0: Disk, used0: seq<bool>, disk: Disk,
                used: seq<bool>, fm: set<nat>)
    requires 1 <= level <= 2 && |ts| == FANOUT && i < 128
    requires PartlyReleased(ts, KidLevels(level), KidCounts(num, 0, 0, level), disk0, used0, i, disk, used, fm)
    ensures Good(ts[i], level - 1, Part(num, i, Unit(level)), disk, used, fm)
  {
    assert Good(ts[i], KidLevels(level)[i], KidCounts(num, 0, 0, level)[i], disk, used, fm);
  }

  lemma KidsGone(ts: seq<Tree>, level: nat, num: nat, l: nat, disk0: Disk, used0: seq<bool>, disk: Disk,
                 used: seq<bool>, fm: set<nat>)
    requires 1 <= level <= 2 && |ts| == FANOUT && num <= l * Unit(level)
    requires PartlyReleased(ts, KidLevels(level), KidCounts(num, 0, 0, level), disk0, used0, l, disk, used, fm)
    ensures SameBut(disk0, disk, fm) && Released(used0, used, AllSectors(ts))
  {
    forall j | l <= j < 128
      ensures KidCounts(num, 0, 0, level)[j] == 0
    {
      assert level == 1 ==> j * Unit(level) == j && l * Unit(level) == l;
      assert level == 2 ==> j * Unit(level) == 128 * j && l * Unit(level) == 128 * l;
      assert Part(num, j, Unit(level)) == 0;
    }
    RestAreHoles(ts, KidLevels(level), KidCounts(num, 0, 0, level), disk0, used0, l, disk, used, fm);
  }

  lemma SpentEnd(level: nat, num: nat, l: nat)
    requires 1 <= level <= 2 && num <= l * Unit(level) && l <= 128
    ensures Spent(level, num, l) == Spent(level, num, 128)
  {
  }

  lemma NodeUsable(e: nat, ts: seq<Tree>, used: seq<bool>, fm: set<nat>, used': seq<bool>)
    requires Usable(e, used, fm) && e !in AllSectors(ts) && Released(used, used', AllSectors(ts))
    ensures Usable(e, used', fm) && Sectors(Node(e, ts)) == AllSectors(ts) + {e}
  {
    SectorsOfNode(e, ts);
  }

  lemma NotInKids(e: nat, ts: seq<Tree>)
    requires forall i :: 0 <= i < |ts| ==> e !in Sectors(ts[i])
    ensures e !in AllSectors(ts)
  {
  }

  /** The loop of inode_deallocate_indirect over the children of an index block. */
  method DeallocateKids(fm: FreeMap.Allocator, ptrs: Pointers, num: nat, level: nat, ghost ts: seq<Tree>)
    requires fm.Valid() && fm.file.Open? && 1 <= num <= Capacity(level)
    requires PointersRead(ptrs, ts, level, num, fm.cache.view, fm.Used(), fm.Own())
    modifies fm.bits.words, fm.cache, fm.cache.slots
    ensures fm.Valid() && SameBut(old(fm.cache.view), fm.cache.view, fm.Own())
    ensures Released(old(fm.Used()), fm.Used(), AllSectors(ts)) && fm.Free() == old(fm.Free()) + Spent(level, num, 128)
    decreases level, 0
  {
    hide *;
    ghost var disk0, used0, free0, own := fm.cache.view, fm.Used(), fm.Free(), fm.Own();
    ReadPointers(ptrs, ts, level, num, disk0, used0, own);
    ghost var lv, ct := KidLevels(level), KidCounts(num, 0, 0, level);
    var unit := if level == 1 then 1 else 128;
    var l := (num + unit - 1) / unit;
    var rest := num;
    var i := 0;
    CeilFacts(num, level, l);
    while i < l
      invariant 0 <= i <= l && fm.Valid() && fm.file.Open? && fm.Own() == own
      invariant rest == if i * Unit(level) < num then num - i * Unit(level) else 0
      invariant PartlyReleased(ts, lv, ct, disk0, used0, i, fm.cache.view, fm.Used(), own)
      invariant fm.Free() == free0 + Spent(level, num, i)
    {
      CeilFacts(num, level, i);
      LoopArithmetic(num, level, i, rest);
      KidStep(ts, level, num, i, disk0, used0, fm.cache.view, fm.Used(), own);
      SpentStep(level, num, i);
      ghost var disk1, used1 := fm.cache.view, fm.Used();
      var subsize := Min(rest, unit);
      DeallocateIndirect(fm, ptrs[i], subsize, level - 1, ts[i]);
      ReleaseNext(ts, lv, ct, disk0, used0, i, disk1, used1, own, fm.cache.view, fm.Used());
      rest := rest - subsize;
      i := i + 1;
    }
    KidsGone(ts, level, num, l, disk0, used0, fm.cache.view, fm.Used(), own);
    SpentEnd(level, num, l);
  }

  lemma ReadPointers(ptrs: Pointers, ts: seq<Tree>, level: nat, k: nat, disk: Disk, used: seq<bool>, fm: set<nat>)
    requires PointersRead(ptrs, ts, level, k, disk, used, fm)
    ensures 1 <= level <= 2 && |ts| == FANOUT == 128 && forall i :: 0 <= i < 128 ==> ptrs[i] == Entry(ts[i])
    ensures PartlyReleased(ts, KidLevels(level), KidCounts(k, 0, 0, level), disk, used, 0, disk, used, fm)
    ensures |KidLevels(level)| == |KidCounts(k, 0, 0, level)| == |ts|
    ensures Spent(level, k, 0) == 0
  {
    NoneReleased(ts, KidLevels(level), KidCounts(k, 0, 0, level), disk, used, fm);
  }

  lemma LeafSectors(t: Tree, k: nat, disk: Disk, used: seq<bool>, fm: set<nat>)
    requires Good(t, 0, k, disk, used, fm) && k >= 1
    ensures k == 1 && Sectors(t) == {Entry(t)} && Usable(Entry(t), used, fm)
    ensures Cost(0, k) == 1
  {
  }

  /** inode_deallocate_indirect: every sector of the tree, each marked when it is released. */
  method DeallocateIndirect(fm: FreeMap.Allocator, entry: Word, num: nat, level: nat, ghost t: Tree)
    requires fm.Valid() && fm.file.Open? && level <= 2 && 1 <= num <= Capacity(level)
    requires Good(t, level, num, fm.cache.view, fm.Used(), fm.Own()) && entry == Entry(t)
    modifies fm.bits.words, fm.cache, fm.cache.slots
    ensures fm.Valid() && SameBut(old(fm.cache.view), fm.cache.view, fm.Own())
    ensures Released(old(fm.Used()), fm.Used(), Sectors(t)) && fm.Free() == old(fm.Free()) + Cost(level, num)
    decreases level, 1
  {
    hide *;
    ghost var disk0, used0, own := fm.cache.view, fm.Used(), fm.Own();
    fm.Sizes();
    if level == 0 {
      LeafSectors(t, num, disk0, used0, own);
      ReleaseOne(fm, entry);
      return;
    }
    HoleOrNode(t, level, num, disk0, used0, own);
    OpenExisting(t, level, num, disk0, used0, own);
    KidsOf(t, level, num, disk0, used0, own);
    MaxIs();
    NotInKids(t.sector, t.kids);
    NodeCost(level, num, num);
    var block := fm.Fetch(entry);
    DeallocateKids(fm, DecodePointers(block), num, level, t.kids);
    ghost var disk1, used1 := fm.cache.view, fm.Used();
    NodeUsable(t.sector, t.kids, used0, own, used1);
    ReleaseOne(fm, entry);
    SameButTrans(disk0, disk1, fm.cache.view, own);
    ReleasedTrans(used0, used1, fm.Used(), AllSectors(t.kids), {t.sector});
  }

  lemma RootStep(ts: seq<Tree>, n: nat, i: nat, disk0: Disk, used0: seq<bool>, disk: Disk, used: seq<bool>,
                 fm: set<nat>)
    requires |ts| == ROOTS && i < 125
    requires PartlyReleased(ts, RootLevels(), RootCounts(n, 0, 0), disk0, used0, i, disk, used, fm)
    ensures Good(ts[i], RootLevel(i), RootCount(n, i), disk, used, fm)
  {
    assert Good(ts[i], RootLevels()[i], RootCounts(n, 0, 0)[i], disk, used, fm);
  }

  lemma RootsStart(d: InodeDisk, ts: seq<Tree>, n: nat, disk: Disk, used: seq<bool>, fm: set<nat>)
    requires Mapped(d, ts, n, disk, used, fm)
    ensures |ts| == ROOTS && n <= 16635 && Points(d, ts)
    ensures PartlyReleased(ts, RootLevels(), RootCounts(n, 0, 0), disk, used, 0, disk, used, fm)
    ensures RootSpent(n, 0) == 0
  {
    NoneReleased(ts, RootLevels(), RootCounts(n, 0, 0), disk, used, fm);
  }

  lemma RootsGone(ts: seq<Tree>, n: nat, i: nat, disk0: Disk, used0: seq<bool>, disk: Disk, used: seq<bool>,
                  fm: set<nat>)
    requires |ts| == ROOTS && n <= 16635 && (n <= i <= 123 || (n <= 251 && i == 124) || i == 125)
    requires PartlyReleased(ts, RootLevels(), RootCounts(n, 0, 0), disk0, used0, i, disk, used, fm)
    ensures SameBut(disk0, disk, fm) && Released(used0, used, AllSectors(ts)) && RootSpent(n, i) == FileCost(n)
  {
    forall j | i <= j < ROOTS
      ensures RootCounts(n, 0, 0)[j] == 0
    {
      assert RootCounts(n, 0, 0)[j] == RootCount(n, j);
    }
    RestAreHoles(ts, RootLevels(), RootCounts(n, 0, 0), disk0, used0, i, disk, used, fm);
    FileCostIs(n);
    RootsDone(n, n, i);
  }

  /** The direct-block loop of inode_deallocate. */
  method DeallocateDirect(fm: FreeMap.Allocator, d: InodeDisk, l: nat, ghost ts: seq<Tree>, ghost n: nat)
    requires fm.Valid() && fm.file.Open? && l == Min(n, 123)
    requires Mapped(d, ts, n, fm.cache.view, fm.Used(), fm.Own())
    modifies fm.bits.words, fm.cache, fm.cache.slots
    ensures fm.Valid() && fm.Free() == old(fm.Free()) + RootSpent(n, l)
    ensures PartlyReleased(ts, RootLevels(), RootCounts(n, 0, 0), old(fm.cache.view), old(fm.Used()), l, fm.cache.view,
                           fm.Used(), fm.Own())
  {
    hide *;
    ghost var disk0, used0, free0, own := fm.cache.view, fm.Used(), fm.Free(), fm.Own();
    ghost var lv, ct := RootLevels(), RootCounts(n, 0, 0);
    RootsStart(d, ts, n, disk0, used0, own);
    MinIs(n, 123);
    var i := 0;
    while i < l
      invariant 0 <= i <= l && fm.Valid() && fm.file.Open? && fm.Own() == own
      invariant PartlyReleased(ts, lv, ct, disk0, used0, i, fm.cache.view, fm.Used(), own)
      invariant fm.Free() == free0 + RootSpent(n, i)
    {
      RootStep(ts, n, i, disk0, used0, fm.cache.view, fm.Used(), own);
      RootFacts(n, n, i);
      DirectSpent(n, n, i, l);
      DirectPointer(d, ts, i);
      LeafSectors(ts[i], RootCount(n, i), fm.cache.view, fm.Used(), own);
      ghost var disk1, used1 := fm.cache.view, fm.Used();
      ReleaseOne(fm, d.direct[i]);
      ReleaseNext(ts, lv, ct, disk0, used0, i, disk1, used1, own, fm.cache.view, fm.Used());
      i := i + 1;
    }
  }

  /** The indirect (J = 123) or doubly indirect (J = 124) part of inode_deallocate. */
  method DeallocateRoot(fm: FreeMap.Allocator, d: InodeDisk, j: nat, num: nat, ghost ts: seq<Tree>, ghost n: nat,
                        ghost disk0: Disk, ghost used0: seq<bool>)
    requires fm.Valid() && fm.file.Open? && (j == 123 || j == 124) && num == RootCount(n, j)
    requires 1 <= num <= Capacity(RootLevel(j))
    requires Points(d, ts)
    requires PartlyReleased(ts, RootLevels(), RootCounts(n, 0, 0), disk0, used0, j, fm.cache.view, fm.Used(), fm.Own())
    modifies fm.bits.words, fm.cache, fm.cache.slots
    ensures fm.Valid() && fm.Free() == old(fm.Free()) + RootSpent(n, j + 1) - RootSpent(n, j)
    ensures PartlyReleased(ts, RootLevels(), RootCounts(n, 0, 0), disk0, used0, j + 1, fm.cache.view, fm.Used(),
                           fm.Own())
  {
    hide *;
    ghost var disk1, used1, own := fm.cache.view, fm.Used(), fm.Own();
    DirectPointer(d, ts, 0);
    MaxIs();
    RootStep(ts, n, j, disk0, used0, disk1, used1, own);
    RootFacts(n, n, j);
    SpentFacts(n, n, j);
    DeallocateIndirect(fm, if j == 123 then d.indirect else d.doubly, num, if j == 123 then 1 else 2, ts[j]);
    ReleaseNext(ts, RootLevels(), RootCounts(n, 0, 0), disk0, used0, j, disk1, used1, own, fm.cache.view, fm.Used());
  }

  /** inode_deallocate: exactly the sectors of the file are released, and each was marked at that moment. */
  method Deallocate(fm: FreeMap.Allocator, d: InodeDisk, ghost ts: seq<Tree>)
    requires fm.Valid() && fm.file.Open? && d.length >= 0
    requires Mapped(d, ts, BytesToSectors(d.length), fm.cache.view, fm.Used(), fm.Own())
    modifies fm.bits.words, fm.cache, fm.cache.slots
    ensures fm.Valid() && SameBut(old(fm.cache.view), fm.cache.view, fm.Own())
    ensures Released(old(fm.Used()), fm.Used(), AllSectors(ts))
    ensures fm.Free() == old(fm.Free()) + FileCost(BytesToSectors(d.length))
  {
    hide *;
    ghost var disk0, used0, own := fm.cache.view, fm.Used(), fm.Own();
    var num := BytesToSectors(d.length);
    ghost var n := num;
    MaxIs();
    RootsStart(d, ts, n, disk0, used0, own);
    RootFacts(n, n, 0);
    var l := Min(num, 123);
    MinIs(num, 123);
    DeallocateDirect(fm, d, l, ts, n);
    num := num - l;
    if n <= 123 {
      RootsGone(ts, n, l, disk0, used0, fm.cache.view, fm.Used(), own);
    }
    l := Min(num, 128);
    MinIs(num, 128);
    if l > 0 {
      DeallocateRoot(fm, d, 123, l, ts, n, disk0, used0);
      num := num - l;
      if n <= 251 {
        RootsGone(ts, n, 124, disk0, used0, fm.cache.view, fm.Used(), own);
      }
    }
    l := Min(num, 16384);
    MinIs(num, 16384);
    if l > 0 {
      DeallocateRoot(fm, d, 124, l, ts, n, disk0, used0);
      num := num - l;
      RootsGone(ts, n, 125, disk0, used0, fm.cache.view, fm.Used(), own);
    }
  }
}
