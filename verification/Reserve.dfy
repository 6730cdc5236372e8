/** Extending a file: inode_reserve and inode_reserve_indirect. */
module Reserve {
  import opened Layout
  import opened Bitmap
  import opened BlockTree
  import opened Growth
  import opened FileMap
  import opened Lookup
  import FreeMap

  // ---- cost -----------------------------------------------------------------------

  /** Sectors, index blocks included, under the first I children of an index block with K data sectors. */
  function Spent(level: nat, k: nat, i: nat): nat {
    if level <= 1 then Min(k, i)
    else var m := Min(k, 128 * i); m + (m + 127) / 128
  }

  /** Sectors of a tree with K data sectors. */
  function Cost(level: nat, k: nat): nat {
    if level == 0 || k == 0 then k else 1 + Spent(level, k, 128)
  }

  lemma SpentStep(level: nat, k: nat, i: nat)
    requires 1 <= level <= 2
    ensures Spent(level, k, i + 1) == Spent(level, k, i) + Cost(level - 1, Part(k, i, Unit(level)))
  {
  }

  lemma SpentMonotone(level: nat, k: nat, n: nat, i: nat, j: nat)
    requires 1 <= level <= 2 && k <= n && i <= j
    ensures Spent(level, k, j) - Spent(level, k, i) <= Spent(level, n, j) - Spent(level, n, i)
    ensures Spent(level, n, i) <= Spent(level, n, j)
  {
  }

  /** What can happen to the device when an extension fails: marks are only added, and sectors that were in
      use stay as they are, except the file's own index blocks and sector 0. */
  ghost predicate Spoiled(disk: Disk, used: seq<bool>, disk': Disk, used': seq<bool>, index: set<nat>, fm: set<nat>) {
    && |disk| == |disk'| && |used| <= |disk| && OnlyMarks(used, used')
    && forall s :: 0 < s < |used| && used[s] && s !in index && s !in fm ==> disk'[s] == disk[s]
  }

  /** Sector 0 has been zeroed if HIT, and is as it was otherwise. */
  ghost predicate SectorZero(disk: Disk, disk': Disk, hit: bool) {
    |disk| == |disk'| && |disk| > 0 && disk'[0] == if hit then ZERO_SECTOR else disk[0]
  }

  /** Growing from K to N with F free sectors gets stuck at an index block: some data sector X can no longer be
      added, and what is missing is not just the data sector itself. */
  ghost predicate Lost(level: nat, k: nat, n: nat, f: int) {
    exists x :: k <= x < n && Cost(level, x) - Cost(level, k) <= f && f + 1 < Cost(level, x + 1) - Cost(level, k)
  }

  /** The same for the children of an index block: child I is the one that cannot be completed. */
  ghost predicate LostKids(level: nat, k: nat, n: nat, f: int)
    requires level >= 1
  {
    exists i :: 0 <= i < 128 && Stuck(level, k, n, f, i) && LostKid(level, k, n, f, i)
  }

  /** Free sectors left when the loop reaches child I. */
  function Left(level: nat, k: nat, n: nat, f: int, i: nat): int {
    f - (Spent(level, n, i) - Spent(level, k, i))
  }

  predicate Stuck(level: nat, k: nat, n: nat, f: int, i: nat)
    requires level >= 1
  {
    0 <= Left(level, k, n, f, i) < Cost(level - 1, Part(n, i, Unit(level))) - Cost(level - 1, Part(k, i, Unit(level)))
  }

  ghost predicate LostKid(level: nat, k: nat, n: nat, f: int, i: nat)
    requires level >= 1
  {
    Lost(level - 1, Part(k, i, Unit(level)), Part(n, i, Unit(level)), Left(level, k, n, f, i))
  }

  /** Only one child can be the one where the loop gets stuck. */
  lemma StuckOnce(level: nat, k: nat, n: nat, f: int, i: nat, j: nat)
    requires 1 <= level <= 2 && k <= n && i < 128 && j < 128 && Stuck(level, k, n, f, i) && Stuck(level, k, n, f, j)
    ensures i == j
  {
    hide Spent, Cost, Part;
    var a, b := Min(i, j), if i < j then j else i;
    SpentStep(level, k, a);
    SpentStep(level, n, a);
    if a < b {
      SpentMonotone(level, k, n, a + 1, b);
    }
  }

  lemma LostKidsAt(level: nat, k: nat, n: nat, f: int, i: nat)
    requires 1 <= level <= 2 && k <= n && i < 128 && Stuck(level, k, n, f, i)
    ensures LostKids(level, k, n, f) <==> LostKid(level, k, n, f, i)
  {
    hide Stuck, LostKid;
    forall j | 0 <= j < 128 && Stuck(level, k, n, f, j)
      ensures j == i
    {
      StuckOnce(level, k, n, f, i, j);
    }
  }

  lemma LostSector(k: nat, n: nat, f: int)
    ensures !Lost(0, k, n, f)
  {
  }

  lemma LostIndirect(k: nat, n: nat, f: int)
    requires n <= 128
    ensures Lost(1, k, n, f) <==> k == 0 && f == 0 && n >= 1
  {
    if k == 0 && f == 0 && n >= 1 {
      assert Cost(1, 0) == 0 && Cost(1, 1) == 2;
    }
  }

  /** An index block of level 1 is lost exactly when it cannot be allocated itself. */
  lemma LostLevel1(k: nat, n: nat, f: nat)
    requires 1 <= n <= 128 && k <= n
    ensures Lost(1, k, n, f) <==> (k == 0 && f == 0) || LostKids(1, k, n, f - if k == 0 then 1 else 0)
  {
    LostIndirect(k, n, f);
    var g := f - if k == 0 then 1 else 0;
    forall i | 0 <= i < 128
      ensures !LostKid(1, k, n, g, i)
    {
      LostSector(Part(k, i, 1), Part(n, i, 1), Left(1, k, n, g, i));
    }
  }

  lemma Cost2(x: nat)
    requires x <= 16384
    ensures Cost(2, x) == if x == 0 then 0 else 1 + x + (x + 127) / 128
  {
  }

  /** Where an index block of level 2 needs more than the data sector. */
  lemma Cost2Step(x: nat)
    requires x < 16384
    ensures Cost(2, x + 1) - Cost(2, x) == if x == 0 then 3 else if x % 128 == 0 then 2 else 1
  {
    Cost2(x);
    Cost2(x + 1);
  }

  lemma Left2(k: nat, n: nat, f: int, i: nat)
    requires k <= 128 * i <= n <= 16384 && i < 128
    ensures Left(2, k, n, f, i) == f - (129 * i - (k + (k + 127) / 128))
    ensures Part(k, i, 128) == 0
  {
  }

  lemma CeilOf(i: nat, x: nat)
    requires x == 128 * i
    ensures (x + 127) / 128 == i
  {
  }

  /** Child I of an index block of level 2 is due, is not there yet, and no sector is left for it. */
  lemma StuckHere(k: nat, n: nat, g: int, i: nat)
    requires k <= 128 * i < n <= 16384 && i < 128 && Left(2, k, n, g, i) == 0
    ensures Stuck(2, k, n, g, i) && LostKid(2, k, n, g, i)
  {
    hide Left, Lost;
    var p := Part(n, i, 128);
    assert Part(k, i, 128) == 0 && 1 <= p <= 128;
    assert Cost(1, 0) == 0 && Cost(1, p) >= 1;
    LostIndirect(0, p, 0);
  }

  lemma LostLevel2Down(k: nat, n: nat, f: nat, x: nat)
    requires 1 <= n <= 16384 && k <= x < n && Cost(2, x) - Cost(2, k) <= f && f + 1 < Cost(2, x + 1) - Cost(2, k)
    ensures (k == 0 && f == 0) || LostKids(2, k, n, f - if k == 0 then 1 else 0)
  {
    hide Cost, Left, Stuck, LostKid;
    Cost2Step(x);
    Cost2(x);
    Cost2(k);
    var i, g := x / 128, f - if k == 0 then 1 else 0;
    assert x == 128 * i;
    CeilOf(i, x);
    if g >= 0 {
      Left2(k, n, g, i);
      StuckHere(k, n, g, i);
    }
  }

  lemma LostLevel2Up(k: nat, n: nat, f: nat, i: nat)
    requires 1 <= n <= 16384 && k <= n && i < 128
    requires var g := f - if k == 0 then 1 else 0; Stuck(2, k, n, g, i) && LostKid(2, k, n, g, i)
    ensures Lost(2, k, n, f)
  {
    hide Cost, Left, Stuck, LostKid;
    var g := f - if k == 0 then 1 else 0;
    var x := 128 * i;
    NotStuckThere(k, n, g, i);
    CeilOf(i, x);
    Left2(k, n, g, i);
    Cost2Step(x);
    Cost2(x);
    Cost2(k);
    assert Cost(2, x) - Cost(2, k) <= f && f + 1 < Cost(2, x + 1) - Cost(2, k);
  }

  /** The converse of StuckHere. */
  lemma NotStuckThere(k: nat, n: nat, g: int, i: nat)
    requires 1 <= n <= 16384 && k <= n && i < 128 && Stuck(2, k, n, g, i) && LostKid(2, k, n, g, i)
    ensures k <= 128 * i < n && Left(2, k, n, g, i) == 0
  {
    hide Left, Lost;
    LostIndirect(Part(k, i, 128), Part(n, i, 128), Left(2, k, n, g, i));
  }

  lemma LostLevel2(k: nat, n: nat, f: nat, g: int)
    requires 1 <= n <= 16384 && k <= n && g == f - if k == 0 then 1 else 0
    ensures Lost(2, k, n, f) <==> (k == 0 && f == 0) || LostKids(2, k, n, g)
  {
    hide Cost, Stuck, LostKid;
    if Lost(2, k, n, f) {
      var x :| k <= x < n && Cost(2, x) - Cost(2, k) <= f && f + 1 < Cost(2, x + 1) - Cost(2, k);
      LostLevel2Down(k, n, f, x);
    }
    if k == 0 && f == 0 {
      FirstOfAll(n);
    }
    if LostKids(2, k, n, g) {
      var i :| 0 <= i < 128 && Stuck(2, k, n, g, i) && LostKid(2, k, n, g, i);
      LostLevel2Up(k, n, f, i);
    }
  }

  lemma LostNode(level: nat, k: nat, n: nat, f: nat, g: int)
    requires 1 <= level <= 2 && 1 <= n <= Capacity(level) && k <= n && g == f - if k == 0 then 1 else 0
    ensures Lost(level, k, n, f) <==> (k == 0 && f == 0) || LostKids(level, k, n, g)
  {
    hide Lost, LostKids;
    if level == 1 {
      LostLevel1(k, n, f);
    } else {
      LostLevel2(k, n, f, g);
    }
  }

  lemma FirstOfAll(n: nat)
    requires 1 <= n
    ensures Lost(2, 0, n, 0)
  {
    assert Cost(2, 0) == 0 && Cost(2, 0 + 1) == 3;
  }

  // ---- one sector -----------------------------------------------------------------

  /** A fresh, zeroed data sector. */
  lemma LeafGrew(s: nat, disk: Disk, used: seq<bool>, disk': Disk, used': seq<bool>, fm: set<nat>)
    requires 2 <= s < |used| <= |disk| == |disk'| && !used[s] && s !in fm
    requires used' == used[s := true] && disk'[s] == ZERO_SECTOR
    requires forall x :: 0 <= x < |disk| && x !in fm && x != s ==> disk'[x] == disk[x]
    ensures Grew(Hole, 0, 0, disk, used, Leaf(s), 1, disk', used', fm)
  {
  }

  lemma GrewRefl(t: Tree, level: nat, k: nat, disk: Disk, used: seq<bool>, fm: set<nat>)
    requires Good(t, level, k, disk, used, fm) && |used| <= |disk|
    ensures Grew(t, level, k, disk, used, t, k, disk, used, fm)
  {
  }

  /** A free bit, once taken. */
  lemma TakenBit(used: seq<bool>, s: nat, used': seq<bool>)
    requires Group(used, s, 1, false) && used' == Filled(used, s, 1, true)
    ensures s < |used| && !used[s] && used' == used[s := true]
  {
  }

  /** A single sector can be allocated exactly when one is free. */
  lemma OneFree(used: seq<bool>)
    ensures (exists k :: Group(used, k, 1, false)) <==> Count(used, false) > 0
  {
    CountZero(used, false);
    forall i | 0 <= i < |used| && !used[i]
      ensures Group(used, i, 1, false)
    {
    }
    forall k: nat | Group(used, k, 1, false)
      ensures !used[k]
    {
    }
  }

  /** The least free bit, once taken. */
  lemma LeastTaken(used: seq<bool>, s: nat, used': seq<bool>)
    requires s < |used| && used' == used[s := true] && forall k :: 0 <= k < s ==> !Group(used, k, 1, false)
    ensures LowestFirst(used, used') && OnlyMarks(used, used')
  {
    forall k | 0 <= k < s
      ensures used[k]
    {
      assert !Group(used, k, 1, false);
    }
  }

  lemma MarksTrans(a: seq<bool>, b: seq<bool>, c: seq<bool>)
    requires OnlyMarks(a, b) && OnlyMarks(b, c)
    ensures OnlyMarks(a, c)
  {
  }

  lemma MarksRefl(used: seq<bool>)
    ensures OnlyMarks(used, used)
  {
  }

  /** free_map_allocate of a single sector. */
  method AllocateOne(fm: FreeMap.Allocator) returns (ok: bool, s: Word)
    requires fm.Valid() && fm.CanWrite()
    modifies fm.bits.words, fm.cache, fm.cache.slots
    ensures fm.Valid() && |fm.cache.view| == |old(fm.cache.view)|
    ensures ok == (old(fm.Free()) > 0)
    ensures ok ==>
      2 <= s < |old(fm.Used())| && !old(fm.Used())[s] && fm.Used() == old(fm.Used())[s := true] && s !in fm.Own()
    ensures ok ==> fm.Free() == old(fm.Free()) - 1
    ensures LowestFirst(old(fm.Used()), fm.Used()) && OnlyMarks(old(fm.Used()), fm.Used())
    ensures forall x :: 0 <= x < |fm.cache.view| && x !in fm.Own() ==> fm.cache.view[x] == old(fm.cache.view)[x]
    ensures !ok ==> fm.Used() == old(fm.Used()) && fm.cache.view == old(fm.cache.view) && fm.Free() == 0
  {
    hide *;
    fm.Sizes();
    fm.OwnSectors();
    OneFree(fm.Used());
    ghost var used := fm.Used();
    var sector;
    ok, sector := fm.Allocate(1);
    s := 0;
    if ok {
      TakenBit(used, sector, fm.Used());
      LeastTaken(used, sector, fm.Used());
      s := sector;
    } else {
      fm.Sizes();
      LowestRefl(used);
      MarksRefl(used);
    }
  }

  /** Level 0 of inode_reserve_indirect, and the body of the direct-block loop: make sure there is a data sector. */
  method ReserveSector(fm: FreeMap.Allocator, entry: Word, ghost t: Tree, ghost k: nat) returns (ok: bool, e: Word,
                       ghost t': Tree)
    requires fm.Valid() && fm.CanWrite()
    requires Good(t, 0, k, fm.cache.view, fm.Used(), fm.Own()) && entry == Entry(t)
    modifies fm.bits.words, fm.cache, fm.cache.slots
    ensures fm.Valid() && |fm.cache.view| == |old(fm.cache.view)|
    ensures k <= 1 && ok == (1 - k <= old(fm.Free()))
    ensures ok ==> e == Entry(t') && fm.Free() == old(fm.Free()) - (1 - k)
    ensures ok ==> Grew(t, 0, k, old(fm.cache.view), old(fm.Used()), t', 1, fm.cache.view, fm.Used(), fm.Own())
    ensures !ok ==> fm.Used() == old(fm.Used()) && fm.cache.view == old(fm.cache.view) && fm.Free() == 0
    ensures LowestFirst(old(fm.Used()), fm.Used()) && OnlyMarks(old(fm.Used()), fm.Used())
  {
    hide *;
    fm.Sizes();
    LowestRefl(fm.Used());
    MarksRefl(fm.Used());
    LevelZero(t, k, fm.cache.view, fm.Used(), fm.Own());
    ok, e, t' := true, entry, t;
    if e == 0 {
      ok, e := AllocateOne(fm);
      if ok {
        fm.Sizes();
        fm.Store(e, ZERO_SECTOR);
        t' := Leaf(e);
        LeafGrew(e, old(fm.cache.view), old(fm.Used()), fm.cache.view, fm.Used(), fm.Own());
        LeafEntry(e);
      }
    } else {
      GrewRefl(t, 0, k, fm.cache.view, fm.Used(), fm.Own());
    }
  }

  lemma LevelZero(t: Tree, k: nat, disk: Disk, used: seq<bool>, fm: set<nat>)
    requires Good(t, 0, k, disk, used, fm)
    ensures k <= 1 && (Entry(t) == 0 <==> k == 0) && (k == 0 <==> t == Hole)
  {
    assert t.Leaf? ==> t.sector in Sectors(t);
  }

  lemma LeafEntry(s: nat)
    ensures Entry(Leaf(s)) == s
  {
  }

  // ---- index blocks -----------------------------------------------------------------

  lemma HoleOrNode(t: Tree, level: nat, k: nat, disk: Disk, used: seq<bool>, fm: set<nat>)
    requires Good(t, level, k, disk, used, fm) && level >= 1
    ensures Entry(t) == 0 <==> k == 0
    ensures t == Hole <==> k == 0
    ensures k > 0 ==>
      t.Node? && |t.kids| == 128 && Usable(t.sector, used, fm) && Entry(t) == t.sector && t.sector < |used|
  {
    if t.Node? {
      assert t.sector in Sectors(t);
    }
  }

  /** State in which the pointers of an index block have been read. */
  ghost predicate PointersRead(ptrs: Pointers, ts: seq<Tree>, level: nat, k: nat, disk: Disk, used: seq<bool>,
                               fm: set<nat>) {
    && 1 <= level <= 2 && |ts| == FANOUT
    && Family(ts, KidLevels(level), KidCounts(k, 0, 0, level), disk, used, fm)
    && forall i :: 0 <= i < FANOUT ==> ptrs[i] == Entry(ts[i])
  }

  lemma OpenExisting(t: Tree, level: nat, k: nat, disk: Disk, used: seq<bool>, fm: set<nat>)
    requires Good(t, level, k, disk, used, fm) && 1 <= level <= 2 && k > 0 && |used| <= |disk|
    ensures t.Node? && t.sector < |disk|
    ensures Opened(t, t.sector, t.kids, k, disk, used, disk, used, fm)
    ensures PointersRead(DecodePointers(disk[t.sector]), t.kids, level, k, disk, used, fm)
  {
    assert t.sector in Sectors(t);
    KidsOf(t, level, k, disk, used, fm);
  }

  lemma OpenZeroed(level: nat, disk: Disk, used: seq<bool>, fm: set<nat>)
    requires 1 <= level <= 2
    ensures PointersRead(DecodePointers(ZERO_SECTOR), NoKids(), level, 0, disk, used, fm)
  {
    NoKidsFamily(level, disk, used, fm);
    ZeroSectorHoldsNoPointer();
  }

  lemma OpenFresh(e: nat, disk: Disk, used: seq<bool>, disk': Disk, used': seq<bool>, fm: set<nat>)
    requires 2 <= e < |used| <= |disk| == |disk'| && !used[e] && e !in fm && used' == used[e := true]
    requires forall x :: 0 <= x < |disk| && x !in fm && x != e ==> disk'[x] == disk[x]
    ensures Opened(Hole, e, NoKids(), 0, disk, used, disk', used', fm)
  {
  }

  /** The opening part of inode_reserve_indirect: allocate and zero the index block if there is none, then
      read its pointers.  The result of the allocation is not looked at: without a free sector, the
      block that is zeroed and read is sector 0. */
  method OpenBlock(fm: FreeMap.Allocator, entry: Word, level: nat, ghost t: Tree, ghost k: nat)
    returns (e: Word, ptrs: Pointers, ghost got: bool, ghost ts: seq<Tree>)
    requires fm.Valid() && fm.CanWrite() && 1 <= level <= 2
    requires Good(t, level, k, fm.cache.view, fm.Used(), fm.Own()) && entry == Entry(t)
    modifies fm.bits.words, fm.cache, fm.cache.slots
    ensures fm.Valid() && |fm.cache.view| == |old(fm.cache.view)|
    ensures got == (k > 0 || old(fm.Free()) > 0)
    ensures PointersRead(ptrs, ts, level, k, fm.cache.view, fm.Used(), fm.Own())
    ensures got ==> Opened(t, e, ts, k, old(fm.cache.view), old(fm.Used()), fm.cache.view, fm.Used(), fm.Own())
    ensures got ==> fm.Free() == old(fm.Free()) - (if k == 0 then 1 else 0)
    ensures !got ==> e == 0 && ts == NoKids() && fm.Used() == old(fm.Used()) && fm.Free() == old(fm.Free())
    ensures !got ==> fm.cache.view == old(fm.cache.view)[0 := ZERO_SECTOR]
    ensures LowestFirst(old(fm.Used()), fm.Used()) && OnlyMarks(old(fm.Used()), fm.Used())
  {
    hide *;
    fm.Sizes();
    fm.OwnSectors();
    LowestRefl(fm.Used());
    MarksRefl(fm.Used());
    HoleOrNode(t, level, k, fm.cache.view, fm.Used(), fm.Own());
    e, got := entry, true;
    if e == 0 {
      var ok, s := AllocateOne(fm);
      fm.Sizes();
      if ok {
        e := s;
      }
      fm.Store(e, ZERO_SECTOR);
      got, ts := ok, NoKids();
      if ok {
        OpenFresh(e, old(fm.cache.view), old(fm.Used()), fm.cache.view, fm.Used(), fm.Own());
      }
      OpenZeroed(level, fm.cache.view, fm.Used(), fm.Own());
    } else {
      OpenExisting(t, level, k, fm.cache.view, fm.Used(), fm.Own());
      ts := t.kids;
    }
    var block := fm.Fetch(e);
    ptrs := DecodePointers(block);
  }

  lemma KidBefore(ts: seq<Tree>, level: nat, k: nat, n: nat, i: nat, disk: Disk, used: seq<bool>, fm: set<nat>)
    requires 1 <= level <= 2 && |ts| == FANOUT && i < FANOUT
    requires Family(ts, KidLevels(level), KidCounts(k, n, i, level), disk, used, fm)
    ensures Good(ts[i], level - 1, Part(k, i, Unit(level)), disk, used, fm)
  {
    assert Good(ts[i], KidLevels(level)[i], KidCounts(k, n, i, level)[i], disk, used, fm);
  }

  lemma KidCountsStart(k: nat, n: nat, level: nat)
    ensures KidCounts(k, 0, 0, level) == KidCounts(k, n, 0, level)
  {
  }

  /** Child I has grown: one more step of the loop. */
  lemma KidAfter(ts0: seq<Tree>, level: nat, k: nat, n: nat, disk0: Disk, used0: seq<bool>,
                 ts: seq<Tree>, disk: Disk, used: seq<bool>, i: nat,
                 t': Tree, disk': Disk, used': seq<bool>, fm: set<nat>)
    requires 1 <= level <= 2 && |ts0| == FANOUT && i < FANOUT
    requires FamilyGrew(ts0, KidLevels(level), KidCounts(k, n, 0, level), disk0, used0, ts, KidCounts(k, n, i, level),
                        disk, used, fm)
    requires ts[i] == ts0[i]
    requires Grew(ts[i], level - 1, Part(k, i, Unit(level)), disk, used, t', Part(n, i, Unit(level)), disk', used', fm)
    ensures |ts| == FANOUT
    ensures FamilyGrew(ts0, KidLevels(level), KidCounts(k, n, 0, level), disk0, used0,
                       ts[i := t'], KidCounts(k, n, i + 1, level), disk', used', fm)
  {
    hide FamilyGrew, Grew, Part;
    assert |ts| == FANOUT by { FamilySize(ts0, level, k, n, disk0, used0, ts, i, disk, used, fm); }
    var c0, c1 := KidCounts(k, n, 0, level), KidCounts(k, n, i, level);
    GrowOne(ts0, KidLevels(level), c0, disk0, used0, ts, c1, disk, used, i, t', Part(n, i, Unit(level)), disk', used',
            fm);
    assert c1[i := Part(n, i, Unit(level))] == KidCounts(k, n, i + 1, level);
  }

  lemma FamilySize(ts0: seq<Tree>, level: nat, k: nat, n: nat, disk0: Disk, used0: seq<bool>, ts: seq<Tree>, i: nat,
                   disk: Disk, used: seq<bool>, fm: set<nat>)
    requires 1 <= level
    requires FamilyGrew(ts0, KidLevels(level), KidCounts(k, n, 0, level), disk0, used0, ts, KidCounts(k, n, i, level),
                        disk, used, fm)
    ensures |ts0| == |ts| == FANOUT && Family(ts, KidLevels(level), KidCounts(k, n, i, level), disk, used, fm)
    ensures Frame(disk0, used0, disk, AllIndexSectors(ts0), fm) && OnlyMarks(used0, used)
  {
  }

  /** Children beyond the last one needed have nothing to do. */
  lemma KidCountsEnd(k: nat, n: nat, l: nat, level: nat)
    requires 1 <= level <= 2 && k <= n && l <= FANOUT && n <= l * Unit(level)
    ensures KidCounts(k, n, l, level) == KidCounts(k, n, FANOUT, level)
    ensures Spent(level, k, l) == Spent(level, k, 128) && Spent(level, n, l) == Spent(level, n, 128)
  {
    forall j | l <= j < FANOUT
      ensures KidCounts(k, n, l, level)[j] == KidCounts(k, n, FANOUT, level)[j]
    {
      assert level == 1 ==> j * Unit(level) == j && l * Unit(level) == l;
      assert level == 2 ==> j * Unit(level) == 128 * j && l * Unit(level) == 128 * l;
      assert Part(n, j, Unit(level)) == Part(k, j, Unit(level)) == 0;
    }
  }

  lemma LoopArithmetic(num: nat, level: nat, i: nat, rest: nat)
    requires 1 <= level <= 2 && num <= Capacity(level) && i * Unit(level) < num && rest == num - i * Unit(level)
    ensures Min(rest, Unit(level)) == Part(num, i, Unit(level)) >= 1
    ensures Min(rest, Unit(level)) <= Capacity(level - 1) && i < FANOUT
    ensures rest - Min(rest, Unit(level)) == if (i + 1) * Unit(level) < num then num - (i + 1) * Unit(level) else 0
  {
    if level == 1 {
      assert i * Unit(level) == i;
    } else {
      assert i * Unit(level) == 128 * i && (i + 1) * Unit(level) == 128 * i + 128;
    }
  }

  lemma PartMonotone(k: nat, n: nat, i: nat, u: nat)
    requires k <= n
    ensures Part(k, i, u) <= Part(n, i, u)
  {
  }

  /** The loop of inode_reserve_indirect over the children of an index block. */
  method ReserveKids(fm: FreeMap.Allocator, pointers: Pointers, num: nat, level: nat, ghost ts0: seq<Tree>,
                     ghost k: nat)
    returns (ok: bool, ptrs: Pointers, ghost ts: seq<Tree>)
    requires fm.Valid() && fm.CanWrite() && 1 <= level <= 2 && 1 <= num && k <= num <= Capacity(level)
    requires PointersRead(pointers, ts0, level, k, fm.cache.view, fm.Used(), fm.Own())
    modifies fm.bits.words, fm.cache, fm.cache.slots
    ensures fm.Valid() && |fm.cache.view| == |old(fm.cache.view)|
    ensures ok == (Spent(level, num, 128) - Spent(level, k, 128) <= old(fm.Free()))
    ensures ok ==> fm.Free() == old(fm.Free()) - (Spent(level, num, 128) - Spent(level, k, 128))
    ensures ok ==> FamilyGrew(ts0, KidLevels(level), KidCounts(k, num, 0, level), old(fm.cache.view), old(fm.Used()),
                              ts, KidCounts(k, num, FANOUT, level), fm.cache.view, fm.Used(), fm.Own())
    ensures ok ==> forall i :: 0 <= i < FANOUT ==> ptrs[i] == Entry(ts[i])
    ensures !ok ==>
      Spoiled(old(fm.cache.view), old(fm.Used()), fm.cache.view, fm.Used(), AllIndexSectors(ts0), fm.Own())
    ensures !ok ==> SectorZero(old(fm.cache.view), fm.cache.view, LostKids(level, k, num, old(fm.Free())))
    ensures !ok ==> fm.Free() == 0 && KidsFound(fm.cache.view, ts0, level, k)
    ensures LowestFirst(old(fm.Used()), fm.Used()) && OnlyMarks(old(fm.Used()), fm.Used())
    decreases level, 0
  {
    hide *;
    ptrs, ts := pointers, ts0;
    var unit := if level == 1 then 1 else 128;
    var l := (num + unit - 1) / unit;
    var rest := num;
    var i := 0;
    ghost var disk0, used0, free0, own := fm.cache.view, fm.Used(), fm.Free(), fm.Own();
    LowestRefl(used0);
    MarksRefl(used0);
    KidsStart(fm, pointers, ts0, level, k, num);
    fm.Sizes();
    fm.OwnSectors();
    ZeroRefl(disk0);
    while i < l
      invariant 0 <= i <= l && fm.Valid() && |fm.cache.view| == |disk0| && fm.Own() == own
      invariant rest == if i * Unit(level) < num then num - i * Unit(level) else 0
      invariant |ts| == 128 && (forall j :: i <= j < 128 ==> ts[j] == ts0[j]) && forall j :: 0 <= j < 128 ==>
        ptrs[j] == Entry(ts[j])
      invariant FamilyGrew(ts0, KidLevels(level), KidCounts(k, num, 0, level), disk0, used0,
                           ts, KidCounts(k, num, i, level), fm.cache.view, fm.Used(), own)
      invariant fm.Free() == free0 - (Spent(level, num, i) - Spent(level, k, i))
      invariant LowestFirst(used0, fm.Used()) && OnlyMarks(used0, fm.Used())
      invariant SectorZero(disk0, fm.cache.view, false)
      decreases l - i
    {
      CeilFacts(num, level, i);
      LoopArithmetic(num, level, i, rest);
      FamilySize(ts0, level, k, num, disk0, used0, ts, i, fm.cache.view, fm.Used(), own);
      KidBefore(ts, level, k, num, i, fm.cache.view, fm.Used(), own);
      KidCost(level, k, num, i);
      fm.Sizes();
      ghost var disk1, used1 := fm.cache.view, fm.Used();
      var subsize := Min(rest, unit);
      var p;
      ghost var t';
      ok, p, t' := ReserveIndirect(fm, ptrs[i], subsize, level - 1, ts[i], Part(k, i, Unit(level)));
      LowestTrans(used0, used1, fm.Used());
      MarksTrans(used0, used1, fm.Used());
      if !ok {
        SpoiledByOne(ts0, disk0, used0, disk1, used1, ts, i, fm.cache.view, fm.Used(), own);
        KidLost(level, k, num, free0, i, disk0, disk1, fm.cache.view);
        KidsStillFound(ts0, level, k, num, disk0, used0, ts, i, disk1, used1, fm.cache.view, fm.Used(), own);
        return;
      }
      ZeroKept(ts[i], level - 1, Part(k, i, Unit(level)), disk1, used1, t', subsize, fm.cache.view, fm.Used(), own,
               disk0);
      KidAfter(ts0, level, k, num, disk0, used0, ts, disk1, used1, i, t', fm.cache.view, fm.Used(), own);
      ptrs, ts := ptrs[i := p], ts[i := t'];
      rest := rest - subsize;
      i := i + 1;
    }
    CeilFacts(num, level, l);
    KidCountsEnd(k, num, l, level);
    SpentMonotone(level, k, num, 0, l);
    ok := true;
  }

  /** The subtrees of an index block with K data sectors are found. */
  ghost predicate KidsFound(disk: Disk, ts: seq<Tree>, level: nat, k: nat) {
    && 1 <= level <= 2 && |ts| == FANOUT
    && forall q :: 0 <= q < FANOUT ==> Finds(disk, ts[q], level - 1, Part(k, q, Unit(level)))
  }

  /** A failure in one tree of a family spares the index sectors of the others. */
  lemma SparesIndex(ts: seq<Tree>, lv: seq<nat>, ct: seq<nat>, disk: Disk, used: seq<bool>, fm: set<nat>, i: nat,
                    q: nat,
                    disk': Disk, used': seq<bool>)
    requires Family(ts, lv, ct, disk, used, fm) && i < |ts| && q < |ts| && i != q
    requires Spoiled(disk, used, disk', used', IndexSectors(ts[i]), fm)
    ensures forall s :: s in IndexSectors(ts[q]) && s < |disk| ==> disk'[s] == disk[s]
  {
    hide Sectors, IndexSectors, Shape, Stored, Separate;
    IndexWithin(ts[q]);
    IndexWithin(ts[i]);
    assert Good(ts[q], lv[q], ct[q], disk, used, fm);
    assert Sectors(ts[if i < q then i else q]) !! Sectors(ts[if i < q then q else i]);
  }

  /** When the loop gets stuck at child I, everything the children held before is still found. */
  lemma KidsStillFound(ts0: seq<Tree>, level: nat, k: nat, n: nat, disk0: Disk, used0: seq<bool>, ts: seq<Tree>, i: nat,
                       disk1: Disk, used1: seq<bool>, disk2: Disk, used2: seq<bool>, fm: set<nat>)
    requires 1 <= level <= 2 && k <= n && i < FANOUT
    requires FamilyGrew(ts0, KidLevels(level), KidCounts(k, n, 0, level), disk0, used0,
                        ts, KidCounts(k, n, i, level), disk1, used1, fm)
    requires |ts| == |ts0| == FANOUT && ts[i] == ts0[i]
    requires Spoiled(disk1, used1, disk2, used2, IndexSectors(ts[i]), fm)
    requires Finds(disk2, ts[i], level - 1, Part(k, i, Unit(level)))
    ensures KidsFound(disk2, ts0, level, k)
  {
    hide FamilyGrew, Family, Finds, Part;
    FamilySize(ts0, level, k, n, disk0, used0, ts, i, disk1, used1, fm);
    forall q | 0 <= q < FANOUT && q != i
      ensures Finds(disk2, ts0[q], level - 1, Part(k, q, Unit(level)))
    {
      var c0, c := KidCounts(k, n, 0, level), KidCounts(k, n, i, level);
      PartMonotone(k, n, q, Unit(level));
      SparesIndex(ts, KidLevels(level), c, disk1, used1, fm, i, q, disk2, used2);
      FamilyFinds(ts0, KidLevels(level), c0, disk0, used0, ts, c, disk1, used1, fm, disk2, used2, q);
    }
  }

  /** An index block that could not be completed still leads to all it held before. */
  lemma NodeStillFound(t: Tree, e: nat, ts: seq<Tree>, level: nat, k: nat, disk0: Disk, used0: seq<bool>, disk1: Disk,
                       used1: seq<bool>,
                       disk2: Disk, used2: seq<bool>, fm: set<nat>, got: bool)
    requires 1 <= level <= 2 && k <= Capacity(level) && (got ==> Opened(t, e, ts, k, disk0, used0, disk1, used1, fm))
    requires (!got ==> k == 0) && |used1| <= |disk1| && Good(t, level, k, disk0, used0, fm)
    requires Spoiled(disk1, used1, disk2, used2, AllIndexSectors(ts), fm) && KidsFound(disk2, ts, level, k)
    ensures Finds(disk2, t, level, k) && (k > 0 ==> e == Entry(t))
  {
    if k > 0 {
      hide Finds, DecodePointers;
      AllIndexWithin(ts);
      assert t == Node(e, ts) && Stored(disk0, t);
      NodeFinds(e, ts, level, k, disk2);
    }
  }

  /** The loop got stuck at child I. */
  lemma KidLost(level: nat, k: nat, n: nat, free0: nat, i: nat, disk0: Disk, disk1: Disk, disk2: Disk)
    requires 1 <= level <= 2 && k <= n && i < 128 && SectorZero(disk0, disk1, false)
    requires var f := free0 - (Spent(level, n, i) - Spent(level, k, i));
             && 0 <= f < Cost(level - 1, Part(n, i, Unit(level))) - Cost(level - 1, Part(k, i, Unit(level)))
             && SectorZero(disk1, disk2, Lost(level - 1, Part(k, i, Unit(level)), Part(n, i, Unit(level)), f))
    ensures SectorZero(disk0, disk2, LostKids(level, k, n, free0))
  {
    hide Spent, Cost, Part, Lost, LostKids;
    LostKidsAt(level, k, n, free0, i);
  }

  /** Successful growth keeps sector 0. */
  lemma ZeroKept(t: Tree, level: nat, k: nat, disk: Disk, used: seq<bool>, t': Tree, n: nat, disk': Disk,
                 used': seq<bool>, fm: set<nat>, disk0: Disk)
    requires Grew(t, level, k, disk, used, t', n, disk', used', fm) && SectorZero(disk0, disk, false)
    requires 0 < |used| && used[0] && 0 !in fm
    ensures SectorZero(disk0, disk', false)
  {
    IndexWithin(t);
    assert 0 !in Sectors(t') by {
      assert forall s :: s in Sectors(t') ==> Usable(s, used', fm);
    }
  }

  lemma ZeroRefl(disk: Disk)
    requires |disk| > 0
    ensures SectorZero(disk, disk, false)
  {
  }

  lemma CeilFacts(num: nat, level: nat, i: nat)
    requires 1 <= level <= 2 && num <= Capacity(level)
    ensures Unit(level) == if level == 1 then 1 else 128
    ensures i * Unit(level) < num <==> i < (num + Unit(level) - 1) / Unit(level)
    ensures (num + Unit(level) - 1) / Unit(level) <= FANOUT == 128
  {
    if level == 1 {
      assert (num + Unit(level) - 1) / Unit(level) == num;
    }
  }

  lemma KidsStart(fm: FreeMap.Allocator, ptrs: Pointers, ts0: seq<Tree>, level: nat, k: nat, n: nat)
    requires fm.Valid() && PointersRead(ptrs, ts0, level, k, fm.cache.view, fm.Used(), fm.Own())
    ensures |ts0| == FANOUT == 128 && forall j :: 0 <= j < FANOUT ==> ptrs[j] == Entry(ts0[j])
    ensures FamilyGrew(ts0, KidLevels(level), KidCounts(k, n, 0, level), fm.cache.view, fm.Used(),
                       ts0, KidCounts(k, n, 0, level), fm.cache.view, fm.Used(), fm.Own())
    ensures Spent(level, n, 0) == Spent(level, k, 0) == 0
  {
    hide FamilyGrew, Family;
    KidCountsStart(k, n, level);
    fm.Sizes();
    FamilyGrewRefl(ts0, KidLevels(level), KidCounts(k, n, 0, level), fm.cache.view, fm.Used(), fm.Own());
  }

  lemma KidCost(level: nat, k: nat, n: nat, i: nat)
    requires 1 <= level <= 2 && k <= n && i < 128
    ensures Part(k, i, Unit(level)) <= Part(n, i, Unit(level))
    ensures Spent(level, n, i + 1) == Spent(level, n, i) + Cost(level - 1, Part(n, i, Unit(level)))
    ensures Spent(level, k, i + 1) == Spent(level, k, i) + Cost(level - 1, Part(k, i, Unit(level)))
    ensures Spent(level, k, 128) - Spent(level, k, i + 1) <= Spent(level, n, 128) - Spent(level, n, i + 1)
  {
    hide Spent, Cost, Part;
    SpentStep(level, k, i);
    SpentStep(level, n, i);
    SpentMonotone(level, k, n, i + 1, 128);
    PartMonotone(k, n, i, Unit(level));
  }

  lemma SectorCost(num: nat, k: nat)
    requires 1 <= num <= Capacity(0)
    ensures num == 1 && Cost(0, num) == 1 && Cost(0, k) == k
  {
  }

  lemma NodeCost(level: nat, num: nat, k: nat)
    requires 1 <= level <= 2 && 1 <= num
    ensures Cost(level, num) == 1 + Spent(level, num, 128) && Spent(level, num, 128) >= 1
    ensures k > 0 ==> Cost(level, k) == 1 + Spent(level, k, 128)
    ensures k == 0 ==> Cost(level, k) == 0 == Spent(level, k, 128)
  {
  }

  lemma FindsNothing(disk: Disk, t: Tree, level: nat)
    ensures Finds(disk, t, level, 0)
  {
  }

  lemma NodeEntry(e: nat, ts: seq<Tree>)
    ensures Entry(Node(e, ts)) == e
  {
  }

  lemma UntouchedIsSpoiled(disk: Disk, used: seq<bool>, index: set<nat>, fm: set<nat>)
    requires |used| <= |disk|
    ensures Spoiled(disk, used, disk, used, index, fm)
  {
  }

  /** Pointer E is 0, or, if a sector was TAKEN for it, one that was free and is marked now. */
  ghost predicate NewPointer(e: nat, taken: bool, used: seq<bool>, used': seq<bool>) {
    if taken then 2 <= e < |used| == |used'| && !used[e] && used'[e] else e == 0
  }

  lemma NewOpened(t: Tree, e: nat, ts: seq<Tree>, k: nat, disk0: Disk, used0: seq<bool>, disk1: Disk, used1: seq<bool>,
                  used2: seq<bool>, fm: set<nat>, got: bool)
    requires (got ==> Opened(t, e, ts, k, disk0, used0, disk1, used1, fm)) && (!got ==> e == 0)
    requires OnlyMarks(used1, used2)
    requires k == 0 ==> t == Hole
    ensures k == 0 ==> NewPointer(e, got, used0, used2)
  {
  }

  lemma OpenedSector(t: Tree, e: nat, ts: seq<Tree>, k: nat, disk0: Disk, used0: seq<bool>, disk1: Disk,
                     used1: seq<bool>, fm: set<nat>)
    requires Opened(t, e, ts, k, disk0, used0, disk1, used1, fm)
    ensures e < |used0| && e !in fm
  {
  }

  lemma SpoiledByOpening(t: Tree, e: nat, ts: seq<Tree>, k: nat, disk0: Disk, used0: seq<bool>, disk1: Disk,
                         used1: seq<bool>,
                         disk2: Disk, used2: seq<bool>, fm: set<nat>, got: bool)
    requires |used0| <= |disk0|
    requires got ==> Opened(t, e, ts, k, disk0, used0, disk1, used1, fm)
    requires !got ==> ts == NoKids() && used1 == used0 && 0 < |disk0| && disk1 == disk0[0 := ZERO_SECTOR]
    requires Spoiled(disk1, used1, disk2, used2, AllIndexSectors(ts), fm)
    ensures Spoiled(disk0, used0, disk2, used2, IndexSectors(t), fm)
  {
    SectorsOfNode(e, ts);
    assert AllIndexSectors(NoKids()) == {};
  }

  /** An index block could not be completed. */
  lemma NodeLost(level: nat, k: nat, n: nat, free0: nat, free1: nat, t: Tree, e: nat, ts: seq<Tree>, disk0: Disk,
                 used0: seq<bool>,
                 disk1: Disk, used1: seq<bool>, disk2: Disk, fm: set<nat>, got: bool)
    requires 1 <= level <= 2 && 1 <= n <= Capacity(level) && k <= n && 0 < |used0| <= |disk0| && used0[0] && 0 !in fm
    requires got == (k > 0 || free0 > 0) && free1 == if got && k == 0 then free0 - 1 else free0
    requires got ==> Opened(t, e, ts, k, disk0, used0, disk1, used1, fm)
    requires !got ==> disk1 == disk0[0 := ZERO_SECTOR]
    requires SectorZero(disk1, disk2, LostKids(level, k, n, free1))
    ensures SectorZero(disk0, disk2, Lost(level, k, n, free0))
  {
    hide Lost, LostKids;
    LostNode(level, k, n, free0, free0 - if k == 0 then 1 else 0);
  }

  /** inode_reserve_indirect: make sure the tree behind ENTRY holds NUM data sectors. */
  method ReserveIndirect(fm: FreeMap.Allocator, entry: Word, num: nat, level: nat, ghost t: Tree, ghost k: nat)
    returns (ok: bool, e: Word, ghost t': Tree)
    requires fm.Valid() && fm.CanWrite() && level <= 2 && 1 <= num && k <= num <= Capacity(level)
    requires Good(t, level, k, fm.cache.view, fm.Used(), fm.Own()) && entry == Entry(t)
    modifies fm.bits.words, fm.cache, fm.cache.slots
    ensures fm.Valid() && |fm.cache.view| == |old(fm.cache.view)|
    ensures ok == (Cost(level, num) - Cost(level, k) <= old(fm.Free()))
    ensures ok ==> e == Entry(t') && fm.Free() == old(fm.Free()) - (Cost(level, num) - Cost(level, k))
    ensures ok ==> Grew(t, level, k, old(fm.cache.view), old(fm.Used()), t', num, fm.cache.view, fm.Used(), fm.Own())
    ensures !ok ==> Spoiled(old(fm.cache.view), old(fm.Used()), fm.cache.view, fm.Used(), IndexSectors(t), fm.Own())
    ensures !ok ==> SectorZero(old(fm.cache.view), fm.cache.view, Lost(level, k, num, old(fm.Free())))
    ensures !ok ==> fm.Free() == 0 && (k > 0 ==> e == Entry(t)) && Finds(fm.cache.view, t, level, k)
    ensures !ok && k == 0 && level > 0 ==> NewPointer(e, old(fm.Free()) > 0, old(fm.Used()), fm.Used())
    ensures LowestFirst(old(fm.Used()), fm.Used()) && OnlyMarks(old(fm.Used()), fm.Used())
    decreases level, 1
  {
    hide *;
    ghost var disk0, used0, fm0, free0 := fm.cache.view, fm.Used(), fm.Own(), fm.Free();
    fm.Sizes();
    fm.OwnSectors();
    if level == 0 {
      ok, e, t' := ReserveSector(fm, entry, t, k);
      SectorCost(num, k);
      UntouchedIsSpoiled(disk0, used0, IndexSectors(t), fm0);
      LostSector(k, num, old(fm.Free()));
      ZeroRefl(disk0);
      FindsNothing(disk0, t, level);
      return;
    }
    ghost var got, ts;
    var ptrs;
    HoleOrNode(t, level, k, disk0, used0, fm0);
    e, ptrs, got, ts := OpenBlock(fm, entry, level, t, k);
    ghost var disk1, used1, free1 := fm.cache.view, fm.Used(), fm.Free();
    ghost var ts';
    ok, ptrs, ts' := ReserveKids(fm, ptrs, num, level, ts, k);
    LowestTrans(used0, used1, fm.Used());
    MarksTrans(used0, used1, fm.Used());
    NodeCost(level, num, k);
    t' := Node(e, ts');
    if ok {
      NodeEntry(e, ts');
      ghost var disk2 := fm.cache.view;
      OpenedSector(t, e, ts, k, disk0, used0, disk1, used1, fm0);
      NodeGrew(t, e, ts, level, k, disk0, used0, disk1, used1, ts', num, disk2, fm.Used(), ptrs, fm0);
      fm.Store(e, EncodePointers(ptrs));
    } else {
      SpoiledByOpening(t, e, ts, k, disk0, used0, disk1, used1, fm.cache.view, fm.Used(), fm0, got);
      NodeLost(level, k, num, free0, free1, t, e, ts, disk0, used0, disk1, used1, fm.cache.view, fm0, got);
      NodeStillFound(t, e, ts, level, k, disk0, used0, disk1, used1, fm.cache.view, fm.Used(), fm0, got);
      NewOpened(t, e, ts, k, disk0, used0, disk1, used1, fm.Used(), fm0, got);
    }
  }

  // ---- the inode ----------------------------------------------------------------------

  /** Sectors of a file with N data sectors, index blocks included. */
  function FileCost(n: nat): nat {
    n + (if n > 123 then 1 else 0) + (if n > 251 then 1 + (n - 251 + 127) / 128 else 0)
  }

  /** The part of the cost that lies under the first J roots. */
  function RootSpent(n: nat, j: nat): nat {
    if j <= 123 then Min(n, j)
    else Min(n, 123) + Cost(1, RootCount(n, 123)) + if j == 124 then 0 else Cost(2, RootCount(n, 124))
  }

  lemma FileCostIs(n: nat)
    requires n <= MAX_SECTORS
    ensures FileCost(n) == RootSpent(n, 125)
  {
  }

  /** Growing a file from M to N data sectors with F free sectors gets stuck at an index block. */
  ghost predicate FileLost(m: nat, n: nat, f: int) {
    exists x :: m <= x < n && FileCost(x) - FileCost(m) <= f && f + 1 < FileCost(x + 1) - FileCost(m)
  }

  lemma FileCostParts(x: nat)
    requires x <= 16635
    ensures x <= 123 ==> FileCost(x) == x
    ensures 123 < x <= 251 ==> FileCost(x) == x + 1
    ensures 251 <= x ==> FileCost(x) == 252 + Cost(2, x - 251)
  {
    if x >= 251 {
      Cost2(x - 251);
    }
  }

  lemma {:induction false} FileCostGrows(x: nat, y: nat)
    requires x <= y
    ensures FileCost(x) + (y - x) <= FileCost(y)
  {
  }

  lemma LostInDirect(m: nat, n: nat, f: nat)
    requires m <= n && m <= 16635 && f < Min(n, 123) - Min(m, 123)
    ensures !FileLost(m, Min(n, 16635), f)
  {
    hide FileCost;
    forall x | m <= x < Min(n, 16635) && FileCost(x) - FileCost(m) <= f
      ensures FileCost(x + 1) - FileCost(m) <= f + 1
    {
      FileCostParts(m);
      FileCostGrows(m, x);
      FileCostParts(x);
      FileCostParts(x + 1);
    }
  }

  lemma LostInIndirect(m: nat, n: nat, f: nat, g: int)
    requires m <= n && m <= 16635 && n > 123 && g == f - (123 - Min(m, 123))
    requires 0 <= g < Cost(1, RootCount(n, 123)) - Cost(1, RootCount(m, 123))
    ensures FileLost(m, Min(n, 16635), f) <==> Lost(1, RootCount(m, 123), RootCount(n, 123), g)
  {
    LostIndirect(RootCount(m, 123), RootCount(n, 123), g);
    FileCostParts(m);
    if m <= 123 && g == 0 {
      assert FileCost(123) == 123 && FileCost(123 + 1) == 125;
    }
    forall x | m <= x < Min(n, 16635) && FileCost(x) - FileCost(m) <= f && f + 1 < FileCost(x + 1) - FileCost(m)
      ensures m <= 123 && g == 0
    {
      FileCostParts(x);
      FileCostParts(x + 1);
      if x >= 251 {
        FileCostGrows(251, x);
      }
    }
  }

  lemma LostInDoubly(m: nat, n: nat, f: nat, g: int)
    requires m <= n && m <= 16635 && n > 251 && g == f - (if m < 251 then 252 - FileCost(m) else 0) && g >= 0
    ensures FileLost(m, Min(n, 16635), f) <==> Lost(2, RootCount(m, 124), RootCount(n, 124), g)
  {
    hide FileCost, Cost;
    FileCostParts(m);
    FileCostParts(251);
    CostZero();
    forall x | m <= x < Min(n, 16635) && FileCost(x) - FileCost(m) <= f && f + 1 < FileCost(x + 1) - FileCost(m)
      ensures Lost(2, RootCount(m, 124), RootCount(n, 124), g)
    {
      if x < 251 {
        FileCostGrows(x + 1, 251);
      }
      var y := x - 251;
      FileCostParts(x);
      FileCostParts(x + 1);
      assert RootCount(m, 124) <= y < RootCount(n, 124);
      assert Cost(2, y) - Cost(2, RootCount(m, 124)) <= g && g + 1 < Cost(2, y + 1) - Cost(2, RootCount(m, 124));
    }
    forall y | RootCount(m, 124) <= y < RootCount(n, 124)
             && Cost(2, y) - Cost(2, RootCount(m, 124)) <= g && g + 1 < Cost(2, y + 1) - Cost(2, RootCount(m, 124))
      ensures FileLost(m, Min(n, 16635), f)
    {
      FileCostParts(251 + y);
      FileCostParts(251 + y + 1);
      assert FileCost(251 + y) - FileCost(m) <= f && f + 1 < FileCost(251 + y + 1) - FileCost(m);
    }
  }

  lemma CostZero()
    ensures Cost(2, 0) == 0
  {
  }

  lemma NotLostWhenEnough(m: nat, n: nat, f: nat)
    requires FileCost(n) - FileCost(m) <= f
    ensures !FileLost(m, n, f)
  {
    hide FileCost;
    forall x | m <= x < n && FileCost(x) - FileCost(m) <= f
      ensures FileCost(x + 1) - FileCost(m) <= f
    {
      FileCostGrows(x + 1, n);
    }
  }

  lemma RootSpentStep(m: nat, n: nat, j: nat)
    requires m <= n && j < 125
    ensures RootSpent(n, j + 1) == RootSpent(n, j) + Cost(RootLevel(j), RootCount(n, j))
    ensures RootCount(m, j) <= RootCount(n, j)
    ensures RootSpent(m, 125) - RootSpent(m, j + 1) <= RootSpent(n, 125) - RootSpent(n, j + 1)
  {
  }

  lemma RootsDone(m: nat, n: nat, j: nat)
    requires m <= n && j <= 125 && (n <= j <= 123 || (n <= 251 && 124 <= j) || j == 125)
    ensures RootCounts(m, n, j) == RootCounts(m, n, 125)
    ensures RootSpent(m, j) == RootSpent(m, 125) && RootSpent(n, j) == RootSpent(n, 125)
  {
    forall i | 0 <= i < ROOTS
      ensures RootCounts(m, n, j)[i] == RootCounts(m, n, 125)[i]
    {
      assert j <= i ==> RootCount(n, i) == RootCount(m, i) == 0;
    }
  }

  lemma RootBefore(ts: seq<Tree>, m: nat, n: nat, j: nat, disk: Disk, used: seq<bool>, fm: set<nat>)
    requires |ts| == ROOTS && j < 125 && Family(ts, RootLevels(), RootCounts(m, n, j), disk, used, fm)
    ensures Good(ts[j], RootLevel(j), RootCount(m, j), disk, used, fm)
  {
    assert Good(ts[j], RootLevels()[j], RootCounts(m, n, j)[j], disk, used, fm);
  }

  /** The state while a file grows from M to N data sectors and J roots are done. */
  ghost predicate Growing(d: InodeDisk, ts0: seq<Tree>, m: nat, n: nat, disk0: Disk, used0: seq<bool>,
                          ts: seq<Tree>, j: nat, disk: Disk, used: seq<bool>, fm: set<nat>)
  {
    && |ts0| == ROOTS && m <= n && j <= ROOTS && Points(d, ts)
    && FamilyGrew(ts0, RootLevels(), RootCounts(m, n, 0), disk0, used0, ts, RootCounts(m, n, j), disk, used, fm)
    && forall i :: j <= i < ROOTS ==> ts[i] == ts0[i]
  }

  lemma GrowingFacts(d: InodeDisk, ts0: seq<Tree>, m: nat, n: nat, disk0: Disk, used0: seq<bool>,
                     ts: seq<Tree>, j: nat, disk: Disk, used: seq<bool>, fm: set<nat>)
    requires Growing(d, ts0, m, n, disk0, used0, ts, j, disk, used, fm)
    ensures |ts| == |ts0| == ROOTS && |d.direct| == DIRECT && Points(d, ts)
    ensures Family(ts, RootLevels(), RootCounts(m, n, j), disk, used, fm)
    ensures Frame(disk0, used0, disk, AllIndexSectors(ts0), fm) && OnlyMarks(used0, used)
  {
  }

  /** Root J has grown. */
  lemma RootAfter(d: InodeDisk, ts0: seq<Tree>, m: nat, n: nat, disk0: Disk, used0: seq<bool>, ts: seq<Tree>, j: nat,
                  disk: Disk, used: seq<bool>,
                  d': InodeDisk, t': Tree, disk': Disk, used': seq<bool>, fm: set<nat>)
    requires Growing(d, ts0, m, n, disk0, used0, ts, j, disk, used, fm) && j < 125
    requires Grew(ts[j], RootLevel(j), RootCount(m, j), disk, used, t', RootCount(n, j), disk', used', fm)
    requires Points(d', ts[j := t'])
    ensures Growing(d', ts0, m, n, disk0, used0, ts[j := t'], j + 1, disk', used', fm)
  {
    hide Grew, FamilyGrew, RootCount, Points;
    GrowingFacts(d, ts0, m, n, disk0, used0, ts, j, disk, used, fm);
    var c0, c1 := RootCounts(m, n, 0), RootCounts(m, n, j);
    GrowOne(ts0, RootLevels(), c0, disk0, used0, ts, c1, disk, used, j, t', RootCount(n, j), disk', used', fm);
    assert c1[j := RootCount(n, j)] == RootCounts(m, n, j + 1);
  }

  lemma SpoiledByOne(ts0: seq<Tree>, disk0: Disk, used0: seq<bool>, disk1: Disk, used1: seq<bool>, ts: seq<Tree>,
                     i: nat,
                      disk2: Disk, used2: seq<bool>, fm: set<nat>)
    requires |ts0| == |ts| && i < |ts| && ts[i] == ts0[i]
    requires Frame(disk0, used0, disk1, AllIndexSectors(ts0), fm) && OnlyMarks(used0, used1)
    requires Spoiled(disk1, used1, disk2, used2, IndexSectors(ts[i]), fm)
    ensures Spoiled(disk0, used0, disk2, used2, AllIndexSectors(ts0), fm)
  {
    assert IndexSectors(ts[i]) <= AllIndexSectors(ts0);
  }

  lemma FrameIsSpoiled(disk0: Disk, used0: seq<bool>, disk1: Disk, used1: seq<bool>, index: set<nat>, fm: set<nat>)
    requires Frame(disk0, used0, disk1, index, fm) && OnlyMarks(used0, used1)
    ensures Spoiled(disk0, used0, disk1, used1, index, fm)
  {
  }

  lemma GrowingStart(fm: FreeMap.Allocator, d: InodeDisk, ts: seq<Tree>, m: nat, n: nat)
    requires fm.Valid() && m <= n && Mapped(d, ts, m, fm.cache.view, fm.Used(), fm.Own())
    ensures Growing(d, ts, m, n, fm.cache.view, fm.Used(), ts, 0, fm.cache.view, fm.Used(), fm.Own())
    ensures RootSpent(m, 0) == RootSpent(n, 0) == 0
  {
    hide FamilyGrew, Family, Points, RootCount;
    assert RootCounts(m, 0, 0) == RootCounts(m, n, 0);
    FamilyGrewRefl(ts, RootLevels(), RootCounts(m, n, 0), fm.cache.view, fm.Used(), fm.Own());
  }

  lemma PointsDirect(d: InodeDisk, ts: seq<Tree>, i: nat, e: Word, t': Tree)
    requires Points(d, ts) && i < 123 && e == Entry(t')
    ensures Points(d.(direct := d.direct[i := e]), ts[i := t'])
  {
  }

  lemma PointsIndirect(d: InodeDisk, ts: seq<Tree>, e: Word, t': Tree)
    requires Points(d, ts) && e == Entry(t')
    ensures Points(d.(indirect := e), ts[123 := t']) && Points(d.(doubly := e), ts[124 := t'])
  {
  }

  lemma DirectPointer(d: InodeDisk, ts: seq<Tree>, i: nat)
    requires Points(d, ts)
    ensures |ts| == 125 && |d.direct| == 123 && (i < 123 ==> d.direct[i] == Entry(ts[i]))
    ensures d.indirect == Entry(ts[123]) && d.doubly == Entry(ts[124])
  {
  }

  lemma RootFacts(m: nat, n: nat, i: nat)
    ensures i < 123 ==> RootLevel(i) == 0
    ensures RootLevel(123) == 1 && RootLevel(124) == 2
    ensures i < 123 && i < n ==> RootCount(n, i) == 1
    ensures 123 <= n ==> RootCount(n, 123) == Min(n - 123, 128) <= Capacity(1)
    ensures 251 <= n ==> RootCount(n, 124) == Min(n - 251, 16384) <= Capacity(2)
    ensures m <= n ==> RootCount(m, i) <= RootCount(n, i)
    ensures i < 123 ==> Cost(0, RootCount(m, i)) == RootCount(m, i) && Cost(0, RootCount(n, i)) == RootCount(n, i)
  {
  }

  /** The direct-block loop of inode_reserve. */
  method ReserveDirect(fm: FreeMap.Allocator, inode: InodeDisk, l: nat, ghost ts0: seq<Tree>, ghost m: nat,
                       ghost n: nat)
    returns (ok: bool, d: InodeDisk, ghost ts: seq<Tree>)
    requires fm.Valid() && fm.CanWrite() && m <= n && l == Min(n, 123)
    requires Mapped(inode, ts0, m, fm.cache.view, fm.Used(), fm.Own())
    modifies fm.bits.words, fm.cache, fm.cache.slots
    ensures fm.Valid() && |fm.cache.view| == |old(fm.cache.view)|
    ensures ok == (RootSpent(n, l) - RootSpent(m, l) <= old(fm.Free()))
    ensures ok ==> fm.Free() == old(fm.Free()) - (RootSpent(n, l) - RootSpent(m, l))
    ensures ok ==> Growing(d, ts0, m, n, old(fm.cache.view), old(fm.Used()), ts, l, fm.cache.view, fm.Used(), fm.Own())
    ensures ok ==> d.length == inode.length && d.isDir == inode.isDir
    ensures !ok ==>
      Spoiled(old(fm.cache.view), old(fm.Used()), fm.cache.view, fm.Used(), AllIndexSectors(ts0), fm.Own())
    ensures SectorZero(old(fm.cache.view), fm.cache.view, false)
    ensures !ok ==>
      fm.Free() == 0 && Located(d, ts0, m, fm.cache.view) && d.length == inode.length && d.isDir == inode.isDir
    ensures !ok ==> PointersKept(inode, d, m, n, old(fm.Free()), old(fm.Used()), fm.Used())
    ensures LowestFirst(old(fm.Used()), fm.Used()) && OnlyMarks(old(fm.Used()), fm.Used())
  {
    hide *;
    fm.Sizes();
    fm.OwnSectors();
    ghost var disk0, used0, free0, own := fm.cache.view, fm.Used(), fm.Free(), fm.Own();
    d, ts := inode, ts0;
    MinIs(n, 123);
    GrowingStart(fm, d, ts, m, n);
    ZeroRefl(disk0);
    LowestRefl(used0);
    MarksRefl(used0);
    var i := 0;
    while i < l
      invariant 0 <= i <= l && fm.Valid() && |fm.cache.view| == |disk0| && fm.Own() == own
      invariant Growing(d, ts0, m, n, disk0, used0, ts, i, fm.cache.view, fm.Used(), own)
      invariant fm.Free() == free0 - (RootSpent(n, i) - RootSpent(m, i))
      invariant RootSpent(m, i) <= RootSpent(n, i)
      invariant d.length == inode.length && d.isDir == inode.isDir
      invariant LowestFirst(used0, fm.Used()) && OnlyMarks(used0, fm.Used())
      invariant SectorZero(disk0, fm.cache.view, false)
    {
      fm.Sizes();
      GrowingFacts(d, ts0, m, n, disk0, used0, ts, i, fm.cache.view, fm.Used(), own);
      RootBefore(ts, m, n, i, fm.cache.view, fm.Used(), own);
      RootFacts(m, n, i);
      DirectSpent(m, n, i, l);
      DirectPointer(d, ts, i);
      ghost var disk1, used1 := fm.cache.view, fm.Used();
      var e;
      ghost var t';
      ok, e, t' := ReserveSector(fm, d.direct[i], ts[i], RootCount(m, i));
      LowestTrans(used0, used1, fm.Used());
      MarksTrans(used0, used1, fm.Used());
      if !ok {
        FrameIsSpoiled(disk0, used0, disk1, used1, AllIndexSectors(ts0), own);
        UntouchedIsSpoiled(disk1, used1, IndexSectors(ts[i]), own);
        GrowingTail(d, ts0, m, n, disk0, used0, ts, i, disk1, used1, own);
        FindsNothing(disk1, ts[i], 0);
        MappedMax(inode, ts0, m, disk0, used0, own);
        RootsStillFound(d, ts0, m, n, disk0, used0, ts, i, disk1, used1, d, disk1, used1, own);
        MappedHoles(inode, ts0, m, disk0, used0, own);
        DirectStuck(m, n, l, i, free0);
        MarksRefl(used1);
        NoPointer(d, ts, ts0, i, m, used1);
        StuckPointers(d, ts0, m, n, disk0, used0, ts, i, disk1, used1, own, d, false, used1);
        forall r | 0 <= r < 125
          ensures RootCount(m, r) == 0 ==>
            (HasSector(m, n, free0, r) <==> (r < i && RootCount(n, r) > 0) || (r == i && false))
        {
          DirectHas(m, n, free0, i, r);
        }
        KeptIs(inode, d, ts0, m, n, i, false, free0, used0, used1);
        return;
      }
      ZeroKept(ts[i], 0, RootCount(m, i), disk1, used1, t', 1, fm.cache.view, fm.Used(), own, disk0);
      PointsDirect(d, ts, i, e, t');
      RootAfter(d, ts0, m, n, disk0, used0, ts, i, disk1, used1, d.(direct := d.direct[i := e]), t', fm.cache.view,
                fm.Used(), own);
      d, ts := d.(direct := d.direct[i := e]), ts[i := t'];
      i := i + 1;
    }
    ok := true;
  }

  /** The trees behind pointers that are not set. */
  ghost predicate Holes(ts0: seq<Tree>, m: nat) {
    |ts0| == ROOTS && forall r :: 0 <= r < ROOTS && RootCount(m, r) == 0 ==> ts0[r] == Hole
  }

  lemma MappedHoles(d: InodeDisk, ts: seq<Tree>, m: nat, disk: Disk, used: seq<bool>, fm: set<nat>)
    requires Mapped(d, ts, m, disk, used, fm)
    ensures Holes(ts, m) && |d.direct| == 123 && forall r :: 0 <= r < 125 ==> RootPointer(d, r) == Entry(ts[r])
  {
    forall r | 0 <= r < ROOTS && RootCount(m, r) == 0
      ensures ts[r] == Hole
    {
      RootGood(d, ts, m, disk, used, fm, r);
    }
  }

  /** Pointer R of inode D after growth to N has got stuck at root J: it is set if the root was there, or has been
      completed, or is the one where it got stuck and SOME sector was left for it.  A pointer that has not been set
      before leads to a sector that was free. */
  ghost predicate RootKept(d: InodeDisk, ts0: seq<Tree>, m: nat, n: nat, j: nat, some: bool, used: seq<bool>,
                           used': seq<bool>, r: nat)
  {
    && |d.direct| == 123 && |ts0| == 125 && r < 125
    && (if RootCount(m, r) > 0 then RootPointer(d, r) == Entry(ts0[r]) != 0
        else NewPointer(RootPointer(d, r), (r < j && RootCount(n, r) > 0) || (r == j && some), used, used'))
  }

  ghost predicate RootsKept(d: InodeDisk, ts0: seq<Tree>, m: nat, n: nat, j: nat, some: bool, used: seq<bool>,
                            used': seq<bool>)
  {
    forall r :: 0 <= r < 125 ==> RootKept(d, ts0, m, n, j, some, used, used', r)
  }

  /** The pointers of a file that is growing. */
  lemma GrowingPointers(d: InodeDisk, ts0: seq<Tree>, m: nat, n: nat, disk0: Disk, used0: seq<bool>,
                        ts: seq<Tree>, j: nat, disk: Disk, used: seq<bool>, fm: set<nat>, used': seq<bool>, r: nat)
    requires Growing(d, ts0, m, n, disk0, used0, ts, j, disk, used, fm) && Holes(ts0, m) && r < 125
    requires OnlyMarks(used, used')
    ensures RootKept(d, ts0, m, n, j, false, used0, used', r)
  {
    hide KeepsLeaves, Frame, RootCount, Stored, Separate;
    RootFacts(m, n, r);
    var c := RootCounts(m, n, j)[r];
    assert Good(ts[r], RootLevels()[r], c, disk, used, fm);
    EntrySet(ts[r], RootLevels()[r], c, disk, used, fm);
    assert RootPointer(d, r) == Entry(ts[r]);
    assert RootCounts(m, n, 0)[r] == RootCount(m, r);
    if RootCount(m, r) == 0 && c > 0 {
      assert Entry(ts[r]) in Sectors(ts[r]) && Entry(ts[r]) !in Sectors(ts0[r]);
    }
  }

  /** The pointer to a tree is not 0 exactly when the tree holds a data sector. */
  lemma EntrySet(t: Tree, level: nat, k: nat, disk: Disk, used: seq<bool>, fm: set<nat>)
    requires Good(t, level, k, disk, used, fm)
    ensures k > 0 ==> Entry(t) in Sectors(t) && Usable(Entry(t), used, fm)
    ensures k == 0 ==> Entry(t) == 0
  {
    if t.Node? {
      assert t.sector in Sectors(t);
    }
  }

  /** The pointers when growth has got stuck at root J, whose pointer is E now. */
  lemma StuckPointers(d: InodeDisk, ts0: seq<Tree>, m: nat, n: nat, disk0: Disk, used0: seq<bool>,
                      ts: seq<Tree>, j: nat, disk1: Disk, used1: seq<bool>, fm: set<nat>,
                      d': InodeDisk, some: bool, used2: seq<bool>)
    requires Growing(d, ts0, m, n, disk0, used0, ts, j, disk1, used1, fm) && Holes(ts0, m) && j < 125
    requires |d.direct| == |d'.direct| == 123 && |ts0| == 125 && OnlyMarks(used0, used1) && OnlyMarks(used1, used2)
    requires forall r :: 0 <= r < 125 && r != j ==> RootPointer(d', r) == RootPointer(d, r)
    requires if RootCount(m, j) > 0 then RootPointer(d', j) == Entry(ts0[j])
             else NewPointer(RootPointer(d', j), some, used1, used2)
    ensures RootsKept(d', ts0, m, n, j, some, used0, used2)
  {
    hide Growing, RootCount;
    forall r | 0 <= r < 125
      ensures RootKept(d', ts0, m, n, j, some, used0, used2, r)
    {
      GrowingPointers(d, ts0, m, n, disk0, used0, ts, j, disk1, used1, fm, used2, r);
    }
  }

  /** The pointers of a file that has grown to the full. */
  lemma FullPointers(d: InodeDisk, ts0: seq<Tree>, m: nat, n: nat, disk0: Disk, used0: seq<bool>,
                     ts: seq<Tree>, disk: Disk, used: seq<bool>, fm: set<nat>)
    requires Growing(d, ts0, m, n, disk0, used0, ts, 125, disk, used, fm) && Holes(ts0, m)
    ensures RootsKept(d, ts0, m, n, 125, false, used0, used)
  {
    hide Growing, RootCount;
    MarksRefl(used);
    forall r | 0 <= r < 125
      ensures RootKept(d, ts0, m, n, 125, false, used0, used, r)
    {
      GrowingPointers(d, ts0, m, n, disk0, used0, ts, 125, disk, used, fm, used, r);
    }
  }

  /** What a refused reservation from M to N blocks, with FREE free sectors, makes of inode D in memory: it keeps the
      pointers it has got.  Those are exactly the ones for which there was a sector. */
  ghost predicate PointersKept(d: InodeDisk, d': InodeDisk, m: nat, n: nat, free: nat, used: seq<bool>,
                               used': seq<bool>) {
    && |d.direct| == |d'.direct| == 123
    && (forall r :: 0 <= r < 125 ==>
          if RootPointer(d, r) != 0 then RootPointer(d', r) == RootPointer(d, r)
          else NewPointer(RootPointer(d', r), HasSector(m, n, free, r), used, used'))
  }

  /** There is a sector for pointer R. */
  predicate HasSector(m: nat, n: nat, free: nat, r: nat) {
    if r < 123 then r < n && r < m + free
    else if r == 123 then n > 123 && m + free > 123
    else n > 251 && FileCost(m) + free > 252
  }

  lemma KeptIs(d: InodeDisk, d': InodeDisk, ts0: seq<Tree>, m: nat, n: nat, j: nat, some: bool, free: nat,
               used: seq<bool>, used': seq<bool>)
    requires RootsKept(d', ts0, m, n, j, some, used, used') && Holes(ts0, m) && |d.direct| == 123
    requires forall r :: 0 <= r < 125 ==> RootPointer(d, r) == Entry(ts0[r])
    requires forall r :: 0 <= r < 125 && RootCount(m, r) == 0 ==>
      (HasSector(m, n, free, r) <==> (r < j && RootCount(n, r) > 0) || (r == j && some))
    ensures PointersKept(d, d', m, n, free, used, used')
  {
    hide RootCount, HasSector;
    forall r | 0 <= r < 125
      ensures |d'.direct| == 123
      ensures if RootPointer(d, r) != 0 then RootPointer(d', r) == RootPointer(d, r)
              else NewPointer(RootPointer(d', r), HasSector(m, n, free, r), used, used')
    {
      assert RootKept(d', ts0, m, n, j, some, used, used', r);
    }
    assert RootKept(d', ts0, m, n, j, some, used, used', 0);
  }

  lemma DirectHas(m: nat, n: nat, free: nat, i: nat, r: nat)
    requires m <= i == m + free < n && i < 123 && r < 125
    ensures RootCount(m, r) == 0 ==> (HasSector(m, n, free, r) <==> r < i && RootCount(n, r) > 0)
  {
  }

  /** J is the root where growth gets stuck, with G sectors left. */
  lemma TierHas(m: nat, n: nat, free: nat, j: nat, g: nat, r: nat)
    requires m <= n && m <= 16635 && ((j == 123 && n > 123) || (j == 124 && n > 251)) && r < 125
    requires g == free - (RootSpent(n, j) - RootSpent(m, j))
    requires g < RootSpent(n, j + 1) - RootSpent(n, j) - (RootSpent(m, j + 1) - RootSpent(m, j))
    ensures RootCount(m, r) == 0 ==>
      (HasSector(m, n, free, r) <==> (r < j && RootCount(n, r) > 0) || (r == j && g > 0))
  {
    FileCostParts(m);
    FileCostParts(251);
    if m > 251 {
      CostStrict(251, m);
    }
  }

  lemma TierKept(d: InodeDisk, d': InodeDisk, ts0: seq<Tree>, m: nat, n: nat, j: nat, free: nat, g: nat,
                 used: seq<bool>, used': seq<bool>)
    requires RootsKept(d', ts0, m, n, j, g > 0, used, used') && Holes(ts0, m) && |d.direct| == 123
    requires forall r :: 0 <= r < 125 ==> RootPointer(d, r) == Entry(ts0[r])
    requires m <= n && m <= 16635 && ((j == 123 && n > 123) || (j == 124 && n > 251))
    requires g == free - (RootSpent(n, j) - RootSpent(m, j))
    requires g < RootSpent(n, j + 1) - RootSpent(n, j) - (RootSpent(m, j + 1) - RootSpent(m, j))
    ensures PointersKept(d, d', m, n, free, used, used')
  {
    hide RootsKept, RootCount, RootSpent, HasSector, PointersKept;
    forall r | 0 <= r < 125 && RootCount(m, r) == 0
      ensures HasSector(m, n, free, r) <==> (r < j && RootCount(n, r) > 0) || (r == j && g > 0)
    {
      TierHas(m, n, free, j, g, r);
    }
    KeptIs(d, d', ts0, m, n, j, g > 0, free, used, used');
  }

  lemma FullKept(d: InodeDisk, d': InodeDisk, ts0: seq<Tree>, m: nat, n: nat, free: nat,
                 used: seq<bool>, used': seq<bool>)
    requires RootsKept(d', ts0, m, n, 125, false, used, used') && Holes(ts0, m) && |d.direct| == 123
    requires forall r :: 0 <= r < 125 ==> RootPointer(d, r) == Entry(ts0[r])
    requires m <= 16635 < n && FileCost(16635) - FileCost(m) <= free
    ensures PointersKept(d, d', m, n, free, used, used')
  {
    hide RootsKept, RootCount, HasSector, PointersKept, FileCost;
    forall r | 0 <= r < 125 && RootCount(m, r) == 0
      ensures HasSector(m, n, free, r) <==> (r < 125 && RootCount(n, r) > 0) || (r == 125 && false)
    {
      FullHas(m, n, free, r);
    }
    KeptIs(d, d', ts0, m, n, 125, false, free, used, used');
  }

  lemma FullHas(m: nat, n: nat, free: nat, r: nat)
    requires m <= 16635 < n && FileCost(16635) - FileCost(m) <= free && r < 125
    ensures RootCount(m, r) == 0 ==> (HasSector(m, n, free, r) <==> r < 125 && RootCount(n, r) > 0)
  {
    FileCostGrows(m, 16635);
    assert FileCost(16635) > 252;
  }

  /** When the file cannot be completed at root J, everything it held before is still found. */
  lemma RootsStillFound(d: InodeDisk, ts0: seq<Tree>, m: nat, n: nat, disk0: Disk, used0: seq<bool>,
                        ts: seq<Tree>, j: nat, disk1: Disk, used1: seq<bool>,
                        d': InodeDisk, disk2: Disk, used2: seq<bool>, fm: set<nat>)
    requires Growing(d, ts0, m, n, disk0, used0, ts, j, disk1, used1, fm) && j < 125 && m <= 16635
    requires |d.direct| == |d'.direct| == 123
    requires forall r :: 0 <= r < 125 && r != j ==> RootPointer(d', r) == RootPointer(d, r)
    requires |ts0| == |ts| == 125 && (RootCount(m, j) > 0 ==> RootPointer(d', j) == Entry(ts0[j]))
    requires Spoiled(disk1, used1, disk2, used2, IndexSectors(ts[j]), fm)
    requires Finds(disk2, ts0[j], RootLevel(j), RootCount(m, j))
    ensures Located(d', ts0, m, disk2)
  {
    hide Growing, Finds, Family, RootCount;
    GrowingFacts(d, ts0, m, n, disk0, used0, ts, j, disk1, used1, fm);
    forall r | 0 <= r < 125 && r != j
      ensures RootFound(d', ts0, m, disk2, r)
    {
      SparesIndex(ts, RootLevels(), RootCounts(m, n, j), disk1, used1, fm, j, r, disk2, used2);
      RootStillFound(d, ts0, m, n, disk0, used0, ts, j, disk1, used1, disk2, used2, fm, r);
    }
  }

  lemma RootStillFound(d: InodeDisk, ts0: seq<Tree>, m: nat, n: nat, disk0: Disk, used0: seq<bool>,
                       ts: seq<Tree>, j: nat, disk1: Disk, used1: seq<bool>, disk2: Disk, used2: seq<bool>,
                       fm: set<nat>, r: nat)
    requires Growing(d, ts0, m, n, disk0, used0, ts, j, disk1, used1, fm) && r < 125
    requires |ts| == |ts0| == 125 && |disk1| == |disk2| && OnlyMarks(used1, used2)
    requires forall s :: s in IndexSectors(ts[r]) && s < |disk1| ==> disk2[s] == disk1[s]
    ensures |d.direct| == 123 && Finds(disk2, ts0[r], RootLevel(r), RootCount(m, r))
    ensures RootCount(m, r) > 0 ==> RootPointer(d, r) == Entry(ts0[r])
  {
    hide Finds, RootCount, KeepsLeaves, Good;
    var c0, c := RootCounts(m, n, 0), RootCounts(m, n, j);
    RootFacts(m, n, r);
    FamilyFinds(ts0, RootLevels(), c0, disk0, used0, ts, c, disk1, used1, fm, disk2, used2, r);
    assert c0[r] == RootCount(m, r);
  }

  /** Also when the file has grown to the full, but was to grow further. */
  lemma GrownLocated(d: InodeDisk, ts0: seq<Tree>, m: nat, n: nat, disk0: Disk, used0: seq<bool>,
                     ts: seq<Tree>, disk: Disk, used: seq<bool>, fm: set<nat>)
    requires Growing(d, ts0, m, n, disk0, used0, ts, 125, disk, used, fm) && m <= 16635
    ensures Located(d, ts0, m, disk)
  {
    hide Growing, Finds, Family, RootCount;
    GrowingFacts(d, ts0, m, n, disk0, used0, ts, 125, disk, used, fm);
    forall r | 0 <= r < 125
      ensures RootFound(d, ts0, m, disk, r)
    {
      RootStillFound(d, ts0, m, n, disk0, used0, ts, 125, disk, used, disk, used, fm, r);
    }
  }

  lemma DirectStuck(m: nat, n: nat, l: nat, i: nat, free: nat)
    requires m <= n && i < l == Min(n, 123) && RootCount(m, i) == 0 && free == RootSpent(n, i) - RootSpent(m, i)
    ensures m <= i == m + free < n && i < 123
  {
  }

  lemma NoPointer(d: InodeDisk, ts: seq<Tree>, ts0: seq<Tree>, i: nat, m: nat, used: seq<bool>)
    requires Points(d, ts) && i < 123 && |ts0| == 125 && ts[i] == ts0[i] && Holes(ts0, m) && RootCount(m, i) == 0
    ensures |d.direct| == 123 && NewPointer(RootPointer(d, i), false, used, used)
  {
  }

  lemma DirectSpent(m: nat, n: nat, i: nat, l: nat)
    requires m <= n && i < l <= 123 && l <= n
    ensures RootSpent(n, i + 1) == RootSpent(n, i) + 1 && RootSpent(m, i + 1) == RootSpent(m, i) + RootCount(m, i)
    ensures RootSpent(m, l) - RootSpent(m, i + 1) <= RootSpent(n, l) - RootSpent(n, i + 1)
  {
  }

  lemma GrowingEnd(d: InodeDisk, ts0: seq<Tree>, m: nat, n: nat, disk0: Disk, used0: seq<bool>, ts: seq<Tree>, j: nat,
                   disk: Disk, used: seq<bool>, fm: set<nat>)
    requires Growing(d, ts0, m, n, disk0, used0, ts, j, disk, used, fm) && n <= 16635
    requires n <= j <= 123 || (n <= 251 && 124 <= j) || j == 125
    ensures Growing(d, ts0, m, n, disk0, used0, ts, 125, disk, used, fm)
    ensures Mapped(d, ts, n, disk, used, fm)
    ensures RootSpent(m, j) == FileCost(m) && RootSpent(n, j) == FileCost(n)
  {
    hide FamilyGrew, Family, Points, RootCount, RootSpent, FileCost;
    RootsDone(m, n, j);
    FileCostIs(m);
    FileCostIs(n);
    GrowingFacts(d, ts0, m, n, disk0, used0, ts, j, disk, used, fm);
    assert RootCounts(m, n, 125) == RootCounts(n, 0, 0);
    GrewSizes(ts0, m, n, disk0, used0, ts, j, disk, used, fm);
  }

  lemma GrewSizes(ts0: seq<Tree>, m: nat, n: nat, disk0: Disk, used0: seq<bool>, ts: seq<Tree>, j: nat, disk: Disk,
                  used: seq<bool>, fm: set<nat>)
    requires FamilyGrew(ts0, RootLevels(), RootCounts(m, n, 0), disk0, used0, ts, RootCounts(m, n, j), disk, used, fm)
    ensures |used| <= |disk|
  {
  }

  lemma SpentFacts(m: nat, n: nat, j: nat)
    requires m <= n && j < 125
    ensures RootSpent(n, j + 1) == RootSpent(n, j) + Cost(RootLevel(j), RootCount(n, j))
    ensures RootSpent(m, j + 1) == RootSpent(m, j) + Cost(RootLevel(j), RootCount(m, j))
    ensures RootCount(m, j) <= RootCount(n, j)
    ensures n <= 16635 ==> FileCost(m) - RootSpent(m, j) <= FileCost(n) - RootSpent(n, j)
    ensures n <= 16635 ==> FileCost(m) - RootSpent(m, j + 1) <= FileCost(n) - RootSpent(n, j + 1)
  {
    hide RootSpent, RootCount, FileCost;
    RootSpentStep(m, n, j);
    RootSpentStep(m, m, j);
    if j > 0 {
      RootSpentStep(m, n, j - 1);
    } else {
      SpentTotal(m, n);
    }
    if n <= 16635 {
      FileCostIs(n);
      FileCostIs(m);
    }
  }

  lemma SpentTotal(m: nat, n: nat)
    requires m <= n
    ensures RootSpent(m, 125) - RootSpent(m, 0) <= RootSpent(n, 125) - RootSpent(n, 0)
  {
  }

  /** Grow root J (123 or 124) through inode_reserve_indirect. */
  method ReserveRoot(fm: FreeMap.Allocator, inode: InodeDisk, j: nat, num: nat, ghost ts0: seq<Tree>, ghost m: nat,
                     ghost n: nat,
                     ghost disk0: Disk, ghost used0: seq<bool>, ghost ts1: seq<Tree>)
    returns (ok: bool, d: InodeDisk, ghost ts: seq<Tree>)
    requires fm.Valid() && fm.CanWrite() && (j == 123 || j == 124) && m <= n && m <= 16635 && num == RootCount(n, j)
    requires 1 <= num <= Capacity(RootLevel(j))
    requires Growing(inode, ts0, m, n, disk0, used0, ts1, j, fm.cache.view, fm.Used(), fm.Own()) && Holes(ts0, m)
    modifies fm.bits.words, fm.cache, fm.cache.slots
    ensures fm.Valid() && |fm.cache.view| == |old(fm.cache.view)|
    ensures ok == (RootSpent(n, j + 1) - RootSpent(n, j) - (RootSpent(m, j + 1) - RootSpent(m, j)) <= old(fm.Free()))
    ensures ok ==>
      fm.Free() == old(fm.Free()) - (RootSpent(n, j + 1) - RootSpent(n, j) - (RootSpent(m, j + 1) - RootSpent(m, j)))
    ensures ok ==> Growing(d, ts0, m, n, disk0, used0, ts, j + 1, fm.cache.view, fm.Used(), fm.Own())
    ensures ok ==> d.length == inode.length && d.isDir == inode.isDir
    ensures !ok ==> Spoiled(disk0, used0, fm.cache.view, fm.Used(), AllIndexSectors(ts0), fm.Own())
    ensures ok ==> SectorZero(old(fm.cache.view), fm.cache.view, false)
    ensures !ok ==> SectorZero(old(fm.cache.view), fm.cache.view,
                               Lost(RootLevel(j), RootCount(m, j), RootCount(n, j), old(fm.Free())))
    ensures !ok ==>
      fm.Free() == 0 && Located(d, ts0, m, fm.cache.view) && d.length == inode.length && d.isDir == inode.isDir
    ensures !ok ==> RootsKept(d, ts0, m, n, j, old(fm.Free()) > 0, used0, fm.Used())
    ensures LowestFirst(old(fm.Used()), fm.Used()) && OnlyMarks(old(fm.Used()), fm.Used())
  {
    hide *;
    fm.Sizes();
    fm.OwnSectors();
    ZeroRefl(fm.cache.view);
    ghost var own := fm.Own();
    ghost var disk1, used1 := fm.cache.view, fm.Used();
    GrowingFacts(inode, ts0, m, n, disk0, used0, ts1, j, disk1, used1, own);
    GrowingTail(inode, ts0, m, n, disk0, used0, ts1, j, disk1, used1, own);
    RootBefore(ts1, m, n, j, disk1, used1, own);
    RootFacts(m, n, j);
    SpentFacts(m, n, j);
    DirectPointer(inode, ts1, 0);
    d, ts := inode, ts1;
    var e;
    ghost var t';
    ok, e, t' := ReserveIndirect(fm, if j == 123 then d.indirect else d.doubly, num, if j == 123 then 1 else 2, ts1[j],
                                 RootCount(m, j));
    d := if j == 123 then d.(indirect := e) else d.(doubly := e);
    if !ok {
      SpoiledByOne(ts0, disk0, used0, disk1, used1, ts1, j, fm.cache.view, fm.Used(), own);
      RootPointers(inode, e);
      RootsStillFound(inode, ts0, m, n, disk0, used0, ts1, j, disk1, used1, d, fm.cache.view, fm.Used(), own);
      StuckPointers(inode, ts0, m, n, disk0, used0, ts1, j, disk1, used1, own, d, old(fm.Free()) > 0, fm.Used());
      return;
    }
    ZeroKept(ts1[j], if j == 123 then 1 else 2, RootCount(m, j), disk1, used1, t', num, fm.cache.view, fm.Used(), own,
             disk1);
    PointsIndirect(inode, ts1, e, t');
    ts := ts1[j := t'];
    RootAfter(inode, ts0, m, n, disk0, used0, ts1, j, disk1, used1, d, t', fm.cache.view, fm.Used(), own);
  }

  lemma RootPointers(d: InodeDisk, e: Word)
    requires |d.direct| == 123
    ensures RootPointer(d.(indirect := e), 123) == e == RootPointer(d.(doubly := e), 124)
    ensures forall r :: 0 <= r < 125 && r != 123 ==> RootPointer(d.(indirect := e), r) == RootPointer(d, r)
    ensures forall r :: 0 <= r < 125 && r != 124 ==> RootPointer(d.(doubly := e), r) == RootPointer(d, r)
  {
  }

  lemma GrowingTail(d: InodeDisk, ts0: seq<Tree>, m: nat, n: nat, disk0: Disk, used0: seq<bool>,
                    ts: seq<Tree>, j: nat, disk: Disk, used: seq<bool>, fm: set<nat>)
    requires Growing(d, ts0, m, n, disk0, used0, ts, j, disk, used, fm)
    ensures |ts| == |ts0| == 125 && forall i :: j <= i < 125 ==> ts[i] == ts0[i]
  {
  }

  /** inode_reserve: make the file big enough for LENGTH bytes.  It succeeds exactly when the length is
      supported and there are enough free sectors, however they are spread.  A refused call has taken sectors
      already, unless there was none to take; the file then still leads to all blocks it had. */
  method Reserve(fm: FreeMap.Allocator, inode: InodeDisk, length: int, ghost ts0: seq<Tree>, ghost m: nat)
    returns (ok: bool, d: InodeDisk, ghost ts: seq<Tree>)
    requires fm.Valid() && fm.CanWrite() && Mapped(inode, ts0, m, fm.cache.view, fm.Used(), fm.Own())
    requires length >= 0 ==> m <= BytesToSectors(length)
    modifies fm.bits.words, fm.cache, fm.cache.slots
    ensures fm.Valid() && |fm.cache.view| == |old(fm.cache.view)|
    ensures ok == (&& length >= 0 && BytesToSectors(length) <= MAX_SECTORS
                   && FileCost(BytesToSectors(length)) - FileCost(m) <= old(fm.Free()))
    ensures ok ==> fm.Free() == old(fm.Free()) - (FileCost(BytesToSectors(length)) - FileCost(m))
    ensures ok ==> Growing(d, ts0, m, BytesToSectors(length), old(fm.cache.view), old(fm.Used()),
                           ts, 125, fm.cache.view, fm.Used(), fm.Own())
    ensures ok ==> Mapped(d, ts, BytesToSectors(length), fm.cache.view, fm.Used(), fm.Own())
    ensures ok ==> d.length == inode.length && d.isDir == inode.isDir
    ensures !ok ==>
      Spoiled(old(fm.cache.view), old(fm.Used()), fm.cache.view, fm.Used(), AllIndexSectors(ts0), fm.Own())
    ensures !ok ==> SectorZero(old(fm.cache.view), fm.cache.view,
                               length >= 0 && FileLost(m, Min(BytesToSectors(length), 16635), old(fm.Free())))
    ensures !ok ==> fm.Free() == FreeAfterRefusal(m, length, old(fm.Free()))
    ensures !ok ==> (fm.Used() == old(fm.Used()) <==> length < 0 || old(fm.Free()) == 0 || m == 16635)
    ensures !ok ==> Located(d, ts0, m, fm.cache.view) && d.length == inode.length && d.isDir == inode.isDir
    ensures !ok ==>
      if length < 0 then d == inode
      else PointersKept(inode, d, m, BytesToSectors(length), old(fm.Free()), old(fm.Used()), fm.Used())
    ensures LowestFirst(old(fm.Used()), fm.Used()) && OnlyMarks(old(fm.Used()), fm.Used())
  {
    hide *;
    ghost var disk0, used0, own, free0 := fm.cache.view, fm.Used(), fm.Own(), fm.Free();
    MaxIs();
    fm.Sizes();
    d, ts := inode, ts0;
    UntouchedIsSpoiled(disk0, used0, AllIndexSectors(ts0), own);
    ZeroRefl(disk0);
    RefusalIs(m, length, free0);
    MappedLocated(inode, ts0, m, disk0, used0, own);
    MappedMax(inode, ts0, m, disk0, used0, own);
    RefusesIs(m, length, free0);
    LowestRefl(used0);
    MarksRefl(used0);
    if length < 0 {
      return false, d, ts;
    }
    var num := BytesToSectors(length);
    ghost var n := num;
    RootFacts(m, n, 0);
    SpentFacts(m, n, 0);
    MinIs(n, 16635);
    var l := Min(num, 123);
    MinIs(num, 123);
    ok, d, ts := ReserveDirect(fm, d, l, ts0, m, n);
    if n <= 16635 {
      ReserveTail(m, n, l);
    }
    if !ok {
      DirectLost(m, n, l, free0);
      TooFew(m, n, l, free0);
      fm.Sizes();
      SameMap(m, length, disk0, used0, AllIndexSectors(ts0), own, fm.cache.view, fm.Used());
      return;
    }
    num := num - l;
    if num == 0 {
      GrowingEnd(d, ts0, m, n, disk0, used0, ts, l, fm.cache.view, fm.Used(), own);
      return;
    }
    ghost var used1 := fm.Used();
    MappedHoles(inode, ts0, m, disk0, used0, own);
    ok, d, ts := ReserveTiers(fm, d, num, ts0, m, n, disk0, used0, free0, ts, inode);
    LowestTrans(used0, used1, fm.Used());
    MarksTrans(used0, used1, fm.Used());
    fm.Sizes();
    if !ok {
      SameMap(m, length, disk0, used0, AllIndexSectors(ts0), own, fm.cache.view, fm.Used());
    }
  }

  /** The parts of inode_reserve for the indirect and the doubly indirect block, when the direct blocks are full. */
  method ReserveTiers(fm: FreeMap.Allocator, inode: InodeDisk, num0: nat, ghost ts0: seq<Tree>, ghost m: nat,
                      ghost n: nat,
                      ghost disk0: Disk, ghost used0: seq<bool>, ghost free0: nat, ghost ts1: seq<Tree>,
                      ghost d0: InodeDisk)
    returns (ok: bool, d: InodeDisk, ghost ts: seq<Tree>)
    requires fm.Valid() && fm.CanWrite() && m <= n && m <= 16635 && 1 <= num0 == n - 123
    requires Growing(inode, ts0, m, n, disk0, used0, ts1, 123, fm.cache.view, fm.Used(), fm.Own())
    requires Holes(ts0, m) && |d0.direct| == 123 && forall r :: 0 <= r < 125 ==> RootPointer(d0, r) == Entry(ts0[r])
    requires fm.Free() == free0 - (RootSpent(n, 123) - RootSpent(m, 123)) && SectorZero(disk0, fm.cache.view, false)
    modifies fm.bits.words, fm.cache, fm.cache.slots
    ensures fm.Valid() && |fm.cache.view| == |old(fm.cache.view)|
    ensures ok == (n <= 16635 && FileCost(n) - FileCost(m) <= free0)
    ensures ok ==> fm.Free() == free0 - (FileCost(n) - FileCost(m))
    ensures ok ==> Growing(d, ts0, m, n, disk0, used0, ts, 125, fm.cache.view, fm.Used(), fm.Own())
    ensures ok ==> Mapped(d, ts, n, fm.cache.view, fm.Used(), fm.Own())
    ensures d.length == inode.length && d.isDir == inode.isDir
    ensures !ok ==> Spoiled(disk0, used0, fm.cache.view, fm.Used(), AllIndexSectors(ts0), fm.Own())
    ensures !ok ==> SectorZero(disk0, fm.cache.view, FileLost(m, Min(n, 16635), free0))
    ensures !ok ==>
      fm.Free() == Remaining(FileCost(Min(n, 16635)) - FileCost(m), free0) && Located(d, ts0, m, fm.cache.view)
    ensures !ok ==> PointersKept(d0, d, m, n, free0, used0, fm.Used())
    ensures LowestFirst(old(fm.Used()), fm.Used()) && OnlyMarks(old(fm.Used()), fm.Used())
  {
    hide *;
    ghost var own := fm.Own();
    MaxIs();
    MinIs(n, 16635);
    RemainingIs(FileCost(Min(n, 16635)) - FileCost(m), free0);
    RootFacts(m, n, 0);
    SpentFacts(m, n, 123);
    SpentFacts(m, n, 124);
    var num := num0;
    var l := Min(num, 128);
    MinIs(num, 128);
    ghost var disk1, free1 := fm.cache.view, fm.Free();
    ok, d, ts := ReserveRoot(fm, inode, 123, l, ts0, m, n, disk0, used0, ts1);
    if !ok {
      RootLost(m, n, 123, free0, free1, disk0, disk1, fm.cache.view);
      TooFew(m, n, 124, free0);
      TierKept(d0, d, ts0, m, n, 123, free0, free1, used0, fm.Used());
      return;
    }
    ZeroTrans(disk0, disk1, fm.cache.view, false);
    num := num - l;
    if num == 0 {
      GrowingEnd(d, ts0, m, n, disk0, used0, ts, 124, fm.cache.view, fm.Used(), own);
      return;
    }
    l := Min(num, 16384);
    MinIs(num, 16384);
    disk1, free1 := fm.cache.view, fm.Free();
    ghost var used1 := fm.Used();
    ok, d, ts := ReserveRoot(fm, d, 124, l, ts0, m, n, disk0, used0, ts);
    LowestTrans(old(fm.Used()), used1, fm.Used());
    MarksTrans(old(fm.Used()), used1, fm.Used());
    if !ok {
      RootLost(m, n, 124, free0, free1, disk0, disk1, fm.cache.view);
      TooFew(m, n, 125, free0);
      TierKept(d0, d, ts0, m, n, 124, free0, free1, used0, fm.Used());
      return;
    }
    ZeroTrans(disk0, disk1, fm.cache.view, false);
    num := num - l;
    if num == 0 {
      GrowingEnd(d, ts0, m, n, disk0, used0, ts, 125, fm.cache.view, fm.Used(), own);
      return;
    }
    GrowingFacts(d, ts0, m, n, disk0, used0, ts, 125, fm.cache.view, fm.Used(), own);
    FrameIsSpoiled(disk0, used0, fm.cache.view, fm.Used(), AllIndexSectors(ts0), own);
    TooBig(m, n, free0);
    GrownLocated(d, ts0, m, n, disk0, used0, ts, fm.cache.view, fm.Used(), own);
    FullPointers(d, ts0, m, n, disk0, used0, ts, fm.cache.view, fm.Used(), own);
    FullKept(d0, d, ts0, m, n, free0, used0, fm.Used());
    ok := false;
  }

  lemma MappedMax(d: InodeDisk, ts: seq<Tree>, n: nat, disk: Disk, used: seq<bool>, fm: set<nat>)
    requires Mapped(d, ts, n, disk, used, fm)
    ensures n <= 16635
  {
  }

  lemma ZeroTrans(a: Disk, b: Disk, c: Disk, hit: bool)
    requires SectorZero(a, b, false) && SectorZero(b, c, hit)
    ensures SectorZero(a, c, hit)
  {
  }

  lemma DirectLost(m: nat, n: nat, l: nat, f: nat)
    requires m <= n && m <= 16635 && l == Min(n, 123) && f < RootSpent(n, l) - RootSpent(m, l)
    ensures !FileLost(m, Min(n, 16635), f)
  {
    hide FileLost;
    LostInDirect(m, n, f);
  }

  /** The indirect or the doubly indirect root could not be completed. */
  lemma RootLost(m: nat, n: nat, j: nat, f: nat, g: nat, disk0: Disk, disk1: Disk, disk2: Disk)
    requires m <= n && m <= 16635 && ((j == 123 && n > 123) || (j == 124 && n > 251))
    requires g == f - (RootSpent(n, j) - RootSpent(m, j))
    requires g < RootSpent(n, j + 1) - RootSpent(n, j) - (RootSpent(m, j + 1) - RootSpent(m, j))
    requires SectorZero(disk0, disk1, false)
    requires SectorZero(disk1, disk2, Lost(RootLevel(j), RootCount(m, j), RootCount(n, j), g))
    ensures SectorZero(disk0, disk2, FileLost(m, Min(n, 16635), f))
  {
    hide Lost, FileLost;
    if j == 123 {
      LostInIndirect(m, n, f, g);
    } else {
      FileCostParts(m);
      LostInDoubly(m, n, f, g);
    }
  }

  lemma TooBig(m: nat, n: nat, f: nat)
    requires m <= 16635 < n && RootSpent(n, 125) - RootSpent(m, 125) <= f
    ensures !FileLost(m, 16635, f) && FileCost(Min(n, 16635)) == RootSpent(n, 125) && FileCost(m) == RootSpent(m, 125)
  {
    hide FileLost;
    FileCostIs(m);
    FileCostIs(16635);
    assert RootSpent(n, 125) == RootSpent(16635, 125);
    NotLostWhenEnough(m, 16635, f);
  }

  /** Free sectors that a refused reservation leaves: what the index can hold has been taken if there were enough
      sectors for that, and everything otherwise. */
  function FreeAfterRefusal(m: nat, length: int, free: nat): int {
    if length < 0 then free
    else Remaining(FileCost(Min(BytesToSectors(length), MAX_SECTORS)) - FileCost(m), free)
  }

  /** What is left of FREE sectors when COST of them are taken, or all when there are fewer. */
  function Remaining(cost: int, free: nat): int {
    if cost <= free then free - cost else 0
  }

  lemma RemainingIs(cost: int, free: nat)
    ensures Remaining(cost, free) == if cost <= free then free - cost else 0
  {
  }

  lemma RefusalIs(m: nat, length: int, free: nat)
    ensures length < 0 ==> FreeAfterRefusal(m, length, free) == free
    ensures length >= 0 ==>
      var cost := FileCost(Min(BytesToSectors(length), 16635)) - FileCost(m);
      && FreeAfterRefusal(m, length, free) == Remaining(cost, free)
      && Remaining(cost, free) == if cost <= free then free - cost else 0
  {
  }

  /** The first J roots already need more than there is. */
  lemma TooFew(m: nat, n: nat, j: nat, free: nat)
    requires m <= n && m <= 16635 && free < RootSpent(n, j) - RootSpent(m, j)
    requires (j == Min(n, 123) || j == 124 || j == 125)
    ensures free < FileCost(Min(n, 16635)) - FileCost(m)
  {
    FileCostIs(m);
    FileCostIs(Min(n, 16635));
    assert RootSpent(n, 125) == RootSpent(Min(n, 16635), 125);
    SpentMore(m, n, j);
  }

  lemma SpentMore(m: nat, n: nat, j: nat)
    requires m <= n && (j <= 123 || j == 124 || j == 125)
    ensures RootSpent(n, j) - RootSpent(m, j) <= RootSpent(n, 125) - RootSpent(m, 125)
  {
  }

  lemma {:induction false} CostStrict(m: nat, n: nat)
    requires m < n
    ensures FileCost(m) < FileCost(n)
  {
  }

  /** The length is not supported, or there are too few free sectors. */
  ghost predicate Refuses(m: nat, length: int, free: nat) {
    length < 0 || BytesToSectors(length) > MAX_SECTORS || FileCost(BytesToSectors(length)) - FileCost(m) > free
  }

  lemma RefusesIs(m: nat, length: int, free: nat)
    ensures Refuses(m, length, free) <==>
      length < 0 || BytesToSectors(length) > MAX_SECTORS || FileCost(BytesToSectors(length)) - FileCost(m) > free
  {
  }

  /** A refused reservation leaves the free count as it was exactly when the length is negative, no sector was free,
      or the file already had all the blocks that the index can hold. */
  lemma RefusalKeepsCount(m: nat, length: int, free: nat)
    requires m <= MAX_SECTORS && (length >= 0 ==> m <= BytesToSectors(length))
    requires Refuses(m, length, free)
    ensures FreeAfterRefusal(m, length, free) == free <==> length < 0 || free == 0 || m == MAX_SECTORS
  {
    if length >= 0 && m < Min(BytesToSectors(length), MAX_SECTORS) {
      CostStrict(m, Min(BytesToSectors(length), MAX_SECTORS));
    }
  }

  /** Marks that are only added leave the map as it was exactly when they leave the free count as it was. */
  lemma {:induction false} SameCount(used: seq<bool>, used': seq<bool>)
    requires OnlyMarks(used, used')
    ensures Count(used', false) <= Count(used, false)
    ensures used' == used <==> Count(used', false) == Count(used, false)
    decreases |used|
  {
    if used != [] {
      var n := |used| - 1;
      SameCount(used[..n], used'[..n]);
      assert used == used[..n] + [used[n]] && used' == used'[..n] + [used'[n]];
    }
  }

  /** When a refused reservation leaves the free map as it was. */
  lemma SameMap(m: nat, length: int, disk: Disk, used: seq<bool>, index: set<nat>, fm: set<nat>,
                disk': Disk, used': seq<bool>)
    requires m <= 16635 && (length >= 0 ==> m <= BytesToSectors(length)) && Refuses(m, length, Count(used, false))
    requires Spoiled(disk, used, disk', used', index, fm)
    requires Count(used', false) == FreeAfterRefusal(m, length, Count(used, false))
    ensures used' == used <==> length < 0 || Count(used, false) == 0 || m == 16635
  {
    hide Count, FreeAfterRefusal, FileCost;
    RefusalKeepsCount(m, length, Count(used, false));
    SameCount(used, used');
  }

  lemma MaxIs()
    ensures MAX_SECTORS == 16635 && FANOUT == 128 && ROOTS == 125 && Capacity(1) == 128 && Capacity(2) == 16384
  {
  }

  lemma ReserveTail(m: nat, n: nat, l: nat)
    requires m <= n && l == Min(n, 123) && n <= 16635
    ensures FileCost(m) - RootSpent(m, l) <= FileCost(n) - RootSpent(n, l)
    ensures n <= 123 ==> FileCost(m) == RootSpent(m, l) && FileCost(n) == RootSpent(n, l)
    ensures n <= 251 ==> FileCost(m) == RootSpent(m, 124) && FileCost(n) == RootSpent(n, 124)
    ensures FileCost(m) == RootSpent(m, 125) && FileCost(n) == RootSpent(n, 125)
  {
  }
}
