/** The three-tier index of an inode (123 direct blocks, an indirect and a doubly indirect one) as a
    family of 125 trees, and the bytes a file holds. */
module FileMap {
  import opened Layout
  import opened BlockTree
  import opened Growth

  const ROOTS := 125
  const INDIRECT_BASE := 123
  const DOUBLY_BASE := 251

  function RootLevel(j: nat): nat {
    if j < 123 then 0 else if j == 123 then 1 else 2
  }

  function Clamp(k: int, cap: nat): nat {
    if k < 0 then 0 else Min(k, cap)
  }

  /** Data sectors under root J of a file of N data sectors. */
  function RootCount(n: nat, j: nat): nat {
    if j < 123 then Clamp(n - j, 1)
    else if j == 123 then Clamp(n - INDIRECT_BASE, 128)
    else Clamp(n - DOUBLY_BASE, 16384)
  }

  ghost function RootLevels(): seq<nat> {
    seq<nat>(ROOTS, (j: nat) => RootLevel(j))
  }

  /** Counts while a file grows from K to N and J roots are done. */
  ghost function RootCounts(k: nat, n: nat, j: nat): seq<nat> {
    seq<nat>(ROOTS, (i: nat) => RootCount(if i < j then n else k, i))
  }

  ghost predicate Points(d: InodeDisk, ts: seq<Tree>) {
    && |d.direct| == DIRECT && |ts| == ROOTS
    && (forall j :: 0 <= j < DIRECT ==> d.direct[j] == Entry(ts[j]))
    && d.indirect == Entry(ts[123]) && d.doubly == Entry(ts[124])
  }

  /** D maps exactly its first N sectors, through the trees TS. */
  ghost predicate Mapped(d: InodeDisk, ts: seq<Tree>, n: nat, disk: Disk, used: seq<bool>, fm: set<nat>) {
    && n <= MAX_SECTORS && |used| <= |disk| && Points(d, ts)
    && Family(ts, RootLevels(), RootCounts(n, 0, 0), disk, used, fm)
  }

  function RootOf(i: nat): nat {
    if i < INDIRECT_BASE then i else if i < DOUBLY_BASE then 123 else 124
  }

  function RootBase(i: nat): nat {
    if i < INDIRECT_BASE then i else if i < DOUBLY_BASE then INDIRECT_BASE else DOUBLY_BASE
  }

  /** The sector of the file's I-th block. */
  ghost function DataAt(ts: seq<Tree>, i: nat): nat
    requires |ts| == ROOTS
  {
    LeafAt(ts[RootOf(i)], RootLevel(RootOf(i)), i - RootBase(i))
  }

  lemma RootGood(d: InodeDisk, ts: seq<Tree>, n: nat, disk: Disk, used: seq<bool>, fm: set<nat>, j: nat)
    requires Mapped(d, ts, n, disk, used, fm) && j < ROOTS
    ensures Good(ts[j], RootLevel(j), RootCount(n, j), disk, used, fm)
  {
    assert Good(ts[j], RootLevels()[j], RootCounts(n, 0, 0)[j], disk, used, fm);
  }

  lemma DataInside(d: InodeDisk, ts: seq<Tree>, n: nat, disk: Disk, used: seq<bool>, fm: set<nat>, i: nat)
    requires Mapped(d, ts, n, disk, used, fm) && i < n
    ensures DataAt(ts, i) in Sectors(ts[RootOf(i)]) && DataAt(ts, i) !in AllIndexSectors(ts)
    ensures Usable(DataAt(ts, i), used, fm) && DataAt(ts, i) < |disk|
  {
    var j := RootOf(i);
    RootGood(d, ts, n, disk, used, fm, j);
    LeafInside(ts[j], RootLevel(j), RootCount(n, j), i - RootBase(i));
    forall m | 0 <= m < ROOTS && m != j
      ensures DataAt(ts, i) !in IndexSectors(ts[m])
    {
      IndexWithin(ts[m]);
      assert Sectors(ts[m]) !! Sectors(ts[j]);
    }
  }

  /** Different blocks of a file lie in different sectors. */
  lemma DataDistinct(d: InodeDisk, ts: seq<Tree>, n: nat, disk: Disk, used: seq<bool>, fm: set<nat>, i: nat, j: nat)
    requires Mapped(d, ts, n, disk, used, fm) && i < j < n
    ensures DataAt(ts, i) != DataAt(ts, j)
  {
    var a, b := RootOf(i), RootOf(j);
    if a == b {
      RootGood(d, ts, n, disk, used, fm, a);
      LeavesDistinct(ts[a], RootLevel(a), RootCount(n, a), i - RootBase(i), j - RootBase(j));
    } else {
      DataInside(d, ts, n, disk, used, fm, i);
      DataInside(d, ts, n, disk, used, fm, j);
      assert Sectors(ts[a]) !! Sectors(ts[b]);
    }
  }

  /** A file stays mapped when only sectors outside its index blocks change and its own stay marked. */
  lemma MappedFrame(d: InodeDisk, ts: seq<Tree>, n: nat, disk: Disk, used: seq<bool>, fm: set<nat>, disk': Disk,
                    used': seq<bool>)
    requires Mapped(d, ts, n, disk, used, fm) && |disk| == |disk'| && |used| == |used'|
    requires forall s :: s in AllSectors(ts) && s < |used| && used[s] ==> used'[s]
    requires forall s :: s in AllIndexSectors(ts) && s < |disk| ==> disk'[s] == disk[s]
    ensures Mapped(d, ts, n, disk', used', fm)
  {
    forall j | 0 <= j < ROOTS
      ensures Good(ts[j], RootLevels()[j], RootCounts(n, 0, 0)[j], disk', used', fm)
    {
      assert IndexSectors(ts[j]) <= AllIndexSectors(ts) && Sectors(ts[j]) <= AllSectors(ts);
      GoodFrame(ts[j], RootLevels()[j], RootCounts(n, 0, 0)[j], disk, used, fm, disk', used');
    }
  }

  // ---- bytes --------------------------------------------------------------------

  function SectorOrZeros(disk: Disk, s: nat): Sector {
    if s < |disk| then disk[s] else ZERO_SECTOR
  }

  /** All bytes of the first N blocks of a file. */
  ghost function Raw(disk: Disk, ts: seq<Tree>, n: nat): (r: seq<Byte>)
    requires |ts| == ROOTS
    ensures |r| == 512 * n
  {
    seq<Byte>(512 * n, p requires 0 <= p => SectorOrZeros(disk, DataAt(ts, p / 512))[p % 512])
  }

  /** The contents of a file: its bytes up to the length. */
  ghost function Contents(d: InodeDisk, disk: Disk, ts: seq<Tree>): (r: seq<Byte>)
    requires |ts| == ROOTS && d.length >= 0
    ensures |r| == d.length
  {
    Raw(disk, ts, BytesToSectors(d.length))[..d.length]
  }

  /** The bytes after the end of the file in its last sector are zero. */
  ghost predicate SlackZero(d: InodeDisk, disk: Disk, ts: seq<Tree>)
    requires |ts| == ROOTS && d.length >= 0
  {
    var raw := Raw(disk, ts, BytesToSectors(d.length));
    forall p :: d.length <= p < |raw| ==> raw[p] == 0
  }

  /** What a read of SIZE bytes at OFFSET delivers: it stops at the end of the file. */
  function Slice(bytes: seq<Byte>, size: int, offset: int): (r: seq<Byte>)
    requires offset >= 0 || size <= 0
    ensures |r| == Clamp(Min(size, |bytes| - offset), |bytes|)
    ensures forall i :: 0 <= i < |r| ==> r[i] == bytes[offset + i]
  {
    if size <= 0 || |bytes| <= offset then [] else bytes[offset..Min(offset + size, |bytes|)]
  }

  /** Raw bytes with the bytes from P on replaced by CHUNK. */
  function Patched(raw: seq<Byte>, p: nat, chunk: seq<Byte>): (r: seq<Byte>)
    requires p + |chunk| <= |raw|
    ensures |r| == |raw|
  {
    raw[..p] + chunk + raw[p + |chunk|..]
  }

  lemma PatchedAt(raw: seq<Byte>, p: nat, chunk: seq<Byte>, i: nat)
    requires p + |chunk| <= |raw| && i < |raw|
    ensures Patched(raw, p, chunk)[i] == if p <= i < p + |chunk| then chunk[i - p] else raw[i]
  {
  }

  lemma RawFrame(disk: Disk, disk': Disk, ts: seq<Tree>, n: nat)
    requires |ts| == ROOTS && |disk| == |disk'|
    requires forall i :: 0 <= i < n ==> SectorOrZeros(disk', DataAt(ts, i)) == SectorOrZeros(disk, DataAt(ts, i))
    ensures Raw(disk', ts, n) == Raw(disk, ts, n)
  {
    forall p | 0 <= p < 512 * n
      ensures Raw(disk', ts, n)[p] == Raw(disk, ts, n)[p]
    {
      assert 0 <= p / 512 < n;
    }
  }

  lemma RawPatch(disk: Disk, disk': Disk, ts: seq<Tree>, n: nat, i: nat, ofs: nat, chunk: seq<Byte>)
    requires |ts| == ROOTS && i < n && ofs + |chunk| <= 512
    requires forall q :: 0 <= q < n && q != i ==>
      SectorOrZeros(disk', DataAt(ts, q)) == SectorOrZeros(disk, DataAt(ts, q))
    requires SectorOrZeros(disk', DataAt(ts, i)) == Patched(SectorOrZeros(disk, DataAt(ts, i)), ofs, chunk)
    ensures Raw(disk', ts, n) == Patched(Raw(disk, ts, n), 512 * i + ofs, chunk)
  {
    var a, b, c := Raw(disk', ts, n), Raw(disk, ts, n), Patched(Raw(disk, ts, n), 512 * i + ofs, chunk);
    forall p | 0 <= p < 512 * n
      ensures a[p] == c[p]
    {
      var q := p / 512;
      assert 0 <= q < n;
      assert a[p] == SectorOrZeros(disk', DataAt(ts, q))[p % 512];
      assert b[p] == SectorOrZeros(disk, DataAt(ts, q))[p % 512];
    }
  }

  lemma OtherBlocks(d: InodeDisk, ts: seq<Tree>, n: nat, disk: Disk, used: seq<bool>, fm: set<nat>, i: nat)
    requires Mapped(d, ts, n, disk, used, fm) && i < n
    ensures forall q :: 0 <= q < n && q != i ==> DataAt(ts, q) != DataAt(ts, i)
  {
    forall q | 0 <= q < n && q != i
      ensures DataAt(ts, q) != DataAt(ts, i)
    {
      DataDistinct(d, ts, n, disk, used, fm, Min(q, i), if q < i then i else q);
    }
  }

  /** Overwriting CHUNK bytes at OFS in the sector of block I patches the file there, and nowhere else. */
  lemma RawWrite(d: InodeDisk, ts: seq<Tree>, n: nat, disk: Disk, used: seq<bool>, fm: set<nat>, i: nat, ofs: nat,
                 chunk: seq<Byte>)
    requires Mapped(d, ts, n, disk, used, fm) && i < n && ofs + |chunk| <= 512
    ensures DataAt(ts, i) < |disk|
    ensures var disk' := disk[DataAt(ts, i) := Patched(disk[DataAt(ts, i)], ofs, chunk)];
            && Raw(disk', ts, n) == Patched(Raw(disk, ts, n), 512 * i + ofs, chunk)
            && Mapped(d, ts, n, disk', used, fm)
  {
    var s := DataAt(ts, i);
    DataInside(d, ts, n, disk, used, fm, i);
    OtherBlocks(d, ts, n, disk, used, fm, i);
    var disk' := disk[s := Patched(disk[s], ofs, chunk)];
    RawPatch(disk, disk', ts, n, i, ofs, chunk);
    MappedFrame(d, ts, n, disk, used, fm, disk', used);
  }
}
