/** The invariant of a whole set of files, as a property of values: every file is mapped by its own sectors. */
module FileStore {
  import opened Layout
  import opened BlockTree
  import opened Growth
  import opened FileMap
  import opened Lookup
  import opened Reserve
  import Deallocate

  /** File S: its inode is stored in sector S, its blocks are mapped, and the slack of its last block is zero. */
  ghost predicate FileOk(s: nat, d: InodeDisk, ts: seq<Tree>, disk: Disk, used: seq<bool>, fm: set<nat>) {
    && 1 <= s < |used| && used[s] && s !in fm && Encodable(d) && |ts| == ROOTS
    && Mapped(d, ts, BytesToSectors(d.length), disk, used, fm) && SlackZero(d, disk, ts)
    && disk[s] == EncodeInode(d)
  }

  /** All files, with pairwise disjoint sectors. */
  ghost predicate AllOk(inodes: map<nat, InodeDisk>, trees: map<nat, seq<Tree>>, disk: Disk, used: seq<bool>,
                        fm: set<nat>) {
    && inodes.Keys == trees.Keys
    && (forall s :: s in inodes ==> |trees[s]| == ROOTS && inodes[s].length >= 0)
    && (forall s :: s in inodes ==> FileOk(s, inodes[s], trees[s], disk, used, fm))
    && (forall s, r :: s in inodes && r in inodes ==> s !in AllSectors(trees[r]))
    && (forall s, r :: s in inodes && r in inodes && s != r ==> AllSectors(trees[s]) !! AllSectors(trees[r]))
  }

  /** What the files hold. */
  ghost function AllContents(inodes: map<nat, InodeDisk>, trees: map<nat, seq<Tree>>, disk: Disk): map<nat, seq<Byte>>
    requires inodes.Keys == trees.Keys
    requires forall s :: s in inodes ==> |trees[s]| == ROOTS && inodes[s].length >= 0
  {
    map s | s in inodes :: Contents(inodes[s], disk, trees[s])
  }

  lemma MappedUsable(d: InodeDisk, ts: seq<Tree>, n: nat, disk: Disk, used: seq<bool>, fm: set<nat>)
    requires Mapped(d, ts, n, disk, used, fm)
    ensures |ts| == ROOTS && |used| <= |disk| && forall s :: s in AllSectors(ts) ==> Usable(s, used, fm)
  {
    forall s | s in AllSectors(ts)
      ensures Usable(s, used, fm)
    {
      var j :| 0 <= j < |ts| && s in Sectors(ts[j]);
      RootGood(d, ts, n, disk, used, fm, j);
    }
  }

  lemma DataAmong(d: InodeDisk, ts: seq<Tree>, n: nat, disk: Disk, used: seq<bool>, fm: set<nat>, i: nat)
    requires Mapped(d, ts, n, disk, used, fm) && i < n
    ensures |ts| == ROOTS && DataAt(ts, i) in AllSectors(ts) && DataAt(ts, i) !in AllIndexSectors(ts)
    ensures DataAt(ts, i) < |disk| && Usable(DataAt(ts, i), used, fm)
  {
    DataInside(d, ts, n, disk, used, fm, i);
    assert Sectors(ts[RootOf(i)]) <= AllSectors(ts);
  }

  /** A file whose sectors do not change is the same file. */
  lemma FileFrame(s: nat, d: InodeDisk, ts: seq<Tree>, disk: Disk, used: seq<bool>, fm: set<nat>, disk': Disk,
                  used': seq<bool>)
    requires FileOk(s, d, ts, disk, used, fm) && |disk| == |disk'| && |used| == |used'|
    requires forall x :: x in AllSectors(ts) || x == s ==> 0 <= x < |used| && used'[x] && disk'[x] == disk[x]
    ensures FileOk(s, d, ts, disk', used', fm) && Contents(d, disk', ts) == Contents(d, disk, ts)
  {
    var n := BytesToSectors(d.length);
    AllIndexWithin(ts);
    MappedFrame(d, ts, n, disk, used, fm, disk', used');
    forall i | 0 <= i < n
      ensures SectorOrZeros(disk', DataAt(ts, i)) == SectorOrZeros(disk, DataAt(ts, i))
    {
      DataAmong(d, ts, n, disk, used, fm, i);
    }
    RawFrame(disk, disk', ts, n);
  }

  /** Replacing (or adding) file F, in a step that touches only its own sectors, free ones and those of the
      free map's file, leaves every other file alone. */
  lemma UpdateFile(inodes: map<nat, InodeDisk>, trees: map<nat, seq<Tree>>, disk: Disk, used: seq<bool>, fm: set<nat>,
                   f: nat, mine: set<nat>, d': InodeDisk, ts': seq<Tree>, disk': Disk, used': seq<bool>)
    requires AllOk(inodes, trees, disk, used, fm) && |disk| == |disk'| && OnlyMarks(used, used')
    requires if f in inodes then mine == AllSectors(trees[f]) else mine == {}
    requires forall r :: r in inodes ==> f !in AllSectors(trees[r])
    requires Frame(disk, used, disk', mine + {f}, fm)
    requires FileOk(f, d', ts', disk', used', fm) && f !in AllSectors(ts') && f < |used| && used[f]
    requires forall s :: s in AllSectors(ts') && s !in mine ==> s < |used| && !used[s]
    ensures AllOk(inodes[f := d'], trees[f := ts'], disk', used', fm)
    ensures forall r :: r in inodes && r != f ==>
      Contents(inodes[r], disk', trees[r]) == Contents(inodes[r], disk, trees[r])
  {
    hide FileOk, AllSectors, Contents;
    FileSectors(f, d', ts', disk', used', fm);
    forall r | r in inodes && r != f
      ensures FileOk(r, inodes[r], trees[r], disk', used', fm)
      ensures |trees[r]| == ROOTS && inodes[r].length >= 0
      ensures Contents(inodes[r], disk', trees[r]) == Contents(inodes[r], disk, trees[r])
      ensures AllSectors(trees[r]) !! AllSectors(ts') && r !in AllSectors(ts')
    {
      FileSectors(r, inodes[r], trees[r], disk, used, fm);
      FileFrame(r, inodes[r], trees[r], disk, used, fm, disk', used');
    }
  }

  lemma FileSectors(s: nat, d: InodeDisk, ts: seq<Tree>, disk: Disk, used: seq<bool>, fm: set<nat>)
    requires FileOk(s, d, ts, disk, used, fm)
    ensures |ts| == ROOTS && d.length >= 0 && |used| <= |disk| && 1 <= s < |used| && used[s] && s !in fm
    ensures forall x :: x in AllSectors(ts) ==> 2 <= x < |used| && used[x] && x !in fm
  {
    MappedUsable(d, ts, BytesToSectors(d.length), disk, used, fm);
  }

  /** Removing file F releases its sectors and leaves every other file alone. */
  lemma RemoveFile(inodes: map<nat, InodeDisk>, trees: map<nat, seq<Tree>>, disk: Disk, used: seq<bool>, fm: set<nat>,
                   f: nat, disk': Disk, used': seq<bool>)
    requires AllOk(inodes, trees, disk, used, fm) && f in inodes
    requires Deallocate.SameBut(disk, disk', fm) && Deallocate.Released(used, used', AllSectors(trees[f]) + {f})
    ensures AllOk(inodes - {f}, trees - {f}, disk', used', fm)
    ensures forall r :: r in inodes && r != f ==>
      Contents(inodes[r], disk', trees[r]) == Contents(inodes[r], disk, trees[r])
  {
    hide FileOk, AllSectors, Contents;
    forall r | r in inodes && r != f
      ensures FileOk(r, inodes[r], trees[r], disk', used', fm)
      ensures |trees[r]| == ROOTS && inodes[r].length >= 0
      ensures Contents(inodes[r], disk', trees[r]) == Contents(inodes[r], disk, trees[r])
    {
      FileSectors(r, inodes[r], trees[r], disk, used, fm);
      FileFrame(r, inodes[r], trees[r], disk, used, fm, disk', used');
    }
  }

  // ---- growth of one file ---------------------------------------------------------------

  /** Old blocks stay in place, new ones were free and are zero. */
  lemma BlocksGrew(d: InodeDisk, ts: seq<Tree>, m: nat, disk: Disk, used: seq<bool>, d': InodeDisk, ts': seq<Tree>,
                   n: nat,
                   disk': Disk, used': seq<bool>, fm: set<nat>, i: nat)
    requires Mapped(d, ts, m, disk, used, fm) && m <= n && i < n && n <= MAX_SECTORS
    requires Growing(d', ts, m, n, disk, used, ts', 125, disk', used', fm)
    ensures |ts| == |ts'| == ROOTS
    ensures i < m ==> DataAt(ts', i) == DataAt(ts, i)
    ensures i < m ==> SectorOrZeros(disk', DataAt(ts', i)) == SectorOrZeros(disk, DataAt(ts, i))
    ensures i >= m ==> SectorOrZeros(disk', DataAt(ts', i)) == ZERO_SECTOR
  {
    hide LeafAt, Good, Points;
    var j := RootOf(i);
    assert KeepsLeaves(ts[j], RootCounts(m, n, 0)[j], ts'[j], RootCounts(m, n, 125)[j], RootLevels()[j], disk');
    assert RootCounts(m, n, 0)[j] == RootCount(m, j) && RootCounts(m, n, 125)[j] == RootCount(n, j);
    assert RootLevels()[j] == RootLevel(j);
    assert i < m <==> i - RootBase(i) < RootCount(m, j);
    assert i - RootBase(i) < RootCount(n, j);
    if i < m {
      DataAmong(d, ts, m, disk, used, fm, i);
    }
  }

  /** What a successful inode_reserve leaves: every block is mapped to a marked sector above the reserved ones, no two
      to the same; old blocks are where they were; each new block lies in a sector that was free and now reads as
      zeros. */
  lemma ReservedBlocks(d: InodeDisk, ts: seq<Tree>, m: nat, disk: Disk, used: seq<bool>, d': InodeDisk, ts': seq<Tree>,
                       n: nat,
                       disk': Disk, used': seq<bool>, fm: set<nat>, i: nat, j: nat)
    requires Mapped(d, ts, m, disk, used, fm) && m <= n && n <= MAX_SECTORS
    requires Growing(d', ts, m, n, disk, used, ts', 125, disk', used', fm) && Mapped(d', ts', n, disk', used', fm)
    requires i < n && j < n
    ensures |ts| == |ts'| == ROOTS && 2 <= DataAt(ts', i) < |used'| == |used| && used'[DataAt(ts', i)]
    ensures DataAt(ts', i) !in fm
    ensures i != j ==> DataAt(ts', i) != DataAt(ts', j)
    ensures i < m ==> DataAt(ts', i) == DataAt(ts, i)
    ensures i >= m ==> !used[DataAt(ts', i)] && DataAt(ts', i) < |disk'| && disk'[DataAt(ts', i)] == ZERO_SECTOR
  {
    hide LeafAt, Good, Points;
    BlocksGrew(d, ts, m, disk, used, d', ts', n, disk', used', fm, i);
    DataInside(d', ts', n, disk', used', fm, i);
    if i < j {
      DataDistinct(d', ts', n, disk', used', fm, i, j);
    } else if j < i {
      DataDistinct(d', ts', n, disk', used', fm, j, i);
    }
    if i >= m {
      var r := RootOf(i);
      assert KeepsLeaves(ts[r], RootCounts(m, n, 0)[r], ts'[r], RootCounts(m, n, 125)[r], RootLevels()[r], disk');
      assert RootCounts(m, n, 0)[r] == RootCount(m, r) && RootCounts(m, n, 125)[r] == RootCount(n, r);
      assert RootLevels()[r] == RootLevel(r);
      assert RootCount(m, r) <= i - RootBase(i) < RootCount(n, r);
    }
  }

  lemma RawGrew(d: InodeDisk, ts: seq<Tree>, m: nat, disk: Disk, used: seq<bool>, d': InodeDisk, ts': seq<Tree>, n: nat,
                disk': Disk, used': seq<bool>, fm: set<nat>)
    requires Mapped(d, ts, m, disk, used, fm) && m <= n <= MAX_SECTORS
    requires Growing(d', ts, m, n, disk, used, ts', 125, disk', used', fm)
    ensures |ts| == |ts'| == ROOTS && Raw(disk', ts', n) == Raw(disk, ts, m) + Zeros(512 * n - 512 * m)
  {
    hide Mapped, Growing, SectorOrZeros, DataAt;
    GrowingTail(d', ts, m, n, disk, used, ts', 125, disk', used', fm);
    var a, b := Raw(disk', ts', n), Raw(disk, ts, m) + Zeros(512 * n - 512 * m);
    forall p | 0 <= p < 512 * n
      ensures a[p] == b[p]
    {
      BlocksGrew(d, ts, m, disk, used, d', ts', n, disk', used', fm, p / 512);
    }
  }

  /** The sectors a growing file gains were free. */
  lemma SectorsGrew(d: InodeDisk, ts: seq<Tree>, m: nat, disk: Disk, used: seq<bool>, ts': seq<Tree>, n: nat,
                    disk': Disk, used': seq<bool>, fm: set<nat>)
    requires Growing(d, ts, m, n, disk, used, ts', 125, disk', used', fm)
    ensures AllSectors(ts) <= AllSectors(ts') && |used| == |used'| && OnlyMarks(used, used')
    ensures forall s :: 0 <= s < |used| ==> (used'[s] <==> used[s] || s in AllSectors(ts'))
    ensures forall s :: s in AllSectors(ts') && s !in AllSectors(ts) ==> s < |used| && !used[s]
    ensures Frame(disk, used, disk', AllIndexSectors(ts), fm)
  {
    forall s | s in AllSectors(ts) ensures s in AllSectors(ts') {
      var j :| 0 <= j < |ts| && s in Sectors(ts[j]);
      assert s in Sectors(ts'[j]);
    }
    forall s | s in AllSectors(ts') && s !in AllSectors(ts) ensures s < |used| && !used[s] {
      var j :| 0 <= j < |ts'| && s in Sectors(ts'[j]);
      assert s !in Sectors(ts[j]);
      assert Good(ts'[j], RootLevels()[j], RootCounts(m, n, 125)[j], disk', used', fm);
    }
  }

  /** BYTES followed by zeros up to length N. */
  function Padded(bytes: seq<Byte>, n: int): seq<Byte> {
    if |bytes| < n then bytes + Zeros(n - |bytes|) else bytes
  }

  lemma PaddedAt(bytes: seq<Byte>, n: int, i: nat)
    requires i < |Padded(bytes, n)|
    ensures |Padded(bytes, n)| == if |bytes| < n then n else |bytes|
    ensures Padded(bytes, n)[i] == if i < |bytes| then bytes[i] else 0
  {
  }

  /** BYTES with BUFFER written at OFFSET; a gap after the old end is filled with zeros. */
  function Written(bytes: seq<Byte>, offset: nat, buffer: seq<Byte>): (r: seq<Byte>)
    ensures |r| == if |bytes| < offset + |buffer| then offset + |buffer| else |bytes|
    ensures forall i :: 0 <= i < |r| ==>
      r[i] == if offset <= i < offset + |buffer| then buffer[i - offset] else if i < |bytes| then bytes[i] else 0
  {
    Patched(Padded(bytes, offset + |buffer|), offset, buffer)
  }

  /** A file whose blocks have been reserved up to NEWLEN and whose inode is written back: the file is the
      old one followed by zeros. */
  lemma Extended(f: nat, d: InodeDisk, ts: seq<Tree>, disk: Disk, used: seq<bool>, d1: InodeDisk, ts1: seq<Tree>,
                 newlen: nat,
                 disk1: Disk, used1: seq<bool>, fm: set<nat>)
    requires FileOk(f, d, ts, disk, used, fm) && f !in AllSectors(ts)
    requires d.length <= newlen < 0x8000_0000 && BytesToSectors(newlen) <= MAX_SECTORS
    requires Growing(d1, ts, BytesToSectors(d.length), BytesToSectors(newlen), disk, used, ts1, 125, disk1, used1, fm)
    requires Mapped(d1, ts1, BytesToSectors(newlen), disk1, used1, fm)
    ensures var d2 := d1.(length := newlen);
            && Encodable(d2) && f < |disk1| && |ts| == |ts1| == ROOTS
            && FileOk(f, d2, ts1, disk1[f := EncodeInode(d2)], used1, fm) && f !in AllSectors(ts1)
            && Contents(d2, disk1[f := EncodeInode(d2)], ts1) == Contents(d, disk, ts) + Zeros(newlen - d.length)
            && Frame(disk, used, disk1[f := EncodeInode(d2)], AllSectors(ts) + {f}, fm)
  {
    hide Growing, Mapped, AllSectors, AllIndexSectors, Raw, EncodeInode;
    var m, n := BytesToSectors(d.length), BytesToSectors(newlen);
    var d2 := d1.(length := newlen);
    FileSectors(f, d, ts, disk, used, fm);
    MappedUsable(d1, ts1, n, disk1, used1, fm);
    SectorsGrew(d1, ts, m, disk, used, ts1, n, disk1, used1, fm);
    assert f !in AllSectors(ts1);
    RawGrew(d, ts, m, disk, used, d1, ts1, n, disk1, used1, fm);
    InodeWritten(f, d1, ts1, n, disk1, used1, fm, newlen);
    var disk2 := disk1[f := EncodeInode(d2)];
    ExtendedBytes(d, disk, ts, d2, disk2, ts1);
    AllIndexWithin(ts);
  }

  lemma InodeWritten(f: nat, d1: InodeDisk, ts1: seq<Tree>, n: nat, disk1: Disk, used1: seq<bool>, fm: set<nat>,
                     newlen: nat)
    requires Mapped(d1, ts1, n, disk1, used1, fm) && f < |disk1| && f !in AllSectors(ts1) && newlen < 0x8000_0000
    ensures var d2 := d1.(length := newlen);
            && Encodable(d2) && |ts1| == ROOTS
            && Mapped(d2, ts1, n, disk1[f := EncodeInode(d2)], used1, fm)
            && Raw(disk1[f := EncodeInode(d2)], ts1, n) == Raw(disk1, ts1, n)
  {
    var d2 := d1.(length := newlen);
    var disk2 := disk1[f := EncodeInode(d2)];
    AllIndexWithin(ts1);
    MappedFrame(d1, ts1, n, disk1, used1, fm, disk2, used1);
    forall i | 0 <= i < n
      ensures SectorOrZeros(disk2, DataAt(ts1, i)) == SectorOrZeros(disk1, DataAt(ts1, i))
    {
      DataAmong(d1, ts1, n, disk1, used1, fm, i);
    }
    RawFrame(disk1, disk2, ts1, n);
  }

  lemma ExtendedBytes(d: InodeDisk, disk: Disk, ts: seq<Tree>, d2: InodeDisk, disk2: Disk, ts1: seq<Tree>)
    requires |ts| == |ts1| == ROOTS && 0 <= d.length <= d2.length && SlackZero(d, disk, ts)
    requires Raw(disk2, ts1, BytesToSectors(d2.length))
          == Raw(disk, ts, BytesToSectors(d.length))
             + Zeros(512 * BytesToSectors(d2.length) - 512 * BytesToSectors(d.length))
    ensures SlackZero(d2, disk2, ts1) && Contents(d2, disk2, ts1) == Contents(d, disk, ts) + Zeros(d2.length - d.length)
  {
  }

  /** A file whose bytes from OFFSET on have been overwritten in place. */
  lemma Overwritten(f: nat, d: InodeDisk, ts: seq<Tree>, disk: Disk, used: seq<bool>, fm: set<nat>, offset: nat,
                    buffer: seq<Byte>, disk': Disk)
    requires FileOk(f, d, ts, disk, used, fm) && f !in AllSectors(ts) && offset + |buffer| <= d.length
    requires |disk| == |disk'|
    requires Mapped(d, ts, BytesToSectors(d.length), disk', used, fm)
    requires Raw(disk', ts, BytesToSectors(d.length)) == Patched(Raw(disk, ts, BytesToSectors(d.length)), offset,
                 buffer)
    requires forall s :: 0 <= s < |disk| && s !in AllSectors(ts) ==> disk'[s] == disk[s]
    ensures FileOk(f, d, ts, disk', used, fm)
    ensures Contents(d, disk', ts) == Patched(Contents(d, disk, ts), offset, buffer)
    ensures Frame(disk, used, disk', AllSectors(ts) + {f}, fm) && OnlyMarks(used, used)
  {
    hide Mapped, AllSectors, Raw;
    FileSectors(f, d, ts, disk, used, fm);
  }

  // ---- new files ---------------------------------------------------------------------------

  function EmptyInode(isDir: bool, length: int): InodeDisk {
    InodeDisk(seq(DIRECT, _ => 0), 0, 0, isDir, length)
  }

  ghost function NoTrees(): seq<Tree> {
    seq(ROOTS, _ => Hole)
  }

  lemma EmptyMapped(isDir: bool, length: int, disk: Disk, used: seq<bool>, fm: set<nat>)
    requires |used| <= |disk|
    ensures Mapped(EmptyInode(isDir, length), NoTrees(), 0, disk, used, fm)
    ensures AllSectors(NoTrees()) == {} && AllIndexSectors(NoTrees()) == {}
  {
    forall j | 0 <= j < ROOTS
      ensures Good(NoTrees()[j], RootLevels()[j], RootCounts(0, 0, 0)[j], disk, used, fm)
    {
      assert RootCounts(0, 0, 0)[j] == RootCount(0, j) == 0;
    }
  }

  /** A new file of LENGTH zero bytes. */
  lemma Created(f: nat, d0: InodeDisk, disk: Disk, used: seq<bool>, d1: InodeDisk, ts1: seq<Tree>, length: nat,
                disk1: Disk, used1: seq<bool>, fm: set<nat>)
    requires Mapped(d0, NoTrees(), 0, disk, used, fm) && f < |used| && used[f] && f !in fm && |used| <= |disk|
    requires length < 0x8000_0000 && BytesToSectors(length) <= MAX_SECTORS && d1.length == length
    requires Growing(d1, NoTrees(), 0, BytesToSectors(length), disk, used, ts1, 125, disk1, used1, fm)
    requires Mapped(d1, ts1, BytesToSectors(length), disk1, used1, fm)
    ensures Encodable(d1) && f < |disk1| && |ts1| == ROOTS && f !in AllSectors(ts1)
    ensures Mapped(d1, ts1, BytesToSectors(length), disk1[f := EncodeInode(d1)], used1, fm)
    ensures SlackZero(d1, disk1[f := EncodeInode(d1)], ts1)
    ensures Contents(d1, disk1[f := EncodeInode(d1)], ts1) == Zeros(length)
    ensures Frame(disk, used, disk1[f := EncodeInode(d1)], {f}, fm) && OnlyMarks(used, used1)
    ensures forall s :: s in AllSectors(ts1) ==> s < |used| && !used[s]
    ensures forall s :: 0 <= s < |used| ==> (used1[s] <==> used[s] || s in AllSectors(ts1))
  {
    hide Growing, Mapped, AllSectors, AllIndexSectors, EncodeInode, DataAt;
    EmptyMapped(false, 0, disk, used, fm);
    var n := BytesToSectors(length);
    SectorsGrew(d1, NoTrees(), 0, disk, used, ts1, n, disk1, used1, fm);
    RawGrew(d0, NoTrees(), 0, disk, used, d1, ts1, n, disk1, used1, fm);
    InodeWritten(f, d1, ts1, n, disk1, used1, fm, length);
    assert d1.(length := length) == d1;
  }

  /** A failed extension of file F leaves every other file alone. */
  lemma OthersSurvive(inodes: map<nat, InodeDisk>, trees: map<nat, seq<Tree>>, disk: Disk, used: seq<bool>,
                      fm: set<nat>,
                      index: set<nat>, disk': Disk, used': seq<bool>, r: nat)
    requires AllOk(inodes, trees, disk, used, fm) && r in inodes
    requires Spoiled(disk, used, disk', used', index, fm) && index !! AllSectors(trees[r]) && r !in index
    ensures |trees[r]| == ROOTS && inodes[r].length >= 0
    ensures FileOk(r, inodes[r], trees[r], disk', used', fm)
    ensures Contents(inodes[r], disk', trees[r]) == Contents(inodes[r], disk, trees[r])
  {
    hide FileOk, AllSectors, Contents;
    FileSectors(r, inodes[r], trees[r], disk, used, fm);
    FileFrame(r, inodes[r], trees[r], disk, used, fm, disk', used');
  }

  /** The files other than F, with what they hold, are the same as before. */
  ghost predicate Kept(inodes: map<nat, InodeDisk>, trees: map<nat, seq<Tree>>, disk: Disk, used: seq<bool>,
                       fm: set<nat>,
                       f: nat, disk': Disk, used': seq<bool>)
  {
    && AllOk(inodes - {f}, trees - {f}, disk', used', fm) && inodes.Keys == trees.Keys
    && forall r :: r in inodes && r != f ==>
         && |trees[r]| == ROOTS && inodes[r].length >= 0
         && Contents(inodes[r], disk', trees[r]) == Contents(inodes[r], disk, trees[r])
  }

  lemma FailureKeepsOthers(inodes: map<nat, InodeDisk>, trees: map<nat, seq<Tree>>, disk: Disk, used: seq<bool>,
                           fm: set<nat>,
                           f: nat, index: set<nat>, disk': Disk, used': seq<bool>)
    requires AllOk(inodes, trees, disk, used, fm)
    requires Spoiled(disk, used, disk', used', index, fm)
    requires if f in inodes then index == AllIndexSectors(trees[f]) else index == {}
    ensures Kept(inodes, trees, disk, used, fm, f, disk', used')
  {
    hide FileOk, AllSectors, AllIndexSectors, Contents;
    if f in inodes {
      AllIndexWithin(trees[f]);
    }
    forall r | r in inodes && r != f
      ensures |trees[r]| == ROOTS && inodes[r].length >= 0
      ensures FileOk(r, inodes[r], trees[r], disk', used', fm)
      ensures Contents(inodes[r], disk', trees[r]) == Contents(inodes[r], disk, trees[r])
    {
      OthersSurvive(inodes, trees, disk, used, fm, index, disk', used', r);
    }
  }

  /** Inode D, with its index on DISK, delivers BYTES when it is read; the index may hold surplus blocks. */
  ghost predicate Reads(d: InodeDisk, ts: seq<Tree>, disk: Disk, bytes: seq<Byte>) {
    && |ts| == ROOTS && d.length >= 0 && Located(d, ts, BytesToSectors(d.length), disk)
    && Contents(d, disk, ts) == bytes
  }

  lemma FileReads(s: nat, d: InodeDisk, ts: seq<Tree>, disk: Disk, used: seq<bool>, fm: set<nat>)
    requires FileOk(s, d, ts, disk, used, fm)
    ensures Reads(d, ts, disk, Contents(d, disk, ts))
  {
    MappedLocated(d, ts, BytesToSectors(d.length), disk, used, fm);
  }

  /** A file that could not be extended reads as before. */
  lemma StillReads(s: nat, d: InodeDisk, ts: seq<Tree>, disk: Disk, used: seq<bool>, fm: set<nat>, d': InodeDisk,
                   disk': Disk, used': seq<bool>)
    requires FileOk(s, d, ts, disk, used, fm) && Spoiled(disk, used, disk', used', AllIndexSectors(ts), fm)
    requires d'.length == d.length && Located(d', ts, BytesToSectors(d.length), disk')
    ensures Reads(d', ts, disk', Contents(d, disk, ts))
  {
    var n := BytesToSectors(d.length);
    forall i | 0 <= i < n
      ensures SectorOrZeros(disk', DataAt(ts, i)) == SectorOrZeros(disk, DataAt(ts, i))
    {
      DataAmong(d, ts, n, disk, used, fm, i);
    }
    RawFrame(disk, disk', ts, n);
  }

  /** Steps that change no sector of any file keep all files. */
  lemma NoFileTouched(inodes: map<nat, InodeDisk>, trees: map<nat, seq<Tree>>, disk: Disk, used: seq<bool>,
                      fm: set<nat>, disk': Disk, used': seq<bool>)
    requires AllOk(inodes, trees, disk, used, fm) && |disk| == |disk'| && OnlyMarks(used, used')
    requires forall s :: 0 <= s < |disk| && s !in fm ==> disk'[s] == disk[s]
    ensures AllOk(inodes, trees, disk', used', fm)
    ensures forall r :: r in inodes ==> Contents(inodes[r], disk', trees[r]) == Contents(inodes[r], disk, trees[r])
  {
    hide FileOk, AllSectors, Contents;
    forall r | r in inodes
      ensures FileOk(r, inodes[r], trees[r], disk', used', fm)
      ensures Contents(inodes[r], disk', trees[r]) == Contents(inodes[r], disk, trees[r])
    {
      FileSectors(r, inodes[r], trees[r], disk, used, fm);
      FileFrame(r, inodes[r], trees[r], disk, used, fm, disk', used');
    }
  }

  /** A sector that was free belongs to no file. */
  lemma FreeIsNobodys(inodes: map<nat, InodeDisk>, trees: map<nat, seq<Tree>>, disk: Disk, used: seq<bool>,
                      fm: set<nat>, s: nat)
    requires AllOk(inodes, trees, disk, used, fm) && s < |used| && !used[s]
    ensures s !in inodes && forall r :: r in inodes ==> s !in AllSectors(trees[r])
  {
    hide FileOk, AllSectors;
    forall r | r in inodes
      ensures s != r && s !in AllSectors(trees[r])
    {
      FileSectors(r, inodes[r], trees[r], disk, used, fm);
    }
  }

  /** Setting the length of a file that has blocks to 0 breaks it, whatever trees one looks for. */
  lemma Truncated(f: nat, d: InodeDisk, ts: seq<Tree>, disk: Disk, used: seq<bool>, fm: set<nat>, ts': seq<Tree>,
                  disk': Disk, used': seq<bool>)
    requires FileOk(f, d, ts, disk, used, fm) && d.length > 0
    ensures !FileOk(f, d.(length := 0), ts', disk', used', fm)
  {
    FirstBlock(d, ts, BytesToSectors(d.length), disk, used, fm);
    if Mapped(d.(length := 0), ts', 0, disk', used', fm) {
      FirstBlock(d.(length := 0), ts', 0, disk', used', fm);
    }
  }

  /** The first direct pointer is 0 exactly in a file without blocks. */
  lemma FirstBlock(d: InodeDisk, ts: seq<Tree>, n: nat, disk: Disk, used: seq<bool>, fm: set<nat>)
    requires Mapped(d, ts, n, disk, used, fm)
    ensures |d.direct| == DIRECT && (d.direct[0] == 0 <==> n == 0)
  {
    RootGood(d, ts, n, disk, used, fm, 0);
    LevelZero(ts[0], RootCount(n, 0), disk, used, fm);
  }
}
