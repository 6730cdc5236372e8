/** Files over the whole stack: every operation on an inode acts as on a map from inode numbers to byte
    sequences. */
module FileSystem {
  import opened Layout
  import opened Bitmap
  import opened BlockTree
  import opened Growth
  import opened FileMap
  import opened Reserve
  import opened FileStore
  import opened Lookup
  import BufferCache
  import Deallocate
  import FreeMap

  /** inode_create: a zero-filled file of LENGTH bytes whose inode is written to SECTOR. */
  method CreateInode(fm: FreeMap.Allocator, sector: nat, length: int, isDir: bool)
    returns (ok: bool, d: InodeDisk, ghost ts: seq<Tree>)
    requires fm.Valid() && fm.CanWrite() && sector < |fm.Used()| && fm.Used()[sector] && sector !in fm.Own()
    requires length < 0x8000_0000
    modifies fm.bits.words, fm.cache, fm.cache.slots
    ensures fm.Valid() && |fm.cache.view| == |old(fm.cache.view)|
    ensures ok == (&& length >= 0 && BytesToSectors(length) <= MAX_SECTORS
                   && FileCost(BytesToSectors(length)) <= old(fm.Free()))
    ensures ok ==> fm.Free() == old(fm.Free()) - FileCost(BytesToSectors(length))
    ensures ok ==> d.length == length && d.isDir == isDir && Encodable(d) && |ts| == ROOTS && sector !in AllSectors(ts)
    ensures ok ==> Mapped(d, ts, BytesToSectors(length), fm.cache.view, fm.Used(), fm.Own())
    ensures ok ==> SlackZero(d, fm.cache.view, ts) && FileMap.Contents(d, fm.cache.view, ts) == Zeros(length)
    ensures ok ==> fm.cache.view[sector] == EncodeInode(d)
    ensures ok ==>
      && Frame(old(fm.cache.view), old(fm.Used()), fm.cache.view, {sector}, fm.Own())
      && OnlyMarks(old(fm.Used()), fm.Used())
    ensures ok ==> forall s :: s in AllSectors(ts) ==> s < |old(fm.Used())| && !old(fm.Used())[s]
    ensures ok ==>
      forall s :: 0 <= s < |old(fm.Used())| ==> (fm.Used()[s] <==> old(fm.Used())[s] || s in AllSectors(ts))
    ensures LowestFirst(old(fm.Used()), fm.Used()) && OnlyMarks(old(fm.Used()), fm.Used())
    ensures !ok ==> Spoiled(old(fm.cache.view), old(fm.Used()), fm.cache.view, fm.Used(), {}, fm.Own())
    ensures !ok ==> SectorZero(old(fm.cache.view), fm.cache.view,
                               length >= 0 && FileLost(0, Min(BytesToSectors(length), 16635), old(fm.Free())))
    ensures !ok ==> fm.Free() == FreeAfterRefusal(0, length, old(fm.Free()))
    ensures !ok ==> (fm.Used() == old(fm.Used()) <==> length < 0 || old(fm.Free()) == 0)
  {
    hide *;
    ghost var disk, used := fm.cache.view, fm.Used();
    fm.Sizes();
    d := EmptyInode(isDir, length);
    EmptyIs(isDir, length);
    EmptyMapped(isDir, length, disk, used, fm.Own());
    ok, d, ts := Reserve.Reserve(fm, d, length, NoTrees(), 0);
    if ok {
      Created(sector, EmptyInode(isDir, length), disk, used, d, ts, length, fm.cache.view, fm.Used(), fm.Own());
      fm.Store(sector, EncodeInode(d));
    }
  }

  lemma EmptyIs(isDir: bool, length: int)
    ensures EmptyInode(isDir, length).isDir == isDir && EmptyInode(isDir, length).length == length && FileCost(0) == 0
  {
  }

  lemma RunsOutFromNothing(length: int, free: nat)
    ensures RunsOutAtIndexBlock(0, length, free) <==> length >= 0 && FileLost(0, Min(BytesToSectors(length), 16635),
                                free)
  {
    assert BytesToSectors(0) == 0;
  }

  lemma FileIs(s: nat, d: InodeDisk, ts: seq<Tree>, disk: Disk, used: seq<bool>, fm: set<nat>)
    requires FileOk(s, d, ts, disk, used, fm)
    ensures |ts| == ROOTS && 0 <= d.length < 0x8000_0000 && s < |used| && used[s] && s !in fm && |d.direct| == 123
    ensures Mapped(d, ts, BytesToSectors(d.length), disk, used, fm) && BytesToSectors(d.length) <= MAX_SECTORS
    ensures |FileMap.Contents(d, disk, ts)| == d.length
  {
  }

  lemma ReadsIs(d: InodeDisk, ts: seq<Tree>, disk: Disk, bytes: seq<Byte>)
    requires Reads(d, ts, disk, bytes)
    ensures |ts| == ROOTS && d.length >= 0 && Located(d, ts, BytesToSectors(d.length), disk)
    ensures FileMap.Contents(d, disk, ts) == bytes
  {
  }

  lemma NoFiles(disk: Disk, used: seq<bool>, fm: set<nat>)
    ensures AllOk(map[], map[], disk, used, fm)
  {
  }

  lemma NothingClaimed()
    ensures forall used, fm :: (forall s :: 0 <= s < |used| ==> (used[s] <==> s < 2 || s in fm)) ==>
      Accounted(used, map[], fm)
  {
  }

  /** The open files INODES are some of the files DS, with the same trees. */
  ghost predicate PartOf(inodes: map<nat, InodeDisk>, trees: map<nat, seq<Tree>>, ds: map<nat, InodeDisk>,
                         tts: map<nat, seq<Tree>>) {
    forall g :: g in inodes ==> g in ds && g in tts && g in trees && inodes[g] == ds[g] && trees[g] == tts[g]
  }

  lemma PartIs(inodes: map<nat, InodeDisk>, trees: map<nat, seq<Tree>>, ds: map<nat, InodeDisk>,
               tts: map<nat, seq<Tree>>)
    requires PartOf(inodes, trees, ds, tts)
    ensures forall g :: g in inodes ==> g in ds && g in tts && g in trees && inodes[g] == ds[g] && trees[g] == tts[g]
    ensures forall g :: g in inodes && g in ds ==> inodes[g := ds[g]] == inodes
  {
  }

  lemma PartNone(inodes: map<nat, InodeDisk>, trees: map<nat, seq<Tree>>, ds: map<nat, InodeDisk>,
                 tts: map<nat, seq<Tree>>)
    requires inodes == map[]
    ensures PartOf(inodes, trees, ds, tts)
  {
  }

  lemma PartOk(inodes: map<nat, InodeDisk>, trees: map<nat, seq<Tree>>, ds: map<nat, InodeDisk>,
               tts: map<nat, seq<Tree>>,
               disk: Disk, used: seq<bool>, fm: set<nat>)
    requires PartOf(inodes, trees, ds, tts) && inodes.Keys == trees.Keys && AllOk(ds, tts, disk, used, fm)
    ensures AllOk(inodes, trees, disk, used, fm)
  {
    hide FileOk, AllSectors;
  }

  lemma PartAdd(inodes: map<nat, InodeDisk>, trees: map<nat, seq<Tree>>, ds: map<nat, InodeDisk>,
                tts: map<nat, seq<Tree>>, f: nat,
                disk: Disk, used: seq<bool>, fm: set<nat>)
    requires PartOf(inodes, trees, ds, tts) && inodes.Keys == trees.Keys && AllOk(ds, tts, disk, used, fm) && f in ds
    requires f in tts
    ensures AllOk(inodes[f := ds[f]], trees[f := tts[f]], disk, used, fm)
    ensures PartOf(inodes[f := ds[f]], trees[f := tts[f]], ds, tts)
  {
    hide AllOk;
    PartOk(inodes[f := ds[f]], trees[f := tts[f]], ds, tts, disk, used, fm);
  }

  lemma PartAll(inodes: map<nat, InodeDisk>, trees: map<nat, seq<Tree>>, ds: map<nat, InodeDisk>,
                tts: map<nat, seq<Tree>>, sectors: seq<nat>,
                disk: Disk, used: seq<bool>, fm: set<nat>)
    requires PartOf(inodes, trees, ds, tts) && inodes.Keys == trees.Keys && AllOk(ds, tts, disk, used, fm)
    requires (forall f :: f in ds ==> f in sectors) && forall m :: 0 <= m < |sectors| ==> sectors[m] in inodes
    ensures inodes == ds && trees == tts
  {
    hide FileOk, AllSectors;
    forall f | f in ds ensures f in inodes {
      var m :| 0 <= m < |sectors| && sectors[m] == f;
    }
  }

  /** filesys_init on the device that file system WAS has left behind, and opening its files: all is as it was. */
  method Remount(device: Disk, sectors: seq<nat>, ghost was: FileSystem) returns (fs: FileSystem)
    requires was.Valid() && device == was.fm.cache.view && |device| - 1 == was.fm.bits.bitCnt
    requires forall f :: f in sectors <==> f in was.inodes
    ensures was.Valid() && fs.Valid() && fs.Files() == was.Files() && fs.fm.Used() == was.fm.Used()
    ensures fs.denyWrite == map[] && fs.inodes == was.inodes
  {
    hide *;
    ghost var files, ds, tts := was.Files(), was.inodes, was.trees;
    was.Unfold();
    fs := new FileSystem.Mount(device, was);
    fs.OpenAll(sectors, ds, tts);
    fs.Unfold();
  }

  /** A write that is refused and zeroes sector 0: the file has 123 full sectors, no sector is free, and one byte is
      to be appended. */
  method RefusedWriteZeroesSectorZero(device: Disk, b: Byte) returns (fs: FileSystem, written: int)
    requires |device| == 128
    ensures written == 0 && !fs.MapInodeIntact()
  {
    hide *;
    WitnessSizes();
    fs := new FileSystem.Format(device);
    fs.StateIs();
    var ok, f := fs.NewFile(123 * 512, false);
    fs.StateIs();
    fs.LengthIs(f);
    fs.DeniedIs(f);
    FitsIs(123 * 512, 123 * 512 + 1, 0);
    CanHoldIs(123 * 512, 123 * 512 + 1, 0);
    ghost var files, used := fs.Files(), fs.fm.Used();
    written := fs.WriteAt(f, [b], 123 * 512);
    fs.AfterRefusalIs(f, 123 * 512 + 1, files, used, 0);
    RunsOutHere();
  }

  /** A creation that is refused and keeps the sectors it has taken: 100 blocks are asked for and 60 sectors are free;
      afterwards there is no file, and one sector is free. */
  method RefusedCreationKeepsSectors(device: Disk) returns (fs: FileSystem)
    requires |device| == 64
    ensures fs.Valid() && fs.Files() == map[] && fs.fm.Free() == 1 && !fs.NoLeaks()
  {
    hide *;
    WitnessSizes();
    fs := new FileSystem.Format(device);
    fs.StateIs();
    var ok, f := fs.NewFile(100 * 512, false);
    NotAtIndexBlock();
    fs.StateIs();
  }

  /** A write of nothing that breaks a file: the file has one byte. */
  method EmptyWriteBreaksFile(device: Disk) returns (fs: FileSystem, f: nat)
    requires |device| == 64
    ensures !fs.Valid()
  {
    hide *;
    WitnessSizes();
    fs := new FileSystem.Format(device);
    fs.StateIs();
    var ok;
    ok, f := fs.NewFile(1, false);
    fs.StateIs();
    fs.LengthIs(f);
    fs.DeniedIs(f);
    var written := fs.WriteAt(f, [], 0);
  }

  lemma WitnessSizes()
    ensures Formattable(128) && Formattable(64)
    ensures FileCost(BytesToSectors(ByteCnt(127))) == 1 == FileCost(BytesToSectors(ByteCnt(63)))
    ensures BytesToSectors(123 * 512) == 123 == FileCost(123) && BytesToSectors(123 * 512 + 1) == 124
    ensures FileCost(124) == 125
    ensures BytesToSectors(100 * 512) == 100 == FileCost(100) && MAX_SECTORS == 16635
    ensures FreeAfterRefusal(0, 100 * 512, 59) == 0 && BytesToSectors(1) == 1 == FileCost(1)
  {
  }

  lemma RunsOutHere()
    ensures RunsOutAtIndexBlock(123 * 512, 123 * 512 + 1, 0)
  {
    assert BytesToSectors(123 * 512) == 123 && BytesToSectors(123 * 512 + 1) == 124;
    assert FileCost(123) == 123 && FileCost(123 + 1) == 125;
  }

  lemma NotAtIndexBlock()
    ensures !RunsOutAtIndexBlock(0, 100 * 512, 59)
  {
    assert BytesToSectors(0) == 0 && BytesToSectors(100 * 512) == 100;
  }

  lemma SameOwn(a: FreeMap.Allocator, b: FreeMap.Allocator)
    requires a.file == b.file && a.ts == b.ts
    ensures a.Own() == b.Own()
  {
  }

  lemma EncodableZero(d: InodeDisk)
    requires |d.direct| == 123
    ensures Encodable(d.(length := 0))
  {
  }

  lemma StoredInode(s: nat, d: InodeDisk, ts: seq<Tree>, disk: Disk, used: seq<bool>, fm: set<nat>)
    requires FileOk(s, d, ts, disk, used, fm)
    ensures Encodable(d) && s < |disk| && disk[s] == EncodeInode(d)
  {
  }

  /** A device that can be formatted: the free map's file fits on it. */
  ghost predicate Formattable(size: nat) {
    4 <= size <= BITMAP_ERROR && BytesToSectors(ByteCnt(size - 1)) <= MAX_SECTORS
  }

  lemma FormattableIs(size: nat)
    requires Formattable(size)
    ensures 4 <= size <= 0xFFFF_FFFF
  {
  }

  lemma FormatFits(size: nat)
    requires Formattable(size)
    ensures FileCost(BytesToSectors(ByteCnt(size - 1))) <= size - 3
    ensures ByteCnt(size - 1) < 0x8000_0000
  {
  }

  /** With only the two reserved sectors in use, all others are free. */
  lemma {:induction false} FreshCount(n: nat)
    ensures Count(seq(n, i => i < 2), false) == if n < 2 then 0 else n - 2
  {
    var b := seq(n, i => i < 2);
    if n > 0 {
      assert b[..n - 1] == seq(n - 1, i => i < 2);
      FreshCount(n - 1);
    }
  }

  /** free_map_create: the free map gets a file of its own, whose inode lies in sector 0. */
  method CreateMapFile(fm: FreeMap.Allocator)
    requires fm.Valid() && fm.file.Closed? && Formattable(|fm.cache.view|) && fm.bits.bitCnt == |fm.cache.view| - 1
    requires fm.Used() == seq(fm.bits.bitCnt, i => i < 2)
    modifies fm, fm.bits.words, fm.cache, fm.cache.slots
    ensures fm.Valid() && fm.file.Open? && fm.file.denyWrite == 0 && Encodable(fm.file.inode)
    ensures fm.cache.view[0] == EncodeInode(fm.file.inode)
    ensures |fm.cache.view| == |old(fm.cache.view)| && !fm.file.inode.isDir
    ensures forall s :: 0 <= s < |fm.Used()| ==> (fm.Used()[s] <==> s < 2 || s in fm.Own())
    ensures fm.Free() == |fm.cache.view| - 3 - FileCost(BytesToSectors(ByteCnt(|fm.cache.view| - 1)))
  {
    hide FreeMap.Allocator.Valid, Mapped, FileMap.Contents, SlackZero, EncodeInode;
    hide FileCost, Count, AllSectors, BytesToSectors, ByteCnt;
    FormatFits(|fm.cache.view|);
    FreshCount(fm.bits.bitCnt);
    fm.Sizes();
    var ok, d;
    ghost var ts;
    ok, d, ts := CreateInode(fm, FreeMap.FREE_MAP_SECTOR, ByteCnt(fm.bits.bitCnt), false);
    var block := fm.Fetch(FreeMap.FREE_MAP_SECTOR);
    InodeRoundTrip(d);
    SetMapFile(fm, DecodeInode(block), ts);
  }

  /** The rest of free_map_create: open the file and write the map to it. */
  method SetMapFile(fm: FreeMap.Allocator, d: InodeDisk, ghost ts: seq<Tree>)
    requires fm.Valid() && fm.file.Closed? && d.length == ByteCnt(fm.bits.bitCnt) && |ts| == ROOTS
    requires Mapped(d, ts, BytesToSectors(d.length), fm.cache.view, fm.Used(), {}) && 0 !in AllSectors(ts)
    modifies fm, fm.cache, fm.cache.slots
    ensures fm.Valid() && fm.file == FreeMap.Open(d, 0) && fm.Used() == old(fm.Used()) && fm.Own() == AllSectors(ts)
    ensures fm.Free() == old(fm.Free())
    ensures |fm.cache.view| == |old(fm.cache.view)| && fm.cache.view[0] == old(fm.cache.view)[0]
  {
    hide Mapped, AllSectors, Count, BytesToSectors, ByteCnt;
    fm.file := FreeMap.Open(d, 0);
    fm.ts := ts;
    var ok := fm.Persist();
  }

  /** Of the inodes only F has changed, or has been added; it is a directory exactly if ISDIR says so. */
  ghost predicate OnlyInode(before: map<nat, InodeDisk>, after: map<nat, InodeDisk>, f: nat, isDir: bool) {
    f in after && after == before[f := after[f]] && after[f].isDir == isDir
  }

  lemma LowestIs(used: seq<bool>, s: nat, used': seq<bool>)
    requires s < |used| && !used[s] && used' == used[s := true] && LowestFirst(used, used')
    ensures forall k :: 0 <= k < s ==> used[k]
  {
    forall k | 0 <= k < s
      ensures used[k]
    {
      assert used'[k] == used[k];
    }
  }

  lemma OnlyNow(before: map<nat, InodeDisk>, f: nat, d: InodeDisk)
    ensures OnlyInode(before, before[f := d], f, d.isDir)
    ensures f in before ==> OnlyInode(before, before, f, before[f].isDir)
  {
  }

  lemma OnlyTwice(before: map<nat, InodeDisk>, mid: map<nat, InodeDisk>, after: map<nat, InodeDisk>, f: nat,
                  isDir: bool)
    requires OnlyInode(before, mid, f, isDir) && OnlyInode(mid, after, f, isDir)
    ensures OnlyInode(before, after, f, isDir)
  {
    assert before[f := mid[f]][f := after[f]] == before[f := after[f]];
  }

  lemma OnlyIs(before: map<nat, InodeDisk>, after: map<nat, InodeDisk>, f: nat, isDir: bool)
    requires OnlyInode(before, after, f, isDir)
    ensures f in after && after == before[f := after[f]] && after[f].isDir == isDir
  {
  }

  /** Only sector F of the device has changed: it holds inode D. */
  ghost predicate OneWritten(disk: Disk, disk': Disk, f: nat, d: InodeDisk) {
    f < |disk| && Encodable(d) && disk' == disk[f := EncodeInode(d)]
  }

  lemma OneNow(disk: Disk, f: nat, d: InodeDisk)
    requires f < |disk| && Encodable(d)
    ensures OneWritten(disk, disk[f := EncodeInode(d)], f, d)
  {
  }

  /** Inode D' is what a refused extension to NEWLEN bytes makes of D in memory. */
  ghost predicate RefusedInode(d: InodeDisk, d': InodeDisk, newlen: int, free: nat, used: seq<bool>, used': seq<bool>) {
    && 0 <= d.length == d'.length && 0 <= newlen && d'.isDir == d.isDir
    && PointersKept(d, d', BytesToSectors(d.length), BytesToSectors(newlen), free, used, used')
  }

  lemma RefusedNow(d: InodeDisk, d': InodeDisk, newlen: nat, free: nat, used: seq<bool>, used': seq<bool>)
    requires 0 <= d.length == d'.length && d'.isDir == d.isDir
    requires PointersKept(d, d', BytesToSectors(d.length), BytesToSectors(newlen), free, used, used')
    ensures RefusedInode(d, d', newlen, free, used, used')
  {
  }

  /** File F has grown to NEWLEN bytes by zeros, and nothing else has changed. */
  ghost predicate GrowsTo(inodes: map<nat, InodeDisk>, trees: map<nat, seq<Tree>>, files: map<nat, seq<Byte>>, f: nat,
                          newlen: int,
                          used: seq<bool>, d: InodeDisk, ts: seq<Tree>, disk': Disk, used': seq<bool>, fm: set<nat>)
  {
    && f in trees && f in files && d.length == newlen
    && Gains(used, used', AllSectors(trees[f]), AllSectors(ts))
    && StoreOk(inodes[f := d], trees[f := ts], disk', used', fm, files[f := Padded(files[f], newlen)])
  }

  /** File F could not grow: the other files are kept, and F, now with inode D in memory, reads as before. */
  ghost predicate CannotGrow(inodes: map<nat, InodeDisk>, trees: map<nat, seq<Tree>>, files: map<nat, seq<Byte>>,
                             f: nat,
                             disk: Disk, used: seq<bool>, d: InodeDisk, disk': Disk, used': seq<bool>, fm: set<nat>)
  {
    && f in trees && f in files && OnlyMarks(used, used')
    && Kept(inodes, trees, disk, used, fm, f, disk', used') && Reads(d, trees[f], disk', files[f])
  }

  /** Reserve blocks of file F for NEWLEN bytes and write its inode DATA back to its sector. */
  method GrowFile(fm: FreeMap.Allocator, data: InodeDisk, ghost inodes: map<nat, InodeDisk>,
                  ghost trees: map<nat, seq<Tree>>,
                  ghost files: map<nat, seq<Byte>>, f: nat, newlen: int)
    returns (ok: bool, d: InodeDisk, ghost ts: seq<Tree>)
    requires fm.Valid() && fm.file.Open? && fm.CanWrite() && 0 <= data.length <= newlen < 0x8000_0000
    requires f in inodes && inodes[f] == data && StoreOk(inodes, trees, fm.cache.view, fm.Used(), fm.Own(), files)
    modifies fm.bits.words, fm.cache, fm.cache.slots
    ensures fm.Valid() && ok == CanHold(data.length, newlen, old(fm.Free()))
    ensures fm.Free() == FreeAfter(data.length, newlen, old(fm.Free()))
    ensures SectorZero(old(fm.cache.view), fm.cache.view, !ok && RunsOutAtIndexBlock(data.length, newlen,
                       old(fm.Free())))
    ensures ok ==> GrowsTo(inodes, trees, files, f, newlen, old(fm.Used()), d, ts, fm.cache.view, fm.Used(), fm.Own())
    ensures !ok ==>
      CannotGrow(inodes, trees, files, f, old(fm.cache.view), old(fm.Used()), d, fm.cache.view, fm.Used(), fm.Own())
    ensures d.isDir == data.isDir && LowestFirst(old(fm.Used()), fm.Used()) && OnlyMarks(old(fm.Used()), fm.Used())
    ensures !ok ==> RefusedInode(data, d, newlen, old(fm.Free()), old(fm.Used()), fm.Used())
    ensures !ok ==> (fm.Used() == old(fm.Used()) <==> Untaken(data.length, old(fm.Free())))
  {
    hide *;
    fm.Sizes();
    fm.OwnSectors();
    ghost var disk, used, own := fm.cache.view, fm.Used(), fm.Own();
    StoreIs(inodes, trees, disk, used, own, files);
    HoldsIs(inodes, trees, disk, files);
    OneOk(inodes, trees, disk, used, own, f);
    d := data;
    FileIs(f, d, trees[f], disk, used, own);
    SectorsMonotone(d.length, newlen);
    CanHoldIs(d.length, newlen, fm.Free());
    FreeAfterIs(d.length, newlen, fm.Free());
    RunsOutIs(d.length, newlen, fm.Free());
    ok, d, ts := Reserve.Reserve(fm, d, newlen, trees[f], BytesToSectors(d.length));
    fm.Sizes();
    if ok {
      ExtendedFile(inodes, trees, disk, used, own, f, d, ts, newlen, fm.cache.view, fm.Used());
      d := d.(length := newlen);
      fm.Store(f, EncodeInode(d));
      ContentsUpdated(inodes, trees, disk, f, d, ts, fm.cache.view, files, Padded(files[f], newlen));
      GrowsNow(inodes, trees, files, f, newlen, disk, used, d, ts, fm.cache.view, fm.Used(), own);
    } else {
      FailureKeepsOthers(inodes, trees, disk, used, own, f, AllIndexSectors(trees[f]), fm.cache.view, fm.Used());
      SpoiledMarks(disk, used, fm.cache.view, fm.Used(), AllIndexSectors(trees[f]), own);
      StillReads(f, data, trees[f], disk, used, own, d, fm.cache.view, fm.Used());
      RefusedNow(data, d, newlen, old(fm.Free()), used, fm.Used());
      CannotNow(inodes, trees, files, f, disk, used, d, fm.cache.view, fm.Used(), own);
    }
  }

  lemma GrowsNow(inodes: map<nat, InodeDisk>, trees: map<nat, seq<Tree>>, files: map<nat, seq<Byte>>, f: nat,
                 newlen: int, disk: Disk,
                 used: seq<bool>, d: InodeDisk, ts: seq<Tree>, disk': Disk, used': seq<bool>, fm: set<nat>)
    requires f in trees && f in files && d.length == newlen && Gains(used, used', AllSectors(trees[f]), AllSectors(ts))
    requires Holds(inodes[f := d], trees[f := ts], disk', files[f := Padded(files[f], newlen)])
    requires AllOk(inodes[f := d], trees[f := ts], disk', used', fm) && |disk'| == |disk| > 0 && disk'[0] == disk[0]
    ensures GrowsTo(inodes, trees, files, f, newlen, used, d, ts, disk', used', fm) && SectorZero(disk, disk', false)
  {
    hide Holds, AllOk, Gains, AllSectors, Padded;
  }

  lemma CannotNow(inodes: map<nat, InodeDisk>, trees: map<nat, seq<Tree>>, files: map<nat, seq<Byte>>, f: nat,
                  disk: Disk, used: seq<bool>, d: InodeDisk, disk': Disk, used': seq<bool>, fm: set<nat>)
    requires f in trees && f in files && OnlyMarks(used, used')
    requires Kept(inodes, trees, disk, used, fm, f, disk', used') && Reads(d, trees[f], disk', files[f])
    ensures CannotGrow(inodes, trees, files, f, disk, used, d, disk', used', fm)
  {
  }

  /** Free sectors after a file of OLDLEN bytes has grown, or has been refused to grow, to NEWLEN. */
  ghost function FreeAfter(oldlen: int, newlen: int, free: nat): int {
    if oldlen < 0 then free
    else if CanHold(oldlen, newlen, free) then
      free - (FileCost(BytesToSectors(newlen)) - FileCost(BytesToSectors(oldlen)))
    else FreeAfterRefusal(BytesToSectors(oldlen), newlen, free)
  }

  lemma FreeAfterIs(oldlen: nat, newlen: nat, free: nat)
    ensures CanHold(oldlen, newlen, free) ==>
      FreeAfter(oldlen, newlen, free) == free - (FileCost(BytesToSectors(newlen)) - FileCost(BytesToSectors(oldlen)))
    ensures !CanHold(oldlen, newlen, free) ==>
      FreeAfter(oldlen, newlen, free) == FreeAfterRefusal(BytesToSectors(oldlen), newlen, free)
    ensures Untaken(oldlen, free) <==> free == 0 || BytesToSectors(oldlen) == 16635
  {
  }

  /** A refused extension of a file of OLDLEN bytes takes no sector: there is none, or the index has no room. */
  ghost predicate Untaken(oldlen: int, free: nat) {
    oldlen >= 0 && (free == 0 || BytesToSectors(oldlen) == MAX_SECTORS)
  }

  lemma RunsOutIs(oldlen: nat, newlen: nat, free: nat)
    ensures RunsOutAtIndexBlock(oldlen, newlen, free) <==> FileLost(BytesToSectors(oldlen), Min(BytesToSectors(newlen),
                                16635), free)
  {
  }

  lemma OneOk(inodes: map<nat, InodeDisk>, trees: map<nat, seq<Tree>>, disk: Disk, used: seq<bool>, fm: set<nat>,
              f: nat)
    requires AllOk(inodes, trees, disk, used, fm) && f in inodes
    ensures f in trees && FileOk(f, inodes[f], trees[f], disk, used, fm)
  {
  }

  lemma HoldsIs(inodes: map<nat, InodeDisk>, trees: map<nat, seq<Tree>>, disk: Disk, files: map<nat, seq<Byte>>)
    requires Holds(inodes, trees, disk, files)
    ensures inodes.Keys == trees.Keys && forall s :: s in inodes ==> |trees[s]| == ROOTS && inodes[s].length >= 0
    ensures files == map s | s in inodes :: FileMap.Contents(inodes[s], disk, trees[s])
  {
  }

  class FileSystem {
    const fm: FreeMap.Allocator
    /** In-memory inodes, by the sector that holds the inode. */
    var inodes: map<nat, InodeDisk>
    /** deny_write_cnt of the inodes for which it is not zero. */
    var denyWrite: map<nat, nat>
    ghost var trees: map<nat, seq<Tree>>

    ghost predicate Valid()
      reads this, fm, fm.bits.words, fm.cache, fm.cache.slots
    {
      && fm.Valid() && fm.file.Open? && fm.file.denyWrite == 0
      && Encodable(fm.file.inode) && fm.cache.view[FreeMap.FREE_MAP_SECTOR] == EncodeInode(fm.file.inode)
      && AllOk(inodes, trees, fm.cache.view, fm.Used(), fm.Own())
    }

    /** The abstract file system. */
    ghost function Files(): (files: map<nat, seq<Byte>>)
      requires Valid()
      reads this, fm, fm.bits.words, fm.cache, fm.cache.slots
      ensures files.Keys == inodes.Keys
    {
      AllContents(inodes, trees, fm.cache.view)
    }

    /** All sectors that belong to file S. */
    ghost function Owned(s: nat): set<nat>
      requires s in trees
      reads this
    {
      AllSectors(trees[s])
    }

    /** filesys_init on a blank device, up to the creation of the root directory. */
    constructor Format(device: Disk)
      requires Formattable(|device|)
      ensures Valid() && inodes == map[] && denyWrite == map[] && fresh(fm) && fresh(fm.cache) && fresh(fm.cache.slots)
      ensures fresh(fm.bits.words)
      ensures forall s :: 0 <= s < |fm.Used()| ==> (fm.Used()[s] <==> s < 2 || s in fm.Own())
      ensures fm.Free() == |device| - 3 - FileCost(BytesToSectors(ByteCnt(|device| - 1)))
      ensures fm.Valid() && NoLeaks() && fm.file.Open? && fm.file.denyWrite == 0 && !fm.file.inode.isDir
    {
      hide *;
      FormattableIs(|device|);
      var cache := new BufferCache.Cache(device);
      var a := new FreeMap.Allocator(cache);
      a.Sizes();
      CreateMapFile(a);
      a.Sizes();
      fm := a;
      inodes := map[];
      denyWrite := map[];
      trees := map[];
      new;
      NoFiles(fm.cache.view, fm.Used(), fm.Own());
      Fold();
      NothingClaimed();
      LeaksIs();
    }

    /** filesys_init on the device that file system WAS has left behind: the free map is the same, and every file
        can be opened again, with the same inode and the same bytes. */
    constructor Mount(device: Disk, ghost was: FileSystem)
      requires was.Valid() && device == was.fm.cache.view && |device| - 1 == was.fm.bits.bitCnt
      ensures Valid() && inodes == map[] && fresh(fm) && fresh(fm.cache) && fresh(fm.cache.slots)
      ensures fresh(fm.bits.words)
      ensures fm.cache.view == device && fm.Used() == was.fm.Used() && fm.Own() == was.fm.Own()
      ensures fm.file == was.fm.file
      ensures AllOk(was.inodes, was.trees, fm.cache.view, fm.Used(), fm.Own()) && denyWrite == map[]
    {
      hide *;
      was.Unfold();
      was.fm.Sizes();
      ghost var used, own, stored := was.fm.Used(), was.fm.Own(), was.fm.file.inode;
      var cache := new BufferCache.Cache(device);
      var a := new FreeMap.Allocator(cache);
      a.OpenMap(stored, was.fm.ts, used);
      fm := a;
      inodes := map[];
      denyWrite := map[];
      trees := map[];
      new;
      NoFiles(fm.cache.view, fm.Used(), fm.Own());
      SameOwn(was.fm, fm);
      Fold();
    }

    /** inode_open of the inode in sector F; DS and TTS are the files that lie on the device, some of them open. */
    method Open(f: nat, ghost ds: map<nat, InodeDisk>, ghost tts: map<nat, seq<Tree>>)
      requires Valid() && f in ds && AllOk(ds, tts, fm.cache.view, fm.Used(), fm.Own())
      requires PartOf(inodes, trees, ds, tts)
      modifies this`inodes, this`trees, this`denyWrite, fm.cache, fm.cache.slots
      ensures Valid() && PartOf(inodes, trees, ds, tts) && inodes == old(inodes)[f := ds[f]]
      ensures fm.cache.view == old(fm.cache.view) && fm.Used() == old(fm.Used())
      ensures denyWrite == if f in old(inodes) then old(denyWrite) else old(denyWrite) - {f}
    {
      hide *;
      PartIs(inodes, trees, ds, tts);
      if f in inodes {
        return;
      }
      Unfold();
      fm.Sizes();
      OneOk(ds, tts, fm.cache.view, fm.Used(), fm.Own(), f);
      StoredInode(f, ds[f], tts[f], fm.cache.view, fm.Used(), fm.Own());
      InodeRoundTrip(ds[f]);
      var block := fm.Fetch(f);
      PartAdd(inodes, trees, ds, tts, f, fm.cache.view, fm.Used(), fm.Own());
      inodes := inodes[f := DecodeInode(block)];
      denyWrite := denyWrite - {f};
      trees := trees[f := tts[f]];
      Fold();
    }

    /** Opening all files of the device gives them all back. */
    method OpenAll(sectors: seq<nat>, ghost ds: map<nat, InodeDisk>, ghost tts: map<nat, seq<Tree>>)
      requires Valid() && inodes == map[] && AllOk(ds, tts, fm.cache.view, fm.Used(), fm.Own())
      requires forall f :: f in sectors <==> f in ds
      modifies this`inodes, this`trees, this`denyWrite, fm.cache, fm.cache.slots
      ensures Valid() && inodes == ds && trees == tts && fm.cache.view == old(fm.cache.view)
      ensures fm.Used() == old(fm.Used())
      ensures old(denyWrite) == map[] ==> denyWrite == map[]
    {
      hide *;
      Unfold();
      PartNone(inodes, trees, ds, tts);
      for n := 0 to |sectors|
        invariant Valid() && fm.Valid() && PartOf(inodes, trees, ds, tts)
        invariant fm.cache.view == old(fm.cache.view) && fm.Used() == old(fm.Used())
        invariant forall m :: 0 <= m < n ==> sectors[m] in inodes
        invariant old(denyWrite) == map[] ==> denyWrite == map[]
      {
        assert sectors[n] in ds;
        Open(sectors[n], ds, tts);
        ValidParts();
      }
      Unfold();
      PartAll(inodes, trees, ds, tts, sectors, fm.cache.view, fm.Used(), fm.Own());
    }

    lemma Unfold()
      requires Valid()
      ensures fm.Valid() && fm.file.Open? && fm.file.denyWrite == 0 && fm.CanWrite() && Encodable(fm.file.inode)
      ensures 0 < |fm.cache.view| && fm.cache.view[0] == EncodeInode(fm.file.inode) && 0 !in fm.Own()
      ensures AllOk(inodes, trees, fm.cache.view, fm.Used(), fm.Own())
      ensures inodes.Keys == trees.Keys
      ensures forall s :: s in inodes ==>
        && |trees[s]| == ROOTS && 0 <= inodes[s].length
        && FileOk(s, inodes[s], trees[s], fm.cache.view, fm.Used(), fm.Own())
      ensures forall s, r :: s in inodes && r in inodes ==> s !in AllSectors(trees[r])
      ensures Files() == map s | s in inodes :: FileMap.Contents(inodes[s], fm.cache.view, trees[s])
    {
      hide FreeMap.Allocator.Valid, FileOk, FileMap.Contents;
      fm.Sizes();
      fm.OwnSectors();
    }

    lemma Fold()
      requires fm.Valid() && fm.file.Open? && fm.file.denyWrite == 0 && Encodable(fm.file.inode)
      requires 0 < |fm.cache.view| && fm.cache.view[0] == EncodeInode(fm.file.inode)
      requires AllOk(inodes, trees, fm.cache.view, fm.Used(), fm.Own())
      ensures Valid()
      ensures inodes.Keys == trees.Keys && forall s :: s in inodes ==> |trees[s]| == ROOTS && 0 <= inodes[s].length
      ensures Holds(inodes, trees, fm.cache.view, Files())
      ensures forall files :: Holds(inodes, trees, fm.cache.view, files) ==> files == Files()
      ensures Files() == map s | s in inodes :: FileMap.Contents(inodes[s], fm.cache.view, trees[s])
    {
      hide FreeMap.Allocator.Valid, FileOk, FileMap.Contents, EncodeInode;
    }

    /** File F, opened in whatever state, delivers BYTES when it is read. */
    ghost predicate Readable(f: nat, bytes: seq<Byte>)
      reads this, fm, fm.cache
    {
      f in inodes && f in trees && Reads(inodes[f], trees[f], fm.cache.view, bytes)
    }

    /** Each of FILES delivers what it should when it is read. */
    ghost predicate AllRead(files: map<nat, seq<Byte>>)
      reads this, fm, fm.cache
    {
      forall g :: g in files ==> Readable(g, files[g])
    }

    lemma AllReadNow(files: map<nat, seq<Byte>>)
      requires forall g :: g in files ==> Readable(g, files[g])
      ensures AllRead(files)
    {
    }

    lemma ReadableIs(f: nat, bytes: seq<Byte>)
      ensures Readable(f, bytes) <==> f in inodes && f in trees && Reads(inodes[f], trees[f], fm.cache.view, bytes)
    {
    }

    /** inode_read_at, in any state in which the file is readable. */
    method ReadBytes(f: nat, size: int, offset: int, ghost bytes: seq<Byte>) returns (buffer: seq<Byte>)
      requires fm.Valid() && Readable(f, bytes) && (offset >= 0 || size <= 0)
      modifies fm.cache, fm.cache.slots
      ensures fm.Valid() && fm.cache.view == old(fm.cache.view) && fm.Used() == old(fm.Used())
      ensures fm.Free() == old(fm.Free())
      ensures buffer == Slice(bytes, size, offset)
    {
      hide *;
      ReadableIs(f, bytes);
      ReadsIs(inodes[f], trees[f], fm.cache.view, bytes);
      buffer := fm.ReadFile(inodes[f], size, offset, trees[f]);
    }

    /** inode_read_at */
    method ReadAt(f: nat, size: int, offset: int) returns (buffer: seq<Byte>)
      requires Valid() && f in inodes && (offset >= 0 || size <= 0)
      modifies fm.cache, fm.cache.slots
      ensures Valid() && Files() == old(Files()) && f in Files() && inodes == old(inodes)
      ensures fm.Valid() && fm.cache.view == old(fm.cache.view) && fm.Used() == old(fm.Used())
      ensures fm.Free() == old(fm.Free())
      ensures buffer == Slice(Files()[f], size, offset)
    {
      hide *;
      Unfold();
      FileReads(f, inodes[f], trees[f], fm.cache.view, fm.Used(), fm.Own());
      ReadableIs(f, Files()[f]);
      buffer := ReadBytes(f, size, offset, Files()[f]);
      Fold();
    }

    /** SECTOR is marked and belongs to nobody: an inode can be placed there. */
    ghost predicate Vacant(sector: nat)
      requires Valid()
      reads this, fm, fm.bits.words, fm.cache, fm.cache.slots
    {
      && 1 <= sector < |fm.Used()| && fm.Used()[sector] && sector !in fm.Own()
      && sector !in inodes && forall r :: r in trees ==> sector !in AllSectors(trees[r])
    }

    lemma VacantIs(sector: nat)
      requires Valid() && Vacant(sector)
      ensures 1 <= sector < |fm.Used()| && fm.Used()[sector] && sector !in fm.Own()
      ensures sector !in inodes && forall r :: r in inodes ==> sector !in AllSectors(trees[r])
    {
    }

    /** inode_create for a file: zero bytes appear under a new number, nothing else changes, and exactly the
        sectors the size calls for are taken. */
    method Create(sector: nat, length: int, isDir: bool) returns (ok: bool)
      requires Valid() && Vacant(sector) && length < 0x8000_0000
      modifies this`inodes, this`trees, fm.bits.words, fm.cache, fm.cache.slots
      ensures ok == (&& length >= 0 && BytesToSectors(length) <= MAX_SECTORS
                     && FileCost(BytesToSectors(length)) <= old(fm.Free()))
      ensures ok ==> Valid() && Files() == old(Files())[sector := Zeros(length)]
      ensures ok ==> fm.Free() == old(fm.Free()) - FileCost(BytesToSectors(length))
      ensures ok ==> sector in trees && trees == old(trees)[sector := trees[sector]]
      ensures ok ==> forall s :: 0 <= s < |fm.Used()| ==> (fm.Used()[s] <==> old(fm.Used())[s] || s in Owned(sector))
      ensures ok ==> forall s :: s in Owned(sector) ==> s < |old(fm.Used())| && !old(fm.Used())[s]
      ensures !ok ==>
        && fm.Valid()
        && Kept(old(inodes), old(trees), old(fm.cache.view), old(fm.Used()), fm.Own(), sector, fm.cache.view, fm.Used())
      ensures !ok ==> inodes == old(inodes) && trees == old(trees) && OnlyMarks(old(fm.Used()), fm.Used())
      ensures !ok ==> (MapInodeIntact() <==> !RunsOutAtIndexBlock(0, length, old(fm.Free())))
      ensures !ok ==> fm.Free() == FreeAfterRefusal(0, length, old(fm.Free()))
      ensures !ok ==> (fm.Used() == old(fm.Used()) <==> length < 0 || old(fm.Free()) == 0)
      ensures !ok ==> forall g :: g in old(Files()) ==> Readable(g, old(Files())[g])
      ensures ok && old(NoLeaks()) ==> NoLeaks()
      ensures ok ==> OnlyInode(old(inodes), inodes, sector, isDir)
      ensures LowestFirst(old(fm.Used()), fm.Used()) && OnlyMarks(old(fm.Used()), fm.Used())
    {
      hide *;
      Unfold();
      LeaksIs();
      VacantIs(sector);
      fm.Sizes();
      ghost var files := Files();
      ghost var disk, used, own := fm.cache.view, fm.Used(), fm.Own();
      var d;
      ghost var ts;
      ok, d, ts := CreateInode(fm, sector, length, isDir);
      fm.Sizes();
      if ok {
        assert {} + {sector} == {sector};
        NewFileOk(sector, d, ts, fm.cache.view, fm.Used(), own);
        UpdateFile(inodes, trees, disk, used, own, sector, {}, d, ts, fm.cache.view, fm.Used());
        FrameAtZero(disk, used, fm.cache.view, {sector}, own);
        OnlyNow(inodes, sector, d);
        inodes := inodes[sector := d];
        trees := trees[sector := ts];
        Fold();
        OwnedIs(sector);
        FilesUpdated(Files(), old(Files()), sector, Zeros(length), old(inodes));
        LeaksIs();
        PlacedAccounted(used, fm.Used(), old(trees), sector, ts, own);
      } else {
        FailureKeepsOthers(inodes, trees, disk, used, own, sector, {}, fm.cache.view, fm.Used());
        SpoiledMarks(disk, used, fm.cache.view, fm.Used(), {}, own);
        KeptReadable(sector, disk, used, files);
        RunsOutFromNothing(length, old(fm.Free()));
        StillIntact(disk, 0, length, old(fm.Free()));
      }
    }

    /** The inode of the free map is still stored in sector 0. */
    ghost predicate MapInodeIntact()
      reads fm, fm.cache
    {
      && fm.file.Open? && Encodable(fm.file.inode) && |fm.cache.view| > 0
      && fm.cache.view[FreeMap.FREE_MAP_SECTOR] == EncodeInode(fm.file.inode)
    }

    lemma IntactIs()
      ensures MapInodeIntact() <==>
        && fm.file.Open? && Encodable(fm.file.inode) && |fm.cache.view| > 0
        && fm.cache.view[0] == EncodeInode(fm.file.inode)
    {
    }

    lemma StillIntact(disk: Disk, oldlen: nat, newlen: int, free: nat)
      requires fm.file.Open? && Encodable(fm.file.inode) && |disk| > 0 && disk[0] == EncodeInode(fm.file.inode)
      requires SectorZero(disk, fm.cache.view, RunsOutAtIndexBlock(oldlen, newlen, free))
      ensures MapInodeIntact() <==> !RunsOutAtIndexBlock(oldlen, newlen, free)
    {
      hide RunsOutAtIndexBlock, EncodeInode;
      InodeNotZero(fm.file.inode);
    }

    /** The extending part of inode_write_at: the file grows by zeros to NEWLEN bytes, if there are enough free
        sectors for its data and index blocks. */
    method Extend(f: nat, newlen: int) returns (ok: bool)
      requires Valid() && f in inodes && inodes[f].length <= newlen < 0x8000_0000
      modifies this`inodes, this`trees, fm.bits.words, fm.cache, fm.cache.slots
      ensures ok == CanHold(old(inodes[f].length), newlen, old(fm.Free()))
      ensures ok ==> Valid() && Files() == old(Files())[f := Padded(old(Files())[f], newlen)]
      ensures ok ==>
        fm.Free()
          == old(fm.Free()) - (FileCost(BytesToSectors(newlen)) - FileCost(BytesToSectors(old(inodes[f].length))))
      ensures ok ==> f in inodes && inodes[f].length == newlen && f in trees && trees == old(trees)[f := trees[f]]
      ensures ok ==> Gains(old(fm.Used()), fm.Used(), old(Owned(f)), Owned(f))
      ensures !ok ==> fm.Valid() && AfterRefusal(f, newlen, old(Files()), old(fm.Used()), old(fm.Free()))
      ensures OnlyInode(old(inodes), inodes, f, old(inodes)[f].isDir)
      ensures fm.Valid() && LowestFirst(old(fm.Used()), fm.Used())
      ensures !ok ==> trees == old(trees)
      ensures !ok ==> RefusedInode(old(inodes)[f], inodes[f], newlen, old(fm.Free()), old(fm.Used()), fm.Used())
      ensures !ok && old(NoLeaks()) ==> (NoLeaks() <==> fm.Used() == old(fm.Used()))
      ensures !ok ==>
        Kept(old(inodes), old(trees), old(fm.cache.view), old(fm.Used()), fm.Own(), f, fm.cache.view, fm.Used())
    {
      hide *;
      Unfold();
      Fold();
      OwnedIs(f);
      var d;
      ghost var ts;
      ghost var disk, used, oldlen, free, files := fm.cache.view, fm.Used(), inodes[f].length, fm.Free(), Files();
      FileIs(f, inodes[f], trees[f], disk, used, fm.Own());
      StoreNow(inodes, trees, disk, used, fm.Own(), files);
      LeaksIs();
      FreeAfterIs(oldlen, newlen, free);
      RunsOutIs(oldlen, newlen, free);
      ok, d, ts := GrowFile(fm, inodes[f], inodes, trees, files, f, newlen);
      OnlyNow(inodes, f, d);
      inodes := inodes[f := d];
      if ok {
        GrowsIs(old(inodes), trees, files, f, newlen, used, d, ts, fm.cache.view, fm.Used(), fm.Own());
        ZeroIs(disk, fm.cache.view);
        trees := trees[f := ts];
        Fold();
        OwnedIs(f);
      } else {
        StillIntact(disk, oldlen, newlen, free);
        CannotIs(old(inodes), trees, files, f, disk, used, d, fm.cache.view, fm.Used(), fm.Own());
        AllReadable(old(inodes), f, d, disk, files);
        LeaksIs();
        AccountedIff(used, fm.Used(), trees, fm.Own());
        AfterRefusalNow(f, newlen, files, used, free);
      }
    }

    /** What a refused extension of file F to NEWLEN bytes leaves: FILES, USED and FREE are the files, the free map and
        the number of free sectors there were before.  Every file, F included, still reads as it did. */
    ghost predicate AfterRefusal(f: nat, newlen: int, files: map<nat, seq<Byte>>, used: seq<bool>, free: nat)
      requires fm.Valid()
      reads this, fm, fm.bits.words, fm.cache, fm.cache.slots
    {
      && f in files && OnlyMarks(used, fm.Used())
      && fm.Free() == FreeAfterRefusal(BytesToSectors(|files[f]|), newlen, free)
      && (fm.Used() == used <==> free == 0 || BytesToSectors(|files[f]|) == MAX_SECTORS)
      && (MapInodeIntact() <==> !RunsOutAtIndexBlock(|files[f]|, newlen, free))
      && (forall g :: g in files ==> Readable(g, files[g]))
    }

    lemma AfterRefusalIs(f: nat, newlen: int, files: map<nat, seq<Byte>>, used: seq<bool>, free: nat)
      requires fm.Valid() && AfterRefusal(f, newlen, files, used, free)
      ensures f in files && (MapInodeIntact() <==> !RunsOutAtIndexBlock(|files[f]|, newlen, free))
      ensures OnlyMarks(used, fm.Used())
      ensures fm.Free() == FreeAfterRefusal(BytesToSectors(|files[f]|), newlen, free)
      ensures forall g :: g in files ==> Readable(g, files[g])
    {
      hide FreeMap.Allocator.Valid, FreeAfterRefusal, BytesToSectors, MapInodeIntact, RunsOutAtIndexBlock, Readable;
    }

    lemma AfterRefusalNow(f: nat, newlen: int, files: map<nat, seq<Byte>>, used: seq<bool>, free: nat)
      requires fm.Valid() && f in files && OnlyMarks(used, fm.Used())
      requires fm.Free() == FreeAfterRefusal(BytesToSectors(|files[f]|), newlen, free)
      requires fm.Used() == used <==> free == 0 || BytesToSectors(|files[f]|) == 16635
      requires MapInodeIntact() <==> !RunsOutAtIndexBlock(|files[f]|, newlen, free)
      requires forall g :: g in files ==> Readable(g, files[g])
      ensures AfterRefusal(f, newlen, files, used, free)
    {
      hide FreeMap.Allocator.Valid, FreeAfterRefusal, BytesToSectors, MapInodeIntact, RunsOutAtIndexBlock, Readable;
    }

    /** Files that are in order are readable. */
    lemma StoreReadable(files: map<nat, seq<Byte>>)
      requires fm.Valid() && AllOk(inodes, trees, fm.cache.view, fm.Used(), fm.Own())
      requires Holds(inodes, trees, fm.cache.view, files)
      ensures forall g :: g in files ==> Readable(g, files[g])
    {
      hide FreeMap.Allocator.Valid, FileOk, Reads, FileMap.Contents;
      forall g | g in files
        ensures Readable(g, files[g])
      {
        OneOk(inodes, trees, fm.cache.view, fm.Used(), fm.Own(), g);
        FileReads(g, inodes[g], trees[g], fm.cache.view, fm.Used(), fm.Own());
      }
    }

    /** Files that are kept are readable. */
    lemma KeptReadable(f: nat, disk: Disk, used: seq<bool>, files: map<nat, seq<Byte>>)
      requires fm.Valid() && f !in inodes && Kept(inodes, trees, disk, used, fm.Own(), f, fm.cache.view, fm.Used())
      requires inodes.Keys == trees.Keys && forall g :: g in inodes ==> |trees[g]| == ROOTS && inodes[g].length >= 0
      requires files == map g | g in inodes :: FileMap.Contents(inodes[g], disk, trees[g])
      ensures forall g :: g in files ==> Readable(g, files[g])
    {
      hide FreeMap.Allocator.Valid, FileOk, Reads, FileMap.Contents;
      forall g | g in files
        ensures Readable(g, files[g])
      {
        OneOk(inodes - {f}, trees - {f}, fm.cache.view, fm.Used(), fm.Own(), g);
        FileReads(g, inodes[g], trees[g], fm.cache.view, fm.Used(), fm.Own());
      }
    }

    /** All files are readable after a refusal. */
    lemma AllReadable(was: map<nat, InodeDisk>, f: nat, d: InodeDisk, disk: Disk, files: map<nat, seq<Byte>>)
      requires fm.Valid() && f in was && inodes == was[f := d] && Holds(was, trees, disk, files)
      requires f in files && f in trees && Kept(was, trees, disk, fm.Used(), fm.Own(), f, fm.cache.view, fm.Used())
      requires Reads(d, trees[f], fm.cache.view, files[f])
      ensures forall g :: g in files ==> Readable(g, files[g])
    {
      hide FreeMap.Allocator.Valid, FileOk, Reads, FileMap.Contents;
      forall g | g in files && g != f
        ensures Readable(g, files[g])
      {
        OneOk(was - {f}, trees - {f}, fm.cache.view, fm.Used(), fm.Own(), g);
        FileReads(g, was[g], trees[g], fm.cache.view, fm.Used(), fm.Own());
      }
    }

    /** The writing loop of inode_write_at. */
    method Overwrite(f: nat, buffer: seq<Byte>, offset: int) returns (written: nat)
      requires Valid() && f in inodes && 0 <= offset && offset + |buffer| <= inodes[f].length
      modifies fm.cache, fm.cache.slots
      ensures Valid() && written == |buffer| && |old(Files())[f]| == inodes[f].length
      ensures Files() == old(Files())[f := Patched(old(Files())[f], offset, buffer)]
      ensures fm.Used() == old(fm.Used()) && fm.Free() == old(fm.Free())
    {
      hide *;
      Unfold();
      fm.Sizes();
      ghost var disk, used, own := fm.cache.view, fm.Used(), fm.Own();
      FileIs(f, inodes[f], trees[f], disk, used, own);
      written := fm.WriteFile(inodes[f], buffer, offset, trees[f]);
      Overwritten(f, inodes[f], trees[f], disk, used, own, offset, buffer, fm.cache.view);
      FileSectors(f, inodes[f], trees[f], disk, used, own);
      UpdateFile(inodes, trees, disk, used, own, f, AllSectors(trees[f]), inodes[f], trees[f], fm.cache.view, used);
      assert inodes[f := inodes[f]] == inodes && trees[f := trees[f]] == trees;
      FrameAtZero(disk, used, fm.cache.view, AllSectors(trees[f]) + {f}, own);
      Fold();
      FilesUpdated(Files(), old(Files()), f, Patched(old(Files())[f], offset, buffer), inodes);
    }

    /** The quirk of inode_write_at with nothing to write at offset 0: position -1 counts as past the end, nothing
        is reserved, and the length is set to 0.  The blocks stay allocated, so the file is damaged unless it was
        empty. */
    method WriteNothingAtZero(f: nat)
      requires Valid() && f in inodes && f in trees
      modifies this`inodes, fm.cache, fm.cache.slots
      ensures inodes == old(inodes)[f := old(inodes)[f].(length := 0)] && fm.Valid() && fm.Used() == old(fm.Used())
      ensures OneWritten(old(fm.cache.view), fm.cache.view, f, inodes[f])
      ensures Valid() <==> old(inodes)[f].length == 0
      ensures Valid() ==> Files() == old(Files())
    {
      hide *;
      Unfold();
      fm.Sizes();
      ghost var disk, used, own := fm.cache.view, fm.Used(), fm.Own();
      var d := inodes[f];
      FileIs(f, d, trees[f], disk, used, own);
      EncodableZero(d);
      fm.Store(f, EncodeInode(d.(length := 0)));
      inodes := inodes[f := d.(length := 0)];
      OneNow(disk, f, inodes[f]);
      if d.length > 0 {
        Truncated(f, d, trees[f], disk, used, own, trees[f], fm.cache.view, fm.Used());
        BrokenFile(f);
      } else {
        assert d.(length := 0) == d && inodes == old(inodes);
        StoredInode(f, d, trees[f], disk, used, own);
        assert fm.cache.view == disk;
        Fold();
      }
    }

    /** A broken file breaks the invariant. */
    lemma BrokenFile(f: nat)
      requires fm.Valid() && f in inodes && f in trees
      requires !FileOk(f, inodes[f], trees[f], fm.cache.view, fm.Used(), fm.Own())
      ensures !Valid()
    {
    }

    /** inode_write_at.  A write that fits makes the file exactly the old contents, padded with zeros up to OFFSET,
        with BUFFER from OFFSET on; it fits exactly when the file need not grow or there are enough free sectors. */
    method WriteAt(f: nat, buffer: seq<Byte>, offset: int) returns (written: int)
      requires Valid() && f in inodes && 0 <= offset && offset + |buffer| < 0x8000_0000
      modifies this`inodes, this`trees, fm.bits.words, fm.cache, fm.cache.slots
      ensures Denied(f) ==> written == 0 && Valid() && Files() == old(Files()) && fm.cache.view == old(fm.cache.view)
      ensures OnlyInode(old(inodes), inodes, f, old(inodes)[f].isDir)
      ensures fm.Valid() && LowestFirst(old(fm.Used()), fm.Used())
      ensures offset + |buffer| <= old(inodes[f].length) ==> fm.Used() == old(fm.Used())
      ensures !Denied(f) && 0 < offset + |buffer| && Fits(old(inodes[f].length), offset + |buffer|, old(fm.Free())) ==>
        && written == |buffer| && Valid() && Files() == old(Files())[f := Written(old(Files())[f], offset, buffer)]
        && fm.Free() == old(fm.Free()) - (Price(|Files()[f]|) - Price(|old(Files())[f]|))
        && f in trees && trees == old(trees)[f := trees[f]] && Gains(old(fm.Used()), fm.Used(), old(Owned(f)), Owned(f))
        && (old(NoLeaks()) ==> NoLeaks())
      ensures !Denied(f) && 0 < offset + |buffer| && !Fits(old(inodes[f].length), offset + |buffer|, old(fm.Free())) ==>
        && written == 0 && fm.Valid()
        && AfterRefusal(f, offset + |buffer|, old(Files()), old(fm.Used()), old(fm.Free()))
        && Kept(old(inodes), old(trees), old(fm.cache.view), old(fm.Used()), fm.Own(), f, fm.cache.view, fm.Used())
        && (old(NoLeaks()) ==> (NoLeaks() <==> fm.Used() == old(fm.Used()))) && trees == old(trees)
        && RefusedInode(old(inodes)[f], inodes[f], offset + |buffer|, old(fm.Free()), old(fm.Used()), fm.Used())
      ensures !Denied(f) && offset + |buffer| == 0 ==>
        && written == 0 && inodes == old(inodes)[f := old(inodes)[f].(length := 0)]
        && (Valid() <==> old(inodes)[f].length == 0) && (Valid() ==> Files() == old(Files()))
        && fm.Used() == old(fm.Used()) && OneWritten(old(fm.cache.view), fm.cache.view, f, inodes[f])
    {
      hide *;
      DeniedIs(f);
      Unfold();
      OwnedIs(f);
      LeaksIs();
      OnlyNow(inodes, f, inodes[f]);
      LowestRefl(fm.Used());
      if f in denyWrite && denyWrite[f] > 0 {
        return 0;
      }
      var newlen := offset + |buffer|;
      if newlen == 0 {
        OnlyNow(inodes, f, inodes[f].(length := 0));
        WriteNothingAtZero(f);
        return 0;
      }
      var ok := MakeRoom(f, newlen);
      if !ok {
        return 0;
      }
      ValidParts();
      written := Overwrite(f, buffer, offset);
      WrittenIs(old(Files())[f], offset, buffer);
      ValidParts();
      OwnedIs(f);
      LeaksIs();
      GrownAccounted(old(fm.Used()), fm.Used(), old(trees), f, trees[f], fm.Own());
    }

    /** The head of inode_write_at: if the last byte to be written lies past the end, the file is extended. */
    method MakeRoom(f: nat, newlen: int) returns (ok: bool)
      requires Valid() && f in inodes && 0 < newlen < 0x8000_0000
      modifies this`inodes, this`trees, fm.bits.words, fm.cache, fm.cache.slots
      ensures ok == Fits(old(inodes[f].length), newlen, old(fm.Free()))
      ensures ok ==> Valid() && f in inodes && newlen <= inodes[f].length
      ensures ok ==> Files() == old(Files())[f := Padded(old(Files())[f], newlen)]
      ensures ok ==> fm.Free() == old(fm.Free()) - (Price(|Files()[f]|) - Price(|old(Files())[f]|))
      ensures ok ==> f in trees && trees == old(trees)[f := trees[f]]
      ensures ok ==> Gains(old(fm.Used()), fm.Used(), old(Owned(f)), Owned(f))
      ensures !ok ==> fm.Valid() && AfterRefusal(f, newlen, old(Files()), old(fm.Used()), old(fm.Free()))
      ensures !ok ==>
        Kept(old(inodes), old(trees), old(fm.cache.view), old(fm.Used()), fm.Own(), f, fm.cache.view, fm.Used())
      ensures OnlyInode(old(inodes), inodes, f, old(inodes)[f].isDir)
      ensures fm.Valid() && LowestFirst(old(fm.Used()), fm.Used())
      ensures !ok ==> trees == old(trees)
      ensures newlen <= old(inodes[f].length) ==> fm.Used() == old(fm.Used())
      ensures !ok ==> RefusedInode(old(inodes)[f], inodes[f], newlen, old(fm.Free()), old(fm.Used()), fm.Used())
      ensures !ok && old(NoLeaks()) ==> (NoLeaks() <==> fm.Used() == old(fm.Used()))
    {
      hide *;
      Unfold();
      LengthIs(f);
      FileIs(f, inodes[f], trees[f], fm.cache.view, fm.Used(), fm.Own());
      FitsIs(inodes[f].length, newlen, fm.Free());
      FileSectors(f, inodes[f], trees[f], fm.cache.view, fm.Used(), fm.Own());
      PaddedIs(Files()[f], newlen);
      OwnedIs(f);
      GainsNone(fm.Used(), Owned(f));
      OnlyNow(inodes, f, inodes[f]);
      LowestRefl(fm.Used());
      LeaksIs();
      var past := fm.PastEnd(inodes[f], newlen - 1, trees[f]);
      LeaksIs();
      Fold();
      ok := true;
      if past {
        ok := Extend(f, newlen);
      }
    }

    /** The end of a removed inode (inode_close): its sector and all its blocks are given back, each of them marked
        when it is released, and no other file changes. */
    method Remove(f: nat)
      requires Valid() && f in inodes && f in trees && f >= 2
      modifies this`inodes, this`trees, this`denyWrite, fm.bits.words, fm.cache, fm.cache.slots
      ensures Valid() && Files() == old(Files()) - {f} && trees == old(trees) - {f}
      ensures inodes == old(inodes) - {f} && denyWrite == old(denyWrite) - {f}
      ensures Deallocate.Released(old(fm.Used()), fm.Used(), old(Owned(f)) + {f})
      ensures fm.Free() == old(fm.Free()) + 1 + FileCost(BytesToSectors(|old(Files())[f]|))
      ensures old(NoLeaks()) ==> NoLeaks()
    {
      hide *;
      Unfold();
      LeaksIs();
      fm.Sizes();
      ghost var disk, used, own := fm.cache.view, fm.Used(), fm.Own();
      OwnedIs(f);
      var d := inodes[f];
      ghost var ts := trees[f];
      ReleasedAccounted(inodes, trees, disk, used, own, f);
      ReleaseFile(fm, f, d, ts);
      RemoveFile(inodes, trees, disk, used, own, f, fm.cache.view, fm.Used());
      SameAtZero(disk, fm.cache.view, own);
      inodes := inodes - {f};
      denyWrite := denyWrite - {f};
      trees := trees - {f};
      Fold();
      LeaksIs();
      FilesRemoved(Files(), old(Files()), f, old(inodes));
    }

    /** The end of a filesys_create whose directory entry could not be made: only the sector of the inode is given
        back.  The file is gone; its blocks stay marked, without an owner. */
    method Forget(f: nat)
      requires fm.Valid() && fm.file.Open? && Usable(f, fm.Used(), fm.Own())
      requires Valid() ==> f in inodes && f in trees
      modifies this`inodes, this`trees, fm.bits.words, fm.cache, fm.cache.slots
      ensures fm.Valid() && fm.Free() == old(fm.Free()) + 1 && Deallocate.Released(old(fm.Used()), fm.Used(), {f})
      ensures inodes == old(inodes) - {f} && trees == old(trees) - {f}
      ensures old(Valid()) ==> Valid() && Files() == old(Files()) - {f}
      ensures old(Valid()) && old(NoLeaks()) ==> (NoLeaks() <==> |old(Files())[f]| == 0)
    {
      hide *;
      LeaksIs();
      ghost var disk, used, own := fm.cache.view, fm.Used(), fm.Own();
      if Valid() {
        Unfold();
        LengthIs(f);
      }
      fm.Sizes();
      UsableInside(f, used, own);
      Deallocate.ReleaseOne(fm, f);
      inodes := inodes - {f};
      trees := trees - {f};
      LeaksIs();
      if old(Valid()) {
        ForgetFile(old(inodes), old(trees), disk, used, own, f, fm.cache.view, fm.Used());
        ForgottenAccounted(old(inodes), old(trees), disk, used, own, f, fm.Used());
        SameAtZero(disk, fm.cache.view, own);
        Fold();
        FilesRemoved(Files(), old(Files()), f, old(inodes));
      }
    }

    /** The allocating part of filesys_create: a sector for the inode, then the inode with LENGTH zero bytes. */
    method NewFile(length: int, isDir: bool) returns (ok: bool, sector: nat)
      requires Valid() && length < 0x8000_0000
      modifies this`inodes, this`trees, fm.bits.words, fm.cache, fm.cache.slots
      ensures ok == (&& length >= 0 && BytesToSectors(length) <= MAX_SECTORS
                     && 1 + FileCost(BytesToSectors(length)) <= old(fm.Free()))
      ensures ok ==>
        Valid() && sector !in old(inodes) && sector >= 2 && Files() == old(Files())[sector := Zeros(length)]
      ensures ok ==> fm.Free() == old(fm.Free()) - 1 - FileCost(BytesToSectors(length))
      ensures ok ==>
        && sector in trees && trees == old(trees)[sector := trees[sector]]
        && Gains(old(fm.Used()), fm.Used(), {}, Owned(sector) + {sector})
      ensures !ok ==> fm.Valid() && inodes == old(inodes) && trees == old(trees)
      ensures !ok ==>
        AllOk(inodes, trees, fm.cache.view, fm.Used(), fm.Own()) && Holds(inodes, trees, fm.cache.view, old(Files()))
      ensures !ok ==>
        (Valid() <==> old(fm.Free()) == 0 || !RunsOutAtIndexBlock(0, length, old(fm.Free()) - 1))
      ensures !ok && Valid() ==> Files() == old(Files())
      ensures ok && old(NoLeaks()) ==> NoLeaks()
      ensures ok ==> OnlyInode(old(inodes), inodes, sector, isDir)
      ensures ok ==> LowestFirst(old(fm.Used()), fm.Used()) && forall s :: 0 <= s < sector ==> old(fm.Used())[s]
      ensures !ok ==>
        fm.Free() == if old(fm.Free()) == 0 then 0 else 1 + FreeAfterRefusal(0, length, old(fm.Free()) - 1)
      ensures !ok && old(fm.Free()) > 0 ==> BackAgain(old(fm.Used()), fm.Used(), sector)
      ensures !ok ==> (fm.Used() == old(fm.Used()) <==> length < 0 || old(fm.Free()) <= 1)
      ensures !ok && old(NoLeaks()) ==> (NoLeaks() <==> length < 0 || old(fm.Free()) <= 1)
    {
      hide *;
      Unfold();
      fm.Sizes();
      LeaksIs();
      ghost var disk, used, own := fm.cache.view, fm.Used(), fm.Own();
      ok, sector := AllocateOne(fm);
      if ok {
        LowestIs(used, sector, fm.Used());
        FreeIsNobodys(inodes, trees, disk, used, own, sector);
        MarkOne(used, sector, fm.Used());
        NoFileTouched(inodes, trees, disk, used, own, fm.cache.view, fm.Used());
        fm.Sizes();
        Fold();
        ghost var files, disk1, used1 := Files(), fm.cache.view, fm.Used();
        FilesSame(files, old(Files()), inodes);
        VacantNow(sector);
        ok := Create(sector, length, isDir);
        if !ok {
          MarksKept(used1, fm.Used(), sector);
          UsableIs(sector, fm.Used(), own);
          ghost var disk2, used2 := fm.cache.view, fm.Used();
          fm.Sizes();
          IntactIs();
          Deallocate.ReleaseOne(fm, sector);
          IntactIs();
          GivenBack(used, sector, used1, used2, fm.Used());
          BackNow(used, sector, used1, used2, fm.Used());
          LeaksIs();
          AccountedIff(used, fm.Used(), trees, own);
          KeptAfterRelease(inodes, trees, disk1, used1, own, sector, disk2, used2, fm.cache.view, fm.Used(), files);
          SameAtZero(disk2, fm.cache.view, own);
          ValidIffIntact();
        } else {
          Unfold();
          OwnedIs(sector);
          GainsOne(used, sector, used1, fm.Used(), Owned(sector));
          LeaksIs();
          LowestTrans(used, used1, fm.Used());
          NewAccounted(used, fm.Used(), old(trees), sector, trees[sector], own);
        }
      } else {
        Fold();
        LeaksIs();
      }
    }

    /** What is left of the invariant when the files are in order. */
    lemma ValidIffIntact()
      requires fm.Valid() && fm.file.Open? && fm.file.denyWrite == 0
      requires AllOk(inodes, trees, fm.cache.view, fm.Used(), fm.Own())
      ensures Valid() <==> MapInodeIntact()
      ensures Valid() ==> forall files :: Holds(inodes, trees, fm.cache.view, files) ==> files == Files()
    {
    }

    lemma RootVacant()
      requires Valid() && inodes == map[] && denyWrite == map[]
      ensures Vacant(1) && !Denied(1)
    {
      fm.Sizes();
      fm.OwnSectors();
    }

    lemma SectorOf(f: nat)
      requires Valid() && f in inodes
      ensures fm.Valid() && f < 0x1_0000_0000 && (f >= 2 ==> Usable(f, fm.Used(), fm.Own())) && f in trees
    {
      fm.Sizes();
      FileIs(f, inodes[f], trees[f], fm.cache.view, fm.Used(), fm.Own());
    }

    lemma VacantNow(sector: nat)
      requires Valid() && 1 <= sector < |fm.Used()| && fm.Used()[sector] && sector !in fm.Own()
      requires sector !in inodes && forall r :: r in inodes ==> sector !in AllSectors(trees[r])
      ensures Vacant(sector)
    {
      hide AllSectors;
    }

    /** Creating a file and removing it restores the free map bit for bit. */
    method CreateThenRemove(length: int, isDir: bool) returns (ok: bool)
      requires Valid() && length < 0x8000_0000
      modifies this`inodes, this`trees, this`denyWrite, fm.bits.words, fm.cache, fm.cache.slots
      ensures ok ==> Valid() && fm.Used() == old(fm.Used()) && Files() == old(Files())
      ensures ok ==> inodes == old(inodes)
      ensures ok ==> fm.Free() == old(fm.Free())
    {
      hide *;
      Unfold();
      ghost var used, files := fm.Used(), Files();
      var sector;
      ok, sector := NewFile(length, isDir);
      if ok {
        Unfold();
        ghost var used1, owned := fm.Used(), Owned(sector);
        OnlyIs(old(inodes), inodes, sector, isDir);
        Remove(sector);
        Unfold();
        GainedThenReleased(used, used1, owned + {sector}, fm.Used());
        fm.Sizes();
        RemovedAgain(files, sector, Zeros(length), Files());
      }
    }

    /** What the invariant says about ownership: sectors of a file are marked, are neither of the two reserved
        sectors nor the free map's, hold no inode, and belong to that file alone. */
    lemma Ownership(f: nat, g: nat, s: nat)
      requires Valid() && f in trees && g in trees && s in Owned(f)
      ensures 2 <= s < |fm.Used()| && fm.Used()[s] && s !in fm.Own() && s !in inodes
      ensures f != g ==> s !in Owned(g)
    {
      hide FreeMap.Allocator.Valid, FileOk, AllSectors;
      FileSectors(f, inodes[f], trees[f], fm.cache.view, fm.Used(), fm.Own());
    }

    /** The abstract state: what the files hold and how many sectors are free. */
    ghost function State(): Store
      requires Valid()
      reads this, fm, fm.bits.words, fm.cache, fm.cache.slots
    {
      Store(Files(), Kinds(inodes), fm.Free())
    }

    /** Every marked sector is accounted for: it is reserved, or belongs to the free map's file, or to a file. */
    ghost predicate NoLeaks()
      requires fm.Valid()
      reads this, fm, fm.bits.words, fm.cache, fm.cache.slots
    {
      Accounted(fm.Used(), trees, fm.Own())
    }

    /** Any run of operations acts as on the abstract state, up to the first one that does not fit there; the
        invariant holds and no sector is lost. */
    method Run(ops: seq<Op>) returns (ok: bool, ghost names: seq<nat>)
      requires Valid() && denyWrite == map[] && forall op :: op in ops ==> op.WellFormed()
      modifies this`inodes, this`trees, this`denyWrite, fm.bits.words, fm.cache, fm.cache.slots
      ensures ok ==> Valid() && |names| == |ops| && State() == After(old(State()), ops, names)
      ensures denyWrite == map[]
      ensures ok && old(NoLeaks()) ==> NoLeaks()
      ensures forall n :: 0 <= n < |names| <= |ops| ==> Performed(old(State()), ops, names, n)
      ensures !ok ==> |names| < |ops| && !Feasible(After(old(State()), ops[..|names|], names), ops[|names|])
      ensures !ok ==> AllRead(After(old(State()), ops[..|names|], names).files)
    {
      hide *;
      names := [];
      var n := 0;
      ghost var start := State();
      ValidParts();
      AfterNone(start, ops, names);
      while n < |ops|
        invariant n <= |ops| && |names| == n && Valid() && fm.Valid() && denyWrite == map[]
        invariant State() == After(start, ops[..n], names)
        invariant old(NoLeaks()) ==> NoLeaks()
        invariant forall m :: 0 <= m < n ==> Performed(start, ops, names, m)
      {
        ghost var name;
        StateIs();
        ghost var before := Files();
        ok, name := Perform(ops[n]);
        if !ok {
          AllReadNow(before);
          return;
        }
        AfterStep(start, ops, names, n, name);
        PerformedStep(start, ops, names, n, name);
        ValidParts();
        names := names + [name];
        n := n + 1;
      }
      assert ops[..n] == ops;
      ok := true;
    }

    lemma ValidParts()
      requires Valid()
      ensures fm.Valid()
    {
    }

    /** One operation of a run: it succeeds exactly when the abstract state says it fits. */
    method Perform(op: Op) returns (ok: bool, ghost name: nat)
      requires Valid() && op.WellFormed() && denyWrite == map[]
      modifies this`inodes, this`trees, this`denyWrite, fm.bits.words, fm.cache, fm.cache.slots
      ensures ok == Feasible(old(State()), op)
      ensures ok ==> Valid() && State() == Effect(old(State()), op, name)
      ensures ok && op.New? ==> name !in old(Files())
      ensures !ok ==> forall g :: g in old(Files()) ==> Readable(g, old(Files())[g])
      ensures denyWrite == map[]
      ensures fm.Valid() && (ok && old(NoLeaks()) ==> NoLeaks())
    {
      hide *;
      Unfold();
      Fold();
      StoreReadable(Files());
      StateIs();
      LeaksIs();
      EffectIs(State(), op);
      WellFormedIs(op);
      FeasibleIs(State(), op);
      name := 0;
      ghost var used, own := fm.Used(), fm.Own();
      match op {
        case New(length, isDir) =>
          var sector;
          ok, sector := NewFile(length, isDir);
          name := sector;
          KindsAfter(old(inodes), sector);
          if !ok {
            StoreReadable(old(Files()));
          }
        case Write(f, buffer, offset) =>
          if f !in inodes {
            return false, 0;
          }
          DeniedIs(f);
          OwnedIs(f);
          LengthIs(f);
          FitsIs(inodes[f].length, offset + |buffer|, fm.Free());
          KindsAfter(inodes, f);
          ghost var files, usedNow, free := Files(), fm.Used(), fm.Free();
          var written := WriteAt(f, buffer, offset);
          if written != |buffer| {
            AfterRefusalIs(f, offset + |buffer|, files, usedNow, free);
          }
          ok := written == |buffer|;
        case Delete(f) =>
          if f !in inodes || f < 2 {
            return false, 0;
          }
          KindsAfter(inodes, f);
          Remove(f);
          ok := true;
      }
      if ok {
        StateIs();
        ValidParts();
      }
      LeaksIs();
    }

    lemma StateIs()
      requires Valid()
      ensures fm.Valid() && State() == Store(Files(), Kinds(inodes), fm.Free()) && Files().Keys == inodes.Keys
    {
    }

    lemma LeaksIs()
      requires fm.Valid()
      ensures NoLeaks() <==> Accounted(fm.Used(), trees, fm.Own())
    {
    }

    lemma LengthIs(f: nat)
      requires Valid() && f in inodes
      ensures f in Files() && |Files()[f]| == inodes[f].length
    {
    }

    /** Writing to F is denied by some opener. */
    ghost predicate Denied(f: nat)
      reads this`denyWrite
    {
      f in denyWrite && denyWrite[f] > 0
    }

    lemma DeniedIs(f: nat)
      ensures Denied(f) <==> f in denyWrite && denyWrite[f] > 0
    {
    }

    lemma OwnedIs(s: nat)
      requires s in trees
      ensures Owned(s) == AllSectors(trees[s])
    {
    }
  }

  /** There are enough free sectors for a file of OLDLEN bytes to grow to NEWLEN. */
  ghost predicate CanHold(oldlen: int, newlen: int, free: nat) {
    && 0 <= oldlen && 0 <= newlen && BytesToSectors(newlen) <= MAX_SECTORS
    && FileCost(BytesToSectors(newlen)) - FileCost(BytesToSectors(oldlen)) <= free
  }

  /** A write that ends at NEWLEN fits. */
  ghost predicate Fits(oldlen: int, newlen: int, free: nat) {
    newlen <= oldlen || CanHold(oldlen, newlen, free)
  }

  lemma FitsIs(oldlen: int, newlen: int, free: nat)
    ensures Fits(oldlen, newlen, free) <==> newlen <= oldlen || CanHold(oldlen, newlen, free)
  {
  }

  lemma PaddedIs(bytes: seq<Byte>, n: nat)
    ensures n <= |bytes| ==> Padded(bytes, n) == bytes
    ensures |bytes| <= n ==> |Padded(bytes, n)| == n
    ensures Price(|bytes|) == FileCost(BytesToSectors(|bytes|)) && Price(n) == FileCost(BytesToSectors(n))
  {
  }

  lemma WrittenIs(bytes: seq<Byte>, offset: nat, buffer: seq<Byte>)
    ensures offset + |buffer| <= |Padded(bytes, offset + |buffer|)|
    ensures |Padded(bytes, offset + |buffer|)| == if |bytes| < offset + |buffer| then offset + |buffer| else |bytes|
    ensures offset + |buffer| <= |bytes| ==> Padded(bytes, offset + |buffer|) == bytes
    ensures Written(bytes, offset, buffer) == Patched(Padded(bytes, offset + |buffer|), offset, buffer)
  {
  }

  /** A file of OLDLEN bytes cannot grow to NEWLEN, because the FREE sectors run out just when an index block is due. */
  ghost predicate RunsOutAtIndexBlock(oldlen: int, newlen: int, free: nat) {
    && oldlen >= 0 && newlen >= 0
    && FileLost(BytesToSectors(oldlen), Min(BytesToSectors(newlen), 16635), free)
  }

  lemma CanHoldIs(oldlen: nat, newlen: nat, free: nat)
    ensures CanHold(oldlen, newlen, free) <==>
      (&& BytesToSectors(newlen) <= MAX_SECTORS
       && FileCost(BytesToSectors(newlen)) - FileCost(BytesToSectors(oldlen)) <= free)
  {
  }

  lemma SectorsMonotone(a: nat, b: nat)
    requires a <= b
    ensures BytesToSectors(a) <= BytesToSectors(b)
  {
  }

  /** Operations of a run. */
  datatype Op = New(length: int, isDir: bool) | Write(file: nat, buffer: seq<Byte>, offset: int) | Delete(file: nat) {
    ghost predicate WellFormed() {
      match this
      case New(length, _) => 0 <= length < 0x8000_0000
      case Write(_, buffer, offset) => 0 <= offset && 0 < |buffer| && offset + |buffer| < 0x8000_0000
      case Delete(_) => true
    }
  }

  /** The abstract file system: what the files hold, by number, which of them are directories, and how many sectors
      are free. */
  datatype Store = Store(files: map<nat, seq<Byte>>, kinds: map<nat, bool>, free: int)

  ghost function Kinds(inodes: map<nat, InodeDisk>): map<nat, bool> {
    map f | f in inodes :: inodes[f].isDir
  }

  lemma KindsAfter(before: map<nat, InodeDisk>, f: nat)
    ensures forall after, isDir :: OnlyInode(before, after, f, isDir) ==> Kinds(after) == Kinds(before)[f := isDir]
    ensures f in before ==> Kinds(before)[f := before[f].isDir] == Kinds(before)
    ensures Kinds(before - {f}) == Kinds(before) - {f}
  {
  }

  /** Sectors of a file of LENGTH bytes, its inode not included. */
  ghost function Price(length: nat): nat {
    FileCost(BytesToSectors(length))
  }

  /** The operation can be carried out: its file exists, the length is supported, and there are enough free sectors. */
  ghost predicate Feasible(s: Store, op: Op) {
    match op
    case New(length, _) => length >= 0 && BytesToSectors(length) <= MAX_SECTORS && 1 + Price(length) <= s.free
    case Write(f, buffer, offset) => f in s.files && s.free >= 0 && Fits(|s.files[f]|, offset + |buffer|, s.free)
    case Delete(f) => f in s.files && f >= 2
  }

  /** What an operation does to the abstract file system; NAME is the number a new file gets. */
  ghost function Effect(s: Store, op: Op, name: nat): Store {
    match op
    case New(length, isDir) =>
      if length >= 0 then Store(s.files[name := Zeros(length)], s.kinds[name := isDir], s.free - 1 - Price(length))
      else s
    case Write(f, buffer, offset) =>
      if f in s.files && offset >= 0 then
        var bytes := Written(s.files[f], offset, buffer);
        Store(s.files[f := bytes], s.kinds, s.free - (Price(|bytes|) - Price(|s.files[f]|)))
      else s
    case Delete(f) =>
      if f in s.files then Store(s.files - {f}, s.kinds - {f}, s.free + 1 + Price(|s.files[f]|)) else s
  }

  ghost function After(s: Store, ops: seq<Op>, names: seq<nat>): Store
    requires |ops| == |names|
  {
    if ops == [] then s
    else Effect(After(s, ops[..|ops| - 1], names[..|ops| - 1]), ops[|ops| - 1], names[|ops| - 1])
  }

  /** Operation N of a run fitted, and the number it gave to a new file was not in use. */
  ghost predicate Performed(s: Store, ops: seq<Op>, names: seq<nat>, n: nat)
    requires n < |names| <= |ops|
  {
    var before := After(s, ops[..n], names[..n]);
    Feasible(before, ops[n]) && (ops[n].New? ==> names[n] !in before.files)
  }

  lemma AfterNone(s: Store, ops: seq<Op>, names: seq<nat>)
    requires names == []
    ensures After(s, ops[..0], names) == s
  {
  }

  lemma AfterStep(s: Store, ops: seq<Op>, names: seq<nat>, n: nat, name: nat)
    requires n < |ops| && |names| == n
    ensures After(s, ops[..n + 1], names + [name]) == Effect(After(s, ops[..n], names), ops[n], name)
  {
    assert ops[..n + 1][..n] == ops[..n];
    assert (names + [name])[..n] == names;
  }

  lemma PerformedStep(s: Store, ops: seq<Op>, names: seq<nat>, n: nat, name: nat)
    requires n < |ops| && |names| == n && forall m :: 0 <= m < n ==> Performed(s, ops, names, m)
    requires var before := After(s, ops[..n], names);
             Feasible(before, ops[n]) && (ops[n].New? ==> name !in before.files)
    ensures forall m :: 0 <= m <= n ==> Performed(s, ops, names + [name], m)
  {
    hide Feasible, After;
    assert (names + [name])[..n] == names;
    forall m | 0 <= m < n
      ensures Performed(s, ops, names + [name], m)
    {
      assert Performed(s, ops, names, m);
      assert (names + [name])[..m] == names[..m];
    }
  }

  lemma EffectIs(s: Store, op: Op)
    requires op.WellFormed()
    ensures op.New? ==> op.length >= 0
    ensures op.New? ==>
      forall name :: Effect(s, op, name)
        == Store(s.files[name := Zeros(op.length)], s.kinds[name := op.isDir],
                 s.free - 1 - FileCost(BytesToSectors(op.length)))
    ensures op.Write? ==> op.offset >= 0
    ensures op.Write? && op.file in s.files ==>
      var bytes := Written(s.files[op.file], op.offset, op.buffer);
      forall name :: Effect(s, op, name) ==
        Store(s.files[op.file := bytes], s.kinds, s.free - (Price(|bytes|) - Price(|s.files[op.file]|)))
    ensures op.Delete? && op.file in s.files ==>
      forall name :: Effect(s, op, name)
        == Store(s.files - {op.file}, s.kinds - {op.file}, s.free + 1 + FileCost(BytesToSectors(|s.files[op.file]|)))
  {
  }

  lemma FeasibleIs(s: Store, op: Op)
    requires op.WellFormed() && s.free >= 0
    ensures op.New? ==> op.length >= 0
    ensures op.New? ==>
      (Feasible(s, op) <==>
        BytesToSectors(op.length) <= MAX_SECTORS && 1 + FileCost(BytesToSectors(op.length)) <= s.free)
    ensures op.Write? ==>
      (Feasible(s, op) <==> op.file in s.files && Fits(|s.files[op.file]|, op.offset + |op.buffer|, s.free))
    ensures op.Delete? ==> (Feasible(s, op) <==> op.file in s.files && op.file >= 2)
  {
  }

  /** Giving the sector of an inode back leaves the other files alone. */
  lemma ForgetFile(inodes: map<nat, InodeDisk>, trees: map<nat, seq<Tree>>, disk: Disk, used: seq<bool>, fm: set<nat>,
                   f: nat, disk': Disk, used': seq<bool>)
    requires AllOk(inodes, trees, disk, used, fm) && f in inodes
    requires Deallocate.SameBut(disk, disk', fm) && Deallocate.Released(used, used', {f})
    ensures AllOk(inodes - {f}, trees - {f}, disk', used', fm)
    ensures forall r :: r in inodes && r != f ==>
      FileMap.Contents(inodes[r], disk', trees[r]) == FileMap.Contents(inodes[r], disk, trees[r])
  {
    hide FileOk, AllSectors, FileMap.Contents;
    forall r | r in inodes && r != f
      ensures FileOk(r, inodes[r], trees[r], disk', used', fm)
      ensures |trees[r]| == ROOTS && inodes[r].length >= 0
      ensures FileMap.Contents(inodes[r], disk', trees[r]) == FileMap.Contents(inodes[r], disk, trees[r])
    {
      FileSectors(r, inodes[r], trees[r], disk, used, fm);
      FileFrame(r, inodes[r], trees[r], disk, used, fm, disk', used');
    }
  }

  // ---- no sector is lost ------------------------------------------------------------------

  /** The sectors of all files, inodes included. */
  ghost function Claimed(trees: map<nat, seq<Tree>>): set<nat> {
    trees.Keys + set f, s | f in trees && s in AllSectors(trees[f]) :: s
  }

  /** The marked sectors are exactly the two reserved ones, those of the free map's file and those of the files. */
  ghost predicate Accounted(used: seq<bool>, trees: map<nat, seq<Tree>>, fm: set<nat>) {
    forall s :: 0 <= s < |used| ==> (used[s] <==> s < 2 || s in fm || s in Claimed(trees))
  }

  /** Marks without an owner are exactly the marks that were added. */
  lemma AccountedIff(used: seq<bool>, used': seq<bool>, trees: map<nat, seq<Tree>>, fm: set<nat>)
    requires OnlyMarks(used, used')
    ensures Accounted(used, trees, fm) ==> (Accounted(used', trees, fm) <==> used' == used)
  {
    hide Claimed;
  }

  lemma ClaimedWith(trees: map<nat, seq<Tree>>, f: nat, ts: seq<Tree>)
    requires f in trees ==> AllSectors(trees[f]) <= AllSectors(ts)
    ensures Claimed(trees[f := ts]) == Claimed(trees) + {f} + AllSectors(ts)
  {
    hide AllSectors;
    var after := trees[f := ts];
    forall s | s in Claimed(trees) ensures s in Claimed(after) {
      if s !in trees {
        var g :| g in trees && s in AllSectors(trees[g]);
        assert s in AllSectors(after[g]);
      }
    }
    forall s | s in Claimed(after) ensures s in Claimed(trees) + {f} + AllSectors(ts) {
      if s !in after {
        var g :| g in after && s in AllSectors(after[g]);
        assert g != f ==> s in AllSectors(trees[g]);
      }
    }
    assert after[f] == ts;
  }

  lemma NewAccounted(used: seq<bool>, used': seq<bool>, trees: map<nat, seq<Tree>>, f: nat, ts: seq<Tree>, fm: set<nat>)
    requires f !in trees && Gains(used, used', {}, AllSectors(ts) + {f})
    ensures Accounted(used, trees, fm) ==> Accounted(used', trees[f := ts], fm)
  {
    hide AllSectors, Claimed;
    ClaimedWith(trees, f, ts);
  }

  /** An inode placed in a sector that was marked already. */
  lemma PlacedAccounted(used: seq<bool>, used': seq<bool>, trees: map<nat, seq<Tree>>, f: nat, ts: seq<Tree>,
                        fm: set<nat>)
    requires f !in trees && f < |used| == |used'| && used[f]
    requires forall s :: 0 <= s < |used'| ==> (used'[s] <==> used[s] || s in AllSectors(ts))
    ensures Accounted(used, trees, fm) ==> Accounted(used', trees[f := ts], fm)
  {
    hide AllSectors, Claimed;
    ClaimedWith(trees, f, ts);
  }

  lemma GrownAccounted(used: seq<bool>, used': seq<bool>, trees: map<nat, seq<Tree>>, f: nat, ts: seq<Tree>,
                       fm: set<nat>)
    requires f in trees && Gains(used, used', AllSectors(trees[f]), AllSectors(ts))
    ensures Accounted(used, trees, fm) ==> Accounted(used', trees[f := ts], fm)
  {
    hide AllSectors;
    ClaimedWith(trees, f, ts);
  }

  lemma ReleasedAccounted(inodes: map<nat, InodeDisk>, trees: map<nat, seq<Tree>>, disk: Disk, used: seq<bool>,
                          fm: set<nat>, f: nat)
    requires AllOk(inodes, trees, disk, used, fm) && f in trees && f >= 2
    ensures Accounted(used, trees, fm) ==>
      forall used' :: Deallocate.Released(used, used', AllSectors(trees[f]) + {f}) ==> Accounted(used', trees - {f}, fm)
  {
    hide AllSectors, FileOk, Claimed;
    FileSectors(f, inodes[f], trees[f], disk, used, fm);
    ClaimedWithout(inodes, trees, disk, used, fm, f);
  }

  /** A file without blocks has no sector; any other has. */
  lemma FileHasSector(s: nat, d: InodeDisk, ts: seq<Tree>, disk: Disk, used: seq<bool>, fm: set<nat>)
    requires FileOk(s, d, ts, disk, used, fm)
    ensures |ts| == ROOTS && (d.length == 0 ==> AllSectors(ts) == {})
    ensures (d.length > 0 ==> DataAt(ts, 0) in AllSectors(ts))
  {
    var n := BytesToSectors(d.length);
    if n > 0 {
      DataAmong(d, ts, n, disk, used, fm, 0);
    } else {
      forall j | 0 <= j < ROOTS
        ensures Sectors(ts[j]) == {}
      {
        RootGood(d, ts, 0, disk, used, fm, j);
        assert RootCount(0, j) == 0;
      }
    }
  }

  lemma ForgottenAccounted(inodes: map<nat, InodeDisk>, trees: map<nat, seq<Tree>>, disk: Disk, used: seq<bool>,
                           fm: set<nat>, f: nat,
                           used': seq<bool>)
    requires AllOk(inodes, trees, disk, used, fm) && f in inodes && Usable(f, used, fm)
    requires Deallocate.Released(used, used', {f})
    ensures Accounted(used, trees, fm) ==> (Accounted(used', trees - {f}, fm) <==> inodes[f].length == 0)
  {
    hide AllSectors, FileOk;
    FileSectors(f, inodes[f], trees[f], disk, used, fm);
    FileHasSector(f, inodes[f], trees[f], disk, used, fm);
    if Accounted(used, trees, fm) {
      ClaimedWithout(inodes, trees, disk, used, fm, f);
      if inodes[f].length > 0 {
        var s := DataAt(trees[f], 0);
        assert used'[s] && s !in Claimed(trees - {f});
      }
    }
  }

  /** The sectors of the files other than F. */
  lemma ClaimedWithout(inodes: map<nat, InodeDisk>, trees: map<nat, seq<Tree>>, disk: Disk, used: seq<bool>,
                       fm: set<nat>, f: nat)
    requires AllOk(inodes, trees, disk, used, fm) && f in trees
    ensures Claimed(trees - {f}) == Claimed(trees) - {f} - AllSectors(trees[f])
  {
    hide AllSectors, FileOk;
    var rest := trees - {f};
    forall s | s in Claimed(trees) && s != f && s !in AllSectors(trees[f])
      ensures s in Claimed(rest)
    {
      if s !in trees {
        var g :| g in trees && s in AllSectors(trees[g]);
        assert rest[g] == trees[g];
      }
    }
    forall s | s in Claimed(rest)
      ensures s in Claimed(trees) && s != f && s !in AllSectors(trees[f])
    {
      if s !in rest {
        var g :| g in rest && s in AllSectors(rest[g]);
        assert g != f && s in AllSectors(trees[g]);
      }
    }
  }

  lemma WellFormedIs(op: Op)
    requires op.WellFormed()
    ensures op.New? ==> 0 <= op.length < 0x8000_0000
    ensures op.Write? ==> 0 <= op.offset && 0 < |op.buffer| && op.offset + |op.buffer| < 0x8000_0000
  {
  }

  /** free_map_release of the inode sector, then inode_deallocate. */
  method ReleaseFile(fm: FreeMap.Allocator, f: nat, d: InodeDisk, ghost ts: seq<Tree>)
    requires fm.Valid() && fm.file.Open? && f >= 2 && f !in AllSectors(ts)
    requires FileOk(f, d, ts, fm.cache.view, fm.Used(), fm.Own())
    modifies fm.bits.words, fm.cache, fm.cache.slots
    ensures fm.Valid() && Deallocate.SameBut(old(fm.cache.view), fm.cache.view, fm.Own())
    ensures Deallocate.Released(old(fm.Used()), fm.Used(), AllSectors(ts) + {f})
    ensures d.length >= 0 && |ts| == ROOTS && |FileMap.Contents(d, old(fm.cache.view), ts)| == d.length
    ensures fm.Free() == old(fm.Free()) + 1 + FileCost(BytesToSectors(d.length))
  {
    hide *;
    fm.Sizes();
    ghost var disk, used, own := fm.cache.view, fm.Used(), fm.Own();
    FileIs(f, d, ts, disk, used, own);
    UsableIs(f, used, own);
    Deallocate.ReleaseOne(fm, f);
    ghost var disk1, used1 := fm.cache.view, fm.Used();
    StillMapped(d, ts, BytesToSectors(d.length), disk, used, own, disk1, used1, f);
    Deallocate.Deallocate(fm, d, ts);
    Deallocate.SameButTrans(disk, disk1, fm.cache.view, own);
    Deallocate.ReleasedTrans(used, used1, fm.Used(), {f}, AllSectors(ts));
    assert {f} + AllSectors(ts) == AllSectors(ts) + {f};
  }

  lemma UsableInside(s: nat, used: seq<bool>, fm: set<nat>)
    requires Usable(s, used, fm)
    ensures 2 <= s < |used| && used[s] && s !in fm
  {
  }

  lemma ReleasedBit(used: seq<bool>, used': seq<bool>, s: nat)
    requires Deallocate.Released(used, used', {s}) && s < |used|
    ensures s < |used'| && !used'[s]
  {
  }

  lemma StillUsable(s: nat, used: seq<bool>, used': seq<bool>, fm: set<nat>)
    requires Usable(s, used, fm) && OnlyMarks(used, used')
    ensures Usable(s, used', fm)
  {
  }

  lemma SpoiledMarks(disk: Disk, used: seq<bool>, disk': Disk, used': seq<bool>, index: set<nat>, fm: set<nat>)
    requires Spoiled(disk, used, disk', used', index, fm)
    ensures OnlyMarks(used, used')
  {
  }

  lemma MarksKept(used: seq<bool>, used': seq<bool>, s: nat)
    requires OnlyMarks(used, used') && s < |used| && used[s]
    ensures s < |used'| && used'[s]
  {
  }

  lemma StillMapped(d: InodeDisk, ts: seq<Tree>, n: nat, disk: Disk, used: seq<bool>, fm: set<nat>, disk': Disk,
                    used': seq<bool>, f: nat)
    requires Mapped(d, ts, n, disk, used, fm) && f !in AllSectors(ts)
    requires Deallocate.SameBut(disk, disk', fm) && Deallocate.Released(used, used', {f})
    ensures Mapped(d, ts, n, disk', used', fm)
  {
    MappedUsable(d, ts, n, disk, used, fm);
    AllIndexWithin(ts);
    MappedFrame(d, ts, n, disk, used, fm, disk', used');
  }

  lemma UsableIs(s: nat, used: seq<bool>, fm: set<nat>)
    requires 2 <= s < |used| && used[s] && s !in fm
    ensures Usable(s, used, fm)
  {
  }

  /** Taking a free sector and giving it back: the map is as it was exactly when nothing else was taken. */
  lemma GivenBack(used: seq<bool>, s: nat, used1: seq<bool>, used2: seq<bool>, used3: seq<bool>)
    requires s < |used| && !used[s] && used1 == used[s := true] && OnlyMarks(used1, used2)
    requires Deallocate.Released(used2, used3, {s})
    ensures OnlyMarks(used, used3) && (used3 == used <==> used2 == used1)
  {
    if used2 == used1 {
      assert used3 == used;
    }
    if used3 == used {
      assert used2 == used1;
    }
  }

  /** Sector S, the lowest that was free, is free again; of the others, the lowest free ones may have been marked. */
  ghost predicate BackAgain(used: seq<bool>, used': seq<bool>, s: nat) {
    && s < |used| == |used'| && !used[s] && !used'[s] && (forall k :: 0 <= k < s ==> used[k])
    && OnlyMarks(used, used') && LowestFirst(used[s := true], used'[s := true])
  }

  lemma BackNow(used: seq<bool>, s: nat, used1: seq<bool>, used2: seq<bool>, used3: seq<bool>)
    requires s < |used| && !used[s] && used1 == used[s := true] && (forall k :: 0 <= k < s ==> used[k])
    requires OnlyMarks(used1, used2) && LowestFirst(used1, used2) && Deallocate.Released(used2, used3, {s})
    ensures BackAgain(used, used3, s)
  {
    assert used3[s := true] == used2;
  }

  /** Releasing the sector of an inode that could not be completed keeps all files. */
  lemma KeptAfterRelease(inodes: map<nat, InodeDisk>, trees: map<nat, seq<Tree>>, disk1: Disk, used1: seq<bool>,
                         fm: set<nat>, f: nat,
                         disk2: Disk, used2: seq<bool>, disk3: Disk, used3: seq<bool>, files: map<nat, seq<Byte>>)
    requires Kept(inodes, trees, disk1, used1, fm, f, disk2, used2) && Holds(inodes, trees, disk1, files)
    requires f !in inodes && forall r :: r in inodes ==> r in trees && f !in AllSectors(trees[r])
    requires Deallocate.SameBut(disk2, disk3, fm) && Deallocate.Released(used2, used3, {f})
    ensures AllOk(inodes, trees, disk3, used3, fm) && Holds(inodes, trees, disk3, files)
  {
    hide FileOk, AllSectors, FileMap.Contents;
    assert inodes - {f} == inodes && trees - {f} == trees;
    forall r | r in inodes
      ensures FileOk(r, inodes[r], trees[r], disk3, used3, fm)
      ensures FileMap.Contents(inodes[r], disk3, trees[r]) == FileMap.Contents(inodes[r], disk2, trees[r])
    {
      FileSectors(r, inodes[r], trees[r], disk2, used2, fm);
      FileFrame(r, inodes[r], trees[r], disk2, used2, fm, disk3, used3);
    }
  }

  lemma SameAtZero(disk: Disk, disk': Disk, fm: set<nat>)
    requires Deallocate.SameBut(disk, disk', fm) && 0 < |disk| && 0 !in fm
    ensures |disk'| == |disk| && disk'[0] == disk[0]
  {
  }

  lemma FilesRemoved(files: map<nat, seq<Byte>>, before: map<nat, seq<Byte>>, f: nat, inodes: map<nat, InodeDisk>)
    requires before.Keys == inodes.Keys && files.Keys == inodes.Keys - {f}
    requires forall r :: r in inodes && r != f ==> files[r] == before[r]
    ensures files == before - {f}
  {
  }

  lemma FilesSame(files: map<nat, seq<Byte>>, before: map<nat, seq<Byte>>, inodes: map<nat, InodeDisk>)
    requires before.Keys == files.Keys == inodes.Keys
    requires forall r :: r in inodes ==> files[r] == before[r]
    ensures files == before
  {
  }

  lemma MarkOne(used: seq<bool>, s: nat, used': seq<bool>)
    requires s < |used| && used' == used[s := true]
    ensures OnlyMarks(used, used')
  {
  }

  lemma GainsOne(used: seq<bool>, sector: nat, used1: seq<bool>, used2: seq<bool>, owned: set<nat>)
    requires sector < |used| == |used2| && !used[sector] && used1 == used[sector := true]
    requires forall s :: 0 <= s < |used2| ==> (used2[s] <==> used1[s] || s in owned)
    requires forall s :: s in owned ==> s < |used1| && !used1[s]
    ensures Gains(used, used2, {}, owned + {sector})
  {
  }

  lemma GainsNone(used: seq<bool>, owned: set<nat>)
    requires forall s :: s in owned ==> s < |used| && used[s]
    ensures Gains(used, used, owned, owned)
  {
  }

  lemma GainedThenReleased(used: seq<bool>, used1: seq<bool>, s: set<nat>, used2: seq<bool>)
    requires Gains(used, used1, {}, s) && Deallocate.Released(used1, used2, s)
    ensures used2 == used
  {
  }

  lemma RemovedAgain(files: map<nat, seq<Byte>>, f: nat, bytes: seq<Byte>, after: map<nat, seq<Byte>>)
    requires f !in files && after == files[f := bytes] - {f}
    ensures after == files
  {
  }

  /** Exactly the sectors in AFTER become marked; those that are not in BEFORE were free. */
  ghost predicate Gains(used: seq<bool>, used': seq<bool>, before: set<nat>, after: set<nat>) {
    && before <= after && |used| == |used'|
    && (forall s :: 0 <= s < |used| ==> (used'[s] <==> used[s] || s in after))
    && (forall s :: s in after && s !in before ==> s < |used| && !used[s])
  }

  ghost predicate Holds(inodes: map<nat, InodeDisk>, trees: map<nat, seq<Tree>>, disk: Disk,
                        files: map<nat, seq<Byte>>) {
    && inodes.Keys == trees.Keys
    && (forall s :: s in inodes ==> |trees[s]| == ROOTS && inodes[s].length >= 0)
    && files == AllContents(inodes, trees, disk)
  }

  /** All files are in order and hold FILES. */
  ghost predicate StoreOk(inodes: map<nat, InodeDisk>, trees: map<nat, seq<Tree>>, disk: Disk, used: seq<bool>,
                          fm: set<nat>,
                          files: map<nat, seq<Byte>>)
  {
    Holds(inodes, trees, disk, files) && AllOk(inodes, trees, disk, used, fm)
  }

  lemma StoreIs(inodes: map<nat, InodeDisk>, trees: map<nat, seq<Tree>>, disk: Disk, used: seq<bool>, fm: set<nat>,
                files: map<nat, seq<Byte>>)
    requires StoreOk(inodes, trees, disk, used, fm, files)
    ensures Holds(inodes, trees, disk, files) && AllOk(inodes, trees, disk, used, fm)
  {
  }

  lemma GrowsIs(inodes: map<nat, InodeDisk>, trees: map<nat, seq<Tree>>, files: map<nat, seq<Byte>>, f: nat,
                newlen: int,
                used: seq<bool>, d: InodeDisk, ts: seq<Tree>, disk': Disk, used': seq<bool>, fm: set<nat>)
    requires GrowsTo(inodes, trees, files, f, newlen, used, d, ts, disk', used', fm)
    ensures f in trees && f in files && d.length == newlen && Gains(used, used', AllSectors(trees[f]), AllSectors(ts))
    ensures Holds(inodes[f := d], trees[f := ts], disk', files[f := Padded(files[f], newlen)])
    ensures AllOk(inodes[f := d], trees[f := ts], disk', used', fm)
  {
    hide Holds, AllOk, Gains, AllSectors, Padded;
  }

  lemma CannotIs(inodes: map<nat, InodeDisk>, trees: map<nat, seq<Tree>>, files: map<nat, seq<Byte>>, f: nat,
                 disk: Disk, used: seq<bool>, d: InodeDisk, disk': Disk, used': seq<bool>, fm: set<nat>)
    requires CannotGrow(inodes, trees, files, f, disk, used, d, disk', used', fm)
    ensures f in trees && f in files && OnlyMarks(used, used') && Reads(d, trees[f], disk', files[f])
    ensures Kept(inodes, trees, disk, used, fm, f, disk', used')
    ensures Kept(inodes, trees, disk, used', fm, f, disk', used')
  {
  }

  lemma ZeroIs(disk: Disk, disk': Disk)
    requires SectorZero(disk, disk', false)
    ensures |disk'| == |disk| > 0 && disk'[0] == disk[0]
  {
  }

  lemma StoreNow(inodes: map<nat, InodeDisk>, trees: map<nat, seq<Tree>>, disk: Disk, used: seq<bool>, fm: set<nat>,
                 files: map<nat, seq<Byte>>)
    requires Holds(inodes, trees, disk, files) && AllOk(inodes, trees, disk, used, fm)
    ensures StoreOk(inodes, trees, disk, used, fm, files)
  {
  }

  lemma ContentsUpdated(inodes: map<nat, InodeDisk>, trees: map<nat, seq<Tree>>, disk: Disk, f: nat, d: InodeDisk,
                        ts: seq<Tree>, disk': Disk,
                        files: map<nat, seq<Byte>>, bytes: seq<Byte>)
    requires inodes.Keys == trees.Keys && |ts| == ROOTS && d.length >= 0
    requires forall s :: s in inodes ==> |trees[s]| == ROOTS && inodes[s].length >= 0
    requires files == map s | s in inodes :: FileMap.Contents(inodes[s], disk, trees[s])
    requires FileMap.Contents(d, disk', ts) == bytes
    requires forall r :: r in inodes && r != f ==>
      FileMap.Contents(inodes[r], disk', trees[r]) == FileMap.Contents(inodes[r], disk, trees[r])
    ensures Holds(inodes[f := d], trees[f := ts], disk', files[f := bytes])
  {
    hide FileMap.Contents;
  }

  /** File F has been extended and its inode is written back: the other files are as they were. */
  lemma ExtendedFile(inodes: map<nat, InodeDisk>, trees: map<nat, seq<Tree>>, disk: Disk, used: seq<bool>, fm: set<nat>,
                     f: nat, d1: InodeDisk, ts1: seq<Tree>, newlen: nat, disk1: Disk, used1: seq<bool>)
    requires AllOk(inodes, trees, disk, used, fm) && f in inodes && 0 !in fm && 0 < |used| && used[0]
    requires inodes[f].length <= newlen < 0x8000_0000 && BytesToSectors(newlen) <= MAX_SECTORS
    requires Growing(d1, trees[f], BytesToSectors(inodes[f].length), BytesToSectors(newlen), disk, used, ts1, 125,
                     disk1, used1, fm)
    requires Mapped(d1, ts1, BytesToSectors(newlen), disk1, used1, fm)
    ensures f < |disk1| == |disk| && Encodable(d1.(length := newlen)) && |ts1| == ROOTS && |used| == |used1|
    ensures var d2 := d1.(length := newlen);
            var disk2 := disk1[f := EncodeInode(d2)];
            && AllOk(inodes[f := d2], trees[f := ts1], disk2, used1, fm) && disk2[0] == disk[0]
            && |FileMap.Contents(inodes[f], disk, trees[f])| == inodes[f].length
            && FileMap.Contents(d2, disk2, ts1) == Padded(FileMap.Contents(inodes[f], disk, trees[f]), newlen)
            && (forall r :: r in inodes && r != f ==>
                  && |trees[r]| == ROOTS && inodes[r].length >= 0
                  && FileMap.Contents(inodes[r], disk2, trees[r]) == FileMap.Contents(inodes[r], disk, trees[r]))
    ensures Gains(used, used1, AllSectors(trees[f]), AllSectors(ts1))
  {
    hide Growing, Mapped, FileOk, AllSectors, FileMap.Contents, EncodeInode, Frame;
    var d, ts := inodes[f], trees[f];
    var d2 := d1.(length := newlen);
    FileSectors(f, d, ts, disk, used, fm);
    Extended(f, d, ts, disk, used, d1, ts1, newlen, disk1, used1, fm);
    SectorsGrew(d1, ts, BytesToSectors(d.length), disk, used, ts1, BytesToSectors(newlen), disk1, used1, fm);
    var disk2 := disk1[f := EncodeInode(d2)];
    FrameAtZero(disk, used, disk2, AllSectors(ts) + {f}, fm);
    UpdateFile(inodes, trees, disk, used, fm, f, AllSectors(ts), d2, ts1, disk2, used1);
  }

  lemma NewFileOk(s: nat, d: InodeDisk, ts: seq<Tree>, disk: Disk, used: seq<bool>, fm: set<nat>)
    requires 1 <= s < |used| && used[s] && s !in fm && Encodable(d) && |ts| == ROOTS && s < |disk|
    requires Mapped(d, ts, BytesToSectors(d.length), disk, used, fm) && SlackZero(d, disk, ts)
    requires disk[s] == EncodeInode(d)
    ensures FileOk(s, d, ts, disk, used, fm)
  {
  }

  lemma FrameAtZero(disk: Disk, used: seq<bool>, disk': Disk, mine: set<nat>, fm: set<nat>)
    requires Frame(disk, used, disk', mine, fm) && 0 < |used| && used[0] && 0 !in mine && 0 !in fm
    ensures |disk| == |disk'| && |disk| > 0 && disk'[0] == disk[0]
  {
  }

  lemma FilesUpdated(files: map<nat, seq<Byte>>, before: map<nat, seq<Byte>>, f: nat, bytes: seq<Byte>,
                     inodes: map<nat, InodeDisk>)
    requires before.Keys == inodes.Keys && files.Keys == inodes.Keys + {f} && files[f] == bytes
    requires forall r :: r in inodes && r != f ==> files[r] == before[r]
    ensures files == before[f := bytes]
  {
  }
}
