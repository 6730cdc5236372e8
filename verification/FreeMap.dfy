/** The sector allocator (free-map.c): a bitmap of the sectors in use, written to its own file after
    every change. */
module FreeMap {
  import opened Layout
  import opened Bitmap
  import opened BlockTree
  import opened Growth
  import opened FileMap
  import opened Lookup
  import BufferCache
  import InodeIO

  const FREE_MAP_SECTOR := 0
  const ROOT_DIR_SECTOR := 1

  /** free_map_file: not open while the file system is formatted; otherwise the inode that holds the map
      and its deny_write_cnt. */
  datatype MapFile = Closed | Open(inode: InodeDisk, denyWrite: nat)

  /** The free-map file stores exactly the bits USED: bit I % 8 of its byte I / 8 stands for sector I. */
  ghost predicate Recorded(file: MapFile, ts: seq<Tree>, disk: Disk, used: seq<bool>) {
    file.Open? ==>
      && |ts| == ROOTS && file.inode.length == ByteCnt(|used|)
      && Mapped(file.inode, ts, BytesToSectors(file.inode.length), disk, used, {})
      && (file.denyWrite == 0 ==> Stores(Contents(file.inode, disk, ts), used))
  }

  class Allocator {
    const bits: BitVector
    const cache: BufferCache.Cache
    var file: MapFile
    ghost var ts: seq<Tree>

    ghost predicate Valid()
      reads this, bits.words, cache, cache.slots
    {
      && bits.Valid() && cache.Valid() && bits.words as object != cache.slots as object
      && 2 <= bits.bitCnt < |cache.view| && bits.bitCnt < BITMAP_ERROR
      && bits.Contents()[FREE_MAP_SECTOR] && bits.Contents()[ROOT_DIR_SECTOR]
      && Recorded(file, ts, cache.view, bits.Contents())
    }

    /** The sectors in use. */
    ghost function Used(): (u: seq<bool>)
      requires Valid()
      reads this, bits.words, cache, cache.slots
      ensures |u| == bits.bitCnt
    {
      bits.Contents()
    }

    ghost function Free(): nat
      requires Valid()
      reads this, bits.words, cache, cache.slots
    {
      Count(Used(), false)
    }

    /** The sectors of the free-map file itself. */
    ghost function Own(): set<nat>
      reads this
    {
      if file.Open? then AllSectors(ts) else {}
    }

    /** free_map_init on a device whose blocks are cached by C. */
    constructor (c: BufferCache.Cache)
      requires c.Valid() && 3 <= |c.view| <= 0xFFFF_FFFF
      ensures Valid() && cache == c && fresh(bits) && fresh(bits.words) && file == Closed
      ensures Used() == seq(|c.view| - 1, i => i < 2)
      ensures c.view == old(c.view)
    {
      cache := c;
      bits := new BitVector(|c.disk| - 1);
      file := Closed;
      ts := [];
      new;
      bits.Mark(FREE_MAP_SECTOR);
      bits.Mark(ROOT_DIR_SECTOR);
    }

    /** free_map_open: fetch the inode in sector 0 and load the bits from its file.  If the device records the map
        USED, that is what comes back. */
    method OpenMap(ghost d: InodeDisk, ghost mts: seq<Tree>, ghost used: seq<bool>)
      requires Valid() && file.Closed? && |used| == bits.bitCnt && used[0] && used[1]
      requires Encodable(d) && cache.view[0] == EncodeInode(d) && Recorded(Open(d, 0), mts, cache.view, used)
      modifies this, bits.words, cache, cache.slots
      ensures Valid() && file == Open(d, 0) && ts == mts && Used() == used && cache.view == old(cache.view)
    {
      hide Mapped, FileMap.Contents, FromImage, Flags, EncodeInode, DecodeInode, Stores;
      var block := cache.Read(FREE_MAP_SECTOR);
      InodeRoundTrip(d);
      var inode := DecodeInode(block);
      MappedLocated(d, mts, BytesToSectors(d.length), cache.view, used, {});
      var image := InodeIO.ReadAt(cache, inode, ByteCnt(bits.bitCnt), 0, mts);
      assert image == Contents(d, cache.view, mts);
      StoredFlags(image, used);
      var loaded := bits.Load(image);
      file := Open(inode, 0);
      ts := mts;
    }

    /** num_free_sectors */
    method NumFree() returns (n: nat)
      requires Valid()
      ensures n == Free()
    {
      n := bits.CountBits(0, bits.bitCnt, false);
      assert Used()[0..bits.bitCnt] == Used();
    }

    /** bitmap_write of the free map to its file.  The file has its full length, so the write never extends
        it; it fails only when writing is denied. */
    method Persist() returns (ok: bool)
      requires bits.Valid() && cache.Valid() && bits.words as object != cache.slots as object
      requires 2 <= bits.bitCnt < |cache.view|
      requires file.Open? && |ts| == ROOTS && file.inode.length == ByteCnt(bits.bitCnt)
      requires Mapped(file.inode, ts, BytesToSectors(file.inode.length), cache.view, bits.Contents(), {})
      modifies cache, cache.slots
      ensures bits.Valid() && cache.Valid() && |cache.view| == |old(cache.view)|
      ensures ok == (file.denyWrite == 0)
      ensures !ok ==> cache.view == old(cache.view)
      ensures ok ==> Recorded(file, ts, cache.view, bits.Contents())
      ensures forall s :: 0 <= s < |cache.view| && s !in AllSectors(ts) ==> cache.view[s] == old(cache.view)[s]
    {
      if file.denyWrite > 0 {
        return false;
      }
      var image := Image(bits.words[..]);
      var written := InodeIO.WriteInPlace(cache, file.inode, image, 0, ts, bits.Contents(), {});
      ok := written == ByteCnt(bits.bitCnt);
      assert Contents(file.inode, cache.view, ts) == image;
      ImageStores(bits.words[..], bits.bitCnt);
    }

    /** free_map_allocate: first fit.  If the map cannot be written, the bits are put back. */
    method Allocate(cnt: nat) returns (ok: bool, sector: nat)
      requires Valid()
      modifies bits.words, cache, cache.slots
      ensures Valid() && |cache.view| == |old(cache.view)|
      ensures ok == (CanWrite() && exists k :: Group(old(Used()), k, cnt, false))
      ensures ok ==> Group(old(Used()), sector, cnt, false) && Used() == Filled(old(Used()), sector, cnt, true)
      ensures ok ==> forall k :: 0 <= k < sector ==> !Group(old(Used()), k, cnt, false)
      ensures ok ==> Free() == old(Free()) - cnt
      ensures !ok ==> Used() == old(Used()) && cache.view == old(cache.view)
      ensures forall s :: 0 <= s < |cache.view| && s !in Own() ==> cache.view[s] == old(cache.view)[s]
    {
      hide Mapped, FileMap.Contents, Stores, Flags, Count, AllSectors, SlackClear, BufferCache.Cache.Valid;
      ghost var used := Used();
      sector := bits.ScanAndFlip(0, cnt, false);
      ok := true;
      if sector != BITMAP_ERROR {
        if file.Open? {
          MappedFrame(file.inode, ts, BytesToSectors(file.inode.length), cache.view, used, {}, cache.view,
                      bits.Contents());
          ok := Persist();
          if !ok {
            bits.SetMultiple(sector, cnt, false);
            assert bits.Contents() == used;
          }
        }
      } else {
        ok := false;
      }
    }

    /** buffer_cache_write of a sector outside the free-map file. */
    method Store(sector: nat, data: Sector)
      requires Valid() && sector < |cache.view| && sector !in Own()
      modifies cache, cache.slots
      ensures Valid() && cache.view == old(cache.view)[sector := data]
      ensures Used() == old(Used()) && Free() == old(Free())
    {
      hide BufferCache.Touched;
      ghost var disk, used := cache.view, Used();
      cache.Write(sector, data);
      RecordedFrame(file, ts, disk, used, cache.view);
    }

    /** buffer_cache_read */
    method Fetch(sector: nat) returns (data: Sector)
      requires Valid() && sector < |cache.view|
      modifies cache, cache.slots
      ensures Valid() && cache.view == old(cache.view)
      ensures Used() == old(Used()) && Free() == old(Free())
      ensures data == cache.view[sector]
    {
      hide BufferCache.Touched;
      data := cache.Read(sector);
    }

    /** inode_read_at for an inode other than the free map's. */
    method ReadFile(d: InodeDisk, size: int, offset: int, ghost fts: seq<Tree>) returns (buffer: seq<Byte>)
      requires Valid() && 0 <= d.length && (offset >= 0 || size <= 0)
      requires |fts| == ROOTS && Located(d, fts, BytesToSectors(d.length), cache.view)
      modifies cache, cache.slots
      ensures Valid() && cache.view == old(cache.view) && Used() == old(Used()) && Free() == old(Free())
      ensures buffer == Slice(Contents(d, cache.view, fts), size, offset)
    {
      hide Recorded, Located;
      buffer := InodeIO.ReadAt(cache, d, size, offset, fts);
    }

    /** The test at the head of inode_write_at: does position POS lie outside the file? */
    method PastEnd(d: InodeDisk, pos: int, ghost fts: seq<Tree>) returns (past: bool)
      requires Valid() && 0 <= d.length
      requires |fts| == ROOTS && Mapped(d, fts, BytesToSectors(d.length), cache.view, Used(), Own())
      modifies cache, cache.slots
      ensures Valid() && cache.view == old(cache.view) && Used() == old(Used()) && Free() == old(Free())
      ensures past == !(0 <= pos < d.length)
    {
      hide Recorded, Mapped, Located;
      MappedLocated(d, fts, BytesToSectors(d.length), cache.view, Used(), Own());
      if 0 <= pos < d.length {
        DataInside(d, fts, BytesToSectors(d.length), cache.view, Used(), Own(), pos / 512);
      }
      var sector := InodeIO.ByteToSector(cache, d, pos, fts, BytesToSectors(d.length));
      past := sector == NO_SECTOR;
    }

    /** The writing loop of inode_write_at for an inode other than the free map's. */
    method WriteFile(d: InodeDisk, buffer: seq<Byte>, offset: int, ghost fts: seq<Tree>) returns (written: nat)
      requires Valid() && 0 <= d.length && 0 <= offset && offset + |buffer| <= d.length
      requires |fts| == ROOTS && Mapped(d, fts, BytesToSectors(d.length), cache.view, Used(), Own())
      modifies cache, cache.slots
      ensures Valid() && |cache.view| == |old(cache.view)| && Used() == old(Used()) && Free() == old(Free())
      ensures written == |buffer|
      ensures Mapped(d, fts, BytesToSectors(d.length), cache.view, Used(), Own())
      ensures Raw(cache.view, fts, BytesToSectors(d.length))
           == Patched(Raw(old(cache.view), fts, BytesToSectors(d.length)), offset, buffer)
      ensures forall s :: 0 <= s < |cache.view| && s !in AllSectors(fts) ==> cache.view[s] == old(cache.view)[s]
    {
      hide Recorded, Mapped, AllSectors, Raw;
      ghost var disk, used := cache.view, Used();
      SectorsNotIn(d, fts, BytesToSectors(d.length), disk, used, Own());
      written := InodeIO.WriteInPlace(cache, d, buffer, offset, fts, Used(), Own());
      RecordedFrame(file, ts, disk, used, cache.view);
    }

    lemma Sizes()
      requires Valid()
      ensures 2 <= |Used()| == bits.bitCnt < |cache.view| && |Used()| < 0xFFFF_FFFF && Free() == Count(Used(), false)
      ensures Used()[0] && Used()[1] && Recorded(file, ts, cache.view, Used())
    {
    }

    /** The reserved sectors do not belong to the free-map file. */
    lemma OwnSectors()
      requires Valid()
      ensures forall s :: s in Own() ==> 2 <= s < |Used()| && Used()[s]
    {
      forall s | s in Own()
        ensures Usable(s, Used(), {})
      {
        var j :| 0 <= j < |ts| && s in Sectors(ts[j]);
        var n := BytesToSectors(file.inode.length);
        assert Good(ts[j], RootLevels()[j], RootCounts(n, 0, 0)[j], cache.view, Used(), {});
      }
    }

    /** Whether bitmap_write succeeds. */
    ghost predicate CanWrite()
      reads this
    {
      file.Open? ==> file.denyWrite == 0
    }

    /** free_map_release: the sectors must be in use, which is what the assertion there checks. */
    method Release(sector: nat, cnt: nat)
      requires Valid() && file.Open?
      requires 2 <= sector && Group(Used(), sector, cnt, true)
      requires forall s :: sector <= s < sector + cnt ==> s !in Own()
      modifies bits.words, cache, cache.slots
      ensures Valid() && |cache.view| == |old(cache.view)|
      ensures Used() == Filled(old(Used()), sector, cnt, false)
      ensures Free() == old(Free()) + cnt
      ensures forall s :: 0 <= s < |cache.view| && s !in Own() ==> cache.view[s] == old(cache.view)[s]
    {
      hide Mapped, FileMap.Contents, Stores, Flags, Count, SlackClear, BufferCache.Cache.Valid;
      ghost var used := Used();
      var someFree := bits.Contains(sector, cnt, false);
      assert !someFree;
      CountFilled(used, sector, cnt, false);
      bits.SetMultiple(sector, cnt, false);
      assert forall s :: s in AllSectors(ts) ==> s in Own();
      MappedFrame(file.inode, ts, BytesToSectors(file.inode.length), cache.view, used, {}, cache.view, bits.Contents());
      var ok := Persist();
    }
  }

  lemma RecordedFrame(file: MapFile, ts: seq<Tree>, disk: Disk, used: seq<bool>, disk': Disk)
    requires Recorded(file, ts, disk, used) && |disk| == |disk'|
    requires file.Open? ==> forall s :: 0 <= s < |disk| && s in AllSectors(ts) ==> disk'[s] == disk[s]
    ensures Recorded(file, ts, disk', used)
  {
    if file.Open? {
      var n := BytesToSectors(file.inode.length);
      AllIndexWithin(ts);
      MappedFrame(file.inode, ts, n, disk, used, {}, disk', used);
      forall i | 0 <= i < n
        ensures SectorOrZeros(disk', DataAt(ts, i)) == SectorOrZeros(disk, DataAt(ts, i))
      {
        DataInside(file.inode, ts, n, disk, used, {}, i);
      }
      RawFrame(disk, disk', ts, n);
    }
  }

  lemma SectorsNotIn(d: InodeDisk, ts: seq<Tree>, n: nat, disk: Disk, used: seq<bool>, fm: set<nat>)
    requires Mapped(d, ts, n, disk, used, fm)
    ensures forall s :: s in AllSectors(ts) ==> s !in fm
  {
    forall s | s in AllSectors(ts)
      ensures s !in fm
    {
      var j :| 0 <= j < |ts| && s in Sectors(ts[j]);
      RootGood(d, ts, n, disk, used, fm, j);
    }
  }

}
