/** Block lookup and the chunked read and write loops of inode.c, over the buffer cache. */
module InodeIO {
  import opened Layout
  import opened BlockTree
  import opened Growth
  import opened FileMap
  import opened Lookup
  import BufferCache

  /** The three tiers of the index, each read straight off the device. */
  lemma DirectTier(d: InodeDisk, ts: seq<Tree>, n: nat, disk: Disk, i: nat)
    requires Located(d, ts, n, disk) && i < n && i < INDIRECT_BASE
    ensures d.direct[i] == DataAt(ts, i) < |disk|
  {
    BlockLeads(d, ts, n, disk, i);
  }

  lemma IndirectTier(d: InodeDisk, ts: seq<Tree>, n: nat, disk: Disk, i: nat)
    requires Located(d, ts, n, disk) && INDIRECT_BASE <= i < n && i < DOUBLY_BASE
    ensures d.indirect < |disk| && DecodePointers(disk[d.indirect])[i - INDIRECT_BASE] == DataAt(ts, i) < |disk|
  {
    hide DecodePointers, RootFound;
    BlockLeads(d, ts, n, disk, i);
    LeadsOnce(disk, d.indirect, i - INDIRECT_BASE, DataAt(ts, i));
  }

  lemma DoublyTier(d: InodeDisk, ts: seq<Tree>, n: nat, disk: Disk, i: nat)
    requires Located(d, ts, n, disk) && DOUBLY_BASE <= i < n
    ensures (i - DOUBLY_BASE) / FANOUT < FANOUT
    ensures d.doubly < |disk| && DecodePointers(disk[d.doubly])[(i - DOUBLY_BASE) / FANOUT] < |disk|
    ensures DecodePointers(disk[DecodePointers(disk[d.doubly])[(i - DOUBLY_BASE) / FANOUT]])[(i - DOUBLY_BASE) % FANOUT]
         == DataAt(ts, i) < |disk|
  {
    hide DecodePointers, RootFound;
    var first, second := (i - DOUBLY_BASE) / FANOUT, (i - DOUBLY_BASE) % FANOUT;
    BlockLeads(d, ts, n, disk, i);
    assert Leads(disk, DecodePointers(disk[d.doubly])[first], 1, second, DataAt(ts, i));
    LeadsOnce(disk, DecodePointers(disk[d.doubly])[first], second, DataAt(ts, i));
  }

  lemma LeadsOnce(disk: Disk, e: nat, i: nat, s: nat)
    requires Leads(disk, e, 1, i, s)
    ensures e < |disk| && i < FANOUT && DecodePointers(disk[e])[i] == s
  {
    hide DecodePointers;
    assert i / 1 == i && i % 1 == 0;
    assert Leads(disk, DecodePointers(disk[e])[i], 0, 0, s);
  }

  /** index_to_sector */
  method IndexToSector(cache: BufferCache.Cache, d: InodeDisk, index: nat, ghost ts: seq<Tree>, ghost n: nat)
    returns (r: Word)
    requires cache.Valid() && Located(d, ts, n, cache.view)
    requires index < n || MAX_SECTORS <= index
    modifies cache, cache.slots
    ensures cache.Valid() && cache.view == old(cache.view)
    ensures r == if index < n then DataAt(ts, index) else NO_SECTOR
  {
    hide BufferCache.Touched, BufferCache.Cache.Valid, RootFound, DataAt;
    var base := 0;
    var limit := DIRECT;
    if index < limit {
      DirectTier(d, ts, n, cache.view, index);
      return d.direct[index];
    }
    base := limit;
    limit := limit + FANOUT;
    if index < limit {
      IndirectTier(d, ts, n, cache.view, index);
      var block := cache.Read(d.indirect);
      return DecodePointers(block)[index - base];
    }
    base := limit;
    limit := limit + FANOUT * FANOUT;
    if index < limit {
      DoublyTier(d, ts, n, cache.view, index);
      var first, second := (index - base) / FANOUT, (index - base) % FANOUT;
      var block := cache.Read(d.doubly);
      block := cache.Read(DecodePointers(block)[first]);
      return DecodePointers(block)[second];
    }
    return NO_SECTOR;
  }

  /** byte_to_sector */
  method ByteToSector(cache: BufferCache.Cache, d: InodeDisk, pos: int, ghost ts: seq<Tree>, ghost n: nat)
    returns (r: Word)
    requires cache.Valid() && Located(d, ts, n, cache.view) && 0 <= d.length <= 512 * n
    modifies cache, cache.slots
    ensures cache.Valid() && cache.view == old(cache.view)
    ensures r == if 0 <= pos < d.length then DataAt(ts, pos / 512) else NO_SECTOR
  {
    hide BufferCache.Touched, BufferCache.Cache.Valid, RootFound, DataAt;
    if 0 <= pos < d.length {
      r := IndexToSector(cache, d, pos / 512, ts, n);
    } else {
      r := NO_SECTOR;
    }
  }

  /** The chunk that starts at OFFSET lies in one sector: it is a piece of that sector's data. */
  lemma ChunkOfRaw(disk: Disk, ts: seq<Tree>, n: nat, p: nat, len: nat)
    requires |ts| == ROOTS && p < 512 * n && p % 512 + len <= 512
    ensures p + len <= 512 * n
    ensures Raw(disk, ts, n)[p..p + len] == SectorOrZeros(disk, DataAt(ts, p / 512))[p % 512..p % 512 + len]
  {
    var raw, sec := Raw(disk, ts, n), SectorOrZeros(disk, DataAt(ts, p / 512));
    forall q | p <= q < p + len
      ensures raw[q] == sec[q - 512 * (p / 512)]
    {
      assert q / 512 == p / 512;
    }
  }

  lemma BlockOf(d: InodeDisk, disk: Disk, ts: seq<Tree>, pos: nat)
    requires 0 <= pos < d.length && |ts| == ROOTS && Located(d, ts, BytesToSectors(d.length), disk)
    ensures pos < 512 * BytesToSectors(d.length) && pos / 512 < BytesToSectors(d.length)
    ensures DataAt(ts, pos / 512) < |disk| && SectorOrZeros(disk, DataAt(ts, pos / 512)) == disk[DataAt(ts, pos / 512)]
  {
    BlockLeads(d, ts, BytesToSectors(d.length), disk, pos / 512);
  }

  /** One round of the loop of inode_read_at. */
  method ReadChunk(cache: BufferCache.Cache, d: InodeDisk, left: int, pos: int, ghost ts: seq<Tree>)
    returns (chunk: seq<Byte>)
    requires cache.Valid() && 0 <= d.length && pos >= 0
    requires |ts| == ROOTS && Located(d, ts, BytesToSectors(d.length), cache.view)
    modifies cache, cache.slots
    ensures cache.Valid() && cache.view == old(cache.view)
    ensures |chunk| > 0 <==> left > 0 && pos < d.length
    ensures |chunk| > 0 ==> |chunk| <= left && pos + |chunk| <= d.length
    ensures |chunk| > 0 ==> chunk == Raw(cache.view, ts, BytesToSectors(d.length))[pos..pos + |chunk|]
  {
    hide *;
    ghost var n := BytesToSectors(d.length);
    var sector := ByteToSector(cache, d, pos, ts, n);
    var ofs := pos % 512;
    var inodeLeft := d.length - pos;
    var sectorLeft := 512 - ofs;
    var minLeft := if inodeLeft < sectorLeft then inodeLeft else sectorLeft;
    var size := if left < minLeft then left else minLeft;
    if size <= 0 {
      return [];
    }
    BlockOf(d, cache.view, ts, pos);
    ChunkOfRaw(cache.view, ts, n, pos, size);
    if ofs == 0 && size == 512 {
      chunk := cache.Read(sector);
      assert chunk[0..512] == chunk;
    } else {
      var bounce := cache.Read(sector);
      chunk := bounce[ofs..ofs + size];
    }
  }

  /** inode_read_at: up to SIZE bytes from OFFSET, cut off at the end of the file. */
  method ReadAt(cache: BufferCache.Cache, d: InodeDisk, size: int, offset: int, ghost ts: seq<Tree>)
    returns (buffer: seq<Byte>)
    requires cache.Valid() && 0 <= d.length && (offset >= 0 || size <= 0)
    requires |ts| == ROOTS && Located(d, ts, BytesToSectors(d.length), cache.view)
    modifies cache, cache.slots
    ensures cache.Valid() && cache.view == old(cache.view)
    ensures buffer == Slice(Contents(d, cache.view, ts), size, offset)
  {
    hide *;
    buffer := [];
    ghost var raw := Raw(cache.view, ts, BytesToSectors(d.length));
    var left, pos := size, offset;
    while left > 0
      invariant cache.Valid() && cache.view == old(cache.view)
      invariant pos == offset + |buffer| && left == size - |buffer|
      invariant size > 0 ==> pos >= 0
      invariant |buffer| > 0 ==> pos <= d.length && left >= 0 && buffer == raw[offset..pos]
      decreases left
    {
      var chunk := ReadChunk(cache, d, left, pos, ts);
      if |chunk| == 0 {
        break;
      }
      assert raw[offset..pos] + raw[pos..pos + |chunk|] == raw[offset..pos + |chunk|];
      buffer := buffer + chunk;
      left := left - |chunk|;
      pos := pos + |chunk|;
    }
    ReadResult(d, cache.view, ts, size, offset, buffer);
  }

  lemma ReadResult(d: InodeDisk, disk: Disk, ts: seq<Tree>, size: int, offset: int, buffer: seq<Byte>)
    requires |ts| == ROOTS && d.length >= 0 && (offset >= 0 || size <= 0)
    requires |buffer| > 0 ==>
      && offset + |buffer| <= d.length && |buffer| <= size
      && buffer == Raw(disk, ts, BytesToSectors(d.length))[offset..offset + |buffer|]
    requires |buffer| < size ==> d.length <= offset + |buffer|
    ensures buffer == Slice(Contents(d, disk, ts), size, offset)
  {
  }

  /** One round of the loop of inode_write_at: write a leading part of REST at POS. */
  method WriteChunk(cache: BufferCache.Cache, d: InodeDisk, rest: seq<Byte>, pos: int, ghost ts: seq<Tree>,
                    ghost used: seq<bool>, ghost fm: set<nat>)
    returns (size: int)
    requires cache.Valid() && 0 <= d.length && 0 <= pos && |rest| > 0 && pos + |rest| <= d.length
    requires |ts| == ROOTS && Mapped(d, ts, BytesToSectors(d.length), cache.view, used, fm)
    modifies cache, cache.slots
    ensures cache.Valid() && 0 < size <= |rest|
    ensures Mapped(d, ts, BytesToSectors(d.length), cache.view, used, fm)
    ensures pos + size <= 512 * BytesToSectors(d.length)
    ensures Raw(cache.view, ts, BytesToSectors(d.length))
         == Patched(Raw(old(cache.view), ts, BytesToSectors(d.length)), pos, rest[..size])
    ensures |cache.view| == |old(cache.view)|
    ensures forall s :: 0 <= s < |cache.view| && s !in AllSectors(ts) ==> cache.view[s] == old(cache.view)[s]
  {
    hide *;
    ghost var n := BytesToSectors(d.length);
    ghost var disk := cache.view;
    MappedLocated(d, ts, n, disk, used, fm);
    var sector := ByteToSector(cache, d, pos, ts, n);
    var ofs := pos % 512;
    var inodeLeft := d.length - pos;
    var sectorLeft := 512 - ofs;
    var minLeft := if inodeLeft < sectorLeft then inodeLeft else sectorLeft;
    size := if |rest| < minLeft then |rest| else minLeft;
    WriteBlock(d, disk, ts, used, fm, pos, rest[..size]);
    if ofs == 0 && size == 512 {
      PatchWhole(disk[sector], rest[..size]);
      cache.Write(sector, rest[..size]);
    } else {
      var bounce: seq<Byte>;
      if ofs > 0 || size < sectorLeft {
        bounce := cache.Read(sector);
      } else {
        bounce := ZERO_SECTOR;
      }
      cache.Write(sector, Patched(bounce, ofs, rest[..size]));
    }
  }

  lemma PatchWhole(sector: Sector, chunk: seq<Byte>)
    requires |chunk| == 512
    ensures Patched(sector, 0, chunk) == chunk
  {
  }

  lemma WriteBlock(d: InodeDisk, disk: Disk, ts: seq<Tree>, used: seq<bool>, fm: set<nat>, pos: nat, chunk: seq<Byte>)
    requires 0 <= pos < d.length && |ts| == ROOTS && Mapped(d, ts, BytesToSectors(d.length), disk, used, fm)
    requires pos % 512 + |chunk| <= 512 && pos + |chunk| <= d.length
    ensures pos / 512 < BytesToSectors(d.length) && pos + |chunk| <= 512 * BytesToSectors(d.length)
    ensures DataAt(ts, pos / 512) < |disk| && DataAt(ts, pos / 512) in AllSectors(ts)
    ensures var disk' := disk[DataAt(ts, pos / 512) := Patched(disk[DataAt(ts, pos / 512)], pos % 512, chunk)];
            && Raw(disk', ts, BytesToSectors(d.length)) == Patched(Raw(disk, ts, BytesToSectors(d.length)), pos, chunk)
            && Mapped(d, ts, BytesToSectors(d.length), disk', used, fm)
  {
    DataInside(d, ts, BytesToSectors(d.length), disk, used, fm, pos / 512);
    RawWrite(d, ts, BytesToSectors(d.length), disk, used, fm, pos / 512, pos % 512, chunk);
  }

  lemma PatchTwice(raw: seq<Byte>, p: nat, buffer: seq<Byte>, m: nat, size: nat)
    requires p + |buffer| <= |raw| && m + size <= |buffer|
    ensures Patched(Patched(raw, p, buffer[..m]), p + m, buffer[m..][..size]) == Patched(raw, p, buffer[..m + size])
  {
  }

  /** The loop of inode_write_at, for bytes that lie within the file: exactly the bytes from OFFSET on are
      replaced, and no sector of any other file is touched. */
  method WriteInPlace(cache: BufferCache.Cache, d: InodeDisk, buffer: seq<Byte>, offset: int, ghost ts: seq<Tree>,
                      ghost used: seq<bool>, ghost fm: set<nat>)
    returns (written: nat)
    requires cache.Valid() && 0 <= d.length && 0 <= offset && offset + |buffer| <= d.length
    requires |ts| == ROOTS && Mapped(d, ts, BytesToSectors(d.length), cache.view, used, fm)
    modifies cache, cache.slots
    ensures cache.Valid() && written == |buffer|
    ensures Mapped(d, ts, BytesToSectors(d.length), cache.view, used, fm)
    ensures Raw(cache.view, ts, BytesToSectors(d.length))
         == Patched(Raw(old(cache.view), ts, BytesToSectors(d.length)), offset, buffer)
    ensures |cache.view| == |old(cache.view)|
    ensures forall s :: 0 <= s < |cache.view| && s !in AllSectors(ts) ==> cache.view[s] == old(cache.view)[s]
  {
    hide *;
    written := 0;
    ghost var n := BytesToSectors(d.length);
    ghost var raw := Raw(cache.view, ts, n);
    PatchNothing(raw, offset);
    assert buffer[..0] == [];
    while written < |buffer|
      invariant written <= |buffer|
      invariant cache.Valid() && Mapped(d, ts, n, cache.view, used, fm)
      invariant Raw(cache.view, ts, n) == Patched(raw, offset, buffer[..written])
      invariant |cache.view| == |old(cache.view)|
      invariant forall s :: 0 <= s < |cache.view| && s !in AllSectors(ts) ==> cache.view[s] == old(cache.view)[s]
    {
      var size := WriteChunk(cache, d, buffer[written..], offset + written, ts, used, fm);
      PatchTwice(raw, offset, buffer, written, size);
      written := written + size;
    }
    assert buffer[..written] == buffer;
  }

  lemma PatchNothing(raw: seq<Byte>, p: nat)
    requires p <= |raw|
    ensures Patched(raw, p, []) == raw
  {
  }

  /** The copying loops of get_inode_data_sectors. */
  method CopyPointers(sectors: seq<Word>, ptrs: seq<Word>, count: nat) returns (r: seq<Word>)
    requires count <= |ptrs|
    ensures r == sectors + ptrs[..count]
  {
    r := sectors;
    for i := 0 to count
      invariant r == sectors + ptrs[..i]
    {
      r := r + [ptrs[i]];
    }
  }

  ghost predicate Lists(sectors: seq<Word>, ts: seq<Tree>) {
    |ts| == ROOTS && forall i :: 0 <= i < |sectors| ==> sectors[i] == DataAt(ts, i)
  }

  lemma DirectRow(d: InodeDisk, ts: seq<Tree>, n: nat, disk: Disk)
    requires Located(d, ts, n, disk)
    ensures |d.direct| == 123 && Lists(d.direct[..Min(n, 123)], ts)
  {
    forall i | 0 <= i < Min(n, 123) ensures d.direct[i] == DataAt(ts, i) {
      DirectTier(d, ts, n, disk, i);
    }
  }

  lemma IndirectRow(d: InodeDisk, ts: seq<Tree>, n: nat, disk: Disk, sectors: seq<Word>)
    requires Located(d, ts, n, disk) && 123 < n && |sectors| == 123 && Lists(sectors, ts)
    ensures d.indirect < |disk| && Lists(sectors + DecodePointers(disk[d.indirect])[..Min(n - 123, 128)], ts)
  {
    hide Located, DataAt, DecodePointers;
    IndirectTier(d, ts, n, disk, 123);
    forall i | 0 <= i < Min(n - 123, 128) ensures DecodePointers(disk[d.indirect])[i] == DataAt(ts, 123 + i) {
      IndirectTier(d, ts, n, disk, 123 + i);
    }
  }

  lemma DoublyRow(d: InodeDisk, ts: seq<Tree>, n: nat, disk: Disk, sectors: seq<Word>, r: nat)
    requires Located(d, ts, n, disk) && 251 + 128 * r < n && |sectors| == 251 + 128 * r && Lists(sectors, ts)
    ensures r < 128 && d.doubly < |disk| && DecodePointers(disk[d.doubly])[r] < |disk|
    ensures Lists(sectors + DecodePointers(disk[DecodePointers(disk[d.doubly])[r]])[..Min(n - |sectors|, 128)], ts)
  {
    hide Located, DataAt, DecodePointers;
    DoublyTier(d, ts, n, disk, 251 + 128 * r);
    var row := DecodePointers(disk[DecodePointers(disk[d.doubly])[r]])[..Min(n - |sectors|, 128)];
    forall i | 0 <= i < |row| ensures row[i] == DataAt(ts, 251 + 128 * r + i) {
      DoublyTier(d, ts, n, disk, 251 + 128 * r + i);
      assert (128 * r + i) / 128 == r && (128 * r + i) % 128 == i;
    }
  }

  /** get_inode_data_sectors: the nested loops list the same sectors as the lookup. */
  method DataSectors(cache: BufferCache.Cache, d: InodeDisk, ghost ts: seq<Tree>)
    returns (sectors: seq<Word>)
    requires cache.Valid() && 0 <= d.length && Located(d, ts, BytesToSectors(d.length), cache.view)
    modifies cache, cache.slots
    ensures cache.Valid() && cache.view == old(cache.view)
    ensures |sectors| == BytesToSectors(d.length) && |ts| == ROOTS
    ensures forall i :: 0 <= i < |sectors| ==> sectors[i] == DataAt(ts, i)
  {
    hide BufferCache.Touched, BufferCache.Cache.Valid, RootFound, DataAt;
    var num := BytesToSectors(d.length);
    ghost var n := num;
    var l := Min(num, DIRECT);
    DirectRow(d, ts, n, cache.view);
    sectors := CopyPointers([], d.direct, l);
    num := num - l;
    l := Min(num, FANOUT);
    if l > 0 {
      IndirectRow(d, ts, n, cache.view, sectors);
      var block := cache.Read(d.indirect);
      sectors := CopyPointers(sectors, DecodePointers(block), l);
      num := num - l;
    }
    l := Min(num, FANOUT * FANOUT);
    if l > 0 {
      sectors := DoublySectors(cache, d, l, sectors, ts, n);
    }
  }

  /** The doubly indirect part of get_inode_data_sectors. */
  method DoublySectors(cache: BufferCache.Cache, d: InodeDisk, count: nat, start: seq<Word>, ghost ts: seq<Tree>,
                       ghost n: nat)
    returns (sectors: seq<Word>)
    requires cache.Valid() && Located(d, ts, n, cache.view) && count >= 1 && 251 + count == n
    requires |start| == 251 && Lists(start, ts)
    modifies cache, cache.slots
    ensures cache.Valid() && cache.view == old(cache.view)
    ensures |sectors| == n && Lists(sectors, ts)
  {
    hide *;
    sectors := start;
    DoublyRow(d, ts, n, cache.view, sectors, 0);
    var block := cache.Read(d.doubly);
    var l2 := (count + 127) / 128;
    var left := count;
    for i := 0 to l2
      invariant cache.Valid() && cache.view == old(cache.view)
      invariant left == if 128 * i <= count then count - 128 * i else 0
      invariant |sectors| == n - left && Lists(sectors, ts)
    {
      var subsize := Min(left, 128);
      MinIs(left, 128);
      DoublyRow(d, ts, n, cache.view, sectors, i);
      var block2 := cache.Read(DecodePointers(block)[i]);
      sectors := CopyPointers(sectors, DecodePointers(block2), subsize);
      left := left - subsize;
    }
  }
}
