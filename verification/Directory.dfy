/** Directories (directory.c): a table of fixed-size slots in a file, over the file system. */
module Directory {
  import opened Layout
  import opened DirTable
  import FileMap
  import FileStore
  import FileSystem
  import Bitmap
  import Reserve

  /** A slot written at its offset replaces that slot, or is appended. */
  lemma TableWritten(bytes: seq<Byte>, k: nat, s: Slot)
    requires k <= |bytes| / 36 && |s.name| == 31
    ensures Table(FileStore.Written(bytes, 36 * k, EncodeSlot(s))) == SetSlot(Table(bytes), k, s)
  {
    hide DecodeSlot, EncodeSlot, FileStore.Written;
    var after := FileStore.Written(bytes, 36 * k, EncodeSlot(s));
    var t, r := Table(after), SetSlot(Table(bytes), k, s);
    assert |t| == |r|;
    forall i | 0 <= i < |t|
      ensures t[i] == r[i]
    {
      if i == k {
        assert after[36 * i..36 * i + 36] == EncodeSlot(s);
        SlotRoundTrip(s);
      } else {
        OtherSlot(bytes, k, EncodeSlot(s), i);
      }
    }
  }

  /** Writing slot K does not change the bytes of slot I. */
  lemma OtherSlot(bytes: seq<Byte>, k: nat, slot: seq<Byte>, i: nat)
    requires k <= |bytes| / 36 && |slot| == 36 && i != k && 36 * i + 36 <= |FileStore.Written(bytes, 36 * k, slot)|
    ensures 36 * i + 36 <= |bytes|
    ensures FileStore.Written(bytes, 36 * k, slot)[36 * i..36 * i + 36] == bytes[36 * i..36 * i + 36]
  {
    hide FileStore.Written;
  }

  lemma SlotRead(bytes: seq<Byte>, i: nat)
    ensures |FileMap.Slice(bytes, 36, 36 * i)| == 36 <==> i < |Table(bytes)|
    ensures i < |Table(bytes)| ==>
      |FileMap.Slice(bytes, 36, 36 * i)| == 36 && DecodeSlot(FileMap.Slice(bytes, 36, 36 * i)) == Table(bytes)[i]
  {
  }

  /** struct dir */
  class Dir {
    const fs: FileSystem.FileSystem
    const inode: nat
    /** The slot `pos` stands at. */
    var pos: nat

    ghost predicate Valid()
      reads fs, fs.fm, fs.fm.bits.words, fs.fm.cache, fs.fm.cache.slots
    {
      fs.Valid() && inode in fs.inodes && TableOk(Slots())
    }

    ghost function Slots(): seq<Slot>
      requires fs.Valid() && inode in fs.inodes
      reads fs, fs.fm, fs.fm.bits.words, fs.fm.cache, fs.fm.cache.slots
    {
      Table(fs.Files()[inode])
    }

    /** dir_open: the position skips the parent entry. */
    constructor (f: FileSystem.FileSystem, sector: nat)
      ensures fs == f && inode == sector && pos == 1
    {
      fs, inode, pos := f, sector, 1;
    }

    /** inode_read_at of one slot. */
    method ReadSlot(i: nat) returns (got: bool, e: Slot)
      requires fs.Valid() && inode in fs.inodes
      modifies fs.fm.cache, fs.fm.cache.slots
      ensures fs.Valid() && inode in fs.inodes && fs.Files() == old(fs.Files()) && Slots() == old(Slots())
      ensures fs.fm.Valid() && fs.fm.Free() == old(fs.fm.Free()) && fs.fm.Used() == old(fs.fm.Used())
      ensures got == (i < |Slots()|) && (got ==> e == Slots()[i])
    {
      hide *;
      SlotsAre();
      var buffer := fs.ReadAt(inode, 36, 36 * i);
      SlotsAre();
      SlotRead(fs.Files()[inode], i);
      got := |buffer| == 36;
      e := if got then DecodeSlot(buffer) else Slot(0, [], false);
    }

    lemma SlotsAre()
      requires fs.Valid() && inode in fs.inodes
      ensures inode in fs.Files() && Slots() == Table(fs.Files()[inode])
    {
    }

    /** lookup: the slot that holds NAME, if there is one. */
    method Lookup(name: Name) returns (found: bool, e: Slot, k: nat)
      requires Valid()
      modifies fs.fm.cache, fs.fm.cache.slots
      ensures Valid() && fs.Files() == old(fs.Files()) && Slots() == old(Slots())
      ensures fs.fm.Valid() && fs.fm.Free() == old(fs.fm.Free()) && fs.fm.Used() == old(fs.fm.Used())
      ensures found == (name in Entries(Slots())) && (found ==> Entries(Slots())[name] == e.sector)
      ensures found ==> k == FindName(Slots(), name, 1) < |Slots()| && e == Slots()[k]
      ensures !found ==> FindName(Slots(), name, 1) == |Slots()|
    {
      hide *;
      ValidIs();
      ghost var t := Slots();
      TableNonEmpty(t);
      LookupIsMembership(t, name);
      k := 1;
      while true
        invariant fs.Valid() && inode in fs.inodes && fs.Files() == old(fs.Files()) && Slots() == t
        invariant fs.fm.Valid() && fs.fm.Free() == old(fs.fm.Free()) && fs.fm.Used() == old(fs.fm.Used())
        invariant 1 <= k <= |t| && FindName(t, name, k) == FindName(t, name, 1)
        decreases |t| - k
      {
        var got;
        got, e := ReadSlot(k);
        FindStep(t, name, k);
        if !got {
          found := false;
          break;
        }
        if e.inUse && CString(e.name) == name {
          found := true;
          break;
        }
        k := k + 1;
      }
      ValidNow();
    }

    lemma LengthIs()
      requires fs.Valid() && inode in fs.inodes
      ensures inode in fs.Files() && |fs.Files()[inode]| == fs.inodes[inode].length <= 8517120
      ensures forall n :: n <= fs.inodes[inode].length ==> FileSystem.Fits(fs.inodes[inode].length, n, fs.fm.Free())
    {
    }

    lemma ValidIs()
      requires Valid()
      ensures fs.Valid() && fs.fm.Valid() && inode in fs.inodes && TableOk(Slots())
    {
    }

    lemma ValidNow()
      requires fs.Valid() && inode in fs.inodes && TableOk(Slots())
      ensures Valid()
    {
    }

    /** inode_write_at of one slot. */
    method WriteSlot(k: nat, e: Slot) returns (ok: bool)
      requires fs.Valid() && inode in fs.inodes && k <= |Slots()| && |e.name| == 31 && !fs.Denied(inode)
      modifies fs`inodes, fs`trees, fs.fm.bits.words, fs.fm.cache, fs.fm.cache.slots
      ensures ok == FileSystem.Fits(old(fs.inodes[inode].length), 36 * k + 36, old(fs.fm.Free()))
      ensures ok ==> fs.Valid() && inode in fs.inodes && Slots() == SetSlot(old(Slots()), k, e)
      ensures ok ==>
        fs.Files() == old(fs.Files())[inode := FileStore.Written(old(fs.Files())[inode], 36 * k, EncodeSlot(e))]
      ensures KindsKept(old(fs.inodes), fs.inodes, {inode})
      ensures ok && 36 * k + 36 <= |old(fs.Files())[inode]| ==>
        fs.fm.Free() == old(fs.fm.Free()) && fs.fm.Used() == old(fs.fm.Used())
      ensures fs.fm.Valid() && (ok && old(fs.NoLeaks()) ==> fs.NoLeaks())
      ensures !ok ==> fs.AfterRefusal(inode, 36 * k + 36, old(fs.Files()), old(fs.fm.Used()), old(fs.fm.Free()))
    {
      hide *;
      fs.ValidParts();
      SlotsAre();
      LengthIs();
      EncodedSize(e);
      TableSize(fs.Files()[inode]);
      TableWritten(fs.Files()[inode], k, e);
      ghost var before := fs.inodes;
      var written := fs.WriteAt(inode, EncodeSlot(e), 36 * k);
      OneKind(before, fs.inodes, inode);
      ok := written == 36;
      if ok {
        SlotsAre();
        fs.ValidParts();
      }
    }

    /** A directory, other than this one, with room for its parent entry; JUNK is what the name in the entry for
        the parent happens to hold. */
    ghost predicate Child(sector: nat, junk: seq<Byte>)
      requires fs.Valid()
      reads fs, fs.fm, fs.fm.bits.words, fs.fm.cache, fs.fm.cache.slots
    {
      && sector in fs.inodes && sector != inode && !fs.Denied(sector) && |junk| == 31
      && |fs.Files()[sector]| >= 36
    }

    lemma ChildIs(sector: nat, junk: seq<Byte>)
      requires fs.Valid() && Child(sector, junk)
      ensures sector in fs.inodes && sector != inode && !fs.Denied(sector) && |junk| == 31
      ensures sector in fs.Files() && |fs.Files()[sector]| >= 36
    {
    }

    /** The part of dir_add for a subdirectory: its parent entry is set, and its other entries stay. */
    method SetParent(sector: nat, junk: seq<Byte>)
      requires Valid() && Child(sector, junk)
      modifies fs`inodes, fs`trees, fs.fm.bits.words, fs.fm.cache, fs.fm.cache.slots
      ensures Valid() && fs.fm.Valid() && fs.fm.Free() == old(fs.fm.Free()) && (old(fs.NoLeaks()) ==> fs.NoLeaks())
      ensures fs.Files() == old(fs.Files())[sector := WithParent(old(fs.Files())[sector], inode, junk)]
      ensures KindsKept(old(fs.inodes), fs.inodes, {sector})
      ensures Slots() == old(Slots()) && fs.fm.Used() == old(fs.fm.Used())
      ensures HasParent(Table(old(fs.Files())[sector]), Table(fs.Files()[sector]), inode)
    {
      hide *;
      ValidIs();
      ChildIs(sector, junk);
      SlotsAre();
      KeysAre(fs);
      fs.SectorOf(inode);
      var child := new Dir(fs, sector);
      child.SlotsAre();
      ghost var t, files := child.Slots(), fs.Files();
      TableSize(files[sector]);
      child.LengthIs();
      ParentSet(t, Slot(inode, junk, true));
      var ok := child.WriteSlot(0, Slot(inode, junk, true));
      child.SlotsAre();
      SlotsAre();
      KeysAre(fs);
      WithParentIs(files[sector], inode, junk);
      ValidNow();
    }

    /** dir_add: a valid new name is put into the first free slot, or a new one at the end; this can fail only for
        lack of free sectors.  A subdirectory gets its parent entry. */
    method Add(name: Name, sector: Word, isDir: bool, junk: seq<Byte>) returns (ok: bool)
      requires Valid() && 0 !in name && !fs.Denied(inode) && (isDir ==> Child(sector, junk))
      modifies fs`inodes, fs`trees, fs.fm.bits.words, fs.fm.cache, fs.fm.cache.slots
      ensures fs.fm.Valid() && ok == CanAdd(old(Slots()), name, |old(fs.Files())[inode]|, old(fs.fm.Free()))
      ensures !NewEntry(old(Slots()), name) ==>
        && Valid() && fs.Files() == old(fs.Files()) && fs.inodes == old(fs.inodes) && fs.trees == old(fs.trees)
        && fs.fm.Used() == old(fs.fm.Used()) && fs.fm.Free() == old(fs.fm.Free())
      ensures ok ==> Valid() && Slots() == SlotsAfter(old(Slots()), DirOp.Add(name, sector))
      ensures ok ==> Entries(Slots()) == old(Entries(Slots()))[name := sector]
      ensures ok ==> AddedFiles(old(fs.Files()), fs.Files(), inode, name, sector, isDir, junk)
      ensures KindsKept(old(fs.inodes), fs.inodes, Touched(inode, sector, isDir))
      ensures ok && isDir ==> GetsParent(old(fs.Files()), fs.Files(), sector, inode)
      ensures ok && old(fs.NoLeaks()) ==> fs.NoLeaks()
      ensures !ok && NewEntry(old(Slots()), name) ==>
        fs.AfterRefusal(inode, SlotEnd(old(Slots())), ParentFiles(old(fs.Files()), inode, sector, isDir, junk),
                        old(fs.fm.Used()), old(fs.fm.Free()))
    {
      hide *;
      ValidIs();
      SlotsAre();
      KeysAre(fs);
      fs.LeaksIs();
      ghost var t, files := Slots(), fs.Files();
      TableNonEmpty(t);
      NewEntryIs(t, name);
      ValidNameIs(name);
      CanAddIs(t, name, |files[inode]|, fs.fm.Free());
      ParentFilesIs(files, inode, sector, isDir, junk);
      KindsRefl(fs.inodes, Touched(inode, sector, isDir));
      ghost var before, mid := fs.inodes, fs.inodes;
      if isDir {
        ChildIs(sector, junk);
      }
      if |name| == 0 || |name| > 30 {
        return false;
      }
      var found, e, k := Lookup(name);
      if found {
        return false;
      }
      ValidIs();
      fs.LeaksIs();
      if isDir {
        ChildStill(files, sector, junk);
        SetParent(sector, junk);
        ValidIs();
        SlotsAre();
        KeysAre(fs);
        mid := fs.inodes;
      }
      ghost var midFiles := fs.Files();
      ok := Place(name, sector);
      KindsAdded(before, mid, fs.inodes, inode, sector, isDir);
      if ok {
        ValidIs();
        AddedTo(files, midFiles, fs.Files(), inode, name, sector, isDir, junk);
      }
    }

    /** The end of dir_add: the entry is written to the first free slot. */
    method Place(name: Name, sector: Word) returns (ok: bool)
      requires Valid() && NewEntry(Slots(), name) && !fs.Denied(inode)
      modifies fs`inodes, fs`trees, fs.fm.bits.words, fs.fm.cache, fs.fm.cache.slots
      ensures fs.fm.Valid() && ok == CanAdd(old(Slots()), name, |old(fs.Files())[inode]|, old(fs.fm.Free()))
      ensures ok ==> Valid() && Slots() == SlotsAfter(old(Slots()), DirOp.Add(name, sector))
      ensures ok ==> Entries(Slots()) == old(Entries(Slots()))[name := sector]
      ensures ok ==>
        fs.Files() == old(fs.Files())[inode := Entered(old(fs.Files())[inode], name, sector)]
      ensures KindsKept(old(fs.inodes), fs.inodes, {inode})
      ensures ok && old(fs.NoLeaks()) ==> fs.NoLeaks()
      ensures !ok ==>
        fs.AfterRefusal(inode, SlotEnd(old(Slots())), old(fs.Files()), old(fs.fm.Used()), old(fs.fm.Free()))
    {
      hide *;
      ValidIs();
      SlotsAre();
      fs.LeaksIs();
      LengthIs();
      ghost var t, files := Slots(), fs.Files();
      TableNonEmpty(t);
      CanAddIs(t, name, |files[inode]|, fs.fm.Free());
      NewEntryIs(t, name);
      LookupIsMembership(t, name);
      FindWithin(t, name);
      AddIs(t, name, sector);
      EnteredIs(files[inode], name, sector);
      var k := FindFree();
      ValidIs();
      fs.LeaksIs();
      ok := WriteSlot(k, Slot(sector, Padded31(name), true));
      if ok {
        OpRefines(t, DirOp.Add(name, sector));
        ValidNow();
        SlotsAre();
      }
    }

    lemma ChildStill(files: map<nat, seq<Byte>>, sector: nat, junk: seq<Byte>)
      requires fs.Valid() && files == fs.Files() && sector in files && sector != inode && !fs.Denied(sector)
      requires |junk| == 31
      requires |files[sector]| >= 36
      ensures Child(sector, junk)
    {
    }

    /** The search for a slot in dir_add; it starts at the parent entry, which is never free. */
    method FindFree() returns (k: nat)
      requires Valid()
      modifies fs.fm.cache, fs.fm.cache.slots
      ensures Valid() && fs.Files() == old(fs.Files()) && Slots() == old(Slots())
      ensures fs.fm.Valid() && fs.fm.Free() == old(fs.fm.Free()) && fs.fm.Used() == old(fs.fm.Used())
      ensures k == FirstFree(Slots(), 0) && 1 <= k <= |Slots()|
    {
      hide *;
      ValidIs();
      ghost var t := Slots();
      FreeAfterParent(t);
      k := 0;
      while true
        invariant fs.Valid() && inode in fs.inodes && fs.Files() == old(fs.Files()) && Slots() == t
        invariant fs.fm.Valid() && fs.fm.Free() == old(fs.fm.Free()) && fs.fm.Used() == old(fs.fm.Used())
        invariant k <= |t| && FirstFree(t, k) == FirstFree(t, 0)
        decreases |t| - k
      {
        var got, e := ReadSlot(k);
        FreeStep(t, k);
        if !got || !e.inUse {
          break;
        }
        k := k + 1;
      }
      ValidNow();
    }

    /** The erasing part of dir_remove: the name goes, all others stay. */
    method Erase(name: Name) returns (ok: bool)
      requires Valid() && !fs.Denied(inode)
      modifies fs`inodes, fs`trees, fs.fm.bits.words, fs.fm.cache, fs.fm.cache.slots
      ensures ok == (name in old(Entries(Slots())))
      ensures Valid() && Slots() == SlotsAfter(old(Slots()), DirOp.Erase(name))
      ensures Entries(Slots()) == old(Entries(Slots())) - {name}
      ensures fs.Files() == old(fs.Files())[inode := Erased(old(fs.Files())[inode], name)]
      ensures KindsKept(old(fs.inodes), fs.inodes, {inode}) && fs.fm.Valid()
      ensures fs.fm.Free() == old(fs.fm.Free()) && fs.fm.Used() == old(fs.fm.Used())
    {
      hide *;
      ValidIs();
      ghost var t := Slots();
      TableNonEmpty(t);
      OpRefines(t, DirOp.Erase(name));
      EraseIs(t, name);
      SlotsAre();
      ErasedIs(fs.Files()[inode], name);
      KindsRefl(fs.inodes, {inode});
      var found, e, k := Lookup(name);
      ok := found;
      if found {
        EraseSlot(name, e, k);
      }
    }

    /** Slot K, which holds NAME, is written back as free. */
    method EraseSlot(name: Name, e: Slot, k: nat)
      requires Valid() && !fs.Denied(inode) && |Slots()| >= 1
      requires k == FindName(Slots(), name, 1) < |Slots()| && e == Slots()[k]
      modifies fs`inodes, fs`trees, fs.fm.bits.words, fs.fm.cache, fs.fm.cache.slots
      ensures Valid() && Slots() == SlotsAfter(old(Slots()), DirOp.Erase(name))
      ensures Entries(Slots()) == old(Entries(Slots())) - {name}
      ensures fs.Files() == old(fs.Files())[inode := Erased(old(fs.Files())[inode], name)]
      ensures KindsKept(old(fs.inodes), fs.inodes, {inode}) && fs.fm.Valid()
      ensures fs.fm.Free() == old(fs.fm.Free()) && fs.fm.Used() == old(fs.fm.Used())
      ensures old(fs.NoLeaks()) ==> fs.NoLeaks()
    {
      hide *;
      ValidIs();
      ghost var t := Slots();
      OpRefines(t, DirOp.Erase(name));
      EraseIs(t, name);
      LengthIs();
      SlotsAre();
      SlotInside(fs.Files()[inode], k);
      ErasedIs(fs.Files()[inode], name);
      NameSizes(t);
      var ok := WriteSlot(k, e.(inUse := false));
      ValidNow();
    }

    /** dir_remove of a plain file: the name and the file go, and all sectors of the file are free again. */
    method RemoveFile(name: Name) returns (ok: bool)
      requires Valid() && !fs.Denied(inode)
      requires name in Entries(Slots()) ==> Removable(Entries(Slots())[name])
      modifies fs`inodes, fs`trees, fs`denyWrite, fs.fm.bits.words, fs.fm.cache, fs.fm.cache.slots
      ensures ok == (name in old(Entries(Slots()))) && Valid() && fs.fm.Valid()
      ensures !ok ==> fs.Files() == old(fs.Files()) && fs.fm.Used() == old(fs.fm.Used()) && fs.inodes == old(fs.inodes)
      ensures Slots() == SlotsAfter(old(Slots()), DirOp.Erase(name)) && SlotErased(old(Slots()), Slots(), name)
      ensures Entries(Slots()) == old(Entries(Slots())) - {name}
      ensures ok ==>
        var s := old(Entries(Slots()))[name];
        && s in old(fs.Files())
        && fs.Files() == old(fs.Files())[inode := Erased(old(fs.Files())[inode], name)] - {s}
        && KindsKept(old(fs.inodes) - {s}, fs.inodes, {inode}) && fs.denyWrite == old(fs.denyWrite) - {s}
        && fs.fm.Free() == old(fs.fm.Free()) + 1 + Reserve.FileCost(BytesToSectors(|old(fs.Files())[s]|))
      ensures old(fs.NoLeaks()) ==> fs.NoLeaks()
    {
      hide *;
      ValidIs();
      fs.LeaksIs();
      KeysAre(fs);
      ghost var t := Slots();
      TableNonEmpty(t);
      NoEntry(t, name);
      EraseIs(t, name);
      ErasesSlot(t, name);
      ghost var before := fs.inodes;
      var found, e, k := Lookup(name);
      fs.LeaksIs();
      ok := found;
      if found {
        RemovableIs(e.sector);
        EraseSlot(name, e, k);
        ValidIs();
        KeysAre(fs);
        SlotsAre();
        fs.SectorOf(e.sector);
        KindsRemoved(before, fs.inodes, e.sector, inode);
        fs.Remove(e.sector);
        KeysAre(fs);
        SlotsAre();
        ValidNow();
      }
    }

    /** The inode in sector S is that of a plain file, not of this directory. */
    ghost predicate Removable(s: nat)
      reads fs
    {
      s in fs.inodes && s >= 2 && s != inode && !fs.inodes[s].isDir
    }

    lemma NewRemovable(s: nat)
      ensures s in fs.inodes && s >= 2 && s != inode && !fs.inodes[s].isDir ==> Removable(s)
    {
    }

    lemma RemovableIs(s: nat)
      requires Removable(s)
      ensures s in fs.inodes && s >= 2 && s != inode
    {
    }

    /** filesys_create of a plain file in this directory.  When the name is taken or invalid, the inode's sector is
        given back and its blocks are not. */
    method CreateFile(name: Name, length: int) returns (ok: bool, sector: Word)
      requires Valid() && 0 !in name && !fs.Denied(inode) && length < 0x8000_0000
      modifies fs`inodes, fs`trees, fs.fm.bits.words, fs.fm.cache, fs.fm.cache.slots
      ensures fs.fm.Valid()
      ensures ok == CanCreate(old(Slots()), name, |old(fs.Files())[inode]|, length, old(fs.fm.Free()))
      ensures ok ==> Valid() && sector !in old(fs.Files()) && Entries(Slots()) == old(Entries(Slots()))[name := sector]
      ensures ok ==> Slots() == SlotsAfter(old(Slots()), DirOp.Add(name, sector))
      ensures ok ==> SlotAdded(old(Slots()), Slots(), name, sector)
      ensures ok ==>
        fs.Files() ==
          old(fs.Files())[sector := ZeroFile(length)][inode := Entered(old(fs.Files())[inode], name, sector)]
      ensures ok ==> Removable(sector) && KindsKept(old(fs.inodes)[sector := fs.inodes[sector]], fs.inodes, {inode})
      ensures ok && old(fs.NoLeaks()) ==> fs.NoLeaks()
      ensures NameRefused(old(Slots()), name, length, old(fs.fm.Free())) ==>
        && !ok && Valid() && fs.Files() == old(fs.Files()) && old(fs.fm.Free()) == fs.fm.Free() + Blocks(length)
        && (old(fs.NoLeaks()) ==> (fs.NoLeaks() <==> length == 0)) && fs.inodes == old(fs.inodes)
      ensures !Creatable(length, old(fs.fm.Free())) ==>
        && fs.inodes == old(fs.inodes) && fs.trees == old(fs.trees)
        && fs.fm.Free() == FreeWithoutFile(length, old(fs.fm.Free()))
      ensures EntryRefused(old(Slots()), name, |old(fs.Files())[inode]|, length, old(fs.fm.Free())) ==>
        && fs.fm.Free() ==
             FreeWithoutEntry(|old(fs.Files())[inode]|, old(Slots()), old(fs.fm.Free()) - 1 - Blocks(length))
        && KindsKept(old(fs.inodes), fs.inodes, {inode})
    {
      hide *;
      ValidIs();
      KeysAre(fs);
      SlotsAre();
      CreatableIs(length, fs.fm.Free());
      FreeWithoutFileIs(length, fs.fm.Free());
      ghost var files, before, t, free := fs.Files(), fs.inodes, Slots(), fs.fm.Free();
      CanCreateIs(t, name, |files[inode]|, length, free);
      var s;
      ok, s := fs.NewFile(length, false);
      sector := 0;
      if ok {
        FileSystem.OnlyIs(before, fs.inodes, s, false);
        fs.SectorOf(s);
        sector := s;
        KeysAre(fs);
        SlotsAre();
        ValidNow();
        ghost var mid := fs.inodes;
        ok := EnterFile(name, sector);
        CreatedKinds(before, mid, fs.inodes, sector, inode);
        NewRemovable(sector);
      }
    }

    /** The rest of filesys_create, when the file is there: dir_add, and giving the inode's sector back if that
        fails. */
    method EnterFile(name: Name, sector: Word) returns (ok: bool)
      requires Valid() && 0 !in name && !fs.Denied(inode) && sector in fs.inodes && sector >= 2 && sector != inode
      modifies fs`inodes, fs`trees, fs.fm.bits.words, fs.fm.cache, fs.fm.cache.slots
      ensures fs.fm.Valid()
      ensures ok == (NewEntry(old(Slots()), name) && Roomy(|old(fs.Files())[inode]|, old(Slots()), old(fs.fm.Free())))
      ensures ok ==> Valid() && Entries(Slots()) == old(Entries(Slots()))[name := sector]
      ensures ok ==> Slots() == SlotsAfter(old(Slots()), DirOp.Add(name, sector))
      ensures ok ==> SlotAdded(old(Slots()), Slots(), name, sector)
      ensures ok ==> fs.Files() == old(fs.Files())[inode := Entered(old(fs.Files())[inode], name, sector)]
      ensures ok ==> KindsKept(old(fs.inodes), fs.inodes, {inode})
      ensures !ok ==> KindsKept(old(fs.inodes) - {sector}, fs.inodes, {inode})
      ensures !ok ==> sector < |fs.fm.Used()| && !fs.fm.Used()[sector]
      ensures NewEntry(old(Slots()), name) && !ok ==>
        fs.fm.Free() == FreeWithoutEntry(|old(fs.Files())[inode]|, old(Slots()), old(fs.fm.Free()))
      ensures ok && old(fs.NoLeaks()) ==> fs.NoLeaks()
      ensures !NewEntry(old(Slots()), name) ==>
        && Valid() && fs.Files() == old(fs.Files()) - {sector} && fs.fm.Free() == old(fs.fm.Free()) + 1
        && (old(fs.NoLeaks()) ==> (fs.NoLeaks() <==> |old(fs.Files())[sector]| == 0))
        && fs.inodes == old(fs.inodes) - {sector}
    {
      hide *;
      ValidIs();
      KeysAre(fs);
      SlotsAre();
      fs.LeaksIs();
      fs.SectorOf(sector);
      ghost var t, files, used, free := Slots(), fs.Files(), fs.fm.Used(), fs.fm.Free();
      CanAddIs(t, name, |files[inode]|, fs.fm.Free());
      TouchedIs(inode, sector);
      ParentFilesIs(files, inode, sector, false, []);
      FreeWithoutEntryIs(|files[inode]|, t, free);
      TableNonEmpty(t);
      AddsSlot(t, name, sector);
      ghost var before := fs.inodes;
      ok := Add(name, sector, false, []);
      if ok {
        ValidIs();
        KeysAre(fs);
        AddedFilesIs(files, fs.Files(), inode, name, sector);
      } else {
        if NewEntry(t, name) {
          fs.AfterRefusalIs(inode, SlotEnd(t), files, used, free);
          fs.ReadableIs(sector, files[sector]);
          FileSystem.StillUsable(sector, used, fs.fm.Used(), fs.fm.Own());
        } else {
          ValidIs();
        }
        fs.LeaksIs();
        ghost var used2 := fs.fm.Used();
        KindsRemoved(before, fs.inodes, sector, inode);
        fs.Forget(sector);
        FileSystem.ReleasedBit(used2, fs.fm.Used(), sector);
        if !NewEntry(t, name) {
          KeysAre(fs);
          SlotsAre();
          ValidNow();
        }
      }
    }

    /** dir_is_empty */
    method IsEmpty() returns (empty: bool)
      requires Valid()
      modifies fs.fm.cache, fs.fm.cache.slots
      ensures Valid() && fs.Files() == old(fs.Files()) && Slots() == old(Slots())
      ensures empty <==> Entries(Slots()) == map[]
    {
      hide *;
      ValidIs();
      ghost var t := Slots();
      TableNonEmpty(t);
      var k := 1;
      empty := true;
      while true
        invariant fs.Valid() && inode in fs.inodes && fs.Files() == old(fs.Files()) && Slots() == t
        invariant 1 <= k <= |t| && forall i :: 1 <= i < k ==> !t[i].inUse
        decreases |t| - k
      {
        var got, e := ReadSlot(k);
        if !got {
          NoEntries(t);
          break;
        }
        if e.inUse {
          SomeEntry(t, k);
          empty := false;
          break;
        }
        k := k + 1;
      }
      ValidNow();
    }

    /** dir_readdir: the next live entry at or after the position. */
    method ReadDir() returns (more: bool, name: Name)
      requires Valid() && 1 <= pos <= |Slots()|
      modifies this`pos, fs.fm.cache, fs.fm.cache.slots
      ensures Valid() && fs.Files() == old(fs.Files()) && Slots() == old(Slots()) && old(pos) <= pos <= |Slots()|
      ensures more ==> old(pos) < pos && Listing(Slots(), old(pos)) == [name] + Listing(Slots(), pos)
      ensures !more ==> Listing(Slots(), old(pos)) == []
      ensures more ==> Slots()[pos - 1].inUse && name == CString(Slots()[pos - 1].name)
      ensures forall i :: old(pos) <= i < (if more then pos - 1 else pos) ==> !Slots()[i].inUse
      ensures !more ==> pos == |Slots()|
    {
      hide *;
      ValidIs();
      ghost var t := Slots();
      name := [];
      while true
        invariant fs.Valid() && inode in fs.inodes && fs.Files() == old(fs.Files()) && Slots() == t
        invariant old(pos) <= pos <= |t| && Listing(t, old(pos)) == Listing(t, pos)
        invariant forall i :: old(pos) <= i < pos ==> !t[i].inUse
        decreases |t| - pos
      {
        var got, e := ReadSlot(pos);
        ListingStep(t, pos);
        if !got {
          more := false;
          break;
        }
        pos := pos + 1;
        if e.inUse {
          more, name := true, CString(e.name);
          break;
        }
      }
      ValidNow();
    }

    /** Reading on until the end lists every entry exactly once. */
    method ReadAll() returns (names: seq<Name>)
      requires Valid() && pos == 1
      modifies this`pos, fs.fm.cache, fs.fm.cache.slots
      ensures Valid() && fs.Files() == old(fs.Files()) && Slots() == old(Slots())
      ensures |Slots()| >= 1 && names == Listing(Slots(), 1) && pos == |Slots()|
      ensures forall n :: n in names <==> n in Entries(Slots())
      ensures forall a, b :: 0 <= a < b < |names| ==> names[a] != names[b]
    {
      hide *;
      ValidIs();
      ghost var t := Slots();
      TableNonEmpty(t);
      ListingIsEntries(t);
      names := [];
      while true
        invariant Valid() && fs.Valid() && inode in fs.inodes && fs.Files() == old(fs.Files()) && Slots() == t
        invariant 1 <= pos <= |t|
        invariant names + Listing(t, pos) == Listing(t, 1)
        decreases |t| - pos
      {
        var more, name := ReadDir();
        ValidIs();
        if !more {
          assert names + [] == names;
          break;
        }
        names := names + [name];
      }
    }
  }

  /** dir_create: a directory of COUNT slots, all free but the first, which points to itself until dir_add sets
      the parent. */
  method CreateDir(fs: FileSystem.FileSystem, sector: Word, count: nat) returns (ok: bool)
    requires fs.Valid() && fs.Vacant(sector) && 36 * count < 0x7000_0000 && !fs.Denied(sector)
    modifies fs`inodes, fs`trees, fs.fm.bits.words, fs.fm.cache, fs.fm.cache.slots
    ensures ok == Room(count, old(fs.fm.Free())) && fs.fm.Valid()
    ensures !ok ==> forall g :: g in old(fs.Files()) ==> fs.Readable(g, old(fs.Files())[g])
    ensures ok && old(fs.NoLeaks()) ==> fs.NoLeaks()
    ensures ok ==> FileSystem.OnlyInode(old(fs.inodes), fs.inodes, sector, true)
    ensures ok ==> fs.fm.Free() == old(fs.fm.Free()) - DirBlocks(count)
    ensures ok ==> fs.Valid() && sector in fs.Files() && fs.Files() == old(fs.Files())[sector := fs.Files()[sector]]
    ensures ok ==> fs.Files()[sector] == NewDirBytes(sector, count)
    ensures ok ==> TableOk(Table(fs.Files()[sector])) && Entries(Table(fs.Files()[sector])) == map[]
    ensures ok ==>
      |Table(fs.Files()[sector])| == (if count == 0 then 1 else count) && Table(fs.Files()[sector])[0].sector == sector
  {
    hide *;
    var e := Slot(sector, Zeros(31), true);
    NewDir(count, e);
    KeysAre(fs);
    fs.VacantIs(sector);
    RoomIs(count, fs.fm.Free());
    ghost var before := fs.inodes;
    ok := fs.Create(sector, 36 * count, true);
    if ok {
      KeysAre(fs);
      LengthOf(fs, sector);
      RoomLeft(count, fs.fm.Free());
      FileSystem.OnlyIs(before, fs.inodes, sector, true);
      ghost var mid := fs.inodes;
      ghost var files, used, free := fs.Files(), fs.fm.Used(), fs.fm.Free();
      var written := fs.WriteAt(sector, EncodeSlot(e), 0);
      ok := written == 36;
      if ok {
        KeysAre(fs);
        FileSystem.OnlyTwice(before, mid, fs.inodes, sector, true);
        NewDirIs(sector, count);
        DirBlocksIs(count, files[sector], fs.Files()[sector]);
      } else {
        fs.AfterRefusalIs(sector, 36, files, used, free);
        assert forall g :: g in old(fs.Files()) ==> g in files && files[g] == old(fs.Files())[g];
      }
    }
  }

  /** filesys_init with formatting, on a device that can hold the free map: the root directory, in sector 1, has 1000
      slots and no entry.  It fails only for lack of sectors for the root directory. */
  method FormatDisk(device: Disk) returns (fs: FileSystem.FileSystem, ok: bool)
    requires FileSystem.Formattable(|device|)
    ensures fresh(fs) && fresh(fs.fm.bits.words) && fresh(fs.fm.cache) && fresh(fs.fm.cache.slots)
    ensures ok == (FormatFree(|device|) >= 0 && Room(1000, FormatFree(|device|)))
    ensures ok ==> fs.Valid() && fs.Files().Keys == {1} && fs.fm.Valid() && fs.NoLeaks() && fs.denyWrite == map[]
    ensures ok ==> fs.fm.Free() == FormatFree(|device|) - DirBlocks(1000)
    ensures ok ==> 1 in fs.inodes && fs.inodes.Keys == {1} && fs.inodes[1].isDir
    ensures ok ==> fs.Files()[1] == NewDirBytes(1, 1000)
    ensures ok ==> TableOk(Table(fs.Files()[1])) && Entries(Table(fs.Files()[1])) == map[]
    ensures ok ==> |Table(fs.Files()[1])| == 1000 && Table(fs.Files()[1])[0].sector == 1
  {
    hide *;
    fs := new FileSystem.FileSystem.Format(device);
    fs.RootVacant();
    KeysAre(fs);
    FormatFreeIs(|device|);
    ghost var before := fs.inodes;
    ok := CreateDir(fs, 1, 1000);
    if ok {
      FileSystem.OnlyIs(before, fs.inodes, 1, true);
      KeysAre(fs);
    }
  }

  /** A creation that is refused for its name, the empty one, and keeps the block of the file. */
  method RefusedNameKeepsSectors(device: Disk) returns (fs: FileSystem.FileSystem)
    requires |device| == 128
    ensures fs.Valid() && fs.Files().Keys == {1} && fs.fm.Valid() && !fs.NoLeaks()
  {
    hide *;
    WitnessSizes();
    var ok, sector;
    fs, ok := FormatDisk(device);
    KeysAre(fs);
    fs.DeniedIs(1);
    var root := new Dir(fs, 1);
    root.SlotsAre();
    root.ValidNow();
    root.ValidIs();
    EmptyNameRefused(root.Slots(), 512, fs.fm.Free());
    ok, sector := root.CreateFile([], 512);
    root.ValidIs();
  }

  lemma WitnessSizes()
    ensures FileSystem.Formattable(128) && FormatFree(128) == 124 && DirBlocks(1000) == 71 && Room(1000, 124)
  {
    assert Bitmap.ByteCnt(127) == 16 && BytesToSectors(16) == 1 && BytesToSectors(36000) == 71;
  }

  lemma EmptyNameRefused(t: seq<Slot>, length: nat, free: nat)
    requires length == 512 && free >= 2
    ensures NameRefused(t, [], length, free)
  {
    assert BytesToSectors(512) == 1;
  }

  /** Free sectors of a formatted device without a root directory. */
  ghost function FormatFree(size: nat): int
    requires size >= 1
  {
    size - 3 - Reserve.FileCost(BytesToSectors(Bitmap.ByteCnt(size - 1)))
  }

  lemma FormatFreeIs(size: nat)
    requires size >= 1
    ensures FormatFree(size) == size - 3 - Reserve.FileCost(BytesToSectors(Bitmap.ByteCnt(size - 1)))
  {
  }

  /** Sectors of a file of LENGTH bytes, without its inode. */
  ghost function Blocks(length: int): nat {
    if length < 0 then 0 else Reserve.FileCost(BytesToSectors(length))
  }

  /** There are sectors for a file of LENGTH bytes and its inode. */
  ghost predicate Creatable(length: int, free: nat) {
    length >= 0 && BytesToSectors(length) <= MAX_SECTORS && 1 + Blocks(length) <= free
  }

  lemma CreatableIs(length: int, free: nat)
    ensures Creatable(length, free) <==>
      length >= 0 && BytesToSectors(length) <= MAX_SECTORS && 1 + Reserve.FileCost(BytesToSectors(length)) <= free
    ensures length >= 0 ==>
      Blocks(length) == Reserve.FileCost(BytesToSectors(length)) && ZeroFile(length) == Zeros(length)
  {
  }

  function ZeroFile(length: int): seq<Byte> {
    if length < 0 then [] else Zeros(length)
  }

  /** A file of LENGTH bytes can be created under NAME: for its blocks, its inode and its entry there is room. */
  ghost predicate CanCreate(t: seq<Slot>, name: Name, dirLength: nat, length: int, free: nat) {
    Creatable(length, free) && NewEntry(t, name) && Roomy(dirLength, t, free - 1 - Blocks(length))
  }

  /** There is room for the file, but the name is invalid or taken. */
  ghost predicate NameRefused(t: seq<Slot>, name: Name, length: int, free: nat) {
    Creatable(length, free) && !NewEntry(t, name)
  }

  /** There is room for the file and the name is new, but there is no sector for the entry. */
  ghost predicate EntryRefused(t: seq<Slot>, name: Name, dirLength: nat, length: int, free: nat) {
    Creatable(length, free) && NewEntry(t, name) && !Roomy(dirLength, t, free - 1 - Blocks(length))
  }

  lemma CanCreateIs(t: seq<Slot>, name: Name, dirLength: nat, length: int, free: nat)
    ensures CanCreate(t, name, dirLength, length, free) <==>
      Creatable(length, free) && NewEntry(t, name) && Roomy(dirLength, t, free - 1 - Blocks(length))
    ensures NameRefused(t, name, length, free) <==> Creatable(length, free) && !NewEntry(t, name)
    ensures EntryRefused(t, name, dirLength, length, free) <==>
      Creatable(length, free) && NewEntry(t, name) && !Roomy(dirLength, t, free - 1 - Blocks(length))
  {
    hide Creatable, NewEntry, Roomy, Blocks;
  }

  /** NAME can be added to the directory. */
  ghost predicate NewEntry(t: seq<Slot>, name: Name) {
    ValidName(name) && name !in Entries(t)
  }

  lemma NewEntryIs(t: seq<Slot>, name: Name)
    ensures NewEntry(t, name) <==> ValidName(name) && name !in Entries(t)
  {
  }

  /** A directory file of LENGTH bytes has a free slot, or there are sectors to extend it. */
  ghost predicate Roomy(length: int, t: seq<Slot>, free: int) {
    free >= 0 && FileSystem.Fits(length, 36 * FirstFree(t, 0) + 36, free)
  }

  /** Where the entry for a new name ends. */
  ghost function SlotEnd(t: seq<Slot>): nat {
    36 * FirstFree(t, 0) + 36
  }

  /** NAME can be added, in a free slot or with the sectors that are free. */
  ghost predicate CanAdd(t: seq<Slot>, name: Name, length: nat, free: nat) {
    NewEntry(t, name) && Roomy(length, t, free)
  }

  lemma CanAddIs(t: seq<Slot>, name: Name, length: nat, free: nat)
    ensures CanAdd(t, name, length, free) <==> NewEntry(t, name) && FileSystem.Fits(length, 36 * FirstFree(t, 0) + 36,
                   free)
    ensures CanAdd(t, name, length, free) <==> NewEntry(t, name) && Roomy(length, t, free)
    ensures SlotEnd(t) == 36 * FirstFree(t, 0) + 36
  {
  }

  /** Table R is T with the parent entry set to PARENT; the directory is the same. */
  ghost predicate HasParent(t: seq<Slot>, r: seq<Slot>, parent: nat) {
    && |r| == |t| >= 1 && r[0].sector == parent && r[0].inUse && (forall i :: 1 <= i < |t| ==> r[i] == t[i])
    && Entries(r) == Entries(t) && (TableOk(t) ==> TableOk(r))
  }

  /** The directory in SECTOR has got PARENT as its parent. */
  ghost predicate GetsParent(files: map<nat, seq<Byte>>, files': map<nat, seq<Byte>>, sector: nat, parent: nat) {
    sector in files && sector in files' && HasParent(Table(files[sector]), Table(files'[sector]), parent)
  }

  /** The files an addition to directory INODE changes. */
  ghost function Touched(inode: nat, sector: nat, isDir: bool): set<nat> {
    if isDir then {inode, sector} else {inode}
  }

  /** The files after an addition: the directory INODE has a new entry, and a subdirectory has got its parent. */
  ghost predicate AddedFiles(files: map<nat, seq<Byte>>, files': map<nat, seq<Byte>>, inode: nat, name: Name,
                             sector: nat, isDir: bool, junk: seq<Byte>)
  {
    && inode in files && (isDir ==> sector in files)
    && files' == ParentFiles(files, inode, sector, isDir, junk)[inode := Entered(files[inode], name, sector)]
  }

  /** The files when a subdirectory has got its parent. */
  ghost function ParentFiles(files: map<nat, seq<Byte>>, inode: nat, sector: nat, isDir: bool, junk: seq<Byte>):
    map<nat, seq<Byte>>
  {
    if isDir && sector in files then files[sector := WithParent(files[sector], inode, junk)] else files
  }

  lemma ParentFilesIs(files: map<nat, seq<Byte>>, inode: nat, sector: nat, isDir: bool, junk: seq<Byte>)
    ensures !isDir ==> ParentFiles(files, inode, sector, isDir, junk) == files
    ensures isDir && sector in files ==>
      ParentFiles(files, inode, sector, isDir, junk) == files[sector := WithParent(files[sector], inode, junk)]
  {
  }

  lemma AddedFilesIs(files: map<nat, seq<Byte>>, files': map<nat, seq<Byte>>, inode: nat, name: Name, sector: nat)
    requires AddedFiles(files, files', inode, name, sector, false, [])
    ensures inode in files && files' == files[inode := Entered(files[inode], name, sector)]
  {
  }

  lemma AddedTo(files: map<nat, seq<Byte>>, mid: map<nat, seq<Byte>>, files': map<nat, seq<Byte>>, inode: nat,
                name: Name, sector: nat, isDir: bool, junk: seq<Byte>)
    requires inode in files && (isDir ==> sector in files && sector != inode)
    requires mid == if isDir then files[sector := WithParent(files[sector], inode, junk)] else files
    requires files' == mid[inode := Entered(mid[inode], name, sector)]
    requires isDir ==> HasParent(Table(files[sector]), Table(mid[sector]), inode)
    ensures AddedFiles(files, files', inode, name, sector, isDir, junk)
    ensures isDir ==> GetsParent(files, files', sector, inode)
  {
    hide HasParent, Table, WithParent, Entered;
  }

  /** A directory file with an entry for SECTOR in its first free slot. */
  ghost function Entered(bytes: seq<Byte>, name: Name, sector: nat): seq<Byte> {
    if |name| <= 30 && sector < 0x1_0000_0000 then
      FileStore.Written(bytes, 36 * FirstFree(Table(bytes), 0), EncodeSlot(Slot(sector, Padded31(name), true)))
    else bytes
  }

  lemma EnteredIs(bytes: seq<Byte>, name: Name, sector: Word)
    requires |name| <= 30
    ensures Entered(bytes, name, sector)
         == FileStore.Written(bytes, 36 * FirstFree(Table(bytes), 0), EncodeSlot(Slot(sector, Padded31(name), true)))
  {
  }

  /** A directory file whose entry for NAME is marked free; nothing else in it changes. */
  ghost function Erased(bytes: seq<Byte>, name: Name): seq<Byte> {
    var t := Table(bytes);
    if |t| >= 1 && FindName(t, name, 1) < |t| then
      var k := FindName(t, name, 1);
      FileStore.Written(bytes, 36 * k, EncodeSlot(t[k].(inUse := false)))
    else bytes
  }

  lemma ErasedIs(bytes: seq<Byte>, name: Name)
    requires |Table(bytes)| >= 1
    ensures var t := Table(bytes);
            var k := FindName(t, name, 1);
            && (k < |t| ==>
                  && |t[k].name| == 31
                  && Erased(bytes, name) == FileStore.Written(bytes, 36 * k, EncodeSlot(t[k].(inUse := false))))
            && (k >= |t| ==> Erased(bytes, name) == bytes)
  {
  }

  /** A directory file whose first slot names PARENT. */
  ghost function WithParent(bytes: seq<Byte>, parent: nat, junk: seq<Byte>): seq<Byte> {
    if |junk| == 31 && parent < 0x1_0000_0000 then FileStore.Written(bytes, 0, EncodeSlot(Slot(parent, junk, true)))
    else bytes
  }

  lemma WithParentIs(bytes: seq<Byte>, parent: Word, junk: seq<Byte>)
    requires |junk| == 31
    ensures WithParent(bytes, parent, junk) == FileStore.Written(bytes, 0, EncodeSlot(Slot(parent, junk, true)))
  {
  }

  /** The bytes of a new directory of COUNT slots in SECTOR. */
  ghost function NewDirBytes(sector: Word, count: nat): seq<Byte> {
    FileStore.Written(Zeros(36 * count), 0, EncodeSlot(Slot(sector, Zeros(31), true)))
  }

  lemma NewDirIs(sector: Word, count: nat)
    ensures NewDirBytes(sector, count)
         == FileStore.Written(Zeros(36 * count), 0, EncodeSlot(Slot(sector, Zeros(31), true)))
  {
  }

  /** Table R is T without the entry for NAME: that slot is marked free, and every other slot is as it was. */
  ghost predicate SlotErased(t: seq<Slot>, r: seq<Slot>, name: Name) {
    && |r| == |t| >= 1 && r[0] == t[0]
    && forall i :: 0 <= i < |t| ==>
         r[i] == if Live(t, i) && NameOf(t[i]) == name then t[i].(inUse := false) else t[i]
  }

  lemma ErasesSlot(t: seq<Slot>, name: Name)
    requires TableOk(t)
    ensures |t| >= 1 && SlotErased(t, SlotsAfter(t, DirOp.Erase(name)), name)
  {
    hide NameOf, ValidName;
    var k := FindName(t, name, 1);
    forall i | Live(t, i) && NameOf(t[i]) == name
      ensures i == k
    {
    }
  }

  /** Table R is T with an entry for NAME in a slot that was free, or new; every other slot is as it was. */
  ghost predicate SlotAdded(t: seq<Slot>, r: seq<Slot>, name: Name, sector: nat) {
    && |t| >= 1 && |r| >= |t| && r[0] == t[0]
    && exists k :: 1 <= k < |r| && SlotPlaced(t, r, name, sector, k)
  }

  ghost predicate SlotPlaced(t: seq<Slot>, r: seq<Slot>, name: Name, sector: nat, k: nat) {
    && k < |r| && r[k].inUse && r[k].sector == sector && NameOf(r[k]) == name
    && (if k < |t| then |r| == |t| && !t[k].inUse else k == |t| && |r| == |t| + 1)
    && (forall i :: 0 <= i < k && i < |t| ==> t[i].inUse)
    && (forall i :: 0 <= i < |t| && i != k ==> r[i] == t[i])
  }

  lemma AddsSlot(t: seq<Slot>, name: Name, sector: Word)
    requires TableOk(t)
    ensures |t| >= 1
    ensures NewEntry(t, name) ==> SlotAdded(t, SlotsAfter(t, DirOp.Add(name, sector)), name, sector)
  {
    hide NameOf, Entries;
    if NewEntry(t, name) {
      LookupIsMembership(t, name);
      NewName(name, sector);
      assert SlotPlaced(t, SlotsAfter(t, DirOp.Add(name, sector)), name, sector, FirstFree(t, 0));
    }
  }

  /** Only the inodes in CHANGED may differ, and none has become a directory or ceased to be one. */
  ghost predicate KindsKept(before: map<nat, InodeDisk>, after: map<nat, InodeDisk>, changed: set<nat>) {
    && after.Keys == before.Keys
    && forall g :: g in before ==>
         after[g].isDir == before[g].isDir && (g !in changed ==> after[g] == before[g])
  }

  lemma KindsRefl(inodes: map<nat, InodeDisk>, changed: set<nat>)
    ensures KindsKept(inodes, inodes, changed)
  {
  }

  lemma OneKind(before: map<nat, InodeDisk>, after: map<nat, InodeDisk>, f: nat)
    requires f in before && FileSystem.OnlyInode(before, after, f, before[f].isDir)
    ensures KindsKept(before, after, {f})
  {
  }

  lemma KindsAdded(before: map<nat, InodeDisk>, mid: map<nat, InodeDisk>, after: map<nat, InodeDisk>, inode: nat,
                   sector: nat, isDir: bool)
    requires (if isDir then KindsKept(before, mid, {sector}) else mid == before) && KindsKept(mid, after, {inode})
    ensures KindsKept(before, after, Touched(inode, sector, isDir))
  {
  }

  lemma KindsRemoved(before: map<nat, InodeDisk>, mid: map<nat, InodeDisk>, s: nat, inode: nat)
    requires KindsKept(before, mid, {inode})
    ensures KindsKept(before - {s}, mid - {s}, {inode})
    ensures mid == before ==> mid - {s} == before - {s}
  {
  }

  /** The inodes after a file has been created in SECTOR and entered, or taken back. */
  lemma CreatedKinds(before: map<nat, InodeDisk>, mid: map<nat, InodeDisk>, after: map<nat, InodeDisk>, sector: nat,
                     inode: nat)
    requires sector !in before && sector in mid && mid == before[sector := mid[sector]] && !mid[sector].isDir
    requires sector != inode
    ensures KindsKept(mid, after, {inode}) ==>
      && sector in after && !after[sector].isDir && KindsKept(before[sector := after[sector]], after, {inode})
    ensures mid - {sector} == before
  {
  }

  /** Free sectors after the creation of a file has been refused for lack of sectors. */
  ghost function FreeWithoutFile(length: int, free: nat): int {
    if free == 0 then 0 else 1 + Reserve.FreeAfterRefusal(0, length, free - 1)
  }

  lemma FreeWithoutFileIs(length: int, free: nat)
    ensures FreeWithoutFile(length, free) == if free == 0 then 0 else 1 + Reserve.FreeAfterRefusal(0, length, free - 1)
  {
  }

  /** Free sectors after the entry of a file could not be written to a directory of LENGTH bytes with table T: those
      for the directory have been taken, the inode's sector is free again. */
  ghost function FreeWithoutEntry(length: nat, t: seq<Slot>, free: int): int {
    if free < 0 then free else 1 + Reserve.FreeAfterRefusal(BytesToSectors(length), SlotEnd(t), free)
  }

  lemma FreeWithoutEntryIs(length: nat, t: seq<Slot>, free: nat)
    ensures FreeWithoutEntry(length, t, free)
         == 1 + Reserve.FreeAfterRefusal(BytesToSectors(length), SlotEnd(t), free)
  {
  }

  lemma TouchedIs(inode: nat, sector: nat)
    ensures Touched(inode, sector, false) == {inode}
  {
  }

  lemma FindWithin(t: seq<Slot>, n: Name)
    requires |t| >= 1
    ensures FindName(t, n, 1) <= |t|
  {
  }

  lemma ParentSet(t: seq<Slot>, s: Slot)
    requires |t| >= 1 && s.inUse && |s.name| == 31
    ensures HasParent(t, SetSlot(t, 0, s), s.sector)
  {
    hide NameOf, ValidName;
    var r := t[0 := s];
    assert forall i :: Live(r, i) <==> Live(t, i);
    assert forall i :: Live(r, i) ==> r[i] == t[i];
    ParentNotListed(t, s);
  }

  lemma {:induction false} ParentNotListed(t: seq<Slot>, s: Slot)
    requires |t| >= 1
    ensures Entries(t[0 := s]) == Entries(t)
  {
    var n := |t| - 1;
    if n >= 1 {
      assert t[0 := s][..n] == t[..n][0 := s];
      ParentNotListed(t[..n], s);
    }
  }

  lemma NoEntry(t: seq<Slot>, name: Name)
    ensures name !in Entries(t) ==> Entries(t) - {name} == Entries(t)
  {
  }

  /** There are enough free sectors for a directory of COUNT slots; it has at least one. */
  ghost predicate Room(count: nat, free: nat) {
    BytesToSectors(if count == 0 then 36 else 36 * count) <= MAX_SECTORS && DirBlocks(count) <= free
  }

  /** Sectors of a directory of COUNT slots. */
  ghost function DirBlocks(count: nat): nat {
    Reserve.FileCost(BytesToSectors(if count == 0 then 36 else 36 * count))
  }

  lemma DirBlocksIs(count: nat, bytes: seq<Byte>, after: seq<Byte>)
    requires |bytes| == 36 * count && |after| == if |bytes| < 36 then 36 else |bytes|
    ensures FileSystem.Price(|after|) == DirBlocks(count)
    ensures FileSystem.Price(|bytes|) == Reserve.FileCost(BytesToSectors(36 * count))
  {
  }

  lemma RoomIs(count: nat, free: nat)
    ensures count > 0 ==>
      (Room(count, free) <==>
        BytesToSectors(36 * count) <= MAX_SECTORS && Reserve.FileCost(BytesToSectors(36 * count)) <= free)
    ensures count == 0 ==> (Room(count, free) <==> 1 <= free)
    ensures BytesToSectors(0) == 0 && Reserve.FileCost(0) == 0 && 0 <= MAX_SECTORS
  {
  }

  lemma RoomLeft(count: nat, free: nat)
    ensures FileSystem.Fits(36 * count, 36, free) <==> count > 0 || 1 <= free
  {
  }

  lemma LengthOf(fs: FileSystem.FileSystem, f: nat)
    requires fs.Valid() && f in fs.inodes
    ensures f in fs.Files() && |fs.Files()[f]| == fs.inodes[f].length
  {
  }

  lemma KeysAre(fs: FileSystem.FileSystem)
    requires fs.Valid()
    ensures fs.Files().Keys == fs.inodes.Keys && fs.fm.Valid()
  {
  }

  lemma NewDir(count: nat, e: Slot)
    requires |e.name| == 31 && e.inUse
    ensures |EncodeSlot(e)| == 36
    ensures var t := Table(FileStore.Written(Zeros(36 * count), 0, EncodeSlot(e)));
            TableOk(t) && Entries(t) == map[] && |t| == (if count == 0 then 1 else count) && t[0] == e
  {
    hide Table, FileStore.Written, DecodeSlot, EncodeSlot, Entries, NameOf;
    EncodedSize(e);
    TableSize(Zeros(36 * count));
    TableWritten(Zeros(36 * count), 0, e);
    var t := Table(Zeros(36 * count));
    var r := SetSlot(t, 0, e);
    forall i | 1 <= i < |r|
      ensures !r[i].inUse
    {
      ZeroSlot(count, i);
    }
    NoEntries(r);
  }

  /** A slot of zeros is not in use. */
  lemma ZeroSlot(count: nat, i: nat)
    requires i < count
    ensures i < |Table(Zeros(36 * count))| && !Table(Zeros(36 * count))[i].inUse
  {
    var bytes := Zeros(36 * count);
    assert 36 * i + 36 <= |bytes|;
    assert bytes[36 * i..36 * i + 36][35] == bytes[36 * i + 35];
  }

  lemma EncodedSize(e: Slot)
    requires |e.name| == 31
    ensures |EncodeSlot(e)| == 36
  {
  }

  lemma TableSize(bytes: seq<Byte>)
    ensures |Table(bytes)| == |bytes| / 36
  {
  }

  lemma ValidNameIs(n: Name)
    ensures ValidName(n) <==> 0 < |n| <= 30 && 0 !in n
  {
  }

  lemma AddIs(t: seq<Slot>, n: Name, sector: Word)
    requires |t| >= 1 && ValidName(n) && FindName(t, n, 1) == |t| && TableOk(t)
    ensures |n| <= 30 && n !in Entries(t)
    ensures SlotsAfter(t, DirOp.Add(n, sector)) == SetSlot(t, FirstFree(t, 0), Slot(sector, Padded31(n), true))
    ensures MapAfter(Entries(t), DirOp.Add(n, sector)) == Entries(t)[n := sector]
  {
    LookupIsMembership(t, n);
  }

  lemma EraseIs(t: seq<Slot>, n: Name)
    requires |t| >= 1
    ensures MapAfter(Entries(t), DirOp.Erase(n)) == Entries(t) - {n}
    ensures var k := FindName(t, n, 1);
            SlotsAfter(t, DirOp.Erase(n)) == if k < |t| then SetSlot(t, k, t[k].(inUse := false)) else t
  {
  }

  lemma FreeAfterParent(t: seq<Slot>)
    requires TableOk(t)
    ensures 1 <= FirstFree(t, 0) <= |t|
  {
  }

  lemma FreeStep(t: seq<Slot>, k: nat)
    requires k <= |t|
    ensures k == |t| ==> FirstFree(t, k) == k
    ensures k < |t| ==> FirstFree(t, k) == if t[k].inUse then FirstFree(t, k + 1) else k
  {
  }

  lemma SlotInside(bytes: seq<Byte>, k: nat)
    requires k < |Table(bytes)|
    ensures 36 * k + 36 <= |bytes|
  {
  }

  lemma NameSizes(t: seq<Slot>)
    requires TableOk(t)
    ensures forall i :: 0 <= i < |t| ==> |t[i].name| == 31
  {
  }

  lemma TableNonEmpty(t: seq<Slot>)
    requires TableOk(t)
    ensures |t| >= 1
  {
  }

  lemma FindStep(t: seq<Slot>, n: Name, k: nat)
    requires 1 <= k <= |t|
    ensures k == |t| ==> FindName(t, n, k) == k
    ensures k < |t| ==> FindName(t, n, k) == if t[k].inUse && CString(t[k].name) == n then k else FindName(t, n, k + 1)
  {
  }

  lemma NoEntries(t: seq<Slot>)
    requires TableOk(t) && forall i :: 1 <= i < |t| ==> !t[i].inUse
    ensures Entries(t) == map[]
  {
    EntriesAre(t);
  }

  lemma SomeEntry(t: seq<Slot>, k: nat)
    requires TableOk(t) && 1 <= k < |t| && t[k].inUse
    ensures Entries(t) != map[]
  {
    EntriesAre(t);
    assert Live(t, k);
  }

  lemma ListingStep(t: seq<Slot>, k: nat)
    requires 1 <= k <= |t|
    ensures k == |t| ==> Listing(t, k) == []
    ensures k < |t| ==>
      Listing(t, k) == if t[k].inUse then [CString(t[k].name)] + Listing(t, k + 1) else Listing(t, k + 1)
  {
  }
}
