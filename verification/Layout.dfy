/** On-disk layout: bytes, sectors, little-endian 32-bit words, index blocks and
    the on-disk inode.  Sizes are those of block.h and inode.h. */
module Layout {

  const SECTOR_SIZE := 512
  const DIRECT := 123
  const FANOUT := 128
  const MAX_SECTORS := 123 + 128 + 128 * 128
  const INODE_MAGIC := 0x494e4f44
  /** `(block_sector_t) -1`, the "no such sector" answer. */
  const NO_SECTOR := 0xFFFF_FFFF

  type Byte = b: int | 0 <= b < 256
  type Word = w: int | 0 <= w < 0x1_0000_0000
  type Sector = s: seq<Byte> | |s| == 512 witness seq(512, _ => 0)
  /** The 128 block pointers held by one index sector. */
  type Pointers = p: seq<Word> | |p| == 128 witness seq(128, _ => 0)
  type Disk = seq<Sector>

  function Zeros(n: nat): (z: seq<Byte>)
    ensures |z| == n && forall i :: 0 <= i < n ==> z[i] == 0
  {
    seq(n, _ => 0)
  }

  const ZERO_SECTOR: Sector := Zeros(512)

  function Min(a: int, b: int): int {
    if a < b then a else b
  }

  lemma MinIs(a: int, b: int)
    ensures Min(a, b) == if a < b then a else b
  {
  }

  /** Number of sectors needed for SIZE bytes. */
  function BytesToSectors(size: nat): (n: nat)
    ensures 512 * n >= size && (n > 0 ==> 512 * (n - 1) < size)
  {
    (size + 511) / 512
  }

  // ---- words ------------------------------------------------------------

  function WordByte(w: Word, k: nat): Byte
    requires k < 4
  {
    if k == 0 then w % 256
    else if k == 1 then w / 256 % 256
    else if k == 2 then w / 65536 % 256
    else w / 16777216
  }

  function WordAt(s: seq<Byte>, p: nat): Word
    requires p + 4 <= |s|
  {
    var b0: int, b1: int, b2: int, b3: int := s[p], s[p + 1], s[p + 2], s[p + 3];
    b0 + 256 * b1 + 65536 * b2 + 16777216 * b3
  }

  function EncodePointers(p: Pointers): Sector {
    seq(512, i requires 0 <= i < 512 => WordByte(p[i / 4], i % 4))
  }

  function DecodePointers(s: Sector): Pointers {
    seq(128, i requires 0 <= i < 128 => WordAt(s, 4 * i))
  }

  lemma WordRoundTrip(w: Word)
    ensures WordByte(w, 0) + 256 * WordByte(w, 1) + 65536 * WordByte(w, 2) + 16777216 * WordByte(w, 3) == w
  {
    var q, r := w / 256, w / 65536;
    assert r == q / 256 && r / 256 == w / 16777216;
    assert w == 256 * q + w % 256 && q == 256 * r + q % 256 && r == 256 * (r / 256) + r % 256;
  }

  lemma PointersRoundTrip(p: Pointers)
    ensures DecodePointers(EncodePointers(p)) == p
  {
    var s := EncodePointers(p);
    forall i | 0 <= i < 128
      ensures DecodePointers(s)[i] == p[i]
    {
      assert s[4 * i] == WordByte(p[i], 0);
      assert s[4 * i + 1] == WordByte(p[i], 1);
      assert s[4 * i + 2] == WordByte(p[i], 2);
      assert s[4 * i + 3] == WordByte(p[i], 3);
      WordRoundTrip(p[i]);
    }
  }

  /** A zero-filled sector reads as an index block without any pointer: this is why
      0 can stand for "not allocated". */
  lemma ZeroSectorHoldsNoPointer()
    ensures DecodePointers(ZERO_SECTOR) == seq(128, _ => 0)
  {
  }

  // ---- the on-disk inode --------------------------------------------------

  /** struct inode_disk; the magic number is a constant of the encoding. */
  datatype InodeDisk = InodeDisk(direct: seq<Word>, indirect: Word, doubly: Word, isDir: bool, length: int)

  ghost predicate Encodable(d: InodeDisk) {
    |d.direct| == DIRECT && 0 <= d.length < 0x8000_0000
  }

  function InodeWords(d: InodeDisk): Pointers
    requires Encodable(d)
  {
    d.direct + [d.indirect, d.doubly, if d.isDir then 1 else 0, d.length, INODE_MAGIC]
  }

  function EncodeInode(d: InodeDisk): Sector
    requires Encodable(d)
  {
    EncodePointers(InodeWords(d))
  }

  function DecodeInode(s: Sector): InodeDisk {
    var p := DecodePointers(s);
    var length: int := p[126];
    InodeDisk(p[..123], p[123], p[124], p[125] != 0, if length < 0x8000_0000 then length else length - 0x1_0000_0000)
  }

  lemma InodeRoundTrip(d: InodeDisk)
    requires Encodable(d)
    ensures DecodeInode(EncodeInode(d)) == d
  {
    PointersRoundTrip(InodeWords(d));
    assert InodeWords(d)[..123] == d.direct;
  }

  /** Bytes 4I to 4I + 3 of a sector, lowest first, are the number W. */
  ghost predicate WordIs(s: seq<Byte>, i: nat, w: int) {
    && 4 * i + 4 <= |s|
    && var b0: int, b1: int, b2: int, b3: int := s[4 * i], s[4 * i + 1], s[4 * i + 2], s[4 * i + 3];
       w == b0 + 256 * b1 + 65536 * b2 + 16777216 * b3
  }

  /** Where the pointers of an index block lie. */
  lemma PointersLayout(p: Pointers, i: nat)
    requires i < 128
    ensures WordIs(EncodePointers(p), i, p[i])
  {
    var s := EncodePointers(p);
    assert s[4 * i] == WordByte(p[i], 0) && s[4 * i + 1] == WordByte(p[i], 1);
    assert s[4 * i + 2] == WordByte(p[i], 2) && s[4 * i + 3] == WordByte(p[i], 3);
    WordRoundTrip(p[i]);
  }

  /** Where the fields of an inode lie in its sector. */
  lemma InodeLayout(d: InodeDisk)
    requires Encodable(d)
    ensures forall i :: 0 <= i < 123 ==> WordIs(EncodeInode(d), i, d.direct[i])
    ensures WordIs(EncodeInode(d), 123, d.indirect) && WordIs(EncodeInode(d), 124, d.doubly)
    ensures WordIs(EncodeInode(d), 125, if d.isDir then 1 else 0) && WordIs(EncodeInode(d), 126, d.length)
    ensures WordIs(EncodeInode(d), 127, 0x494e4f44)
  {
    hide EncodePointers, WordIs;
    var w := InodeWords(d);
    forall i | 0 <= i < 128
      ensures WordIs(EncodeInode(d), i, w[i])
    {
      PointersLayout(w, i);
    }
    assert w[123] == d.indirect && w[124] == d.doubly && w[125] == (if d.isDir then 1 else 0);
    assert w[126] == d.length && w[127] == 0x494e4f44;
    assert forall i :: 0 <= i < 123 ==> w[i] == d.direct[i];
  }

  /** The magic number tells an inode from a sector of zeros. */
  lemma InodeNotZero(d: InodeDisk)
    requires Encodable(d)
    ensures EncodeInode(d) != ZERO_SECTOR
  {
    var w := InodeWords(d);
    assert EncodeInode(d)[508] == WordByte(w[127], 0) == 0x44;
  }
}
