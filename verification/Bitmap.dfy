/** The word-packed bitmap (bitmap.c): 64-bit words that simulate a sequence of booleans. */
module Bitmap {
  import opened Layout
  import opened Bits

  /** UINT32_MAX: no group of bits was found. */
  const BITMAP_ERROR := 0xFFFF_FFFF

  /** elem_type, an unsigned 64-bit word. */
  type Elem = w: int | 0 <= w < 0x1_0000_0000_0000_0000

  function ElemCnt(bitCnt: nat): nat {
    (bitCnt + 63) / 64
  }

  function ByteCnt(bitCnt: nat): nat {
    8 * ElemCnt(bitCnt)
  }

  lemma ShiftByte(n: nat)
    ensures Shift(n + 8) == 256 * Shift(n)
  {
    assert Shift(n + 4) == 2 * Shift(n + 3) == 4 * Shift(n + 2) == 8 * Shift(n + 1);
    assert Shift(n + 8) == 2 * Shift(n + 7) == 4 * Shift(n + 6) == 8 * Shift(n + 5);
  }

  lemma ShiftFitsWord(k: nat)
    requires k <= 64
    ensures k < 64 ==> Shift(k) < 0x1_0000_0000_0000_0000
    ensures Shift(64) == 0x1_0000_0000_0000_0000
  {
    ShiftByte(0);
    ShiftByte(8);
    ShiftByte(16);
    ShiftByte(24);
    ShiftByte(32);
    ShiftByte(40);
    ShiftByte(48);
    ShiftByte(56);
    if k < 64 {
      ShiftGrows(k, 64);
    }
  }

  function BitMask(i: nat): Elem {
    ShiftFitsWord(i % 64);
    Shift(i % 64)
  }

  /** Ones in the bits of the last word that are in use. */
  function LastMask(bitCnt: nat): Elem {
    if bitCnt % 64 != 0 then BitMask(bitCnt) - 1 else 0xFFFF_FFFF_FFFF_FFFF
  }

  lemma LastMaskBit(bitCnt: nat, i: nat)
    requires i < 64
    ensures Bit(LastMask(bitCnt), i) == (bitCnt % 64 == 0 || i < bitCnt % 64)
  {
    ShiftFitsWord(64);
    LowOnes(if bitCnt % 64 == 0 then 64 else bitCnt % 64, i);
  }

  // ---- specification ----------------------------------------------------------

  /** The bits a sequence of words simulates. */
  function Flags(words: seq<Elem>, bitCnt: nat): (b: seq<bool>)
    requires bitCnt <= 64 * |words|
    ensures |b| == bitCnt
  {
    seq(bitCnt, i requires 0 <= i < bitCnt => Bit(words[i / 64], i % 64))
  }

  /** The bits of the last word that are not in use are zero. */
  ghost predicate SlackClear(words: seq<Elem>, bitCnt: nat) {
    forall i {:trigger i / 64} :: bitCnt <= i < 64 * |words| ==> !Bit(words[i / 64], i % 64)
  }

  /** CNT bits from I on all have value V. */
  ghost predicate Group(b: seq<bool>, i: nat, cnt: nat, v: bool) {
    i + cnt <= |b| && forall j :: i <= j < i + cnt ==> b[j] == v
  }

  /** Number of bits with value V. */
  function Count(b: seq<bool>, v: bool): nat {
    if b == [] then 0
    else Count(b[..|b| - 1], v) + if b[|b| - 1] == v then 1 else 0
  }

  lemma CountNone(b: seq<bool>, start: nat, v: bool)
    requires start <= |b|
    ensures Count(b[start..start], v) == 0
  {
  }

  lemma CountNext(b: seq<bool>, start: nat, i: nat, v: bool)
    requires start + i < |b|
    ensures Count(b[start..start + i + 1], v) == Count(b[start..start + i], v) + if b[start + i] == v then 1 else 0
  {
    assert b[start..start + i + 1][..i] == b[start..start + i];
  }

  lemma {:induction false} CountUpdate(b: seq<bool>, i: nat, v: bool)
    requires i < |b| && b[i] != v
    ensures Count(b[i := v], v) == Count(b, v) + 1
    ensures Count(b[i := v], !v) == Count(b, !v) - 1
  {
    var n := |b| - 1;
    if i == n {
      assert b[i := v][..n] == b[..n];
    } else {
      assert b[i := v][..n] == b[..n][i := v];
      CountUpdate(b[..n], i, v);
    }
  }

  /** B with CNT bits from I on set to V. */
  function Filled(b: seq<bool>, i: nat, cnt: nat, v: bool): (r: seq<bool>)
    requires i + cnt <= |b|
    ensures |r| == |b| && forall j :: 0 <= j < |b| ==> r[j] == if i <= j < i + cnt then v else b[j]
  {
    seq(|b|, j requires 0 <= j < |b| => if i <= j < i + cnt then v else b[j])
  }

  /** Flipping a group moves exactly its size from one count to the other. */
  lemma {:induction false} CountFilled(b: seq<bool>, i: nat, cnt: nat, v: bool)
    requires Group(b, i, cnt, !v)
    ensures Count(Filled(b, i, cnt, v), v) == Count(b, v) + cnt
    ensures Count(Filled(b, i, cnt, v), !v) == Count(b, !v) - cnt
    decreases cnt
  {
    if cnt == 0 {
      assert Filled(b, i, 0, v) == b;
    } else {
      var c := Filled(b, i, cnt - 1, v);
      CountFilled(b, i, cnt - 1, v);
      CountUpdate(c, i + cnt - 1, v);
      assert Filled(b, i, cnt, v) == c[i + cnt - 1 := v];
    }
  }

  /** There is a bit of value V exactly when the count says so. */
  lemma {:induction false} CountZero(b: seq<bool>, v: bool)
    ensures Count(b, v) == 0 <==> forall i :: 0 <= i < |b| ==> b[i] != v
  {
    if b != [] {
      var n := |b| - 1;
      CountZero(b[..n], v);
      assert forall i :: 0 <= i < n ==> b[..n][i] == b[i];
    }
  }

  // ---- byte image -------------------------------------------------------------

  function ElemByte(w: Elem, k: nat): Byte
    requires k < 8
  {
    if k < 4 then WordByte(w % 0x1_0000_0000, k) else WordByte(w / 0x1_0000_0000, k - 4)
  }

  function ElemAt(s: seq<Byte>, p: nat): Elem
    requires p + 8 <= |s|
  {
    var lo: int, hi: int := WordAt(s, p), WordAt(s, p + 4);
    lo + 0x1_0000_0000 * hi
  }

  /** The words as they lie in memory and in the free-map file. */
  function Image(words: seq<Elem>): (s: seq<Byte>)
    ensures |s| == 8 * |words|
  {
    seq(8 * |words|, p requires 0 <= p < 8 * |words| => ElemByte(words[p / 8], p % 8))
  }

  function FromImage(s: seq<Byte>, n: nat): (words: seq<Elem>)
    requires |s| == 8 * n
    ensures |words| == n
  {
    seq(n, i requires 0 <= i < n => ElemAt(s, 8 * i))
  }

  /** The bytes of WORDS after the first |IMAGE| of them have been replaced. */
  function Over(image: seq<Byte>, words: seq<Elem>): (s: seq<Byte>)
    requires |image| <= 8 * |words|
    ensures |s| == 8 * |words| && (|image| == 8 * |words| ==> s == image)
  {
    image + Image(words)[|image|..]
  }

  lemma ElemRoundTrip(s: seq<Byte>, p: nat, w: Elem)
    requires p + 8 <= |s| && forall k :: 0 <= k < 8 ==> s[p + k] == ElemByte(w, k)
    ensures ElemAt(s, p) == w
  {
    assert s[p + 0] == ElemByte(w, 0) && s[p + 4 + 0] == ElemByte(w, 4);
    assert WordAt(s, p) == w % 0x1_0000_0000 by {
      assert s[p + 1] == ElemByte(w, 1) && s[p + 2] == ElemByte(w, 2) && s[p + 3] == ElemByte(w, 3);
      WordRoundTrip(w % 0x1_0000_0000);
    }
    assert WordAt(s, p + 4) == w / 0x1_0000_0000 by {
      assert s[p + 5] == ElemByte(w, 5) && s[p + 6] == ElemByte(w, 6) && s[p + 7] == ElemByte(w, 7);
      WordRoundTrip(w / 0x1_0000_0000);
    }
  }

  lemma ImageRoundTrip(words: seq<Elem>)
    ensures FromImage(Image(words), |words|) == words
  {
    var s := Image(words);
    hide ElemAt, ElemByte;
    forall i | 0 <= i < |words|
      ensures ElemAt(s, 8 * i) == words[i]
    {
      forall k | 0 <= k < 8
        ensures s[8 * i + k] == ElemByte(words[i], k)
      {
        assert (8 * i + k) / 8 == i && (8 * i + k) % 8 == k;
      }
      ElemRoundTrip(s, 8 * i, words[i]);
    }
  }

  // ---- what the bytes mean ----------------------------------------------------

  /** Byte K of a word holds its bits 8K to 8K + 7. */
  lemma ByteBit(w: Elem, k: nat, j: nat)
    requires k < 8 && j < 8
    ensures Bit(ElemByte(w, k), j) == Bit(w, 8 * k + j)
  {
    hide Bit;
    var lo, hi := w % 0x1_0000_0000, w / 0x1_0000_0000;
    WordShifts();
    if k < 4 {
      WordByteBit(lo, k, j);
      CutBit(w, 32, 8 * k + j);
    } else {
      WordByteBit(hi, k - 4, j);
      ShiftedBit(w, 32, 8 * (k - 4) + j);
    }
  }

  lemma WordByteBit(w: Word, k: nat, j: nat)
    requires k < 4 && j < 8
    ensures Bit(WordByte(w, k), j) == Bit(w, 8 * k + j)
  {
    hide Bit;
    WordShifts();
    ShiftedBit(w, 8 * k, j);
    CutBit(Quotient(w, Shift(8 * k)), 8, j);
    if k == 0 {
      assert WordByte(w, k) == Quotient(w, 1) % 256;
    } else if k == 1 {
      assert WordByte(w, k) == Quotient(w, 256) % 256;
    } else if k == 2 {
      assert WordByte(w, k) == Quotient(w, 65536) % 256;
    } else {
      assert WordByte(w, k) == Quotient(w, 16777216) % 256;
    }
  }

  lemma WordShifts()
    ensures Shift(0) == 1 && Shift(8) == 256 && Shift(16) == 65536 && Shift(24) == 16777216
    ensures Shift(32) == 0x1_0000_0000
  {
    ShiftByte(0);
    ShiftByte(8);
    ShiftByte(16);
    ShiftByte(24);
  }

  /** Bit I of the words is bit I % 8 of byte I / 8 of their image. */
  lemma ImageBit(words: seq<Elem>, i: nat)
    requires i < 64 * |words|
    ensures Bit(Image(words)[i / 8], i % 8) == Bit(words[i / 64], i % 64)
  {
    hide Bit, ElemByte;
    var q, k, j := i / 64, i % 64 / 8, i % 8;
    assert i / 8 == 8 * q + k && (8 * q + k) / 8 == q && (8 * q + k) % 8 == k;
    assert i % 64 == 8 * k + j;
    ByteBit(words[q], k, j);
  }

  /** A word taken from bytes has these bytes. */
  lemma BytesOfWord(s: seq<Byte>, p: nat, k: nat)
    requires p + 4 <= |s| && k < 4
    ensures WordByte(WordAt(s, p), k) == s[p + k]
  {
    var b0: int, b1: int, b2: int, b3: int := s[p], s[p + 1], s[p + 2], s[p + 3];
    var w := WordAt(s, p);
    assert w % 256 == b0 && w / 256 == b1 + 256 * b2 + 65536 * b3;
    assert w / 256 % 256 == b1 && w / 65536 == b2 + 256 * b3;
    assert w / 65536 % 256 == b2 && w / 16777216 == b3;
    assert k == 0 || k == 1 || k == 2 || k == 3;
  }

  lemma BytesOfElem(s: seq<Byte>, p: nat, k: nat)
    requires p + 8 <= |s| && k < 8
    ensures ElemByte(ElemAt(s, p), k) == s[p + k]
  {
    hide WordByte, WordAt;
    if k < 4 {
      BytesOfWord(s, p, k);
    } else {
      BytesOfWord(s, p + 4, k - 4);
    }
  }

  /** The same for words that are taken from bytes. */
  lemma FromImageBit(s: seq<Byte>, n: nat, i: nat)
    requires |s| == 8 * n && i < 64 * n
    ensures Bit(FromImage(s, n)[i / 64], i % 64) == Bit(s[i / 8], i % 8)
  {
    hide Bit, ElemByte, ElemAt;
    var q, k, j := i / 64, i % 64 / 8, i % 8;
    assert i / 8 == 8 * q + k && i % 64 == 8 * k + j;
    ByteBit(ElemAt(s, 8 * q), k, j);
    BytesOfElem(s, 8 * q, k);
  }

  /** BYTES are the bitmap B as it lies in a file: bit I % 8 of byte I / 8 is B[I], and the bits after the last are
      0. */
  ghost predicate Stores(bytes: seq<Byte>, b: seq<bool>) {
    && |bytes| == ByteCnt(|b|)
    && (forall i :: 0 <= i < |b| ==> b[i] == Bit(bytes[i / 8], i % 8))
    && (forall i {:trigger i / 8} :: |b| <= i < 8 * |bytes| ==> !Bit(bytes[i / 8], i % 8))
  }

  /** The image of a bitmap stores it. */
  lemma ImageStores(words: seq<Elem>, bitCnt: nat)
    requires |words| == ElemCnt(bitCnt) && SlackClear(words, bitCnt)
    ensures Stores(Image(words), Flags(words, bitCnt))
  {
    hide Bit, Image;
    forall i | 0 <= i < 64 * |words|
      ensures Bit(Image(words)[i / 8], i % 8) == Bit(words[i / 64], i % 64)
    {
      ImageBit(words, i);
    }
  }

  /** Bytes that store a bitmap are the image of words with its bits. */
  lemma StoredFlags(bytes: seq<Byte>, b: seq<bool>)
    requires Stores(bytes, b)
    ensures Flags(FromImage(bytes, ElemCnt(|b|)), |b|) == b
    ensures SlackClear(FromImage(bytes, ElemCnt(|b|)), |b|)
  {
    hide Bit, FromImage;
    var n := ElemCnt(|b|);
    forall i | 0 <= i < 64 * n
      ensures Bit(FromImage(bytes, n)[i / 64], i % 64) == Bit(bytes[i / 8], i % 8)
    {
      FromImageBit(bytes, n, i);
    }
    assert forall i :: |b| <= i < 64 * n ==> !Bit(bytes[i / 8], i % 8);
  }

  /** The bits of a bitmap whose first bytes have been replaced by IMAGE. */
  lemma OverFlags(image: seq<Byte>, words: seq<Elem>, bitCnt: nat, i: nat)
    requires |words| == ElemCnt(bitCnt) && |image| <= ByteCnt(bitCnt) && i < bitCnt
    ensures Flags(FromImage(Over(image, words), ElemCnt(bitCnt)), bitCnt)[i]
         == if i / 8 < |image| then Bit(image[i / 8], i % 8) else Flags(words, bitCnt)[i]
  {
    hide Bit, Image, FromImage;
    FromImageBit(Over(image, words), ElemCnt(bitCnt), i);
    ImageBit(words, i);
  }

  // ---- the bitmap -------------------------------------------------------------

  class BitVector {
    const bitCnt: nat
    const words: array<Elem>

    ghost predicate Valid()
      reads words
    {
      words.Length == ElemCnt(bitCnt) && SlackClear(words[..], bitCnt)
    }

    /** The abstract value: one boolean for each bit. */
    ghost function Contents(): (b: seq<bool>)
      requires Valid()
      reads words
      ensures |b| == bitCnt
    {
      Flags(words[..], bitCnt)
    }

    /** bitmap_create */
    constructor (n: nat)
      ensures Valid() && fresh(words) && bitCnt == n
      ensures Contents() == seq(n, _ => false)
    {
      bitCnt := n;
      words := new Elem[ElemCnt(n)](_ => 0);
      new;
      forall i | 0 <= i < 64 ensures !Bit(0, i) { ZeroBit(i); }
      assert forall k :: 0 <= k < words.Length ==> words[..][k] == 0;
    }

    /** Replacing one word with another that differs in bit IDX at most. */
    lemma Changed(before: seq<Elem>, after: seq<Elem>, idx: nat, v: bool)
      requires |before| == ElemCnt(bitCnt) && idx < bitCnt && SlackClear(before, bitCnt)
      requires |after| == |before| && after == before[idx / 64 := after[idx / 64]]
      requires forall j :: 0 <= j < 64 ==>
        Bit(after[idx / 64], j) == if j == idx % 64 then v else Bit(before[idx / 64], j)
      ensures SlackClear(after, bitCnt)
      ensures Flags(after, bitCnt) == Flags(before, bitCnt)[idx := v]
    {
      assert forall i :: 0 <= i < 64 * |before| ==>
        Bit(after[i / 64], i % 64) == if i == idx then v else Bit(before[i / 64], i % 64);
    }

    method Mark(idx: nat)
      requires Valid() && idx < bitCnt
      modifies words
      ensures Valid() && Contents() == old(Contents())[idx := true]
    {
      ghost var before := words[..];
      ghost var w := words[idx / 64];
      OrWord(w, BitMask(idx));
      words[idx / 64] := Or(words[idx / 64], BitMask(idx));
      forall j | 0 <= j < 64
        ensures Bit(words[idx / 64], j) == if j == idx % 64 then true else Bit(w, j)
      {
        OrBit(w, BitMask(idx), j);
        ShiftBit(idx % 64, j);
      }
      Changed(before, words[..], idx, true);
    }

    lemma OrWord(a: Elem, b: Elem)
      ensures Or(a, b) < 0x1_0000_0000_0000_0000
      ensures Xor(a, b) < 0x1_0000_0000_0000_0000
      ensures And(a, b) < 0x1_0000_0000_0000_0000
    {
      ShiftFitsWord(64);
      OrFits(a, b, 64);
      XorFits(a, b, 64);
      AndFits(a, b, 64);
    }

    method Reset(idx: nat)
      requires Valid() && idx < bitCnt
      modifies words
      ensures Valid() && Contents() == old(Contents())[idx := false]
    {
      ghost var before := words[..];
      ghost var w := words[idx / 64];
      NotWord(BitMask(idx));
      OrWord(w, Not(BitMask(idx), 64));
      words[idx / 64] := And(words[idx / 64], Not(BitMask(idx), 64));
      forall j | 0 <= j < 64
        ensures Bit(words[idx / 64], j) == if j == idx % 64 then false else Bit(w, j)
      {
        AndBit(w, Not(BitMask(idx), 64), j);
        NotBit(BitMask(idx), 64, j);
        ShiftBit(idx % 64, j);
      }
      Changed(before, words[..], idx, false);
    }

    lemma NotWord(a: Elem)
      ensures Not(a, 64) < 0x1_0000_0000_0000_0000
    {
      ShiftFitsWord(64);
      NotFits(a, 64);
    }

    method Flip(idx: nat)
      requires Valid() && idx < bitCnt
      modifies words
      ensures Valid() && Contents() == old(Contents())[idx := !old(Contents())[idx]]
    {
      ghost var before := words[..];
      ghost var w := words[idx / 64];
      OrWord(w, BitMask(idx));
      words[idx / 64] := Xor(words[idx / 64], BitMask(idx));
      forall j | 0 <= j < 64
        ensures Bit(words[idx / 64], j) == if j == idx % 64 then !Bit(w, j) else Bit(w, j)
      {
        XorBit(w, BitMask(idx), j);
        ShiftBit(idx % 64, j);
      }
      Changed(before, words[..], idx, !Bit(w, idx % 64));
    }

    method Set(idx: nat, value: bool)
      requires Valid() && idx < bitCnt
      modifies words
      ensures Valid() && Contents() == old(Contents())[idx := value]
    {
      if value {
        Mark(idx);
      } else {
        Reset(idx);
      }
    }

    method Test(idx: nat) returns (r: bool)
      requires Valid() && idx < bitCnt
      ensures r == Contents()[idx]
    {
      r := And(words[idx / 64], BitMask(idx)) != 0;
      AndMask(words[idx / 64], idx % 64);
    }

    method SetMultiple(start: nat, cnt: nat, value: bool)
      requires Valid() && start + cnt <= bitCnt
      modifies words
      ensures Valid() && Contents() == Filled(old(Contents()), start, cnt, value)
    {
      for i := 0 to cnt
        invariant Valid() && Contents() == Filled(old(Contents()), start, i, value)
      {
        Set(start + i, value);
      }
    }

    method CountBits(start: nat, cnt: nat, value: bool) returns (n: nat)
      requires Valid() && start + cnt <= bitCnt
      ensures n == Count(Contents()[start..start + cnt], value)
    {
      hide Count, Flags, SlackClear;
      n := 0;
      CountNone(Contents(), start, value);
      for i := 0 to cnt
        invariant n == Count(Contents()[start..start + i], value)
      {
        var t := Test(start + i);
        CountNext(Contents(), start, i, value);
        if t == value {
          n := n + 1;
        }
      }
    }

    method Contains(start: nat, cnt: nat, value: bool) returns (r: bool)
      requires Valid() && start + cnt <= bitCnt
      ensures r == !Group(Contents(), start, cnt, !value)
    {
      for i := 0 to cnt
        invariant Group(Contents(), start, i, !value)
      {
        var t := Test(start + i);
        if t == value {
          return true;
        }
      }
      return false;
    }

    /** bitmap_scan: the least start of a group, or BITMAP_ERROR when there is none.  In a bitmap of 2^32 - 1 bits or
        more that value can be a start, too. */
    method Scan(start: nat, cnt: nat, value: bool) returns (r: nat)
      requires Valid() && start <= bitCnt
      ensures (exists k :: start <= k && Group(Contents(), k, cnt, value)) ==>
        start <= r && Group(Contents(), r, cnt, value)
      ensures forall k :: start <= k < r ==> !Group(Contents(), k, cnt, value)
      ensures (forall k :: start <= k ==> !Group(Contents(), k, cnt, value)) ==> r == BITMAP_ERROR
    {
      if cnt <= bitCnt {
        var last := bitCnt - cnt;
        var i := start;
        while i <= last
          invariant start <= i
          invariant forall k :: start <= k < i ==> !Group(Contents(), k, cnt, value)
        {
          var c := Contains(i, cnt, !value);
          if !c {
            return i;
          }
          i := i + 1;
        }
      }
      return BITMAP_ERROR;
    }

    /** bitmap_scan_and_flip */
    method ScanAndFlip(start: nat, cnt: nat, value: bool) returns (r: nat)
      requires Valid() && start <= bitCnt
      modifies words
      ensures Valid()
      ensures r != BITMAP_ERROR ==> start <= r && Group(old(Contents()), r, cnt, value)
      ensures forall k :: start <= k < r ==> !Group(old(Contents()), k, cnt, value)
      ensures (forall k :: start <= k ==> !Group(old(Contents()), k, cnt, value)) ==> r == BITMAP_ERROR
      ensures bitCnt < BITMAP_ERROR && r == BITMAP_ERROR ==>
        forall k :: start <= k ==> !Group(old(Contents()), k, cnt, value)
      ensures r == BITMAP_ERROR ==> Contents() == old(Contents())
      ensures r != BITMAP_ERROR ==> Contents() == Filled(old(Contents()), r, cnt, !value)
      ensures r != BITMAP_ERROR ==> Count(Contents(), value) == Count(old(Contents()), value) - cnt
      ensures r != BITMAP_ERROR ==> Count(Contents(), !value) == Count(old(Contents()), !value) + cnt
    {
      ghost var b := Contents();
      r := Scan(start, cnt, value);
      assert Contents() == b;
      if r != BITMAP_ERROR {
        CountFilled(b, r, cnt, !value);
        SetMultiple(r, cnt, !value);
      }
    }

    /** bitmap_read, once the file has delivered IMAGE: load the words and mask the last one.  A file that is too short
        replaces only the first bytes, and is reported. */
    method Load(image: seq<Byte>) returns (ok: bool)
      requires words.Length == ElemCnt(bitCnt) && |image| <= ByteCnt(bitCnt)
      modifies words
      ensures Valid() && ok == (|image| == ByteCnt(bitCnt))
      ensures forall i :: 0 <= i < bitCnt ==>
        Contents()[i] == if i / 8 < |image| then Bit(image[i / 8], i % 8) else Flags(old(words[..]), bitCnt)[i]
      ensures Contents() == Flags(FromImage(Over(image, old(words[..])), ElemCnt(bitCnt)), bitCnt)
      ensures SlackClear(FromImage(Over(image, old(words[..])), ElemCnt(bitCnt)), bitCnt) ==>
        words[..] == FromImage(Over(image, old(words[..])), ElemCnt(bitCnt))
    {
      hide ElemAt, Bit, And, LastMask, SlackClear, Flags, Image;
      ok := |image| == ByteCnt(bitCnt);
      var full := Over(image, words[..]);
      ghost var loaded := FromImage(full, ElemCnt(bitCnt));
      forall i | 0 <= i < bitCnt
        ensures Flags(loaded, bitCnt)[i]
             == if i / 8 < |image| then Bit(image[i / 8], i % 8) else Flags(words[..], bitCnt)[i]
      {
        OverFlags(image, words[..], bitCnt, i);
      }
      NoWords(loaded);
      if bitCnt > 0 {
        for i := 0 to words.Length
          invariant words[..i] == loaded[..i]
        {
          words[i] := ElemAt(full, 8 * i);
        }
        var last := ElemCnt(bitCnt) - 1;
        OrWord(words[last], LastMask(bitCnt));
        words[last] := And(words[last], LastMask(bitCnt));
        LastWord(loaded, words[last]);
        assert words[..] == loaded[last := words[last]];
      } else {
        assert words[..] == loaded;
      }
    }

    lemma NoWords(loaded: seq<Elem>)
      requires |loaded| == ElemCnt(bitCnt)
      ensures bitCnt == 0 ==> SlackClear([], 0) && loaded == []
    {
    }

    /** Masking the last word clears its unused bits and no others. */
    lemma LastWordBits(v: Elem, j: nat)
      requires bitCnt > 0 && j < 64
      ensures Bit(And(v, LastMask(bitCnt)), j) == (Bit(v, j) && 64 * (ElemCnt(bitCnt) - 1) + j < bitCnt)
    {
      AndBit(v, LastMask(bitCnt), j);
      LastMaskBit(bitCnt, j);
    }

    lemma LastWord(loaded: seq<Elem>, w: Elem)
      requires bitCnt > 0 && |loaded| == ElemCnt(bitCnt)
      requires w == And(loaded[ElemCnt(bitCnt) - 1], LastMask(bitCnt))
      ensures var masked := loaded[ElemCnt(bitCnt) - 1 := w];
              && SlackClear(masked, bitCnt) && Flags(masked, bitCnt) == Flags(loaded, bitCnt)
              && (SlackClear(loaded, bitCnt) ==> masked == loaded)
    {
      hide Bit, And, LastMask;
      var last := ElemCnt(bitCnt) - 1;
      forall j | 0 <= j < 64
        ensures Bit(w, j) == (Bit(loaded[last], j) && 64 * last + j < bitCnt)
      {
        LastWordBits(loaded[last], j);
      }
      MaskedBits(loaded, w);
      if SlackClear(loaded, bitCnt) {
        SlackOfLast(loaded, w);
      }
    }

    lemma MaskedBits(loaded: seq<Elem>, w: Elem)
      requires bitCnt > 0 && |loaded| == ElemCnt(bitCnt)
      requires forall j :: 0 <= j < 64 ==>
        Bit(w, j) == (Bit(loaded[ElemCnt(bitCnt) - 1], j) && 64 * (ElemCnt(bitCnt) - 1) + j < bitCnt)
      ensures var masked := loaded[ElemCnt(bitCnt) - 1 := w];
              SlackClear(masked, bitCnt) && Flags(masked, bitCnt) == Flags(loaded, bitCnt)
    {
      hide Bit;
      var masked := loaded[ElemCnt(bitCnt) - 1 := w];
      assert forall i :: 0 <= i < 64 * |loaded| ==>
        Bit(masked[i / 64], i % 64) == (Bit(loaded[i / 64], i % 64) && i < bitCnt);
    }

    lemma SlackOfLast(loaded: seq<Elem>, w: Elem)
      requires bitCnt > 0 && |loaded| == ElemCnt(bitCnt) && SlackClear(loaded, bitCnt)
      requires forall j :: 0 <= j < 64 ==>
        Bit(w, j) == (Bit(loaded[ElemCnt(bitCnt) - 1], j) && 64 * (ElemCnt(bitCnt) - 1) + j < bitCnt)
      ensures w == loaded[ElemCnt(bitCnt) - 1]
    {
      hide Bit;
      var last := ElemCnt(bitCnt) - 1;
      forall j | 0 <= j < 64
        ensures Bit(w, j) == Bit(loaded[last], j)
      {
        assert (64 * last + j) / 64 == last;
      }
      ShiftFitsWord(64);
      SameBits(w, loaded[last], 64);
    }
  }

  /** `word & mask != 0` tests the bit. */
  lemma AndMask(w: nat, k: nat)
    ensures (And(w, Shift(k)) != 0) == Bit(w, k)
  {
    forall i ensures Bit(And(w, Shift(k)), i) == (i == k && Bit(w, k)) {
      AndBit(w, Shift(k), i);
      ShiftBit(k, i);
    }
    if Bit(w, k) {
      ZeroBit(k);
    } else {
      NoBits(And(w, Shift(k)));
    }
  }
}
