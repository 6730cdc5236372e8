/** Directory entries and the table of slots they form (directory.h, directory.c), as values. */
module DirTable {
  import opened Layout

  const NAME_MAX := 30
  const ENTRY_SIZE := 36

  /** A file name: a C string without its terminator. */
  type Name = seq<Byte>

  /** struct dir_entry: 4 bytes of sector number, 31 bytes of name, 1 byte of flag. */
  datatype Slot = Slot(sector: Word, name: seq<Byte>, inUse: bool)

  function EncodeSlot(s: Slot): (b: seq<Byte>)
    requires |s.name| == 31
    ensures |b| == 36
  {
    [WordByte(s.sector, 0), WordByte(s.sector, 1), WordByte(s.sector, 2), WordByte(s.sector, 3)]
    + s.name + [if s.inUse then 1 else 0]
  }

  function DecodeSlot(b: seq<Byte>): (s: Slot)
    requires |b| == 36
    ensures |s.name| == 31
  {
    Slot(WordAt(b, 0), b[4..35], b[35] != 0)
  }

  lemma SlotRoundTrip(s: Slot)
    requires |s.name| == 31
    ensures DecodeSlot(EncodeSlot(s)) == s
  {
    WordRoundTrip(s.sector);
    assert EncodeSlot(s)[4..35] == s.name;
  }

  /** Where the fields of a slot lie in its 36 bytes. */
  lemma SlotLayout(s: Slot)
    requires |s.name| == 31
    ensures WordIs(EncodeSlot(s), 0, s.sector) && EncodeSlot(s)[35] == if s.inUse then 1 else 0
    ensures forall i :: 0 <= i < 31 ==> EncodeSlot(s)[4 + i] == s.name[i]
  {
    WordRoundTrip(s.sector);
  }

  /** The C string at the start of a buffer. */
  function CString(b: seq<Byte>): (n: Name)
    ensures |n| <= |b| && n == b[..|n|] && 0 !in n
    ensures |n| < |b| ==> b[|n|] == 0
  {
    if b == [] || b[0] == 0 then []
    else
      var n := CString(b[1..]);
      assert b == [b[0]] + b[1..];
      [b[0]] + n
  }

  /** strncpy into the 31 bytes of a name. */
  function Padded31(n: Name): (b: seq<Byte>)
    requires |n| <= 30
    ensures |b| == 31 && forall i :: 0 <= i < 31 ==> b[i] == if i < |n| then n[i] else 0
  {
    n + Zeros(31 - |n|)
  }

  lemma {:induction false} PaddedString(n: Name, k: nat)
    requires 0 !in n && k > 0
    ensures CString(n + Zeros(k)) == n
  {
    if n != [] {
      assert (n + Zeros(k))[1..] == n[1..] + Zeros(k);
      PaddedString(n[1..], k);
    }
  }

  function NameOf(s: Slot): Name {
    CString(s.name)
  }

  /** The slots in the bytes of a directory file; an incomplete slot at the end does not count. */
  function Table(bytes: seq<Byte>): (t: seq<Slot>)
    ensures |t| == |bytes| / 36
    ensures forall i :: 0 <= i < |t| ==> |t[i].name| == 31
  {
    seq(|bytes| / 36, i requires 0 <= i < |bytes| / 36 => DecodeSlot(bytes[36 * i..36 * i + 36]))
  }

  /** Where the slots of a directory file lie. */
  lemma TableLayout(bytes: seq<Byte>, i: nat)
    requires i < |Table(bytes)|
    ensures 36 * i + 36 <= |bytes| && WordIs(bytes, 9 * i, Table(bytes)[i].sector)
    ensures Table(bytes)[i].name == bytes[36 * i + 4..36 * i + 35]
    ensures Table(bytes)[i].inUse <==> bytes[36 * i + 35] != 0
  {
    var b := bytes[36 * i..36 * i + 36];
    assert forall j :: 0 <= j < 36 ==> b[j] == bytes[36 * i + j];
    assert b[4..35] == bytes[36 * i + 4..36 * i + 35];
  }

  // ---- tables -------------------------------------------------------------------------

  /** A name dir_add accepts. */
  predicate ValidName(n: Name) {
    0 < |n| <= NAME_MAX && 0 !in n
  }

  /** Slot I (not the parent entry in slot 0) is in use. */
  predicate Live(t: seq<Slot>, i: int) {
    1 <= i < |t| && t[i].inUse
  }

  /** Live names are distinct. */
  ghost predicate Distinct(t: seq<Slot>) {
    forall i, j :: Live(t, i) && Live(t, j) && i != j ==> NameOf(t[i]) != NameOf(t[j])
  }

  /** The parent entry is in place, and the live names are valid and distinct. */
  ghost predicate TableOk(t: seq<Slot>) {
    && |t| >= 1 && t[0].inUse
    && (forall i :: 0 <= i < |t| ==> |t[i].name| == 31)
    && (forall i :: Live(t, i) ==> ValidName(NameOf(t[i])))
    && Distinct(t)
  }

  /** The directory a table stands for. */
  function Entries(t: seq<Slot>): map<Name, Word> {
    if |t| <= 1 then map[]
    else
      var s := t[|t| - 1];
      if s.inUse then Entries(t[..|t| - 1])[NameOf(s) := s.sector] else Entries(t[..|t| - 1])
  }

  /** Entries are exactly the live slots. */
  lemma {:induction false} EntriesAre(t: seq<Slot>)
    requires Distinct(t)
    ensures forall i :: Live(t, i) ==> NameOf(t[i]) in Entries(t) && Entries(t)[NameOf(t[i])] == t[i].sector
    ensures forall n :: n in Entries(t) ==> exists i :: Live(t, i) && NameOf(t[i]) == n
  {
    if |t| > 1 {
      var k := |t| - 1;
      var u := t[..k];
      assert forall i :: Live(u, i) <==> Live(t, i) && i != k;
      assert forall i :: Live(u, i) ==> u[i] == t[i];
      EntriesAre(u);
      forall n | n in Entries(t)
        ensures exists i :: Live(t, i) && NameOf(t[i]) == n
      {
        if t[k].inUse && n == NameOf(t[k]) {
          assert Live(t, k);
        } else {
          var i :| Live(u, i) && NameOf(u[i]) == n;
          assert Live(t, i) && NameOf(t[i]) == n;
        }
      }
    }
  }

  /** T with slot K replaced, or appended when K is the end. */
  function SetSlot(t: seq<Slot>, k: nat, s: Slot): (r: seq<Slot>)
    requires k <= |t|
    ensures |r| == if k == |t| then |t| + 1 else |t|
  {
    if k == |t| then t + [s] else t[k := s]
  }

  lemma NewName(n: Name, sector: Word)
    requires ValidName(n)
    ensures NameOf(Slot(sector, Padded31(n), true)) == n
  {
    PaddedString(n, 31 - |n|);
  }

  lemma LiveAfterSet(t: seq<Slot>, k: nat, s: Slot)
    requires 1 <= k <= |t| && (k < |t| ==> !t[k].inUse) && s.inUse
    ensures forall i :: Live(SetSlot(t, k, s), i) <==> Live(t, i) || i == k
    ensures SetSlot(t, k, s)[k] == s && SetSlot(t, k, s)[0] == t[0]
    ensures forall i :: Live(t, i) ==> i != k && SetSlot(t, k, s)[i] == t[i]
  {
  }

  lemma SetKeepsOk(t: seq<Slot>, k: nat, s: Slot)
    requires TableOk(t) && 1 <= k <= |t| && (k < |t| ==> !t[k].inUse) && s.inUse && |s.name| == 31
    requires ValidName(NameOf(s)) && forall i :: Live(t, i) ==> NameOf(t[i]) != NameOf(s)
    ensures TableOk(SetSlot(t, k, s))
  {
    hide NameOf, ValidName, Live;
    LiveAfterSet(t, k, s);
    LiveRange(SetSlot(t, k, s));
    LiveRange(t);
  }

  lemma LiveRange(t: seq<Slot>)
    ensures forall i :: Live(t, i) ==> 1 <= i < |t| && t[i].inUse
  {
  }

  /** Filling a free slot adds one name and disturbs no other. */
  lemma AddEntry(t: seq<Slot>, k: nat, n: Name, sector: Word)
    requires TableOk(t) && 1 <= k <= |t| && (k < |t| ==> !t[k].inUse) && ValidName(n) && n !in Entries(t)
    ensures TableOk(SetSlot(t, k, Slot(sector, Padded31(n), true)))
    ensures Entries(SetSlot(t, k, Slot(sector, Padded31(n), true))) == Entries(t)[n := sector]
  {
    hide NameOf, Entries, ValidName, Live, SetSlot, TableOk, Padded31;
    NameFits(n);
    var s := Slot(sector, Padded31(n), true);
    var r := SetSlot(t, k, s);
    NewName(n, sector);
    OkDistinct(t);
    EntriesAre(t);
    LiveAfterSet(t, k, s);
    SetKeepsOk(t, k, s);
    OkDistinct(r);
    EntriesAre(r);
    LiveRange(r);
    MapsAgree(Entries(r), Entries(t)[n := sector], r, t, k, n, sector);
  }

  lemma NameFits(n: Name)
    requires ValidName(n)
    ensures |n| <= 30
  {
  }

  lemma OkDistinct(t: seq<Slot>)
    requires TableOk(t)
    ensures |t| >= 1 && Distinct(t)
  {
  }

  lemma MapsAgree(a: map<Name, Word>, b: map<Name, Word>, r: seq<Slot>, t: seq<Slot>, k: nat, n: Name, sector: Word)
    requires k < |r| && (forall i :: Live(r, i) <==> Live(t, i) || i == k) && NameOf(r[k]) == n && r[k].sector == sector
    requires forall i :: Live(t, i) ==> i < |r| && i != k && r[i] == t[i] && NameOf(t[i]) != n
    requires forall i :: Live(r, i) ==> NameOf(r[i]) in a && a[NameOf(r[i])] == r[i].sector
    requires forall x :: x in a ==> exists i :: Live(r, i) && NameOf(r[i]) == x
    requires b == Entries(t)[n := sector]
    requires forall i :: Live(t, i) ==> NameOf(t[i]) in Entries(t) && Entries(t)[NameOf(t[i])] == t[i].sector
    requires forall x :: x in Entries(t) ==> exists i :: Live(t, i) && NameOf(t[i]) == x
    ensures a == b
  {
    assert Live(r, k);
    forall x | x in a
      ensures x in b && a[x] == b[x]
    {
      var i :| Live(r, i) && NameOf(r[i]) == x;
      if i != k { assert Live(t, i); }
    }
    forall x | x in b
      ensures x in a
    {
      if x != n {
        var i :| Live(t, i) && NameOf(t[i]) == x;
        assert Live(r, i);
      }
    }
  }

  lemma LiveAfterClear(t: seq<Slot>, k: nat)
    requires Live(t, k)
    ensures forall i :: Live(t[k := t[k].(inUse := false)], i) <==> Live(t, i) && i != k
    ensures forall i :: Live(t[k := t[k].(inUse := false)], i) ==> t[k := t[k].(inUse := false)][i] == t[i]
  {
  }

  lemma ClearKeepsOk(t: seq<Slot>, k: nat)
    requires TableOk(t) && Live(t, k)
    ensures TableOk(t[k := t[k].(inUse := false)])
  {
    hide NameOf, ValidName;
    LiveAfterClear(t, k);
  }

  /** Clearing the flag of a live slot removes its name and disturbs no other. */
  lemma RemoveEntry(t: seq<Slot>, k: nat)
    requires TableOk(t) && Live(t, k)
    ensures TableOk(t[k := t[k].(inUse := false)])
    ensures Entries(t[k := t[k].(inUse := false)]) == Entries(t) - {NameOf(t[k])}
  {
    hide NameOf, Entries, ValidName, Live, TableOk;
    LiveRange(t);
    var r := t[k := t[k].(inUse := false)];
    OkDistinct(t);
    EntriesAre(t);
    LiveAfterClear(t, k);
    ClearKeepsOk(t, k);
    OkDistinct(r);
    EntriesAre(r);
    LiveRange(r);
    var a, b := Entries(r), Entries(t) - {NameOf(t[k])};
    forall x | x in a
      ensures x in b && a[x] == b[x]
    {
      var i :| Live(r, i) && NameOf(r[i]) == x;
      assert Live(t, i);
    }
    forall x | x in b
      ensures x in a
    {
      var i :| Live(t, i) && NameOf(t[i]) == x;
      assert Live(r, i);
    }
  }

  // ---- searching ----------------------------------------------------------------------

  /** The first live slot from I on with name N, or the end. */
  function FindName(t: seq<Slot>, n: Name, i: nat): (k: nat)
    requires 1 <= i <= |t|
    ensures i <= k <= |t| && (k < |t| ==> Live(t, k) && NameOf(t[k]) == n)
    ensures forall j :: i <= j < k ==> !(Live(t, j) && NameOf(t[j]) == n)
    decreases |t| - i
  {
    if i == |t| then i
    else if t[i].inUse && NameOf(t[i]) == n then i
    else FindName(t, n, i + 1)
  }

  /** The first slot from I on that is not in use, or the end. */
  function FirstFree(t: seq<Slot>, i: nat): (k: nat)
    requires i <= |t|
    ensures i <= k <= |t| && (k < |t| ==> !t[k].inUse)
    ensures forall j :: i <= j < k ==> t[j].inUse
    decreases |t| - i
  {
    if i == |t| then i
    else if !t[i].inUse then i
    else FirstFree(t, i + 1)
  }

  /** Looking a name up in the slots is looking it up in the directory. */
  lemma LookupIsMembership(t: seq<Slot>, n: Name)
    requires TableOk(t)
    ensures FindName(t, n, 1) < |t| <==> n in Entries(t)
    ensures FindName(t, n, 1) < |t| ==> Entries(t)[n] == t[FindName(t, n, 1)].sector
  {
    EntriesAre(t);
    if n in Entries(t) {
      var i :| Live(t, i) && NameOf(t[i]) == n;
    }
  }

  // ---- runs of additions and removals ---------------------------------------------------

  datatype DirOp = Add(name: Name, sector: Word) | Erase(name: Name)

  /** dir_add and the erasing part of dir_remove, on the slots. */
  function SlotsAfter(t: seq<Slot>, op: DirOp): (r: seq<Slot>)
    requires |t| >= 1
    ensures |r| >= |t|
  {
    match op
    case Add(n, sector) =>
      if ValidName(n) && FindName(t, n, 1) == |t| then SetSlot(t, FirstFree(t, 0), Slot(sector, Padded31(n), true))
      else t
    case Erase(n) =>
      var k := FindName(t, n, 1);
      if k < |t| then t[k := t[k].(inUse := false)] else t
  }

  /** The same on a map from names to sectors. */
  function MapAfter(m: map<Name, Word>, op: DirOp): map<Name, Word> {
    match op
    case Add(n, sector) => if ValidName(n) && n !in m then m[n := sector] else m
    case Erase(n) => m - {n}
  }

  lemma OpRefines(t: seq<Slot>, op: DirOp)
    requires TableOk(t)
    ensures TableOk(SlotsAfter(t, op)) && SlotsAfter(t, op)[0] == t[0]
    ensures Entries(SlotsAfter(t, op)) == MapAfter(Entries(t), op)
  {
    hide Entries, FindName, FirstFree, ValidName, NameOf;
    LookupIsMembership(t, op.name);
    match op
    case Add(n, sector) =>
      if ValidName(n) && n !in Entries(t) {
        AddEntry(t, FirstFree(t, 0), n, sector);
      }
    case Erase(n) =>
      if n in Entries(t) {
        RemoveEntry(t, FindName(t, n, 1));
      } else {
        assert Entries(t) - {n} == Entries(t);
      }
  }

  function SlotsRun(t: seq<Slot>, ops: seq<DirOp>): (r: seq<Slot>)
    requires |t| >= 1
    ensures |r| >= |t|
    decreases |ops|
  {
    if ops == [] then t else SlotsRun(SlotsAfter(t, ops[0]), ops[1..])
  }

  function MapRun(m: map<Name, Word>, ops: seq<DirOp>): map<Name, Word>
    decreases |ops|
  {
    if ops == [] then m else MapRun(MapAfter(m, ops[0]), ops[1..])
  }

  /** After any run of additions and removals the slots stand for the map, live names are distinct, and the parent
      entry is untouched. */
  lemma {:induction false} RunRefines(t: seq<Slot>, ops: seq<DirOp>)
    requires TableOk(t)
    ensures TableOk(SlotsRun(t, ops)) && Entries(SlotsRun(t, ops)) == MapRun(Entries(t), ops)
    ensures SlotsRun(t, ops)[0] == t[0]
    decreases |ops|
  {
    if ops != [] {
      OpRefines(t, ops[0]);
      RunRefines(SlotsAfter(t, ops[0]), ops[1..]);
    }
  }

  // ---- listing --------------------------------------------------------------------------

  /** The names dir_readdir delivers from slot I on. */
  function Listing(t: seq<Slot>, i: nat): seq<Name>
    requires 1 <= i <= |t|
    decreases |t| - i
  {
    if i == |t| then [] else (if t[i].inUse then [NameOf(t[i])] else []) + Listing(t, i + 1)
  }

  lemma {:induction false} ListingFrom(t: seq<Slot>, i: nat)
    requires TableOk(t) && 1 <= i <= |t|
    ensures forall n :: n in Listing(t, i) <==> exists k :: i <= k && Live(t, k) && NameOf(t[k]) == n
    ensures forall a, b :: 0 <= a < b < |Listing(t, i)| ==> Listing(t, i)[a] != Listing(t, i)[b]
    decreases |t| - i
  {
    hide NameOf, ValidName;
    if i < |t| {
      ListingFrom(t, i + 1);
      var l := Listing(t, i + 1);
      assert Listing(t, i) == (if t[i].inUse then [NameOf(t[i])] else []) + l;
      assert Live(t, i) <==> t[i].inUse;
      assert forall n :: n in Listing(t, i) <==> (t[i].inUse && n == NameOf(t[i])) || n in l;
      forall n | n in Listing(t, i)
        ensures exists k :: i <= k && Live(t, k) && NameOf(t[k]) == n
      {
        if n in l {
          var k :| i + 1 <= k && Live(t, k) && NameOf(t[k]) == n;
          assert i <= k;
        } else {
          assert Live(t, i) && NameOf(t[i]) == n;
        }
      }
      forall k | i <= k && Live(t, k)
        ensures NameOf(t[k]) in Listing(t, i)
      {
        assert k > i ==> NameOf(t[k]) in l;
      }
      if t[i].inUse {
        forall b | 0 <= b < |l|
          ensures l[b] != NameOf(t[i])
        {
          assert l[b] in l;
          var k :| i + 1 <= k && Live(t, k) && NameOf(t[k]) == l[b];
        }
      }
    }
  }

  /** Reading a directory from its start lists each entry exactly once. */
  lemma ListingIsEntries(t: seq<Slot>)
    requires TableOk(t)
    ensures forall n :: n in Listing(t, 1) <==> n in Entries(t)
    ensures forall a, b :: 0 <= a < b < |Listing(t, 1)| ==> Listing(t, 1)[a] != Listing(t, 1)[b]
  {
    ListingFrom(t, 1);
    EntriesAre(t);
  }
}
