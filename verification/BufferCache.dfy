/** The write-back buffer cache with clock replacement (cache.c), over a device that is an
    array of sectors.  `view` is what an uncached device would hold. */
module BufferCache {
  import opened Layout

  const CACHE_SIZE := 64

  /** struct buffer_cache_entry_t */
  datatype Slot = Slot(occupied: bool, sector: nat, buffer: Sector, dirty: bool, access: bool)

  /** The slot J places after the hand C, going round once. */
  function Ahead(c: nat, j: nat): nat
    requires c < 64 && j <= 64
  {
    if c + j < 64 then c + j else c + j - 64
  }

  /** Occupied and recently used: the sweep gives such a slot a second chance. */
  predicate Spared(s: Slot) {
    s.occupied && s.access
  }

  ghost predicate Full(slots: seq<Slot>) {
    forall i :: 0 <= i < |slots| ==> slots[i].occupied
  }

  /** No sector is cached twice, cached sectors exist, clean slots agree with the disk. */
  ghost predicate Coherent(slots: seq<Slot>, disk: Disk) {
    && (forall i :: 0 <= i < |slots| && slots[i].occupied ==> slots[i].sector < |disk|)
    && (forall i :: 0 <= i < |slots| && slots[i].occupied && !slots[i].dirty ==>
          disk[slots[i].sector] == slots[i].buffer)
    && (forall i, j :: 0 <= i < j < |slots| && slots[i].occupied && slots[j].occupied ==>
          slots[i].sector != slots[j].sector)
  }

  ghost predicate Cached(slots: seq<Slot>, s: nat) {
    exists i :: 0 <= i < |slots| && slots[i].occupied && slots[i].sector == s
  }

  /** VIEW is the logical device: the slot that caches a sector wins over the disk. */
  ghost predicate Shows(slots: seq<Slot>, disk: Disk, view: Disk)
    requires Coherent(slots, disk)
  {
    && |view| == |disk|
    && (forall i :: 0 <= i < |slots| && slots[i].occupied ==> view[slots[i].sector] == slots[i].buffer)
    && (forall s :: 0 <= s < |disk| && !Cached(slots, s) ==> view[s] == disk[s])
  }

  /** From a cold start the occupied slots are exactly those the hand has passed, and the slot
      under the hand is referenced, until every slot is in use. */
  ghost predicate WarmingUp(slots: seq<Slot>, clock: nat)
    requires |slots| == 64 && clock < 64
  {
    || Full(slots)
    || (clock == 0 && forall i :: 0 <= i < 64 ==> !slots[i].occupied)
    || ((forall i :: 0 <= i < 64 ==> (slots[i].occupied <==> i <= clock)) && slots[clock].access)
  }

  /** What one sweep does to the slots: K second chances from the hand C onwards, each to a slot
      that was occupied and referenced, then a stop at the first slot that was not (or, if all 64
      were, at the hand again). */
  ghost predicate Swept(before: seq<Slot>, c: nat, k: nat, after: seq<Slot>)
    requires |before| == |after| == 64 && c < 64 && k <= 64
  {
    && (forall j :: 0 <= j < k ==> Spared(before[Ahead(c, j)]))
    && (k < 64 ==> !Spared(before[Ahead(c, k)]))
    && (forall j :: 0 <= j < k ==> after[Ahead(c, j)] == before[Ahead(c, j)].(access := false))
    && (forall j :: k <= j < 64 ==> after[Ahead(c, j)] == before[Ahead(c, j)])
  }

  /** What an eviction does to the slots: a sweep, after which the slot I under the hand is free.  It was in use
      only if all slots were; otherwise the slots in use are those before it. */
  ghost predicate Evicted(before: seq<Slot>, c: nat, k: nat, after: seq<Slot>, i: nat)
    requires |before| == |after| == 64 && c < 64 && k <= 64
  {
    && i == Ahead(c, k) && !after[i].occupied
    && (forall j :: 0 <= j < k ==> Spared(before[Ahead(c, j)]))
    && (k < 64 ==> !Spared(before[i]))
    && (forall j :: 0 <= j < k && Ahead(c, j) != i ==> after[Ahead(c, j)] == before[Ahead(c, j)].(access := false))
    && (forall j :: k <= j < 64 && Ahead(c, j) != i ==> after[Ahead(c, j)] == before[Ahead(c, j)])
    && (forall j :: 0 <= j < 64 && j != i ==> after[j].(access := before[j].access) == before[j])
    && (before[i].occupied ==> Full(before))
    && (!Full(before) ==> forall j :: 0 <= j < 64 ==> (after[j].occupied <==> j < i))
  }

  /** The disk after slot S has been given up. */
  function WrittenBack(disk: Disk, s: Slot): (r: Disk)
    ensures |r| == |disk|
  {
    if s.occupied && s.dirty && s.sector < |disk| then disk[s.sector := s.buffer] else disk
  }

  /** How slot I comes to cache SECTOR: on a hit nothing changes; on a miss the slot has been evicted, with K second
      chances, and filled from the disk. */
  ghost predicate Fetched(before: seq<Slot>, c: nat, disk: Disk, sector: nat,
                          after: seq<Slot>, c': nat, disk': Disk, i: nat, k: nat)
    requires |before| == |after| == 64 && c < 64 && i < 64 && k <= 64
  {
    && after[i].occupied && after[i].sector == sector && |disk'| == |disk|
    && (if Cached(before, sector) then
          after == before && c' == c && disk' == disk
        else
          && c' == i && disk' == WrittenBack(disk, before[i])
          && sector < |disk'| && after[i].buffer == disk'[sector] && !after[i].dirty
          && Evicted(before, c, k, after[i := after[i].(occupied := false)], i))
  }

  /** What a request does to the cache: the slot I that comes to cache SECTOR becomes referenced and holds DATA, which
      is dirty if the request was a write; a read keeps the mark of a hit. */
  ghost predicate Touched(before: seq<Slot>, c: nat, disk: Disk, sector: nat,
                          after: seq<Slot>, c': nat, disk': Disk, data: Sector, write: bool)
  {
    && |before| == |after| == 64 && c < 64
    && exists i, k, mid :: TouchedAt(before, c, disk, sector, after, c', disk', data, write, i, k, mid)
  }

  ghost predicate TouchedAt(before: seq<Slot>, c: nat, disk: Disk, sector: nat, after: seq<Slot>, c': nat, disk': Disk,
                            data: Sector, write: bool, i: nat, k: nat, mid: seq<Slot>)
  {
    && |before| == |after| == |mid| == 64 && c < 64 && i < 64 && k <= 64
    && Fetched(before, c, disk, sector, mid, c', disk', i, k)
    && after == mid[i := Slot(true, sector, data, write || mid[i].dirty, true)]
  }

  /** A referenced slot is given up only when all slots were referenced and it was under the hand. */
  lemma ReferencedSurvives(before: seq<Slot>, c: nat, k: nat, after: seq<Slot>, i: nat)
    requires |before| == |after| == 64 && c < 64 && k <= 64 && i < 64 && Evicted(before, c, k, after, i)
    requires Spared(before[i])
    ensures i == c && forall j :: 0 <= j < 64 ==> Spared(before[j])
  {
    forall j | 0 <= j < 64
      ensures Spared(before[j])
    {
      AheadOnto(c, j);
      var m :| 0 <= m < 64 && Ahead(c, m) == j;
      assert Spared(before[Ahead(c, m)]);
    }
  }

  /** The sector of one request is still cached after the next one, unless every slot was referenced. */
  lemma RequestSurvives(s0: seq<Slot>, c0: nat, d0: Disk, a: nat, s1: seq<Slot>, c1: nat, d1: Disk, data1: Sector,
                        w1: bool,
                        b: nat, s2: seq<Slot>, c2: nat, d2: Disk, data2: Sector, w2: bool)
    requires Touched(s0, c0, d0, a, s1, c1, d1, data1, w1) && Touched(s1, c1, d1, b, s2, c2, d2, data2, w2) && c1 < 64
    ensures Cached(s2, a) || forall j :: 0 <= j < 64 ==> Spared(s1[j])
  {
    var i: nat, k: nat, m: seq<Slot> :| TouchedAt(s0, c0, d0, a, s1, c1, d1, data1, w1, i, k, m);
    var j: nat, l: nat, n: seq<Slot> :| TouchedAt(s1, c1, d1, b, s2, c2, d2, data2, w2, j, l, n);
    assert s1[i].occupied && s1[i].sector == a && s1[i].access;
    if Cached(s1, b) {
      assert s2[i].occupied && s2[i].sector == a;
    } else {
      var free := n[j := n[j].(occupied := false)];
      if i == j {
        ReferencedSurvives(s1, c1, l, free, i);
      } else {
        assert free[i].(access := s1[i].access) == s1[i];
        assert s2[i].occupied && s2[i].sector == a;
      }
    }
  }

  /** Requests to the cache and the reference device that serves them without a cache. */
  datatype Request = Read(sector: nat) | Write(sector: nat, data: Sector)

  function Served(device: Disk, requests: seq<Request>): (r: (Disk, seq<Sector>))
    requires forall q :: q in requests ==> q.sector < |device|
    ensures |r.0| == |device|
  {
    if requests == [] then (device, [])
    else
      var n := |requests| - 1;
      var (d, replies) := Served(device, requests[..n]);
      match requests[n]
      case Read(s) => (d, replies + [d[s]])
      case Write(s, data) => (d[s := data], replies)
  }

  /** Freeing a clean slot keeps the logical device. */
  lemma FreeSlot(slots: seq<Slot>, disk: Disk, view: Disk, i: nat)
    requires i < |slots| && Coherent(slots, disk) && Shows(slots, disk, view)
    requires slots[i].occupied ==> !slots[i].dirty
    ensures var after := slots[i := slots[i].(occupied := false)];
            Coherent(after, disk) && Shows(after, disk, view)
  {
    var after := slots[i := slots[i].(occupied := false)];
    forall j | 0 <= j < |slots| && j != i && slots[j].occupied
      ensures Cached(after, slots[j].sector)
    {
      assert after[j].occupied;
    }
  }

  /** Writing a slot back keeps the logical device. */
  lemma FlushSlot(slots: seq<Slot>, disk: Disk, view: Disk, i: nat)
    requires i < |slots| && Coherent(slots, disk) && Shows(slots, disk, view) && slots[i].occupied
    ensures var after, disk' := slots[i := slots[i].(dirty := false)], disk[slots[i].sector := slots[i].buffer];
            Coherent(after, disk') && Shows(after, disk', view)
  {
    var after := slots[i := slots[i].(dirty := false)];
    forall j | 0 <= j < |slots| && slots[j].occupied
      ensures Cached(after, slots[j].sector)
    {
      assert after[j].occupied && after[j].sector == slots[j].sector;
    }
  }

  /** When every slot is clean, the disk is the logical device. */
  lemma AllClean(slots: seq<Slot>, disk: Disk, view: Disk)
    requires Coherent(slots, disk) && Shows(slots, disk, view)
    requires forall j :: 0 <= j < |slots| && slots[j].occupied ==> !slots[j].dirty
    ensures disk == view
  {
    forall s | 0 <= s < |disk|
      ensures disk[s] == view[s]
    {
      if Cached(slots, s) {
        var j :| 0 <= j < |slots| && slots[j].occupied && slots[j].sector == s;
      }
    }
  }

  /** Filling a free slot with an uncached sector, reading the disk, keeps the logical device. */
  lemma FillSlot(slots: seq<Slot>, disk: Disk, view: Disk, i: nat, s: nat, access: bool)
    requires i < |slots| && Coherent(slots, disk) && Shows(slots, disk, view)
    requires !slots[i].occupied && s < |disk| && !Cached(slots, s)
    ensures var after := slots[i := Slot(true, s, disk[s], false, access)];
            Coherent(after, disk) && Shows(after, disk, view)
  {
    var after := slots[i := Slot(true, s, disk[s], false, access)];
    assert forall j :: 0 <= j < |slots| && slots[j].occupied ==> slots[j].sector != s;
    forall j | 0 <= j < |slots| && slots[j].occupied
      ensures Cached(after, slots[j].sector)
    {
      assert after[j].occupied;
    }
  }

  /** Changing reference bits keeps the logical device. */
  lemma SameButAccess(slots: seq<Slot>, after: seq<Slot>, disk: Disk, view: Disk)
    requires Coherent(slots, disk) && Shows(slots, disk, view) && |slots| == |after|
    requires forall i :: 0 <= i < |slots| ==> after[i].(access := slots[i].access) == slots[i]
    ensures Coherent(after, disk) && Shows(after, disk, view)
  {
    forall j | 0 <= j < |slots| && slots[j].occupied
      ensures Cached(after, slots[j].sector)
    {
      assert after[j].(access := slots[j].access) == slots[j];
      assert after[j].occupied && after[j].sector == slots[j].sector;
    }
  }

  /** Overwriting the buffer of the slot that caches a sector updates that sector of the
      logical device and no other. */
  lemma OverwriteSlot(slots: seq<Slot>, disk: Disk, view: Disk, i: nat, data: Sector)
    requires i < |slots| && Coherent(slots, disk) && Shows(slots, disk, view) && slots[i].occupied
    ensures var after := slots[i := Slot(true, slots[i].sector, data, true, true)];
            Coherent(after, disk) && Shows(after, disk, view[slots[i].sector := data])
  {
    var after := slots[i := Slot(true, slots[i].sector, data, true, true)];
    forall j | 0 <= j < |slots| && slots[j].occupied
      ensures Cached(after, slots[j].sector)
    {
      assert after[j].occupied && after[j].sector == slots[j].sector;
    }
  }

  /** Every index is some number of places ahead of the hand. */
  lemma AheadOnto(c: nat, i: nat)
    requires c < 64 && i < 64
    ensures exists j :: 0 <= j < 64 && Ahead(c, j) == i
  {
    if c <= i { assert Ahead(c, i - c) == i; } else { assert Ahead(c, i + 64 - c) == i; }
  }

  /** A sweep only touches reference bits. */
  lemma SweptSame(before: seq<Slot>, c: nat, k: nat, after: seq<Slot>)
    requires |before| == |after| == 64 && c < 64 && k <= 64 && Swept(before, c, k, after)
    ensures forall i :: 0 <= i < 64 ==> after[i].(access := before[i].access) == before[i]
  {
    forall i | 0 <= i < 64
      ensures after[i].(access := before[i].access) == before[i]
    {
      AheadOnto(c, i);
      var j :| 0 <= j < 64 && Ahead(c, j) == i;
      assert j < k ==> after[Ahead(c, j)] == before[Ahead(c, j)].(access := false);
    }
  }

  /** During warm-up a sweep gives one second chance at most and stops at an empty slot, the next
      one to be used; a slot in use is reached only when all are. */
  lemma SweepFindsEmptySlot(before: seq<Slot>, c: nat, k: nat, after: seq<Slot>)
    requires |before| == |after| == 64 && c < 64 && k <= 64 && Swept(before, c, k, after)
    requires WarmingUp(before, c)
    ensures !Full(before) ==> k <= 1 && !before[Ahead(c, k)].occupied
    ensures !Full(before) ==> forall i :: 0 <= i < 64 ==> (before[i].occupied <==> i < Ahead(c, k))
  {
    if !Full(before) {
      if before[c].occupied {
        assert Ahead(c, 0) == c && Spared(before[c]);
        assert c < 63;
        assert Ahead(c, 1) == c + 1 && !Spared(before[c + 1]);
      } else {
        assert Ahead(c, 0) == c && !Spared(before[Ahead(c, 0)]);
      }
    }
  }

  lemma CoherentSectors(slots: seq<Slot>, disk: Disk)
    requires Coherent(slots, disk)
    ensures forall i :: 0 <= i < |slots| && slots[i].occupied ==> slots[i].sector < |disk|
  {
  }

  lemma AheadInside(c: nat, k: nat)
    requires c < 64 && k <= 64
    ensures Ahead(c, k) < 64
  {
  }

  /** A sweep after which the slot under the hand is freed is an eviction. */
  lemma SweepEvicts(before: seq<Slot>, c: nat, k: nat, swept: seq<Slot>, after: seq<Slot>, i: nat)
    requires |before| == |swept| == |after| == 64 && c < 64 && k <= 64
    requires Swept(before, c, k, swept) && WarmingUp(before, c)
    requires i == Ahead(c, k) && after == swept[i := after[i]] && !after[i].occupied
    ensures Evicted(before, c, k, after, i)
  {
    hide WarmingUp, Full;
    SweptSame(before, c, k, swept);
    SweepFindsEmptySlot(before, c, k, swept);
    forall j | 0 <= j < 64
      ensures swept[j].occupied == before[j].occupied
    {
      assert swept[j].(access := before[j].access) == before[j];
    }
  }

  /** A sector that was not cached is not cached after an eviction. */
  lemma StillUncached(before: seq<Slot>, c: nat, k: nat, after: seq<Slot>, i: nat, sector: nat)
    requires |before| == |after| == 64 && c < 64 && k <= 64 && Evicted(before, c, k, after, i)
    requires !Cached(before, sector)
    ensures i < 64 && !Cached(after, sector)
  {
    forall j | 0 <= j < 64 && after[j].occupied
      ensures after[j].sector != sector
    {
      assert after[j].(access := before[j].access) == before[j];
      assert before[j].occupied && before[j].sector == after[j].sector;
    }
  }

  /** The contents of the freed slot do not matter. */
  lemma EvictedAnyway(before: seq<Slot>, c: nat, k: nat, after: seq<Slot>, i: nat, s: Slot)
    requires |before| == |after| == 64 && c < 64 && k <= 64 && i < 64 && Evicted(before, c, k, after, i) && !s.occupied
    ensures Evicted(before, c, k, after[i := s], i)
  {
    hide Full, Spared;
  }

  /** Filling the evicted slot keeps the order of the warm-up. */
  lemma FilledOrder(before: seq<Slot>, c: nat, k: nat, free: seq<Slot>, i: nat, s: Slot)
    requires |before| == |free| == 64 && c < 64 && k <= 64 && i < 64 && Evicted(before, c, k, free, i) && s.occupied
    ensures var after := free[i := s];
            Full(after) || (forall j :: 0 <= j < 64 ==> (after[j].occupied <==> j <= i))
  {
    var after := free[i := s];
    if Full(before) {
      forall j | 0 <= j < 64
        ensures after[j].occupied
      {
        assert j != i ==> free[j].(access := before[j].access) == before[j];
      }
    }
  }

  class Cache {
    const slots: array<Slot>
    var clock: nat
    var disk: Disk
    ghost var view: Disk

    ghost predicate Valid()
      reads this, slots
    {
      && slots.Length == 64 && clock < 64
      && Coherent(slots[..], disk)
      && Shows(slots[..], disk, view)
      && WarmingUp(slots[..], clock)
    }

    /** Statically zeroed storage followed by buffer_cache_init. */
    constructor (device: Disk)
      ensures Valid() && fresh(slots)
      ensures disk == device && view == device && clock == 0
      ensures forall i :: 0 <= i < 64 ==> !slots[i].occupied && !slots[i].dirty
    {
      slots := new Slot[64](_ => Slot(false, 0, ZERO_SECTOR, false, false));
      clock := 0;
      disk := device;
      view := device;
    }

    /** buffer_cache_flush */
    method Flush(i: nat)
      requires slots.Length == 64 && i < 64 && slots[i].occupied
      requires Coherent(slots[..], disk) && Shows(slots[..], disk, view)
      modifies this`disk, slots
      ensures Coherent(slots[..], disk) && Shows(slots[..], disk, view)
      ensures slots[..] == old(slots[..])[i := old(slots[i]).(dirty := false)]
      ensures disk == old(disk)[old(slots[i]).sector := old(slots[i]).buffer]
    {
      hide Shows, Cached;
      var e := slots[i];
      ghost var before := slots[..];
      FlushSlot(before, disk, view, i);
      if e.dirty {
        disk := disk[e.sector := e.buffer];
        slots[i] := e.(dirty := false);
      }
      assert slots[..] == before[i := e.(dirty := false)];
    }

    /** buffer_cache_lookup: the slot that caches SECTOR, or 64 on a miss. */
    method Lookup(sector: nat) returns (i: nat)
      requires slots.Length == 64
      ensures i <= 64
      ensures i < 64 ==> slots[i].occupied && slots[i].sector == sector
      ensures i == 64 ==> !Cached(slots[..], sector)
    {
      i := 0;
      while i < 64
        invariant i <= 64
        invariant forall j :: 0 <= j < i ==> !(slots[j].occupied && slots[j].sector == sector)
      {
        if slots[i].occupied && slots[i].sector == sector {
          return;
        }
        i := i + 1;
      }
    }

    /** The loop of buffer_cache_evict: clear reference bits until a slot that is empty or was not
        referenced comes under the hand. */
    method Sweep() returns (ghost chances: nat)
      requires slots.Length == 64 && clock < 64
      modifies this`clock, slots
      ensures chances <= 64 && clock == Ahead(old(clock), chances)
      ensures Swept(old(slots[..]), old(clock), chances, slots[..])
      ensures !Spared(slots[clock])
    {
      chances := 0;
      while Spared(slots[clock])
        invariant chances <= 64 && clock == Ahead(old(clock), chances)
        invariant forall j :: 0 <= j < chances ==> Spared(old(slots[..])[Ahead(old(clock), j)])
        invariant forall j :: 0 <= j < chances ==>
          slots[Ahead(old(clock), j)] == old(slots[..])[Ahead(old(clock), j)].(access := false)
        invariant forall j :: chances <= j < 64 ==>
          slots[Ahead(old(clock), j)] == old(slots[..])[Ahead(old(clock), j)]
        decreases 64 - chances
      {
        assert chances > 0 ==> !slots[Ahead(old(clock), 0)].access;
        slots[clock] := slots[clock].(access := false);
        clock := if clock + 1 == 64 then 0 else clock + 1;
        chances := chances + 1;
      }
    }

    /** buffer_cache_evict: a free slot, the first in clock order that was empty or unreferenced
        when visited; a slot in use is given up only when every slot was in use. */
    method Evict() returns (i: nat, ghost chances: nat)
      requires Valid()
      modifies this`clock, this`disk, slots
      ensures slots.Length == 64 && Coherent(slots[..], disk) && Shows(slots[..], disk, view)
      ensures i == clock && chances <= 64 && Evicted(old(slots[..]), old(clock), chances, slots[..], i)
      ensures disk == WrittenBack(old(disk), old(slots[..])[i])
    {
      hide Coherent, Shows, Full, WarmingUp, Swept, Evicted, Ahead;
      CoherentSectors(slots[..], disk);
      ghost var before := slots[..];
      chances := Sweep();
      i := clock;
      ghost var swept := slots[..];
      AheadInside(old(clock), chances);
      SweptSame(before, old(clock), chances, swept);
      SameButAccess(before, swept, disk, view);
      assert swept[i].(access := before[i].access) == before[i];
      if slots[i].occupied {
        if slots[i].dirty {
          Flush(i);
        }
        FreeSlot(slots[..], disk, view, i);
        slots[i] := slots[i].(occupied := false);
      }
      assert slots[..] == swept[i := slots[i]];
      SweepEvicts(before, old(clock), chances, swept, slots[..], i);
    }

    /** The miss path shared by buffer_cache_read and buffer_cache_write. */
    method Fetch(sector: nat) returns (i: nat, ghost chances: nat)
      requires Valid() && sector < |disk|
      modifies this`clock, this`disk, slots
      ensures slots.Length == 64 && clock < 64 && i < 64 && chances <= 64
      ensures Coherent(slots[..], disk) && Shows(slots[..], disk, view)
      ensures slots[i].occupied && slots[i].sector == sector
      ensures Full(slots[..]) || (forall j :: 0 <= j < 64 ==> (slots[j].occupied <==> j <= clock))
      ensures !Full(slots[..]) ==> i == clock || slots[clock].access
      ensures Fetched(old(slots[..]), old(clock), old(disk), sector, slots[..], clock, disk, i, chances)
    {
      hide Coherent, Shows;
      ghost var before := slots[..];
      chances := 0;
      i := Lookup(sector);
      if i == 64 {
        i, chances := Evict();
        ghost var free := slots[..];
        StillUncached(before, old(clock), chances, free, i, sector);
        FillSlot(free, disk, view, i, sector, slots[i].access);
        slots[i] := Slot(true, sector, disk[sector], false, slots[i].access);
        assert slots[..] == free[i := slots[i]];
        assert slots[..][i := slots[i].(occupied := false)] == free[i := slots[i].(occupied := false)];
        EvictedAnyway(before, old(clock), chances, free, i, slots[i].(occupied := false));
        FilledOrder(before, old(clock), chances, free, i, slots[i]);
      } else {
        assert before[i].occupied && before[i].sector == sector;
      }
    }

    /** buffer_cache_read: delivers the logical sector; the slot that caches it becomes referenced, and nothing else
        changes but what an eviction does. */
    method Read(sector: nat) returns (data: Sector)
      requires Valid() && sector < |view|
      modifies this, slots
      ensures Valid() && view == old(view)
      ensures data == view[sector]
      ensures Touched(old(slots[..]), old(clock), old(disk), sector, slots[..], clock, disk, data, false)
    {
      hide Fetched;
      ghost var before := slots[..];
      var i;
      ghost var k;
      i, k := Fetch(sector);
      ghost var was := slots[..];
      slots[i] := slots[i].(access := true);
      assert slots[..] == was[i := slots[i]];
      SameButAccess(was, slots[..], disk, view);
      data := slots[i].buffer;
      assert TouchedAt(before, old(clock), old(disk), sector, slots[..], clock, disk, data, false, i, k, was);
    }

    /** buffer_cache_write: replaces the logical sector; the slot that caches it becomes referenced and dirty. */
    method Write(sector: nat, data: Sector)
      requires Valid() && sector < |view|
      modifies this, slots
      ensures Valid() && view == old(view)[sector := data]
      ensures Touched(old(slots[..]), old(clock), old(disk), sector, slots[..], clock, disk, data, true)
    {
      hide Fetched;
      ghost var before := slots[..];
      var i;
      ghost var k;
      i, k := Fetch(sector);
      ghost var was := slots[..];
      OverwriteSlot(was, disk, view, i, data);
      slots[i] := Slot(true, slots[i].sector, data, true, true);
      assert slots[..] == was[i := slots[i]];
      view := view[sector := data];
      assert TouchedAt(before, old(clock), old(disk), sector, slots[..], clock, disk, data, true, i, k, was);
    }

    /** buffer_cache_close: afterwards the disk holds what an uncached device would. */
    method Close()
      requires Valid()
      modifies this, slots
      ensures Valid() && view == old(view)
      ensures disk == view && clock == old(clock)
      ensures forall j :: 0 <= j < 64 ==>
        slots[j] == if old(slots[j]).occupied then old(slots[j]).(dirty := false) else old(slots[j])
    {
      hide Coherent, Shows;
      var i := 0;
      while i < 64
        invariant i <= 64 && slots.Length == 64 && clock < 64 && view == old(view)
        invariant Coherent(slots[..], disk) && Shows(slots[..], disk, view) && WarmingUp(slots[..], clock)
        invariant clock == old(clock) && forall j :: i <= j < 64 ==> slots[j] == old(slots[j])
        invariant forall j :: 0 <= j < i ==>
          slots[j] == if old(slots[j]).occupied then old(slots[j]).(dirty := false) else old(slots[j])
      {
        if slots[i].occupied {
          Flush(i);
        }
        i := i + 1;
      }
      AllClean(slots[..], disk, view);
    }

    /** Any run of requests is answered as by a device without a cache. */
    method Serve(requests: seq<Request>) returns (replies: seq<Sector>)
      requires Valid() && forall q :: q in requests ==> q.sector < |view|
      modifies this, slots
      ensures Valid()
      ensures replies == Served(old(view), requests).1
      ensures view == Served(old(view), requests).0
    {
      replies := [];
      for n := 0 to |requests|
        invariant Valid() && |view| == old(|view|)
        invariant (view, replies) == Served(old(view), requests[..n])
      {
        assert requests[..n + 1][..n] == requests[..n];
        match requests[n]
        case Read(s) => var data := Read(s); replies := replies + [data];
        case Write(s, data) => Write(s, data);
      }
      assert requests[..|requests|] == requests;
    }
  }
}
