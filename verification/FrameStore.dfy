/** The frame store of the shell memory (shellmemory.c): frames of three lines, allocated first fit. */
module FrameStore {

  /** A line of memory: its owner ("none" when free) and its text. */
  datatype Line = Line(owner: string, text: string)

  const NONE := "none"

  predicate FreeLine(l: Line) {
    l.owner == NONE
  }

  /** Lines K, K+1, K+2 are free and lie in the frame zone of BORDER lines. */
  ghost predicate FreeTriple(m: seq<Line>, border: nat, k: nat) {
    k + 3 <= border <= |m| && FreeLine(m[k]) && FreeLine(m[k + 1]) && FreeLine(m[k + 2])
  }

  /** A resident frame starts at an aligned line of the zone. */
  ghost predicate Aligned(border: nat, k: nat) {
    k % 3 == 0 && k + 3 <= border
  }

  /** The lines in use are exactly those of the resident frames, each of which is aligned. */
  ghost predicate Framed(m: seq<Line>, border: nat, frames: set<nat>) {
    && border <= |m|
    && (forall f :: f in frames ==> Aligned(border, f))
    && (forall i :: 0 <= i < border ==> (!FreeLine(m[i]) <==> i - i % 3 in frames))
  }

  /** The aligned line of the frame a line belongs to. */
  lemma FrameOf(a: nat, i: nat)
    requires a % 3 == 0 && a <= i < a + 3
    ensures i - i % 3 == a
  {
  }

  /** With the frames aligned, the first free triple a scan by single steps meets is aligned too. */
  lemma FirstTripleAligned(m: seq<Line>, border: nat, frames: set<nat>, k: nat)
    requires Framed(m, border, frames) && FreeTriple(m, border, k)
    requires forall j :: 0 <= j < k ==> !FreeTriple(m, border, j)
    ensures Aligned(border, k)
  {
    var a := k - k % 3;
    FrameOf(a, k);
    if k % 3 != 0 {
      assert FreeLine(m[k]) && a !in frames;
      FrameOf(a, a);
      FrameOf(a, a + 1);
      FrameOf(a, a + 2);
      assert FreeTriple(m, border, a);
    }
  }

  /** There is a free triple exactly when some aligned frame is not resident. */
  lemma TripleIffFrame(m: seq<Line>, border: nat, frames: set<nat>)
    requires Framed(m, border, frames)
    ensures (exists k :: FreeTriple(m, border, k)) <==> (exists f :: Aligned(border, f) && f !in frames)
  {
    forall k: nat | FreeTriple(m, border, k)
      ensures exists f :: Aligned(border, f) && f !in frames
    {
      var a := k - k % 3;
      assert Aligned(border, a) && a !in frames;
    }
    forall f: nat | Aligned(border, f) && f !in frames
      ensures FreeTriple(m, border, f)
    {
      assert (f + 1) - (f + 1) % 3 == f && (f + 2) - (f + 2) % 3 == f;
    }
  }

  class ShellMemory {
    const lines: array<Line>
    const border: nat
    /** First lines of the resident frames. */
    ghost var frames: set<nat>

    ghost predicate Valid()
      reads this, lines
    {
      border <= lines.Length && Framed(lines[..], border, frames)
    }

    /** mem_init; the frame zone is the first FRAMES lines. */
    constructor (frameLines: nat, varLines: nat)
      ensures Valid() && frames == {} && border == frameLines && lines.Length == frameLines + varLines && fresh(lines)
      ensures forall i :: 0 <= i < lines.Length ==> lines[i] == Line(NONE, NONE)
    {
      lines := new Line[frameLines + varLines](_ => Line(NONE, NONE));
      border := frameLines;
      frames := {};
    }

    /** The inner loop of frame_alloc: whether three free lines start at I. */
    method Fits(i: nat) returns (free: bool)
      requires border <= lines.Length && i < border
      ensures free == FreeTriple(lines[..], border, i)
    {
      var j := i;
      while j < i + 3 && j < border
        invariant i <= j <= i + 3 && j <= border
        invariant forall x :: i <= x < j ==> FreeLine(lines[x])
        decreases i + 3 - j
      {
        if !FreeLine(lines[j]) {
          return false;
        }
        j := j + 1;
      }
      free := j == i + 3;
    }

    /** The marking loop of frame_alloc, which also fills the page's INDEX and VALIDBIT. */
    method Occupy(first: nat, pid: string, index: array<nat>, validBit: array<int>)
      requires first + 3 <= lines.Length && PageArrays(index, validBit)
      modifies lines, index, validBit
      ensures forall i :: 0 <= i < lines.Length ==>
        lines[i] == if first <= i < first + 3 then old(lines[i]).(owner := pid) else old(lines[i])
      ensures Points(index, first) && forall j :: 0 <= j < 3 ==> validBit[j] == 0
    {
      for k := 0 to 3
        invariant forall i :: 0 <= i < lines.Length ==>
          lines[i] == if first <= i < first + k then old(lines[i]).(owner := pid) else old(lines[i])
        invariant forall j :: 0 <= j < k ==> index[j] == first + j && validBit[j] == 0
      {
        lines[first + k] := lines[first + k].(owner := pid);
        index[k], validBit[k] := first + k, 0;
      }
    }

    /** The arrays of one page of a page table. */
    ghost predicate PageArrays(index: array<nat>, validBit: array<int>) {
      index.Length == validBit.Length == 3 && index as object != validBit as object
    }

    /** The page lies in the frame that starts at line FIRST. */
    ghost predicate Points(index: array<nat>, first: nat)
      reads index
    {
      index.Length == 3 && index[0] == first && index[1] == first + 1 && index[2] == first + 2
    }

    /** frame_alloc: the first place with three free lines.  It fails exactly when every aligned frame is resident;
        the frame it finds is aligned, overlaps no resident frame and stays out of the variable zone. */
    method Alloc(pid: string, index: array<nat>, validBit: array<int>) returns (ok: bool, ghost first: nat)
      requires Valid() && pid != NONE && PageArrays(index, validBit)
      modifies this`frames, lines, index, validBit
      ensures Valid()
      ensures ok == exists f :: Aligned(border, f) && f !in old(frames)
      ensures ok ==> Aligned(border, first) && first !in old(frames) && frames == old(frames) + {first}
      ensures ok ==> first + 3 <= border && forall f :: f in old(frames) ==> f + 3 <= first || first + 3 <= f
      ensures ok ==> Points(index, first) && forall j :: 0 <= j < 3 ==> validBit[j] == 0
      ensures ok ==> forall i :: 0 <= i < lines.Length ==>
        lines[i] == if first <= i < first + 3 then old(lines[i]).(owner := pid) else old(lines[i])
      ensures ok ==> forall k :: 0 <= k < first ==> !FreeTriple(old(lines[..]), border, k)
      ensures !ok ==> frames == old(frames) && lines[..] == old(lines[..])
      ensures !ok ==> index[..] == old(index[..]) && validBit[..] == old(validBit[..])
    {
      ghost var m := lines[..];
      TripleIffFrame(m, border, frames);
      var i := 0;
      first := 0;
      while i < border
        invariant i <= border && lines[..] == m && frames == old(frames)
        invariant index[..] == old(index[..]) && validBit[..] == old(validBit[..])
        invariant forall k :: 0 <= k < i ==> !FreeTriple(m, border, k)
      {
        var free := Fits(i);
        if free {
          FirstTripleAligned(m, border, frames, i);
          assert i !in frames by { assert FreeLine(m[i]); }
          Occupy(i, pid, index, validBit);
          frames := frames + {i};
          Placed(m, lines[..], border, old(frames), i);
          forall f | f in old(frames)
            ensures f + 3 <= i || i + 3 <= f
          {
            FramesDisjoint(lines[..], border, frames, if f < i then f else i, if f < i then i else f);
          }
          return true, i;
        }
        i := i + 1;
      }
      ok := false;
    }

    /** mem_set_value_at on line J of a resident page: the line gets its text, stays in use, and is marked valid. */
    method SetLine(index: array<nat>, validBit: array<int>, j: nat, pid: string, text: string, ghost first: nat)
      requires Valid() && first in frames && j < 3 && pid != NONE && PageArrays(index, validBit) && Points(index, first)
      modifies lines, validBit
      ensures Valid() && lines[..] == old(lines[..])[first + j := Line(pid, text)]
      ensures validBit[..] == old(validBit[..])[j := 1]
    {
      lines[index[j]] := Line(pid, text);
      validBit[j] := 1;
      assert (first + j) - (first + j) % 3 == first;
    }

    /** PAGE_evict of a resident page: mem_free_at on its three lines, and the page's arrays are cleared. */
    method Evict(index: array<nat>, validBit: array<int>, ghost first: nat)
      requires Valid() && first in frames && PageArrays(index, validBit) && Points(index, first)
      modifies this`frames, lines, index, validBit
      ensures Valid() && frames == old(frames) - {first}
      ensures forall i :: 0 <= i < lines.Length ==>
        lines[i] == if first <= i < first + 3 then Line(NONE, NONE) else old(lines[i])
      ensures forall j :: 0 <= j < 3 ==> index[j] == 0 && validBit[j] == 0
    {
      ghost var m := lines[..];
      for j := 0 to 3
        invariant frames == old(frames) && forall i :: j <= i < 3 ==> index[i] == first + i
        invariant forall i :: 0 <= i < j ==> index[i] == 0 && validBit[i] == 0
        invariant forall i :: 0 <= i < lines.Length ==>
          lines[i] == if first <= i < first + j then Line(NONE, NONE) else m[i]
      {
        lines[index[j]] := Line(NONE, NONE);
        index[j], validBit[j] := 0, 0;
      }
      frames := frames - {first};
      Cleared(m, lines[..], border, old(frames), first);
    }
  }

  lemma Placed(m: seq<Line>, m': seq<Line>, border: nat, frames: set<nat>, k: nat)
    requires Framed(m, border, frames) && |m'| == |m| && Aligned(border, k)
    requires forall i :: 0 <= i < |m| && !(k <= i < k + 3) ==> m'[i] == m[i]
    requires forall i :: k <= i < k + 3 ==> !FreeLine(m'[i])
    ensures Framed(m', border, frames + {k})
  {
    assert forall i :: 0 <= i < border ==> (i - i % 3 == k <==> k <= i < k + 3);
  }

  lemma Cleared(m: seq<Line>, m': seq<Line>, border: nat, frames: set<nat>, k: nat)
    requires Framed(m, border, frames) && |m'| == |m| && Aligned(border, k)
    requires forall i :: 0 <= i < |m| && !(k <= i < k + 3) ==> m'[i] == m[i]
    requires forall i :: k <= i < k + 3 ==> FreeLine(m'[i])
    ensures Framed(m', border, frames - {k})
  {
    assert forall i :: 0 <= i < border ==> (i - i % 3 == k <==> k <= i < k + 3);
  }

  /** Resident frames do not overlap and do not reach into the variable zone. */
  lemma FramesDisjoint(m: seq<Line>, border: nat, frames: set<nat>, f: nat, g: nat)
    requires Framed(m, border, frames) && f in frames && g in frames && f < g
    ensures f + 3 <= g && g + 3 <= border
  {
  }
}
