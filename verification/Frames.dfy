/** The page-frame allocator of the virtual memory manager: a bitmap of 32-bit
    words swept cyclically from the frame after the one handed out last. */
module Frames {
  import opened Options
  import opened Words

  const MAX_FRAMES: nat := 32768
  const BITMAP_WORDS: nat := 1024

  /** Bit `b` of a word, the test `w & (1 << b)`. */
  predicate HasBit(w: nat, b: nat)
  {
    if b == 0 then w % 2 == 1 else HasBit(w / 2, b - 1)
  }

  /** `w` with bit `b` replaced: `w | (1 << b)` or `w & ~(1 << b)`. */
  function WithBit(w: nat, b: nat, v: bool): (r: nat)
  {
    if b == 0 then w / 2 * 2 + (if v then 1 else 0) else WithBit(w / 2, b - 1, v) * 2 + w % 2
  }

  lemma {:induction false} WithBitChangesOneBit(w: nat, b: nat, v: bool, c: nat)
    ensures HasBit(WithBit(w, b, v), c) == if b == c then v else HasBit(w, c)
  {
    if b > 0 && c > 0 {
      WithBitChangesOneBit(w / 2, b - 1, v, c - 1);
    }
  }

  lemma {:induction false} WithBitKeepsWidth(w: nat, b: nat, v: bool, n: nat)
    requires b < n && w < Pow2(n)
    ensures WithBit(w, b, v) < Pow2(n)
  {
    var half := Pow2(n - 1);
    assert Pow2(n) == 2 * half;
    assert w / 2 < half;
    if b > 0 {
      WithBitKeepsWidth(w / 2, b - 1, v, n - 1);
    }
  }

  /** The update of one 32-bit bitmap word. */
  function PutBit(w: Word, b: nat, v: bool): (r: Word)
    requires b < 32
    ensures forall c: nat :: HasBit(r, c) == if b == c then v else HasBit(w, c)
  {
    Pow2Is32();
    WithBitKeepsWidth(w, b, v, 32);
    assert forall c: nat :: HasBit(WithBit(w, b, v), c) == if b == c then v else HasBit(w, c) by {
      forall c: nat { WithBitChangesOneBit(w, b, v, c); }
    }
    WithBit(w, b, v)
  }

  predicate IsTaken(bitmap: seq<Word>, frame: nat)
    requires |bitmap| == BITMAP_WORDS && frame < MAX_FRAMES
  {
    HasBit(bitmap[frame / 32], frame % 32)
  }

  /** What the bitmap stands for: the set of frames not handed out. */
  ghost function FreeSet(bitmap: seq<Word>): (free: set<nat>)
    requires |bitmap| == BITMAP_WORDS
  {
    set f: nat | f < MAX_FRAMES && !IsTaken(bitmap, f)
  }

  /** Setting one bit of one word removes exactly one frame from the free set,
      clearing it adds exactly that frame. */
  lemma FreeByBit(bitmap: seq<Word>, f: nat)
    requires |bitmap| == BITMAP_WORDS && f < MAX_FRAMES
    ensures f in FreeSet(bitmap) <==> !HasBit(bitmap[f / 32], f % 32)
  {
  }

  lemma FreeInPool(bitmap: seq<Word>)
    requires |bitmap| == BITMAP_WORDS
    ensures forall f :: f in FreeSet(bitmap) ==> f < MAX_FRAMES
  {
  }

  lemma MarkFrame(bitmap: seq<Word>, f: nat, v: bool)
    requires |bitmap| == BITMAP_WORDS && f < MAX_FRAMES
    ensures FreeSet(bitmap[f / 32 := PutBit(bitmap[f / 32], f % 32, v)]) ==
            if v then FreeSet(bitmap) - {f} else FreeSet(bitmap) + {f}
  {
    var after := bitmap[f / 32 := PutBit(bitmap[f / 32], f % 32, v)];
    forall g: nat | g < MAX_FRAMES
      ensures IsTaken(after, g) == if g == f then v else IsTaken(bitmap, g)
    {
    }
  }

  lemma ZeroHasNoBit(b: nat)
    ensures !HasBit(0, b)
  {
  }

  lemma AllClear(bitmap: seq<Word>)
    requires |bitmap| == BITMAP_WORDS && forall i :: 0 <= i < BITMAP_WORDS ==> bitmap[i] == 0
    ensures forall f: nat :: f in FreeSet(bitmap) <==> f < MAX_FRAMES
  {
    forall f: nat | f < MAX_FRAMES
      ensures !IsTaken(bitmap, f)
    {
      ZeroHasNoBit(f % 32);
    }
  }

  /** The i-th frame examined by a sweep that begins at `start`. */
  function Probe(start: nat, i: nat): (f: nat)
    ensures f < MAX_FRAMES
  {
    (start + i) % MAX_FRAMES
  }

  /** The first free frame met by the sweep, skipping the first `i` probes. */
  ghost function NextFit(free: set<nat>, start: nat, i: nat := 0): (r: Option<nat>)
    decreases MAX_FRAMES - i
  {
    if i >= MAX_FRAMES then None
    else if Probe(start, i) in free then Some(Probe(start, i))
    else NextFit(free, start, i + 1)
  }

  /** MAX_FRAMES consecutive probes visit every frame exactly once. */
  lemma SweepVisitsOnce(start: nat, f: nat)
    requires start < MAX_FRAMES && f < MAX_FRAMES
    ensures exists i: nat :: i < MAX_FRAMES && Probe(start, i) == f
    ensures forall i: nat, j: nat :: i < j < MAX_FRAMES ==> Probe(start, i) != Probe(start, j)
  {
    var i := (f + MAX_FRAMES - start) % MAX_FRAMES;
    assert Probe(start, i) == f;
  }

  lemma {:induction false} NextFitFrom(free: set<nat>, start: nat, i: nat)
    ensures match NextFit(free, start, i)
            case None => forall k: nat :: i <= k < MAX_FRAMES ==> Probe(start, k) !in free
            case Some(f) => f in free && exists k: nat :: i <= k < MAX_FRAMES && f == Probe(start, k) &&
                                                          forall j: nat :: i <= j < k ==> Probe(start, j) !in free
    decreases MAX_FRAMES - i
  {
    if i < MAX_FRAMES && Probe(start, i) !in free {
      NextFitFrom(free, start, i + 1);
    }
  }

  /** The sweep fails exactly when no frame is free; otherwise it finds the free
      frame at the least cyclic distance from its start. */
  lemma NextFitIsFirstFree(free: set<nat>, start: nat)
    requires start < MAX_FRAMES
    requires forall f :: f in free ==> f < MAX_FRAMES
    ensures NextFit(free, start) == None <==> free == {}
    ensures NextFit(free, start).Some? ==>
              NextFit(free, start).value in free &&
              exists k: nat :: k < MAX_FRAMES && NextFit(free, start).value == Probe(start, k) &&
                               forall j: nat :: j < k ==> Probe(start, j) !in free
  {
    NextFitFrom(free, start, 0);
    if f :| f in free {
      SweepVisitsOnce(start, f);
    }
  }
}
