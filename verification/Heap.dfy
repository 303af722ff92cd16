/** The kernel heap in memory: 16-byte headers in front of every payload, linked in
    address order and rewritten in place. */
module Heap {
  import opened Options
  import opened Words
  import opened Blocks

  const MAGIC: Word := 0xDEAD_BEEF

  /** The four header words; the free flag is the low byte of the third. */
  datatype Header = Header(magic: Word, size: Word, free: bool, next: Word)

  predicate HeaderPlace(a: nat) { a % 4 == 0 && a + HEADER <= WRAP }

  function HeaderOf(m: Memory, a: nat): (h: Header)
    requires HeaderPlace(a)
  {
    Header(m[a / 4], m[a / 4 + 1], m[a / 4 + 2] % 256 != 0, m[a / 4 + 3])
  }

  /** Only words of the header at `a` differ. */
  ghost predicate SameButHeader(m: Memory, m': Memory, a: nat) {
    forall w :: 0 <= w < MEMORY_WORDS && !(a <= 4 * w < a + HEADER) ==> m'[w] == m[w]
  }

  lemma FarHeader(m: Memory, m': Memory, a: nat, b: nat)
    requires HeaderPlace(a) && HeaderPlace(b) && SameButHeader(m, m', a)
    requires a + HEADER <= b || b + HEADER <= a
    ensures HeaderOf(m', b) == HeaderOf(m, b)
  {
  }

  function NextAddr(bs: seq<Block>, i: nat): (a: nat)
  {
    if i + 1 < |bs| then bs[i + 1].addr else 0
  }

  /** Block `i` is in memory: its header says so. */
  ghost predicate HeaderAt(m: Memory, bs: seq<Block>, i: nat)
    requires i < |bs|
  {
    && HeaderPlace(bs[i].addr)
    && NextAddr(bs, i) < WRAP && bs[i].size < WRAP
    && HeaderOf(m, bs[i].addr) == Header(MAGIC, bs[i].size, bs[i].free, NextAddr(bs, i))
  }

  ghost predicate Headers(m: Memory, bs: seq<Block>) {
    forall i {:trigger HeaderAt(m, bs, i)} :: 0 <= i < |bs| ==> HeaderAt(m, bs, i)
  }

  ghost predicate InHeader(bs: seq<Block>, a: nat) {
    exists i :: 0 <= i < |bs| && bs[i].addr <= a < bs[i].Payload()
  }

  /** Only words of the headers in `bs` differ. */
  ghost predicate OnlyHeaders(m: Memory, m': Memory, bs: seq<Block>) {
    forall w :: 0 <= w < MEMORY_WORDS && !InHeader(bs, 4 * w) ==> m'[w] == m[w]
  }

  /** The payload of a block holds no header word. */
  lemma PayloadIsNoHeader(bs: seq<Block>, lo: nat, hi: nat, i: nat, a: nat)
    requires Tiles(bs, lo, hi) && i < |bs| && bs[i].Payload() <= a < bs[i].End()
    ensures !InHeader(bs, a)
  {
    forall k | 0 <= k < |bs|
      ensures !(bs[k].addr <= a < bs[k].Payload())
    {
      if k != i {
        PayloadsDisjoint(bs, lo, hi, i, k);
      }
    }
  }

  lemma OneHeaderOnly(m: Memory, m': Memory, bs: seq<Block>, i: nat)
    requires i < |bs| && SameButHeader(m, m', bs[i].addr)
    ensures OnlyHeaders(m, m', bs)
  {
    forall w | 0 <= w < MEMORY_WORDS && !InHeader(bs, 4 * w)
      ensures m'[w] == m[w]
    {
      assert !(bs[i].addr <= 4 * w < bs[i].Payload());
    }
  }

  /** The header of another block survives a change inside block `i`. */
  lemma OtherHeader(m: Memory, m': Memory, bs: seq<Block>, lo: nat, hi: nat, i: nat, a: nat, k: nat)
    requires Tiles(bs, lo, hi) && i < |bs| && k < |bs| && k != i && HeaderPlace(a) && HeaderPlace(bs[k].addr)
    requires bs[i].addr <= a && a + HEADER <= bs[i].End()
    requires SameButHeader(m, m', a)
    ensures HeaderOf(m', bs[k].addr) == HeaderOf(m, bs[k].addr)
  {
    PayloadsDisjoint(bs, lo, hi, i, k);
    PayloadsDisjoint(bs, lo, hi, k, i);
    FarHeader(m, m', a, bs[k].addr);
  }

  lemma FlagStored(m: Memory, m': Memory, bs: seq<Block>, lo: nat, hi: nat, i: nat, free: bool)
    requires Tiles(bs, lo, hi) && i < |bs| && Headers(m, bs) && HeaderAt(m, bs, i)
    requires SameButHeader(m, m', bs[i].addr)
    requires HeaderOf(m', bs[i].addr) == HeaderOf(m, bs[i].addr).(free := free)
    ensures Headers(m', bs[i := bs[i].(free := free)])
    ensures OnlyHeaders(m, m', bs[i := bs[i].(free := free)])
  {
    var bs' := bs[i := bs[i].(free := free)];
    forall k | 0 <= k < |bs'|
      ensures HeaderAt(m', bs', k)
    {
      assert HeaderAt(m, bs, k);
      if k != i {
        OtherHeader(m, m', bs, lo, hi, i, bs[i].addr, k);
      }
    }
    OneHeaderOnly(m, m', bs', i);
  }

  /** A split writes the header of the remainder, then shrinks the block taken. */
  lemma SplitStored(m: Memory, m1: Memory, m': Memory, bs: seq<Block>, lo: nat, hi: nat, i: nat, n: Word)
    requires Tiles(bs, lo, hi) && hi <= WRAP && i < |bs| && Headers(m, bs) && HeaderAt(m, bs, i)
    requires Splits(bs[i], n) && n % 4 == 0 && HeaderPlace(bs[i].addr + HEADER + n)
    requires SameButHeader(m, m1, bs[i].addr + HEADER + n)
    requires HeaderOf(m1, bs[i].addr + HEADER + n) == Header(MAGIC, bs[i].size - n - HEADER, true, NextAddr(bs, i))
    requires SameButHeader(m1, m', bs[i].addr)
    requires HeaderOf(m', bs[i].addr) == Header(MAGIC, n, false, bs[i].addr + HEADER + n)
    ensures Headers(m', TakeAt(bs, i, n))
  {
    hide SameButHeader;
    hide HeaderOf;
    hide Tiles;
    var bs', nb := TakeAt(bs, i, n), bs[i].addr + HEADER + n;
    SplitBlocks(bs, i, n);
    FarHeader(m1, m', bs[i].addr, nb);
    forall k | 0 <= k < |bs'|
      ensures HeaderAt(m', bs', k)
    {
      hide TakeAt;
      if k != i && k != i + 1 {
        var j := if k < i then k else k - 1;
        assert HeaderAt(m, bs, j) && bs'[k] == bs[j] && NextAddr(bs', k) == NextAddr(bs, j);
        SplitHeaderKept(m, m1, m', bs, lo, hi, i, n, j);
      }
    }
  }

  lemma SplitHeaderKept(m: Memory, m1: Memory, m': Memory, bs: seq<Block>, lo: nat, hi: nat, i: nat, n: Word, j: nat)
    requires Tiles(bs, lo, hi) && i < |bs| && Splits(bs[i], n) && HeaderPlace(bs[i].addr + HEADER + n) && HeaderPlace(bs[i].addr)
    requires SameButHeader(m, m1, bs[i].addr + HEADER + n) && SameButHeader(m1, m', bs[i].addr)
    requires j < |bs| && j != i && HeaderPlace(bs[j].addr)
    ensures HeaderOf(m', bs[j].addr) == HeaderOf(m, bs[j].addr)
  {
    hide SameButHeader;
    hide HeaderOf;
    hide Tiles;
    OtherHeader(m, m1, bs, lo, hi, i, bs[i].addr + HEADER + n, j);
    OtherHeader(m1, m', bs, lo, hi, i, bs[i].addr, j);
  }

  lemma SplitOnlyHeaders(m: Memory, m1: Memory, m': Memory, bs: seq<Block>, i: nat, n: nat)
    requires i < |bs| && Splits(bs[i], n)
    requires SameButHeader(m, m1, bs[i].addr + HEADER + n) && SameButHeader(m1, m', bs[i].addr)
    ensures OnlyHeaders(m, m', TakeAt(bs, i, n))
  {
    var bs' := TakeAt(bs, i, n);
    SplitBlocks(bs, i, n);
    OneHeaderOnly(m, m1, bs', i + 1);
    OneHeaderOnly(m1, m', bs', i);
  }

  lemma MergeStored(m: Memory, m': Memory, bs: seq<Block>, lo: nat, hi: nat, i: nat)
    requires Tiles(bs, lo, hi) && hi <= WRAP && NextIsFree(bs, i) && Headers(m, bs) && HeaderAt(m, bs, i)
    requires bs[i].size + HEADER + bs[i + 1].size < WRAP && NextAddr(bs, i + 1) < WRAP
    requires SameButHeader(m, m', bs[i].addr)
    requires HeaderOf(m', bs[i].addr) == Header(MAGIC, bs[i].size + HEADER + bs[i + 1].size, true, NextAddr(bs, i + 1))
    ensures Headers(m', FreeAt(bs, i))
    ensures OnlyHeaders(m, m', FreeAt(bs, i))
  {
    var bs' := FreeAt(bs, i);
    MergedBlocks(bs, i);
    forall k | 0 <= k < |bs'|
      ensures HeaderAt(m', bs', k)
    {
      if k != i {
        var j := if k < i then k else k + 1;
        assert HeaderAt(m, bs, j) && bs'[k] == bs[j] && NextAddr(bs', k) == NextAddr(bs, j);
        OtherHeader(m, m', bs, lo, hi, i, bs[i].addr, j);
      }
    }
    OneHeaderOnly(m, m', bs', i);
  }

  lemma WriteKeepsHeaders(m: Memory, bs: seq<Block>, at: nat, value: Word)
    requires Headers(m, bs) && at % 4 == 0 && at < WRAP && !InHeader(bs, at)
    ensures Headers(m[at / 4 := value], bs)
  {
    var m' := m[at / 4 := value];
    forall k | 0 <= k < |bs|
      ensures HeaderAt(m', bs, k)
    {
      assert HeaderAt(m, bs, k) && !(bs[k].addr <= at < bs[k].Payload());
    }
  }

  /** Payload words of blocks never freed in `ops` hold what `ops` last wrote there. */
  ghost predicate Kept(bs: seq<Block>, m: Memory, ops: seq<Op>, m': Memory) {
    forall i, w :: 0 <= i < |bs| && InUse(bs[i], ops) && 0 <= w < MEMORY_WORDS && bs[i].Payload() <= 4 * w < bs[i].End() ==>
      m'[w] == LastWrite(ops, 4 * w, m[w])
  }

  ghost predicate InUse(b: Block, ops: seq<Op>) {
    !b.free && Free(b.Payload()) !in ops
  }

  lemma KeptWord(bs: seq<Block>, lo: nat, hi: nat, ops: seq<Op>, i: nat, w: nat)
    requires Tiles(bs, lo, hi) && LegalRun(bs, ops) && i < |bs| && InUse(bs[i], ops)
    requires bs[i].Payload() <= 4 * w < bs[i].End()
    ensures !InHeader(Run(bs, ops), 4 * w)
  {
    assert bs[i] == Block(bs[i].Payload() - HEADER, bs[i].size, false);
    RunKeepsLiveBlock(bs, lo, hi, ops, bs[i].Payload(), bs[i].size);
    RunKeepsTiles(bs, lo, hi, ops);
    var k :| 0 <= k < |Run(bs, ops)| && Run(bs, ops)[k] == bs[i];
    PayloadIsNoHeader(Run(bs, ops), lo, hi, k, 4 * w);
  }

  lemma LastWriteStep(ops: seq<Op>, a: nat, v: nat)
    requires ops != []
    ensures LastWrite(ops, a, v) == LastWrite([ops[|ops| - 1]], a, LastWrite(ops[..|ops| - 1], a, v))
  {
    var last := [ops[|ops| - 1]];
    assert last[..|last| - 1] == [];
  }

  lemma KeptStep(bs: seq<Block>, lo: nat, hi: nat, m: Memory, ops: seq<Op>, before: Memory, after: Memory)
    requires Tiles(bs, lo, hi) && ops != [] && LegalRun(bs, ops)
    requires Kept(bs, m, ops[..|ops| - 1], before)
    requires forall w :: 0 <= w < MEMORY_WORDS && !InHeader(Run(bs, ops), 4 * w) ==>
               after[w] == LastWrite([ops[|ops| - 1]], 4 * w, before[w])
    ensures Kept(bs, m, ops, after)
  {
    forall i, w | 0 <= i < |bs| && InUse(bs[i], ops) && 0 <= w < MEMORY_WORDS && bs[i].Payload() <= 4 * w < bs[i].End()
      ensures after[w] == LastWrite(ops, 4 * w, m[w])
    {
      assert InUse(bs[i], ops[..|ops| - 1]);
      KeptWord(bs, lo, hi, ops, i, w);
      LastWriteStep(ops, 4 * w, m[w]);
    }
  }

  /** Of the memory `m` after `k` operations and `m'` after `n`: every block in use then and
      not freed since holds what was last written since. */
  ghost predicate KeptFrom(bs: seq<Block>, ops: seq<Op>, k: nat, m: Memory, n: nat, m': Memory)
    requires k <= n <= |ops| && LegalRun(bs, ops[..k])
  {
    Kept(Run(bs, ops[..k]), m, ops[k..n], m')
  }

  lemma KeptAtOnce(bs: seq<Block>, ops: seq<Op>, k: nat, m: Memory)
    requires k <= |ops| && LegalRun(bs, ops[..k])
    ensures KeptFrom(bs, ops, k, m, k, m)
  {
    assert ops[k..k] == [];
  }

  lemma KeptLonger(bs: seq<Block>, lo: nat, hi: nat, ops: seq<Op>, k: nat, m: Memory, n: nat, before: Memory, after: Memory)
    requires Tiles(bs, lo, hi) && k <= n < |ops| && LegalRun(bs, ops[..k]) && LegalRun(bs, ops[..n + 1])
    requires KeptFrom(bs, ops, k, m, n, before)
    requires forall w :: 0 <= w < MEMORY_WORDS && !InHeader(Run(bs, ops[..n + 1]), 4 * w) ==>
               after[w] == LastWrite([ops[n]], 4 * w, before[w])
    ensures KeptFrom(bs, ops, k, m, n + 1, after)
  {
    hide Kept;
    hide InHeader;
    hide LastWrite;
    hide Tiles;
    hide Step;
    hide Legal;
    var middle, since := Run(bs, ops[..k]), ops[k..n + 1];
    assert ops[..n + 1][..k] == ops[..k] && ops[..n + 1][k..] == since;
    RunSplit(bs, ops[..n + 1], k);
    RunKeepsTiles(bs, lo, hi, ops[..k]);
    assert since[..|since| - 1] == ops[k..n] && since[|since| - 1] == ops[n];
    KeptStep(middle, lo, hi, m, since, before, after);
  }

  /** Of the memories after each operation so far: each kept its blocks until now. */
  ghost predicate AllKept(bs: seq<Block>, ops: seq<Op>, trace: seq<Memory>, n: nat, m: Memory) {
    n <= |ops| && |trace| == n + 1 &&
    forall k: nat :: k <= n ==> LegalRun(bs, ops[..k]) && KeptFrom(bs, ops, k, trace[k], n, m)
  }

  lemma KeptAtFirst(bs: seq<Block>, ops: seq<Op>, m: Memory)
    ensures AllKept(bs, ops, [m], 0, m)
  {
    KeptAtOnce(bs, ops, 0, m);
  }

  lemma AllKeptLonger(bs: seq<Block>, lo: nat, hi: nat, ops: seq<Op>, trace: seq<Memory>, n: nat, before: Memory, after: Memory)
    requires Tiles(bs, lo, hi) && n < |ops| && LegalRun(bs, ops[..n + 1]) && AllKept(bs, ops, trace, n, before)
    requires forall w :: 0 <= w < MEMORY_WORDS && !InHeader(Run(bs, ops[..n + 1]), 4 * w) ==>
               after[w] == LastWrite([ops[n]], 4 * w, before[w])
    ensures AllKept(bs, ops, trace + [after], n + 1, after)
  {
    hide KeptFrom;
    hide InHeader;
    hide LastWrite;
    hide Tiles;
    forall k: nat | k <= n
      ensures KeptFrom(bs, ops, k, (trace + [after])[k], n + 1, after)
    {
      KeptLonger(bs, lo, hi, ops, k, trace[k], n, before, after);
    }
    KeptAtOnce(bs, ops, n + 1, after);
  }

  /** The aligned address of a granted block has room for the request. */
  lemma AlignedInside(bs: seq<Block>, lo: nat, hi: nat, size: nat, alignment: nat, p: nat, up: nat)
    requires Tiles(bs, lo, hi) && hi < WRAP && alignment > 0 && size + alignment <= 0xFFFF_FFFC
    requires FirstFit(bs, Round4(size + alignment)).Some? && p == bs[FirstFit(bs, Round4(size + alignment)).value].Payload()
    requires p <= up < p + alignment
    ensures var i, n := FirstFit(bs, Round4(size + alignment)).value, Round4(size + alignment);
            var after := TakeAt(bs, i, n);
            i < |after| && after[i].Payload() <= up && up + size <= after[i].End() < WRAP
  {
    var n := Round4(size + alignment);
    var i := FirstFit(bs, n).value;
    RoundingWraps(size + alignment);
    GrantedSize(bs, n);
    TakenAddress(bs, i, n);
    TakeKeepsTiles(bs, lo, hi, i, n);
    TilesBounds(TakeAt(bs, i, n), lo, hi, i);
  }

  lemma NextIsNotNull(bs: seq<Block>, lo: nat, hi: nat, i: nat)
    requires Tiles(bs, lo, hi) && 0 < lo && i < |bs| && NextAddr(bs, i) == 0
    ensures i + 1 == |bs|
  {
    if i + 1 < |bs| {
      TilesBounds(bs, lo, hi, i + 1);
    }
  }

  lemma NextIsBehind(bs: seq<Block>, lo: nat, hi: nat, i: nat)
    requires Tiles(bs, lo, hi) && i + 1 < |bs|
    ensures bs[i].addr + HEADER <= bs[i + 1].addr
  {
    TilesOrdered(bs, lo, hi, i, i + 1);
  }

  lemma FreedAlone(bs: seq<Block>, i: nat)
    requires i < |bs| && !NextIsFree(bs, i)
    ensures FreeAt(bs, i) == bs[i := bs[i].(free := true)]
  {
  }

  /** The block granted for a request holds it exactly when rounding does not wrap. */
  lemma Granted(bs: seq<Block>, size: Word)
    ensures FirstFit(bs, Round4(size)).Some? ==>
              var n := Round4(size); var i := FirstFit(bs, n).value; var r := TakeAt(bs, i, n);
              && i < |r| && r[i].addr == bs[i].addr && !r[i].free && (size > 0 ==> (r[i].size >= size <==> size <= 0xFFFF_FFFC))
  {
    var n := Round4(size);
    RoundingWraps(size);
    if FirstFit(bs, n).Some? {
      TakenAddress(bs, FirstFit(bs, n).value, n);
      RefusedIffUnsatisfiable(bs, n);
      GrantedSize(bs, n);
    }
  }

  lemma PageIsAligned(a: nat)
    requires a % 4096 == 0
    ensures a % 4 == 0
  {
    var q := a / 4096;
    assert a == 4 * (1024 * q);
  }

  lemma OneBlock(m: Memory, a: nat)
    requires 0 < a && a % 4 == 0 && a + HEAP_SIZE < WRAP && HeaderPlace(a)
    requires HeaderOf(m, a) == Header(MAGIC, HEAP_SIZE - HEADER, true, 0)
    ensures Headers(m, [Block(a, HEAP_SIZE - HEADER, true)])
    ensures Tiles([Block(a, HEAP_SIZE - HEADER, true)], a, a + HEAP_SIZE)
  {
    hide HeaderOf;
    var bs := [Block(a, HEAP_SIZE - HEADER, true)];
    assert HeaderAt(m, bs, 0);
  }

  class Heap {
    const mem: array<Word>
    /** The address of the first header; 0 before initialisation. */
    var start: nat
    ghost var blocks: seq<Block>

    ghost predicate Valid()
      reads this, mem
    {
      && mem.Length == MEMORY_WORDS
      && if start == 0 then blocks == []
         else start + HEAP_SIZE < WRAP && Tiles(blocks, start, start + HEAP_SIZE) && Headers(mem[..], blocks)
    }

    constructor ()
      ensures Valid() && fresh(mem) && start == 0
    {
      mem := new Word[MEMORY_WORDS];
      start, blocks := 0, [];
    }

    // ----- header fields in memory

    method SetMagic(a: nat)
      requires mem.Length == MEMORY_WORDS && HeaderPlace(a)
      modifies mem
      ensures SameButHeader(old(mem[..]), mem[..], a)
      ensures HeaderOf(mem[..], a) == HeaderOf(old(mem[..]), a).(magic := MAGIC)
    {
      mem[a / 4] := MAGIC;
    }

    method SetSize(a: nat, size: Word)
      requires mem.Length == MEMORY_WORDS && HeaderPlace(a)
      modifies mem
      ensures SameButHeader(old(mem[..]), mem[..], a)
      ensures HeaderOf(mem[..], a) == HeaderOf(old(mem[..]), a).(size := size)
    {
      mem[a / 4 + 1] := size;
    }

    /** Stores the flag byte; the three bytes beside it keep their value. */
    method SetFree(a: nat, free: bool)
      requires mem.Length == MEMORY_WORDS && HeaderPlace(a)
      modifies mem
      ensures SameButHeader(old(mem[..]), mem[..], a)
      ensures HeaderOf(mem[..], a) == HeaderOf(old(mem[..]), a).(free := free)
      ensures mem[a / 4 + 2] / 256 == old(mem[a / 4 + 2]) / 256
    {
      mem[a / 4 + 2] := mem[a / 4 + 2] / 256 * 256 + if free then 1 else 0;
    }

    method SetNext(a: nat, next: Word)
      requires mem.Length == MEMORY_WORDS && HeaderPlace(a)
      modifies mem
      ensures SameButHeader(old(mem[..]), mem[..], a)
      ensures HeaderOf(mem[..], a) == HeaderOf(old(mem[..]), a).(next := next)
    {
      mem[a / 4 + 3] := next;
    }

    method WriteHeader(a: nat, size: Word, next: Word)
      requires mem.Length == MEMORY_WORDS && HeaderPlace(a)
      modifies mem
      ensures SameButHeader(old(mem[..]), mem[..], a)
      ensures HeaderOf(mem[..], a) == Header(MAGIC, size, true, next)
    {
      SetMagic(a);
      SetSize(a, size);
      SetFree(a, true);
      SetNext(a, next);
    }

    /** Makes the header at `a` a block of `size` bytes in use, followed by `next`. */
    method Shrink(a: nat, size: Word, next: Word)
      requires mem.Length == MEMORY_WORDS && HeaderPlace(a)
      modifies mem
      ensures SameButHeader(old(mem[..]), mem[..], a)
      ensures HeaderOf(mem[..], a) == Header(HeaderOf(old(mem[..]), a).magic, size, false, next)
    {
      SetSize(a, size);
      SetNext(a, next);
      SetFree(a, false);
    }

    // ----- the allocator

    /** One free block spanning the heap. */
    method Init(heapStart: nat)
      requires mem.Length == MEMORY_WORDS
      requires 0 < heapStart && heapStart % 4096 == 0 && heapStart + HEAP_SIZE < WRAP
      modifies this, mem
      ensures Valid() && start == heapStart
      ensures blocks == [Block(heapStart, HEAP_SIZE - HEADER, true)]
      ensures OnlyHeaders(old(mem[..]), mem[..], blocks)
    {
      hide SameButHeader;
      hide HeaderOf;
      hide OnlyHeaders;
      hide Headers;
      hide Tiles;
      PageIsAligned(heapStart);
      start := heapStart;
      WriteHeader(heapStart, HEAP_SIZE - HEADER, 0);
      blocks := [Block(heapStart, HEAP_SIZE - HEADER, true)];
      OneBlock(mem[..], heapStart);
      OneHeaderOnly(old(mem[..]), mem[..], blocks, 0);
    }

    /** Divides the block at `current`, number `i`, and takes its first part. */
    method Split(current: nat, n: Word, ghost i: nat)
      requires Valid() && start != 0 && i < |blocks| && current == blocks[i].addr
      requires n % 4 == 0 && blocks[i].size >= n && Splits(blocks[i], n)
      modifies this`blocks, mem
      ensures Valid()
      ensures blocks == TakeAt(old(blocks), i, n)
      ensures OnlyHeaders(old(mem[..]), mem[..], blocks)
    {
      hide SameButHeader;
      hide OnlyHeaders;
      hide Tiles;
      hide TakeAt;
      ghost var m, lo, hi := mem[..], start, start + HEAP_SIZE;
      TilesBounds(blocks, lo, hi, i);
      assert HeaderAt(m, blocks, i);
      var newBlock := current + HEADER + n;
      WriteHeader(newBlock, mem[current / 4 + 1] - n - HEADER, mem[current / 4 + 3]);
      ghost var m1 := mem[..];
      FarHeader(m, m1, newBlock, current);
      Shrink(current, n, newBlock);
      SplitStored(m, m1, mem[..], blocks, lo, hi, i, n);
      SplitOnlyHeaders(m, m1, mem[..], blocks, i, n);
      TakeKeepsTiles(blocks, lo, hi, i, n);
      blocks := TakeAt(blocks, i, n);
    }

    /** Takes the block at `current`, number `i`, splitting it when the rest is worth it. */
    method Take(current: nat, n: Word, ghost i: nat)
      requires Valid() && start != 0 && i < |blocks| && current == blocks[i].addr
      requires n % 4 == 0 && blocks[i].size >= n
      modifies this`blocks, mem
      ensures Valid()
      ensures blocks == TakeAt(old(blocks), i, n)
      ensures OnlyHeaders(old(mem[..]), mem[..], blocks)
    {
      assert HeaderAt(mem[..], blocks, i);
      if mem[current / 4 + 1] > n + HEADER + 16 {
        Split(current, n, i);
      } else {
        ghost var m := mem[..];
        SetFree(current, false);
        FlagStored(m, mem[..], blocks, start, start + HEAP_SIZE, i, false);
        TakeKeepsTiles(blocks, start, start + HEAP_SIZE, i, n);
        blocks := TakeAt(blocks, i, n);
      }
    }

    /** The header of the first free block of at least `n` bytes; 0 when there is none. */
    method FindFit(n: Word) returns (current: Word, ghost i: nat)
      requires Valid()
      ensures match FirstFit(blocks, n)
              case None => current == 0
              case Some(k) => current != 0 && i == k && current == blocks[k].addr && current + HEADER < WRAP
    {
      current, i := start, 0;
      // a header without the magic number ends the search like the end of the list
      while current != 0 && mem[current / 4] == MAGIC
        invariant i <= |blocks| && FirstFit(blocks, n, i) == FirstFit(blocks, n)
        invariant current == if i < |blocks| then blocks[i].addr else 0
        invariant i < |blocks| ==> current != 0 && HeaderAt(mem[..], blocks, i)
        decreases |blocks| - i
      {
        TilesBounds(blocks, start, start + HEAP_SIZE, i);
        if mem[current / 4 + 2] % 256 != 0 && mem[current / 4 + 1] >= n {
          return;
        }
        current := mem[current / 4 + 3];
        i := i + 1;
      }
    }

    method Kmalloc(size: Word) returns (ptr: Word)
      requires Valid()
      modifies this`blocks, mem
      ensures Valid()
      ensures blocks == Step(old(blocks), Malloc(size))
      ensures OnlyHeaders(old(mem[..]), mem[..], blocks)
      ensures ptr == if size == 0 || FirstFit(old(blocks), Round4(size)).None? then 0
                     else old(blocks)[FirstFit(old(blocks), Round4(size)).value].Payload()
      ensures ptr == 0 <==> size == 0 || !Satisfiable(old(blocks), Round4(size))
      ensures ptr != 0 ==>
                var i := FirstFit(old(blocks), Round4(size)).value;
                && i < |blocks| && blocks[i].Payload() == ptr && !blocks[i].free
                && (blocks[i].size >= size <==> size <= 0xFFFF_FFFC)
    {
      hide TakeAt;
      hide Tiles;
      hide Headers;
      if size == 0 {
        return 0;
      }
      RefusedIffUnsatisfiable(blocks, Round4(size));
      Granted(blocks, size);
      var current, i := FindFit(Round4(size));
      if current == 0 {
        return 0;
      }
      Take(current, Round4(size), i);
      return current + HEADER;
    }

    /** Absorbs the free block after block `i`, whose header is at `block`. */
    method Coalesce(block: nat, next: nat, ghost i: nat, ghost m: Memory)
      requires mem.Length == MEMORY_WORDS && start != 0 && start + HEAP_SIZE < WRAP
      requires Tiles(blocks, start, start + HEAP_SIZE) && Headers(m, blocks)
      requires NextIsFree(blocks, i) && block == blocks[i].addr && next == blocks[i + 1].addr && HeaderAt(m, blocks, i)
      requires SameButHeader(m, mem[..], block) && HeaderOf(mem[..], block) == HeaderOf(m, block).(free := true)
      modifies mem
      ensures Headers(mem[..], FreeAt(blocks, i))
      ensures OnlyHeaders(m, mem[..], FreeAt(blocks, i))
    {
      hide OnlyHeaders;
      hide FreeAt;
      assert HeaderAt(m, blocks, i + 1);
      TilesBounds(blocks, start, start + HEAP_SIZE, i);
      TilesBounds(blocks, start, start + HEAP_SIZE, i + 1);
      FarHeader(m, mem[..], block, next);
      SetSize(block, mem[block / 4 + 1] + HEADER + mem[next / 4 + 1]);
      FarHeader(m, mem[..], block, next);
      SetNext(block, mem[next / 4 + 3]);
      MergeStored(m, mem[..], blocks, start, start + HEAP_SIZE, i);
    }

    /** The next block and whether it is to be merged, read after the flag of block `i` was
        set. */
    method NextToMerge(block: nat, ghost i: nat, ghost m: Memory) returns (next: nat, merge: bool)
      requires mem.Length == MEMORY_WORDS && start != 0 && start + HEAP_SIZE < WRAP
      requires Tiles(blocks, start, start + HEAP_SIZE) && Headers(m, blocks)
      requires i < |blocks| && block == blocks[i].addr && HeaderAt(m, blocks, i)
      requires SameButHeader(m, mem[..], block) && HeaderOf(mem[..], block) == HeaderOf(m, block).(free := true)
      ensures merge == NextIsFree(blocks, i) && (merge ==> next == blocks[i + 1].addr)
    {
      hide SameButHeader;
      hide Tiles;
      next := mem[block / 4 + 3];
      if next == 0 {
        NextIsNotNull(blocks, start, start + HEAP_SIZE, i);
        return next, false;
      }
      assert HeaderAt(m, blocks, i + 1);
      NextIsBehind(blocks, start, start + HEAP_SIZE, i);
      FarHeader(m, mem[..], block, next);
      merge := mem[next / 4 + 2] % 256 != 0;
    }

    /** Releases block `i`, whose header is at `block`. */
    method Release(block: nat, ghost i: nat)
      requires Valid() && start != 0 && i < |blocks| && block == blocks[i].addr
      modifies this`blocks, mem
      ensures Valid()
      ensures blocks == FreeAt(old(blocks), i)
      ensures OnlyHeaders(old(mem[..]), mem[..], blocks)
    {
      hide SameButHeader;
      hide OnlyHeaders;
      hide Tiles;
      hide HeaderOf;
      hide FreeAt;
      ghost var m := mem[..];
      assert HeaderAt(m, blocks, i);
      SetFree(block, true);
      FreeKeepsTiles(blocks, start, start + HEAP_SIZE, i);
      var next, merge := NextToMerge(block, i, m);
      if merge {
        Coalesce(block, next, i, m);
      } else {
        FlagStored(m, mem[..], blocks, start, start + HEAP_SIZE, i, true);
        FreedAlone(blocks, i);
      }
      blocks := FreeAt(blocks, i);
    }

    method Kfree(ptr: Word)
      requires Valid() && (ptr == 0 || Live(blocks, ptr))
      modifies this`blocks, mem
      ensures Valid()
      ensures ptr == 0 ==> blocks == old(blocks) && mem[..] == old(mem[..])
      ensures ptr != 0 ==> blocks == Step(old(blocks), Free(ptr))
      ensures OnlyHeaders(old(mem[..]), mem[..], blocks)
    {
      if ptr == 0 {
        return;
      }
      var block := ptr - HEADER;
      ghost var i := LiveIndex(blocks, ptr);
      assert HeaderAt(mem[..], blocks, i);
      if mem[block / 4] == MAGIC {
        Release(block, i);
      }
    }

    method Used() returns (used: nat)
      requires Valid()
      ensures used == Blocks.Used(blocks)
    {
      used := 0;
      var current := start;
      ghost var i := 0;
      while current != 0
        invariant i <= |blocks| && used == Blocks.Used(blocks[..i])
        invariant current == if i < |blocks| then blocks[i].addr else 0
        decreases |blocks| - i
      {
        assert HeaderAt(mem[..], blocks, i);
        assert blocks[..i + 1][..i] == blocks[..i];
        if mem[current / 4 + 2] % 256 == 0 {
          used := used + mem[current / 4 + 1] + HEADER;
        }
        current := mem[current / 4 + 3];
        i := i + 1;
      }
      assert i == |blocks| && blocks[..i] == blocks;
    }

    method Unused() returns (free: nat)
      requires Valid()
      ensures free == Blocks.Unused(blocks)
    {
      free := 0;
      var current := start;
      ghost var i := 0;
      while current != 0
        invariant i <= |blocks| && free == Blocks.Unused(blocks[..i])
        invariant current == if i < |blocks| then blocks[i].addr else 0
        decreases |blocks| - i
      {
        assert HeaderAt(mem[..], blocks, i);
        assert blocks[..i + 1][..i] == blocks[..i];
        if mem[current / 4 + 2] % 256 != 0 {
          free := free + mem[current / 4 + 1];
        }
        current := mem[current / 4 + 3];
        i := i + 1;
      }
      assert i == |blocks| && blocks[..i] == blocks;
    }

    /** A client store of a whole word inside its own payload. */
    method ClientWrite(at: nat, value: Word)
      requires Valid() && Legal(blocks, Write(at, value))
      modifies mem
      ensures Valid() && at < WRAP && mem[..] == old(mem[..])[at / 4 := value]
    {
      ghost var i: nat :| Holds(blocks, i, at);
      TilesBounds(blocks, start, start + HEAP_SIZE, i);
      PayloadIsNoHeader(blocks, start, start + HEAP_SIZE, i, at);
      ghost var m := mem[..];
      mem[at / 4] := value;
      WriteKeepsHeaders(m, blocks, at, value);
    }

    /** One client operation. */
    method RunOp(op: Op)
      requires Valid() && start != 0 && Legal(blocks, op)
      modifies this`blocks, mem
      ensures Valid() && blocks == Step(old(blocks), op)
      ensures forall w :: 0 <= w < MEMORY_WORDS && !InHeader(blocks, 4 * w) ==>
                mem[w] == LastWrite([op], 4 * w, old(mem[..])[w])
    {
      match op {
        case Malloc(size) =>
          var ptr := Kmalloc(size);
        case Free(ptr) =>
          ghost var i := LiveIndex(blocks, ptr);
          TilesBounds(blocks, start, start + HEAP_SIZE, i);
          Kfree(ptr);
        case Write(at, value) =>
          ClientWrite(at, value);
      }
    }

    /** The n-th operation of a run from the block list `bs`. */
    method RunNth(ops: seq<Op>, n: nat, ghost bs: seq<Block>, ghost trace: seq<Memory>) returns (ghost trace': seq<Memory>)
      requires Valid() && start != 0 && n < |ops| && LegalRun(bs, ops) && LegalRun(bs, ops[..n]) && blocks == Run(bs, ops[..n])
      requires Tiles(bs, start, start + HEAP_SIZE) && |trace| == n + 1 && AllKept(bs, ops, trace, n, mem[..])
      modifies this`blocks, mem
      ensures Valid() && LegalRun(bs, ops[..n + 1]) && blocks == Run(bs, ops[..n + 1])
      ensures trace' == trace + [mem[..]] && AllKept(bs, ops, trace', n + 1, mem[..])
    {
      hide AllKept;
      hide InHeader;
      hide LastWrite;
      hide Tiles;
      hide Headers;
      hide Run;
      hide Step;
      hide Legal;
      LegalPrefix(bs, ops, n + 1);
      LastStep(bs, ops, n);
      ghost var before := mem[..];
      RunOp(ops[n]);
      trace' := trace + [mem[..]];
      AllKeptLonger(bs, start, start + HEAP_SIZE, ops, trace, n, before, mem[..]);
    }

    /** Over every run of client operations: the block list is the abstract one, and whoever
        was given a block at any moment and has not freed it finds there what was last
        written since.  `trace` is the memory after each operation. */
    method RunOps(ops: seq<Op>) returns (ghost trace: seq<Memory>)
      requires Valid() && start != 0 && LegalRun(blocks, ops)
      modifies this`blocks, mem
      ensures Valid() && blocks == Run(old(blocks), ops)
      ensures |trace| == |ops| + 1 && trace[0] == old(mem[..]) && trace[|ops|] == mem[..]
      ensures AllKept(old(blocks), ops, trace, |ops|, mem[..])
    {
      hide AllKept;
      hide InHeader;
      hide LastWrite;
      hide Tiles;
      hide Headers;
      ghost var bs := blocks;
      trace := [mem[..]];
      LegalPrefix(bs, ops, 0);
      KeptAtFirst(bs, ops, mem[..]);
      for n := 0 to |ops|
        invariant Valid() && start == old(start) && LegalRun(bs, ops[..n]) && blocks == Run(bs, ops[..n])
        invariant |trace| == n + 1 && trace[0] == old(mem[..]) && trace[n] == mem[..] && AllKept(bs, ops, trace, n, mem[..])
      {
        trace := RunNth(ops, n, bs, trace);
      }
      assert ops[..|ops|] == ops;
    }

    /** From initialisation on, every legal run keeps the headers tiling the heap and the
        contents of every block for as long as it is in use. */
    method BootAndRun(heapStart: nat, ops: seq<Op>) returns (ghost trace: seq<Memory>)
      requires mem.Length == MEMORY_WORDS
      requires 0 < heapStart && heapStart % 4096 == 0 && heapStart + HEAP_SIZE < WRAP
      requires LegalRun([Block(heapStart, HEAP_SIZE - HEADER, true)], ops)
      modifies this, mem
      ensures Valid() && blocks == Run([Block(heapStart, HEAP_SIZE - HEADER, true)], ops)
      ensures Tiles(blocks, heapStart, heapStart + HEAP_SIZE) && Headers(mem[..], blocks)
      ensures |trace| == |ops| + 1 && trace[|ops|] == mem[..]
      ensures AllKept([Block(heapStart, HEAP_SIZE - HEADER, true)], ops, trace, |ops|, mem[..])
    {
      hide AllKept;
      hide Tiles;
      hide Headers;
      hide OnlyHeaders;
      Init(heapStart);
      trace := RunOps(ops);
    }

    method Align(p: nat, alignment: nat) returns (up: nat)
      requires alignment > 0
      ensures up == AlignUp(p, alignment) && p <= up < p + alignment && up % alignment == 0
    {
      up := AlignUp(p, alignment);
    }

    /** Memory aligned to a power of two.  It lies inside the block taken exactly when the
        padded request does not wrap. */
    method KmallocAligned(size: Word, alignment: Word) returns (ptr: Word)
      requires Valid() && exists k: nat :: alignment == Pow2(k)
      modifies this`blocks, mem
      ensures Valid()
      ensures blocks == Step(old(blocks), Malloc(WrapAdd(size, alignment)))
      ensures OnlyHeaders(old(mem[..]), mem[..], blocks)
      ensures var n := WrapAdd(size, alignment); var fit := FirstFit(old(blocks), Round4(n));
              if n == 0 || fit.None? then ptr == 0
              else
                && ptr == AlignUp(old(blocks)[fit.value].Payload(), alignment) % WRAP
                && (blocks[fit.value].Payload() <= ptr && ptr + size <= blocks[fit.value].End() <==>
                    size + alignment <= 0xFFFF_FFFC)
                && (size + alignment <= 0xFFFF_FFFC ==> ptr % alignment == 0)
    {
      hide Tiles;
      hide Headers;
      hide OnlyHeaders;
      hide AlignUp;
      ghost var bs := blocks;
      ShortAlignment(alignment);
      var n := WrapAdd(size, alignment);
      var p := Kmalloc(n);
      if p == 0 {
        return 0;
      }
      var up := Align(p, alignment);
      CutOnce(up);
      ptr := Wrap(up);
      ghost var i := FirstFit(bs, Round4(n)).value;
      if size + alignment <= 0xFFFF_FFFC {
        AlignedInside(bs, start, start + HEAP_SIZE, size, alignment, p, up);
      } else {
        TakenAddress(bs, i, Round4(n));
        TilesBounds(blocks, start, start + HEAP_SIZE, i);
      }
    }
  }

  lemma CutOnce(a: nat)
    requires a < 2 * WRAP
    ensures Wrap(a) == a % WRAP
  {
  }

  lemma ShortAlignment(alignment: Word)
    requires exists k: nat :: alignment == Pow2(k)
    ensures 0 < alignment <= SIGN
  {
    var k: nat :| alignment == Pow2(k);
    Pow2Is32();
    if k >= 32 {
      Pow2Grows(32, k);
    } else {
      Pow2Grows(k, 31);
    }
  }
}
