/** The kernel heap as a list of blocks: first-fit allocation with splitting, and
    release with forward coalescing. */
module Blocks {
  import opened Options

  const HEADER: nat := 16
  const HEAP_SIZE: nat := 0x10_0000

  /** A block: the address of its header, its payload size and whether it is free. */
  datatype Block = Block(addr: nat, size: nat, free: bool) {
    function Payload(): (p: nat) { addr + HEADER }
    function End(): (e: nat) { addr + HEADER + size }
  }

  /** `(size + 3) & ~3` on 32 bits. */
  function Round4(size: nat): (n: nat)
    requires size < 0x1_0000_0000
    ensures n % 4 == 0 && n < 0x1_0000_0000
  {
    (size + 3) % 0x1_0000_0000 / 4 * 4
  }

  /** The first free block of at least `n` bytes, from index `i` on. */
  function FirstFit(bs: seq<Block>, n: nat, i: nat := 0): (r: Option<nat>)
    ensures r.Some? ==> i <= r.value < |bs| && bs[r.value].free && bs[r.value].size >= n
    ensures r.Some? ==> forall k :: i <= k < r.value ==> !(bs[k].free && bs[k].size >= n)
    ensures r.None? ==> forall k :: i <= k < |bs| ==> !(bs[k].free && bs[k].size >= n)
    decreases |bs| - i
  {
    if i >= |bs| then None
    else if bs[i].free && bs[i].size >= n then Some(i)
    else FirstFit(bs, n, i + 1)
  }

  predicate Splits(b: Block, n: nat) { b.size > n + HEADER + 16 }

  /** Block `i` given to a request of `n` bytes. */
  function TakeAt(bs: seq<Block>, i: nat, n: nat): (r: seq<Block>)
    requires i < |bs| && bs[i].size >= n
  {
    if Splits(bs[i], n) then
      bs[..i] + [Block(bs[i].addr, n, false), Block(bs[i].addr + HEADER + n, bs[i].size - n - HEADER, true)] + bs[i + 1..]
    else bs[i := bs[i].(free := false)]
  }

  lemma OneForTwo<T>(s: seq<T>, i: nat, x: T, y: T)
    requires i < |s|
    ensures var r := s[..i] + [x, y] + s[i + 1..];
            |r| == |s| + 1 && r[i] == x && r[i + 1] == y &&
            (forall k :: 0 <= k < i ==> r[k] == s[k]) && (forall k :: i + 1 < k <= |s| ==> r[k] == s[k - 1])
  {
  }

  lemma TwoForOne<T>(s: seq<T>, i: nat, x: T)
    requires i + 1 < |s|
    ensures var r := s[..i] + [x] + s[i + 2..];
            |r| == |s| - 1 && r[i] == x &&
            (forall k :: 0 <= k < i ==> r[k] == s[k]) && (forall k :: i < k < |r| ==> r[k] == s[k + 1])
  {
  }

  /** The blocks of a split list, one by one. */
  lemma SplitBlocks(bs: seq<Block>, i: nat, n: nat)
    requires i < |bs| && Splits(bs[i], n)
    ensures var r := TakeAt(bs, i, n);
            |r| == |bs| + 1 && r[i] == Block(bs[i].addr, n, false) &&
            r[i + 1] == Block(bs[i].addr + HEADER + n, bs[i].size - n - HEADER, true) &&
            (forall k :: 0 <= k < i ==> r[k] == bs[k]) && (forall k :: i + 1 < k <= |bs| ==> r[k] == bs[k - 1])
  {
    OneForTwo(bs, i, Block(bs[i].addr, n, false), Block(bs[i].addr + HEADER + n, bs[i].size - n - HEADER, true));
  }

  predicate NextIsFree(bs: seq<Block>, i: nat) { i + 1 < |bs| && bs[i + 1].free }

  /** Block `i` released. */
  function FreeAt(bs: seq<Block>, i: nat): (r: seq<Block>)
    requires i < |bs|
  {
    if NextIsFree(bs, i) then
      bs[..i] + [Block(bs[i].addr, bs[i].size + HEADER + bs[i + 1].size, true)] + bs[i + 2..]
    else bs[i := bs[i].(free := true)]
  }

  /** The blocks of a coalesced list, one by one. */
  lemma MergedBlocks(bs: seq<Block>, i: nat)
    requires NextIsFree(bs, i)
    ensures var r := FreeAt(bs, i);
            |r| == |bs| - 1 && r[i] == Block(bs[i].addr, bs[i].size + HEADER + bs[i + 1].size, true) &&
            (forall k :: 0 <= k < i ==> r[k] == bs[k]) && (forall k :: i < k < |r| ==> r[k] == bs[k + 1])
  {
    TwoForOne(bs, i, Block(bs[i].addr, bs[i].size + HEADER + bs[i + 1].size, true));
  }

  // ----- the invariant: headers and payloads tile the heap

  ghost predicate Tiles(bs: seq<Block>, lo: nat, hi: nat) {
    && lo % 4 == 0
    && |bs| > 0 && bs[0].addr == lo && bs[|bs| - 1].End() == hi
    && (forall i, j :: 0 <= i < j < |bs| && j == i + 1 ==> bs[j].addr == bs[i].End())
    && (forall i :: 0 <= i < |bs| ==> bs[i].size % 4 == 0)
  }

  lemma {:induction false} TilesOrdered(bs: seq<Block>, lo: nat, hi: nat, i: nat, j: nat)
    requires Tiles(bs, lo, hi) && i < j < |bs|
    ensures bs[i].End() <= bs[j].addr
    decreases j - i
  {
    if i + 1 < j {
      TilesOrdered(bs, lo, hi, i + 1, j);
    }
  }

  lemma SumOfFours(a: nat, b: nat)
    requires a % 4 == 0 && b % 4 == 0
    ensures (a + b) % 4 == 0
  {
  }

  lemma {:induction false} TilesBounds(bs: seq<Block>, lo: nat, hi: nat, i: nat)
    requires Tiles(bs, lo, hi) && i < |bs|
    ensures lo <= bs[i].addr && bs[i].End() <= hi
    ensures bs[i].addr % 4 == 0 && bs[i].Payload() % 4 == 0
    decreases i
  {
    if i > 0 {
      TilesBounds(bs, lo, hi, i - 1);
      SumOfFours(bs[i - 1].Payload(), bs[i - 1].size);
    }
    SumOfFours(bs[i].addr, HEADER);
    if i + 1 < |bs| {
      TilesOrdered(bs, lo, hi, i, |bs| - 1);
    }
  }

  /** No byte belongs to two payloads, or to a payload and a header. */
  lemma PayloadsDisjoint(bs: seq<Block>, lo: nat, hi: nat, i: nat, j: nat)
    requires Tiles(bs, lo, hi) && i < |bs| && j < |bs| && i != j
    ensures bs[i].End() <= bs[j].Payload() || bs[j].End() <= bs[i].Payload()
    ensures bs[i].End() <= bs[j].addr || bs[j].Payload() <= bs[i].addr
  {
    if i < j {
      TilesOrdered(bs, lo, hi, i, j);
    } else {
      TilesOrdered(bs, lo, hi, j, i);
    }
  }

  lemma SplitTiles(bs: seq<Block>, r: seq<Block>, lo: nat, hi: nat, i: nat, n: nat)
    requires Tiles(bs, lo, hi) && i < |bs| && Splits(bs[i], n) && n % 4 == 0
    requires |r| == |bs| + 1 && r[i] == Block(bs[i].addr, n, false)
    requires r[i + 1] == Block(bs[i].addr + HEADER + n, bs[i].size - n - HEADER, true)
    requires (forall k :: 0 <= k < i ==> r[k] == bs[k]) && (forall k :: i + 1 < k <= |bs| ==> r[k] == bs[k - 1])
    ensures Tiles(r, lo, hi)
  {
    assert r[0].addr == lo && r[|r| - 1].End() == hi;
    forall j | 0 <= j < |r| - 1
      ensures r[j + 1].addr == r[j].End()
    {
      if j < i {
        assert bs[j + 1].addr == bs[j].End();
      } else if j > i {
        assert j < |bs| ==> bs[j].addr == bs[j - 1].End();
      }
    }
  }

  lemma TakeKeepsTiles(bs: seq<Block>, lo: nat, hi: nat, i: nat, n: nat)
    requires Tiles(bs, lo, hi) && i < |bs| && bs[i].size >= n && n % 4 == 0
    ensures Tiles(TakeAt(bs, i, n), lo, hi)
  {
    if Splits(bs[i], n) {
      SplitBlocks(bs, i, n);
      SplitTiles(bs, TakeAt(bs, i, n), lo, hi, i, n);
    }
  }

  lemma FreeKeepsTiles(bs: seq<Block>, lo: nat, hi: nat, i: nat)
    requires Tiles(bs, lo, hi) && i < |bs|
    ensures Tiles(FreeAt(bs, i), lo, hi)
  {
    var r := FreeAt(bs, i);
    if NextIsFree(bs, i) {
      MergedBlocks(bs, i);
    }
  }

  // ----- operations on whole heaps

  /** The block whose payload starts at `ptr` and is in use. */
  ghost predicate IsLive(bs: seq<Block>, ptr: nat, i: nat) {
    i < |bs| && !bs[i].free && bs[i].Payload() == ptr
  }

  ghost predicate Live(bs: seq<Block>, ptr: nat) {
    exists i: nat :: IsLive(bs, ptr, i)
  }

  ghost function LiveIndex(bs: seq<Block>, ptr: nat): (i: nat)
    requires Live(bs, ptr)
    ensures IsLive(bs, ptr, i)
  {
    var i: nat :| IsLive(bs, ptr, i);
    i
  }

  datatype Op = Malloc(size: nat) | Free(ptr: nat) | Write(at: nat, value: nat)

  /** The block list after one legal operation.  A write to a payload leaves it alone. */
  ghost function Step(bs: seq<Block>, op: Op): (r: seq<Block>)
    requires Legal(bs, op)
  {
    match op
    case Malloc(size) =>
      if size == 0 then bs
      else (match FirstFit(bs, Round4(size))
            case None => bs
            case Some(i) => TakeAt(bs, i, Round4(size)))
    case Free(ptr) => FreeAt(bs, LiveIndex(bs, ptr))
    case Write(_, _) => bs
  }

  /** The operations a client may issue: sizes of 32 bits, frees of live pointers,
      writes of whole words inside live payloads. */
  ghost predicate Legal(bs: seq<Block>, op: Op) {
    match op
    case Malloc(size) => size < 0x1_0000_0000
    case Free(ptr) => Live(bs, ptr)
    case Write(at, value) => at % 4 == 0 && value < 0x1_0000_0000 && exists i: nat :: Holds(bs, i, at)
  }

  ghost predicate Holds(bs: seq<Block>, i: nat, at: nat) {
    i < |bs| && !bs[i].free && bs[i].Payload() <= at < bs[i].End()
  }

  ghost predicate LegalRun(bs: seq<Block>, ops: seq<Op>)
    decreases |ops|, 0
  {
    ops == [] || (LegalRun(bs, ops[..|ops| - 1]) && Legal(Run(bs, ops[..|ops| - 1]), ops[|ops| - 1]))
  }

  ghost function Run(bs: seq<Block>, ops: seq<Op>): (r: seq<Block>)
    requires LegalRun(bs, ops)
    decreases |ops|, 1
  {
    if ops == [] then bs else Step(Run(bs, ops[..|ops| - 1]), ops[|ops| - 1])
  }

  /** A run is a run of its first operations followed by a run of the others. */
  lemma {:induction false} RunSplit(bs: seq<Block>, ops: seq<Op>, k: nat)
    requires LegalRun(bs, ops) && k <= |ops|
    ensures LegalRun(bs, ops[..k]) && LegalRun(Run(bs, ops[..k]), ops[k..])
    ensures Run(Run(bs, ops[..k]), ops[k..]) == Run(bs, ops)
  {
    if k == |ops| {
      assert ops[..k] == ops && ops[k..] == [];
    } else {
      var pre := ops[..|ops| - 1];
      RunSplit(bs, pre, k);
      assert pre[..k] == ops[..k] && pre[k..] == ops[k..][..|ops| - k - 1] && ops[k..][|ops| - k - 1] == ops[|ops| - 1];
    }
  }

  lemma LastStep(bs: seq<Block>, ops: seq<Op>, n: nat)
    requires n < |ops| && LegalRun(bs, ops[..n]) && LegalRun(bs, ops[..n + 1])
    ensures Legal(Run(bs, ops[..n]), ops[n]) && Run(bs, ops[..n + 1]) == Step(Run(bs, ops[..n]), ops[n])
  {
    assert ops[..n + 1][..n] == ops[..n];
  }

  lemma {:induction false} LegalPrefix(bs: seq<Block>, ops: seq<Op>, k: nat)
    requires LegalRun(bs, ops) && k <= |ops|
    ensures LegalRun(bs, ops[..k])
  {
    if k == |ops| {
      assert ops[..k] == ops;
    } else {
      LegalPrefix(bs, ops[..|ops| - 1], k);
      assert ops[..|ops| - 1][..k] == ops[..k];
    }
  }

  lemma StepKeepsTiles(bs: seq<Block>, lo: nat, hi: nat, op: Op)
    requires Tiles(bs, lo, hi) && Legal(bs, op)
    ensures Tiles(Step(bs, op), lo, hi)
  {
    match op
    case Malloc(size) =>
      if size != 0 && FirstFit(bs, Round4(size)).Some? {
        TakeKeepsTiles(bs, lo, hi, FirstFit(bs, Round4(size)).value, Round4(size));
      }
    case Free(ptr) => FreeKeepsTiles(bs, lo, hi, LiveIndex(bs, ptr));
    case Write(_, _) =>
  }

  /** Over every run the headers and payloads tile the heap exactly. */
  lemma {:induction false} RunKeepsTiles(bs: seq<Block>, lo: nat, hi: nat, ops: seq<Op>)
    requires Tiles(bs, lo, hi) && LegalRun(bs, ops)
    ensures Tiles(Run(bs, ops), lo, hi)
  {
    if ops != [] {
      RunKeepsTiles(bs, lo, hi, ops[..|ops| - 1]);
      StepKeepsTiles(Run(bs, ops[..|ops| - 1]), lo, hi, ops[|ops| - 1]);
    }
  }

  lemma StepKeepsLiveBlock(bs: seq<Block>, lo: nat, hi: nat, op: Op, ptr: nat, size: nat)
    requires Tiles(bs, lo, hi) && Legal(bs, op) && op != Free(ptr)
    requires ptr >= HEADER && Block(ptr - HEADER, size, false) in bs
    ensures Block(ptr - HEADER, size, false) in Step(bs, op)
  {
    var k :| 0 <= k < |bs| && bs[k] == Block(ptr - HEADER, size, false);
    match op
    case Malloc(n) =>
      if n != 0 && FirstFit(bs, Round4(n)).Some? {
        var i := FirstFit(bs, Round4(n)).value;
        var r := TakeAt(bs, i, Round4(n));
        assert r[if k < i || !Splits(bs[i], Round4(n)) then k else k + 1] == bs[k];
      }
    case Free(p) =>
      var i := LiveIndex(bs, p);
      assert k != i;
      var r := FreeAt(bs, i);
      assert NextIsFree(bs, i) ==> k != i + 1;
      assert r[if k < i || !NextIsFree(bs, i) then k else k - 1] == bs[k];
    case Write(_, _) =>
  }

  /** A block that is not freed during a run keeps its place and its size. */
  lemma {:induction false} RunKeepsLiveBlock(bs: seq<Block>, lo: nat, hi: nat, ops: seq<Op>, ptr: nat, size: nat)
    requires Tiles(bs, lo, hi) && LegalRun(bs, ops) && Free(ptr) !in ops
    requires ptr >= HEADER && Block(ptr - HEADER, size, false) in bs
    ensures Block(ptr - HEADER, size, false) in Run(bs, ops)
  {
    if ops != [] {
      var pre := ops[..|ops| - 1];
      assert forall op :: op in pre ==> op in ops;
      RunKeepsLiveBlock(bs, lo, hi, pre, ptr, size);
      RunKeepsTiles(bs, lo, hi, pre);
      StepKeepsLiveBlock(Run(bs, pre), lo, hi, ops[|ops| - 1], ptr, size);
    }
  }

  // ----- quality of service

  /** A request is refused exactly when no free block is large enough. */
  ghost predicate Satisfiable(bs: seq<Block>, n: nat) {
    exists i :: 0 <= i < |bs| && bs[i].free && bs[i].size >= n
  }

  lemma RefusedIffUnsatisfiable(bs: seq<Block>, n: nat)
    ensures FirstFit(bs, n).None? <==> !Satisfiable(bs, n)
  {
  }

  /** A granted block has at least the rounded size and at most 32 bytes more. */
  lemma GrantedSize(bs: seq<Block>, n: nat)
    requires Satisfiable(bs, n)
    ensures var i := FirstFit(bs, n).value; n <= TakeAt(bs, i, n)[i].size <= n + 32 && !TakeAt(bs, i, n)[i].free
  {
    var i := FirstFit(bs, n).value;
    assert Splits(bs[i], n) ==> TakeAt(bs, i, n)[i] == Block(bs[i].addr, n, false);
  }

  /** The rounded request covers the request unless rounding wraps around: the three
      largest sizes round to 0 and are granted blocks that are too small. */
  lemma RoundingWraps(size: nat)
    requires size < 0x1_0000_0000
    ensures Round4(size) >= size <==> size <= 0xFFFF_FFFC
    ensures size > 0xFFFF_FFFC ==> Round4(size) == 0
    ensures size <= 0xFFFF_FFFC ==> Round4(size) < size + 4
  {
    if size > 0xFFFF_FFFC {
      assert (size + 3) % 0x1_0000_0000 == size + 3 - 0x1_0000_0000;
    }
  }

  lemma TakenAddress(bs: seq<Block>, i: nat, n: nat)
    requires i < |bs| && bs[i].size >= n
    ensures i < |TakeAt(bs, i, n)| && TakeAt(bs, i, n)[i].addr == bs[i].addr
  {
    if Splits(bs[i], n) {
      SplitBlocks(bs, i, n);
    }
  }

  /** Releasing a block never makes a satisfiable request fail. */
  lemma FreeKeepsSatisfiable(bs: seq<Block>, i: nat, n: nat)
    requires i < |bs| && Satisfiable(bs, n)
    ensures Satisfiable(FreeAt(bs, i), n)
  {
    var k :| 0 <= k < |bs| && bs[k].free && bs[k].size >= n;
    var r := FreeAt(bs, i);
    var k' := if !NextIsFree(bs, i) || k <= i then k else k - 1;
    assert r[k'].free && r[k'].size >= n;
  }

  /** Releasing right after allocating restores the block list exactly when the
      block was split or the block after it is in use. */
  lemma TakeThenFree(bs: seq<Block>, i: nat, n: nat)
    requires i < |bs| && bs[i].free && bs[i].size >= n
    ensures FreeAt(TakeAt(bs, i, n), i) == bs <==> Splits(bs[i], n) || !NextIsFree(bs, i)
  {
    var t := TakeAt(bs, i, n);
    if Splits(bs[i], n) {
      assert t[i] == Block(bs[i].addr, n, false);
      assert t[i + 1] == Block(bs[i].addr + HEADER + n, bs[i].size - n - HEADER, true);
      assert t[..i] == bs[..i] && t[i + 2..] == bs[i + 1..];
      assert bs == bs[..i] + [bs[i]] + bs[i + 1..];
    } else if NextIsFree(bs, i) {
      assert |FreeAt(t, i)| == |bs| - 1;
    } else {
      assert FreeAt(t, i) == bs;
    }
  }

  // ----- accounting

  function Used(bs: seq<Block>): (bytes: nat) {
    if bs == [] then 0
    else Used(bs[..|bs| - 1]) + if bs[|bs| - 1].free then 0 else bs[|bs| - 1].size + HEADER
  }

  function Unused(bs: seq<Block>): (bytes: nat) {
    if bs == [] then 0 else Unused(bs[..|bs| - 1]) + if bs[|bs| - 1].free then bs[|bs| - 1].size else 0
  }

  function FreeBlocks(bs: seq<Block>): (count: nat) {
    if bs == [] then 0 else FreeBlocks(bs[..|bs| - 1]) + if bs[|bs| - 1].free then 1 else 0
  }

  /** Used bytes, free bytes and the headers of free blocks add up to the heap. */
  lemma {:induction false} Accounting(bs: seq<Block>, lo: nat, hi: nat)
    requires Tiles(bs, lo, hi)
    ensures Used(bs) + Unused(bs) + HEADER * FreeBlocks(bs) == hi - lo
  {
    var pre := bs[..|bs| - 1];
    if pre == [] {
      assert Used(bs) + Unused(bs) + HEADER * FreeBlocks(bs) == HEADER + bs[0].size;
    } else {
      Accounting(pre, lo, bs[|bs| - 1].addr);
    }
  }

  /** A heap of free blocks has nothing in use. */
  lemma {:induction false} NothingUsed(bs: seq<Block>)
    requires forall b :: b in bs ==> b.free
    ensures Used(bs) == 0 && FreeBlocks(bs) == |bs|
  {
    if bs != [] {
      assert bs[|bs| - 1] in bs;
      assert forall b :: b in bs[..|bs| - 1] ==> b in bs;
      NothingUsed(bs[..|bs| - 1]);
    }
  }

  lemma {:induction false} UsedAppend(a: seq<Block>, b: seq<Block>)
    ensures Used(a + b) == Used(a) + Used(b)
  {
    if b == [] {
      assert a + b == a;
    } else {
      UsedAppend(a, b[..|b| - 1]);
      assert (a + b)[..|a + b| - 1] == a + b[..|b| - 1];
    }
  }

  lemma UsedReplace(bs: seq<Block>, i: nat, j: nat, mid: seq<Block>)
    requires i <= j <= |bs|
    ensures Used(bs[..i] + mid + bs[j..]) - Used(mid) == Used(bs) - Used(bs[i..j])
  {
    hide Used;
    UsedAppend(bs[..i] + mid, bs[j..]);
    UsedAppend(bs[..i], mid);
    UsedAppend(bs[..i], bs[i..j]);
    UsedAppend(bs[..i] + bs[i..j], bs[j..]);
    assert bs[..i] + bs[i..j] + bs[j..] == bs;
  }

  lemma UsedOne(b: Block)
    ensures Used([b]) == if b.free then 0 else b.size + 16
  {
    assert [b][..0] == [];
  }

  lemma UsedTwo(a: Block, b: Block)
    ensures Used([a, b]) == Used([a]) + Used([b])
  {
    assert [a, b] == [a] + [b];
    UsedAppend([a], [b]);
  }

  lemma OneSlice<T>(s: seq<T>, i: nat, x: T)
    requires i < |s|
    ensures s[i..i + 1] == [s[i]] && s[i := x] == s[..i] + [x] + s[i + 1..]
  {
  }

  /** An allocation adds the granted bytes and a header. */
  lemma TakeUses(bs: seq<Block>, i: nat, n: nat)
    requires i < |bs| && bs[i].free && bs[i].size >= n
    ensures var r := TakeAt(bs, i, n); |r| > i && Used(r) == Used(bs) + r[i].size + 16
  {
    hide Used;
    var used := bs[i].(free := false);
    OneSlice(bs, i, used);
    UsedOne(bs[i]);
    if Splits(bs[i], n) {
      var a, b := Block(bs[i].addr, n, false), Block(bs[i].addr + HEADER + n, bs[i].size - n - HEADER, true);
      UsedReplace(bs, i, i + 1, [a, b]);
      UsedTwo(a, b);
      UsedOne(a);
      UsedOne(b);
      SplitBlocks(bs, i, n);
    } else {
      UsedReplace(bs, i, i + 1, [used]);
      UsedOne(used);
    }
  }

  /** A release takes them away again, whether or not the block is merged with the next. */
  lemma FreeReturns(bs: seq<Block>, i: nat)
    requires i < |bs| && !bs[i].free
    ensures Used(FreeAt(bs, i)) == Used(bs) - bs[i].size - 16
  {
    hide Used;
    var free := bs[i].(free := true);
    UsedOne(bs[i]);
    if NextIsFree(bs, i) {
      var merged := Block(bs[i].addr, bs[i].size + HEADER + bs[i + 1].size, true);
      UsedReplace(bs, i, i + 2, [merged]);
      UsedOne(merged);
      UsedTwo(bs[i], bs[i + 1]);
      UsedOne(bs[i + 1]);
      assert bs[i..i + 2] == [bs[i], bs[i + 1]];
    } else {
      OneSlice(bs, i, free);
      UsedReplace(bs, i, i + 1, [free]);
      UsedOne(free);
    }
  }

  // ----- what clients see of their memory

  /** The word a client finds at `a` after its own writes in `ops`. */
  ghost function LastWrite(ops: seq<Op>, a: nat, before: nat): (v: nat) {
    if ops == [] then before
    else if ops[|ops| - 1].Write? && ops[|ops| - 1].at == a then ops[|ops| - 1].value
    else LastWrite(ops[..|ops| - 1], a, before)
  }

  /** `(x + alignment - 1) & ~(alignment - 1)` for a power of two. */
  function AlignUp(x: nat, alignment: nat): (r: nat)
    requires alignment > 0
    ensures x <= r < x + alignment && r % alignment == 0
  {
    var y := x + alignment - 1;
    RoundedDown(y, alignment);
    y - y % alignment
  }

  lemma RoundedDown(y: nat, n: nat)
    requires n > 0
    ensures (y - y % n) % n == 0
  {
    assert y == y / n * n + y % n;
    MultipleModulo(y / n, n);
  }

  lemma {:induction false} MultipleModulo(q: nat, n: nat)
    requires n > 0
    ensures q * n % n == 0
  {
    if q > 0 {
      MultipleModulo(q - 1, n);
      assert q * n == (q - 1) * n + n;
      ModuloStep((q - 1) * n, n);
    }
  }

  lemma ModuloStep(a: nat, n: nat)
    requires n > 0
    ensures (a + n) % n == a % n
  {
    var q, r := a / n, a % n;
    assert a + n == (q + 1) * n + r;
    ModuloUnique(a + n, n, q + 1, r);
  }

  lemma MultipleAtLeast(k: int, n: nat)
    ensures k >= 1 ==> k * n >= n
    ensures k <= -1 ==> k * n + n <= 0
  {
  }

  lemma ModuloUnique(a: nat, n: nat, q: nat, r: nat)
    requires n > 0 && a == q * n + r && r < n
    ensures a % n == r
  {
    var q', r' := a / n, a % n;
    var d := q - q';
    assert d * n == r' - r by {
      assert a == q' * n + r';
      assert d * n == q * n - q' * n;
    }
    MultipleAtLeast(d, n);
    assert d == 0;
  }
}
