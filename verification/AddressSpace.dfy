/** The specification of one address space: a flat map of pages, the frames that
    serve as its page tables, and the free frames.  No two-level structure and no
    memory; the paging code refines these steps. */
module AddressSpaces {
  import opened Options
  import opened Words
  import opened Frames
  import opened Paging

  datatype AddressSpace = AddressSpace(pages: map<nat, Word>, tables: map<nat, nat>, free: set<nat>, next: nat)

  datatype Op = Map(va: Word, pa: Word, flags: Word) | Unmap(va: Word)

  function PageOf(va: Word): (p: nat)
    ensures p < PAGES
  {
    va / PAGE_SIZE
  }

  /** The entry written by a mapping: frame and low flag bits, always present. */
  function MappedEntry(pa: Word, flags: Word): (e: Word)
    ensures Present(e) && FrameOf(e) == pa / PAGE_SIZE && FlagsOf(e) / 2 == FlagsOf(flags) / 2
  {
    MakeEntry(FrameOf(pa), WithPresent(FlagsOf(flags)))
  }

  /** Mapping needs a frame only for the first page of a table; without one it does nothing. */
  ghost function MapStep(s: AddressSpace, va: Word, pa: Word, flags: Word): (s': AddressSpace) {
    var p, e := PageOf(va), MappedEntry(pa, flags);
    if p / ENTRIES in s.tables then s.(pages := s.pages[p := e])
    else
      match NextFit(s.free, s.next)
      case None => s
      case Some(t) =>
        AddressSpace(s.pages[p := e], s.tables[p / ENTRIES := t], s.free - {t}, (t + 1) % MAX_FRAMES)
  }

  /** Unmapping frees the mapped frame, except frame 0 and frames above the pool. */
  ghost function UnmapStep(s: AddressSpace, va: Word): (s': AddressSpace) {
    var p := PageOf(va);
    if p !in s.pages then s
    else
      var f := FrameOf(s.pages[p]);
      s.(pages := s.pages - {p}, free := if 0 < f < MAX_FRAMES then s.free + {f} else s.free)
  }

  ghost function Step(s: AddressSpace, op: Op): (s': AddressSpace) {
    match op
    case Map(va, pa, flags) => MapStep(s, va, pa, flags)
    case Unmap(va) => UnmapStep(s, va)
  }

  ghost function Run(s: AddressSpace, ops: seq<Op>): (s': AddressSpace) {
    if ops == [] then s else Step(Run(s, ops[..|ops| - 1]), ops[|ops| - 1])
  }

  // ----- laws of whole runs

  /** One operation on a plain page map, with no tables and no frames. */
  ghost function FlatStep(pages: map<nat, Word>, op: Op): (r: map<nat, Word>) {
    match op
    case Map(va, pa, flags) => pages[PageOf(va) := MappedEntry(pa, flags)]
    case Unmap(va) => pages - {PageOf(va)}
  }

  ghost function FlatRun(pages: map<nat, Word>, ops: seq<Op>): (r: map<nat, Word>) {
    if ops == [] then pages else FlatStep(FlatRun(pages, ops[..|ops| - 1]), ops[|ops| - 1])
  }

  ghost predicate Sane(s: AddressSpace) {
    && s.next < MAX_FRAMES
    && (forall f :: f in s.free ==> 0 < f < MAX_FRAMES)
    && (forall i :: i in s.tables ==> i < ENTRIES)
  }

  lemma StepKeepsSane(s: AddressSpace, op: Op)
    requires Sane(s)
    ensures Sane(Step(s, op))
  {
    NextFitIsFirstFree(s.free, s.next);
  }

  /** Frame 0 is never handed out and never freed, so a sweep result of 0 means
      "out of memory" throughout any run. */
  lemma {:induction false} RunKeepsSane(s: AddressSpace, ops: seq<Op>)
    requires Sane(s)
    ensures Sane(Run(s, ops))
    ensures 0 !in Run(s, ops).free
  {
    if ops != [] {
      RunKeepsSane(s, ops[..|ops| - 1]);
      StepKeepsSane(Run(s, ops[..|ops| - 1]), ops[|ops| - 1]);
    }
  }

  lemma BoundedSet(s: set<nat>, n: nat)
    requires forall i :: i in s ==> i < n
    ensures |s| <= n
  {
    if n == 0 {
      assert s == {};
    } else {
      BoundedSet(s - {n - 1}, n - 1);
      if n - 1 in s {
        assert |s| == |s - {n - 1}| + 1;
      } else {
        assert s == s - {n - 1};
      }
    }
  }

  /** Free frames cover every table that may still have to be built. */
  ghost predicate Roomy(s: AddressSpace) {
    |s.free| + |s.tables| >= ENTRIES
  }

  lemma MapKeepsRoomy(s: AddressSpace, va: Word, pa: Word, flags: Word)
    requires Sane(s) && Roomy(s)
    ensures Roomy(MapStep(s, va, pa, flags))
    ensures MapStep(s, va, pa, flags).pages == s.pages[PageOf(va) := MappedEntry(pa, flags)]
  {
    var i := PageOf(va) / ENTRIES;
    if i !in s.tables {
      BoundedSet(s.tables.Keys + {i}, ENTRIES);
      assert |s.tables.Keys + {i}| == |s.tables| + 1;
      NextFitIsFirstFree(s.free, s.next);
      var t := NextFit(s.free, s.next).value;
      assert |s.free - {t}| == |s.free| - 1;
      assert s.tables[i := t].Keys == s.tables.Keys + {i};
      assert |s.tables[i := t]| == |s.tables| + 1;
    }
  }

  lemma UnmapKeepsRoomy(s: AddressSpace, va: Word)
    requires Roomy(s)
    ensures Roomy(UnmapStep(s, va))
    ensures UnmapStep(s, va).pages == s.pages - {PageOf(va)}
  {
    if PageOf(va) in s.pages {
      var f := FrameOf(s.pages[PageOf(va)]);
      if f !in s.free {
        assert |s.free + {f}| == |s.free| + 1;
      } else {
        assert s.free + {f} == s.free;
      }
    }
  }

  /** With room for the missing tables, every run of mappings and unmappings is
      exactly the run of a plain page map: the table structure is invisible. */
  lemma {:induction false} RunIsFlat(s: AddressSpace, ops: seq<Op>)
    requires Sane(s) && Roomy(s)
    ensures Roomy(Run(s, ops))
    ensures Run(s, ops).pages == FlatRun(s.pages, ops)
  {
    if ops != [] {
      var pre, op := ops[..|ops| - 1], ops[|ops| - 1];
      RunIsFlat(s, pre);
      RunKeepsSane(s, pre);
      match op
      case Map(va, pa, flags) => MapKeepsRoomy(Run(s, pre), va, pa, flags);
      case Unmap(va) => UnmapKeepsRoomy(Run(s, pre), va);
    }
  }

  // ----- when mappings are lost

  /** Every mapped page lies in a table. */
  ghost predicate Tabled(s: AddressSpace) {
    forall p :: p in s.pages ==> p / ENTRIES in s.tables
  }

  /** A mapping finds its table, or a frame for it. */
  ghost predicate Served(s: AddressSpace, va: Word) { PageOf(va) / ENTRIES in s.tables || s.free != {} }

  /** A mapping takes effect exactly when there is a table or a free frame; otherwise it
      changes nothing and the page stays unmapped. */
  lemma MapTakesEffect(s: AddressSpace, va: Word, pa: Word, flags: Word)
    requires Sane(s) && Tabled(s)
    ensures MapStep(s, va, pa, flags).pages == s.pages[PageOf(va) := MappedEntry(pa, flags)] <==> Served(s, va)
    ensures !Served(s, va) ==> MapStep(s, va, pa, flags) == s && PageOf(va) !in s.pages
  {
    NextFitIsFirstFree(s.free, s.next);
    assert PageOf(va) in s.pages[PageOf(va) := MappedEntry(pa, flags)];
  }

  lemma {:induction false} RunKeepsTabled(s: AddressSpace, ops: seq<Op>)
    requires Sane(s) && Tabled(s)
    ensures Sane(Run(s, ops)) && Tabled(Run(s, ops))
  {
    if ops != [] {
      RunKeepsTabled(s, ops[..|ops| - 1]);
      StepKeepsSane(Run(s, ops[..|ops| - 1]), ops[|ops| - 1]);
    }
  }

  /** The last operation on a page was a mapping that found neither table nor frame. */
  ghost predicate Lost(s: AddressSpace, ops: seq<Op>, p: nat) {
    ops != [] &&
    var pre, op := ops[..|ops| - 1], ops[|ops| - 1];
    if PageOf(op.va) == p then op.Map? && !Served(Run(s, pre), op.va) else Lost(s, pre, p)
  }

  /** Page by page: a lost page is unmapped though the plain page map has it, and on every
      other page the two agree. */
  lemma {:induction false} LostExactly(s: AddressSpace, ops: seq<Op>, p: nat)
    requires Sane(s) && Tabled(s)
    ensures var two, flat := Run(s, ops).pages, FlatRun(s.pages, ops);
            if Lost(s, ops, p) then p !in two && p in flat
            else (p in two <==> p in flat) && (p in two ==> two[p] == flat[p])
  {
    if ops != [] {
      var pre, op := ops[..|ops| - 1], ops[|ops| - 1];
      LostExactly(s, pre, p);
      RunKeepsTabled(s, pre);
      if op.Map? {
        MapTakesEffect(Run(s, pre), op.va, op.pa, op.flags);
      }
    }
  }

  ghost predicate NothingLost(s: AddressSpace, ops: seq<Op>) {
    forall p: nat :: !Lost(s, ops, p)
  }

  /** A run ends in the plain page map exactly when no page is lost. */
  lemma RunIsFlatExactly(s: AddressSpace, ops: seq<Op>)
    requires Sane(s) && Tabled(s)
    ensures Run(s, ops).pages == FlatRun(s.pages, ops) <==> NothingLost(s, ops)
  {
    hide Lost;
    hide Run;
    hide FlatRun;
    var two, flat := Run(s, ops).pages, FlatRun(s.pages, ops);
    forall p: nat
      ensures if Lost(s, ops, p) then p !in two && p in flat else (p in two <==> p in flat) && (p in two ==> two[p] == flat[p])
    {
      LostExactly(s, ops, p);
    }
    if NothingLost(s, ops) {
      assert two == flat;
    }
  }

  /** After the first `k` operations the pages are those of the plain page map. */
  ghost predicate FlatAt(s: AddressSpace, ops: seq<Op>, k: nat)
    requires k <= |ops|
  {
    Run(s, ops[..k]).pages == FlatRun(s.pages, ops[..k])
  }

  ghost predicate ServedAt(s: AddressSpace, ops: seq<Op>, k: nat)
    requires k < |ops|
  {
    ops[k].Map? ==> Served(Run(s, ops[..k]), ops[k].va)
  }

  lemma StaysFlatExactly(s: AddressSpace, ops: seq<Op>, k: nat)
    requires Sane(s) && Tabled(s) && k < |ops| && FlatAt(s, ops, k)
    ensures FlatAt(s, ops, k + 1) <==> ServedAt(s, ops, k)
  {
    assert ops[..k + 1][..k] == ops[..k];
    RunKeepsTabled(s, ops[..k]);
    if ops[k].Map? {
      MapTakesEffect(Run(s, ops[..k]), ops[k].va, ops[k].pa, ops[k].flags);
    }
  }

  /** A run is the plain page map at every moment exactly when every mapping is served. */
  lemma AlwaysFlatExactly(s: AddressSpace, ops: seq<Op>)
    requires Sane(s) && Tabled(s)
    ensures (forall k: nat :: k <= |ops| ==> FlatAt(s, ops, k)) <==> (forall k: nat :: k < |ops| ==> ServedAt(s, ops, k))
  {
    hide FlatAt;
    hide ServedAt;
    FlatAtStart(s, ops);
    for n := 0 to |ops|
      invariant (forall k: nat :: k <= n ==> FlatAt(s, ops, k)) <==> (forall k: nat :: k < n ==> ServedAt(s, ops, k))
    {
      if FlatAt(s, ops, n) {
        StaysFlatExactly(s, ops, n);
      }
    }
  }

  lemma FlatAtStart(s: AddressSpace, ops: seq<Op>)
    ensures FlatAt(s, ops, 0)
  {
  }

  /** A run leaves alone every page it does not name, whatever else it does. */
  lemma {:induction false} RunLeavesOtherPages(s: AddressSpace, ops: seq<Op>, p: nat)
    requires forall k :: 0 <= k < |ops| ==> PageOf(ops[k].va) != p
    ensures p in Run(s, ops).pages <==> p in s.pages
    ensures p in s.pages ==> Run(s, ops).pages[p] == s.pages[p]
  {
    if ops != [] {
      RunLeavesOtherPages(s, ops[..|ops| - 1], p);
    }
  }

  // ----- what a run makes of an address

  /** The last operation on the page of an address. */
  ghost function LastOn(ops: seq<Op>, va: Word): (op: Option<Op>) {
    if ops == [] then None
    else if ops[|ops| - 1].va / 4096 == va / 4096 then Some(ops[|ops| - 1])
    else LastOn(ops[..|ops| - 1], va)
  }

  /** The last operation on a page decides its entry: a mapping stores the frame of its
      physical address, an unmapping nothing. */
  lemma {:induction false} LastDecides(s: AddressSpace, ops: seq<Op>, va: Word)
    ensures var after, p, last := FlatRun(s.pages, ops), va / 4096, LastOn(ops, va);
            && (last.None? ==> (p in after <==> p in s.pages) && (p in after ==> after[p] == s.pages[p]))
            && (last.Some? && last.value.Map? ==> p in after && after[p] - after[p] % 4096 == last.value.pa - last.value.pa % 4096)
            && (last.Some? && last.value.Unmap? ==> p !in after)
  {
    if ops != [] {
      LastDecides(s, ops[..|ops| - 1], va);
      match ops[|ops| - 1]
      case Map(_, pa, flags) => SameFrame(MappedEntry(pa, flags), pa);
      case Unmap(_) =>
    }
  }

  lemma SameFrame(e: Word, pa: Word)
    requires e / 4096 == pa / 4096
    ensures e - e % 4096 == pa - pa % 4096
  {
  }

  /** The physical address that a run from boot gives an address: that of the last mapping
      with the offset in the page, 0 after an unmapping, and before any operation the address
      itself in the first 8 MB. */
  ghost function Expected(ops: seq<Op>, va: Word): (pa: nat) {
    match LastOn(ops, va)
    case Some(Map(_, pa, _)) => pa - pa % 4096 + va % 4096
    case Some(Unmap(_)) => 0
    case None => if va < 0x80_0000 then va else 0
  }

  lemma ExpectedIs(ops: seq<Op>, va: Word)
    ensures var after, p := FlatRun(Identity(2048).pages, ops), va / 4096;
            Expected(ops, va) == if p in after then after[p] - after[p] % 4096 + va % 4096 else 0
  {
    LastDecides(Identity(2048), ops, va);
    if va < 0x80_0000 {
      IdentityEntry(va);
    }
  }

  lemma IdentityEntry(va: Word)
    requires va < 0x80_0000
    ensures var e := MakeEntry(va / 4096, 3); e - e % 4096 + va % 4096 == va
  {
  }

  // ----- the state after boot

  /** Pages below `n` mapped to themselves, writable, with tables taken in order
      from frame 1025 on. */
  ghost function Identity(n: nat): (s: AddressSpace)
    requires n <= 2048
  {
    AddressSpace(map p: nat | p < n :: MakeEntry(p, 3), IdentityTables(n), FramesFrom(IdentityNext(n)), IdentityNext(n))
  }

  ghost function IdentityTables(n: nat): (tables: map<nat, nat>) {
    if n == 0 then map[] else if n <= ENTRIES then map[0 := 1025] else map[0 := 1025, 1 := 1026]
  }

  ghost function IdentityNext(n: nat): (next: nat) {
    if n == 0 then 1025 else if n <= ENTRIES then 1026 else 1027
  }

  predicate AtLeast(n: nat, f: nat) { n <= f }

  ghost function FramesFrom(n: nat): (free: set<nat>) {
    set f: nat | f < MAX_FRAMES && AtLeast(n, f)
  }

  lemma IdentityFirst(n: nat)
    requires n == 0 || n == ENTRIES
    ensures NextFit(Identity(n).free, Identity(n).next) == Some(IdentityNext(n))
    ensures Identity(n).free - {IdentityNext(n)} == FramesFrom(IdentityNext(n + 1))
  {
    assert Probe(IdentityNext(n), 0) == IdentityNext(n);
  }

  lemma IdentityStep(n: nat)
    requires n < 2048
    ensures MapStep(Identity(n), n * PAGE_SIZE, n * PAGE_SIZE, 3) == Identity(n + 1)
  {
    assert PageOf(n * PAGE_SIZE) == n && MappedEntry(n * PAGE_SIZE, 3) == MakeEntry(n, 3);
    assert Identity(n).pages[n := MakeEntry(n, 3)] == Identity(n + 1).pages;
    if n == 0 || n == ENTRIES {
      IdentityFirst(n);
      assert IdentityTables(n)[n / ENTRIES := IdentityNext(n)] == IdentityTables(n + 1);
    } else {
      assert n / ENTRIES in IdentityTables(n) && IdentityTables(n) == IdentityTables(n + 1);
    }
  }

  lemma FramesFromSize(n: nat)
    requires n <= MAX_FRAMES
    ensures |FramesFrom(n)| == MAX_FRAMES - n
    decreases MAX_FRAMES - n
  {
    if n < MAX_FRAMES {
      FramesFromSize(n + 1);
      assert FramesFrom(n) == FramesFrom(n + 1) + {n};
    }
  }

  /** After boot there is room for every table. */
  lemma BootIsRoomy()
    ensures Sane(Identity(2048)) && Roomy(Identity(2048))
  {
    FramesFromSize(1027);
  }

  // ----- which runs keep the paging structure intact

  /** No unmapping of the run gives back a frame in `reserved` or a table of this
      address space. */
  ghost predicate Safe(s: AddressSpace, ops: seq<Op>, reserved: set<nat>) {
    forall k :: 0 <= k < |ops| && ops[k].Unmap? ==> SafeStep(Run(s, ops[..k]), ops[k].va, reserved)
  }

  ghost predicate SafeStep(s: AddressSpace, va: Word, reserved: set<nat>) {
    PageOf(va) in s.pages ==>
      FrameOf(s.pages[PageOf(va)]) !in reserved && FrameOf(s.pages[PageOf(va)]) !in s.tables.Values
  }
}
