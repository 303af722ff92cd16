/** What it means for a page directory to be a deep copy of another, and how the
    copy grows table by table and page by page. */
module Cloning {
  import opened Options
  import opened Words
  import opened Frames
  import opened Paging

  ghost predicate SameContents(m: Memory, f: nat, m': Memory, f': nat)
    requires f < PHYS_FRAMES && f' < PHYS_FRAMES
  {
    forall k: nat :: k < ENTRIES ==> At(m', f', k) == At(m, f, k)
  }

  /** Entry `e` copies `e0`: same flag bits, and a frame that was free when the copy
      began and now holds what the source frame held then.  A source frame that
      was itself free carries no promise. */
  ghost predicate CopiedEntry(m0: Memory, free0: set<nat>, m: Memory, e0: Word, e: Word) {
    && Present(e) && FlagsOf(e) == FlagsOf(e0) && FrameOf(e) in free0
    && (FrameOf(e0) !in free0 ==> SameContents(m0, FrameOf(e0), m, FrameOf(e)))
  }

  // ----- one page table

  /** Of the first `n` entries of table `nt`, the first `c` copy table `st`; the rest are empty. */
  ghost predicate TableCopied(m0: Memory, free0: set<nat>, m: Memory, st: nat, nt: nat, n: nat, c: nat)
    requires st < PHYS_FRAMES && nt < PHYS_FRAMES && n <= ENTRIES
  {
    forall q: nat :: q < n ==>
      if q < c && Present(At(m0, st, q)) then CopiedEntry(m0, free0, m, At(m0, st, q), At(m, nt, q))
      else At(m, nt, q) == 0
  }

  /** The mapped frames of the first `n` entries were taken from `pool`, all different. */
  ghost predicate TableFresh(m: Memory, nt: nat, n: nat, pool: set<nat>, free: set<nat>)
    requires nt < PHYS_FRAMES && n <= ENTRIES
  {
    && (forall q: nat :: q < n && Present(At(m, nt, q)) ==> FrameOf(At(m, nt, q)) in pool - free)
    && (forall q: nat, r: nat :: q < r < n && Present(At(m, nt, q)) && Present(At(m, nt, r)) ==>
          FrameOf(At(m, nt, q)) != FrameOf(At(m, nt, r)))
  }

  /** Present entries among the first `n` of a table. */
  ghost function PagesIn(m: Memory, t: nat, n: nat): (count: nat)
    requires t < PHYS_FRAMES && n <= ENTRIES
  {
    if n == 0 then 0 else PagesIn(m, t, n - 1) + if Present(At(m, t, n - 1)) then 1 else 0
  }

  /** Memory after frame `f` received the contents of frame `g`, and entry `j` of
      table `nt` the word `v`. */
  ghost predicate PageCopied(m: Memory, m': Memory, f: nat, g: nat, nt: nat, j: nat, v: Word)
    requires g < PHYS_FRAMES
  {
    forall h: nat, k: nat :: h < PHYS_FRAMES && k < ENTRIES ==>
      At(m', h, k) == if h == nt && k == j then v else if h == f then At(m, g, k) else At(m, h, k)
  }

  lemma CopyThenStore(m: Memory, m': Memory, m'': Memory, f: nat, g: nat, nt: nat, j: nat, v: Word)
    requires g < PHYS_FRAMES
    requires WordsCopied(m, m', f, g, ENTRIES) && WordChanged(m', m'', nt, j, v)
    ensures PageCopied(m, m'', f, g, nt, j, v)
  {
  }

  /** Entries below `j` of the new table are done, starting from memory `mT` with the
      frames of `pool` free: the first `c` are copied, and if `c` fell behind, it is
      because the frames ran out. */
  ghost predicate TableState(m0: Memory, free0: set<nat>, mT: Memory, pool: set<nat>, m: Memory, free: set<nat>,
                             st: nat, nt: nat, j: nat, c: nat)
    requires st < PHYS_FRAMES && nt < PHYS_FRAMES && j <= ENTRIES
  {
    && c <= j && free <= pool <= free0 && nt in free0 && nt !in pool
    && SameOutside(m0, m, free0) && SameOutside(mT, m, pool + {nt})
    && TableCopied(m0, free0, m, st, nt, j, c)
    && TableFresh(m, nt, j, pool, free)
    && (c == j ==> |pool| == |free| + PagesIn(m0, st, j))
    && (c < j ==> free == {} && |pool| < PagesIn(m0, st, j))
  }

  lemma CopyStep(m0: Memory, free0: set<nat>, mT: Memory, pool: set<nat>, m: Memory, free: set<nat>, m': Memory,
                 st: nat, nt: nat, j: nat, c: nat, f: nat)
    requires st < PHYS_FRAMES && nt < PHYS_FRAMES && j < ENTRIES && f in free && f < PHYS_FRAMES
    requires TableState(m0, free0, mT, pool, m, free, st, nt, j, c)
    requires Present(At(m0, st, j))
    requires PageCopied(m, m', f, FrameOf(At(m0, st, j)), nt, j, MakeEntry(f, FlagsOf(At(m0, st, j))))
    ensures TableState(m0, free0, mT, pool, m', free - {f}, st, nt, j + 1, j + 1)
  {
    var e0 := At(m0, st, j);
    forall q: nat | q < j
      ensures At(m', nt, q) == At(m, nt, q)
      ensures Present(At(m0, st, q)) ==> CopiedEntry(m0, free0, m', At(m0, st, q), At(m', nt, q))
    {
      if Present(At(m0, st, q)) {
        var g := FrameOf(At(m, nt, q));
        assert g in pool - free && g != f && g != nt;
        assert SameContents(m, g, m', g);
      }
    }
    if FrameOf(e0) !in free0 {
      assert SameContents(m0, FrameOf(e0), m, FrameOf(e0));
      assert SameContents(m, FrameOf(e0), m', f);
    }
    assert |free - {f}| == |free| - 1;
  }

  lemma SkipStep(m0: Memory, free0: set<nat>, mT: Memory, pool: set<nat>, m: Memory, free: set<nat>, m': Memory,
                 st: nat, nt: nat, j: nat, c: nat, c': nat)
    requires st < PHYS_FRAMES && nt < PHYS_FRAMES && j < ENTRIES
    requires TableState(m0, free0, mT, pool, m, free, st, nt, j, c)
    requires if Present(At(m0, st, j)) then free == {} && c' == c else c' == if c == j then j + 1 else c
    requires WordChanged(m, m', nt, j, 0)
    ensures TableState(m0, free0, mT, pool, m', free, st, nt, j + 1, c')
  {
    forall q: nat | q < j
      ensures At(m', nt, q) == At(m, nt, q)
      ensures q < c && Present(At(m0, st, q)) ==> CopiedEntry(m0, free0, m', At(m0, st, q), At(m', nt, q))
    {
      if q < c && Present(At(m0, st, q)) {
        var g := FrameOf(At(m, nt, q));
        assert g in pool - free && g != nt;
        assert SameContents(m, g, m', g);
      }
    }
  }

  // ----- the whole user half

  ghost predicate UserCopied(m0: Memory, free0: set<nat>, m: Memory, src: nat, nd: nat, n: nat, c: nat)
    requires src < PHYS_FRAMES && nd < PHYS_FRAMES && n <= PAGES
  {
    forall p: nat :: USER_PAGE <= p < n ==>
      if p < c && Present(Entry(m0, src, p)) then CopiedEntry(m0, free0, m, Entry(m0, src, p), Entry(m, nd, p))
      else Entry(m, nd, p) == 0
  }

  /** The mapped frames of the user pages below `n` are in use, hold no paging
      structure and are all different. */
  ghost predicate UserFresh(m: Memory, dirs: set<nat>, nd: nat, n: nat, free: set<nat>)
    requires nd < PHYS_FRAMES && n <= PAGES && forall d :: d in dirs ==> d < PHYS_FRAMES
  {
    && (forall p: nat :: USER_PAGE <= p < n && Present(Entry(m, nd, p)) ==>
          FrameOf(Entry(m, nd, p)) !in free && !Structural(m, dirs, FrameOf(Entry(m, nd, p))))
    && (forall p: nat, q: nat :: USER_PAGE <= p < q < n && Present(Entry(m, nd, p)) && Present(Entry(m, nd, q)) ==>
          FrameOf(Entry(m, nd, p)) != FrameOf(Entry(m, nd, q)))
  }

  /** Frames needed to copy the user tables below directory index `i` with all their pages. */
  ghost function Needed(m: Memory, src: nat, i: nat): (count: nat)
    requires src < PHYS_FRAMES && USER_INDEX <= i <= ENTRIES
  {
    if i == USER_INDEX then 0
    else Needed(m, src, i - 1) + if HasTable(m, src, i - 1) then 1 + PagesIn(m, TableOf(m, src, i - 1), ENTRIES) else 0
  }

  /** Filling a free frame as a table and linking it into directory `nd`. */
  ghost predicate TableAttached(m: Memory, mT: Memory, m': Memory, free: set<nat>, nd: nat, i: nat, nt: nat, e: Word)
  {
    && nt in free && nt < MAX_FRAMES && nd < PHYS_FRAMES && i < ENTRIES
    && SameOutside(m, mT, free)
    && FrameOf(e) == nt && Present(e)
    && WordChanged(mT, m', nd, i, e)
    && forall q: nat :: q < ENTRIES ==> At(mT, nt, q) == 0 || Present(At(mT, nt, q))
  }

  lemma AttachTables(m: Memory, mT: Memory, m': Memory, dirs: set<nat>, free: set<nat>, nd: nat, i: nat, nt: nat, e: Word)
    requires WellFormed(m, dirs, free) && nd in dirs && i < ENTRIES && !HasTable(m, nd, i)
    requires TableAttached(m, mT, m', free, nd, i, nt, e)
    ensures forall d, k: nat {:trigger HasTable(m', d, k)} {:trigger TableOf(m', d, k)} :: d in dirs && k < ENTRIES ==>
              if d == nd && k == i then HasTable(m', d, k) && TableOf(m', d, k) == nt
              else HasTable(m', d, k) == HasTable(m, d, k) && TableOf(m', d, k) == TableOf(m, d, k)
    ensures forall g: nat, j: nat :: g < PHYS_FRAMES && g !in free && g !in dirs && j < ENTRIES ==> At(m', g, j) == At(m, g, j)
  {
  }

  lemma AttachWellFormed(m: Memory, mT: Memory, m': Memory, dirs: set<nat>, free: set<nat>, free': set<nat>,
                         nd: nat, i: nat, nt: nat, e: Word)
    requires WellFormed(m, dirs, free) && nd in dirs && i < ENTRIES && !HasTable(m, nd, i)
    requires TableAttached(m, mT, m', free, nd, i, nt, e)
    requires free' <= free - {nt}
    ensures WellFormed(m', dirs, free')
  {
    AttachTables(m, mT, m', dirs, free, nd, i, nt, e);
    forall d, k: nat, j: nat | d in dirs && k < ENTRIES && j < ENTRIES && HasTable(m', d, k)
      ensures At(m', TableOf(m', d, k), j) == 0 || Present(At(m', TableOf(m', d, k), j))
    {
    }
  }

  lemma AttachEntries(m: Memory, mT: Memory, m': Memory, dirs: set<nat>, free: set<nat>, nd: nat, i: nat, nt: nat, e: Word)
    requires WellFormed(m, dirs, free) && nd in dirs && i < ENTRIES && !HasTable(m, nd, i)
    requires TableAttached(m, mT, m', free, nd, i, nt, e)
    ensures forall p: nat :: p < PAGES ==>
              Entry(m', nd, p) == if p / ENTRIES == i then At(mT, nt, p % ENTRIES) else Entry(m, nd, p)
    ensures forall f: nat :: Structural(m', dirs, f) ==> f == nt || Structural(m, dirs, f)
  {
    AttachTables(m, mT, m', dirs, free, nd, i, nt, e);
    forall f: nat | Structural(m', dirs, f) && f != nt && f !in dirs
      ensures Structural(m, dirs, f)
    {
      var d, k: nat :| d in dirs && k < ENTRIES && HasTable(m', d, k) && TableOf(m', d, k) == f;
      assert HasTable(m, d, k) && TableOf(m, d, k) == f;
    }
  }

  /** The copy of the user half grows by one source table. */
  lemma ExtendCopied(m0: Memory, free0: set<nat>, m: Memory, mT: Memory, m': Memory, dirs: set<nat>, free: set<nat>, free': set<nat>,
                     src: nat, nd: nat, i: nat, nt: nat, e: Word, ct: nat)
    requires WellFormed(m, dirs, free) && nd in dirs && src < PHYS_FRAMES && USER_INDEX <= i < ENTRIES && !HasTable(m, nd, i)
    requires HasTable(m0, src, i) && free' <= free <= free0 && ct <= ENTRIES
    requires TableAttached(m, mT, m', free, nd, i, nt, e)
    requires UserCopied(m0, free0, m, src, nd, i * ENTRIES, i * ENTRIES) && UserFresh(m, dirs, nd, i * ENTRIES, free)
    requires TableCopied(m0, free0, mT, TableOf(m0, src, i), nt, ENTRIES, ct)
    requires TableFresh(mT, nt, ENTRIES, free - {nt}, free')
    ensures UserCopied(m0, free0, m', src, nd, (i + 1) * ENTRIES, i * ENTRIES + ct)
  {
    AttachEntries(m, mT, m', dirs, free, nd, i, nt, e);
    forall p: nat | USER_PAGE <= p < (i + 1) * ENTRIES
      ensures if p < i * ENTRIES + ct && Present(Entry(m0, src, p))
              then CopiedEntry(m0, free0, m', Entry(m0, src, p), Entry(m', nd, p)) else Entry(m', nd, p) == 0
    {
      if p < i * ENTRIES {
        if Present(Entry(m0, src, p)) {
          KeptEntry(m0, free0, m, mT, m', dirs, free, nd, i, nt, e, Entry(m0, src, p), Entry(m, nd, p));
        }
      } else {
        assert p / ENTRIES == i && Entry(m0, src, p) == At(m0, TableOf(m0, src, i), p % ENTRIES);
        if p % ENTRIES < ct && Present(Entry(m0, src, p)) {
          var g := FrameOf(At(mT, nt, p % ENTRIES));
          assert g in free;
          assert SameContents(mT, g, m', g);
        }
      }
    }
  }

  lemma KeptEntry(m0: Memory, free0: set<nat>, m: Memory, mT: Memory, m': Memory, dirs: set<nat>, free: set<nat>,
                  nd: nat, i: nat, nt: nat, e: Word, e0: Word, e1: Word)
    requires WellFormed(m, dirs, free) && nd in dirs && i < ENTRIES && !HasTable(m, nd, i)
    requires TableAttached(m, mT, m', free, nd, i, nt, e)
    requires CopiedEntry(m0, free0, m, e0, e1) && FrameOf(e1) !in free && FrameOf(e1) !in dirs
    ensures CopiedEntry(m0, free0, m', e0, e1)
  {
    AttachTables(m, mT, m', dirs, free, nd, i, nt, e);
    assert SameContents(m, FrameOf(e1), m', FrameOf(e1));
  }

  lemma ExtendFresh(m: Memory, mT: Memory, m': Memory, dirs: set<nat>, free: set<nat>, free': set<nat>,
                    nd: nat, i: nat, nt: nat, e: Word)
    requires WellFormed(m, dirs, free) && nd in dirs && USER_INDEX <= i < ENTRIES && !HasTable(m, nd, i)
    requires free' <= free
    requires TableAttached(m, mT, m', free, nd, i, nt, e)
    requires UserFresh(m, dirs, nd, i * ENTRIES, free)
    requires TableFresh(mT, nt, ENTRIES, free - {nt}, free')
    ensures UserFresh(m', dirs, nd, (i + 1) * ENTRIES, free')
  {
    AttachEntries(m, mT, m', dirs, free, nd, i, nt, e);
    forall p: nat | USER_PAGE <= p < (i + 1) * ENTRIES && Present(Entry(m', nd, p))
      ensures FrameOf(Entry(m', nd, p)) !in free' && !Structural(m', dirs, FrameOf(Entry(m', nd, p)))
      ensures p < i * ENTRIES <==> FrameOf(Entry(m', nd, p)) !in free
    {
      if p < i * ENTRIES {
        assert Entry(m', nd, p) == Entry(m, nd, p);
      } else {
        assert Entry(m', nd, p) == At(mT, nt, p % ENTRIES);
        StructuralTaken(m, dirs, free, FrameOf(Entry(m', nd, p)));
      }
    }
    forall p: nat, q: nat | USER_PAGE <= p < q < (i + 1) * ENTRIES && Present(Entry(m', nd, p)) && Present(Entry(m', nd, q))
      ensures FrameOf(Entry(m', nd, p)) != FrameOf(Entry(m', nd, q))
    {
      if p >= i * ENTRIES {
        assert p % ENTRIES < q % ENTRIES;
      }
    }
  }

  lemma StructuralTaken(m: Memory, dirs: set<nat>, free: set<nat>, f: nat)
    requires WellFormed(m, dirs, free) && f in free
    ensures !Structural(m, dirs, f)
  {
  }

  /** Memory that only changes in frames that were free leaves the existing
      directories as they were. */
  lemma UntouchedDirectory(m0: Memory, free0: set<nat>, m: Memory, dirs0: set<nat>, d: nat)
    requires WellFormed(m0, dirs0, free0) && SameOutside(m0, m, free0) && d in dirs0
    ensures Flat(m, d) == Flat(m0, d) && Tables(m, d) == Tables(m0, d)
  {
    TablesByEntries(m0, m, d);
    forall p: nat | p < PAGES
      ensures Entry(m, d, p) == Entry(m0, d, p)
    {
      assert HasTable(m0, d, p / ENTRIES) ==> TableOf(m0, d, p / ENTRIES) !in free0;
    }
    FlatByEntries(m0, m, d);
  }

  lemma UntouchedDirectories(m0: Memory, free0: set<nat>, m: Memory, dirs0: set<nat>)
    requires WellFormed(m0, dirs0, free0) && SameOutside(m0, m, free0)
    ensures forall d :: d in dirs0 ==> Flat(m, d) == Flat(m0, d) && Tables(m, d) == Tables(m0, d)
  {
    forall d | d in dirs0
      ensures Flat(m, d) == Flat(m0, d) && Tables(m, d) == Tables(m0, d)
    {
      UntouchedDirectory(m0, free0, m, dirs0, d);
    }
  }

  // ----- the state of a copy in progress

  /** The low half uses the kernel's own tables. */
  ghost predicate KernelTables(m0: Memory, m: Memory, nd: nat, kernel: Option<nat>)
    requires nd < PHYS_FRAMES && (kernel.Some? ==> kernel.value < PHYS_FRAMES)
  {
    forall k: nat :: k < USER_INDEX ==> At(m, nd, k) == if kernel.Some? then At(m0, kernel.value, k) else 0
  }

  /** Entries of the low half are the kernel's. */
  ghost predicate KernelHalf(m0: Memory, m: Memory, nd: nat, kernel: Option<nat>)
    requires nd < PHYS_FRAMES && (kernel.Some? ==> kernel.value < PHYS_FRAMES)
  {
    forall p: nat :: p < USER_PAGE ==> Entry(m, nd, p) == if kernel.Some? then Entry(m0, kernel.value, p) else 0
  }

  /** The user tables below index `i` belong to tables of the source and are entered with
      the flags of those. */
  ghost predicate TableFlags(m0: Memory, m: Memory, src: nat, nd: nat, i: nat)
    requires src < PHYS_FRAMES && nd < PHYS_FRAMES && i <= ENTRIES
  {
    forall k: nat :: USER_INDEX <= k < i && HasTable(m, nd, k) ==>
      HasTable(m0, src, k) && At(m, nd, k) % 4096 == At(m0, src, k) % 4096
  }

  lemma FlagsGrow(m0: Memory, m: Memory, mT: Memory, m': Memory, free: set<nat>, src: nat, nd: nat, i: nat, nt: nat, e: Word)
    requires src < PHYS_FRAMES && nd < PHYS_FRAMES && USER_INDEX <= i < ENTRIES && nt < PHYS_FRAMES
    requires TableFlags(m0, m, src, nd, i) && TableAttached(m, mT, m', free, nd, i, nt, e) && nd !in free
    requires HasTable(m0, src, i) && FlagsOf(e) == FlagsOf(At(m0, src, i))
    ensures TableFlags(m0, m', src, nd, i + 1)
  {
    forall k: nat | USER_INDEX <= k < i
      ensures At(m', nd, k) == At(m, nd, k)
    {
    }
  }

  /** Directory indices below `i` are done: pages below `c` are copied, and if `c`
      fell behind, it is because the frames ran out. */
  ghost predicate CopyState(m0: Memory, free0: set<nat>, m: Memory, free: set<nat>, dirs: set<nat>,
                            src: nat, nd: nat, kernel: Option<nat>, i: nat, c: nat)
    requires src < PHYS_FRAMES && USER_INDEX <= i <= ENTRIES && (kernel.Some? ==> kernel.value < PHYS_FRAMES)
  {
    && WellFormed(m, dirs, free) && nd in dirs && free <= free0 && USER_PAGE <= c <= i * ENTRIES
    && SameOutside(m0, m, free0)
    && KernelTables(m0, m, nd, kernel) && KernelHalf(m0, m, nd, kernel)
    && UserCopied(m0, free0, m, src, nd, i * ENTRIES, c)
    && UserFresh(m, dirs, nd, i * ENTRIES, free)
    && TableFlags(m0, m, src, nd, i) && (forall k: nat :: i <= k < ENTRIES ==> !HasTable(m, nd, k))
    && (c == i * ENTRIES ==> |free0| == |free| + 1 + Needed(m0, src, i))
    && (c < i * ENTRIES ==> free == {} && |free0| < 1 + Needed(m0, src, i))
  }

  /** A directory index without a source table, or without a frame for the copy. */
  lemma PassTable(m0: Memory, free0: set<nat>, m: Memory, free: set<nat>, dirs: set<nat>,
                  src: nat, nd: nat, kernel: Option<nat>, i: nat, c: nat, c': nat)
    requires src < PHYS_FRAMES && USER_INDEX <= i < ENTRIES && (kernel.Some? ==> kernel.value < PHYS_FRAMES)
    requires CopyState(m0, free0, m, free, dirs, src, nd, kernel, i, c)
    requires if HasTable(m0, src, i) then free == {} && c' == c
             else c' == if c == i * ENTRIES then (i + 1) * ENTRIES else c
    ensures CopyState(m0, free0, m, free, dirs, src, nd, kernel, i + 1, c')
  {
    forall p: nat | i * ENTRIES <= p < (i + 1) * ENTRIES
      ensures Entry(m, nd, p) == 0
    {
      assert p / ENTRIES == i;
    }
  }

  lemma GrowTable(m0: Memory, free0: set<nat>, m: Memory, mT: Memory, m': Memory, free: set<nat>, free': set<nat>,
                  dirs: set<nat>, src: nat, nd: nat, kernel: Option<nat>, i: nat, c: nat, nt: nat, ct: nat)
    requires src < PHYS_FRAMES && USER_INDEX <= i < ENTRIES && (kernel.Some? ==> kernel.value < PHYS_FRAMES)
    requires CopyState(m0, free0, m, free, dirs, src, nd, kernel, i, c) && nd in free0
    requires HasTable(m0, src, i) && nt in free && nt < MAX_FRAMES
    requires TableState(m0, free0, m, free - {nt}, mT, free', TableOf(m0, src, i), nt, ENTRIES, ct)
    requires WordChanged(mT, m', nd, i, MakeEntry(nt, FlagsOf(At(m0, src, i))))
    ensures CopyState(m0, free0, m', free', dirs, src, nd, kernel, i + 1, i * ENTRIES + ct)
  {
    var e := MakeEntry(nt, FlagsOf(At(m0, src, i)));
    assert free - {nt} + {nt} == free;
    assert TableAttached(m, mT, m', free, nd, i, nt, e);
    AttachWellFormed(m, mT, m', dirs, free, free', nd, i, nt, e);
    AttachTables(m, mT, m', dirs, free, nd, i, nt, e);
    AttachEntries(m, mT, m', dirs, free, nd, i, nt, e);
    ExtendCopied(m0, free0, m, mT, m', dirs, free, free', src, nd, i, nt, e, ct);
    ExtendFresh(m, mT, m', dirs, free, free', nd, i, nt, e);
    FlagsGrow(m0, m, mT, m', free, src, nd, i, nt, e);
    assert |free - {nt}| == |free| - 1;
  }

  lemma StartCopy(m0: Memory, free0: set<nat>, m: Memory, dirs0: set<nat>, src: nat, nd: nat, kernel: Option<nat>)
    requires WellFormed(m0, dirs0, free0) && src in dirs0 && nd in free0 && nd < MAX_FRAMES
    requires kernel.Some? ==> kernel.value in dirs0
    requires DirectoryMade(m0, m, nd, kernel)
    ensures CopyState(m0, free0, m, free0 - {nd}, dirs0 + {nd}, src, nd, kernel, USER_INDEX, USER_PAGE)
  {
    AddDirectoryWellFormed(m0, m, dirs0, free0, nd, kernel);
    AddDirectoryTables(m0, m, dirs0, free0, nd, kernel);
    forall p: nat | p < USER_PAGE
      ensures Entry(m, nd, p) == if kernel.Some? then Entry(m0, kernel.value, p) else 0
    {
      assert p / ENTRIES < USER_INDEX;
      assert kernel.Some? && HasTable(m0, kernel.value, p / ENTRIES) ==> TableOf(m0, kernel.value, p / ENTRIES) !in free0;
    }
    assert |free0 - {nd}| == |free0| - 1;
  }

  /** Every table of the kernel's low half is a table of the directory too. */
  ghost predicate SharesKernel(m: Memory, nd: nat, kernel: Option<nat>)
    requires nd < PHYS_FRAMES && (kernel.Some? ==> kernel.value < PHYS_FRAMES)
  {
    forall k: nat :: k < USER_INDEX ==>
      if kernel.Some? && HasTable(m, kernel.value, k) then Shares(m, kernel.value, nd, k) else !HasTable(m, nd, k)
  }

  lemma KernelIsShared(m0: Memory, free0: set<nat>, m: Memory, dirs0: set<nat>, nd: nat, kernel: Option<nat>)
    requires WellFormed(m0, dirs0, free0) && nd < PHYS_FRAMES && (kernel.Some? ==> kernel.value in dirs0)
    requires SameOutside(m0, m, free0) && KernelTables(m0, m, nd, kernel)
    ensures SharesKernel(m, nd, kernel)
  {
    forall k: nat | k < USER_INDEX && kernel.Some?
      ensures At(m, nd, k) == At(m, kernel.value, k)
    {
      assert At(m, kernel.value, k) == At(m0, kernel.value, k);
    }
  }

  /** A finished copy: the memory is well formed, the frames sufficed exactly when all user
      pages were copied, and the directories there were before are as they were. */
  lemma CopyDone(m0: Memory, free0: set<nat>, m: Memory, free: set<nat>, dirs0: set<nat>, dirs: set<nat>,
                 src: nat, nd: nat, kernel: Option<nat>, c: nat)
    requires WellFormed(m0, dirs0, free0) && src in dirs0 && (kernel.Some? ==> kernel.value in dirs0)
    requires CopyState(m0, free0, m, free, dirs, src, nd, kernel, ENTRIES, c)
    ensures WellFormed(m, dirs, free)
    ensures c == PAGES <==> 1 + Needed(m0, src, ENTRIES) <= |free0|
    ensures forall d :: d in dirs0 ==> Flat(m, d) == Flat(m0, d) && Tables(m, d) == Tables(m0, d)
    ensures SharesKernel(m, nd, kernel)
  {
    KernelIsShared(m0, free0, m, dirs0, nd, kernel);
    hide WellFormed;
    hide KernelTables;
    hide SharesKernel;
    hide Needed;
    hide UserCopied;
    hide UserFresh;
    hide KernelHalf;
    hide SameOutside;
    hide Flat;
    hide Tables;
    UntouchedDirectories(m0, free0, m, dirs0);
  }
}
