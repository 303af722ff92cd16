/** Two-level 32-bit page tables stored in physical memory, as values: how a
    directory is read, what keeps the tables apart, and the flat map of pages
    that one directory stands for. */
module Paging {
  import opened Options
  import opened Words
  import opened Frames

  const PAGE_SIZE: nat := 4096
  const ENTRIES: nat := 1024
  const PHYS_FRAMES: nat := 0x10_0000
  const PAGES: nat := 0x10_0000
  const USER_INDEX: nat := 512
  const USER_PAGE: nat := 0x8_0000

  /** Word `i` of frame `f`. */
  function At(m: Memory, f: nat, i: nat): (w: Word)
    requires f < PHYS_FRAMES && i < ENTRIES
  {
    m[f * ENTRIES + i]
  }

  predicate Present(e: Word) { e % 2 == 1 }

  function FrameOf(e: Word): (f: nat)
    ensures f < PHYS_FRAMES
  {
    e / PAGE_SIZE
  }

  function FlagsOf(e: Word): (flags: nat)
    ensures flags < PAGE_SIZE
  {
    e % PAGE_SIZE
  }

  /** `(frame << 12) | flags` */
  function MakeEntry(f: nat, flags: nat): (e: Word)
    requires f < PHYS_FRAMES && flags < PAGE_SIZE
    ensures FrameOf(e) == f && FlagsOf(e) == flags
    ensures Present(e) <==> flags % 2 == 1
  {
    f * PAGE_SIZE + flags
  }

  /** `flags | PAGE_PRESENT` */
  function WithPresent(flags: nat): (r: nat)
    requires flags < PAGE_SIZE
    ensures r < PAGE_SIZE && r % 2 == 1 && r / 2 == flags / 2
  {
    if flags % 2 == 1 then flags else flags + 1
  }

  predicate HasTable(m: Memory, d: nat, i: nat)
    requires d < PHYS_FRAMES && i < ENTRIES
  {
    Present(At(m, d, i))
  }

  function TableOf(m: Memory, d: nat, i: nat): (t: nat)
    requires d < PHYS_FRAMES && i < ENTRIES
    ensures t < PHYS_FRAMES
  {
    FrameOf(At(m, d, i))
  }

  /** The page-table entry of page `p` in directory `d`; 0 when there is no table. */
  function Entry(m: Memory, d: nat, p: nat): (e: Word)
    requires d < PHYS_FRAMES && p < PAGES
  {
    if HasTable(m, d, p / ENTRIES) then At(m, TableOf(m, d, p / ENTRIES), p % ENTRIES) else 0
  }

  /** The flat map a directory stands for: page number to page-table entry. */
  ghost function Flat(m: Memory, d: nat): (pages: map<nat, Word>)
    requires d < PHYS_FRAMES
  {
    map p: nat | p < PAGES && Present(Entry(m, d, p)) :: Entry(m, d, p)
  }

  /** The directory's table frames by directory index. */
  ghost function Tables(m: Memory, d: nat): (tables: map<nat, nat>)
    requires d < PHYS_FRAMES
  {
    map i: nat | i < ENTRIES && HasTable(m, d, i) :: TableOf(m, d, i)
  }

  /** Directories `d` and `d'` use one and the same table at index `i`. */
  predicate Shares(m: Memory, d: nat, d': nat, i: nat)
    requires d < PHYS_FRAMES && d' < PHYS_FRAMES && i < ENTRIES
  {
    HasTable(m, d, i) && HasTable(m, d', i) && TableOf(m, d, i) == TableOf(m, d', i)
  }

  /** Entry `e` stored at page `p`: a present entry maps the page, 0 removes it. */
  ghost function SetPage(pages: map<nat, Word>, p: nat, e: Word): (r: map<nat, Word>) {
    if Present(e) then pages[p := e] else pages - {p}
  }

  // ----- the separation invariant

  ghost predicate DirsOwned(dirs: set<nat>, free: set<nat>) {
    0 !in free && forall d :: d in dirs ==> 0 < d < MAX_FRAMES && d !in free
  }

  ghost predicate TablesOwned(m: Memory, dirs: set<nat>, free: set<nat>)
    requires DirsOwned(dirs, free)
  {
    forall d, i: nat :: d in dirs && i < ENTRIES && HasTable(m, d, i) ==>
      0 < TableOf(m, d, i) < MAX_FRAMES && TableOf(m, d, i) !in free && TableOf(m, d, i) !in dirs
  }

  /** A table sits at one directory index, and only low-half tables are shared. */
  ghost predicate TablesSeparate(m: Memory, dirs: set<nat>, free: set<nat>)
    requires DirsOwned(dirs, free)
  {
    forall d, i: nat, d', i': nat ::
      (d in dirs && d' in dirs && i < ENTRIES && i' < ENTRIES && HasTable(m, d, i) && HasTable(m, d', i') &&
       TableOf(m, d, i) == TableOf(m, d', i')) ==> i == i' && (d == d' || i < USER_INDEX)
  }

  /** Every table entry is either 0 or present. */
  ghost predicate EntriesCanonical(m: Memory, dirs: set<nat>, free: set<nat>)
    requires DirsOwned(dirs, free)
  {
    forall d, i: nat, j: nat :: d in dirs && i < ENTRIES && j < ENTRIES && HasTable(m, d, i) ==>
      At(m, TableOf(m, d, i), j) == 0 || Present(At(m, TableOf(m, d, i), j))
  }

  ghost predicate WellFormed(m: Memory, dirs: set<nat>, free: set<nat>) {
    && DirsOwned(dirs, free)
    && TablesOwned(m, dirs, free)
    && TablesSeparate(m, dirs, free)
    && EntriesCanonical(m, dirs, free)
  }

  /** The frame holds a directory or one of the tables of a directory. */
  ghost predicate Structural(m: Memory, dirs: set<nat>, f: nat)
    requires forall d :: d in dirs ==> d < PHYS_FRAMES
  {
    f in dirs || exists d, i: nat :: d in dirs && i < ENTRIES && HasTable(m, d, i) && TableOf(m, d, i) == f
  }

  // ----- changes to memory, word by word

  ghost predicate WordChanged(m: Memory, m': Memory, f: nat, i: nat, v: Word) {
    forall g: nat, j: nat :: g < PHYS_FRAMES && j < ENTRIES ==>
      At(m', g, j) == if g == f && j == i then v else At(m, g, j)
  }

  lemma StoreChangesOneWord(m: Memory, f: nat, i: nat, v: Word)
    requires f < PHYS_FRAMES && i < ENTRIES
    ensures WordChanged(m, m[f * ENTRIES + i := v], f, i, v)
  {
  }

  ghost predicate WordsCopied(m: Memory, m': Memory, f: nat, g: nat, n: nat)
    requires g < PHYS_FRAMES && n <= ENTRIES
  {
    forall h: nat, j: nat :: h < PHYS_FRAMES && j < ENTRIES ==>
      At(m', h, j) == if h == f && j < n then At(m, g, j) else At(m, h, j)
  }

  /** Frames outside `frames` keep their contents. */
  ghost predicate SameOutside(m: Memory, m': Memory, frames: set<nat>) {
    forall g: nat, j: nat :: g < PHYS_FRAMES && j < ENTRIES && g !in frames ==> At(m', g, j) == At(m, g, j)
  }

  lemma FlatByEntries(m: Memory, m': Memory, d: nat)
    requires d < PHYS_FRAMES
    requires forall p: nat :: p < PAGES ==> Entry(m', d, p) == Entry(m, d, p)
    ensures Flat(m', d) == Flat(m, d)
  {
  }

  lemma FlatByOneEntry(m: Memory, m': Memory, d: nat, p: nat, e: Word)
    requires d < PHYS_FRAMES && p < PAGES
    requires forall q: nat :: q < PAGES ==> Entry(m', d, q) == if q == p then e else Entry(m, d, q)
    ensures Flat(m', d) == SetPage(Flat(m, d), p, e)
  {
  }

  lemma TablesByEntries(m: Memory, m': Memory, d: nat)
    requires d < PHYS_FRAMES
    requires forall i: nat :: i < ENTRIES ==> At(m', d, i) == At(m, d, i)
    ensures Tables(m', d) == Tables(m, d)
  {
    assert forall i: nat :: i < ENTRIES ==> HasTable(m', d, i) == HasTable(m, d, i) && TableOf(m', d, i) == TableOf(m, d, i);
  }

  /** Memory after an empty table in frame `t` is linked at index `i` of directory `d`. */
  ghost predicate TableLinked(m: Memory, m': Memory, d: nat, i: nat, t: nat)
    requires t < PHYS_FRAMES
  {
    forall g: nat, j: nat :: g < PHYS_FRAMES && j < ENTRIES ==>
      At(m', g, j) == if g == t then 0 else if g == d && j == i then MakeEntry(t, 3) else At(m, g, j)
  }

  ghost predicate FrameCleared(m: Memory, m': Memory, t: nat) {
    forall g: nat, j: nat :: g < PHYS_FRAMES && j < ENTRIES ==> At(m', g, j) == if g == t then 0 else At(m, g, j)
  }

  lemma ClearThenStore(m: Memory, m': Memory, m'': Memory, d: nat, i: nat, t: nat)
    requires t < PHYS_FRAMES && t != d
    requires FrameCleared(m, m', t) && WordChanged(m', m'', d, i, MakeEntry(t, 3))
    ensures TableLinked(m, m'', d, i, t)
  {
  }

  lemma LinkTableDirs(m: Memory, m': Memory, dirs: set<nat>, free: set<nat>, d: nat, i: nat, t: nat)
    requires WellFormed(m, dirs, free)
    requires d in dirs && i < ENTRIES && !HasTable(m, d, i)
    requires t in free && t < MAX_FRAMES && TableLinked(m, m', d, i, t)
    ensures forall d', i': nat {:trigger HasTable(m', d', i')} {:trigger TableOf(m', d', i')} ::
              d' in dirs && i' < ENTRIES ==>
              (if d' == d && i' == i then HasTable(m', d', i') && TableOf(m', d', i') == t
               else HasTable(m', d', i') == HasTable(m, d', i') && TableOf(m', d', i') == TableOf(m, d', i'))
  {
  }

  lemma LinkTableWellFormed(m: Memory, m': Memory, dirs: set<nat>, free: set<nat>, d: nat, i: nat, t: nat)
    requires WellFormed(m, dirs, free)
    requires d in dirs && i < ENTRIES && !HasTable(m, d, i)
    requires t in free && t < MAX_FRAMES && TableLinked(m, m', d, i, t)
    ensures WellFormed(m', dirs, free - {t})
  {
    LinkTableDirs(m, m', dirs, free, d, i, t);
    forall d', i': nat, j: nat | d' in dirs && i' < ENTRIES && j < ENTRIES && HasTable(m', d', i')
      ensures At(m', TableOf(m', d', i'), j) == 0 || Present(At(m', TableOf(m', d', i'), j))
    {
    }
  }

  /** Linking an empty table taken from the free frames changes no translation. */
  lemma LinkTable(m: Memory, m': Memory, dirs: set<nat>, free: set<nat>, d: nat, i: nat, t: nat)
    requires WellFormed(m, dirs, free)
    requires d in dirs && i < ENTRIES && !HasTable(m, d, i)
    requires t in free && t < MAX_FRAMES && TableLinked(m, m', d, i, t)
    ensures WellFormed(m', dirs, free - {t})
    ensures Tables(m', d) == Tables(m, d)[i := t]
    ensures forall d' :: d' in dirs ==> Flat(m', d') == Flat(m, d')
    ensures forall d' :: d' in dirs && d' != d ==> Tables(m', d') == Tables(m, d')
  {
    LinkTableWellFormed(m, m', dirs, free, d, i, t);
    LinkTableDirs(m, m', dirs, free, d, i, t);
    forall d' | d' in dirs
      ensures Flat(m', d') == Flat(m, d')
    {
      forall p: nat | p < PAGES
        ensures Entry(m', d', p) == Entry(m, d', p)
      {
        assert HasTable(m, d', p / ENTRIES) ==> TableOf(m, d', p / ENTRIES) !in free;
      }
      FlatByEntries(m, m', d');
    }
  }

  lemma WriteEntryDirs(m: Memory, m': Memory, dirs: set<nat>, free: set<nat>, d: nat, p: nat, e: Word)
    requires WellFormed(m, dirs, free)
    requires d in dirs && p < PAGES && HasTable(m, d, p / ENTRIES)
    requires WordChanged(m, m', TableOf(m, d, p / ENTRIES), p % ENTRIES, e)
    ensures forall d', i': nat {:trigger At(m', d', i')} :: d' in dirs && i' < ENTRIES ==> At(m', d', i') == At(m, d', i')
    ensures forall d', i': nat {:trigger HasTable(m', d', i')} {:trigger TableOf(m', d', i')} ::
              d' in dirs && i' < ENTRIES ==>
              HasTable(m', d', i') == HasTable(m, d', i') && TableOf(m', d', i') == TableOf(m, d', i')
  {
    assert TableOf(m, d, p / ENTRIES) !in dirs;
  }

  lemma WriteEntryWellFormed(m: Memory, m': Memory, dirs: set<nat>, free: set<nat>, d: nat, p: nat, e: Word)
    requires WellFormed(m, dirs, free)
    requires d in dirs && p < PAGES && HasTable(m, d, p / ENTRIES)
    requires e == 0 || Present(e)
    requires WordChanged(m, m', TableOf(m, d, p / ENTRIES), p % ENTRIES, e)
    ensures WellFormed(m', dirs, free)
  {
    WriteEntryDirs(m, m', dirs, free, d, p, e);
    forall d', i': nat, j: nat | d' in dirs && i' < ENTRIES && j < ENTRIES && HasTable(m', d', i')
      ensures At(m', TableOf(m', d', i'), j) == 0 || Present(At(m', TableOf(m', d', i'), j))
    {
    }
  }

  /** Writing one entry of one table changes that page in the directories that
      share the table, and nothing else. */
  lemma WriteEntry(m: Memory, m': Memory, dirs: set<nat>, free: set<nat>, d: nat, p: nat, e: Word)
    requires WellFormed(m, dirs, free)
    requires d in dirs && p < PAGES && HasTable(m, d, p / ENTRIES)
    requires e == 0 || Present(e)
    requires WordChanged(m, m', TableOf(m, d, p / ENTRIES), p % ENTRIES, e)
    ensures WellFormed(m', dirs, free)
    ensures forall d' :: d' in dirs ==> Tables(m', d') == Tables(m, d')
    ensures forall d' :: d' in dirs ==>
              Flat(m', d') == if Shares(m, d, d', p / ENTRIES) then SetPage(Flat(m, d'), p, e) else Flat(m, d')
  {
    WriteEntryWellFormed(m, m', dirs, free, d, p, e);
    WriteEntryDirs(m, m', dirs, free, d, p, e);
    forall d' | d' in dirs
      ensures Tables(m', d') == Tables(m, d')
      ensures Flat(m', d') == if Shares(m, d, d', p / ENTRIES) then SetPage(Flat(m, d'), p, e) else Flat(m, d')
    {
      TablesByEntries(m, m', d');
      forall q: nat | q < PAGES
        ensures Entry(m', d', q) == if q == p && Shares(m, d, d', p / ENTRIES) then e else Entry(m, d', q)
      {
      }
      if Shares(m, d, d', p / ENTRIES) {
        FlatByOneEntry(m, m', d', p, e);
      } else {
        FlatByEntries(m, m', d');
      }
    }
  }

  // ----- mapping and unmapping one page

  /** The other directories see entry `e` at page `p` exactly when they share the
      table that directory `d` used for it. */
  ghost predicate OthersSee(m: Memory, m': Memory, dirs: set<nat>, d: nat, p: nat, e: Word)
    requires p < PAGES && d in dirs && forall d' :: d' in dirs ==> d' < PHYS_FRAMES
  {
    forall d' :: d' in dirs && d' != d ==>
      Tables(m', d') == Tables(m, d') &&
      Flat(m', d') == if Shares(m, d, d', p / ENTRIES) then SetPage(Flat(m, d'), p, e) else Flat(m, d')
  }

  /** No frame outside the paging structure changes. */
  ghost predicate ContentsKept(m: Memory, m': Memory, dirs: set<nat>)
    requires forall d :: d in dirs ==> d < PHYS_FRAMES
  {
    forall g: nat, j: nat :: g < PHYS_FRAMES && j < ENTRIES && !Structural(m', dirs, g) ==> At(m', g, j) == At(m, g, j)
  }

  lemma WriteEffect(m: Memory, m': Memory, dirs: set<nat>, free: set<nat>, d: nat, p: nat, e: Word)
    requires WellFormed(m, dirs, free)
    requires d in dirs && p < PAGES && HasTable(m, d, p / ENTRIES)
    requires e == 0 || Present(e)
    requires WordChanged(m, m', TableOf(m, d, p / ENTRIES), p % ENTRIES, e)
    ensures WellFormed(m', dirs, free)
    ensures Tables(m', d) == Tables(m, d) && Flat(m', d) == SetPage(Flat(m, d), p, e)
    ensures OthersSee(m, m', dirs, d, p, e)
    ensures ContentsKept(m, m', dirs)
    ensures forall f: nat :: Structural(m', dirs, f) <==> Structural(m, dirs, f)
  {
    WriteEntry(m, m', dirs, free, d, p, e);
    WriteEntryDirs(m, m', dirs, free, d, p, e);
    assert TableOf(m', d, p / ENTRIES) == TableOf(m, d, p / ENTRIES) && HasTable(m', d, p / ENTRIES);
    assert Structural(m', dirs, TableOf(m, d, p / ENTRIES));
    forall f: nat
      ensures Structural(m', dirs, f) <==> Structural(m, dirs, f)
    {
      if d', i: nat :| d' in dirs && i < ENTRIES && HasTable(m, d', i) && TableOf(m, d', i) == f {
        assert HasTable(m', d', i) && TableOf(m', d', i) == f;
      }
    }
  }

  lemma LinkEffect(m: Memory, m': Memory, dirs: set<nat>, free: set<nat>, d: nat, i: nat, t: nat)
    requires WellFormed(m, dirs, free)
    requires d in dirs && i < ENTRIES && !HasTable(m, d, i)
    requires t in free && t < MAX_FRAMES && TableLinked(m, m', d, i, t)
    ensures WellFormed(m', dirs, free - {t})
    ensures HasTable(m', d, i) && TableOf(m', d, i) == t
    ensures Tables(m', d) == Tables(m, d)[i := t] && Flat(m', d) == Flat(m, d)
    ensures forall d' :: d' in dirs && d' != d ==>
              Tables(m', d') == Tables(m, d') && Flat(m', d') == Flat(m, d') && !Shares(m', d, d', i)
    ensures ContentsKept(m, m', dirs)
  {
    LinkTable(m, m', dirs, free, d, i, t);
    LinkTableDirs(m, m', dirs, free, d, i, t);
    forall d' | d' in dirs && d' != d
      ensures !Shares(m', d, d', i)
    {
      assert HasTable(m', d', i) ==> TableOf(m', d', i) == TableOf(m, d', i) && TableOf(m, d', i) !in free;
    }
    assert HasTable(m', d, i) && TableOf(m', d, i) == t;
    assert Structural(m', dirs, t);
    assert Structural(m', dirs, d);
  }

  /** Linking a table and then writing its entry, seen as one change. */
  lemma LinkThenWrite(m: Memory, m': Memory, m'': Memory, dirs: set<nat>, free: set<nat>, d: nat, p: nat, t: nat, e: Word)
    requires WellFormed(m, dirs, free)
    requires d in dirs && p < PAGES && !HasTable(m, d, p / ENTRIES)
    requires t in free && t < MAX_FRAMES && TableLinked(m, m', d, p / ENTRIES, t)
    requires Present(e) && WordChanged(m', m'', t, p % ENTRIES, e)
    ensures WellFormed(m'', dirs, free - {t})
    ensures Tables(m'', d) == Tables(m, d)[p / ENTRIES := t] && Flat(m'', d) == Flat(m, d)[p := e]
    ensures OthersSee(m, m'', dirs, d, p, e)
    ensures ContentsKept(m, m'', dirs)
  {
    LinkEffect(m, m', dirs, free, d, p / ENTRIES, t);
    WriteEffect(m', m'', dirs, free - {t}, d, p, e);
  }

  // ----- a new directory

  /** Memory after frame `f` becomes a directory holding the low half of `kernel`. */
  ghost predicate DirectoryMade(m: Memory, m': Memory, f: nat, kernel: Option<nat>)
    requires kernel.Some? ==> kernel.value < PHYS_FRAMES
  {
    forall g: nat, j: nat :: g < PHYS_FRAMES && j < ENTRIES ==>
      At(m', g, j) == if g != f then At(m, g, j)
                      else if j < USER_INDEX && kernel.Some? then At(m, kernel.value, j) else 0
  }

  ghost function LowHalf(pages: map<nat, Word>): (r: map<nat, Word>) {
    map p | p in pages && p < USER_PAGE :: pages[p]
  }

  lemma AddDirectoryTables(m: Memory, m': Memory, dirs: set<nat>, free: set<nat>, f: nat, kernel: Option<nat>)
    requires WellFormed(m, dirs, free)
    requires f in free && f < MAX_FRAMES && (kernel.Some? ==> kernel.value in dirs)
    requires DirectoryMade(m, m', f, kernel)
    ensures forall d, i: nat {:trigger HasTable(m', d, i)} {:trigger TableOf(m', d, i)} ::
              d in dirs && i < ENTRIES ==> HasTable(m', d, i) == HasTable(m, d, i) && TableOf(m', d, i) == TableOf(m, d, i)
    ensures forall i: nat {:trigger HasTable(m', f, i)} {:trigger TableOf(m', f, i)} :: i < ENTRIES ==>
              if i < USER_INDEX && kernel.Some?
              then HasTable(m', f, i) == HasTable(m, kernel.value, i) && TableOf(m', f, i) == TableOf(m, kernel.value, i)
              else !HasTable(m', f, i)
  {
    assert f !in dirs;
  }

  lemma AddDirectoryWellFormed(m: Memory, m': Memory, dirs: set<nat>, free: set<nat>, f: nat, kernel: Option<nat>)
    requires WellFormed(m, dirs, free)
    requires f in free && f < MAX_FRAMES && (kernel.Some? ==> kernel.value in dirs)
    requires DirectoryMade(m, m', f, kernel)
    ensures WellFormed(m', dirs + {f}, free - {f})
  {
    AddDirectoryTables(m, m', dirs, free, f, kernel);
    forall d, i: nat, j: nat | d in dirs + {f} && i < ENTRIES && j < ENTRIES && HasTable(m', d, i)
      ensures 0 < TableOf(m', d, i) < MAX_FRAMES && TableOf(m', d, i) !in free && TableOf(m', d, i) !in dirs + {f}
      ensures At(m', TableOf(m', d, i), j) == 0 || Present(At(m', TableOf(m', d, i), j))
    {
      var d' := if d == f then kernel.value else d;
      assert HasTable(m, d', i) && TableOf(m', d, i) == TableOf(m, d', i) && TableOf(m, d', i) !in free;
    }
    assert TablesOwned(m', dirs + {f}, free - {f}) by {
      forall d, i: nat | d in dirs + {f} && i < ENTRIES && HasTable(m', d, i)
        ensures 0 < TableOf(m', d, i) < MAX_FRAMES && TableOf(m', d, i) !in free - {f} && TableOf(m', d, i) !in dirs + {f}
      {
        var j := 0;
        assert At(m', TableOf(m', d, i), j) == 0 || Present(At(m', TableOf(m', d, i), j));
      }
    }
    forall d, i: nat, e, k: nat | d in dirs + {f} && e in dirs + {f} && i < ENTRIES && k < ENTRIES &&
                                  HasTable(m', d, i) && HasTable(m', e, k) && TableOf(m', d, i) == TableOf(m', e, k)
      ensures i == k && (d == e || i < USER_INDEX)
    {
      var d', e' := if d == f then kernel.value else d, if e == f then kernel.value else e;
      assert HasTable(m, d', i) && HasTable(m, e', k) && TableOf(m, d', i) == TableOf(m, e', k);
    }
  }

  lemma AddDirectoryOthers(m: Memory, m': Memory, dirs: set<nat>, free: set<nat>, f: nat, kernel: Option<nat>, d: nat)
    requires WellFormed(m, dirs, free)
    requires f in free && f < MAX_FRAMES && (kernel.Some? ==> kernel.value in dirs)
    requires DirectoryMade(m, m', f, kernel) && d in dirs
    ensures Flat(m', d) == Flat(m, d) && Tables(m', d) == Tables(m, d)
  {
    AddDirectoryTables(m, m', dirs, free, f, kernel);
    forall p: nat | p < PAGES
      ensures Entry(m', d, p) == Entry(m, d, p)
    {
      assert HasTable(m, d, p / ENTRIES) ==> TableOf(m, d, p / ENTRIES) !in free;
    }
    FlatByEntries(m, m', d);
  }

  lemma AddDirectoryEntries(m: Memory, m': Memory, dirs: set<nat>, free: set<nat>, f: nat, kernel: Option<nat>, p: nat)
    requires WellFormed(m, dirs, free) && p < PAGES
    requires f in free && f < MAX_FRAMES && (kernel.Some? ==> kernel.value in dirs)
    requires DirectoryMade(m, m', f, kernel)
    ensures Entry(m', f, p) == if p < USER_PAGE && kernel.Some? then Entry(m, kernel.value, p) else 0
  {
    AddDirectoryTables(m, m', dirs, free, f, kernel);
    if p < USER_PAGE && kernel.Some? && HasTable(m, kernel.value, p / ENTRIES) {
      assert TableOf(m, kernel.value, p / ENTRIES) !in free;
    }
  }

  /** A new directory translates the low half like the kernel's and nothing else;
      existing directories keep all their translations. */
  lemma AddDirectory(m: Memory, m': Memory, dirs: set<nat>, free: set<nat>, f: nat, kernel: Option<nat>)
    requires WellFormed(m, dirs, free)
    requires f in free && f < MAX_FRAMES && (kernel.Some? ==> kernel.value in dirs)
    requires DirectoryMade(m, m', f, kernel)
    ensures WellFormed(m', dirs + {f}, free - {f})
    ensures Flat(m', f) == if kernel.Some? then LowHalf(Flat(m, kernel.value)) else map[]
    ensures forall d :: d in dirs ==> Flat(m', d) == Flat(m, d) && Tables(m', d) == Tables(m, d)
  {
    hide DirectoryMade;
    hide Entry;
    hide Tables;
    AddDirectoryWellFormed(m, m', dirs, free, f, kernel);
    forall p: nat | p < PAGES
      ensures Entry(m', f, p) == if p < USER_PAGE && kernel.Some? then Entry(m, kernel.value, p) else 0
    {
      AddDirectoryEntries(m, m', dirs, free, f, kernel, p);
    }
    forall d | d in dirs
      ensures Flat(m', d) == Flat(m, d) && Tables(m', d) == Tables(m, d)
    {
      AddDirectoryOthers(m, m', dirs, free, f, kernel, d);
    }
  }
}
