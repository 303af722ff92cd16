/** The virtual memory manager: frame bitmap, physical memory and the current and
    kernel page directories, updated in place. */
module Vmm {
  import opened Options
  import opened Words
  import opened Frames
  import opened Paging
  import opened AddressSpaces
  import opened Cloning

  const KERNEL_FRAMES: nat := 1024

  /** What is observable of the memory manager through directory `d`. */
  ghost function SpaceOf(m: Memory, d: nat, free: set<nat>, next: nat): (s: AddressSpace)
    requires d < PHYS_FRAMES
  {
    AddressSpace(Flat(m, d), Tables(m, d), free, next)
  }

  lemma FrameAddress(frame: nat)
    requires frame < MAX_FRAMES
    ensures frame * PAGE_SIZE % PAGE_SIZE == 0 && frame * PAGE_SIZE / PAGE_SIZE == frame
  {
  }

  lemma SpaceIsTabled(m: Memory, dirs: set<nat>, free: set<nat>, d: nat, next: nat)
    requires WellFormed(m, dirs, free) && d in dirs && next < MAX_FRAMES && forall f :: f in free ==> f < MAX_FRAMES
    ensures Sane(SpaceOf(m, d, free, next)) && Tabled(SpaceOf(m, d, free, next))
  {
  }

  /** The effect of mapping `va` in directory `d`: the abstract step, seen by the
      other directories through shared tables only, with no page contents touched. */
  ghost predicate MapEffect(m: Memory, free: set<nat>, next: nat, m': Memory, free': set<nat>, next': nat,
                            dirs: set<nat>, d: nat, va: Word, pa: Word, flags: Word)
    requires d in dirs && forall d' :: d' in dirs ==> d' < PHYS_FRAMES
  {
    && WellFormed(m', dirs, free')
    && SpaceOf(m', d, free', next') == MapStep(SpaceOf(m, d, free, next), va, pa, flags)
    && OthersSee(m, m', dirs, d, PageOf(va), MappedEntry(pa, flags))
    && ContentsKept(m, m', dirs)
  }

  lemma MapInTable(m: Memory, free: set<nat>, next: nat, m': Memory, dirs: set<nat>, d: nat, va: Word, pa: Word, flags: Word)
    requires WellFormed(m, dirs, free) && d in dirs && HasTable(m, d, PageOf(va) / ENTRIES)
    requires WordChanged(m, m', TableOf(m, d, PageOf(va) / ENTRIES), PageOf(va) % ENTRIES, MappedEntry(pa, flags))
    ensures MapEffect(m, free, next, m', free, next, dirs, d, va, pa, flags)
  {
    WriteEffect(m, m', dirs, free, d, PageOf(va), MappedEntry(pa, flags));
  }

  lemma MapInNewTable(m: Memory, free: set<nat>, next: nat, m': Memory, m'': Memory, dirs: set<nat>, d: nat, t: nat,
                      va: Word, pa: Word, flags: Word)
    requires WellFormed(m, dirs, free) && d in dirs && !HasTable(m, d, PageOf(va) / ENTRIES)
    requires t in free && t < MAX_FRAMES && NextFit(free, next) == Some(t)
    requires TableLinked(m, m', d, PageOf(va) / ENTRIES, t)
    requires WordChanged(m', m'', t, PageOf(va) % ENTRIES, MappedEntry(pa, flags))
    ensures MapEffect(m, free, next, m'', free - {t}, (t + 1) % MAX_FRAMES, dirs, d, va, pa, flags)
  {
    LinkThenWrite(m, m', m'', dirs, free, d, PageOf(va), t, MappedEntry(pa, flags));
  }

  lemma MapWithoutFrame(m: Memory, free: set<nat>, next: nat, dirs: set<nat>, d: nat, va: Word, pa: Word, flags: Word)
    requires WellFormed(m, dirs, free) && d in dirs && !HasTable(m, d, PageOf(va) / ENTRIES)
    requires NextFit(free, next) == None
    ensures MapEffect(m, free, next, m, free, next, dirs, d, va, pa, flags)
  {
  }

  ghost predicate UnmapEffect(m: Memory, free: set<nat>, m': Memory, free': set<nat>, next: nat,
                              dirs: set<nat>, d: nat, va: Word)
    requires d in dirs && forall d' :: d' in dirs ==> d' < PHYS_FRAMES
  {
    && SpaceOf(m', d, free', next) == UnmapStep(SpaceOf(m, d, free, next), va)
    && OthersSee(m, m', dirs, d, PageOf(va), 0)
    && ContentsKept(m, m', dirs)
  }

  lemma FreeingStructure(m: Memory, dirs: set<nat>, free: set<nat>, f: nat)
    requires WellFormed(m, dirs, free) && 0 < f < MAX_FRAMES
    ensures WellFormed(m, dirs, free + {f}) <==> !Structural(m, dirs, f)
  {
    if d, i: nat :| d in dirs && i < ENTRIES && HasTable(m, d, i) && TableOf(m, d, i) == f {
      assert !TablesOwned(m, dirs, free + {f}) || !DirsOwned(dirs, free + {f});
    }
  }

  /** An entry that is not present is 0, so it refers to frame 0. */
  lemma EntryOfPage(m: Memory, dirs: set<nat>, free: set<nat>, d: nat, p: nat)
    requires WellFormed(m, dirs, free) && d in dirs && p < PAGES && HasTable(m, d, p / ENTRIES)
    ensures p in Flat(m, d) ==> Flat(m, d)[p] == Entry(m, d, p)
    ensures p !in Flat(m, d) ==> Entry(m, d, p) == 0 && FrameOf(Entry(m, d, p)) == 0
  {
    assert Entry(m, d, p) == At(m, TableOf(m, d, p / ENTRIES), p % ENTRIES);
  }

  lemma DirsInside(m: Memory, dirs: set<nat>, free: set<nat>)
    requires WellFormed(m, dirs, free)
    ensures forall d :: d in dirs ==> d < PHYS_FRAMES
  {
  }

  /** Only frames of the pool other than 0 hold structure. */
  lemma StructureInPool(m: Memory, dirs: set<nat>, free: set<nat>)
    requires WellFormed(m, dirs, free)
    ensures forall f: nat :: Structural(m, dirs, f) ==> 0 < f < MAX_FRAMES
  {
  }

  lemma UnmapInTable(m: Memory, free: set<nat>, m': Memory, free': set<nat>, next: nat, dirs: set<nat>, d: nat, va: Word)
    requires WellFormed(m, dirs, free) && d in dirs && HasTable(m, d, PageOf(va) / ENTRIES)
    requires WordChanged(m, m', TableOf(m, d, PageOf(va) / ENTRIES), PageOf(va) % ENTRIES, 0)
    requires var f := FrameOf(Entry(m, d, PageOf(va))); free' == if 0 < f < MAX_FRAMES then free + {f} else free
    ensures UnmapEffect(m, free, m', free', next, dirs, d, va)
    ensures WellFormed(m', dirs, free') <==>
            !(PageOf(va) in Flat(m, d) && Structural(m, dirs, FrameOf(Flat(m, d)[PageOf(va)])))
  {
    hide WellFormed;
    hide OthersSee;
    hide ContentsKept;
    hide Tables;
    hide Flat;
    hide Entry;
    hide Structural;
    hide FrameOf;
    hide WordChanged;
    DirsInside(m, dirs, free);
    var p := PageOf(va);
    WriteEffect(m, m', dirs, free, d, p, 0);
    EntryOfPage(m, dirs, free, d, p);
    var f := FrameOf(Entry(m, d, p));
    if 0 < f < MAX_FRAMES {
      FreeingStructure(m', dirs, free, f);
    } else {
      StructureInPool(m, dirs, free);
    }
  }

  lemma UnmapWithoutTable(m: Memory, free: set<nat>, next: nat, dirs: set<nat>, d: nat, va: Word)
    requires WellFormed(m, dirs, free) && d in dirs && !HasTable(m, d, PageOf(va) / ENTRIES)
    ensures UnmapEffect(m, free, m, free, next, dirs, d, va)
    ensures PageOf(va) !in Flat(m, d)
  {
  }

  /** Every directory or table frame is reserved or a table of directory `d`. */
  ghost predicate Covered(m: Memory, dirs: set<nat>, d: nat, reserved: set<nat>)
    requires d in dirs && forall d' :: d' in dirs ==> d' < PHYS_FRAMES
  {
    forall f: nat :: Structural(m, dirs, f) ==> f in reserved || f in Tables(m, d).Values
  }

  lemma OnlyDirectoryCovered(m: Memory, d: nat, reserved: set<nat>)
    requires d < PHYS_FRAMES && d in reserved
    ensures Covered(m, {d}, d, reserved)
  {
    forall f: nat | Structural(m, {d}, f) && f != d
      ensures f in Tables(m, d).Values
    {
      var i: nat :| i < ENTRIES && HasTable(m, d, i) && TableOf(m, d, i) == f;
      assert Tables(m, d)[i] == f;
    }
  }

  lemma CoveredStays(m: Memory, m': Memory, dirs: set<nat>, d: nat, reserved: set<nat>)
    requires d in dirs && forall d' :: d' in dirs ==> d' < PHYS_FRAMES
    requires Covered(m, dirs, d, reserved)
    requires forall i :: i in Tables(m, d) ==> i in Tables(m', d) && Tables(m', d)[i] == Tables(m, d)[i]
    requires forall d' :: d' in dirs && d' != d ==> Tables(m', d') == Tables(m, d')
    ensures Covered(m', dirs, d, reserved)
  {
    forall f: nat | Structural(m', dirs, f)
      ensures f in reserved || f in Tables(m', d).Values
    {
      if f in dirs {
        assert Structural(m, dirs, f);
      } else {
        var d', i: nat :| d' in dirs && i < ENTRIES && HasTable(m', d', i) && TableOf(m', d', i) == f;
        assert i in Tables(m', d') && Tables(m', d')[i] == f;
        if d' != d {
          assert i in Tables(m, d') && Tables(m, d')[i] == f;
          assert HasTable(m, d', i) && TableOf(m, d', i) == f;
        }
      }
      if i :| i in Tables(m, d) && Tables(m, d)[i] == f {
        assert i in Tables(m', d) && Tables(m', d)[i] == f;
      }
    }
  }

  lemma MapKeepsCovered(m: Memory, free: set<nat>, next: nat, m': Memory, free': set<nat>, next': nat,
                        dirs: set<nat>, d: nat, va: Word, pa: Word, flags: Word, reserved: set<nat>)
    requires d in dirs && forall d' :: d' in dirs ==> d' < PHYS_FRAMES
    requires MapEffect(m, free, next, m', free', next', dirs, d, va, pa, flags) && Covered(m, dirs, d, reserved)
    ensures Covered(m', dirs, d, reserved)
  {
    var s, s' := SpaceOf(m, d, free, next), SpaceOf(m', d, free', next');
    assert s'.tables == Tables(m', d) && s.tables == Tables(m, d);
    CoveredStays(m, m', dirs, d, reserved);
  }

  lemma UnmapKeepsCovered(m: Memory, free: set<nat>, m': Memory, free': set<nat>, next: nat,
                          dirs: set<nat>, d: nat, va: Word, reserved: set<nat>)
    requires d in dirs && forall d' :: d' in dirs ==> d' < PHYS_FRAMES
    requires UnmapEffect(m, free, m', free', next, dirs, d, va) && Covered(m, dirs, d, reserved)
    ensures Covered(m', dirs, d, reserved)
  {
    var s, s' := SpaceOf(m, d, free, next), SpaceOf(m', d, free', next);
    assert s'.tables == Tables(m', d) && s.tables == Tables(m, d);
    CoveredStays(m, m', dirs, d, reserved);
  }

  class Vmm {
    const bitmap: array<Word>
    const mem: array<Word>
    var nextFree: nat
    var currentDir: Word
    var kernelDir: Word
    /** The frames in use as page directories. */
    ghost var dirs: set<nat>

    ghost predicate Shaped()
      reads this
    {
      bitmap.Length == BITMAP_WORDS && mem.Length == MEMORY_WORDS && bitmap != mem && nextFree < MAX_FRAMES
    }

    ghost function M(): (m: Memory)
      requires Shaped()
      reads this, mem
    {
      mem[..]
    }

    ghost function Free(): (free: set<nat>)
      requires Shaped()
      reads this, bitmap
    {
      FreeSet(bitmap[..])
    }

    ghost predicate IsDir(addr: Word)
      reads this
    {
      addr % PAGE_SIZE == 0 && addr / PAGE_SIZE in dirs
    }

    ghost predicate Valid()
      reads this, bitmap, mem
    {
      && Shaped()
      && WellFormed(M(), dirs, Free())
      && (currentDir == 0 || IsDir(currentDir))
      && (kernelDir == 0 || IsDir(kernelDir))
    }

    /** The abstract address space of the current directory. */
    ghost function Space(): (s: AddressSpace)
      requires Shaped()
      reads this, bitmap, mem
    {
      SpaceOf(M(), currentDir / PAGE_SIZE, Free(), nextFree)
    }

    constructor ()
      ensures Shaped() && fresh(bitmap) && fresh(mem)
      ensures currentDir == 0 && kernelDir == 0 && dirs == {}
    {
      bitmap := new Word[BITMAP_WORDS](_ => 0);
      mem := new Word[MEMORY_WORDS];
      nextFree, currentDir, kernelDir, dirs := 0, 0, 0, {};
    }

    method AllocFrame() returns (addr: Word)
      requires Shaped()
      modifies this`nextFree, bitmap
      ensures Shaped()
      ensures match NextFit(old(Free()), old(nextFree))
              case None => addr == 0 && Free() == old(Free()) && nextFree == old(nextFree)
              case Some(f) => addr == f * PAGE_SIZE && f in old(Free()) && f < MAX_FRAMES &&
                              Free() == old(Free()) - {f} && nextFree == (f + 1) % MAX_FRAMES
      // with frame 0 taken, the result is 0 exactly when no frame is free
      ensures 0 !in old(Free()) ==> (addr == 0 <==> old(Free()) == {})
      ensures addr != 0 ==> addr % PAGE_SIZE == 0 && addr / PAGE_SIZE in old(Free()) && addr / PAGE_SIZE < MAX_FRAMES &&
                            Free() == old(Free()) - {addr / PAGE_SIZE}
    {
      hide HasBit;
      hide PutBit;
      hide FreeSet;
      hide Probe;
      var i := 0;
      while i < MAX_FRAMES
        invariant i <= MAX_FRAMES
        invariant unchanged(this) && unchanged(bitmap)
        invariant NextFit(Free(), nextFree, i) == NextFit(Free(), nextFree)
      {
        var frame := Probe(nextFree, i);
        FreeByBit(bitmap[..], frame);
        FrameAddress(frame);
        if !HasBit(bitmap[frame / 32], frame % 32) {
          MarkFrame(bitmap[..], frame, true);
          bitmap[frame / 32] := PutBit(bitmap[frame / 32], frame % 32, true);
          nextFree := (frame + 1) % MAX_FRAMES;
          return frame * PAGE_SIZE;
        }
        i := i + 1;
      }
      FreeInPool(bitmap[..]);
      NextFitIsFirstFree(Free(), nextFree);
      return 0;
    }

    method FreeFrame(addr: Word)
      requires Shaped()
      modifies bitmap
      ensures Free() == if addr / PAGE_SIZE < MAX_FRAMES then old(Free()) + {addr / PAGE_SIZE} else old(Free())
    {
      var frame := addr / PAGE_SIZE;
      if frame >= MAX_FRAMES {
        return;
      }
      MarkFrame(bitmap[..], frame, false);
      bitmap[frame / 32] := PutBit(bitmap[frame / 32], frame % 32, false);
    }

    /** Clears the frame that begins at word `base`. */
    method ClearFrame(base: nat, ghost f: nat)
      requires Shaped() && f < PHYS_FRAMES && base == f * ENTRIES
      modifies mem
      ensures FrameCleared(old(M()), M(), f)
    {
      for i := 0 to ENTRIES
        invariant forall a :: 0 <= a < mem.Length ==> mem[a] == if base <= a < base + i then 0 else old(mem[a])
      {
        mem[base + i] := 0;
      }
    }

    /** Stores a word at position `at`, which is word `i` of frame `f`. */
    method Store(at: nat, ghost f: nat, ghost i: nat, v: Word)
      requires Shaped() && f < PHYS_FRAMES && i < ENTRIES && at == f * ENTRIES + i
      modifies mem
      ensures WordChanged(old(M()), M(), f, i, v)
    {
      StoreChangesOneWord(M(), f, i, v);
      mem[at] := v;
    }

    /** Allocates and clears a table frame and links it into the current directory. */
    method MakeTable(pdIndex: nat) returns (ok: bool)
      requires Valid() && currentDir != 0 && pdIndex < ENTRIES && !HasTable(M(), currentDir / PAGE_SIZE, pdIndex)
      modifies this`nextFree, bitmap, mem
      ensures Valid()
      ensures match NextFit(old(Free()), old(nextFree))
              case None => !ok && nextFree == old(nextFree) && M() == old(M()) && Free() == old(Free())
              case Some(t) => ok && t < MAX_FRAMES && t in old(Free()) &&
                              TableLinked(old(M()), M(), currentDir / PAGE_SIZE, pdIndex, t) &&
                              Free() == old(Free()) - {t} && nextFree == (t + 1) % MAX_FRAMES
    {
      ghost var d, m, free := currentDir / PAGE_SIZE, M(), Free();
      var ptPhys := AllocFrame();
      if ptPhys == 0 {
        return false;
      }
      ghost var t := NextFit(free, old(nextFree)).value;
      ClearFrame(ptPhys / 4, t);
      ghost var m1 := M();
      Store(currentDir / 4 + pdIndex, d, pdIndex, ptPhys + 3);
      ClearThenStore(m, m1, M(), d, pdIndex, t);
      LinkTableWellFormed(m, M(), dirs, free, d, pdIndex, t);
      return true;
    }

    /** Where the page-table entry of `va` in the current directory lies, as a word
        position in memory; 0 when there is no table.  `t` is the frame of the table. */
    method FindPage(va: Word) returns (pte: nat, ghost t: nat)
      requires Valid()
      ensures if currentDir != 0 && HasTable(M(), currentDir / PAGE_SIZE, PageOf(va) / ENTRIES)
              then 0 < t < MAX_FRAMES && pte == t * ENTRIES + PageOf(va) % ENTRIES &&
                   t == TableOf(M(), currentDir / PAGE_SIZE, PageOf(va) / ENTRIES)
              else pte == 0
    {
      pte, t := 0, 0;
      if currentDir == 0 {
        return;
      }
      var pdIndex := PageOf(va) / ENTRIES;
      assert mem[currentDir / 4 + pdIndex] == At(M(), currentDir / PAGE_SIZE, pdIndex);
      if Present(mem[currentDir / 4 + pdIndex]) {
        t := TableOf(M(), currentDir / PAGE_SIZE, pdIndex);
        pte := FrameOf(mem[currentDir / 4 + pdIndex]) * ENTRIES + PageOf(va) % ENTRIES;
      }
    }

    /** The same position, making the table when it is missing and a frame is free. */
    method GetPage(va: Word) returns (pte: nat, ghost t: nat)
      requires Valid()
      modifies this`nextFree, bitmap, mem
      ensures Valid()
      ensures pte != 0 ==> 0 < t < MAX_FRAMES && pte == t * ENTRIES + PageOf(va) % ENTRIES
      ensures
        var d, i := currentDir / PAGE_SIZE, PageOf(va) / ENTRIES;
        var same := nextFree == old(nextFree) && M() == old(M()) && Free() == old(Free());
        if currentDir == 0 then pte == 0 && same
        else if HasTable(old(M()), d, i) then same && pte != 0 && t == TableOf(M(), d, i)
        else match NextFit(old(Free()), old(nextFree))
          case None => pte == 0 && same
          case Some(f) => pte != 0 && f == t && t in old(Free()) && TableLinked(old(M()), M(), d, i, t) &&
                          Free() == old(Free()) - {t} && nextFree == (t + 1) % MAX_FRAMES
    {
      pte, t := FindPage(va);
      if pte != 0 || currentDir == 0 {
        return;
      }
      var ok := MakeTable(PageOf(va) / ENTRIES);
      if ok {
        LinkTableDirs(old(M()), M(), dirs, old(Free()), currentDir / PAGE_SIZE, PageOf(va) / ENTRIES,
                      NextFit(old(Free()), old(nextFree)).value);
        pte, t := FindPage(va);
      }
    }

    method MapPage(va: Word, pa: Word, flags: Word)
      requires Valid()
      modifies this`nextFree, bitmap, mem
      ensures Valid()
      ensures currentDir == 0 ==> nextFree == old(nextFree) && M() == old(M()) && Free() == old(Free())
      ensures currentDir != 0 ==>
                MapEffect(old(M()), old(Free()), old(nextFree), M(), Free(), nextFree, dirs, currentDir / PAGE_SIZE, va, pa, flags)
    {
      var p := PageOf(va);
      ghost var d, m0, free0, next0 := currentDir / PAGE_SIZE, M(), Free(), nextFree;
      var pte, t := GetPage(va);
      if pte == 0 {
        if currentDir != 0 {
          MapWithoutFrame(m0, free0, next0, dirs, d, va, pa, flags);
        }
        return;
      }
      ghost var m1 := M();
      Store(pte, t, p % ENTRIES, MappedEntry(pa, flags));
      if HasTable(m0, d, p / ENTRIES) {
        MapInTable(m0, free0, next0, M(), dirs, d, va, pa, flags);
      } else {
        MapInNewTable(m0, free0, next0, m1, M(), dirs, d, t, va, pa, flags);
      }
    }

    /** The manager's state stays valid exactly when the frame given back is not
        itself a page directory or page table. */
    method UnmapPage(va: Word)
      requires Valid()
      modifies bitmap, mem
      ensures currentDir == 0 ==> M() == old(M()) && Free() == old(Free())
      ensures currentDir != 0 ==>
                UnmapEffect(old(M()), old(Free()), M(), Free(), nextFree, dirs, currentDir / PAGE_SIZE, va)
      ensures Valid() <==> !(currentDir != 0 && PageOf(va) in old(Space()).pages &&
                             Structural(old(M()), dirs, FrameOf(old(Space()).pages[PageOf(va)])))
    {
      ghost var d, m, free := currentDir / PAGE_SIZE, M(), Free();
      var pte, t := FindPage(va);
      if pte == 0 {
        if currentDir != 0 {
          UnmapWithoutTable(m, free, nextFree, dirs, d, va);
        }
        return;
      }
      var e := mem[pte];
      assert e == At(m, t, PageOf(va) % ENTRIES);
      if FrameOf(e) * PAGE_SIZE != 0 {
        FreeFrame(FrameOf(e) * PAGE_SIZE);
      }
      Store(pte, t, PageOf(va) % ENTRIES, 0);
      UnmapInTable(m, free, M(), Free(), nextFree, dirs, d, va);
    }

    method GetPhysical(va: Word) returns (pa: Word)
      requires Valid()
      ensures var pages, p := Space().pages, va / 4096;
              pa == if currentDir != 0 && p in pages then pages[p] - pages[p] % 4096 + va % 4096 else 0
    {
      var pte, t := FindPage(va);
      if pte == 0 {
        return 0;
      }
      assert mem[pte] == At(M(), t, PageOf(va) % ENTRIES) == Entry(M(), currentDir / PAGE_SIZE, PageOf(va));
      if !Present(mem[pte]) {
        return 0;
      }
      return FrameOf(mem[pte]) * PAGE_SIZE + FlagsOf(va);
    }

    method SwitchDirectory(dir: Word)
      requires Valid() && (dir == 0 || IsDir(dir))
      modifies this`currentDir
      ensures Valid()
      ensures currentDir == if dir == 0 then old(currentDir) else dir
    {
      if dir == 0 {
        return;
      }
      currentDir := dir;
    }

    /** `kernel` is the directory whose low half every new directory starts with. */
    ghost function Kernel(): (k: Option<nat>)
      reads this
    {
      if kernelDir == 0 then None else Some(kernelDir / PAGE_SIZE)
    }

    /** Copies the first `n` words of the frame at `src` over those of the frame at `dst`. */
    method CopyWords(dst: nat, ghost f: nat, src: nat, ghost g: nat, n: nat)
      requires Shaped() && f < PHYS_FRAMES && dst == f * ENTRIES && g < PHYS_FRAMES && src == g * ENTRIES && n <= ENTRIES
      modifies mem
      ensures WordsCopied(old(M()), M(), f, g, n)
    {
      for i := 0 to n
        invariant forall a :: 0 <= a < mem.Length && !(dst <= a < dst + i) ==> mem[a] == old(mem[a])
        invariant forall j: nat {:trigger At(M(), f, j)} :: j < i ==> At(M(), f, j) == At(old(M()), g, j)
      {
        assert mem[src + i] == old(mem[src + i]);
        ghost var m := M();
        StoreChangesOneWord(m, f, i, mem[src + i]);
        mem[dst + i] := mem[src + i];
        assert WordChanged(m, M(), f, i, At(old(M()), g, i));
      }
      forall h: nat, j: nat | h < PHYS_FRAMES && j < ENTRIES && !(h == f && j < n)
        ensures At(M(), h, j) == At(old(M()), h, j)
      {
        assert mem[h * ENTRIES + j] == old(mem[h * ENTRIES + j]);
      }
    }

    method CopyKernelHalf(base: nat, ghost f: nat)
      requires Shaped() && f < PHYS_FRAMES && base == f * ENTRIES
      requires kernelDir % PAGE_SIZE == 0 && (kernelDir != 0 ==> kernelDir / PAGE_SIZE != f)
      modifies mem
      ensures DirectoryMade(old(M()), M(), f, Kernel())
    {
      ClearFrame(base, f);
      if kernelDir != 0 {
        CopyWords(base, f, kernelDir / 4, kernelDir / PAGE_SIZE, USER_INDEX);
      }
    }

    method CreateDirectory() returns (dir: Word)
      requires Valid()
      modifies this`nextFree, this`dirs, bitmap, mem
      ensures Valid()
      ensures match NextFit(old(Free()), old(nextFree))
              case None => dir == 0 && dirs == old(dirs) && M() == old(M()) && Free() == old(Free()) && nextFree == old(nextFree)
              case Some(f) => dir == f * PAGE_SIZE && f in old(Free()) && 0 < f < MAX_FRAMES && dirs == old(dirs) + {f} &&
                              DirectoryMade(old(M()), M(), f, Kernel()) &&
                              Free() == old(Free()) - {f} && nextFree == (f + 1) % MAX_FRAMES
      ensures dir == 0 <==> old(Free()) == {}
      ensures dir != 0 ==> dir % PAGE_SIZE == 0 && dir / PAGE_SIZE in old(Free())
      ensures dir != 0 ==> dirs == old(dirs) + {dir / PAGE_SIZE} && Free() == old(Free()) - {dir / PAGE_SIZE}
      ensures dir != 0 ==> DirectoryMade(old(M()), M(), dir / PAGE_SIZE, Kernel())
    {
      ghost var m, free := M(), Free();
      var pdPhys := AllocFrame();
      if pdPhys == 0 {
        return 0;
      }
      ghost var f := NextFit(free, old(nextFree)).value;
      CopyKernelHalf(pdPhys / 4, f);
      AddDirectoryWellFormed(m, M(), dirs, free, f, Kernel());
      dirs := dirs + {f};
      return pdPhys;
    }

    /** A fresh frame with the contents of the frame of entry `e`, mapped with the
        same flags by entry `j` of table `nt`. */
    method CopyPage(e: Word, at: nat, ghost nt: nat, ghost j: nat) returns (ok: bool)
      requires Shaped() && 0 !in Free() && nt < PHYS_FRAMES && j < ENTRIES && at == nt * ENTRIES + j
      modifies this`nextFree, bitmap, mem
      ensures Shaped()
      ensures match NextFit(old(Free()), old(nextFree))
              case None => !ok && M() == old(M()) && Free() == old(Free())
              case Some(f) => ok && f in old(Free()) && f < MAX_FRAMES && Free() == old(Free()) - {f} &&
                              PageCopied(old(M()), M(), f, FrameOf(e), nt, j, MakeEntry(f, FlagsOf(e)))
    {
      ghost var m, free := M(), Free();
      var newFrame := AllocFrame();
      if newFrame == 0 {
        return false;
      }
      ghost var f := NextFit(free, old(nextFree)).value;
      CopyWords(newFrame / 4, f, FrameOf(e) * ENTRIES, FrameOf(e), ENTRIES);
      ghost var m1 := M();
      Store(at, nt, j, newFrame + FlagsOf(e));
      CopyThenStore(m, m1, M(), f, FrameOf(e), nt, j, MakeEntry(f, FlagsOf(e)));
      return true;
    }

    method CloneEntry(src: nat, ghost st: nat, dst: nat, ghost nt: nat, j: nat, ghost c: nat,
                      ghost m0: Memory, ghost free0: set<nat>, ghost mT: Memory, ghost pool: set<nat>)
      returns (ghost c': nat)
      requires Shaped() && j < ENTRIES
      requires st < PHYS_FRAMES && src == st * ENTRIES && nt < PHYS_FRAMES && dst == nt * ENTRIES
      requires st !in free0 && 0 !in free0
      requires TableState(m0, free0, mT, pool, M(), Free(), st, nt, j, c)
      modifies this`nextFree, bitmap, mem
      ensures Shaped()
      ensures TableState(m0, free0, mT, pool, M(), Free(), st, nt, j + 1, c')
    {
      ghost var m, free := M(), Free();
      var e := mem[src + j];
      assert e == At(m, st, j) == At(m0, st, j);
      if !Present(e) {
        Store(dst + j, nt, j, 0);
        c' := if c == j then j + 1 else c;
        SkipStep(m0, free0, mT, pool, m, free, M(), st, nt, j, c, c');
        return;
      }
      NextFitIsFirstFree(free, nextFree);
      var ok := CopyPage(e, dst + j, nt, j);
      if !ok {
        Store(dst + j, nt, j, 0);
        c' := c;
        SkipStep(m0, free0, mT, pool, m, free, M(), st, nt, j, c, c');
      } else {
        c' := j + 1;
        CopyStep(m0, free0, mT, pool, m, free, M(), st, nt, j, c, NextFit(free, old(nextFree)).value);
      }
    }

    /** Copies the table at `src` into the frame at `dst`; the first `c` entries are
        copied before the frames run out. */
    method CloneTable(src: nat, ghost st: nat, dst: nat, ghost nt: nat, ghost m0: Memory, ghost free0: set<nat>)
      returns (ghost c: nat)
      requires Shaped()
      requires st < PHYS_FRAMES && src == st * ENTRIES && nt < PHYS_FRAMES && dst == nt * ENTRIES
      requires st !in free0 && nt in free0 && nt !in Free() && Free() <= free0 && 0 !in free0
      requires SameOutside(m0, M(), free0)
      modifies this`nextFree, bitmap, mem
      ensures Shaped()
      ensures TableState(m0, free0, old(M()), old(Free()), M(), Free(), st, nt, ENTRIES, c)
    {
      ghost var mT, pool := M(), Free();
      c := 0;
      for j := 0 to ENTRIES
        invariant Shaped()
        invariant TableState(m0, free0, mT, pool, M(), Free(), st, nt, j, c)
      {
        c := CloneEntry(src, st, dst, nt, j, c, m0, free0, mT, pool);
      }
    }

    /** One directory index of the user half. */
    method CloneIndex(src: Word, newDir: Word, i: nat, ghost c: nat, ghost m0: Memory, ghost free0: set<nat>, ghost dirs0: set<nat>)
      returns (ghost c': nat)
      requires Shaped() && USER_INDEX <= i < ENTRIES && src % PAGE_SIZE == 0 && newDir % PAGE_SIZE == 0
      requires WellFormed(m0, dirs0, free0) && src / PAGE_SIZE in dirs0 && newDir / PAGE_SIZE in free0
      requires CopyState(m0, free0, M(), Free(), dirs, src / PAGE_SIZE, newDir / PAGE_SIZE, Kernel(), i, c)
      modifies this`nextFree, bitmap, mem
      ensures Shaped()
      ensures CopyState(m0, free0, M(), Free(), dirs, src / PAGE_SIZE, newDir / PAGE_SIZE, Kernel(), i + 1, c')
    {
      ghost var m, free, s, nd := M(), Free(), src / PAGE_SIZE, newDir / PAGE_SIZE;
      var e := mem[src / 4 + i];
      assert e == At(m, s, i);
      assert At(m, s, i) == At(m0, s, i) by {
        assert s !in free0;
      }
      if !Present(e) {
        c' := if c == i * ENTRIES then (i + 1) * ENTRIES else c;
        PassTable(m0, free0, m, free, dirs, s, nd, Kernel(), i, c, c');
        return;
      }
      var ptPhys := AllocFrame();
      if ptPhys == 0 {
        c' := c;
        PassTable(m0, free0, m, free, dirs, s, nd, Kernel(), i, c, c');
        return;
      }
      c' := FillTable(src, newDir, e, ptPhys, i, c, m0, free0, dirs0, free);
    }

    /** Fills the table frame `ptPhys`, just taken from `free`, and links it. */
    method FillTable(ghost src: Word, newDir: Word, e: Word, ptPhys: Word, i: nat, ghost c: nat, ghost m0: Memory,
                     ghost free0: set<nat>, ghost dirs0: set<nat>, ghost free: set<nat>)
      returns (ghost c': nat)
      requires Shaped() && USER_INDEX <= i < ENTRIES && src % PAGE_SIZE == 0 && newDir % PAGE_SIZE == 0 && ptPhys % PAGE_SIZE == 0
      requires WellFormed(m0, dirs0, free0) && src / PAGE_SIZE in dirs0 && newDir / PAGE_SIZE in free0
      requires CopyState(m0, free0, M(), free, dirs, src / PAGE_SIZE, newDir / PAGE_SIZE, Kernel(), i, c)
      requires e == At(m0, src / PAGE_SIZE, i) && Present(e)
      requires ptPhys / PAGE_SIZE in free && ptPhys / PAGE_SIZE < MAX_FRAMES && Free() == free - {ptPhys / PAGE_SIZE}
      modifies this`nextFree, bitmap, mem
      ensures Shaped()
      ensures CopyState(m0, free0, M(), Free(), dirs, src / PAGE_SIZE, newDir / PAGE_SIZE, Kernel(), i + 1, c')
    {
      ghost var m, s, nd, nt := M(), src / PAGE_SIZE, newDir / PAGE_SIZE, ptPhys / PAGE_SIZE;
      assert HasTable(m0, s, i) && TableOf(m0, s, i) !in free0;
      ghost var ct := CloneTable(FrameOf(e) * ENTRIES, FrameOf(e), ptPhys / 4, nt, m0, free0);
      ghost var mT := M();
      Store(newDir / 4 + i, nd, i, ptPhys + FlagsOf(e));
      c' := i * ENTRIES + ct;
      GrowTable(m0, free0, m, mT, M(), free, Free(), dirs, s, nd, Kernel(), i, c, nt, ct);
    }

    method CloneUserHalf(src: Word, newDir: Word, ghost m0: Memory, ghost free0: set<nat>, ghost dirs0: set<nat>)
      returns (ghost cut: nat)
      requires Shaped() && src % PAGE_SIZE == 0 && newDir % PAGE_SIZE == 0
      requires kernelDir == 0 || IsDir(kernelDir)
      requires WellFormed(m0, dirs0, free0) && src / PAGE_SIZE in dirs0 && newDir / PAGE_SIZE in free0
      requires CopyState(m0, free0, M(), Free(), dirs, src / PAGE_SIZE, newDir / PAGE_SIZE, Kernel(), USER_INDEX, USER_PAGE)
      modifies this`nextFree, bitmap, mem
      ensures Shaped()
      ensures CopyState(m0, free0, M(), Free(), dirs, src / PAGE_SIZE, newDir / PAGE_SIZE, Kernel(), ENTRIES, cut)
    {
      cut := USER_PAGE;
      for i := USER_INDEX to ENTRIES
        invariant Shaped()
        invariant CopyState(m0, free0, M(), Free(), dirs, src / PAGE_SIZE, newDir / PAGE_SIZE, Kernel(), i, cut)
      {
        cut := CloneIndex(src, newDir, i, cut, m0, free0, dirs0);
      }
    }

    /** A deep copy of directory `src`.  User pages below `cut` are all copied and none
        from `cut` on; `cut` is the end of the address space exactly when the frames
        suffice for the directory, its user tables and their pages. */
    method CloneDirectory(src: Word) returns (dir: Word, ghost cut: nat)
      requires Valid() && (src == 0 || IsDir(src))
      modifies this`nextFree, this`dirs, bitmap, mem
      ensures Valid()
      ensures src == 0 || old(Free()) == {} ==>
                dir == 0 && dirs == old(dirs) && M() == old(M()) && Free() == old(Free()) && nextFree == old(nextFree)
      ensures src != 0 && old(Free()) != {} ==>
                && IsDir(dir) && dir / PAGE_SIZE in old(Free()) && dirs == old(dirs) + {dir / PAGE_SIZE}
                && CopyState(old(M()), old(Free()), M(), Free(), dirs, src / PAGE_SIZE, dir / PAGE_SIZE, Kernel(), ENTRIES, cut)
      ensures src != 0 && old(Free()) != {} ==>
                (cut == PAGES <==> 1 + Needed(old(M()), src / PAGE_SIZE, ENTRIES) <= |old(Free())|)
      ensures forall d :: d in old(dirs) ==> Flat(M(), d) == Flat(old(M()), d) && Tables(M(), d) == Tables(old(M()), d)
      ensures src != 0 && old(Free()) != {} ==> SharesKernel(M(), dir / PAGE_SIZE, Kernel())
    {
      hide SharesKernel;
      hide CopyState;
      hide Flat;
      hide Tables;
      hide Needed;
      hide WellFormed;
      hide DirectoryMade;
      cut := 0;
      if src == 0 {
        return 0, 0;
      }
      ghost var m0, free0, dirs0 := M(), Free(), dirs;
      dir := CreateDirectory();
      if dir == 0 {
        return 0, 0;
      }
      ghost var nd := dir / PAGE_SIZE;
      StartCopy(m0, free0, M(), dirs0, src / PAGE_SIZE, nd, Kernel());
      cut := CloneUserHalf(src, dir, m0, free0, dirs0);
      CopyDone(m0, free0, M(), Free(), dirs0, dirs, src / PAGE_SIZE, nd, Kernel(), cut);
    }

    /** A page the kernel maps later appears in every directory that shares the table, and in
        no other.  A directory that shares all low-half tables of the kernel still does
        afterwards exactly when no new one was made. */
    method MapReachesSharers(va: Word, pa: Word, flags: Word, ghost d: nat)
      requires Valid() && kernelDir != 0 && currentDir == kernelDir && d in dirs && d != kernelDir / PAGE_SIZE
      modifies this`nextFree, bitmap, mem
      ensures Valid()
      ensures Flat(M(), d) == if Shares(old(M()), kernelDir / PAGE_SIZE, d, PageOf(va) / ENTRIES)
                              then Flat(old(M()), d)[PageOf(va) := MappedEntry(pa, flags)] else Flat(old(M()), d)
      ensures SharesKernel(old(M()), d, Kernel()) ==>
                (SharesKernel(M(), d, Kernel()) <==>
                 PageOf(va) / ENTRIES >= USER_INDEX || HasTable(old(M()), kernelDir / PAGE_SIZE, PageOf(va) / ENTRIES) ||
                 old(Free()) == {})
    {
      hide WellFormed;
      hide MapEffect;
      hide Flat;
      hide Shares;
      hide SharesKernel;
      hide HasTable;
      ghost var m, free, next := M(), Free(), nextFree;
      DirsInside(m, dirs, free);
      MapPage(va, pa, flags);
      SharerSees(m, free, next, M(), Free(), nextFree, dirs, kernelDir / PAGE_SIZE, d, va, pa, flags);
      if SharesKernel(m, d, Kernel()) {
        SharingSurvives(m, free, next, M(), Free(), nextFree, dirs, kernelDir / PAGE_SIZE, d, va, pa, flags);
      }
    }

    method ClearBitmap()
      requires Shaped()
      modifies bitmap
      ensures Free() == FramesFrom(KERNEL_FRAMES)
    {
      for i := 0 to BITMAP_WORDS
        invariant forall k :: 0 <= k < i ==> bitmap[k] == 0
      {
        bitmap[i] := 0;
      }
      AllClear(bitmap[..]);
      for i := 0 to KERNEL_FRAMES
        invariant Free() == FramesFrom(i)
      {
        MarkFrame(bitmap[..], i, true);
        bitmap[i / 32] := PutBit(bitmap[i / 32], i % 32, true);
      }
    }

    method InitDirectory()
      requires Shaped()
      modifies this, bitmap, mem
      ensures Valid()
      ensures currentDir == kernelDir == KERNEL_FRAMES * PAGE_SIZE && dirs == {KERNEL_FRAMES}
      ensures Space() == Identity(0)
    {
      ClearBitmap();
      nextFree := KERNEL_FRAMES;
      assert Probe(nextFree, 0) == KERNEL_FRAMES && KERNEL_FRAMES in Free();
      var pdPhys := AllocFrame();
      kernelDir := pdPhys;
      ClearFrame(pdPhys / 4, KERNEL_FRAMES);
      currentDir := kernelDir;
      dirs := {KERNEL_FRAMES};
      assert forall i: nat :: i < ENTRIES ==> !HasTable(M(), KERNEL_FRAMES, i);
    }

    method MapIdentity(i: nat)
      requires Valid() && currentDir != 0 && i < 2048 && Space() == Identity(i)
      modifies this`nextFree, bitmap, mem
      ensures Valid() && Space() == Identity(i + 1)
    {
      ghost var s := Space();
      MapPage(i * PAGE_SIZE, i * PAGE_SIZE, 3);
      assert Space() == MapStep(s, i * PAGE_SIZE, i * PAGE_SIZE, 3);
      IdentityStep(i);
    }

    method Init()
      requires Shaped()
      modifies this, bitmap, mem
      ensures Valid()
      ensures currentDir == kernelDir == KERNEL_FRAMES * PAGE_SIZE && dirs == {KERNEL_FRAMES}
      ensures Space() == Identity(2048)
    {
      InitDirectory();
      for i := 0 to 2048
        invariant Valid() && dirs == {KERNEL_FRAMES}
        invariant currentDir == kernelDir == KERNEL_FRAMES * PAGE_SIZE
        invariant Space() == Identity(i)
      {
        MapIdentity(i);
      }
    }

    /** One operation in the current directory. */
    method RunOp(op: Op, ghost reserved: set<nat>)
      requires Valid() && currentDir != 0
      requires Covered(M(), dirs, currentDir / PAGE_SIZE, reserved)
      requires op.Unmap? ==> SafeStep(Space(), op.va, reserved)
      modifies this`nextFree, bitmap, mem
      ensures Valid()
      ensures Space() == Step(old(Space()), op)
      ensures Covered(M(), dirs, currentDir / PAGE_SIZE, reserved)
    {
      ghost var m, free, next, d := M(), Free(), nextFree, currentDir / PAGE_SIZE;
      match op {
        case Map(va, pa, flags) =>
          MapPage(va, pa, flags);
          MapKeepsCovered(m, free, next, M(), Free(), nextFree, dirs, d, va, pa, flags, reserved);
        case Unmap(va) =>
          UnmapPage(va);
          UnmapKeepsCovered(m, free, M(), Free(), nextFree, dirs, d, va, reserved);
      }
    }

    /** Any run of mappings and unmappings in the current directory refines the run
        of the abstract address space, as long as no unmapping gives back a frame of
        the paging structure. */
    method RunOps(ops: seq<Op>, ghost reserved: set<nat>)
      requires Valid() && currentDir != 0
      requires Covered(M(), dirs, currentDir / PAGE_SIZE, reserved)
      requires Safe(Space(), ops, reserved)
      modifies this`nextFree, bitmap, mem
      ensures Valid()
      ensures Space() == Run(old(Space()), ops)
      ensures Space().pages == FlatRun(old(Space()).pages, ops) <==> NothingLost(old(Space()), ops)
    {
      hide Flat;
      hide Tables;
      ghost var s := Space();
      SpaceIsTabled(M(), dirs, Free(), currentDir / PAGE_SIZE, nextFree);
      for k := 0 to |ops|
        invariant Valid()
        invariant Space() == Run(s, ops[..k])
        invariant Covered(M(), dirs, currentDir / PAGE_SIZE, reserved)
      {
        assert ops[..k + 1][..k] == ops[..k];
        RunOp(ops[k], reserved);
      }
      assert ops[..|ops|] == ops;
      RunIsFlatExactly(s, ops);
    }

    /** From boot on, every such run leaves exactly the translations of a plain page
        map that starts as the identity on the first 8 MB. */
    method BootAndRun(ops: seq<Op>)
      requires Shaped() && Safe(Identity(2048), ops, {1024, 1025, 1026})
      modifies this, bitmap, mem
      ensures Valid() && currentDir != 0
      ensures Space().pages == FlatRun(Identity(2048).pages, ops)
    {
      Init();
      OnlyDirectoryCovered(M(), KERNEL_FRAMES, {1024, 1025, 1026});
      RunOps(ops, {1024, 1025, 1026});
      BootIsRoomy();
      RunIsFlat(Identity(2048), ops);
    }

    /** So after any such run an address translates to the physical address of the last
        mapping of its page, with the offset in the page. */
    method BootRunTranslate(ops: seq<Op>, va: Word) returns (pa: Word)
      requires Shaped() && Safe(Identity(2048), ops, {1024, 1025, 1026})
      modifies this, bitmap, mem
      ensures Valid() && pa == Expected(ops, va)
    {
      hide Flat;
      hide Tables;
      hide FlatRun;
      hide Expected;
      BootAndRun(ops);
      pa := GetPhysical(va);
      ExpectedIs(ops, va);
    }

    /** The condition on unmapping is not met by every run from boot: page 1024 is
        identity-mapped onto the frame of the kernel page directory itself. */
    method BootThenUnmapDirectory()
      requires Shaped()
      modifies this, bitmap, mem
      ensures Shaped() && !Valid() && kernelDir / PAGE_SIZE in Free()
    {
      Init();
      assert Space().pages[1024] == MakeEntry(1024, 3);
      assert Structural(M(), dirs, 1024);
      UnmapPage(1024 * PAGE_SIZE);
      assert Space().free == Identity(2048).free + {1024};
    }

    /** New directories until the frames are used up; the current one keeps its pages. */
    method UseUpFrames()
      requires Valid() && currentDir != 0
      modifies this`nextFree, this`dirs, bitmap, mem
      ensures Valid() && Free() == {}
      ensures Space().pages == old(Space()).pages && Space().tables == old(Space()).tables
    {
      hide WellFormed;
      hide Flat;
      hide Tables;
      hide DirectoryMade;
      var full := false;
      while !full
        invariant Valid() && currentDir == old(currentDir)
        invariant Space().pages == old(Space()).pages && Space().tables == old(Space()).tables
        invariant full ==> Free() == {}
        decreases if full then 0 else 1 + |Free()|
      {
        ghost var m, free, dirs0 := M(), Free(), dirs;
        var dir := CreateDirectory();
        full := dir == 0;
        if !full {
          DirectoryPreserves(m, M(), dirs0, free, dir / PAGE_SIZE, Kernel(), currentDir / PAGE_SIZE);
        }
      }
    }

    /** Mappings do get lost in a run from boot: directories use up the frames, and a
        mapping that needs a new table then changes nothing. */
    method BootThenLoseMapping(va: Word, pa: Word, flags: Word)
      requires Shaped() && PageOf(va) / ENTRIES >= 2
      modifies this, bitmap, mem
      ensures Valid() && Free() == {} && currentDir == kernelDir != 0
      ensures Space().pages == Identity(2048).pages && PageOf(va) !in Space().pages
    {
      hide WellFormed;
      hide Flat;
      hide Tables;
      Init();
      UseUpFrames();
      NextFitIsFirstFree(Free(), nextFree);
      assert !Served(Space(), va);
      MapPage(va, pa, flags);
    }
  }

  /** The tables of another directory do not change, and the kernel's grow by the one made. */
  lemma SharingSurvives(m: Memory, free: set<nat>, next: nat, m': Memory, free': set<nat>, next': nat,
                        dirs: set<nat>, k: nat, d: nat, va: Word, pa: Word, flags: Word)
    requires WellFormed(m, dirs, free) && k in dirs && d in dirs && d != k && next < MAX_FRAMES
    requires (forall f :: f in free ==> f < MAX_FRAMES) && SharesKernel(m, d, Some(k))
    requires MapEffect(m, free, next, m', free', next', dirs, k, va, pa, flags)
    ensures SharesKernel(m', d, Some(k)) <==>
            PageOf(va) / ENTRIES >= USER_INDEX || HasTable(m, k, PageOf(va) / ENTRIES) || free == {}
  {
    hide Tables;
    hide HasTable;
    hide TableOf;
    hide WellFormed;
    hide Flat;
    hide Probe;
    hide NextFit;
    hide ContentsKept;
    var i := PageOf(va) / ENTRIES;
    NextFitIsFirstFree(free, next);
    DirsInside(m, dirs, free);
    TablesTell(m, k);
    TablesTell(m', k);
    TablesTell(m, d);
    TablesTell(m', d);
    assert Tables(m', d) == Tables(m, d);
    assert Tables(m', k) == if HasTable(m, k, i) || free == {} then Tables(m, k)
                            else Tables(m, k)[i := NextFit(free, next).value];
    if i < USER_INDEX && !HasTable(m, k, i) && free != {} {
      assert HasTable(m', k, i) && !HasTable(m', d, i);
    } else {
      forall j: nat | j < USER_INDEX
        ensures if HasTable(m', k, j) then Shares(m', k, d, j) else !HasTable(m', d, j)
      {
        assert HasTable(m', k, j) == HasTable(m, k, j) && HasTable(m', d, j) == HasTable(m, d, j);
      }
    }
  }

  lemma SharerSees(m: Memory, free: set<nat>, next: nat, m': Memory, free': set<nat>, next': nat,
                   dirs: set<nat>, k: nat, d: nat, va: Word, pa: Word, flags: Word)
    requires (forall d' :: d' in dirs ==> d' < PHYS_FRAMES) && k in dirs && d in dirs && d != k
    requires MapEffect(m, free, next, m', free', next', dirs, k, va, pa, flags)
    ensures Flat(m', d) == if Shares(m, k, d, PageOf(va) / ENTRIES)
                           then Flat(m, d)[PageOf(va) := MappedEntry(pa, flags)] else Flat(m, d)
  {
    hide Flat;
    hide Shares;
    hide WellFormed;
    hide MapStep;
  }

  lemma TablesTell(m: Memory, d: nat)
    requires d < PHYS_FRAMES
    ensures forall i: nat {:trigger HasTable(m, d, i)} :: i < ENTRIES ==>
              (HasTable(m, d, i) <==> i in Tables(m, d)) && (HasTable(m, d, i) ==> TableOf(m, d, i) == Tables(m, d)[i])
  {
  }

  lemma DirectoryPreserves(m: Memory, m': Memory, dirs: set<nat>, free: set<nat>, f: nat, kernel: Option<nat>, d: nat)
    requires WellFormed(m, dirs, free) && d in dirs
    requires f in free && f < MAX_FRAMES && (kernel.Some? ==> kernel.value in dirs)
    requires DirectoryMade(m, m', f, kernel)
    ensures d < PHYS_FRAMES && Flat(m', d) == Flat(m, d) && Tables(m', d) == Tables(m, d) && |free - {f}| < |free|
  {
    AddDirectory(m, m', dirs, free, f, kernel);
    assert |free - {f}| < |free|;
  }
}
