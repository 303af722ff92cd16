/** Loading an ELF executable: the loader on top of the table of open files, and the
    memory image that the program headers describe. */
module Elf {
  import opened Options
  import opened Words
  import opened Descriptors

  const HEADER: nat := 52
  const PROGRAM_HEADER: nat := 32
  const PT_LOAD: Word := 1

  // ----- the file format

  /** Little-endian numbers in the bytes of a file. */
  function Half(b: seq<Byte>, i: nat): (w: nat)
    requires i + 2 <= |b|
    ensures w < 0x1_0000
  {
    var low: nat, high: nat := b[i], b[i + 1];
    low + 0x100 * high
  }

  function Long(b: seq<Byte>, i: nat): (w: Word)
    requires i + 4 <= |b|
  {
    Half(b, i) + 0x1_0000 * Half(b, i + 2)
  }

  /** What the loader uses of the file header. */
  datatype Header = Header(entry: Word, phoff: Word, phentsize: nat, phnum: nat)

  function HeaderOf(b: seq<Byte>): (h: Header)
    requires |b| == HEADER
    ensures h.phentsize < 0x1_0000 && h.phnum < 0x1_0000
  {
    Header(Long(b, 24), Long(b, 28), Half(b, 42), Half(b, 44))
  }

  /** A 32-bit little-endian executable for x86. */
  predicate Validate(b: seq<Byte>)
    requires |b| == HEADER
  {
    b[..6] == [0x7F, 0x45, 0x4C, 0x46, 1, 1] && Half(b, 16) == 2 && Half(b, 18) == 3
  }

  /** Where a program header lies in the file. */
  function HeaderOffset(h: Header, i: nat): (at: nat) { h.phoff + i * h.phentsize }

  datatype Segment = Segment(kind: Word, offset: Word, vaddr: Word, filesz: Word, memsz: Word)

  function SegmentOf(b: seq<Byte>): (s: Segment)
    requires |b| == PROGRAM_HEADER
  {
    Segment(Long(b, 0), Long(b, 4), Long(b, 8), Long(b, 16), Long(b, 20))
  }

  // ----- memory

  /** How far an address lies behind another, on 32 bits. */
  function Distance(a: Word, base: Word): (k: Word) { if a >= base then a - base else a + WRAP - base }

  /** A store: bytes at an address, then zeros. */
  datatype Effect = Effect(base: Word, bytes: seq<Byte>, zeros: nat)

  /** The byte at an address after a store over a byte. */
  function Put(e: Effect, a: Word, under: Byte): (b: Byte) {
    var k := Distance(a, e.base);
    if k < |e.bytes| then e.bytes[k] else if k < |e.bytes| + e.zeros then 0 else under
  }

  /** The byte at an address after a sequence of stores. */
  ghost function Stored(before: seq<Byte>, effects: seq<Effect>, a: Word): (b: Byte)
    requires |before| == WRAP
  {
    if effects == [] then before[a]
    else Put(effects[|effects| - 1], a, Stored(before, effects[..|effects| - 1], a))
  }

  lemma StoredSnoc(before: seq<Byte>, effects: seq<Effect>, e: Effect, a: Word)
    requires |before| == WRAP
    ensures Stored(before, effects + [e], a) == Put(e, a, Stored(before, effects, a))
  {
    assert (effects + [e])[..|effects|] == effects;
  }

  ghost predicate StoredAll(before: seq<Byte>, effects: seq<Effect>, after: seq<Byte>)
    requires |before| == |after| == WRAP
  {
    forall a: Word :: after[a] == Stored(before, effects, a)
  }

  // ----- the image

  /** The segments to load among the first `n` program headers, in order. */
  ghost function LoadSegments(data: Contents, h: Header, n: nat): (segs: seq<Segment>) {
    if n == 0 then []
    else
      var s := SegmentAt(data, HeaderOffset(h, n - 1));
      if s.kind == PT_LOAD then LoadSegments(data, h, n - 1) + [s] else LoadSegments(data, h, n - 1)
  }

  function SegmentAt(data: Contents, at: nat): (s: Segment) {
    if at + PROGRAM_HEADER <= |data| then SegmentOf(data[at..at + PROGRAM_HEADER]) else Segment(0, 0, 0, 0, 0)
  }

  /** The image: the last segment that covers an address decides, with a byte of the file
      or, behind the segment's part of the file, zero. */
  ghost function Image(before: seq<Byte>, data: Contents, segs: seq<Segment>, a: Word): (b: Byte)
    requires |before| == WRAP
  {
    if segs == [] then before[a]
    else
      var s := segs[|segs| - 1];
      var k := Distance(a, s.vaddr);
      if k >= s.memsz then Image(before, data, segs[..|segs| - 1], a)
      else if k < s.filesz && s.offset + k < |data| then data[s.offset + k]
      else 0
  }

  /** A segment at address 0 with bytes in the file: the loader takes its address for a
      missing buffer. */
  predicate AtNull(s: Segment) { s.vaddr == 0 && s.filesz > 0 }

  ghost function WithoutNull(segs: seq<Segment>): (r: seq<Segment>) {
    if segs == [] then []
    else
      var rest, s := WithoutNull(segs[..|segs| - 1]), segs[|segs| - 1];
      if AtNull(s) then rest else rest + [s]
  }

  /** A program header and its segment lie inside the file, and the segment is no shorter
      in memory than in the file. */
  ghost predicate HeaderInside(data: Contents, at: nat) {
    at + PROGRAM_HEADER <= |data| && SegmentInside(data, SegmentAt(data, at))
  }

  ghost predicate HeadersInside(data: Contents, h: Header) {
    forall i: nat :: i < h.phnum ==> HeaderInside(data, HeaderOffset(h, i))
  }

  ghost predicate WellFormed(data: Contents) {
    HEADER <= |data| && Validate(data[..HEADER]) && HeadersInside(data, HeaderOf(data[..HEADER]))
  }

  /** A program header, and the bytes of its segment if it has any, begin below 2^31, where a
      seek can go. */
  ghost predicate HeaderSeekable(data: Contents, at: nat) {
    at < SIGN && SegmentSeekable(SegmentAt(data, at))
  }

  predicate SegmentSeekable(s: Segment) { s.kind == PT_LOAD && s.filesz > 0 ==> s.offset < SIGN }

  ghost predicate Seekable(data: Contents, h: Header) {
    forall i: nat :: i < h.phnum ==> HeaderSeekable(data, HeaderOffset(h, i))
  }

  predicate SegmentInside(data: Contents, s: Segment) {
    s.kind == PT_LOAD ==> s.offset + s.filesz <= |data| && s.filesz <= s.memsz
  }

  // ----- what the loader does, one program header at a time

  /** A seek to an absolute offset fails from 2^31 on and then leaves the position. */
  function Sought(position: Word, target: Word): (p: Word) { if target < SIGN then target else position }

  /** The position, the stores so far, and whether a read ran past the end of the file. */
  datatype Progress = Progress(position: Word, effects: seq<Effect>, overrun: bool)

  function LoadSegment(data: Contents, p: Progress, s: Segment): (r: Progress) {
    var position := Sought(p.position, s.offset);
    if s.filesz == 0 then Progress(position, p.effects + [Effect(s.vaddr, [], s.memsz)], p.overrun)
    else if s.vaddr == 0 then Progress(position, p.effects, p.overrun)
    else if position < |data| && position + s.filesz >= WRAP then Progress(position, p.effects, true)
    else
      var bytes := Piece(data, position, s.filesz);
      var zeros := if |bytes| == s.filesz && s.memsz > s.filesz then s.memsz - s.filesz else 0;
      Progress(Advanced(position, AsInt(|bytes|)), p.effects + [Effect(s.vaddr, bytes, zeros)], p.overrun)
  }

  function LoadHeader(data: Contents, p: Progress, at: Word): (r: Progress) {
    var position := Sought(p.position, at);
    var bytes := Piece(data, position, PROGRAM_HEADER);
    var behind := p.(position := Behind(position, PROGRAM_HEADER, |data|));
    if position < |data| && position + PROGRAM_HEADER >= WRAP then p.(overrun := true)
    else if |bytes| != PROGRAM_HEADER || SegmentOf(bytes).kind != PT_LOAD then behind
    else LoadSegment(data, behind, SegmentOf(bytes))
  }

  /** The first `n` program headers. */
  ghost function LoadHeaders(data: Contents, h: Header, n: nat): (p: Progress) {
    if n == 0 then Progress(HEADER, [], false)
    else LoadHeader(data, LoadHeaders(data, h, n - 1), HeaderOffset(h, n - 1) % WRAP)
  }

  /** The loader accepts the file. */
  predicate Accepted(node: Node) {
    !node.isDirectory && node.readable && |node.data| >= HEADER && Validate(node.data[..HEADER])
  }

  // ----- stores

  lemma StoreMore(before: seq<Byte>, effects: seq<Effect>, middle: seq<Byte>, e: Effect, after: seq<Byte>)
    requires |before| == |middle| == |after| == WRAP
    requires StoredAll(before, effects, middle) && StoredAll(middle, [e], after)
    ensures StoredAll(before, effects + [e], after)
  {
    forall a: Word
      ensures after[a] == Stored(before, effects + [e], a)
    {
      StoredSnoc(before, effects, e, a);
      StoredOne(middle, e, a);
      assert after[a] == Stored(middle, [e], a) && middle[a] == Stored(before, effects, a);
    }
  }

  lemma NothingStored(before: seq<Byte>)
    requires |before| == WRAP
    ensures StoredAll(before, [], before)
  {
  }

  lemma StoredOne(before: seq<Byte>, e: Effect, a: Word)
    requires |before| == WRAP
    ensures Stored(before, [e], a) == Put(e, a, before[a])
  {
    assert [e][..0] == [];
  }

  /** Bytes and then zeros behind them are one store. */
  lemma StoreZerosBehind(before: seq<Byte>, base: Word, bytes: seq<Byte>, middle: seq<Byte>, n: Word, after: seq<Byte>)
    requires |before| == |middle| == |after| == WRAP && |bytes| + n < WRAP
    requires StoredAll(before, [Effect(base, bytes, 0)], middle)
    requires StoredAll(middle, [Effect(WrapAdd(base, |bytes|), [], n)], after)
    ensures StoredAll(before, [Effect(base, bytes, n)], after)
  {
    var e, z, both := Effect(base, bytes, 0), Effect(WrapAdd(base, |bytes|), [], n), Effect(base, bytes, n);
    forall a: Word
      ensures after[a] == Stored(before, [both], a)
    {
      StoredOne(before, e, a);
      StoredOne(before, both, a);
      StoredOne(middle, z, a);
      assert after[a] == Stored(middle, [z], a) && middle[a] == Stored(before, [e], a);
    }
  }

  // ----- the loader

  class Loader {
    const files: FileTable
    const mem: array<Byte>

    ghost predicate Valid()
      reads this, files, files.table, mem
    {
      files.Valid() && mem.Length == WRAP
    }

    constructor (files: FileTable, mem: array<Byte>)
      requires files.Valid() && mem.Length == WRAP
      ensures Valid() && this.files == files && this.mem == mem
    {
      this.files, this.mem := files, mem;
    }

    /** The table is `rest` but for `fd`, which has the file open for reading. */
    ghost predicate OpenAt(fd: int, node: Node, position: Word, rest: Table)
      reads this, files, files.table, mem
    {
      && Valid() && 0 <= fd < DESCRIPTORS && rest[fd] == FREE
      && files.table[..] == rest[fd := Descriptor(Some(node), position, 0)]
    }

    method SeekTo(fd: int, target: Word, ghost node: Node, ghost position: Word, ghost rest: Table)
      requires OpenAt(fd, node, position, rest)
      modifies files.table
      ensures OpenAt(fd, node, Sought(position, target), rest)
    {
      assert files.table[fd] == files.table[..][fd];
      var r := files.Seek(fd, AsInt(target), SEEK_SET);
      assert AsInt(target) % WRAP == target;
    }

    method ReadFile(fd: int, hasBuffer: bool, size: Word, ghost node: Node, ghost position: Word, ghost rest: Table)
      returns (r: int, o: Outcome)
      requires OpenAt(fd, node, position, rest)
      modifies files.table
      ensures o.Got? ==> |o.bytes| < WRAP
      ensures r == Returned(o)
      ensures OpenAt(fd, node, Advanced(position, r), rest)
      ensures o == if hasBuffer then ReadOf(Descriptor(Some(node), position, 0), size) else Failed
    {
      assert files.table[fd] == files.table[..][fd];
      r, o := files.Read(fd, hasBuffer, size);
    }

    method Copy(base: Word, bytes: seq<Byte>)
      requires mem.Length == WRAP && |bytes| < WRAP
      modifies mem
      ensures StoredAll(old(mem[..]), [Effect(base, bytes, 0)], mem[..])
    {
      ghost var before := mem[..];
      for k := 0 to |bytes|
        invariant forall a: Word :: mem[a] == if Distance(a, base) < k then bytes[Distance(a, base)] else before[a]
      {
        mem[WrapAdd(base, k)] := bytes[k];
      }
      assert [Effect(base, bytes, 0)][..0] == [];
    }

    method Clear(base: Word, n: Word)
      requires mem.Length == WRAP
      modifies mem
      ensures StoredAll(old(mem[..]), [Effect(base, [], n)], mem[..])
    {
      ghost var before := mem[..];
      for k := 0 to n
        invariant forall a: Word :: mem[a] == if Distance(a, base) < k then 0 else before[a]
      {
        mem[WrapAdd(base, k)] := 0;
      }
      assert [Effect(base, [], n)][..0] == [];
    }

    /** A segment's bytes of the file, then zeros when all of them were there. */
    method Place(s: Segment, bytes: seq<Byte>) returns (ghost e: Effect)
      requires mem.Length == WRAP && |bytes| <= s.filesz
      modifies mem
      ensures e == Effect(s.vaddr, bytes, if |bytes| == s.filesz && s.memsz > s.filesz then s.memsz - s.filesz else 0)
      ensures StoredAll(old(mem[..]), [e], mem[..])
    {
      Copy(s.vaddr, bytes);
      e := Effect(s.vaddr, bytes, 0);
      ghost var middle := mem[..];
      if |bytes| == s.filesz && s.memsz > s.filesz {
        Clear(WrapAdd(s.vaddr, s.filesz), s.memsz - s.filesz);
        e := Effect(s.vaddr, bytes, s.memsz - s.filesz);
        StoreZerosBehind(old(mem[..]), s.vaddr, bytes, middle, s.memsz - s.filesz, mem[..]);
      }
    }

    /** One segment: seek to its bytes, copy them and clear the rest. */
    method LoadOne(fd: int, s: Segment, ghost node: Node, ghost p: Progress, ghost before: seq<Byte>, ghost rest: Table)
      returns (overrun: bool)
      requires OpenAt(fd, node, p.position, rest) && !node.isDirectory && node.readable && !p.overrun
      requires |before| == WRAP && StoredAll(before, p.effects, mem[..])
      modifies files.table, mem
      ensures overrun == LoadSegment(node.data, p, s).overrun
      ensures !overrun ==> OpenAt(fd, node, LoadSegment(node.data, p, s).position, rest)
      ensures !overrun ==> StoredAll(before, LoadSegment(node.data, p, s).effects, mem[..])
    {
      hide StoredAll;
      hide Piece;
      hide ReadOf;
      ghost var middle := mem[..];
      SeekTo(fd, s.offset, node, p.position, rest);
      ghost var position := Sought(p.position, s.offset);
      ghost var e: Effect;
      if s.filesz == 0 {
        e := Place(s, []);
        StoreMore(before, p.effects, middle, e, mem[..]);
        return false;
      }
      ReadForm(Descriptor(Some(node), position, 0), s.filesz);
      var r, o := ReadFile(fd, s.vaddr != 0, s.filesz, node, position, rest);
      match o {
        case Failed =>
          return false;
        case Overrun(_) =>
          return true;
        case Got(bytes) =>
          PieceLength(node.data, position, s.filesz);
          e := Place(s, bytes);
          StoreMore(before, p.effects, middle, e, mem[..]);
          return false;
      }
    }

    /** One program header: seek to it, read it and load the segment if it is one to load. */
    method ReadHeader(fd: int, at: Word, ghost node: Node, ghost p: Progress, ghost before: seq<Byte>, ghost rest: Table)
      returns (overrun: bool)
      requires OpenAt(fd, node, p.position, rest) && !node.isDirectory && node.readable && !p.overrun
      requires |before| == WRAP && StoredAll(before, p.effects, mem[..])
      modifies files.table, mem
      ensures overrun == LoadHeader(node.data, p, at).overrun
      ensures !overrun ==> OpenAt(fd, node, LoadHeader(node.data, p, at).position, rest)
      ensures !overrun ==> StoredAll(before, LoadHeader(node.data, p, at).effects, mem[..])
    {
      hide StoredAll;
      hide Piece;
      hide ReadOf;
      hide LoadSegment;
      SeekTo(fd, at, node, p.position, rest);
      ghost var position := Sought(p.position, at);
      ReadForm(Descriptor(Some(node), position, 0), PROGRAM_HEADER);
      PieceLength(node.data, position, PROGRAM_HEADER);
      var r, o := ReadFile(fd, true, PROGRAM_HEADER, node, position, rest);
      if o.Overrun? {
        return true;
      }
      if r != PROGRAM_HEADER {
        return false;
      }
      var s := SegmentOf(o.bytes);
      if s.kind != PT_LOAD {
        return false;
      }
      overrun := LoadOne(fd, s, node, p.(position := Behind(position, PROGRAM_HEADER, |node.data|)), before, rest);
    }

    /** The file header; 0 bytes when it cannot be read or is not one of an executable. */
    method ReadStart(fd: int, ghost node: Node, ghost rest: Table) returns (b: seq<Byte>)
      requires OpenAt(fd, node, 0, rest)
      modifies files.table
      ensures exists position :: OpenAt(fd, node, position, rest)
      ensures b == if Accepted(node) then node.data[..HEADER] else []
      ensures Accepted(node) ==> OpenAt(fd, node, HEADER, rest)
    {
      assert 0 & O_WRONLY == 0;
      if !node.isDirectory && node.readable {
        ReadForm(Descriptor(Some(node), 0, 0), HEADER);
      }
      var r, o := ReadFile(fd, true, HEADER, node, 0, rest);
      if r != HEADER {
        return [];
      }
      if !Validate(o.bytes) {
        return [];
      }
      return o.bytes;
    }

    /** All program headers, in order. */
    method ReadHeaders(fd: int, h: Header, ghost node: Node, ghost rest: Table) returns (overrun: bool)
      requires OpenAt(fd, node, HEADER, rest) && !node.isDirectory && node.readable
      modifies files.table, mem
      ensures overrun == LoadHeaders(node.data, h, h.phnum).overrun
      ensures !overrun ==> OpenAt(fd, node, LoadHeaders(node.data, h, h.phnum).position, rest)
      ensures !overrun ==> StoredAll(old(mem[..]), LoadHeaders(node.data, h, h.phnum).effects, mem[..])
    {
      hide LoadHeader;
      hide StoredAll;
      ghost var before := mem[..];
      NothingStored(before);
      overrun := false;
      for i := 0 to h.phnum
        invariant !overrun && !LoadHeaders(node.data, h, i).overrun
        invariant OpenAt(fd, node, LoadHeaders(node.data, h, i).position, rest)
        invariant StoredAll(before, LoadHeaders(node.data, h, i).effects, mem[..])
      {
        overrun := ReadHeader(fd, HeaderOffset(h, i) % WRAP, node, LoadHeaders(node.data, h, i), before, rest);
        if overrun {
          OverrunStays(node.data, h, i + 1, h.phnum);
          return true;
        }
      }
    }

    method CloseFile(fd: int, ghost node: Node, ghost position: Word, ghost rest: Table)
      requires OpenAt(fd, node, position, rest)
      modifies files.table
      ensures Valid() && files.table[..] == rest
    {
      assert files.table[fd] == files.table[..][fd];
      var _ := files.Close(fd);
    }

    /** `node` is what the path resolved to. The result is 0 for a file that is not
        loaded. */
    method Load(node: Option<Node>) returns (entry: Word, overrun: bool)
      requires Valid()
      modifies files.table, mem
      ensures !overrun ==> Valid() && files.table[..] == old(files.table[..])
      ensures var loaded := node.Some? && Accepted(node.value) && FirstFree(old(files.table[..]), FIRST).Some?;
              if !loaded then entry == 0 && !overrun && mem[..] == old(mem[..])
              else
                var h := HeaderOf(node.value.data[..HEADER]);
                var p := LoadHeaders(node.value.data, h, h.phnum);
                && overrun == p.overrun
                && (!overrun ==> entry == h.entry && StoredAll(old(mem[..]), p.effects, mem[..]))
    {
      hide LoadHeaders;
      hide HeaderOf;
      hide Validate;
      hide StoredAll;
      ghost var rest := files.table[..];
      var fd := files.Open(node, 0);
      if fd < 0 {
        return 0, false;
      }
      var b := ReadStart(fd, node.value, rest);
      if b == [] {
        ghost var position :| OpenAt(fd, node.value, position, rest);
        CloseFile(fd, node.value, position, rest);
        return 0, false;
      }
      var h := HeaderOf(b);
      overrun := ReadHeaders(fd, h, node.value, rest);
      if overrun {
        return 0, true;
      }
      CloseFile(fd, node.value, LoadHeaders(node.value.data, h, h.phnum).position, rest);
      entry := h.entry;
    }

    /** A well-formed executable: the entry point is returned, the table of open files is
        as before, and memory holds the image of the segments. */
    method LoadWellFormed(node: Node) returns (entry: Word)
      requires Valid() && !node.isDirectory && node.readable && WellFormed(node.data)
      requires Seekable(node.data, HeaderOf(node.data[..HEADER]))
      requires FirstFree(files.table[..], FIRST).Some?
      modifies files.table, mem
      ensures Valid() && files.table[..] == old(files.table[..])
      ensures entry == HeaderOf(node.data[..HEADER]).entry
      ensures var h := HeaderOf(node.data[..HEADER]); var segs := LoadSegments(node.data, h, h.phnum);
              && IsImage(old(mem[..]), node.data, WithoutNull(segs), mem[..])
              && ((forall s :: s in segs ==> !AtNull(s)) ==> IsImage(old(mem[..]), node.data, segs, mem[..]))
    {
      hide Validate;
      hide Image;
      hide LoadHeaders;
      hide HeadersInside;
      ghost var h := HeaderOf(node.data[..HEADER]);
      ghost var segs := LoadSegments(node.data, h, h.phnum);
      NoOverrun(node.data);
      var overrun;
      entry, overrun := Load(Some(node));
      LoadsImage(node.data, old(mem[..]), mem[..]);
      if forall s :: s in segs ==> !AtNull(s) {
        NothingAtNull(segs);
      }
    }
  }

  lemma NoOverrun(data: Contents)
    requires WellFormed(data) && Seekable(data, HeaderOf(data[..HEADER]))
    ensures var h := HeaderOf(data[..HEADER]); !LoadHeaders(data, h, h.phnum).overrun
  {
    HeadersLoaded(data, HeaderOf(data[..HEADER]), HeaderOf(data[..HEADER]).phnum, seq(WRAP, _ => 0), 0);
  }

  lemma {:induction false} OverrunStays(data: Contents, h: Header, i: nat, n: nat)
    requires i <= n && LoadHeaders(data, h, i).overrun
    ensures LoadHeaders(data, h, n).overrun
    decreases n
  {
    if i < n {
      hide LoadHeader;
      hide HeaderOffset;
      OverrunStays(data, h, i, n - 1);
      OverrunKept(data, LoadHeaders(data, h, n - 1), HeaderOffset(h, n - 1) % WRAP);
    }
  }

  lemma OverrunKept(data: Contents, p: Progress, at: Word)
    requires p.overrun
    ensures LoadHeader(data, p, at).overrun
  {
    hide Piece;
    hide SegmentOf;
    PieceLength(data, Sought(p.position, at), PROGRAM_HEADER);
  }

  lemma PieceLength(data: Contents, position: Word, n: Word)
    ensures |Piece(data, position, n)| == Min(n, Left(position, |data|))
  {
  }

  // ----- well-formed files

  ghost function SegmentEffect(data: Contents, s: Segment): (e: Effect)
    requires SegmentInside(data, s) && s.kind == PT_LOAD
  {
    Effect(s.vaddr, data[s.offset..s.offset + s.filesz], s.memsz - s.filesz)
  }

  lemma SegmentLoaded(data: Contents, p: Progress, s: Segment)
    requires s.kind == PT_LOAD && SegmentInside(data, s) && SegmentSeekable(s)
    ensures LoadSegment(data, p, s).overrun == p.overrun
    ensures LoadSegment(data, p, s).effects == if AtNull(s) then p.effects else p.effects + [SegmentEffect(data, s)]
  {
    if s.filesz > 0 {
      assert Piece(data, s.offset, s.filesz) == data[s.offset..s.offset + s.filesz];
    } else {
      assert data[s.offset..s.offset + s.filesz] == [];
    }
  }

  lemma HeaderLoaded(data: Contents, p: Progress, at: Word)
    requires HeaderInside(data, at) && HeaderSeekable(data, at)
    ensures LoadHeader(data, p, at).overrun == p.overrun
    ensures var s := SegmentAt(data, at);
            LoadHeader(data, p, at).effects ==
            if s.kind != PT_LOAD || AtNull(s) then p.effects else p.effects + [SegmentEffect(data, s)]
  {
    hide LoadSegment;
    hide SegmentOf;
    assert Piece(data, at, PROGRAM_HEADER) == data[at..at + PROGRAM_HEADER];
    var s := SegmentAt(data, at);
    if s.kind == PT_LOAD {
      SegmentLoaded(data, p.(position := Behind(at, PROGRAM_HEADER, |data|)), s);
    }
  }

  /** A segment from 2^31 on is not sought: the bytes read are those where the loader stands. */
  lemma FarSegmentMisread(data: Contents, p: Progress, s: Segment)
    requires s.kind == PT_LOAD && !SegmentSeekable(s) && s.vaddr != 0 && p.position + s.filesz < WRAP
    ensures exists zeros :: LoadSegment(data, p, s).effects ==
              p.effects + [Effect(s.vaddr, Piece(data, p.position, s.filesz), zeros)]
  {
  }

  /** So it is with a program header: the one read is where the loader stands. */
  lemma FarHeaderMisread(data: Contents, p: Progress, at: Word)
    requires at >= SIGN && p.position < SIGN
    ensures LoadHeader(data, p, at) == LoadHeader(data, p, p.position)
  {
  }

  lemma ImageSnoc(before: seq<Byte>, data: Contents, segs: seq<Segment>, s: Segment, a: Word)
    requires |before| == WRAP && SegmentInside(data, s) && s.kind == PT_LOAD
    ensures Image(before, data, segs + [s], a) == Put(SegmentEffect(data, s), a, Image(before, data, segs, a))
  {
    assert (segs + [s])[..|segs|] == segs;
  }

  lemma WithoutNullSnoc(segs: seq<Segment>, s: Segment)
    ensures WithoutNull(segs + [s]) == if AtNull(s) then WithoutNull(segs) else WithoutNull(segs) + [s]
  {
    assert (segs + [s])[..|segs|] == segs;
  }

  lemma {:induction false} HeadersLoaded(data: Contents, h: Header, n: nat, before: seq<Byte>, a: Word)
    requires HeadersInside(data, h) && Seekable(data, h) && n <= h.phnum && |before| == WRAP
    ensures !LoadHeaders(data, h, n).overrun
    ensures Stored(before, LoadHeaders(data, h, n).effects, a) == Image(before, data, WithoutNull(LoadSegments(data, h, n)), a)
    decreases n
  {
    hide LoadHeader;
    hide HeaderOffset;
    hide SegmentAt;
    hide Put;
    hide SegmentInside;
    if n > 0 {
      var at := HeaderOffset(h, n - 1);
      assert HeaderInside(data, at) && HeaderSeekable(data, at);
      var p, s, segs := LoadHeaders(data, h, n - 1), SegmentAt(data, at), LoadSegments(data, h, n - 1);
      HeadersLoaded(data, h, n - 1, before, a);
      HeaderLoaded(data, p, at);
      if s.kind == PT_LOAD {
        WithoutNullSnoc(segs, s);
        if !AtNull(s) {
          ImageSnoc(before, data, WithoutNull(segs), s, a);
          StoredSnoc(before, p.effects, SegmentEffect(data, s), a);
        }
      }
    }
  }

  ghost predicate IsImage(before: seq<Byte>, data: Contents, segs: seq<Segment>, after: seq<Byte>)
    requires |before| == |after| == WRAP
  {
    forall a: Word :: after[a] == Image(before, data, segs, a)
  }

  /** The memory after loading a well-formed file is the image of its segments, those at
      address 0 left out. */
  lemma LoadsImage(data: Contents, before: seq<Byte>, after: seq<Byte>)
    requires WellFormed(data) && Seekable(data, HeaderOf(data[..HEADER])) && |before| == |after| == WRAP
    requires var h := HeaderOf(data[..HEADER]); StoredAll(before, LoadHeaders(data, h, h.phnum).effects, after)
    ensures var h := HeaderOf(data[..HEADER]);
            IsImage(before, data, WithoutNull(LoadSegments(data, h, h.phnum)), after)
  {
    var h := HeaderOf(data[..HEADER]);
    forall a: Word
      ensures after[a] == Image(before, data, WithoutNull(LoadSegments(data, h, h.phnum)), a)
    {
      HeadersLoaded(data, h, h.phnum, before, a);
    }
  }

  lemma {:induction false} NothingAtNull(segs: seq<Segment>)
    requires forall s :: s in segs ==> !AtNull(s)
    ensures WithoutNull(segs) == segs
  {
    if segs != [] {
      var init := segs[..|segs| - 1];
      NothingAtNull(init);
      assert segs == init + [segs[|segs| - 1]];
    }
  }

  /** Outside every segment nothing changes. */
  lemma {:induction false} OutsideUnchanged(before: seq<Byte>, data: Contents, segs: seq<Segment>, a: Word)
    requires |before| == WRAP && forall s :: s in segs ==> Distance(a, s.vaddr) >= s.memsz
    ensures Image(before, data, segs, a) == before[a]
  {
    if segs != [] {
      OutsideUnchanged(before, data, segs[..|segs| - 1], a);
    }
  }

  /** A segment at address 0 is lost: memory keeps its bytes where the image has those of
      the file. */
  lemma NullSegmentLost(before: seq<Byte>, data: Contents, s: Segment)
    requires |before| == WRAP && AtNull(s) && SegmentInside(data, s) && s.kind == PT_LOAD
    ensures forall a: Word :: Image(before, data, WithoutNull([s]), a) == before[a]
    ensures Image(before, data, [s], 0) == data[s.offset]
  {
    assert [s][..0] == [];
  }

  // ----- a file with such a segment

  const NULL_START: seq<Byte> := [0x7F, 0x45, 0x4C, 0x46, 1, 1, 0, 0, 0, 0, 0, 0, 0, 0, 0, 0]
  const NULL_MIDDLE: seq<Byte> := [2, 0, 3, 0, 1, 0, 0, 0, 16, 0, 0, 0, 52, 0, 0, 0]
  const NULL_END: seq<Byte> := [0, 0, 0, 0, 0, 0, 0, 0, 52, 0, 32, 0, 1, 0, 0, 0, 0, 0, 0, 0]
  const NULL_SEGMENT: seq<Byte> := [1, 0, 0, 0, 84, 0, 0, 0, 0, 0, 0, 0, 0, 0, 0, 0] + [1, 0, 0, 0, 1, 0, 0, 0, 7, 0, 0, 0, 1, 0, 0, 0]

  /** An executable of one segment: the byte 0x55, to be loaded at address 0. */
  const NULL_FILE: Contents := NULL_START + NULL_MIDDLE + NULL_END + NULL_SEGMENT + [0x55]

  lemma NullFileHeader()
    ensures |NULL_FILE| == 85 && Validate(NULL_FILE[..HEADER]) && HeaderOf(NULL_FILE[..HEADER]) == Header(16, 52, 32, 1)
  {
    var b := NULL_FILE[..HEADER];
    assert b == NULL_START + NULL_MIDDLE + NULL_END;
    assert b[..6] == NULL_START[..6];
    assert b[16] == NULL_MIDDLE[0] && b[17] == NULL_MIDDLE[1] && b[18] == NULL_MIDDLE[2] && b[19] == NULL_MIDDLE[3];
    assert b[24] == NULL_MIDDLE[8] && b[25] == NULL_MIDDLE[9] && b[26] == NULL_MIDDLE[10] && b[27] == NULL_MIDDLE[11];
    assert b[28] == NULL_MIDDLE[12] && b[29] == NULL_MIDDLE[13] && b[30] == NULL_MIDDLE[14] && b[31] == NULL_MIDDLE[15];
    assert b[42] == NULL_END[10] && b[43] == NULL_END[11] && b[44] == NULL_END[12] && b[45] == NULL_END[13];
  }

  lemma NullFileSegment()
    ensures |NULL_FILE| == 85 && SegmentAt(NULL_FILE, 52) == Segment(PT_LOAD, 84, 0, 1, 1) && NULL_FILE[84] == 0x55
  {
    assert NULL_FILE[52..84] == NULL_SEGMENT;
  }

  lemma NullFileIsWellFormed()
    ensures WellFormed(NULL_FILE) && Seekable(NULL_FILE, HeaderOf(NULL_FILE[..HEADER]))
    ensures LoadSegments(NULL_FILE, HeaderOf(NULL_FILE[..HEADER]), 1) == [Segment(PT_LOAD, 84, 0, 1, 1)]
  {
    hide Validate;
    hide HeaderOf;
    hide SegmentAt;
    NullFileHeader();
    NullFileSegment();
    var h := Header(16, 52, 32, 1);
    assert HeaderOffset(h, 0) == 52;
    assert LoadSegments(NULL_FILE, h, 0) == [];
    assert [] + [Segment(PT_LOAD, 84, 0, 1, 1)] == [Segment(PT_LOAD, 84, 0, 1, 1)];
  }

  /** Loading it reports success and leaves memory as it was, while its image has the byte
      of the file at address 0. */
  method LoadNullFile(loader: Loader) returns (entry: Word)
    requires loader.Valid() && FirstFree(loader.files.table[..], FIRST).Some?
    modifies loader.files.table, loader.mem
    ensures entry == 16 && loader.Valid() && loader.mem[..] == old(loader.mem[..])
    ensures var h := HeaderOf(NULL_FILE[..HEADER]);
            Image(old(loader.mem[..]), NULL_FILE, LoadSegments(NULL_FILE, h, h.phnum), 0) == 0x55
  {
    hide Image;
    hide WithoutNull;
    hide WellFormed;
    hide Seekable;
    hide LoadSegments;
    hide HeaderOf;
    hide Validate;
    NullFileHeader();
    NullFileSegment();
    NullFileIsWellFormed();
    ghost var before := loader.mem[..];
    entry := loader.LoadWellFormed(Node(false, true, NULL_FILE));
    NullSegmentLost(before, NULL_FILE, Segment(PT_LOAD, 84, 0, 1, 1));
    assert loader.mem[..] == before;
  }
}
