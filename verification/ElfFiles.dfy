/** Executables as a linker writes them: headers put down field by field, little-endian,
    and what the loader makes of a file that holds them. */
module ElfFiles {
  import opened Options
  import opened Words
  import opened Descriptors
  import opened Elf

  type Short = n: nat | n < 0x1_0000

  // ----- numbers in bytes

  function PutHalf(n: Short): (b: seq<Byte>) { [n % 0x100, n / 0x100] }

  function PutLong(w: Word): (b: seq<Byte>) { [w % 0x100, w / 0x100 % 0x100, w / 0x1_0000 % 0x100, w / 0x100_0000] }

  function PutHalves(ns: seq<Short>): (b: seq<Byte>)
    ensures |b| == 2 * |ns|
  {
    if ns == [] then [] else PutHalf(ns[0]) + PutHalves(ns[1..])
  }

  function PutLongs(ws: seq<Word>): (b: seq<Byte>)
    ensures |b| == 4 * |ws|
  {
    if ws == [] then [] else PutLong(ws[0]) + PutLongs(ws[1..])
  }

  lemma HalfReadsBack(n: Short)
    ensures Half(PutHalf(n), 0) == n
  {
  }

  lemma LongDigits(w: Word)
    ensures w == w % 0x100 + 0x100 * (w / 0x100 % 0x100) + 0x1_0000 * (w / 0x1_0000 % 0x100) + 0x100_0000 * (w / 0x100_0000)
  {
    assert w / 0x1_0000 == w / 0x100 / 0x100;
    assert w / 0x100_0000 == w / 0x1_0000 / 0x100;
  }

  lemma LongReadsBack(w: Word)
    ensures Long(PutLong(w), 0) == w
  {
    LongDigits(w);
  }

  /** Reading looks at the bytes it names only. */
  lemma LongInside(a: seq<Byte>, b: seq<Byte>, c: seq<Byte>, i: nat)
    requires i + 4 <= |b|
    ensures Long(a + b + c, |a| + i) == Long(b, i)
  {
  }

  lemma HalfInside(a: seq<Byte>, b: seq<Byte>, c: seq<Byte>, i: nat)
    requires i + 2 <= |b|
    ensures Half(a + b + c, |a| + i) == Half(b, i)
  {
  }

  lemma {:induction false} LongsReadBack(ws: seq<Word>, k: nat)
    requires k < |ws|
    ensures Long(PutLongs(ws), 4 * k) == ws[k]
  {
    hide Long;
    var first, rest := PutLong(ws[0]), PutLongs(ws[1..]);
    if k == 0 {
      LongReadsBack(ws[0]);
      LongInside([], first, rest, 0);
      assert [] + first + rest == PutLongs(ws);
    } else {
      LongsReadBack(ws[1..], k - 1);
      LongInside(first, rest, [], 4 * (k - 1));
      assert first + rest + [] == PutLongs(ws);
    }
  }

  lemma {:induction false} HalvesReadBack(ns: seq<Short>, k: nat)
    requires k < |ns|
    ensures Half(PutHalves(ns), 2 * k) == ns[k]
  {
    hide Half;
    var first, rest := PutHalf(ns[0]), PutHalves(ns[1..]);
    if k == 0 {
      HalfReadsBack(ns[0]);
      HalfInside([], first, rest, 0);
      assert [] + first + rest == PutHalves(ns);
    } else {
      HalvesReadBack(ns[1..], k - 1);
      HalfInside(first, rest, [], 2 * (k - 1));
      assert first + rest + [] == PutHalves(ns);
    }
  }

  // ----- program headers

  datatype ProgramHeader = ProgramHeader(
    kind: Word, offset: Word, vaddr: Word, paddr: Word, filesz: Word, memsz: Word, flags: Word, align: Word)

  function WriteProgramHeader(p: ProgramHeader): (b: seq<Byte>)
    ensures |b| == 32
  {
    PutLongs([p.kind, p.offset, p.vaddr, p.paddr, p.filesz, p.memsz, p.flags, p.align])
  }

  /** What the loader keeps of a program header. */
  function Kept(p: ProgramHeader): (s: Segment) { Segment(p.kind, p.offset, p.vaddr, p.filesz, p.memsz) }

  /** The loader reads every field it uses where it was written. */
  lemma ProgramHeaderReadsBack(p: ProgramHeader)
    ensures SegmentOf(WriteProgramHeader(p)) == Kept(p)
  {
    hide PutLongs;
    hide Long;
    var ws := [p.kind, p.offset, p.vaddr, p.paddr, p.filesz, p.memsz, p.flags, p.align];
    LongsReadBack(ws, 0);
    LongsReadBack(ws, 1);
    LongsReadBack(ws, 2);
    LongsReadBack(ws, 4);
    LongsReadBack(ws, 5);
  }

  // ----- the file header

  /** The fields of a file header. `ident` is what follows the magic number, the class and
      the encoding. */
  datatype FileHeader = FileHeader(
    fileClass: Byte, encoding: Byte, ident: seq<Byte>, kind: Short, machine: Short, version: Word,
    entry: Word, phoff: Word, shoff: Word, flags: Word,
    ehsize: Short, phentsize: Short, phnum: Short, shentsize: Short, shnum: Short, shstrndx: Short)

  function Ident(f: FileHeader): (b: seq<Byte>) { [0x7F, 'E' as int, 'L' as int, 'F' as int, f.fileClass, f.encoding] + f.ident }

  function Longs(f: FileHeader): (ws: seq<Word>) { [f.version, f.entry, f.phoff, f.shoff, f.flags] }

  function Sizes(f: FileHeader): (ns: seq<Short>) { [f.ehsize, f.phentsize, f.phnum, f.shentsize, f.shnum, f.shstrndx] }

  function WriteHeader(f: FileHeader): (b: seq<Byte>)
    requires |f.ident| == 10
    ensures |b| == 52
  {
    Ident(f) + PutHalves([f.kind, f.machine]) + PutLongs(Longs(f)) + PutHalves(Sizes(f))
  }

  /** A 32-bit little-endian executable for x86. */
  predicate ForX86(f: FileHeader) { f.fileClass == 1 && f.encoding == 1 && f.kind == 2 && f.machine == 3 }

  lemma HeaderHalf(f: FileHeader, k: nat)
    requires |f.ident| == 10 && k < 2
    ensures Half(WriteHeader(f), 16 + 2 * k) == [f.kind, f.machine][k]
  {
    hide PutHalves;
    hide PutLongs;
    hide Half;
    HalvesReadBack([f.kind, f.machine], k);
    var rest := PutLongs(Longs(f)) + PutHalves(Sizes(f));
    HalfInside(Ident(f), PutHalves([f.kind, f.machine]), rest, 2 * k);
    assert WriteHeader(f) == Ident(f) + PutHalves([f.kind, f.machine]) + rest;
  }

  lemma HeaderLong(f: FileHeader, k: nat)
    requires |f.ident| == 10 && k < 5
    ensures Long(WriteHeader(f), 20 + 4 * k) == Longs(f)[k]
  {
    hide PutHalves;
    hide PutLongs;
    hide Long;
    LongsReadBack(Longs(f), k);
    LongInside(Ident(f) + PutHalves([f.kind, f.machine]), PutLongs(Longs(f)), PutHalves(Sizes(f)), 4 * k);
  }

  lemma HeaderSize(f: FileHeader, k: nat)
    requires |f.ident| == 10 && k < 6
    ensures Half(WriteHeader(f), 40 + 2 * k) == Sizes(f)[k]
  {
    hide PutHalves;
    hide PutLongs;
    hide Half;
    HalvesReadBack(Sizes(f), k);
    var before := Ident(f) + PutHalves([f.kind, f.machine]) + PutLongs(Longs(f));
    HalfInside(before, PutHalves(Sizes(f)), [], 2 * k);
    assert WriteHeader(f) == before + PutHalves(Sizes(f)) + [];
  }

  /** The loader reads the entry point and the place, size and number of the program
      headers where they were written. */
  lemma HeaderReadsBack(f: FileHeader)
    requires |f.ident| == 10
    ensures HeaderOf(WriteHeader(f)) == Header(f.entry, f.phoff, f.phentsize, f.phnum)
  {
    hide WriteHeader;
    HeaderLong(f, 1);
    HeaderLong(f, 2);
    HeaderSize(f, 1);
    HeaderSize(f, 2);
  }

  /** A written header is valid exactly for the right class, encoding, kind and machine. */
  lemma ValidIffForX86(f: FileHeader)
    requires |f.ident| == 10
    ensures Validate(WriteHeader(f)) <==> ForX86(f)
  {
    HeaderHalf(f, 0);
    HeaderHalf(f, 1);
    var b := WriteHeader(f);
    hide Half;
    hide PutHalves;
    hide PutLongs;
    assert b[..6] == Ident(f)[..6];
    var magic: seq<Byte> := [0x7F, 0x45, 0x4C, 0x46, 1, 1];
    assert b[..6][4] == f.fileClass && b[..6][5] == f.encoding;
    assert b[..6] == magic ==> f.fileClass == magic[4] && f.encoding == magic[5];
  }

  // ----- every header is a written one

  lemma PutHalfBack(b: seq<Byte>, i: nat)
    requires i + 2 <= |b|
    ensures PutHalf(Half(b, i)) == b[i..i + 2]
  {
  }

  lemma PutLongBack(b: seq<Byte>, i: nat)
    requires i + 4 <= |b|
    ensures PutLong(Long(b, i)) == b[i..i + 4]
  {
    var b0: nat, b1: nat, b2: nat, b3: nat := b[i], b[i + 1], b[i + 2], b[i + 3];
    DigitsOf(b0, b1, b2, b3);
  }

  lemma DigitsOf(b0: nat, b1: nat, b2: nat, b3: nat)
    requires b0 < 256 && b1 < 256 && b2 < 256 && b3 < 256
    ensures var w := b0 + 0x100 * b1 + 0x1_0000 * (b2 + 0x100 * b3);
            w % 0x100 == b0 && w / 0x100 % 0x100 == b1 && w / 0x1_0000 % 0x100 == b2 && w / 0x100_0000 == b3
  {
    var w := b0 + 0x100 * b1 + 0x1_0000 * (b2 + 0x100 * b3);
    assert w / 0x100 == b1 + 0x100 * (b2 + 0x100 * b3);
    assert w / 0x1_0000 == b2 + 0x100 * b3;
  }

  /** The numbers at every fourth byte, and at every second one. */
  function GetLongs(b: seq<Byte>, i: nat, n: nat): (ws: seq<Word>)
    requires i + 4 * n <= |b|
    ensures |ws| == n
    decreases n
  {
    if n == 0 then [] else [Long(b, i)] + GetLongs(b, i + 4, n - 1)
  }

  function GetHalves(b: seq<Byte>, i: nat, n: nat): (ns: seq<Short>)
    requires i + 2 * n <= |b|
    ensures |ns| == n
    decreases n
  {
    if n == 0 then [] else [Half(b, i)] + GetHalves(b, i + 2, n - 1)
  }

  lemma {:induction false} PutLongsBack(b: seq<Byte>, i: nat, n: nat)
    requires i + 4 * n <= |b|
    ensures PutLongs(GetLongs(b, i, n)) == b[i..i + 4 * n]
    decreases n
  {
    if n > 0 {
      hide PutLong;
      hide Long;
      PutLongBack(b, i);
      PutLongsBack(b, i + 4, n - 1);
      var ws := GetLongs(b, i, n);
      assert ws[1..] == GetLongs(b, i + 4, n - 1);
      assert b[i..i + 4 * n] == b[i..i + 4] + b[i + 4..i + 4 * n];
    }
  }

  lemma {:induction false} PutHalvesBack(b: seq<Byte>, i: nat, n: nat)
    requires i + 2 * n <= |b|
    ensures PutHalves(GetHalves(b, i, n)) == b[i..i + 2 * n]
    decreases n
  {
    if n > 0 {
      hide PutHalf;
      hide Half;
      PutHalfBack(b, i);
      PutHalvesBack(b, i + 2, n - 1);
      var ns := GetHalves(b, i, n);
      assert ns[1..] == GetHalves(b, i + 2, n - 1);
      assert b[i..i + 2 * n] == b[i..i + 2] + b[i + 2..i + 2 * n];
    }
  }

  /** The header whose bytes these are. */
  function Unwritten(b: seq<Byte>): (f: FileHeader)
    requires |b| == 52
  {
    var ks, ws, ns := GetHalves(b, 16, 2), GetLongs(b, 20, 5), GetHalves(b, 40, 6);
    FileHeader(b[4], b[5], b[6..16], ks[0], ks[1], ws[0], ws[1], ws[2], ws[3], ws[4],
               ns[0], ns[1], ns[2], ns[3], ns[4], ns[5])
  }

  lemma WrittenAgain(b: seq<Byte>)
    requires |b| == 52 && b[..4] == [0x7F, 'E' as int, 'L' as int, 'F' as int]
    ensures WriteHeader(Unwritten(b)) == b
  {
    hide PutHalves;
    hide PutLongs;
    hide GetHalves;
    hide GetLongs;
    var f := Unwritten(b);
    PutHalvesBack(b, 16, 2);
    PutLongsBack(b, 20, 5);
    PutHalvesBack(b, 40, 6);
    assert [f.kind, f.machine] == GetHalves(b, 16, 2);
    assert Longs(f) == GetLongs(b, 20, 5);
    assert Sizes(f) == GetHalves(b, 40, 6);
    assert Ident(f) == b[..4] + b[4..6] + b[6..16];
    assert b == Ident(f) + b[16..20] + b[20..40] + b[40..52];
  }

  /** The valid headers are exactly the written ones for x86. */
  lemma ValidExactly(b: seq<Byte>)
    requires |b| == 52
    ensures Validate(b) <==> exists f: FileHeader :: |f.ident| == 10 && ForX86(f) && b == WriteHeader(f)
  {
    hide WriteHeader;
    hide Half;
    if Validate(b) {
      var magic: seq<Byte> := [0x7F, 0x45, 0x4C, 0x46, 1, 1];
      assert b[..4] == b[..6][..4] == magic[..4];
      WrittenAgain(b);
      ValidIffForX86(Unwritten(b));
    }
    if f: FileHeader :| |f.ident| == 10 && ForX86(f) && b == WriteHeader(f) {
      ValidIffForX86(f);
    }
  }

  // ----- a file that holds them

  /** The file begins with the header and has the program headers where that says. */
  ghost predicate Holds(data: Contents, f: FileHeader, ps: seq<ProgramHeader>) {
    && |f.ident| == 10 && |ps| == f.phnum && 52 <= |data| && data[..52] == WriteHeader(f)
    && forall i :: 0 <= i < |ps| ==> HoldsAt(data, f.phoff + i * f.phentsize, ps[i])
  }

  ghost predicate HoldsAt(data: Contents, at: nat, p: ProgramHeader) {
    at + 32 <= |data| && data[at..at + 32] == WriteProgramHeader(p)
  }

  function WriteProgramHeaders(ps: seq<ProgramHeader>): (b: seq<Byte>)
    ensures |b| == 32 * |ps|
  {
    if ps == [] then [] else WriteProgramHeader(ps[0]) + WriteProgramHeaders(ps[1..])
  }

  /** The usual layout: the file header, the program headers and everything else. */
  function WriteFile(f: FileHeader, ps: seq<ProgramHeader>, body: seq<Byte>): (data: seq<Byte>)
    requires |f.ident| == 10
  {
    WriteHeader(f) + WriteProgramHeaders(ps) + body
  }

  lemma {:induction false} ProgramHeadersAt(ps: seq<ProgramHeader>, i: nat)
    requires i < |ps|
    ensures WriteProgramHeaders(ps)[32 * i..32 * i + 32] == WriteProgramHeader(ps[i])
  {
    hide WriteProgramHeader;
    if i > 0 {
      ProgramHeadersAt(ps[1..], i - 1);
      var first, rest := WriteProgramHeader(ps[0]), WriteProgramHeaders(ps[1..]);
      SliceBehind(first, rest, [], 32 * (i - 1), 32);
      assert first + rest + [] == WriteProgramHeaders(ps);
    }
  }

  lemma SliceBehind(a: seq<Byte>, b: seq<Byte>, c: seq<Byte>, i: nat, n: nat)
    requires i + n <= |b|
    ensures (a + b + c)[|a| + i..|a| + i + n] == b[i..i + n]
  {
  }

  lemma WrittenFileHolds(f: FileHeader, ps: seq<ProgramHeader>, body: seq<Byte>)
    requires |f.ident| == 10 && f.phoff == 52 && f.phentsize == 32 && f.phnum == |ps|
    requires |WriteFile(f, ps, body)| < WRAP
    ensures Holds(WriteFile(f, ps, body), f, ps)
  {
    hide WriteHeader;
    hide WriteProgramHeader;
    hide WriteProgramHeaders;
    var data := WriteFile(f, ps, body);
    assert data[..52] == WriteHeader(f);
    forall i | 0 <= i < |ps|
      ensures HoldsAt(data, f.phoff + i * f.phentsize, ps[i])
    {
      ProgramHeadersAt(ps, i);
      SliceBehind(WriteHeader(f), WriteProgramHeaders(ps), body, 32 * i, 32);
    }
  }

  /** The segments the program headers ask for, in order. */
  ghost function Asked(ps: seq<ProgramHeader>): (segs: seq<Segment>) {
    if ps == [] then []
    else
      var rest, p := Asked(ps[..|ps| - 1]), ps[|ps| - 1];
      if p.kind == 1 then rest + [Kept(p)] else rest
  }

  lemma HeldHeader(data: Contents, f: FileHeader, ps: seq<ProgramHeader>)
    requires Holds(data, f, ps)
    ensures Validate(data[..HEADER]) <==> ForX86(f)
    ensures HeaderOf(data[..HEADER]) == Header(f.entry, f.phoff, f.phentsize, f.phnum)
  {
    hide WriteHeader;
    hide Validate;
    hide HeaderOf;
    ValidIffForX86(f);
    HeaderReadsBack(f);
  }

  lemma HeldSegment(data: Contents, f: FileHeader, ps: seq<ProgramHeader>, i: nat)
    requires Holds(data, f, ps) && i < |ps|
    ensures var at := HeaderOffset(HeaderOf(data[..HEADER]), i);
            at == f.phoff + i * f.phentsize && at + PROGRAM_HEADER <= |data| && SegmentAt(data, at) == Kept(ps[i])
  {
    hide WriteHeader;
    hide WriteProgramHeader;
    hide HeaderOf;
    hide SegmentOf;
    HeldHeader(data, f, ps);
    ProgramHeaderReadsBack(ps[i]);
    assert HoldsAt(data, f.phoff + i * f.phentsize, ps[i]);
  }

  /** The segments the loader finds are those asked for. */
  lemma {:induction false} LoadsWhatIsAsked(data: Contents, f: FileHeader, ps: seq<ProgramHeader>, n: nat)
    requires Holds(data, f, ps) && n <= |ps|
    ensures LoadSegments(data, HeaderOf(data[..HEADER]), n) == Asked(ps[..n])
    decreases n
  {
    hide Holds;
    hide HeaderOf;
    hide SegmentAt;
    hide HeaderOffset;
    if n > 0 {
      HeldSegment(data, f, ps, n - 1);
      LoadsWhatIsAsked(data, f, ps, n - 1);
      assert ps[..n][..n - 1] == ps[..n - 1];
    }
  }

  // ----- what ends up in memory

  /** A program header whose segment ends up at the address. */
  predicate Reaches(p: ProgramHeader, a: Word) {
    p.kind == 1 && !(p.vaddr == 0 && p.filesz > 0) && (a - p.vaddr) % 0x1_0000_0000 < p.memsz
  }

  /** The segment lies inside the file and is no shorter in memory than there. */
  predicate Fits(data: Contents, p: ProgramHeader) {
    p.kind == 1 ==> p.offset + p.filesz <= |data| && p.filesz <= p.memsz
  }

  /** The byte a segment has for an address: one of the file, or zero behind its part of it. */
  function SegmentByte(data: Contents, p: ProgramHeader, a: Word): (b: Byte) {
    var k := (a - p.vaddr) % 0x1_0000_0000;
    if k < p.filesz && p.offset + k < |data| then data[p.offset + k] else 0
  }

  /** The last program header that reaches the address. */
  ghost predicate Decides(ps: seq<ProgramHeader>, a: Word, i: nat) {
    i < |ps| && Reaches(ps[i], a) && forall j :: i < j < |ps| ==> !Reaches(ps[j], a)
  }

  /** The last one decides the byte; where none reaches, memory is as before. */
  ghost predicate LoadedByte(data: Contents, ps: seq<ProgramHeader>, a: Word, before: Byte, after: Byte) {
    && ((forall j :: 0 <= j < |ps| ==> !Reaches(ps[j], a)) ==> after == before)
    && forall i: nat :: Decides(ps, a, i) ==> after == SegmentByte(data, ps[i], a)
  }

  lemma DistanceIs(a: Word, base: Word)
    ensures Distance(a, base) == (a - base) % 0x1_0000_0000
  {
  }

  lemma DecidesSnoc(ps: seq<ProgramHeader>, p: ProgramHeader, a: Word, i: nat)
    requires Decides(ps + [p], a, i)
    ensures if i < |ps| then !Reaches(p, a) && Decides(ps, a, i) else i == |ps| && Reaches(p, a)
  {
    hide Reaches;
    var all := ps + [p];
    assert all[|ps|] == p && forall j :: 0 <= j < |ps| ==> all[j] == ps[j];
  }

  lemma LoadedByteSnoc(data: Contents, ps: seq<ProgramHeader>, p: ProgramHeader, a: Word, before: Byte, middle: Byte, after: Byte)
    requires LoadedByte(data, ps, a, before, middle)
    requires after == if Reaches(p, a) then SegmentByte(data, p, a) else middle
    ensures LoadedByte(data, ps + [p], a, before, after)
  {
    hide Reaches;
    hide SegmentByte;
    hide Decides;
    var all := ps + [p];
    assert all[|ps|] == p && forall j :: 0 <= j < |ps| ==> all[j] == ps[j];
    forall i: nat | Decides(all, a, i)
      ensures i < |all| && after == SegmentByte(data, all[i], a)
    {
      DecidesSnoc(ps, p, a, i);
    }
  }

  lemma ImageLast(before: seq<Byte>, data: Contents, segs: seq<Segment>, p: ProgramHeader, a: Word)
    requires |before| == WRAP
    ensures Image(before, data, segs + [Kept(p)], a) ==
            if (a - p.vaddr) % 0x1_0000_0000 < p.memsz then SegmentByte(data, p, a) else Image(before, data, segs, a)
  {
    DistanceIs(a, p.vaddr);
    hide Distance;
    assert (segs + [Kept(p)])[..|segs|] == segs;
  }

  lemma ImageAskedSnoc(before: seq<Byte>, data: Contents, ps: seq<ProgramHeader>, p: ProgramHeader, a: Word)
    requires |before| == WRAP && Fits(data, p)
    ensures Image(before, data, WithoutNull(Asked(ps + [p])), a) ==
            if Reaches(p, a) then SegmentByte(data, p, a) else Image(before, data, WithoutNull(Asked(ps)), a)
  {
    hide Image;
    hide SegmentByte;
    assert (ps + [p])[..|ps|] == ps;
    if p.kind == 1 {
      WithoutNullSnoc(Asked(ps), Kept(p));
      hide WithoutNull;
      ImageLast(before, data, WithoutNull(Asked(ps)), p, a);
    }
  }

  /** The image of the segments asked for, byte by byte. */
  lemma {:induction false} ImageOfAsked(before: seq<Byte>, data: Contents, ps: seq<ProgramHeader>, a: Word)
    requires |before| == WRAP && forall i :: 0 <= i < |ps| ==> Fits(data, ps[i])
    ensures LoadedByte(data, ps, a, before[a], Image(before, data, WithoutNull(Asked(ps)), a))
  {
    if ps != [] {
      var init, p := ps[..|ps| - 1], ps[|ps| - 1];
      ImageOfAsked(before, data, init, a);
      hide LoadedByte;
      hide Image;
      hide WithoutNull;
      hide Asked;
      hide SegmentByte;
      assert ps == init + [p];
      ImageAskedSnoc(before, data, init, p, a);
      LoadedByteSnoc(data, init, p, a, before[a], Image(before, data, WithoutNull(Asked(init)), a),
                     Image(before, data, WithoutNull(Asked(ps)), a));
    } else {
      assert Asked(ps) == [] && WithoutNull([]) == [];
    }
  }

  ghost predicate Loaded(data: Contents, ps: seq<ProgramHeader>, before: seq<Byte>, after: seq<Byte>)
    requires |before| == |after| == WRAP
  {
    forall a: Word :: LoadedByte(data, ps, a, before[a], after[a])
  }

  /** Every program header, and the bytes of its segment if it has any, begin below 2^31. */
  ghost predicate Near(f: FileHeader, ps: seq<ProgramHeader>) {
    && (forall i :: 0 <= i < |ps| ==> f.phoff + i * f.phentsize < 0x8000_0000)
    && forall i :: 0 <= i < |ps| && ps[i].kind == 1 && ps[i].filesz > 0 ==> ps[i].offset < 0x8000_0000
  }

  lemma HeldIsWellFormed(data: Contents, f: FileHeader, ps: seq<ProgramHeader>)
    requires Holds(data, f, ps) && ForX86(f) && Near(f, ps) && forall i :: 0 <= i < |ps| ==> Fits(data, ps[i])
    ensures WellFormed(data) && Seekable(data, HeaderOf(data[..HEADER]))
  {
    hide HeaderOf;
    hide SegmentAt;
    hide Validate;
    hide HeaderOffset;
    HeldHeader(data, f, ps);
    var h := HeaderOf(data[..HEADER]);
    forall i: nat | i < h.phnum
      ensures HeaderInside(data, HeaderOffset(h, i)) && HeaderSeekable(data, HeaderOffset(h, i))
    {
      HeldSegment(data, f, ps, i);
      assert Fits(data, ps[i]);
    }
  }

  lemma LoadsWritten(data: Contents, f: FileHeader, ps: seq<ProgramHeader>, before: seq<Byte>, after: seq<Byte>)
    requires Holds(data, f, ps) && |before| == |after| == WRAP && forall i :: 0 <= i < |ps| ==> Fits(data, ps[i])
    requires var h := HeaderOf(data[..HEADER]); IsImage(before, data, WithoutNull(LoadSegments(data, h, h.phnum)), after)
    ensures Loaded(data, ps, before, after)
  {
    hide LoadSegments;
    hide HeaderOf;
    hide Image;
    hide LoadedByte;
    HeldHeader(data, f, ps);
    LoadsWhatIsAsked(data, f, ps, |ps|);
    assert ps[..|ps|] == ps;
    forall a: Word
      ensures LoadedByte(data, ps, a, before[a], after[a])
    {
      ImageOfAsked(before, data, ps, a);
    }
  }

  /** Loading a file that holds these headers. For x86, and when a descriptor is free, the
      written entry point is returned and memory is changed as the program headers say;
      otherwise 0 is returned and memory is as before. The table of open files is as before
      in all cases. */
  method LoadWritten(loader: Loader, node: Node, ghost f: FileHeader, ghost ps: seq<ProgramHeader>) returns (entry: Word)
    requires loader.Valid() && !node.isDirectory && node.readable
    requires Holds(node.data, f, ps) && Near(f, ps) && forall i :: 0 <= i < |ps| ==> Fits(node.data, ps[i])
    modifies loader.files.table, loader.mem
    ensures loader.Valid() && loader.files.table[..] == old(loader.files.table[..])
    ensures if ForX86(f) && FirstFree(old(loader.files.table[..]), FIRST).Some?
            then entry == f.entry && Loaded(node.data, ps, old(loader.mem[..]), loader.mem[..])
            else entry == 0 && loader.mem[..] == old(loader.mem[..])
  {
    hide Holds;
    hide Loaded;
    hide WellFormed;
    hide Seekable;
    hide Validate;
    hide HeaderOf;
    hide LoadHeaders;
    hide LoadSegments;
    hide IsImage;
    hide StoredAll;
    HeldHeader(node.data, f, ps);
    HeldLength(node.data, f, ps);
    ghost var before := loader.mem[..];
    if ForX86(f) {
      HeldIsWellFormed(node.data, f, ps);
      NoOverrun(node.data);
    }
    var overrun;
    entry, overrun := loader.Load(Some(node));
    if ForX86(f) && FirstFree(old(loader.files.table[..]), FIRST).Some? {
      LoadsImage(node.data, before, loader.mem[..]);
      LoadsWritten(node.data, f, ps, before, loader.mem[..]);
    }
  }

  lemma HeldLength(data: Contents, f: FileHeader, ps: seq<ProgramHeader>)
    requires Holds(data, f, ps)
    ensures |data| >= HEADER
  {
  }
}
