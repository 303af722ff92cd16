/** The initial RAM disk: a cpio archive in the new ASCII format, its writer as a
    specification, and the reader that builds the file table. */
module Initrd {
  import opened Options
  import opened Words

  const MAX_FILES: nat := 64
  const HEADER: nat := 110
  const NAME_LIMIT: nat := 255

  /** "070701" */
  const MAGIC: seq<Byte> := [0x30, 0x37, 0x30, 0x37, 0x30, 0x31]
  /** "TRAILER!!!" */
  const TRAILER: seq<Byte> := [0x54, 0x52, 0x41, 0x49, 0x4C, 0x45, 0x52, 0x21, 0x21, 0x21]
  const DOT: Byte := 0x2E
  const SLASH: Byte := 0x2F

  // ----- hexadecimal fields

  /** The value of a hexadecimal digit of either case; anything else counts as 0. */
  function HexValue(c: Byte): (d: nat)
    ensures d < 16
  {
    if 0x30 <= c <= 0x39 then c - 0x30
    else if 0x41 <= c <= 0x46 then c - 0x41 + 10
    else if 0x61 <= c <= 0x66 then c - 0x61 + 10
    else 0
  }

  function HexDigit(d: nat, upper: bool): (c: Byte)
    requires d < 16
    ensures HexValue(c) == d
  {
    if d < 10 then 0x30 + d else if upper then 0x41 + d - 10 else 0x61 + d - 10
  }

  /** Digits shifted in from the left, on 32 bits. */
  function HexNumber(s: seq<Byte>): (v: Word) {
    if s == [] then 0 else (HexNumber(s[..|s| - 1]) * 16 + HexValue(s[|s| - 1])) % WRAP
  }

  function HexField(v: nat, width: nat, upper: bool): (s: seq<Byte>)
    ensures |s| == width
  {
    if width == 0 then [] else HexField(v / 16, width - 1, upper) + [HexDigit(v % 16, upper)]
  }

  function Pow16(n: nat): (p: nat) { if n == 0 then 1 else 16 * Pow16(n - 1) }

  lemma {:induction false} HexFieldValue(v: nat, width: nat, upper: bool)
    requires v < Pow16(width) && v < WRAP
    ensures HexNumber(HexField(v, width, upper)) == v
  {
    if width > 0 {
      hide *;
      var q, d := v / 16, v % 16;
      DigitLess(v, width);
      HexFieldStep(v, width, upper);
      HexFieldValue(q, width - 1, upper);
      HexNumberSnoc(HexField(q, width - 1, upper), HexDigit(d, upper));
    }
  }

  lemma HexFieldStep(v: nat, width: nat, upper: bool)
    requires width > 0
    ensures HexField(v, width, upper) == HexField(v / 16, width - 1, upper) + [HexDigit(v % 16, upper)]
  {
  }

  lemma DigitLess(v: nat, width: nat)
    requires width > 0 && v < Pow16(width)
    ensures v / 16 < Pow16(width - 1)
  {
  }

  lemma HexNumberSnoc(s: seq<Byte>, c: Byte)
    ensures HexNumber(s + [c]) == (HexNumber(s) * 16 + HexValue(c)) % WRAP
  {
    assert (s + [c])[..|s|] == s;
  }

  /** Reading an 8-digit field gives back every 32-bit value written to it. */
  lemma HexRoundTrip(v: Word, upper: bool)
    ensures HexNumber(HexField(v, 8, upper)) == v
  {
    assert Pow16(4) == 0x1_0000;
    assert Pow16(8) == WRAP;
    HexFieldValue(v, 8, upper);
  }

  method ParseHex(mem: seq<Byte>, at: nat, len: nat) returns (val: Word)
    requires at + len <= |mem|
    ensures val == HexNumber(mem[at..at + len])
  {
    val := 0;
    for i := 0 to len
      invariant val == HexNumber(mem[at..at + i])
    {
      assert mem[at..at + i + 1][..i] == mem[at..at + i];
      val := ShiftIn(val, HexValue(mem[at + i]));
    }
  }

  /** `val <<= 4; val += d` on 32 bits; the addition cannot carry. */
  function ShiftIn(val: Word, d: nat): (r: Word)
    requires d < 16
    ensures r == (val * 16 + d) % WRAP
  {
    val * 16 % WRAP + d
  }

  // ----- the archive writer

  /** A file with its name and contents; `before`, `between` and `check` are the header
      fields the reader ignores. */
  datatype Entry = Entry(name: seq<Byte>, data: seq<Byte>, before: seq<Byte>, between: seq<Byte>, check: seq<Byte>)

  ghost predicate EntryOk(e: Entry) {
    0 !in e.name && |e.before| == 48 && |e.between| == 32 && |e.check| == 8
  }

  function Header(e: Entry, upper: bool): (h: seq<Byte>) {
    MAGIC + e.before + HexField(|e.data|, 8, upper) + e.between + HexField(|e.name| + 1, 8, upper) + e.check
  }

  /** Zero bytes up to the next multiple of four. */
  function Padding(offset: nat): (z: seq<Byte>)
    ensures (offset + |z|) % 4 == 0 && |z| < 4
  {
    [0, 0, 0][..(4 - offset % 4) % 4]
  }

  function NamePart(e: Entry, upper: bool, offset: nat): (s: seq<Byte>) {
    var s := Header(e, upper) + e.name + [0];
    s + Padding(offset + |s|)
  }

  /** One archive member written at `offset`: name and contents padded to multiples of
      four counted from the start of the archive. */
  function Member(e: Entry, upper: bool, offset: nat): (s: seq<Byte>) {
    var n := NamePart(e, upper, offset);
    n + e.data + Padding(offset + |n| + |e.data|)
  }

  function Archive(es: seq<Entry>, trailer: Entry, upper: bool, offset: nat := 0): (s: seq<Byte>) {
    if es == [] then Member(trailer, upper, offset)
    else
      var m := Member(es[0], upper, offset);
      m + Archive(es[1..], trailer, upper, offset + |m|)
  }

  // ----- the reader

  datatype FileInfo = FileInfo(name: seq<Byte>, size: Word, at: nat)

  /** The reader's position and table; `done` once it has met the trailer or something
      that is no header. */
  datatype Parse = Parse(at: nat, files: seq<FileInfo>, done: bool)

  /** The bytes of a C string. */
  function CString(mem: seq<Byte>, at: nat): (s: seq<Byte>)
    requires at <= |mem|
    decreases |mem| - at
  {
    if at == |mem| || mem[at] == 0 then [] else [mem[at]] + CString(mem, at + 1)
  }

  /** `(110 + namesize + 3) & ~3` and `(filesize + 3) & ~3` on 32 bits. */
  function HeaderSize(namesize: Word): (n: Word) { Mask4(Wrap(HEADER + namesize + 3)) }
  function DataSize(filesize: Word): (n: Word) { Mask4(Wrap(filesize + 3)) }

  /** `x & ~3` */
  function Mask4(x: nat): (r: nat)
    ensures r % 4 == 0 && r <= x < r + 4
  {
    x - x % 4
  }

  function NameSizeAt(mem: seq<Byte>, p: nat): (n: Word)
    requires p + HEADER <= |mem|
  {
    HexNumber(mem[p + 94..p + 102])
  }

  function FileSizeAt(mem: seq<Byte>, p: nat): (n: Word)
    requires p + HEADER <= |mem|
  {
    HexNumber(mem[p + 54..p + 62])
  }

  function Advance(p: nat, namesize: Word, filesize: Word): (q: Word)
    requires p < WRAP
  {
    Wrap(p + Wrap(HeaderSize(namesize) + DataSize(filesize)))
  }

  function NextAt(mem: seq<Byte>, p: nat): (q: Word)
    requires p + HEADER <= |mem| && p < WRAP
  {
    Advance(p, NameSizeAt(mem, p), FileSizeAt(mem, p))
  }

  /** Names "." and "./..." are skipped. */
  predicate IsDot(name: seq<Byte>) {
    |name| > 0 && name[0] == DOT && (|name| == 1 || name[1] == SLASH)
  }

  function Truncated(name: seq<Byte>): (r: seq<Byte>) {
    if |name| > NAME_LIMIT then name[..NAME_LIMIT] else name
  }

  predicate Stopped(s: Parse, end: nat) { s.done || s.at >= end || |s.files| >= MAX_FILES }

  /** One turn of the reader's loop. */
  function Turn(mem: seq<Byte>, end: nat, s: Parse): (s': Parse)
    requires end <= |mem| && end < WRAP
  {
    if Stopped(s, end) then s
    else if s.at + HEADER > end || mem[s.at..s.at + 6] != MAGIC then s.(done := true)
    else
      var name := CString(mem, s.at + HEADER);
      if name == TRAILER then s.(done := true)
      else if IsDot(name) then s.(at := NextAt(mem, s.at))
      else
        var file := FileInfo(Truncated(name), FileSizeAt(mem, s.at), Wrap(s.at + HeaderSize(NameSizeAt(mem, s.at))));
        Parse(NextAt(mem, s.at), s.files + [file], false)
  }

  function Turns(mem: seq<Byte>, end: nat, s: Parse, n: nat): (s': Parse)
    requires end <= |mem| && end < WRAP
    decreases n
  {
    if n == 0 then s else Turns(mem, end, Turn(mem, end, s), n - 1)
  }

  /** The loop body. */
  method ReadEntry(mem: seq<Byte>, end: nat, at: nat, files: seq<FileInfo>) returns (s: Parse)
    requires end <= |mem| && end < WRAP && at < end && |files| < MAX_FILES
    ensures s == Turn(mem, end, Parse(at, files, false))
  {
    if at + HEADER > end || mem[at..at + 6] != MAGIC {
      return Parse(at, files, true);
    }
    var namesize := ParseHex(mem, at + 94, 8);
    var filesize := ParseHex(mem, at + 54, 8);
    var name := CString(mem, at + HEADER);
    if name == TRAILER {
      return Parse(at, files, true);
    }
    var next := Advance(at, namesize, filesize);
    if IsDot(name) {
      return Parse(next, files, false);
    }
    return Parse(next, files + [FileInfo(Truncated(name), filesize, Wrap(at + HeaderSize(namesize)))], false);
  }

  /** If the reader has stopped after `n` turns, these are its files. */
  ghost predicate FilesAtStop(mem: seq<Byte>, end: nat, s: Parse, n: nat, files: seq<FileInfo>)
    requires end <= |mem| && end < WRAP
  {
    Stopped(Turns(mem, end, s, n), end) ==> files == Turns(mem, end, s, n).files
  }

  ghost predicate FilesAtEveryStop(mem: seq<Byte>, end: nat, s: Parse, files: seq<FileInfo>)
    requires end <= |mem| && end < WRAP
  {
    forall n: nat :: FilesAtStop(mem, end, s, n, files)
  }

  /** The reader, for inputs on which its loop ends: the files of the reader where it has
      stopped. */
  method Init(mem: seq<Byte>, addr: nat, size: nat) returns (files: seq<FileInfo>)
    requires addr + size <= |mem| && addr + size < WRAP && !NeverStops(mem, addr + size, Parse(addr, [], false))
    ensures FilesAtEveryStop(mem, addr + size, Parse(addr, [], false), files)
  {
    hide Turn;
    var s, end := Parse(addr, [], false), addr + size;
    ghost var start := s;
    ghost var turns: nat := end * MAX_FILES;
    NeverStopsExactly(mem, end, start);
    ghost var left: nat := turns;
    while s.at < end && |s.files| < MAX_FILES && !s.done
      invariant Turns(mem, end, s, left) == Turns(mem, end, start, turns)
      invariant Stopped(Turns(mem, end, s, left), end)
      decreases left
    {
      s := ReadEntry(mem, end, s.at, s.files);
      left := left - 1;
    }
    StoppedStays(mem, end, s, left);
    forall n: nat | Stopped(Turns(mem, end, start, n), end)
      ensures s == Turns(mem, end, start, n)
    {
      if n <= turns {
        StoppedFrom(mem, end, start, n, turns);
      } else {
        StoppedFrom(mem, end, start, turns, n);
      }
    }
    return s.files;
  }

  lemma {:induction false} StoppedStays(mem: seq<Byte>, end: nat, s: Parse, n: nat)
    requires end <= |mem| && end < WRAP && Stopped(s, end)
    ensures Turns(mem, end, s, n) == s
  {
    if n > 0 {
      StoppedStays(mem, end, s, n - 1);
    }
  }

  // ----- writing and reading back

  /** Memory holds the bytes `s` at `p`. */
  ghost predicate Holds(mem: seq<Byte>, p: nat, s: seq<Byte>) {
    p + |s| <= |mem| && mem[p..p + |s|] == s
  }

  /** What a string holds at `q`, memory holding the string at `p` holds at `p + q`. */
  lemma HoldsThrough(mem: seq<Byte>, p: nat, s: seq<Byte>, q: nat, t: seq<Byte>)
    requires Holds(mem, p, s) && Holds(s, q, t)
    ensures Holds(mem, p + q, t)
  {
    forall k | 0 <= k < |t|
      ensures mem[p + q..p + q + |t|][k] == t[k]
    {
      assert mem[p..p + |s|][q + k] == s[q + k] && s[q..q + |t|][k] == s[q + k];
    }
  }

  lemma {:induction false} CStringIs(mem: seq<Byte>, at: nat, s: seq<Byte>)
    requires Holds(mem, at, s + [0]) && 0 !in s
    ensures CString(mem, at) == s
    decreases |s|
  {
    assert mem[at] == mem[at..at + |s| + 1][0];
    if s != [] {
      assert Holds(s + [0], 1, s[1..] + [0]);
      HoldsThrough(mem, at, s + [0], 1, s[1..] + [0]);
      CStringIs(mem, at + 1, s[1..]);
    }
  }

  lemma HeaderFields(e: Entry, upper: bool)
    requires EntryOk(e)
    ensures var h := Header(e, upper);
            |h| == 110 && h[0..6] == [0x30, 0x37, 0x30, 0x37, 0x30, 0x31] && h[54..62] == HexField(|e.data|, 8, upper) &&
            h[94..102] == HexField(|e.name| + 1, 8, upper)
  {
  }

  function RoundUp(n: nat): (r: nat)
    ensures r % 4 == 0 && n <= r < n + 4
  {
    Mask4(n + 3)
  }

  lemma PaddedLength(offset: nat, n: nat)
    requires offset % 4 == 0
    ensures n + |Padding(offset + n)| == RoundUp(n)
  {
    SameRest(offset, n);
  }

  lemma SameRest(offset: nat, n: nat)
    requires offset % 4 == 0
    ensures (offset + n) % 4 == n % 4
  {
    var q := offset / 4 + n / 4;
    assert offset + n == 4 * q + n % 4;
  }

  /** Rounding on words is exact for lengths whose rounded value is a word. */
  lemma RoundOnWords(n: nat)
    requires RoundUp(n) < WRAP
    ensures n + 3 < WRAP
  {
  }

  /** With the archive offset a multiple of four, padding counted from the start of the
      archive and sizes rounded within the member agree, and the next member starts at
      a multiple of four again. */
  lemma MemberSizes(e: Entry, upper: bool, offset: nat)
    requires EntryOk(e) && offset % 4 == 0
    ensures |NamePart(e, upper, offset)| == RoundUp(HEADER + |e.name| + 1)
    ensures |Member(e, upper, offset)| == RoundUp(HEADER + |e.name| + 1) + RoundUp(|e.data|)
    ensures (offset + |Member(e, upper, offset)|) % 4 == 0
  {
    HeaderFields(e, upper);
    var n := RoundUp(HEADER + |e.name| + 1);
    PaddedLength(offset, HEADER + |e.name| + 1);
    PaddedLength(offset + n, |e.data|);
  }

  lemma MemberSlices(e: Entry, upper: bool, offset: nat)
    requires EntryOk(e) && offset % 4 == 0
    ensures var m, n := Member(e, upper, offset), RoundUp(HEADER + |e.name| + 1);
            |m| >= n + |e.data| && n >= HEADER + |e.name| + 1 && m[0..6] == MAGIC &&
            m[54..62] == HexField(|e.data|, 8, upper) && m[94..102] == HexField(|e.name| + 1, 8, upper) &&
            m[HEADER..HEADER + |e.name| + 1] == e.name + [0] && m[n..n + |e.data|] == e.data
  {
    hide HexField;
    hide RoundUp;
    var m, h, n := Member(e, upper, offset), Header(e, upper), NamePart(e, upper, offset);
    HeaderFields(e, upper);
    MemberSizes(e, upper, offset);
    assert m[..HEADER] == h;
    assert m[0..6] == h[0..6] && m[54..62] == h[54..62] && m[94..102] == h[94..102];
    assert n[HEADER..HEADER + |e.name| + 1] == e.name + [0];
    assert m[..|n|] == n;
    assert m[HEADER..HEADER + |e.name| + 1] == n[HEADER..HEADER + |e.name| + 1];
  }

  /** The length of a member, wherever it is written. */
  function MemberLength(e: Entry): (n: nat) { RoundUp(HEADER + |e.name| + 1) + RoundUp(|e.data|) }

  /** Memory at `p` has a member's fields in their places. */
  ghost predicate Laid(mem: seq<Byte>, p: nat, e: Entry, upper: bool) {
    && p + MemberLength(e) <= |mem|
    && Holds(mem, p, MAGIC)
    && Holds(mem, p + 54, HexField(|e.data|, 8, upper))
    && Holds(mem, p + 94, HexField(|e.name| + 1, 8, upper))
    && Holds(mem, p + HEADER, e.name + [0])
    && Holds(mem, p + RoundUp(HEADER + |e.name| + 1), e.data)
  }

  /** The writer puts every field in its place. */
  lemma MemberLaid(e: Entry, upper: bool, offset: nat)
    requires EntryOk(e) && offset % 4 == 0
    ensures Laid(Member(e, upper, offset), 0, e, upper) && |Member(e, upper, offset)| == MemberLength(e)
    ensures (offset + |Member(e, upper, offset)|) % 4 == 0
  {
    var m, n := Member(e, upper, offset), RoundUp(HEADER + |e.name| + 1);
    MemberSizes(e, upper, offset);
    MemberSlices(e, upper, offset);
  }

  lemma LaidThrough(mem: seq<Byte>, p: nat, s: seq<Byte>, q: nat, e: Entry, upper: bool)
    requires Holds(mem, p, s) && Laid(s, q, e, upper)
    ensures Laid(mem, p + q, e, upper)
  {
    hide HexField;
    hide RoundUp;
    HoldsThrough(mem, p, s, q, MAGIC);
    HoldsThrough(mem, p, s, q + 54, HexField(|e.data|, 8, upper));
    HoldsThrough(mem, p, s, q + 94, HexField(|e.name| + 1, 8, upper));
    HoldsThrough(mem, p, s, q + HEADER, e.name + [0]);
    HoldsThrough(mem, p, s, q + RoundUp(HEADER + |e.name| + 1), e.data);
  }

  /** What the reader finds at a member. */
  lemma MemberRead(mem: seq<Byte>, p: nat, e: Entry, upper: bool)
    requires Laid(mem, p, e, upper) && 0 !in e.name && p + MemberLength(e) < WRAP
    ensures p + HEADER <= |mem| && mem[p..p + 6] == MAGIC
    ensures CString(mem, p + HEADER) == e.name
    ensures NameSizeAt(mem, p) == |e.name| + 1 && FileSizeAt(mem, p) == |e.data|
    ensures NextAt(mem, p) == p + MemberLength(e) && MemberLength(e) >= HEADER
    ensures Wrap(p + HeaderSize(|e.name| + 1)) == p + RoundUp(HEADER + |e.name| + 1)
  {
    hide CString;
    hide HexNumber;
    hide HexField;
    CStringIs(mem, p + HEADER, e.name);
    HexRoundTrip(|e.data|, upper);
    HexRoundTrip(|e.name| + 1, upper);
    RoundOnWords(HEADER + |e.name| + 1);
    RoundOnWords(|e.data|);
  }

  /** The members the reader should list: those before the first one named like the
      trailer, without "." and "./...". */
  ghost function Listed(es: seq<Entry>): (r: seq<Entry>) {
    if es == [] || es[0].name == TRAILER then []
    else if IsDot(es[0].name) then Listed(es[1..])
    else [es[0]] + Listed(es[1..])
  }

  ghost function Take(es: seq<Entry>, n: nat): (r: seq<Entry>) {
    if |es| <= n then es else es[..n]
  }

  ghost predicate Matches(mem: seq<Byte>, f: FileInfo, e: Entry) {
    f.name == Truncated(e.name) && f.size == |e.data| && Holds(mem, f.at, e.data)
  }

  ghost predicate AllMatch(mem: seq<Byte>, files: seq<FileInfo>, es: seq<Entry>) {
    |files| == |es| && forall i :: 0 <= i < |es| ==> Matches(mem, files[i], es[i])
  }

  ghost predicate ArchiveOk(es: seq<Entry>, trailer: Entry) {
    && (forall i :: 0 <= i < |es| ==> EntryOk(es[i]))
    && EntryOk(trailer) && trailer.name == TRAILER
  }

  ghost predicate LaidOut(mem: seq<Byte>, p: nat, es: seq<Entry>, trailer: Entry, upper: bool)
    decreases |es|
  {
    if es == [] then Laid(mem, p, trailer, upper)
    else Laid(mem, p, es[0], upper) && LaidOut(mem, p + MemberLength(es[0]), es[1..], trailer, upper)
  }

  function ArchiveLength(es: seq<Entry>, trailer: Entry): (n: nat) {
    if es == [] then MemberLength(trailer) else MemberLength(es[0]) + ArchiveLength(es[1..], trailer)
  }

  lemma {:induction false} LaidOutThrough(mem: seq<Byte>, p: nat, s: seq<Byte>, q: nat, es: seq<Entry>, trailer: Entry, upper: bool)
    requires Holds(mem, p, s) && LaidOut(s, q, es, trailer, upper)
    ensures LaidOut(mem, p + q, es, trailer, upper)
    decreases |es|
  {
    hide Laid;
    hide MemberLength;
    hide Holds;
    if es == [] {
      LaidThrough(mem, p, s, q, trailer, upper);
    } else {
      LaidThrough(mem, p, s, q, es[0], upper);
      LaidOutThrough(mem, p, s, q + MemberLength(es[0]), es[1..], trailer, upper);
    }
  }

  /** A member followed by the rest of an archive is an archive. */
  lemma JoinLaid(m: seq<Byte>, rest: seq<Byte>, es: seq<Entry>, trailer: Entry, upper: bool)
    requires es != [] && Laid(m, 0, es[0], upper) && |m| == MemberLength(es[0])
    requires LaidOut(rest, 0, es[1..], trailer, upper)
    ensures LaidOut(m + rest, 0, es, trailer, upper)
  {
    hide Laid;
    hide MemberLength;
    assert (m + rest)[0..|m|] == m && (m + rest)[|m|..|m| + |rest|] == rest;
    LaidThrough(m + rest, 0, m, 0, es[0], upper);
    LaidOutThrough(m + rest, |m|, rest, 0, es[1..], trailer, upper);
  }

  /** The writer's output has the layout and the length of an archive. */
  ghost predicate WrittenWell(es: seq<Entry>, trailer: Entry, upper: bool, offset: nat) {
    && LaidOut(Archive(es, trailer, upper, offset), 0, es, trailer, upper)
    && |Archive(es, trailer, upper, offset)| == ArchiveLength(es, trailer)
  }

  lemma WrittenStep(m: seq<Byte>, rest: seq<Byte>, es: seq<Entry>, trailer: Entry, upper: bool, offset: nat)
    requires es != [] && Laid(m, 0, es[0], upper) && |m| == MemberLength(es[0])
    requires m == Member(es[0], upper, offset) && rest == Archive(es[1..], trailer, upper, offset + |m|)
    requires LaidOut(rest, 0, es[1..], trailer, upper) && |rest| == ArchiveLength(es[1..], trailer)
    ensures WrittenWell(es, trailer, upper, offset)
  {
    hide Member;
    hide Laid;
    JoinLaid(m, rest, es, trailer, upper);
  }

  lemma ArchiveOkTail(es: seq<Entry>, trailer: Entry)
    requires ArchiveOk(es, trailer) && es != []
    ensures ArchiveOk(es[1..], trailer) && EntryOk(es[0])
  {
  }

  lemma {:induction false} ArchiveWrittenWell(es: seq<Entry>, trailer: Entry, upper: bool, offset: nat)
    requires ArchiveOk(es, trailer) && offset % 4 == 0
    ensures WrittenWell(es, trailer, upper, offset)
    decreases |es|
  {
    hide Member;
    hide Laid;
    hide MemberLength;
    if es == [] {
      MemberLaid(trailer, upper, offset);
    } else {
      ArchiveOkTail(es, trailer);
      MemberLaid(es[0], upper, offset);
      var m := Member(es[0], upper, offset);
      ArchiveWrittenWell(es[1..], trailer, upper, offset + |m|);
      WrittenStep(m, Archive(es[1..], trailer, upper, offset + |m|), es, trailer, upper, offset);
    }
  }

  /** One turn at a header, by what is read there. */
  lemma TurnAtHeader(mem: seq<Byte>, end: nat, p: nat, files: seq<FileInfo>, name: seq<Byte>, file: FileInfo, next: Word)
    requires end <= |mem| && end < WRAP && |files| < MAX_FILES && p + HEADER <= end && mem[p..p + 6] == MAGIC
    requires CString(mem, p + HEADER) == name && NextAt(mem, p) == next
    requires file == FileInfo(Truncated(name), FileSizeAt(mem, p), Wrap(p + HeaderSize(NameSizeAt(mem, p))))
    ensures Turn(mem, end, Parse(p, files, false)) ==
            if name == TRAILER then Parse(p, files, true)
            else Parse(next, if IsDot(name) then files else files + [file], false)
  {
    hide CString;
    hide NextAt;
    hide IsDot;
    hide NameSizeAt;
    hide FileSizeAt;
    hide HeaderSize;
    hide Truncated;
    hide Wrap;
  }

  /** One turn at a member. */
  lemma TurnAtMember(mem: seq<Byte>, end: nat, p: nat, e: Entry, upper: bool, files: seq<FileInfo>)
    requires Laid(mem, p, e, upper) && 0 !in e.name && end <= |mem| && end < WRAP && |files| < MAX_FILES
    requires p + MemberLength(e) <= end
    ensures var t := Turn(mem, end, Parse(p, files, false));
            if e.name == TRAILER then t.done && t.files == files
            else !t.done && t.at == p + MemberLength(e) &&
                 if IsDot(e.name) then t.files == files
                 else |t.files| == |files| + 1 && t.files[..|files|] == files && Matches(mem, t.files[|files|], e)
  {
    hide Turn;
    hide CString;
    hide NextAt;
    hide NameSizeAt;
    hide FileSizeAt;
    hide HeaderSize;
    hide HexField;
    hide MemberLength;
    hide RoundUp;
    hide Wrap;
    hide Holds;
    hide IsDot;
    hide Truncated;
    MemberRead(mem, p, e, upper);
    var file := FileInfo(Truncated(e.name), |e.data|, p + RoundUp(HEADER + |e.name| + 1));
    TurnAtHeader(mem, end, p, files, e.name, file, p + MemberLength(e));
    assert (files + [file])[..|files|] == files;
  }

  /** The table shows what it should when the reader has stopped. */
  ghost predicate Finished(mem: seq<Byte>, end: nat, r: Parse, es: seq<Entry>) {
    Stopped(r, end) && AllMatch(mem, r.files, Take(es, MAX_FILES))
  }

  lemma Associative<T>(a: seq<T>, b: seq<T>, c: seq<T>)
    ensures a + (b + c) == a + b + c
  {
  }

  lemma {:induction false} ReadsArchive(mem: seq<Byte>, end: nat, p: nat, es: seq<Entry>, trailer: Entry, upper: bool,
                                        files: seq<FileInfo>, shown: seq<Entry>)
    requires ArchiveOk(es, trailer) && end <= |mem| && end < WRAP
    requires LaidOut(mem, p, es, trailer, upper) && p + ArchiveLength(es, trailer) <= end
    requires AllMatch(mem, files, shown) && |files| <= MAX_FILES
    ensures Finished(mem, end, Turns(mem, end, Parse(p, files, false), |es| + 1), shown + Listed(es))
    decreases |es|, 1
  {
    var s := Parse(p, files, false);
    if |files| == MAX_FILES {
      StoppedStays(mem, end, s, |es| + 1);
      assert Take(shown + Listed(es), MAX_FILES) == shown;
    } else if es == [] {
      TurnAtMember(mem, end, p, trailer, upper, files);
      assert Turns(mem, end, s, 1) == Turns(mem, end, Turn(mem, end, s), 0);
      assert shown + Listed(es) == shown;
    } else {
      TurnAtMember(mem, end, p, es[0], upper, files);
      ReadsRest(mem, end, Turn(mem, end, s), p, es, trailer, upper, files, shown);
    }
  }

  lemma {:induction false} ReadsRest(mem: seq<Byte>, end: nat, t: Parse, p: nat, es: seq<Entry>, trailer: Entry, upper: bool,
                                     files: seq<FileInfo>, shown: seq<Entry>)
    requires ArchiveOk(es, trailer) && end <= |mem| && end < WRAP && es != []
    requires LaidOut(mem, p, es, trailer, upper) && p + ArchiveLength(es, trailer) <= end
    requires AllMatch(mem, files, shown) && |files| < MAX_FILES
    requires if es[0].name == TRAILER then t.done && t.files == files
             else !t.done && t.at == p + MemberLength(es[0]) &&
                  if IsDot(es[0].name) then t.files == files
                  else |t.files| == |files| + 1 && t.files[..|files|] == files && Matches(mem, t.files[|files|], es[0])
    ensures Finished(mem, end, Turns(mem, end, t, |es|), shown + Listed(es))
    decreases |es|, 0
  {
    hide Laid;
    hide MemberLength;
    hide Turn;
    hide Turns;
    hide IsDot;
    hide Matches;
    var e := es[0];
    if e.name == TRAILER {
      StoppedStays(mem, end, t, |es|);
      assert shown + Listed(es) == shown;
    } else if IsDot(e.name) {
      assert t == Parse(t.at, files, false);
      ReadsArchive(mem, end, t.at, es[1..], trailer, upper, files, shown);
    } else {
      assert t == Parse(t.at, t.files, false);
      assert AllMatch(mem, t.files, shown + [e]);
      Associative(shown, [e], Listed(es[1..]));
      ReadsArchive(mem, end, t.at, es[1..], trailer, upper, t.files, shown + [e]);
    }
  }

  /** The reader, started at `p`, stops within `n` turns and shows the first 64 of `Listed(es)`. */
  ghost predicate ReadsBack(mem: seq<Byte>, end: nat, p: nat, n: nat, es: seq<Entry>)
    requires end <= |mem| && end < WRAP
  {
    Finished(mem, end, Turns(mem, end, Parse(p, [], false), n), Listed(es))
  }

  lemma ReadsFromStart(mem: seq<Byte>, end: nat, p: nat, es: seq<Entry>, trailer: Entry, upper: bool)
    requires ArchiveOk(es, trailer) && end <= |mem| && end < WRAP
    requires LaidOut(mem, p, es, trailer, upper) && p + ArchiveLength(es, trailer) <= end
    ensures ReadsBack(mem, end, p, |es| + 1, es)
  {
    ReadsArchive(mem, end, p, es, trailer, upper, [], []);
    assert [] + Listed(es) == Listed(es);
  }

  /** Reading back any archive that fits in memory lists, in order, exactly the first 64
      members shown, each with its name up to 255 bytes, its size and its bytes. */
  lemma ArchiveRoundTrip(mem: seq<Byte>, addr: nat, size: nat, es: seq<Entry>, trailer: Entry, upper: bool)
    requires ArchiveOk(es, trailer) && addr + size <= |mem| && addr + size < WRAP
    requires |Archive(es, trailer, upper)| <= size && Holds(mem, addr, Archive(es, trailer, upper))
    ensures ReadsBack(mem, addr + size, addr, |es| + 1, es)
  {
    hide Member;
    hide Laid;
    hide Turn;
    assert LaidOut(mem, addr, es, trailer, upper) && ArchiveLength(es, trailer) <= size by {
      ArchiveWrittenWell(es, trailer, upper, 0);
      LaidOutThrough(mem, addr, Archive(es, trailer, upper), 0, es, trailer, upper);
    }
    ReadsFromStart(mem, addr + size, addr, es, trailer, upper);
  }

  // ----- the same, in bytes

  /** A name that the reader lists: neither "." nor one that begins with "./". */
  ghost predicate ListedName(name: seq<Byte>) {
    name != [0x2E] && !([0x2E, 0x2F] <= name)
  }

  /** The entries before the first named "TRAILER!!!" that have such names. */
  ghost function Visible(es: seq<Entry>): (r: seq<Entry>) {
    if es == [] || es[0].name == [0x54, 0x52, 0x41, 0x49, 0x4C, 0x45, 0x52, 0x21, 0x21, 0x21] then []
    else (if ListedName(es[0].name) then [es[0]] else []) + Visible(es[1..])
  }

  lemma DotNames(name: seq<Byte>)
    ensures IsDot(name) <==> !ListedName(name)
  {
    if |name| > 1 {
      assert name[..2] == [name[0], name[1]];
    } else if |name| == 1 {
      assert name == [name[0]];
    }
  }

  lemma {:induction false} ListedIsVisible(es: seq<Entry>)
    ensures Listed(es) == Visible(es)
  {
    if es != [] {
      DotNames(es[0].name);
      ListedIsVisible(es[1..]);
    }
  }

  /** The reader shows a file with its name up to 255 bytes, its size and its bytes. */
  ghost predicate ReadBack(mem: seq<Byte>, f: FileInfo, e: Entry) {
    && f.name == (if |e.name| > 255 then e.name[..255] else e.name)
    && f.size == |e.data| && f.at + |e.data| <= |mem| && mem[f.at..f.at + |e.data|] == e.data
  }

  /** An archive ended by "TRAILER!!!" reads back as the first 64 visible entries. */
  lemma ArchiveReadsBack(mem: seq<Byte>, addr: nat, size: nat, es: seq<Entry>, trailer: Entry, upper: bool)
    requires (forall i :: 0 <= i < |es| ==> EntryOk(es[i])) && EntryOk(trailer)
    requires trailer.name == [0x54, 0x52, 0x41, 0x49, 0x4C, 0x45, 0x52, 0x21, 0x21, 0x21]
    requires addr + size <= |mem| && addr + size < WRAP
    requires |Archive(es, trailer, upper)| <= size && Holds(mem, addr, Archive(es, trailer, upper))
    ensures var r := Turns(mem, addr + size, Parse(addr, [], false), |es| + 1);
            && Stopped(r, addr + size)
            && |r.files| == (if |Visible(es)| < 64 then |Visible(es)| else 64)
            && forall i :: 0 <= i < |r.files| ==> ReadBack(mem, r.files[i], Visible(es)[i])
  {
    hide Archive;
    hide Turns;
    ArchiveRoundTrip(mem, addr, size, es, trailer, upper);
    ListedIsVisible(es);
    var r := Turns(mem, addr + size, Parse(addr, [], false), |es| + 1);
    assert AllMatch(mem, r.files, Take(Visible(es), MAX_FILES));
    forall i | 0 <= i < |r.files|
      ensures ReadBack(mem, r.files[i], Visible(es)[i])
    {
      assert Matches(mem, r.files[i], Take(Visible(es), MAX_FILES)[i]);
    }
  }

  /** The reader on such an archive: its loop ends, with those entries as files. */
  method InitArchive(mem: seq<Byte>, addr: nat, size: nat, ghost es: seq<Entry>, ghost trailer: Entry, ghost upper: bool)
    returns (files: seq<FileInfo>)
    requires (forall i :: 0 <= i < |es| ==> EntryOk(es[i])) && EntryOk(trailer)
    requires trailer.name == [0x54, 0x52, 0x41, 0x49, 0x4C, 0x45, 0x52, 0x21, 0x21, 0x21]
    requires addr + size <= |mem| && addr + size < WRAP
    requires |Archive(es, trailer, upper)| <= size && Holds(mem, addr, Archive(es, trailer, upper))
    ensures |files| == if |Visible(es)| < 64 then |Visible(es)| else 64
    ensures forall i :: 0 <= i < |files| ==> ReadBack(mem, files[i], Visible(es)[i])
  {
    hide Archive;
    hide Turns;
    hide ReadBack;
    hide Visible;
    ArchiveReadsBack(mem, addr, size, es, trailer, upper);
    files := Init(mem, addr, size);
    assert FilesAtStop(mem, addr + size, Parse(addr, [], false), |es| + 1, files);
  }

  /** An entry before the trailer is visible exactly when its name is listed. */
  lemma {:induction false} VisibleExactly(es: seq<Entry>, i: nat)
    requires i < |es|
    requires forall k :: 0 <= k <= i ==> es[k].name != [0x54, 0x52, 0x41, 0x49, 0x4C, 0x45, 0x52, 0x21, 0x21, 0x21]
    ensures es[i] in Visible(es) <==> ListedName(es[i].name)
  {
    VisibleAreListed(es);
    if i > 0 {
      assert es[1..][i - 1] == es[i];
      VisibleExactly(es[1..], i - 1);
    }
  }

  lemma {:induction false} VisibleAreListed(es: seq<Entry>)
    ensures forall e :: e in Visible(es) ==> ListedName(e.name)
  {
    if es != [] {
      VisibleAreListed(es[1..]);
    }
  }

  // ----- progress of the reader

  ghost predicate NoWrap(mem: seq<Byte>, p: nat)
    requires p + HEADER <= |mem|
  {
    p + HEADER + NameSizeAt(mem, p) + FileSizeAt(mem, p) + 6 < WRAP
  }

  /** Sizes that do not wrap move the reader on by at least 112 bytes. */
  lemma Progress(mem: seq<Byte>, p: nat)
    requires p + HEADER <= |mem| && p < WRAP && NoWrap(mem, p)
    ensures NextAt(mem, p) >= p + 112
  {
    hide Advance;
    hide HexNumber;
    AdvanceMoves(p, NameSizeAt(mem, p), FileSizeAt(mem, p));
  }

  lemma AdvanceMoves(p: nat, namesize: Word, filesize: Word)
    requires p + HEADER + namesize + filesize + 6 < WRAP
    ensures Advance(p, namesize, filesize) >= p + 112
  {
    var h, d := HeaderSize(namesize), DataSize(filesize);
    assert h == Mask4(HEADER + namesize + 3) && d == Mask4(filesize + 3);
    assert h >= HEADER && h % 4 == 0;
    hide Mask4;
  }

  /** Where the reader stands, it has stopped, stops, or reads a header that does not wrap. */
  ghost predicate VisitOk(mem: seq<Byte>, end: nat, s: Parse)
    requires end <= |mem| && end < WRAP
  {
    Stopped(s, end) || Turn(mem, end, s).done || (s.at + HEADER <= |mem| && NoWrap(mem, s.at))
  }

  /** If no header the reader visits wraps, it stops within one turn per 112 bytes. */
  lemma {:induction false} ReaderStops(mem: seq<Byte>, end: nat, s: Parse, n: nat)
    requires end <= |mem| && end < WRAP && forall k: nat :: k <= n ==> VisitOk(mem, end, Turns(mem, end, s, k))
    requires end <= s.at + 112 * n
    ensures Stopped(Turns(mem, end, s, n + 1), end)
    decreases n
  {
    assert Turns(mem, end, s, 0) == s;
    if Stopped(s, end) {
      StoppedStays(mem, end, s, n + 1);
    } else {
      var t := Turn(mem, end, s);
      if t.done {
        StoppedStays(mem, end, t, n);
      } else {
        Progress(mem, s.at);
        forall k: nat | k <= n - 1
          ensures VisitOk(mem, end, Turns(mem, end, t, k))
        {
          assert Turns(mem, end, s, k + 1) == Turns(mem, end, t, k);
        }
        ReaderStops(mem, end, t, n - 1);
      }
    }
  }

  // ----- when the reader does not stop

  lemma {:induction false} TurnsAdd(mem: seq<Byte>, end: nat, s: Parse, n: nat, k: nat)
    requires end <= |mem| && end < WRAP
    ensures Turns(mem, end, s, n + k) == Turns(mem, end, Turns(mem, end, s, n), k)
    decreases n
  {
    if n > 0 {
      TurnsAdd(mem, end, Turn(mem, end, s), n - 1, k);
    }
  }

  /** Once stopped, the reader stays stopped, in the same state. */
  lemma StoppedFrom(mem: seq<Byte>, end: nat, s: Parse, n: nat, m: nat)
    requires end <= |mem| && end < WRAP && n <= m && Stopped(Turns(mem, end, s, n), end)
    ensures Turns(mem, end, s, m) == Turns(mem, end, s, n)
  {
    TurnsAdd(mem, end, s, n, m - n);
    StoppedStays(mem, end, Turns(mem, end, s, n), m - n);
  }

  /** Files are only added. */
  lemma {:induction false} FilesGrow(mem: seq<Byte>, end: nat, s: Parse, n: nat)
    requires end <= |mem| && end < WRAP
    ensures s.files <= Turns(mem, end, s, n).files
    decreases n
  {
    if n > 0 {
      FilesGrow(mem, end, Turn(mem, end, s), n - 1);
    }
  }

  /** After `i` and after `j` turns the reader stands at the same position with the same
      number of files, and has not stopped. */
  ghost predicate MeetsAgain(mem: seq<Byte>, end: nat, s: Parse, i: nat, j: nat)
    requires end <= |mem| && end < WRAP
  {
    var a, b := Turns(mem, end, s, i), Turns(mem, end, s, j);
    i < j && a.at == b.at && |a.files| == |b.files| && !Stopped(b, end)
  }

  lemma MeetingIsRepetition(mem: seq<Byte>, end: nat, s: Parse, i: nat, j: nat)
    requires end <= |mem| && end < WRAP && MeetsAgain(mem, end, s, i, j)
    ensures Turns(mem, end, s, i) == Turns(mem, end, s, j)
  {
    TurnsAdd(mem, end, s, i, j - i);
    FilesGrow(mem, end, Turns(mem, end, s, i), j - i);
    if Stopped(Turns(mem, end, s, i), end) {
      StoppedFrom(mem, end, s, i, j);
    }
  }

  /** The turns of `m` rounds. */
  ghost function Laps(m: nat, period: nat): (n: nat)
    ensures period >= 1 ==> n >= m
  {
    if m == 0 then 0 else period + Laps(m - 1, period)
  }

  /** From a repeated state the reader comes round again and again. */
  lemma {:induction false} ComesRound(mem: seq<Byte>, end: nat, s: Parse, period: nat, m: nat)
    requires end <= |mem| && end < WRAP && Turns(mem, end, s, period) == s
    ensures Turns(mem, end, s, Laps(m, period)) == s
    decreases m
  {
    if m > 0 {
      ComesRound(mem, end, s, period, m - 1);
      TurnsAdd(mem, end, s, period, Laps(m - 1, period));
    }
  }

  lemma MeetingNeverStops(mem: seq<Byte>, end: nat, s: Parse, i: nat, j: nat, n: nat)
    requires end <= |mem| && end < WRAP && MeetsAgain(mem, end, s, i, j)
    ensures !Stopped(Turns(mem, end, s, n), end)
  {
    MeetingIsRepetition(mem, end, s, i, j);
    hide Turns;
    hide Turn;
    var t, period := Turns(mem, end, s, i), j - i;
    TurnsAdd(mem, end, s, i, period);
    ComesRound(mem, end, t, period, n);
    TurnsAdd(mem, end, s, i, Laps(n, period));
    if Stopped(Turns(mem, end, s, n), end) {
      StoppedFrom(mem, end, s, n, i + Laps(n, period));
    }
  }

  lemma {:induction false} DistinctCount(codes: seq<nat>, n: nat)
    requires (forall i :: 0 <= i < |codes| ==> codes[i] < n) && (forall i, j :: 0 <= i < j < |codes| ==> codes[i] != codes[j])
    ensures |codes| <= n
    decreases n
  {
    assert codes != [] ==> codes[0] < n;
    if n > 0 {
      if k :| 0 <= k < |codes| && codes[k] == n - 1 {
        var rest := codes[..k] + codes[k + 1..];
        forall i | 0 <= i < |rest|
          ensures rest[i] < n - 1
        {
          var i' := if i < k then i else i + 1;
          assert rest[i] == codes[i'];
        }
        DistinctCount(rest, n - 1);
      } else {
        DistinctCount(codes, n - 1);
      }
    }
  }

  /** The position and the number of files in one number. */
  ghost function Code(s: Parse): (c: nat) { s.at * MAX_FILES + |s.files| }

  ghost function Codes(mem: seq<Byte>, end: nat, s: Parse, n: nat): (codes: seq<nat>)
    requires end <= |mem| && end < WRAP
    ensures |codes| == n && forall k: nat :: k < n ==> codes[k] == Code(Turns(mem, end, s, k))
  {
    if n == 0 then [] else Codes(mem, end, s, n - 1) + [Code(Turns(mem, end, s, n - 1))]
  }

  /** A reader that has not stopped after 64 turns per byte has been where it is before. */
  lemma MustMeetAgain(mem: seq<Byte>, end: nat, s: Parse)
    requires end <= |mem| && end < WRAP && !Stopped(Turns(mem, end, s, end * MAX_FILES), end)
    ensures exists i: nat, j: nat :: j <= end * MAX_FILES && MeetsAgain(mem, end, s, i, j)
  {
    var n := end * MAX_FILES;
    var codes := Codes(mem, end, s, n + 1);
    forall k: nat | k <= n
      ensures codes[k] < n && !Stopped(Turns(mem, end, s, k), end)
    {
      if Stopped(Turns(mem, end, s, k), end) {
        StoppedFrom(mem, end, s, k, n);
      }
    }
    if forall i, j :: 0 <= i < j < |codes| ==> codes[i] != codes[j] {
      DistinctCount(codes, n);
    }
    var i, j :| 0 <= i < j < |codes| && codes[i] == codes[j];
    assert Code(Turns(mem, end, s, i)) == Code(Turns(mem, end, s, j));
    assert MeetsAgain(mem, end, s, i, j);
  }

  ghost predicate NeverStops(mem: seq<Byte>, end: nat, s: Parse)
    requires end <= |mem| && end < WRAP
  {
    forall n: nat :: !Stopped(Turns(mem, end, s, n), end)
  }

  ghost predicate Circles(mem: seq<Byte>, end: nat, s: Parse)
    requires end <= |mem| && end < WRAP
  {
    exists i: nat, j: nat :: MeetsAgain(mem, end, s, i, j)
  }

  /** The reader never stops exactly when it meets a position twice with the same number
      of files; if it stops at all, it does within 64 turns per byte. */
  lemma NeverStopsExactly(mem: seq<Byte>, end: nat, s: Parse)
    requires end <= |mem| && end < WRAP
    ensures NeverStops(mem, end, s) <==> Circles(mem, end, s)
    ensures NeverStops(mem, end, s) <==> !Stopped(Turns(mem, end, s, end * MAX_FILES), end)
  {
    hide Turns;
    hide MeetsAgain;
    if !Stopped(Turns(mem, end, s, end * MAX_FILES), end) {
      MustMeetAgain(mem, end, s);
    }
    if Circles(mem, end, s) {
      var i: nat, j: nat :| MeetsAgain(mem, end, s, i, j);
      forall n: nat
        ensures !Stopped(Turns(mem, end, s, n), end)
      {
        MeetingNeverStops(mem, end, s, i, j, n);
      }
    }
  }

  /** The sizes in a header wrap to zero. */
  ghost predicate WrapsToNothing(mem: seq<Byte>, p: nat)
    requires p + HEADER <= |mem|
  {
    Wrap(HeaderSize(NameSizeAt(mem, p)) + DataSize(FileSizeAt(mem, p))) == 0
  }

  /** The reader moves on from a skipped member exactly when its sizes do not wrap to zero;
      otherwise it stays there for ever. */
  lemma {:induction false} StuckReader(mem: seq<Byte>, end: nat, s: Parse, n: nat)
    requires end <= |mem| && end < WRAP && !Stopped(s, end) && s.at + HEADER <= end && n > 0
    requires mem[s.at..s.at + 6] == MAGIC && IsDot(CString(mem, s.at + HEADER))
    ensures Turn(mem, end, s) == s <==> WrapsToNothing(mem, s.at)
    ensures WrapsToNothing(mem, s.at) ==> Turns(mem, end, s, n) == s
  {
    if n > 1 && WrapsToNothing(mem, s.at) {
      StuckReader(mem, end, s, n - 1);
    }
  }

  /** There is an image on which the reader never stops. */
  lemma ReaderCanLoop() returns (mem: seq<Byte>)
    ensures |mem| == 112
    ensures forall n: nat :: n > 0 ==> !Stopped(Turns(mem, 112, Parse(0, [], false), n), 112)
  {
    hide Turns;
    hide HexField;
    hide HexNumber;
    var zeros: seq<Byte> := seq(48, _ => 0x30);
    var head := MAGIC + zeros + HexField(0, 8, true) + zeros[..32];
    mem := head + HexField(0xFFFF_FF92, 8, true) + zeros[..8] + [DOT, 0];
    assert mem[0..6] == MAGIC;
    assert mem[54..62] == HexField(0, 8, true) && mem[94..102] == HexField(0xFFFF_FF92, 8, true);
    HexRoundTrip(0, true);
    HexRoundTrip(0xFFFF_FF92, true);
    assert mem[110] == DOT && mem[111] == 0;
    assert CString(mem, 111) == [] && CString(mem, 110) == [DOT];
    forall n: nat | n > 0
      ensures Turns(mem, 112, Parse(0, [], false), n) == Parse(0, [], false)
    {
      StuckReader(mem, 112, Parse(0, [], false), n);
    }
  }

  // ----- lookup

  function Names(files: seq<FileInfo>): (names: seq<seq<Byte>>)
    ensures |names| == |files| && forall i :: 0 <= i < |files| ==> names[i] == files[i].name
  {
    if files == [] then [] else [files[0].name] + Names(files[1..])
  }

  /** The first file of a name. */
  method Find(files: seq<FileInfo>, name: seq<Byte>) returns (r: Option<nat>)
    ensures r == IndexOf(Names(files), name)
  {
    hide IndexOf;
    hide Names;
    var i := 0;
    while i < |files| && files[i].name != name
      invariant i <= |files| && forall k :: 0 <= k < i ==> Names(files)[k] != name
    {
      i := i + 1;
    }
    if i < |files| {
      IndexIs(Names(files), name, i);
      return Some(i);
    }
    IndexIsNone(Names(files), name);
    return None;
  }
}
