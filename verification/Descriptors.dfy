/** The table of open files: opening, closing, reading and seeking, and what a program
    reading through one descriptor sees. */
module Descriptors {
  import opened Options
  import opened Words

  const DESCRIPTORS: nat := 256
  /** Descriptors below this one are never handed out. */
  const FIRST: nat := 3

  const O_WRONLY: bv32 := 0x2
  const O_RDWR: bv32 := 0x4

  const SEEK_SET := 0
  const SEEK_CUR := 1
  const SEEK_END := 2

  type Contents = d: seq<Byte> | |d| < WRAP

  /** What the operations use of a node; `readable` says that it has a read function. */
  datatype Node = Node(isDirectory: bool, readable: bool, data: Contents)

  datatype Descriptor = Descriptor(node: Option<Node>, position: Word, flags: bv32)

  const FREE := Descriptor(None, 0, 0)

  type Table = t: seq<Descriptor> | |t| == DESCRIPTORS ghost witness seq(DESCRIPTORS, _ => FREE)

  predicate Used(t: Table, fd: int) { 0 <= fd < DESCRIPTORS && t[fd].node.Some? }

  /** Free descriptors are cleared. */
  ghost predicate FreeCleared(t: Table) {
    forall i :: 0 <= i < DESCRIPTORS && t[i].node.None? ==> t[i] == FREE
  }

  // ----- reading

  /** How many bytes the read function copies; the sum wraps on 32 bits. */
  function CopySize(position: Word, size: Word, length: Word): (n: Word) {
    if position >= length then 0
    else if (position + size) % WRAP > length then length - position
    else size
  }

  function Min(a: int, b: int): (m: int) { if a < b then a else b }

  /** The bytes left of the file at a position. */
  function Left(position: Word, length: Word): (n: nat) { if position < length then length - position else 0 }

  /** What is copied is the rest of the file cut to the requested size exactly when the
      request does not wrap; otherwise the copy runs past the end of the file. */
  lemma CopyStaysInside(position: Word, size: Word, length: Word)
    ensures CopySize(position, size, length) <= Left(position, length) <==> position >= length || position + size < WRAP
    ensures position >= length || position + size < WRAP ==>
              CopySize(position, size, length) == Min(size, Left(position, length))
  {
    if position < length && position + size >= WRAP {
      assert (position + size) % WRAP == position + size - WRAP;
    }
  }

  /** `Overrun` is a copy of `count` bytes that runs past the end of the file. */
  datatype Outcome = Failed | Got(bytes: seq<Byte>) | Overrun(count: Word)

  function ReadOf(d: Descriptor, size: Word): (o: Outcome)
    ensures o.Got? ==> |o.bytes| < WRAP
  {
    if d.node.None? || d.flags & O_WRONLY != 0 || d.node.value.isDirectory || !d.node.value.readable then Failed
    else
      var data, n := d.node.value.data, CopySize(d.position, size, |d.node.value.data|);
      if n == 0 then Got([])
      else if d.position + n <= |data| then Got(data[d.position..d.position + n])
      else Overrun(n)
  }

  /** The number returned: a count of 2^31 or more comes back negative. */
  function Returned(o: Outcome): (r: int)
    requires o.Got? ==> |o.bytes| < WRAP
  {
    match o
    case Failed => -1
    case Got(bytes) => AsInt(|bytes|)
    case Overrun(count) => AsInt(count)
  }

  function Advanced(position: Word, returned: int): (p: Word) {
    if returned > 0 then (position + returned) % WRAP else position
  }

  function AfterRead(t: Table, fd: int, size: Word): (t': Table) {
    if !Used(t, fd) then t
    else t[fd := t[fd].(position := Advanced(t[fd].position, Returned(ReadOf(t[fd], size))))]
  }

  // ----- seeking

  function SeekTarget(d: Descriptor, offset: Int32, whence: int): (p: Option<Word>) {
    if whence == SEEK_SET then Some(offset % WRAP)
    else if whence == SEEK_CUR then Some((d.position + offset) % WRAP)
    else if whence == SEEK_END && d.node.Some? then Some((|d.node.value.data| + offset) % WRAP)
    else None
  }

  function AfterSeek(t: Table, fd: int, offset: Int32, whence: int): (t': Table) {
    if !Used(t, fd) then t
    else
      match SeekTarget(t[fd], offset, whence)
      case Some(p) => if p < SIGN then t[fd := t[fd].(position := p)] else t
      case None => t
  }

  /** A seek succeeds exactly when the target is neither before the start nor at 2^31 or
      beyond, or when the sum wraps; then it lands on the target, or 2^32 below it. */
  lemma SeekIsExact(base: Word, offset: Int32)
    ensures (base + offset) % WRAP < SIGN <==> 0 <= base + offset < SIGN || base + offset >= WRAP
    ensures 0 <= base + offset < SIGN ==> (base + offset) % WRAP == base + offset
    ensures base + offset >= WRAP ==> (base + offset) % WRAP == base + offset - WRAP
  {
    if base + offset < 0 {
      assert (base + offset) % WRAP == base + offset + WRAP;
    } else if base + offset >= WRAP {
      assert (base + offset) % WRAP == base + offset - WRAP;
    }
  }

  // ----- opening and closing

  /** The first free descriptor from `i` on. */
  function FirstFree(t: Table, i: nat): (r: Option<nat>)
    requires i <= DESCRIPTORS
    ensures r.Some? ==> i <= r.value < DESCRIPTORS && t[r.value].node.None?
    ensures r.Some? ==> forall k :: i <= k < r.value ==> t[k].node.Some?
    ensures r.None? ==> forall k :: i <= k < DESCRIPTORS ==> t[k].node.Some?
    decreases DESCRIPTORS - i
  {
    if i == DESCRIPTORS then None else if t[i].node.None? then Some(i) else FirstFree(t, i + 1)
  }

  predicate MayOpen(node: Node, flags: bv32) { node.isDirectory ==> flags & (O_WRONLY | O_RDWR) == 0 }

  function AfterOpen(t: Table, node: Option<Node>, flags: bv32): (t': Table) {
    if node.Some? && MayOpen(node.value, flags) && FirstFree(t, FIRST).Some?
    then t[FirstFree(t, FIRST).value := Descriptor(node, 0, flags)]
    else t
  }

  function AfterClose(t: Table, fd: int): (t': Table) { if Used(t, fd) then t[fd := FREE] else t }

  class FileTable {
    const table: array<Descriptor>

    ghost predicate Valid()
      reads this, table
    {
      table.Length == DESCRIPTORS && FreeCleared(table[..])
    }

    constructor ()
      ensures Valid() && fresh(table)
      ensures table[..] == seq(DESCRIPTORS, _ => FREE)
    {
      table := new Descriptor[DESCRIPTORS](_ => FREE);
    }

    method AllocFd() returns (fd: int)
      requires Valid()
      ensures fd == if FirstFree(table[..], FIRST).Some? then FirstFree(table[..], FIRST).value else -1
    {
      for i := FIRST to DESCRIPTORS
        invariant FirstFree(table[..], FIRST) == FirstFree(table[..], i)
      {
        if table[i].node.None? {
          return i;
        }
      }
      return -1;
    }

    /** `node` is what the path resolved to. */
    method Open(node: Option<Node>, flags: bv32) returns (fd: int)
      requires Valid()
      modifies table
      ensures Valid() && table[..] == AfterOpen(old(table[..]), node, flags)
      ensures fd >= 0 <==> node.Some? && MayOpen(node.value, flags) && exists i :: FIRST <= i < DESCRIPTORS && old(table[i]).node.None?
      ensures fd < 0 ==> fd == -1
      ensures fd >= 0 && node.value.isDirectory ==> flags & 6 == 0
      ensures fd >= 0 ==> FIRST <= fd < DESCRIPTORS && old(table[fd]).node.None? && table[fd] == Descriptor(node, 0, flags)
      ensures fd >= 0 ==> forall i :: FIRST <= i < fd ==> old(table[i]).node.Some?
    {
      if node.None? || (node.value.isDirectory && flags & (O_WRONLY | O_RDWR) != 0) {
        return -1;
      }
      fd := AllocFd();
      if fd < 0 {
        return -1;
      }
      table[fd] := Descriptor(node, 0, flags);
    }

    method Close(fd: int) returns (r: int)
      requires Valid()
      modifies table
      ensures Valid() && table[..] == AfterClose(old(table[..]), fd)
      ensures r == if Used(old(table[..]), fd) then 0 else -1
    {
      if fd < 0 || fd >= DESCRIPTORS || table[fd].node.None? {
        return -1;
      }
      table[fd] := FREE;
      return 0;
    }

    /** Opening and closing again restores the whole table. */
    method OpenThenClose(node: Option<Node>, flags: bv32)
      requires Valid()
      modifies table
      ensures table[..] == old(table[..])
    {
      var fd := Open(node, flags);
      var r := Close(fd);
      if fd >= 0 {
        assert old(table[..])[fd] == FREE;
      }
    }

    /** `hasBuffer` is false for a null buffer. */
    method Read(fd: int, hasBuffer: bool, size: Word) returns (r: int, o: Outcome)
      requires Valid()
      modifies table
      ensures Valid()
      ensures table[..] == if hasBuffer then AfterRead(old(table[..]), fd, size) else old(table[..])
      ensures o == if hasBuffer && Used(old(table[..]), fd) then ReadOf(old(table[fd]), size) else Failed
      ensures o.Got? ==> |o.bytes| < WRAP
      ensures r == Returned(o)
    {
      if fd < 0 || fd >= DESCRIPTORS || table[fd].node.None? || !hasBuffer {
        return -1, Failed;
      }
      var d := table[fd];
      if d.flags & O_WRONLY != 0 || d.node.value.isDirectory || !d.node.value.readable {
        return -1, Failed;
      }
      ReadForm(d, size);
      o := ReadNode(d.node.value.data, d.position, size);
      r := Returned(o);
      if r > 0 {
        table[fd] := d.(position := (d.position + r) % WRAP);
      }
    }

    method Seek(fd: int, offset: Int32, whence: int) returns (r: int)
      requires Valid()
      modifies table
      ensures Valid() && table[..] == AfterSeek(old(table[..]), fd, offset, whence)
      ensures r >= 0 <==> Used(old(table[..]), fd) && SeekTarget(old(table[fd]), offset, whence).Some? &&
                          SeekTarget(old(table[fd]), offset, whence).value < SIGN
      ensures if r >= 0 then table[fd].position == r else r == -1
      ensures r >= 0 && whence == 0 ==> r == offset
      ensures r >= 0 && whence == 1 ==> r == (old(table[fd]).position + offset) % 0x1_0000_0000
      ensures r >= 0 && whence == 2 ==> r == (|old(table[fd]).node.value.data| + offset) % 0x1_0000_0000
      ensures r >= 0 ==> r < 0x8000_0000 && whence in {0, 1, 2}
      ensures Used(old(table[..]), fd) && whence == 0 && offset >= 0 ==> r >= 0
      ensures Used(old(table[..]), fd) && whence == 1 && 0 <= old(table[fd]).position + offset < 0x8000_0000 ==> r >= 0
      ensures Used(old(table[..]), fd) && whence == 2 && 0 <= |old(table[fd]).node.value.data| + offset < 0x8000_0000 ==> r >= 0
    {
      if fd < 0 || fd >= DESCRIPTORS || table[fd].node.None? {
        return -1;
      }
      var d := table[fd];
      var target: Word;
      if whence == SEEK_SET {
        target := offset % WRAP;
      } else if whence == SEEK_CUR {
        target := (d.position + offset) % WRAP;
      } else if whence == SEEK_END {
        target := (|d.node.value.data| + offset) % WRAP;
      } else {
        return -1;
      }
      if AsInt(target) < 0 {
        return -1;
      }
      table[fd] := d.(position := target);
      return target;
    }

    /** One operation of a run; the bytes are those it delivers through `fd`. */
    method RunOp(op: Op, fd: int) returns (bytes: seq<Byte>)
      requires Valid() && Used(table[..], fd) && OnlyReads([op], fd)
      modifies table
      ensures Valid() && table[..] == Step(old(table[..]), op) && Used(table[..], fd)
      ensures bytes == Delivered(old(table[..]), [op], fd)
    {
      bytes := [];
      assert OnlyReads([op], fd) && [op][0] == op && [op][1..] == [];
      ghost var before := table[..];
      match op {
        case Open(node, flags) =>
          var _ := Open(node, flags);
        case Close(other) =>
          var _ := Close(other);
        case Read(other, size) =>
          var r, o := Read(other, true, size);
          if other == fd && o.Got? {
            bytes := o.bytes;
          }
        case Seek(other, offset, whence) =>
          var _ := Seek(other, offset, whence);
      }
    }

    /** A run of calls that only reads through `fd` delivers one piece of its file. */
    method RunOps(ops: seq<Op>, fd: int) returns (bytes: seq<Byte>)
      requires Valid() && Used(table[..], fd) && ReadableFile(table[fd]) && OnlyReads(ops, fd)
      requires ReadsFit(ops, fd, table[fd].position, |table[fd].node.value.data|)
      modifies table
      ensures Valid() && table[..] == Run(old(table[..]), ops)
      ensures bytes == Piece(old(table[fd]).node.value.data, old(table[fd]).position, Asked(ops, fd))
    {
      hide Run;
      hide Delivered;
      hide Step;
      hide Piece;
      hide ReadableFile;
      bytes := [];
      assert ops[0..] == ops;
      for i := 0 to |ops|
        invariant Valid() && Used(table[..], fd)
        invariant Run(table[..], ops[i..]) == Run(old(table[..]), ops)
        invariant bytes + Delivered(table[..], ops[i..], fd) == Delivered(old(table[..]), ops, fd)
      {
        assert ops[i..][0] == ops[i] && ops[i..][1..] == ops[i + 1..];
        OthersOrRead(table[..], ops[i], fd);
        DeliveredStep(table[..], ops[i..], fd);
        RunStep(table[..], ops[i..]);
        var more := RunOp(ops[i], fd);
        bytes := bytes + more;
      }
      RunsOut(table[..], fd);
      ChunksJoin(old(table[..]), ops, fd);
    }
  }

  /** The read function of a file of the initial RAM disk: the next bytes of the file, at
      most `size` of them, unless the end of the request wraps. */
  method ReadNode(data: Contents, position: Word, size: Word) returns (o: Outcome)
    ensures o == if position >= |data| || position + size < WRAP then Got(Piece(data, position, size)) else Overrun(size)
  {
    CopyStaysInside(position, size, |data|);
    if position >= |data| {
      return Got([]);
    }
    var n := size;
    if (position + size) % WRAP > |data| {
      n := |data| - position;
    }
    return if position + n <= |data| then Got(data[position..position + n]) else Overrun(n);
  }

  /** What a descriptor open for reading delivers. */
  lemma ReadForm(d: Descriptor, size: Word)
    requires ReadableFile(d)
    ensures ReadOf(d, size) ==
            if d.position >= |d.node.value.data| || d.position + size < WRAP
            then Got(Piece(d.node.value.data, d.position, size)) else Overrun(size)
  {
    CopyStaysInside(d.position, size, |d.node.value.data|);
  }

  // ----- runs

  datatype Op =
    | Open(node: Option<Node>, flags: bv32)
    | Close(fd: int)
    | Read(fd: int, size: Word)
    | Seek(fd: int, offset: Int32, whence: int)

  function Step(t: Table, op: Op): (t': Table) {
    match op
    case Open(node, flags) => AfterOpen(t, node, flags)
    case Close(fd) => AfterClose(t, fd)
    case Read(fd, size) => AfterRead(t, fd, size)
    case Seek(fd, offset, whence) => AfterSeek(t, fd, offset, whence)
  }

  function Run(t: Table, ops: seq<Op>): (t': Table)
    decreases |ops|
  {
    if ops == [] then t else Run(Step(t, ops[0]), ops[1..])
  }

  /** The bytes that a run delivers through one descriptor. */
  function Delivered(t: Table, ops: seq<Op>, fd: int): (bytes: seq<Byte>)
    requires Used(t, fd)
    decreases |ops|
  {
    if ops == [] then []
    else if ops[0].Read? && ops[0].fd == fd then
      (match ReadOf(t[fd], ops[0].size) case Got(b) => b case _ => []) + Delivered(Step(t, ops[0]), ops[1..], fd)
    else if Used(Step(t, ops[0]), fd) then Delivered(Step(t, ops[0]), ops[1..], fd)
    else []
  }

  lemma RunStep(t: Table, ops: seq<Op>)
    requires ops != []
    ensures Run(t, ops) == Run(Step(t, ops[0]), ops[1..])
  {
  }

  lemma RunsOut(t: Table, fd: int)
    requires Used(t, fd)
    ensures Run(t, []) == t && Delivered(t, [], fd) == []
  {
  }

  lemma OthersOrRead(t: Table, op: Op, fd: int)
    requires Used(t, fd) && OnlyReads([op], fd)
    ensures Used(Step(t, op), fd)
  {
    assert [op][0] == op;
  }

  lemma DeliveredStep(t: Table, ops: seq<Op>, fd: int)
    requires Used(t, fd) && ops != [] && Used(Step(t, ops[0]), fd)
    ensures Delivered(t, ops, fd) == Delivered(t, [ops[0]], fd) + Delivered(Step(t, ops[0]), ops[1..], fd)
  {
    assert [ops[0]][1..] == [];
  }

  /** The bytes that a run asks for through one descriptor. */
  function Asked(ops: seq<Op>, fd: int): (n: nat) {
    if ops == [] then 0 else (if ops[0].Read? && ops[0].fd == fd then ops[0].size else 0) + Asked(ops[1..], fd)
  }

  /** The run only reads through `fd`; other descriptors are used in any way. */
  ghost predicate OnlyReads(ops: seq<Op>, fd: int) {
    forall i :: 0 <= i < |ops| ==>
      match ops[i]
      case Open(_, _) => true
      case Close(other) => other != fd
      case Read(_, _) => true
      case Seek(other, _, _) => other != fd
  }

  /** The request neither wraps nor copies 2^31 bytes or more. */
  predicate Fits(position: Word, size: Word, length: Word) {
    position >= length || (position + size < WRAP && Min(size, length - position) < SIGN)
  }

  /** Every read through `fd` fits at the position it is made at. */
  ghost predicate ReadsFit(ops: seq<Op>, fd: int, position: Word, length: Word)
    decreases |ops|
  {
    ops == [] ||
    if ops[0].Read? && ops[0].fd == fd then
      Fits(position, ops[0].size, length) && ReadsFit(ops[1..], fd, Behind(position, ops[0].size, length), length)
    else ReadsFit(ops[1..], fd, position, length)
  }

  /** The position behind the next `n` bytes of the file, as many of them as there are. */
  function Behind(position: Word, n: nat, length: Word): (p: Word) { position + Min(n, Left(position, length)) }

  /** Sizes below 2^31 always fit a file of at most 2^31 bytes. */
  lemma {:induction false} SmallReadsFit(ops: seq<Op>, fd: int, position: Word, length: Word)
    requires length <= SIGN && forall i :: 0 <= i < |ops| && ops[i].Read? && ops[i].fd == fd ==> ops[i].size < SIGN
    ensures ReadsFit(ops, fd, position, length)
    decreases |ops|
  {
    if ops != [] {
      var next := if ops[0].Read? && ops[0].fd == fd then Behind(position, ops[0].size, length) else position;
      SmallReadsFit(ops[1..], fd, next, length);
    }
  }

  ghost predicate ReadableFile(d: Descriptor) {
    d.node.Some? && d.flags & O_WRONLY == 0 && !d.node.value.isDirectory && d.node.value.readable
  }

  /** Operations elsewhere leave a descriptor in use alone. */
  lemma OthersUntouched(t: Table, op: Op, fd: int)
    requires Used(t, fd)
    requires !op.Open? ==> op.fd != fd
    ensures Used(Step(t, op), fd) && Step(t, op)[fd] == t[fd]
  {
  }

  /** The piece of a file of at most `n` bytes from a position. */
  function Piece(data: Contents, position: Word, n: nat): (s: seq<Byte>) {
    if position < |data| then data[position..position + Min(n, |data| - position)] else []
  }

  /** A read delivers the next bytes of the file and moves behind them exactly when the
      request fits. */
  lemma ReadIsPiece(t: Table, fd: int, size: Word)
    requires Used(t, fd) && ReadableFile(t[fd])
    ensures var d, length := t[fd], |t[fd].node.value.data|;
            Fits(d.position, size, length) <==>
            ReadOf(d, size) == Got(Piece(d.node.value.data, d.position, size)) &&
            AfterRead(t, fd, size) == t[fd := d.(position := Behind(d.position, size, length))]
  {
    var d, length := t[fd], |t[fd].node.value.data|;
    CopyStaysInside(d.position, size, length);
    assert t[fd := d.(position := Behind(d.position, size, length))][fd].position == Behind(d.position, size, length);
  }

  lemma PieceSplits(data: Contents, position: Word, n: nat, m: nat)
    ensures Piece(data, position, n + m) ==
            Piece(data, position, n) + Piece(data, Behind(position, n, |data|), m)
    ensures Behind(position, n + m, |data|) == Behind(Behind(position, n, |data|), m, |data|)
  {
  }

  /** Whatever else the run does to other descriptors, the reads through one deliver
      consecutive pieces that join to a single piece of the file. */
  lemma {:induction false} ChunksJoin(t: Table, ops: seq<Op>, fd: int)
    requires Used(t, fd) && ReadableFile(t[fd]) && OnlyReads(ops, fd)
    requires ReadsFit(ops, fd, t[fd].position, |t[fd].node.value.data|)
    ensures Delivered(t, ops, fd) == Piece(t[fd].node.value.data, t[fd].position, Asked(ops, fd))
    ensures Used(Run(t, ops), fd)
    ensures Run(t, ops)[fd] == t[fd].(position := Behind(t[fd].position, Asked(ops, fd), |t[fd].node.value.data|))
    decreases |ops|
  {
    hide Piece;
    hide Behind;
    hide ReadOf;
    hide Fits;
    var d := t[fd];
    var data := d.node.value.data;
    if ops == [] {
      NothingAsked(data, d.position);
    } else {
      var op, rest := ops[0], ops[1..];
      if op.Read? && op.fd == fd {
        ReadIsPiece(t, fd, op.size);
        assert Step(t, op) == AfterRead(t, fd, op.size);
        ChunksJoin(Step(t, op), rest, fd);
        PieceSplits(data, d.position, op.size, Asked(rest, fd));
      } else {
        OthersUntouched(t, op, fd);
        ChunksJoin(Step(t, op), rest, fd);
      }
    }
  }

  lemma NothingAsked(data: Contents, position: Word)
    ensures Piece(data, position, 0) == [] && Behind(position, 0, |data|) == position
  {
  }
}
