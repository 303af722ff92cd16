/** From an archive in memory to the bytes a program reads: the RAM disk mounted as the
    root file system, paths resolved in it, and its files read through descriptors. */
module FileStack {
  import opened Options
  import opened Words
  import opened Paths
  import opened Mounts
  import Initrd
  import Descriptors

  const ROOT: nat := 0

  /** Names as text. */
  function Text(name: seq<Byte>): (s: string)
    ensures |s| == |name|
    ensures forall i :: 0 <= i < |s| ==> s[i] == name[i] as char
  {
    if name == [] then "" else [name[0] as char] + Text(name[1..])
  }

  lemma TextIsInjective(a: seq<Byte>, b: seq<Byte>)
    requires Text(a) == Text(b)
    ensures a == b
  {
    assert |a| == |b|;
    forall i | 0 <= i < |a|
      ensures a[i] == b[i]
    {
      assert Text(a)[i] == Text(b)[i];
      assert (a[i] as char) as int == (b[i] as char) as int;
    }
  }

  function Texts(files: seq<Initrd.FileInfo>): (names: seq<string>)
    ensures |names| == |files| && forall i :: 0 <= i < |files| ==> names[i] == Text(files[i].name)
  {
    if files == [] then [] else Texts(files[..|files| - 1]) + [Text(files[|files| - 1].name)]
  }

  /** The node behind the first file of a name: node i + 1 is the i-th file. */
  function FirstNamed(files: seq<Initrd.FileInfo>, name: string): (r: Option<nat>) {
    match IndexOf(Texts(files), name)
    case Some(i) => Some(i + 1)
    case None => None
  }

  function ChildrenOf(files: seq<Initrd.FileInfo>): (children: map<(nat, string), nat>) {
    if files == [] then map[]
    else
      var before, name := ChildrenOf(files[..|files| - 1]), Text(files[|files| - 1].name);
      if (ROOT, name) in before then before else before[(ROOT, name) := |files|]
  }

  /** The tree of the RAM disk: the root is its only directory. */
  function TreeOf(files: seq<Initrd.FileInfo>): (t: Tree) { Tree({ROOT}, {ROOT}, ChildrenOf(files)) }

  lemma {:induction false} ChildIsFirst(files: seq<Initrd.FileInfo>, name: string)
    ensures Child(TreeOf(files), ROOT, name) == FirstNamed(files, name)
  {
    if files != [] {
      var init := files[..|files| - 1];
      ChildIsFirst(init, name);
      IndexOfSnoc(Texts(init), Text(files[|files| - 1].name), name);
      assert Child(TreeOf(init), ROOT, name).Some? <==> (ROOT, name) in ChildrenOf(init);
    }
  }

  /** What an absolute path names when the RAM disk is the only mount. */
  ghost function AtRoot(t: Tree, path: string): (r: Option<nat>) { Named(Some(ROOT), [Mount("/", ROOT)], t, path) }

  lemma AtRootIsLookup(t: Tree, rel: string)
    ensures AtRoot(t, "/" + rel) == Lookup(t, ROOT, Components(rel))
  {
    var mounts, path := [Mount("/", ROOT)], "/" + rel;
    assert mounts[1..] == [];
    assert Resolve([], path).None?;
    assert "/" <= path && Resolve(mounts, path) == Some(mounts[0]);
    assert path[1..] == rel;
    if rel == "" {
      NeutralIsEmpty("");
    }
  }

  /** The RAM disk is flat: a path with no component names its root, a path with one names
      the first file of that name, and a longer path names nothing. */
  lemma PathsAreFlat(files: seq<Initrd.FileInfo>, rel: string)
    ensures var parts := Components(rel);
            AtRoot(TreeOf(files), "/" + rel) ==
            if parts == [] then Some(ROOT) else if |parts| == 1 then FirstNamed(files, parts[0]) else None
  {
    hide Components;
    hide AtRoot;
    hide FirstNamed;
    hide ChildrenOf;
    var t, parts := TreeOf(files), Components(rel);
    AtRootIsLookup(t, rel);
    if parts != [] {
      ChildIsFirst(files, parts[0]);
      var first := Child(t, ROOT, parts[0]);
      if |parts| == 1 {
        assert parts[1..] == [];
      } else if first.Some? {
        FileIsNoDirectory(files, parts[0]);
        assert Child(t, first.value, parts[1..][0]).None?;
      }
    }
  }

  lemma FileIsNoDirectory(files: seq<Initrd.FileInfo>, name: string)
    requires FirstNamed(files, name).Some?
    ensures FirstNamed(files, name).value > 0
  {
  }

  /** A name that is one whole component: no slash, not "", "." or "..", and not cut. */
  ghost predicate PlainName(name: seq<Byte>) {
    '/' !in Text(name) && Counts(Text(name)) && |name| <= COMPONENT_LIMIT
  }

  /** A file found by its own name. */
  lemma FoundByName(files: seq<Initrd.FileInfo>, k: nat)
    requires k < |files| && PlainName(files[k].name)
    requires forall j :: 0 <= j < k ==> files[j].name != files[k].name
    ensures AtRoot(TreeOf(files), "/" + Text(files[k].name)) == Some(k + 1)
  {
    hide AtRoot;
    hide Components;
    hide Text;
    var name, names := Text(files[k].name), Texts(files);
    OneName(name);
    hide Counts;
    PathsAreFlat(files, name);
    forall j | 0 <= j < k
      ensures names[j] != name
    {
      if names[j] == name {
        TextIsInjective(files[j].name, files[k].name);
      }
    }
    IndexIs(names, name, k);
  }

  /** A path that leads to a file has the file's name, so the name is a whole component and
      no earlier file has it. */
  lemma FoundOnlyByName(files: seq<Initrd.FileInfo>, path: string, k: nat)
    requires k < |files| && AtRoot(TreeOf(files), path) == Some(k + 1)
    ensures PlainName(files[k].name) && forall j :: 0 <= j < k ==> files[j].name != files[k].name
  {
    NotAbsolute(TreeOf(files), path);
    assert path == "/" + path[1..];
    PathsAreFlat(files, path[1..]);
    hide AtRoot;
    hide Text;
    hide IndexOf;
    var parts, names := Components(path[1..]), Texts(files);
    ComponentIsPlain(path[1..], 0);
    hide Components;
    assert FirstNamed(files, parts[0]) == Some(k + 1) && IndexOf(names, parts[0]) == Some(k);
    forall j | 0 <= j < k
      ensures files[j].name != files[k].name
    {
      assert names[j] != parts[0] == names[k];
    }
  }

  lemma NotAbsolute(t: Tree, path: string)
    ensures path == "" || path[0] != '/' ==> AtRoot(t, path).None?
    ensures path == "/" ==> AtRoot(t, path) == Some(ROOT)
  {
    var mounts := [Mount("/", ROOT)];
    assert mounts[1..] == [] && Resolve([], path).None?;
  }

  /** A listed file can be reached exactly when its name is one whole component and no earlier
      file has it; a name with a slash or of more than 127 bytes is reached by no path. */
  lemma ReachedExactly(files: seq<Initrd.FileInfo>, k: nat)
    requires k < |files|
    ensures (exists path: string :: AtRoot(TreeOf(files), path) == Some(k + 1)) <==>
            PlainName(files[k].name) && forall j :: 0 <= j < k ==> files[j].name != files[k].name
  {
    hide AtRoot;
    hide PlainName;
    if path: string :| AtRoot(TreeOf(files), path) == Some(k + 1) {
      FoundOnlyByName(files, path, k);
    } else if PlainName(files[k].name) && forall j :: 0 <= j < k ==> files[j].name != files[k].name {
      FoundByName(files, k);
    }
  }

  // ----- from the archive to the bytes

  /** The file is in memory. */
  predicate InMemory(mem: seq<Byte>, f: Initrd.FileInfo) { f.at + f.size <= |mem| }

  /** What the descriptor table uses of a node: the root is a directory, files have the bytes
      of memory they refer to. */
  function NodeAt(mem: seq<Byte>, files: seq<Initrd.FileInfo>, n: nat): (node: Descriptors.Node)
    requires n <= |files| && (n > 0 ==> InMemory(mem, files[n - 1]))
  {
    if n == ROOT then Descriptors.Node(true, false, [])
    else Descriptors.Node(false, true, mem[files[n - 1].at..files[n - 1].at + files[n - 1].size])
  }

  lemma FoundAmong(mem: seq<Byte>, files: seq<Initrd.FileInfo>, shown: seq<Initrd.Entry>, k: nat)
    requires Initrd.AllMatch(mem, files, shown)
    requires k < |shown| && PlainName(shown[k].name) && forall j :: 0 <= j < k ==> shown[j].name != shown[k].name
    ensures AtRoot(TreeOf(files), "/" + Text(shown[k].name)) == Some(k + 1)
    ensures k < |files| && InMemory(mem, files[k]) && NodeAt(mem, files, k + 1) == Descriptors.Node(false, true, shown[k].data)
  {
    hide AtRoot;
    hide Text;
    assert Initrd.Matches(mem, files[k], shown[k]) && files[k].name == shown[k].name;
    forall j | 0 <= j < k
      ensures files[j].name != files[k].name
    {
      assert Initrd.Matches(mem, files[j], shown[j]);
    }
    FoundByName(files, k);
  }

  /** An archive in memory, from `addr` on. */
  ghost predicate HasArchive(mem: seq<Byte>, addr: nat, size: nat, es: seq<Initrd.Entry>, trailer: Initrd.Entry, upper: bool) {
    && Initrd.ArchiveOk(es, trailer) && addr + size <= |mem| && addr + size < WRAP
    && |Initrd.Archive(es, trailer, upper)| <= size && Initrd.Holds(mem, addr, Initrd.Archive(es, trailer, upper))
  }

  ghost function Shown(es: seq<Initrd.Entry>): (shown: seq<Initrd.Entry>) { Initrd.Take(Initrd.Listed(es), Initrd.MAX_FILES) }

  /** The reader stops on an archive, and whatever files it stops with are those archived. */
  lemma ArchiveIsListed(mem: seq<Byte>, addr: nat, size: nat, es: seq<Initrd.Entry>, trailer: Initrd.Entry, upper: bool)
    requires HasArchive(mem, addr, size, es, trailer, upper)
    ensures var start := Initrd.Parse(addr, [], false);
            && addr + size <= |mem| && addr + size < WRAP && !Initrd.NeverStops(mem, addr + size, start)
            && forall files :: Initrd.FilesAtEveryStop(mem, addr + size, start, files) ==> Initrd.AllMatch(mem, files, Shown(es))
  {
    hide Initrd.Turns;
    hide Initrd.Archive;
    hide Initrd.AllMatch;
    var start, n := Initrd.Parse(addr, [], false), |es| + 1;
    Initrd.ArchiveRoundTrip(mem, addr, size, es, trailer, upper);
    assert Initrd.Stopped(Initrd.Turns(mem, addr + size, start, n), addr + size);
    forall files | Initrd.FilesAtEveryStop(mem, addr + size, start, files)
      ensures Initrd.AllMatch(mem, files, Shown(es))
    {
      assert Initrd.FilesAtStop(mem, addr + size, start, n, files);
    }
  }

  /** The k-th listed entry can be reached by its name. */
  ghost predicate Reachable(es: seq<Initrd.Entry>, k: nat) {
    && k < |Shown(es)| && PlainName(Shown(es)[k].name) && |Shown(es)[k].data| < WRAP
    && forall j :: 0 <= j < k ==> Shown(es)[j].name != Shown(es)[k].name
  }

  ghost function PathOf(es: seq<Initrd.Entry>, k: nat): (path: string)
    requires Reachable(es, k)
  {
    "/" + Text(Shown(es)[k].name)
  }

  ghost function DataOf(es: seq<Initrd.Entry>, k: nat): (data: Descriptors.Contents)
    requires Reachable(es, k)
  {
    Shown(es)[k].data
  }

  /** Reading the archive and resolving the path of an archived file gives its bytes. */
  method FindArchived(mem: seq<Byte>, addr: nat, size: nat, path: string,
                      ghost es: seq<Initrd.Entry>, ghost trailer: Initrd.Entry, ghost upper: bool, ghost k: nat)
    returns (node: Option<Descriptors.Node>)
    requires HasArchive(mem, addr, size, es, trailer, upper) && Reachable(es, k) && path == PathOf(es, k)
    ensures node == Some(Descriptors.Node(false, true, DataOf(es, k)))
  {
    hide Initrd.AllMatch;
    hide Initrd.Turns;
    hide HasArchive;
    hide PlainName;
    hide Named;
    hide Text;
    hide TreeOf;
    hide Shown;
    ArchiveIsListed(mem, addr, size, es, trailer, upper);
    var files := Initrd.Init(mem, addr, size);
    FoundAmong(mem, files, Shown(es), k);
    var mounts := new MountTable(Some(ROOT), true);
    var found := mounts.FindDir(TreeOf(files), path);
    node := Some(NodeAt(mem, files, found.value));
  }

  /** From an archive in memory to the bytes a program reads: the file is opened by its path
      and read in any pieces, with any other use of other descriptors in between, and comes
      back from its start. */
  method ReadArchived(mem: seq<Byte>, addr: nat, size: nat, path: string,
                      ghost es: seq<Initrd.Entry>, ghost trailer: Initrd.Entry, ghost upper: bool, ghost k: nat,
                      open: Descriptors.FileTable, flags: bv32, ops: seq<Descriptors.Op>) returns (fd: int, bytes: seq<Byte>)
    requires HasArchive(mem, addr, size, es, trailer, upper) && Reachable(es, k) && path == PathOf(es, k)
    requires open.Valid() && Descriptors.FirstFree(open.table[..], Descriptors.FIRST).Some? && flags & Descriptors.O_WRONLY == 0
    requires var fd := Descriptors.FirstFree(open.table[..], Descriptors.FIRST).value;
             Descriptors.OnlyReads(ops, fd) && Descriptors.ReadsFit(ops, fd, 0, |DataOf(es, k)|)
    modifies open.table
    ensures fd == Descriptors.FirstFree(old(open.table[..]), Descriptors.FIRST).value
    ensures bytes == DataOf(es, k)[..Descriptors.Min(Descriptors.Asked(ops, fd), |DataOf(es, k)|)]
  {
    hide Descriptors.ReadsFit;
    hide Descriptors.OnlyReads;
    hide Descriptors.Asked;
    hide HasArchive;
    hide Reachable;
    hide PathOf;
    hide DataOf;
    var node := FindArchived(mem, addr, size, path, es, trailer, upper, k);
    fd := open.Open(node, flags);
    bytes := open.RunOps(ops, fd);
  }
}
