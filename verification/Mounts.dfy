/** The mount table: which mount a path belongs to, and how mounting and unmounting
    change that. */
module Mounts {
  import opened Options
  import opened Paths

  datatype Mount = Mount(path: string, node: nat)

  /** The character test: the mount path is a prefix that ends at a component boundary. */
  predicate Covers(mount: string, path: string) {
    mount <= path && (|path| == |mount| || path[|mount|] == '/' || mount == "/")
  }

  /** The components of a mount path; the root mount stands for the empty beginning of
      every absolute path. */
  function MountParts(mount: string): (parts: seq<string>) {
    if mount == "/" then [""] else Split(mount)
  }

  lemma PrefixCons<T>(a: T, p: seq<T>, b: T, q: seq<T>)
    ensures [a] + p <= [b] + q <==> a == b && p <= q
  {
    if [a] + p <= [b] + q {
      assert ([a] + p)[0] == ([b] + q)[0];
      assert forall k :: 0 <= k < |p| ==> p[k] == ([a] + p)[k + 1] == ([b] + q)[k + 1] == q[k];
    }
  }

  lemma {:induction false} BoundaryIsPrefix(mount: string, path: string)
    ensures mount <= path && (|path| == |mount| || path[|mount|] == '/') <==> Split(mount) <= Split(path)
  {
    var ms, ps := Split(mount), Split(path);
    PrefixCons(ms[0], ms[1..], ps[0], ps[1..]);
    assert ms == [ms[0]] + ms[1..] && ps == [ps[0]] + ps[1..];
    if mount == "" {
      assert ps[0] == "" <==> path == "" || path[0] == '/';
    } else if path == "" {
      assert ps == [""] && ms != [""];
    } else {
      var m, p := Split(mount[1..]), Split(path[1..]);
      BoundaryIsPrefix(mount[1..], path[1..]);
      PrefixCons(mount[0], mount[1..], path[0], path[1..]);
      assert mount == [mount[0]] + mount[1..] && path == [path[0]] + path[1..];
      if mount[0] != '/' && path[0] != '/' {
        PrefixCons(m[0], m[1..], p[0], p[1..]);
        assert m == [m[0]] + m[1..] && p == [p[0]] + p[1..];
        ConsEqual(mount[0], m[0], path[0], p[0]);
      }
    }
  }

  lemma ConsEqual<T>(a: T, p: seq<T>, b: T, q: seq<T>)
    ensures [a] + p == [b] + q <==> a == b && p == q
  {
    if [a] + p == [b] + q {
      assert ([a] + p)[0] == ([b] + q)[0];
      assert ([a] + p)[1..] == p && ([b] + q)[1..] == q;
    }
  }

  /** The character test is the component-wise prefix test; only the empty path, which
      the root mount does not cover, is set apart. */
  lemma CoversIsComponentPrefix(mount: string, path: string)
    ensures Covers(mount, path) <==> MountParts(mount) <= Split(path) && (mount == "/" ==> path != "")
  {
    BoundaryIsPrefix(mount, path);
  }

  // ----- resolution

  /** A mount covers the path and no mount that covers it has a longer path. */
  ghost predicate IsBest(mounts: seq<Mount>, path: string, i: nat) {
    && i < |mounts| && Covers(mounts[i].path, path)
    && forall j :: 0 <= j < |mounts| && Covers(mounts[j].path, path) ==> |mounts[j].path| <= |mounts[i].path|
  }

  /** The search of the list: the longest covering mount, the last one among equals. */
  method FindMountPoint(mounts: seq<Mount>, path: string) returns (r: Option<nat>)
    ensures r.Some? ==> IsBest(mounts, path, r.value)
    ensures r.Some? ==> forall j :: r.value < j < |mounts| && Covers(mounts[j].path, path) ==>
                          |mounts[j].path| < |mounts[r.value].path|
    ensures r.None? ==> forall j :: 0 <= j < |mounts| ==> !Covers(mounts[j].path, path)
  {
    r := None;
    var bestLen := 0;
    for i := 0 to |mounts|
      invariant r.Some? ==> r.value < i && Covers(mounts[r.value].path, path) && bestLen == |mounts[r.value].path|
      invariant r.None? ==> bestLen == 0
      invariant r.Some? ==> forall j :: 0 <= j < i && Covers(mounts[j].path, path) ==>
                              |mounts[j].path| <= bestLen && (j > r.value ==> |mounts[j].path| < bestLen)
      invariant r.None? ==> forall j :: 0 <= j < i ==> !Covers(mounts[j].path, path)
    {
      var mount := mounts[i].path;
      if mount <= path && |mount| >= bestLen {
        if |path| == |mount| || path[|mount|] == '/' || mount == "/" {
          r, bestLen := Some(i), |mount|;
        }
      }
    }
  }

  ghost predicate PathsDistinct(mounts: seq<Mount>) {
    forall i, j :: 0 <= i < j < |mounts| ==> mounts[i].path != mounts[j].path
  }

  /** Two mounts that cover a path with equally long paths have the same path. */
  lemma SameLengthSamePath(a: string, b: string, path: string)
    requires Covers(a, path) && Covers(b, path) && |a| == |b|
    ensures a == b
  {
  }

  /** Resolution depends on the set of mounts only, not on their order. */
  lemma OrderDoesNotMatter(mounts: seq<Mount>, mounts': seq<Mount>, path: string, i: nat, i': nat)
    requires PathsDistinct(mounts) && multiset(mounts) == multiset(mounts')
    requires IsBest(mounts, path, i) && IsBest(mounts', path, i')
    ensures mounts[i] == mounts'[i']
  {
    assert mounts'[i'] in multiset(mounts') && mounts[i] in multiset(mounts);
    var k :| 0 <= k < |mounts| && mounts[k] == mounts'[i'];
    var k' :| 0 <= k' < |mounts'| && mounts'[k'] == mounts[i];
    SameLengthSamePath(mounts[i].path, mounts[k].path, path);
  }

  /** The mount a path resolves to, computed from the tail of the list. */
  ghost function Resolve(mounts: seq<Mount>, path: string): (r: Option<Mount>) {
    if mounts == [] then None
    else
      var m, rest := mounts[0], Resolve(mounts[1..], path);
      if Covers(m.path, path) && (rest.None? || |rest.value.path| < |m.path|) then Some(m) else rest
  }

  lemma {:induction false} ResolveSpec(mounts: seq<Mount>, path: string)
    ensures Resolve(mounts, path).None? <==> forall j :: 0 <= j < |mounts| ==> !Covers(mounts[j].path, path)
    ensures Resolve(mounts, path).Some? ==>
              exists i: nat :: IsBest(mounts, path, i) && mounts[i] == Resolve(mounts, path).value
  {
    if mounts != [] {
      var m, tail := mounts[0], mounts[1..];
      ResolveSpec(tail, path);
      assert forall j :: 1 <= j < |mounts| ==> mounts[j] == tail[j - 1];
      if Resolve(tail, path).Some? {
        var i: nat :| IsBest(tail, path, i) && tail[i] == Resolve(tail, path).value;
        if Resolve(mounts, path) == Resolve(tail, path) {
          assert IsBest(mounts, path, i + 1);
        } else {
          assert IsBest(mounts, path, 0);
        }
      } else {
        assert forall j :: 1 <= j < |mounts| ==> !Covers(mounts[j].path, path);
        if Covers(m.path, path) {
          assert IsBest(mounts, path, 0);
        }
      }
    }
  }

  lemma ResolveIsBest(mounts: seq<Mount>, path: string, i: nat)
    requires PathsDistinct(mounts) && IsBest(mounts, path, i)
    ensures Resolve(mounts, path) == Some(mounts[i])
  {
    ResolveSpec(mounts, path);
    var k: nat :| IsBest(mounts, path, k) && mounts[k] == Resolve(mounts, path).value;
    SameLengthSamePath(mounts[i].path, mounts[k].path, path);
  }

  // ----- what a new mount changes

  /** The new mount covers the path and is deeper than every mount that covers it. */
  ghost predicate TakesOver(mounts: seq<Mount>, m: Mount, path: string) {
    Covers(m.path, path) && forall j :: 0 <= j < |mounts| && Covers(mounts[j].path, path) ==> |mounts[j].path| < |m.path|
  }

  /** The search finds a new mount exactly for the paths it takes over, and for every other
      path what it found before. */
  lemma MountTakesOver(mounts: seq<Mount>, m: Mount, path: string)
    requires PathsDistinct([m] + mounts)
    ensures IsBest([m] + mounts, path, 0) <==> TakesOver(mounts, m, path)
    ensures !TakesOver(mounts, m, path) ==>
              forall i: nat :: IsBest(mounts, path, i) <==> IsBest([m] + mounts, path, i + 1)
  {
    var all := [m] + mounts;
    assert all[0] == m && forall j :: 0 <= j < |mounts| ==> all[j + 1] == mounts[j];
    forall j | 0 <= j < |mounts| && Covers(m.path, path) && Covers(mounts[j].path, path)
      ensures |mounts[j].path| != |m.path|
    {
      assert all[j + 1].path != all[0].path;
      if |mounts[j].path| == |m.path| {
        SameLengthSamePath(mounts[j].path, m.path, path);
      }
    }
    forall i: nat | !TakesOver(mounts, m, path)
      ensures IsBest(mounts, path, i) <==> IsBest(all, path, i + 1)
    {
      if IsBest(mounts, path, i) && Covers(m.path, path) {
        var k :| 0 <= k < |mounts| && Covers(mounts[k].path, path) && |mounts[k].path| >= |m.path|;
        assert |mounts[k].path| <= |mounts[i].path|;
      }
      if IsBest(all, path, i + 1) {
        forall k | 0 <= k < |mounts| && Covers(mounts[k].path, path)
          ensures |mounts[k].path| <= |mounts[i].path|
        {
          assert all[k + 1] == mounts[k];
        }
      }
    }
  }

  /** So the resolution of a path changes exactly when the new mount takes it over. */
  lemma MountChangesResolution(mounts: seq<Mount>, m: Mount, path: string)
    requires PathsDistinct([m] + mounts)
    ensures Resolve([m] + mounts, path) == if TakesOver(mounts, m, path) then Some(m) else Resolve(mounts, path)
    ensures Resolve([m] + mounts, path) != Resolve(mounts, path) <==> TakesOver(mounts, m, path)
  {
    var all := [m] + mounts;
    MountTakesOver(mounts, m, path);
    DistinctTail(mounts, m);
    ResolveSpec(mounts, path);
    ResolveSpec(all, path);
    hide Resolve;
    if TakesOver(mounts, m, path) {
      ResolveIsBest(all, path, 0);
    } else if Resolve(mounts, path).Some? {
      var i: nat :| IsBest(mounts, path, i) && mounts[i] == Resolve(mounts, path).value;
      ResolveIsBest(all, path, i + 1);
    } else {
      assert !Covers(m.path, path);
      assert forall j :: 0 <= j < |all| ==> all[j] == m || all[j] in mounts;
      assert Resolve(all, path).None?;
    }
  }

  lemma DistinctTail(mounts: seq<Mount>, m: Mount)
    requires PathsDistinct([m] + mounts)
    ensures PathsDistinct(mounts)
  {
    var all := [m] + mounts;
    assert forall j :: 0 <= j < |mounts| ==> all[j + 1] == mounts[j];
  }

  /** Among mounts that cover a path, longer paths are deeper ones. */
  lemma LongerIsDeeper(m: string, other: string, path: string)
    requires m != "" && other != "" && Covers(m, path) && Covers(other, path)
    ensures |m| < |other| <==> MountParts(m) < MountParts(other)
  {
    BoundaryIsPrefix(m, other);
    BoundaryIsPrefix(other, m);
    BoundaryIsPrefix("", other);
    BoundaryIsPrefix("", m);
    assert Split("") == [""];
    if m == "/" && other != "/" {
      assert other[0] == path[0] == '/';
    }
    if other == "/" && m != "/" {
      assert m[0] == path[0] == '/';
    }
  }

  /** In components: the new mount's are a prefix of the path's, and no mount of the list has
      components that lie between the two. */
  lemma TakesOverByComponents(mounts: seq<Mount>, m: Mount, path: string)
    requires PathsDistinct([m] + mounts) && path != "" && m.path != "" && forall j :: 0 <= j < |mounts| ==> mounts[j].path != ""
    ensures TakesOver(mounts, m, path) <==>
            MountParts(m.path) <= Split(path) &&
            forall j :: 0 <= j < |mounts| ==> !(MountParts(m.path) < MountParts(mounts[j].path) <= Split(path))
  {
    hide MountParts;
    hide Split;
    var all := [m] + mounts;
    CoversIsComponentPrefix(m.path, path);
    forall j | 0 <= j < |mounts| && Covers(m.path, path)
      ensures Covers(mounts[j].path, path) <==> MountParts(mounts[j].path) <= Split(path)
      ensures Covers(mounts[j].path, path) ==>
                (|mounts[j].path| < |m.path| <==> !(MountParts(m.path) < MountParts(mounts[j].path)))
    {
      CoversIsComponentPrefix(mounts[j].path, path);
      if Covers(mounts[j].path, path) {
        LongerIsDeeper(m.path, mounts[j].path, path);
        assert all[0].path != all[j + 1].path;
        if |mounts[j].path| == |m.path| {
          SameLengthSamePath(mounts[j].path, m.path, path);
        }
      }
    }
  }

  // ----- the table

  /** The list without the first mount on `target`. */
  ghost function Unmounted(mounts: seq<Mount>, target: string): (r: seq<Mount>) {
    if mounts == [] then [] else if mounts[0].path == target then mounts[1..] else [mounts[0]] + Unmounted(mounts[1..], target)
  }

  /** A mount target that exists must be a directory. */
  ghost predicate Blocked(found: Option<nat>, t: Tree) { found.Some? && found.value !in t.directories }

  /** The path resolves to the new mount if that takes it over, and as before otherwise. */
  ghost predicate TookOver(before: seq<Mount>, after: seq<Mount>, m: Mount, path: string) {
    Resolve(after, path) == if TakesOver(before, m, path) then Some(m) else Resolve(before, path)
  }

  lemma TookOverAll(mounts: seq<Mount>, m: Mount)
    requires PathsDistinct([m] + mounts)
    ensures forall path: string :: TookOver(mounts, [m] + mounts, m, path)
  {
    forall path: string
      ensures TookOver(mounts, [m] + mounts, m, path)
    {
      MountChangesResolution(mounts, m, path);
      hide Resolve;
      hide TakesOver;
    }
  }

  /** Below a mount a name is looked up in the node mounted there, if the mount takes the
      path over. */
  ghost predicate NamesChild(root: Option<nat>, before: seq<Mount>, after: seq<Mount>, t: Tree, m: Mount, c: string) {
    '/' !in c && c != "" && c != "." && c != ".." && |c| <= 127 && TakesOver(before, m, m.path + "/" + c) ==>
      Named(root, after, t, m.path + "/" + c) == Child(t, m.node, c)
  }

  lemma TakesOverItself(mounts: seq<Mount>, m: Mount)
    requires PathsDistinct([m] + mounts)
    ensures TakesOver(mounts, m, m.path)
  {
    var all := [m] + mounts;
    forall j | 0 <= j < |mounts| && Covers(mounts[j].path, m.path)
      ensures |mounts[j].path| < |m.path|
    {
      assert all[0].path != all[j + 1].path;
      if |mounts[j].path| == |m.path| {
        SameLengthSamePath(mounts[j].path, m.path, m.path);
      }
    }
  }

  /** The target names the node mounted there. */
  lemma NamesMounted(root: Option<nat>, mounts: seq<Mount>, t: Tree, m: Mount)
    requires PathsDistinct([m] + mounts)
    ensures m.path != "/" ==> Named(root, [m] + mounts, t, m.path) == Some(m.node)
  {
    TakesOverItself(mounts, m);
    MountChangesResolution(mounts, m, m.path);
    hide Resolve;
    hide Components;
    NeutralIsEmpty("");
    assert m.path[|m.path|..] == "";
  }

  lemma OneBelow(t: Tree, node: nat, c: string)
    requires '/' !in c && c != "" && c != "." && c != ".." && |c| <= 127
    ensures Lookup(t, node, Components("/" + c)) == Child(t, node, c)
  {
    assert "" + "/" + c == "/" + c;
    ComponentsAtSlash("", c);
    NeutralIsEmpty("");
    OneName(c);
    hide Components;
    assert [c][1..] == [];
  }

  lemma BelowNamesChild(root: Option<nat>, mounts: seq<Mount>, t: Tree, m: Mount, c: string)
    requires PathsDistinct([m] + mounts)
    ensures NamesChild(root, mounts, [m] + mounts, t, m, c)
  {
    var path := m.path + "/" + c;
    MountChangesResolution(mounts, m, path);
    hide Resolve;
    hide Components;
    hide Lookup;
    hide Child;
    if '/' !in c && c != "" && c != "." && c != ".." && |c| <= 127 {
      assert path[|m.path|..] == "/" + c;
      OneBelow(t, m.node, c);
      assert |path| > 1;
    }
  }

  /** After a mount the target names the node mounted there, and the paths below it that
      the mount takes over name what is below that node. */
  lemma MountNames(root: Option<nat>, mounts: seq<Mount>, t: Tree, m: Mount)
    requires PathsDistinct([m] + mounts)
    ensures m.path != "/" ==> Named(root, [m] + mounts, t, m.path) == Some(m.node)
    ensures forall c: string :: NamesChild(root, mounts, [m] + mounts, t, m, c)
  {
    NamesMounted(root, mounts, t, m);
    hide *;
    forall c: string
      ensures NamesChild(root, mounts, [m] + mounts, t, m, c)
    {
      BelowNamesChild(root, mounts, t, m, c);
    }
  }

  ghost predicate IsMounted(mounts: seq<Mount>, target: string) {
    exists i :: 0 <= i < |mounts| && mounts[i].path == target
  }

  // ----- naming a node

  /** What a path names: the components after the path of the responsible mount, looked
      up from the node mounted there. */
  ghost function Named(root: Option<nat>, mounts: seq<Mount>, t: Tree, path: string): (r: Option<nat>) {
    if path == "/" then root
    else
      match Resolve(mounts, path)
      case None => None
      case Some(m) => if |m.path| <= |path| then Lookup(t, m.node, Components(path[|m.path|..])) else None
  }

  /** The path after the mount's own, without leading slashes, "." when nothing is left. */
  method RelativePath(path: string, mount: string) returns (rel: string)
    requires |mount| <= |path|
    ensures Components(rel) == Components(path[|mount|..])
    ensures rel != "" && rel[0] != '/'
  {
    var i := |mount|;
    while i < |path| && path[i] == '/'
      invariant |mount| <= i <= |path|
      invariant Components(path[i..]) == Components(path[|mount|..])
    {
      assert path[i..] == "" + "/" + path[i + 1..];
      ComponentsAtSlash("", path[i + 1..]);
      assert Components("") == [];
      i := i + 1;
    }
    if i < |path| {
      return path[i..];
    }
    NeutralIsEmpty(".");
    return ".";
  }

  class MountTable {
    var root: Option<nat>
    var mounts: seq<Mount>

    ghost predicate Valid()
      reads this
    {
      PathsDistinct(mounts)
    }

    constructor (root: Option<nat>, hasMemory: bool)
      ensures Valid() && this.root == root
      ensures mounts == if root.Some? && hasMemory then [Mount("/", root.value)] else []
    {
      this.root := root;
      mounts := if root.Some? && hasMemory then [Mount("/", root.value)] else [];
    }

    /** `node` is what the file system driver returned, and `hasMemory` whether a record
        could be had. */
    method MountAt(t: Tree, target: string, hasMemory: bool, node: Option<nat>) returns (ok: bool)
      requires Valid()
      modifies this`mounts
      ensures Valid()
      ensures ok <==> !Blocked(Named(root, old(mounts), t, target), t) && !IsMounted(old(mounts), target) && hasMemory && node.Some?
      ensures mounts == if ok then [Mount(target, node.value)] + old(mounts) else old(mounts)
      ensures ok ==> forall path: string :: TookOver(old(mounts), mounts, Mount(target, node.value), path)
      ensures ok && target != "/" ==> Named(root, mounts, t, target) == Some(node.value)
      ensures ok ==> forall c: string :: NamesChild(root, old(mounts), mounts, t, Mount(target, node.value), c)
    {
      hide NamesChild;
      hide Named;
      hide TookOver;
      hide IsBest;
      hide Lookup;
      hide Components;
      hide Covers;
      var found := FindDir(t, target);
      if found.Some? && found.value !in t.directories {
        return false;
      }
      for i := 0 to |mounts|
        invariant unchanged(this)
        invariant forall k :: 0 <= k < i ==> mounts[k].path != target
      {
        if mounts[i].path == target {
          return false;
        }
      }
      if !hasMemory || node.None? {
        return false;
      }
      ghost var before := mounts;
      mounts := [Mount(target, node.value)] + mounts;
      TookOverAll(before, Mount(target, node.value));
      MountNames(root, before, t, Mount(target, node.value));
      return true;
    }

    method Umount(target: string) returns (ok: bool)
      requires Valid()
      modifies this`mounts
      ensures Valid()
      ensures ok <==> target != "/" && IsMounted(old(mounts), target)
      ensures mounts == if ok then Unmounted(old(mounts), target) else old(mounts)
      ensures ok ==> exists m :: m in old(mounts) && m.path == target && forall path: string :: TookOver(mounts, old(mounts), m, path)
    {
      var i := 0;
      while i < |mounts|
        invariant i <= |mounts| && unchanged(this)
        invariant forall k :: 0 <= k < i ==> mounts[k].path != target
      {
        if mounts[i].path == target {
          if target == "/" {
            return false;
          }
          UnmountedAt(mounts, target, i);
          forall path: string
            ensures TookOver(Unmounted(mounts, target), mounts, mounts[i], path)
          {
            UmountGivesBack(mounts, i, path);
          }
          mounts := mounts[..i] + mounts[i + 1..];
          return true;
        }
        i := i + 1;
      }
      return false;
    }

    /** Mounting and then unmounting a target restores the table. */
    method MountThenUmount(t: Tree, target: string, hasMemory: bool, node: Option<nat>)
      requires Valid() && target != "/" && !IsMounted(mounts, target)
      modifies this`mounts
      ensures mounts == old(mounts)
    {
      var mounted := MountAt(t, target, hasMemory, node);
      assert mounted ==> mounts[0].path == target && mounts[1..] == old(mounts);
      var unmounted := Umount(target);
    }

    /** Resolving a path: the mount that is responsible, then a walk over what follows
        the mount's own path. */
    method FindDir(t: Tree, path: string) returns (r: Option<nat>)
      requires Valid()
      ensures r == Named(root, mounts, t, path)
      ensures path == "/" ==> r == root
      ensures path != "/" && (forall j :: 0 <= j < |mounts| ==> !Covers(mounts[j].path, path)) ==> r.None?
      ensures forall i: nat :: path != "/" && IsBest(mounts, path, i) ==>
                r == Lookup(t, mounts[i].node, Components(path[|mounts[i].path|..]))
    {
      forall i: nat | path != "/" && IsBest(mounts, path, i)
        ensures Named(root, mounts, t, path) == Lookup(t, mounts[i].node, Components(path[|mounts[i].path|..]))
      {
        ResolveIsBest(mounts, path, i);
      }
      if path == "/" {
        return root;
      }
      var found := FindMountPoint(mounts, path);
      if found.None? {
        ResolveSpec(mounts, path);
        return None;
      }
      ResolveIsBest(mounts, path, found.value);
      var mount := mounts[found.value];
      var rel := RelativePath(path, mount.path);
      if rel == "." {
        NeutralIsEmpty(".");
        return Some(mount.node);
      }
      r := Walk(t, mount.node, rel);
    }
  }

  lemma {:induction false} UnmountedAt(mounts: seq<Mount>, target: string, i: nat)
    requires i < |mounts| && mounts[i].path == target && forall k :: 0 <= k < i ==> mounts[k].path != target
    ensures Unmounted(mounts, target) == mounts[..i] + mounts[i + 1..]
  {
    if i > 0 {
      UnmountedAt(mounts[1..], target, i - 1);
      assert [mounts[0]] + mounts[1..][..i - 1] == mounts[..i];
    }
  }

  lemma {:induction false} UnmountedMultiset(mounts: seq<Mount>, i: nat)
    requires i < |mounts| && forall k :: 0 <= k < i ==> mounts[k].path != mounts[i].path
    ensures multiset([mounts[i]] + Unmounted(mounts, mounts[i].path)) == multiset(mounts)
  {
    UnmountedAt(mounts, mounts[i].path, i);
    assert mounts == mounts[..i] + [mounts[i]] + mounts[i + 1..];
  }

  lemma ResolvedInAnyOrder(mounts: seq<Mount>, mounts': seq<Mount>, path: string)
    requires multiset(mounts) == multiset(mounts')
    ensures Resolve(mounts, path).Some? ==> Resolve(mounts', path).Some?
  {
    ResolveSpec(mounts, path);
    ResolveSpec(mounts', path);
    hide Resolve;
    if Resolve(mounts, path).Some? {
      var i: nat :| IsBest(mounts, path, i) && mounts[i] == Resolve(mounts, path).value;
      assert mounts[i] in multiset(mounts');
      var j :| 0 <= j < |mounts'| && mounts'[j] == mounts[i];
    }
  }

  lemma SameMountsSameResolution(mounts: seq<Mount>, mounts': seq<Mount>, path: string)
    requires PathsDistinct(mounts) && PathsDistinct(mounts') && multiset(mounts) == multiset(mounts')
    ensures Resolve(mounts, path) == Resolve(mounts', path)
  {
    ResolveSpec(mounts, path);
    ResolveSpec(mounts', path);
    ResolvedInAnyOrder(mounts, mounts', path);
    ResolvedInAnyOrder(mounts', mounts, path);
    hide Resolve;
    if Resolve(mounts, path).Some? && Resolve(mounts', path).Some? {
      var i: nat :| IsBest(mounts, path, i) && mounts[i] == Resolve(mounts, path).value;
      var i': nat :| IsBest(mounts', path, i') && mounts'[i'] == Resolve(mounts', path).value;
      OrderDoesNotMatter(mounts, mounts', path, i, i');
    }
  }

  lemma DistinctInAnyOrder(mounts: seq<Mount>, i: nat)
    requires PathsDistinct(mounts) && i < |mounts|
    ensures PathsDistinct([mounts[i]] + (mounts[..i] + mounts[i + 1..]))
  {
    var rest := mounts[..i] + mounts[i + 1..];
    assert forall k :: 0 <= k < |rest| ==> rest[k] == mounts[if k < i then k else k + 1];
  }

  /** Unmounting undoes mounting, in whatever order the mounts were made: the paths that
      change are those the mount would take over from the others, and they go back to them. */
  lemma UmountGivesBack(mounts: seq<Mount>, i: nat, path: string)
    requires PathsDistinct(mounts) && i < |mounts|
    ensures TookOver(Unmounted(mounts, mounts[i].path), mounts, mounts[i], path)
  {
    var m, rest := mounts[i], Unmounted(mounts, mounts[i].path);
    UnmountedAt(mounts, m.path, i);
    UnmountedMultiset(mounts, i);
    DistinctInAnyOrder(mounts, i);
    SameMountsSameResolution([m] + rest, mounts, path);
    MountChangesResolution(rest, m, path);
  }

  // ----- neutral components of a whole path

  /** No mount that could be responsible reaches into what follows `a`. */
  ghost predicate NoMountPast(mounts: seq<Mount>, a: string, p: string, q: string) {
    forall m :: m in mounts && (Covers(m.path, p) || Covers(m.path, q)) ==> |m.path| <= |a| || m.path == "/"
  }

  lemma {:induction false} SameResolution(mounts: seq<Mount>, a: string, p: string, q: string)
    requires a + "/" <= p && a + "/" <= q && NoMountPast(mounts, a, p, q)
    ensures Resolve(mounts, p) == Resolve(mounts, q)
    ensures Resolve(mounts, p).Some? ==>
              (|Resolve(mounts, p).value.path| <= |a| || Resolve(mounts, p).value.path == "/") && Resolve(mounts, p).value.path <= p
  {
    if mounts != [] {
      SameResolution(mounts[1..], a, p, q);
      assert p[..|a| + 1] == q[..|a| + 1] == a + "/";
      var m := mounts[0].path;
      assert mounts[0] in mounts;
      if Covers(m, p) || Covers(m, q) {
        assert forall k :: 0 <= k <= |a| ==> p[k] == p[..|a| + 1][k] == q[..|a| + 1][k] == q[k];
      }
    }
  }

  /** A mount path with no empty, "." or ".." component behind the first. */
  ghost predicate PlainMount(mount: string) {
    mount == "/" || forall k :: 1 <= k < |Split(mount)| ==> Split(mount)[k] !in {"", ".", ".."}
  }

  ghost predicate PlainMounts(mounts: seq<Mount>) {
    forall m :: m in mounts ==> PlainMount(m.path)
  }

  /** No mount that covers the path reaches past `a`. */
  ghost predicate NothingPast(mounts: seq<Mount>, a: string, path: string) {
    forall m :: m in mounts && Covers(m.path, path) ==> |m.path| <= |a| || m.path == "/"
  }

  lemma PlainStopsBefore(mount: string, a: string, part: string, b: string)
    requires part in {"", ".", ".."} && PlainMount(mount) && mount != "/" && Covers(mount, a + "/" + part + "/" + b)
    ensures |mount| <= |a|
  {
    var m, s := Split(mount), Split(a);
    OnePart(part);
    SplitAtSlash(a, part);
    SplitAtSlash(a + "/" + part, b);
    CoversIsComponentPrefix(mount, a + "/" + part + "/" + b);
    assert Split(a + "/" + part + "/" + b) == s + [part] + Split(b);
    assert (s + [part] + Split(b))[|s|] == part;
    assert |m| <= |s|;
    assert m <= s;
    BoundaryIsPrefix(mount, a);
  }

  lemma OnlyRootIsShort(mount: string, path: string)
    requires Covers(mount, path) && mount != "" && mount != "/"
    ensures |mount| >= 2 || path == "" || path[0] != '/'
  {
    assert mount[0] == path[0];
  }

  /** With plain mount paths, an empty, "." or ".." component leaves the resolution as it is
      exactly when no mount that covers the path without it reaches past it. */
  lemma NeutralKeepsResolution(mounts: seq<Mount>, a: string, part: string, b: string)
    requires part in {"", ".", ".."} && PlainMounts(mounts)
    ensures Resolve(mounts, a + "/" + part + "/" + b) == Resolve(mounts, a + "/" + b) <==> NothingPast(mounts, a, a + "/" + b)
    ensures NothingPast(mounts, a, a + "/" + b) ==> NoMountPast(mounts, a, a + "/" + part + "/" + b, a + "/" + b)
  {
    hide Resolve;
    hide PlainMount;
    var p, q := a + "/" + part + "/" + b, a + "/" + b;
    forall m | m in mounts && Covers(m.path, p)
      ensures |m.path| <= |a| || m.path == "/"
    {
      if m.path != "/" {
        PlainStopsBefore(m.path, a, part, b);
      }
    }
    if NothingPast(mounts, a, q) {
      SameResolution(mounts, a, p, q);
    } else {
      ResolveSpec(mounts, p);
      ResolveSpec(mounts, q);
      var m :| m in mounts && Covers(m.path, q) && |m.path| > |a| && m.path != "/";
      var j :| 0 <= j < |mounts| && mounts[j] == m;
      var i: nat :| IsBest(mounts, q, i) && mounts[i] == Resolve(mounts, q).value;
      assert |mounts[i].path| >= |m.path|;
      OnlyRootIsShort(m.path, q);
      assert !Covers(mounts[i].path, p);
    }
  }

  /** The components of a path are those of a mount that covers it and those behind it. */
  lemma CoveredComponents(mount: string, path: string)
    requires Covers(mount, path)
    ensures Components(path) == Components(mount) + Components(path[|mount|..])
  {
    hide Components;
    NeutralIsEmpty("");
    var rest := path[|mount|..];
    if |path| == |mount| {
      assert path == mount && rest == "";
    } else if path[|mount|] == '/' {
      assert path == mount + "/" + rest[1..] && rest == "" + "/" + rest[1..];
      ComponentsAtSlash(mount, rest[1..]);
      ComponentsAtSlash("", rest[1..]);
    } else {
      assert path == "" + "/" + rest && mount == "" + "/" + "";
      ComponentsAtSlash("", rest);
      ComponentsAtSlash("", "");
    }
  }

  lemma SameRest<T>(a: seq<T>, x: seq<T>, y: seq<T>)
    requires a + x == a + y
    ensures x == y
  {
    assert x == (a + x)[|a|..] && y == (a + y)[|a|..];
  }

  /** What a path names depends on its mount and its components only. */
  lemma ComponentsName(root: Option<nat>, mounts: seq<Mount>, t: Tree, p: string, q: string)
    requires p != "/" && q != "/" && Components(p) == Components(q) && Resolve(mounts, p) == Resolve(mounts, q)
    ensures Named(root, mounts, t, p) == Named(root, mounts, t, q)
  {
    hide Components;
    hide Lookup;
    ResolveSpec(mounts, p);
    ResolveSpec(mounts, q);
    hide Resolve;
    if Resolve(mounts, p).Some? {
      var m := Resolve(mounts, p).value.path;
      CoveredComponents(m, p);
      CoveredComponents(m, q);
      SameRest(Components(m), Components(p[|m|..]), Components(q[|m|..]));
    }
  }

  /** So an empty, "." or ".." component that leaves the mount as it is leaves the node. */
  lemma NeutralKeepsNode(root: Option<nat>, mounts: seq<Mount>, t: Tree, a: string, part: string, b: string)
    requires part in {"", ".", ".."} && a + "/" + b != "/"
    requires Resolve(mounts, a + "/" + part + "/" + b) == Resolve(mounts, a + "/" + b)
    ensures Named(root, mounts, t, a + "/" + part + "/" + b) == Named(root, mounts, t, a + "/" + b)
  {
    NeutralPart(a, part, b);
    assert |a + "/" + part + "/" + b| > 1;
    ComponentsName(root, mounts, t, a + "/" + part + "/" + b, a + "/" + b);
  }

  lemma TwoMounts(deep: Mount, shallow: Mount, path: string)
    requires |shallow.path| < |deep.path| && Covers(shallow.path, path)
    ensures Resolve([deep, shallow], path) == Some(if Covers(deep.path, path) then deep else shallow)
  {
    var mounts := [deep, shallow];
    assert mounts[1..] == [shallow] && [shallow][1..] == [];
    assert Resolve([], path).None?;
    assert Resolve([shallow], path) == Some(shallow);
  }

  /** Before the end of a mount path they do change the result: the path no longer begins
      with the mount's. */
  lemma NeutralCanLeaveMount(t: Tree)
    requires Child(t, 0, "m").None?
    ensures Named(Some(0), [Mount("/m", 1), Mount("/", 0)], t, "/m") == Some(1)
    ensures Named(Some(0), [Mount("/m", 1), Mount("/", 0)], t, "/./m").None?
  {
    hide Components;
    hide Resolve;
    TwoMounts(Mount("/m", 1), Mount("/", 0), "/m");
    TwoMounts(Mount("/m", 1), Mount("/", 0), "/./m");
    assert "/m"[1] != "/./m"[1] && "/m"[2..] == "";
    NeutralIsEmpty("");
    NeutralIsEmpty(".");
    assert "/./m"[1..] == "." + "/" + "m";
    ComponentsAtSlash(".", "m");
    OneName("m");
  }

  /** A path of one part names that part, cut to 127 characters. */
  lemma OneName(part: string)
    requires '/' !in part && part != "" && part != "." && part != ".."
    ensures Components(part) == [if |part| <= 127 then part else part[..127]]
  {
    OnePart(part);
    CleanOne(part);
  }
}
