/** Paths as sequences of components: splitting at slashes, the components that count
    for a lookup, and the lookup itself as a fold. */
module Paths {
  import opened Options

  const COMPONENT_LIMIT: nat := 127

  /** The parts of a string between slashes, empty ones included. */
  function Split(s: string): (parts: seq<string>)
    ensures |parts| >= 1
  {
    if s == "" then [""]
    else if s[0] == '/' then [""] + Split(s[1..])
    else
      var rest := Split(s[1..]);
      [[s[0]] + rest[0]] + rest[1..]
  }

  function Truncate(s: string): (r: string) {
    if |s| > COMPONENT_LIMIT then s[..COMPONENT_LIMIT] else s
  }

  predicate Counts(part: string) { part != "" && part != "." && part != ".." }

  /** The parts that name something, cut to 127 characters. */
  function Clean(parts: seq<string>): (r: seq<string>) {
    if parts == [] then []
    else (if Counts(Truncate(parts[0])) then [Truncate(parts[0])] else []) + Clean(parts[1..])
  }

  function Components(s: string): (r: seq<string>) { Clean(Split(s)) }

  // ----- laws

  lemma {:induction false} SplitAtSlash(a: string, b: string)
    ensures Split(a + "/" + b) == Split(a) + Split(b)
  {
    if a == "" {
      assert a + "/" + b == "/" + b;
      assert ("/" + b)[1..] == b;
    } else {
      var s := a + "/" + b;
      assert s[1..] == a[1..] + "/" + b;
      SplitAtSlash(a[1..], b);
    }
  }

  lemma {:induction false} CleanAppend(p: seq<string>, q: seq<string>)
    ensures Clean(p + q) == Clean(p) + Clean(q)
  {
    hide Counts;
    hide Truncate;
    if p == [] {
      assert p + q == q;
    } else {
      assert (p + q)[1..] == p[1..] + q;
      CleanAppend(p[1..], q);
      assert Clean(p + q) == Clean([p[0]]) + (Clean(p[1..]) + Clean(q)) by {
        assert [p[0]][1..] == [];
      }
      assert Clean(p) == Clean([p[0]]) + Clean(p[1..]) by {
        assert [p[0]][1..] == [];
      }
    }
  }

  /** A slash separates the components before it from those after it. */
  lemma ComponentsAtSlash(a: string, b: string)
    ensures Components(a + "/" + b) == Components(a) + Components(b)
  {
    SplitAtSlash(a, b);
    CleanAppend(Split(a), Split(b));
  }

  lemma {:induction false} OnePart(part: string)
    requires '/' !in part
    ensures Split(part) == [part]
  {
    if part != "" {
      OnePart(part[1..]);
      assert part == [part[0]] + part[1..];
    }
  }

  lemma NeutralIsEmpty(part: string)
    requires part in {"", ".", ".."}
    ensures Components(part) == []
  {
    OnePart(part);
    assert [part][1..] == [];
  }

  /** Repeated slashes and "." and ".." between slashes change nothing. */
  lemma NeutralPart(a: string, part: string, b: string)
    requires part in {"", ".", ".."}
    ensures Components(a + "/" + part + "/" + b) == Components(a + "/" + b)
  {
    NeutralIsEmpty(part);
    hide Components;
    ComponentsAtSlash(a, b);
    ComponentsAtSlash(a, part);
    ComponentsAtSlash(a + "/" + part, b);
  }

  lemma {:induction false} PartsHaveNoSlash(s: string, k: nat)
    requires k < |Split(s)|
    ensures '/' !in Split(s)[k]
  {
    if s != "" {
      if s[0] == '/' {
        if k > 0 {
          PartsHaveNoSlash(s[1..], k - 1);
        }
      } else {
        PartsHaveNoSlash(s[1..], k);
      }
    }
  }

  lemma {:induction false} CleanedIsPlain(parts: seq<string>, k: nat)
    requires k < |Clean(parts)| && forall i :: 0 <= i < |parts| ==> '/' !in parts[i]
    ensures '/' !in Clean(parts)[k] && Counts(Clean(parts)[k]) && |Clean(parts)[k]| <= COMPONENT_LIMIT
  {
    if parts != [] {
      var head := if Counts(Truncate(parts[0])) then [Truncate(parts[0])] else [];
      assert Clean(parts) == head + Clean(parts[1..]);
      if k >= |head| {
        CleanedIsPlain(parts[1..], k - |head|);
      }
    }
  }

  /** A component has no slash, is not "", "." or "..", and has at most 127 characters. */
  lemma ComponentIsPlain(s: string, k: nat)
    requires k < |Components(s)|
    ensures '/' !in Components(s)[k] && Counts(Components(s)[k]) && |Components(s)[k]| <= COMPONENT_LIMIT
  {
    forall i | 0 <= i < |Split(s)|
      ensures '/' !in Split(s)[i]
    {
      PartsHaveNoSlash(s, i);
    }
    CleanedIsPlain(Split(s), k);
  }

  // ----- looking up

  /** A tree of nodes: which of them count as directories, which have a lookup function,
      and what the lookups return. */
  datatype Tree = Tree(directories: set<nat>, searchable: set<nat>, children: map<(nat, string), nat>)

  function Child(t: Tree, node: nat, name: string): (r: Option<nat>) {
    if node in t.directories && node in t.searchable && (node, name) in t.children then Some(t.children[(node, name)]) else None
  }

  /** Every component is looked up in the directory found so far. */
  function Lookup(t: Tree, node: nat, names: seq<string>): (r: Option<nat>)
    decreases |names|
  {
    if names == [] then Some(node)
    else
      match Child(t, node, names[0])
      case None => None
      case Some(next) => Lookup(t, next, names[1..])
  }

  lemma {:induction false} LookupAppend(t: Tree, node: nat, p: seq<string>, q: seq<string>)
    ensures Lookup(t, node, p + q) ==
            match Lookup(t, node, p) { case None => None case Some(n) => Lookup(t, n, q) }
    decreases |p|
  {
    if p == [] {
      assert p + q == q;
    } else {
      assert (p + q)[1..] == p[1..] + q;
      if Child(t, node, p[0]).Some? {
        LookupAppend(t, Child(t, node, p[0]).value, p[1..], q);
      }
    }
  }

  // ----- the walker

  /** The names still to be looked up: the unfinished part, then the rest of the path. */
  function Remaining(part: string, rest: string): (names: seq<string>) { Components(part + rest) }

  /** At a slash the unfinished part is looked up and a new part begins. */
  lemma SlashStep(t: Tree, node: nat, part: string, rest: string)
    requires '/' !in part && rest != "" && rest[0] == '/'
    ensures Lookup(t, node, Remaining(part, rest)) ==
            match Lookup(t, node, Clean([part])) { case None => None case Some(n) => Lookup(t, n, Remaining("", rest[1..])) }
  {
    assert part + rest == part + "/" + rest[1..];
    ComponentsAtSlash(part, rest[1..]);
    OnePart(part);
    assert "" + rest[1..] == rest[1..];
    LookupAppend(t, node, Clean([part]), Components(rest[1..]));
  }

  lemma CharStep(part: string, rest: string)
    requires rest != ""
    ensures Remaining(part, rest) == Remaining(part + [rest[0]], rest[1..])
  {
    assert part + rest == part + [rest[0]] + rest[1..];
  }

  lemma LastStep(part: string)
    requires '/' !in part
    ensures Remaining(part, "") == Clean([part])
  {
    assert part + "" == part;
    OnePart(part);
  }

  lemma CleanOne(part: string)
    ensures Clean([part]) == if Counts(Truncate(part)) then [Truncate(part)] else []
  {
    assert [part][1..] == [];
  }

  /** One finished component: nothing for "", "." and "..", a lookup otherwise. */
  method Step(t: Tree, node: nat, component: string, ghost part: string) returns (r: Option<nat>)
    requires component == Truncate(part)
    ensures r == Lookup(t, node, Clean([part]))
  {
    CleanOne(part);
    if component == "" || component == "." || component == ".." {
      return Some(node);
    }
    assert [component][1..] == [];
    if node !in t.directories || node !in t.searchable {
      return None;
    }
    return if (node, component) in t.children then Some(t.children[(node, component)]) else None;
  }

  /** The character-by-character walk over a relative path with its component buffer. */
  method Walk(t: Tree, start: nat, rel: string) returns (r: Option<nat>)
    ensures r == Lookup(t, start, Components(rel))
  {
    hide Lookup;
    hide Clean;
    var current, component, i := start, "", 0;
    ghost var part, goal := "", Lookup(t, start, Components(rel));
    assert rel[0..] == rel && "" + rel == rel;
    while i < |rel|
      invariant i <= |rel| && '/' !in part && component == Truncate(part)
      invariant Lookup(t, current, Remaining(part, rel[i..])) == goal
    {
      var c := rel[i];
      assert rel[i..][0] == c && rel[i..][1..] == rel[i + 1..];
      if c == '/' {
        SlashStep(t, current, part, rel[i..]);
        var next := Step(t, current, component, part);
        if next.None? {
          return None;
        }
        current, component, part := next.value, "", "";
      } else {
        CharStep(part, rel[i..]);
        if |component| < COMPONENT_LIMIT {
          component := component + [c];
        }
        part := part + [c];
      }
      i := i + 1;
    }
    assert rel[i..] == "";
    LastStep(part);
    r := Step(t, current, component, part);
  }
}
