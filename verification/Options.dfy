/** Optional values, and the position of a value in a sequence. */
module Options {
  datatype Option<+T> = None | Some(value: T)

  /** The first position of a value. */
  function IndexOf<T(==)>(s: seq<T>, x: T): (r: Option<nat>)
    ensures r.Some? ==> r.value < |s| && s[r.value] == x && forall k :: 0 <= k < r.value ==> s[k] != x
    ensures r.None? ==> forall k :: 0 <= k < |s| ==> s[k] != x
  {
    if s == [] then None
    else if s[0] == x then Some(0)
    else
      match IndexOf(s[1..], x)
      case Some(i) => Some(i + 1)
      case None => None
  }

  lemma {:induction false} IndexIs<T>(s: seq<T>, x: T, i: nat)
    requires i < |s| && s[i] == x && forall k :: 0 <= k < i ==> s[k] != x
    ensures IndexOf(s, x) == Some(i)
  {
    if i > 0 {
      IndexIs(s[1..], x, i - 1);
    }
  }

  lemma IndexIsNone<T>(s: seq<T>, x: T)
    requires forall k :: 0 <= k < |s| ==> s[k] != x
    ensures IndexOf(s, x).None?
  {
    hide IndexOf;
  }

  lemma {:induction false} IndexOfSnoc<T>(s: seq<T>, y: T, x: T)
    ensures IndexOf(s + [y], x) ==
            if IndexOf(s, x).Some? then IndexOf(s, x) else if y == x then Some(|s|) else None
  {
    if s == [] {
      assert s + [y] == [y] && [y][1..] == [];
    } else {
      assert (s + [y])[1..] == s[1..] + [y];
      IndexOfSnoc(s[1..], y, x);
    }
  }
}
