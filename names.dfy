/** Names as the forwarder sees them: an opaque sequence of components,
    compared by equality and nothing else. */
module Names {

  /** One name component; its bytes are never interpreted. */
  type Component = string

  /** A hierarchical name `/c0/c1/...`; the empty name `/` is `[]`. */
  type Name = seq<Component>

  datatype Option<+T> = None | Some(value: T)

  /** The set of names held in a list. */
  function Elems(s: seq<Name>): (r: set<Name>)
    ensures forall x :: x in r <==> x in s
  {
    set x | x in s
  }

  /** No name occurs twice in `s`. */
  predicate NoDup(s: seq<Name>)
  {
    forall i, j :: 0 <= i < j < |s| ==> s[i] != s[j]
  }

  /** A list without duplicates holds as many names as it is long. */
  lemma {:induction false} NoDupCard(s: seq<Name>)
    requires NoDup(s)
    ensures |Elems(s)| == |s|
  {
    if s != [] {
      assert NoDup(s[1..]);
      NoDupCard(s[1..]);
      assert Elems(s) == {s[0]} + Elems(s[1..]);
      assert s[0] !in Elems(s[1..]);
    }
  }

  /** `push_front` of a name not yet in the list keeps it duplicate-free. */
  lemma NoDupPush(x: Name, s: seq<Name>)
    requires NoDup(s) && x !in s
    ensures NoDup([x] + s)
  {
    var t := [x] + s;
    forall i, j | 0 <= i < j < |t| ensures t[i] != t[j] {
      if i == 0 { assert t[j] == s[j - 1]; }
    }
  }

  /** In a list without duplicates, no name recurs among those before it. */
  lemma NoDupNotBefore(s: seq<Name>, i: nat)
    requires NoDup(s) && i < |s|
    ensures s[i] !in s[..i]
  {
    forall j | 0 <= j < i ensures s[..i][j] != s[i] {
      assert s[..i][j] == s[j];
    }
  }
}
