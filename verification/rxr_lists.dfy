/**
 * The intrusive doubly linked lists (`struct dlist_entry`) that an
 * endpoint threads its operation entries through, seen as sequences of
 * entry handles. A node can sit in a given list at most once, and
 * `dlist_remove` splices one node out, leaving the order of the others
 * as it was. Removing a node that is not linked (one whose links point
 * at itself) changes nothing.
 */
module Lists {

  /** No handle occurs twice: a dlist node is linked into a list at most once. */
  predicate NoDup<T(==)>(s: seq<T>) {
    forall i, j :: 0 <= i < j < |s| ==> s[i] != s[j]
  }

  /** `dlist_remove`: the list with node `x` spliced out. */
  function Unlink<T(==,!new)>(s: seq<T>, x: T): (r: seq<T>)
    ensures x !in r
    ensures forall y :: y != x ==> (y in r <==> y in s)
    ensures x !in s ==> r == s
    ensures |r| <= |s|
    ensures NoDup(s) ==> NoDup(r)
  {
    if s == [] then []
    else if s[0] == x then Unlink(s[1..], x)
    else
      var rest := Unlink(s[1..], x);
      assert NoDup(s) ==> s[0] !in s[1..];
      [s[0]] + rest
  }

  /**
   * On a list without duplicates, unlinking the node at position `i`
   * splices out exactly that position: every other node keeps its place
   * relative to the rest.
   */
  lemma {:induction false} UnlinkSplices<T(!new)>(s: seq<T>, i: nat)
    requires NoDup(s) && i < |s|
    ensures Unlink(s, s[i]) == s[..i] + s[i + 1..]
  {
    if i == 0 {
      assert s[0] !in s[1..];
      assert Unlink(s[1..], s[0]) == s[1..];
    } else {
      assert NoDup(s[1..]);
      assert s[1..][i - 1] == s[i];
      UnlinkSplices(s[1..], i - 1);
      assert s[1..][..i - 1] + s[1..][i..] == s[1..i] + s[i + 1..];
      assert s[..i] + s[i + 1..] == [s[0]] + (s[1..i] + s[i + 1..]);
    }
  }

  /** Unlinking one node and then another gives the same list in either order. */
  lemma {:induction false} UnlinkCommutes<T(!new)>(s: seq<T>, x: T, y: T)
    ensures Unlink(Unlink(s, x), y) == Unlink(Unlink(s, y), x)
  {
    if s != [] {
      UnlinkCommutes(s[1..], x, y);
      if s[0] != x && s[0] != y {
        assert ([s[0]] + Unlink(s[1..], x))[1..] == Unlink(s[1..], x);
        assert ([s[0]] + Unlink(s[1..], y))[1..] == Unlink(s[1..], y);
      } else if s[0] == x && s[0] != y {
        assert ([s[0]] + Unlink(s[1..], y))[1..] == Unlink(s[1..], y);
      } else if s[0] != x && s[0] == y {
        assert ([s[0]] + Unlink(s[1..], x))[1..] == Unlink(s[1..], x);
      }
    }
  }
}
