/** Python's `list.remove(x)`: drop the first element equal to `x`; and the
    first-occurrence search it shares with `str.split`. */
module Lists {

  /** Pairwise different elements, as a list of objects each appended once. */
  predicate Distinct<T(==)>(s: seq<T>) {
    forall i, j | 0 <= i < j < |s| :: s[i] != s[j]
  }

  /** Position of the first `x` in `s`: where `list.remove` and `str.split` act. */
  function FirstIndex<T(==)>(s: seq<T>, x: T): (i: nat)
    requires x in s
    ensures i < |s| && s[i] == x && x !in s[..i]
  {
    if s[0] == x then 0
    else
      var i := FirstIndex(s[1..], x) + 1;
      assert s[..i] == [s[0]] + s[1..][..i - 1];
      i
  }

  /** `s.remove(x)` on a copy; when `x` is absent Python raises and the list is unchanged. */
  function RemoveFirst<T(==)>(s: seq<T>, x: T): (r: seq<T>)
    ensures x !in s ==> r == s
    ensures x in s ==> |r| == |s| - 1
    ensures x in s ==> multiset(r) == multiset(s) - multiset{x}
  {
    if x in s then
      var i := FirstIndex(s, x);
      assert s == s[..i] + [x] + s[i + 1..];
      s[..i] + s[i + 1..]
    else s
  }

  /** The other elements stay in their order: what precedes the removed
      element and what follows it are kept as they were. */
  lemma {:induction false} RemoveFirstKeepsOrder<T>(a: seq<T>, x: T, b: seq<T>)
    requires x !in a
    ensures RemoveFirst(a + [x] + b, x) == a + b
  {
    var s := a + [x] + b;
    var i := FirstIndex(s, x);
    assert s[|a|] == x && s[..|a|] == a;
    assert s[..i] == a && s[i + 1..] == b;
  }

  /** Removing one element of a list of distinct elements leaves none of it and keeps the rest distinct. */
  lemma RemoveFirstDistinct<T>(s: seq<T>, x: T)
    requires Distinct(s)
    ensures Distinct(RemoveFirst(s, x))
    ensures x !in RemoveFirst(s, x)
  {
    if x in s {
      var i := FirstIndex(s, x);
      var r := s[..i] + s[i + 1..];
      assert RemoveFirst(s, x) == r;
      forall k | 0 <= k < |r| ensures r[k] == s[if k < i then k else k + 1] {
        if k < i {
          assert r[k] == s[..i][k];
        } else {
          assert r[k] == s[i + 1..][k - i];
        }
      }
      forall k | 0 <= k < |r| ensures r[k] != x {
        var j := if k < i then k else k + 1;
        assert r[k] == s[j] && j != i;
      }
      forall k, l | 0 <= k < l < |r| ensures r[k] != r[l] {
        var j, m := if k < i then k else k + 1, if l < i then l else l + 1;
        assert r[k] == s[j] && r[l] == s[m] && j < m;
      }
    }
  }

  /** Appending a new element and removing it again restores the list. */
  lemma AppendThenRemove<T>(s: seq<T>, x: T)
    requires x !in s
    ensures RemoveFirst(s + [x], x) == s
  {
    assert s + [x] == s + [x] + [];
    RemoveFirstKeepsOrder(s, x, []);
    assert s + [] == s;
  }
}
