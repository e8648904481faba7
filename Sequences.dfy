/** Generic facts about sequences: Python's `list.index` and duplicate-free lists. */
module Sequences {

  /** Python's `list.index(x)`: the position of the FIRST occurrence of `x`.
      The source calls it only on labels that are present (otherwise it raises). */
  function IndexOf<T(==)>(s: seq<T>, x: T): (r: nat)
    requires x in s
    ensures r < |s| && s[r] == x
    ensures x !in s[..r]
  {
    if s[0] == x then 0
    else
      assert x in s[1..];
      var k := IndexOf(s[1..], x);
      assert s[..k + 1] == [s[0]] + s[1..][..k];
      k + 1
  }

  /** No element occurs twice. */
  ghost predicate Distinct<T>(s: seq<T>) {
    forall x, y :: 0 <= x < y < |s| ==> s[x] != s[y]
  }

  /** In a duplicate-free list, `index` finds exactly the position that holds the value. */
  lemma IndexOfDistinct<T>(s: seq<T>, x: nat)
    requires Distinct(s) && x < |s|
    ensures IndexOf(s, s[x]) == x
  {
    var r := IndexOf(s, s[x]);
    assert s[r] == s[x];
  }

  /** Gluing two duplicate-free lists with no shared element keeps it duplicate-free. */
  lemma DistinctConcat<T>(a: seq<T>, b: seq<T>)
    requires Distinct(a) && Distinct(b)
    requires forall v :: v in a ==> v !in b
    ensures Distinct(a + b)
  {
    forall x, y | 0 <= x < y < |a + b|
      ensures (a + b)[x] != (a + b)[y]
    {
      if y >= |a| && x < |a| {
        assert (a + b)[x] in a;
        assert (a + b)[y] == b[y - |a|];
      }
    }
  }

  /** Looking up an element of the first part of a concatenation ignores the second part. */
  lemma IndexOfPrefix<T>(a: seq<T>, b: seq<T>, x: T)
    requires x in a
    ensures IndexOf(a + b, x) == IndexOf(a, x)
  {
    var r, q := IndexOf(a + b, x), IndexOf(a, x);
    assert (a + b)[q] == x;
    assert (a + b)[..r] == a[..r] || r > |a|;
    assert r <= q by {
      assert x in (a + b)[..q + 1];
    }
    assert (a + b)[..r] == a[..r];
  }
}
