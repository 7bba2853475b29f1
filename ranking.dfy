// Ordering by a real-valued key, largest first. The modelled code sorts in
// three places: `ORDER BY ... DESC` in SQL (recent file events, browser
// rows) and `np.argsort(scores)[::-1]` in the vector search. None of them
// fixes the order of equal keys, so the contracts here promise only that the
// result is a permutation of the input in non-increasing key order; the
// insertion sort below is one admissible choice.

module Ranking {

  ghost predicate NonIncreasing<T>(s: seq<T>, key: T -> real) {
    forall i, j :: 0 <= i < j < |s| ==> key(s[i]) >= key(s[j])
  }

  /** Inserts `x` before the first element whose key is not larger. */
  function Insert<T>(x: T, s: seq<T>, key: T -> real): (r: seq<T>)
    ensures |r| == |s| + 1
  {
    if s == [] || key(x) >= key(s[0]) then [x] + s
    else [s[0]] + Insert(x, s[1..], key)
  }

  lemma {:induction false} InsertPermutes<T>(x: T, s: seq<T>, key: T -> real)
    ensures multiset(Insert(x, s, key)) == multiset(s) + multiset{x}
  {
    if s != [] && key(x) < key(s[0]) {
      InsertPermutes(x, s[1..], key);
      assert s == [s[0]] + s[1..];
    }
  }

  lemma {:induction false} InsertSorted<T>(x: T, s: seq<T>, key: T -> real)
    requires NonIncreasing(s, key)
    ensures NonIncreasing(Insert(x, s, key), key)
  {
    if s != [] && key(x) < key(s[0]) {
      var tail := Insert(x, s[1..], key);
      InsertSorted(x, s[1..], key);
      InsertPermutes(x, s[1..], key);
      forall j | 0 <= j < |tail| ensures key(s[0]) >= key(tail[j]) {
        assert tail[j] in multiset(tail);
        if tail[j] != x {
          assert tail[j] in multiset(s[1..]);
          var m :| 0 <= m < |s| - 1 && s[1..][m] == tail[j];
          assert s[1 + m] == tail[j];
        }
      }
      assert Insert(x, s, key) == [s[0]] + tail;
    }
  }

  /** The elements of `s`, largest key first (insertion sort). */
  function SortDesc<T>(s: seq<T>, key: T -> real): (r: seq<T>)
    ensures |r| == |s|
  {
    if s == [] then [] else Insert(s[0], SortDesc(s[1..], key), key)
  }

  /** `SortDesc` returns a permutation of its input in non-increasing key
      order. */
  lemma {:induction false} SortDescCorrect<T>(s: seq<T>, key: T -> real)
    ensures NonIncreasing(SortDesc(s, key), key)
    ensures multiset(SortDesc(s, key)) == multiset(s)
  {
    if s != [] {
      SortDescCorrect(s[1..], key);
      InsertSorted(s[0], SortDesc(s[1..], key), key);
      InsertPermutes(s[0], SortDesc(s[1..], key), key);
      assert s == [s[0]] + s[1..];
    }
  }

  /** In a list in non-increasing key order, no element left out of the
      first `k` has a larger key than an element kept. */
  lemma {:induction false} PrefixDominates<T>(s: seq<T>, key: T -> real, k: nat)
    requires NonIncreasing(s, key)
    requires k <= |s|
    ensures forall x, y :: x in s[..k] && y in multiset(s) - multiset(s[..k]) ==> key(x) >= key(y)
  {
    assert s == s[..k] + s[k..];
    assert multiset(s) - multiset(s[..k]) == multiset(s[k..]);
    forall x, y | x in s[..k] && y in multiset(s) - multiset(s[..k])
      ensures key(x) >= key(y)
    {
      var i :| 0 <= i < k && s[..k][i] == x;
      assert y in s[k..];
      var j :| 0 <= j < |s| - k && s[k..][j] == y;
      assert s[i] == x && s[k + j] == y;
    }
  }

  /** The first `k` elements of `SortDesc(s)` are in non-increasing order,
      are drawn from `s` (each element at most as often as it occurs), and
      no element of `s` left out has a larger key than one kept. */
  lemma TopOfSorted<T>(s: seq<T>, key: T -> real, k: nat)
    requires k <= |s|
    ensures var r := SortDesc(s, key)[..k];
            && NonIncreasing(r, key)
            && multiset(r) <= multiset(s)
            && (forall x, y :: x in r && y in multiset(s) - multiset(r) ==> key(x) >= key(y))
  {
    var sorted := SortDesc(s, key);
    SortDescCorrect(s, key);
    PrefixDominates(sorted, key, k);
    PrefixKeepsOrder(sorted, key, k);
    PrefixSubMultiset(sorted, k);
  }

  lemma PrefixKeepsOrder<T>(s: seq<T>, key: T -> real, k: nat)
    requires NonIncreasing(s, key)
    requires k <= |s|
    ensures NonIncreasing(s[..k], key)
  {
  }

  lemma PrefixSubMultiset<T>(s: seq<T>, k: nat)
    requires k <= |s|
    ensures multiset(s[..k]) <= multiset(s)
  {
    assert s == s[..k] + s[k..];
    assert multiset(s) == multiset(s[..k]) + multiset(s[k..]);
  }
}
