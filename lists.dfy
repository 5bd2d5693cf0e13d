/** The operations of .NET's `List<T>` that the editors use. */
module Lists {

  /** `List<T>.IndexOf(x)` searching from index `i`: the first position at or after `i` holding `x`, or -1. */
  function IndexFrom<T(==)>(s: seq<T>, x: T, i: int): (r: int)
    requires 0 <= i <= |s| && x !in s[..i]
    ensures -1 <= r < |s|
    ensures r == -1 <==> x !in s
    ensures r >= 0 ==> s[r] == x && x !in s[..r]
    decreases |s| - i
  {
    if i == |s| then
      assert s[..i] == s;
      -1
    else if s[i] == x then i
    else
      assert s[..i + 1] == s[..i] + [s[i]];
      IndexFrom(s, x, i + 1)
  }

  /** `List<T>.IndexOf(x)`: the first position holding `x`, or -1 when there is none. */
  function IndexOf<T(==)>(s: seq<T>, x: T): (r: int)
    ensures -1 <= r < |s|
    ensures r == -1 <==> x !in s
    ensures r >= 0 ==> s[r] == x && x !in s[..r]
  {
    IndexFrom(s, x, 0)
  }

  /** `List<T>.RemoveAt(k)`: drops the element at index `k`. */
  function RemoveAt<T>(s: seq<T>, k: int): (r: seq<T>)
    requires 0 <= k < |s|
    ensures |r| == |s| - 1
    ensures forall i :: 0 <= i < k ==> r[i] == s[i]
    ensures forall i :: k <= i < |r| ==> r[i] == s[i + 1]
  {
    s[..k] + s[k + 1..]
  }

  /** `List<T>.Remove(x)`: drops the first element equal to `x`, if there is one. */
  function RemoveFirst<T(==)>(s: seq<T>, x: T): (r: seq<T>)
    ensures x !in s ==> r == s
    ensures x in s ==> |r| == |s| - 1
    ensures forall y :: y in r ==> y in s
  {
    var k := IndexOf(s, x);
    if k < 0 then s
    else
      RemoveAtKeeps(s, k);
      RemoveAt(s, k)
  }

  /** Whatever `RemoveAt` leaves was in the list before. */
  lemma RemoveAtKeeps<T>(s: seq<T>, k: int)
    requires 0 <= k < |s|
    ensures forall y :: y in RemoveAt(s, k) ==> y in s
  {
    var r := RemoveAt(s, k);
    forall y | y in r ensures y in s {
      var j :| 0 <= j < |r| && r[j] == y;
      if j < k { assert s[j] == y; } else { assert s[j + 1] == y; }
    }
  }

  /** No element occurs twice: nothing before index `i` equals the element at `i`. */
  predicate Distinct<T(==)>(s: seq<T>) {
    forall i :: 0 <= i < |s| ==> s[i] !in s[..i]
  }

  /** A duplicate-free list has no two equal elements at different positions. */
  lemma DistinctPairs<T>(s: seq<T>, i: int, j: int)
    requires Distinct(s) && 0 <= i < j < |s|
    ensures s[i] != s[j]
  {
    assert s[i] == s[..j][i];
  }

  /** Appending an element not yet present keeps a list duplicate-free. */
  lemma DistinctSnoc<T>(s: seq<T>, x: T)
    requires Distinct(s) && x !in s
    ensures Distinct(s + [x])
  {
    var t := s + [x];
    forall i | 0 <= i < |t| ensures t[i] !in t[..i] {
      if i < |s| {
        assert t[..i] == s[..i];
      } else {
        assert t[..i] == s;
      }
    }
  }

  /** Removing by value removes the element at `k` when nothing before `k` equals it. */
  lemma RemoveFirstAt<T>(s: seq<T>, k: int)
    requires 0 <= k < |s| && s[k] !in s[..k]
    ensures RemoveFirst(s, s[k]) == RemoveAt(s, k)
  {
  }

  /** Removing the first occurrence keeps a duplicate-free list duplicate-free and drops exactly `x`. */
  lemma {:induction false} RemoveFirstDistinct<T>(s: seq<T>, x: T)
    requires Distinct(s)
    ensures Distinct(RemoveFirst(s, x))
    ensures forall y :: y in RemoveFirst(s, x) <==> y in s && y != x
  {
    var k := IndexOf(s, x);
    if k >= 0 {
      var r := RemoveAt(s, k);
      assert RemoveFirst(s, x) == r;
      forall y ensures y in r <==> y in s && y != x {
        if y in r {
          var j :| 0 <= j < |r| && r[j] == y;
          var sj := if j < k then j else j + 1;
          assert s[sj] == y;
          if y == x && sj > k {
            DistinctPairs(s, k, sj);
          }
        }
        if y in s && y != x {
          var m :| 0 <= m < |s| && s[m] == y;
          if m < k { assert r[m] == y; } else { assert m != k; assert r[m - 1] == y; }
        }
      }
    }
  }
}
