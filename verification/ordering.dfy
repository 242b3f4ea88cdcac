/**
 * Strict total orders and the "sorted, without repeats" view of a sequence
 * (what numpy's `unique` returns for a list of labels or of strings).
 */
module Ordering {

  /** `lt` is irreflexive, transitive and relates any two distinct values. */
  ghost predicate StrictTotalOrder<T(!new)>(lt: (T, T) -> bool) {
    && (forall x :: !lt(x, x))
    && (forall x, y, z :: lt(x, y) && lt(y, z) ==> lt(x, z))
    && (forall x, y :: x == y || lt(x, y) || lt(y, x))
  }

  /** Every element is strictly below every later one: sorted and without repeats. */
  ghost predicate Increasing<T>(lt: (T, T) -> bool, s: seq<T>) {
    forall i, j :: 0 <= i < j < |s| ==> lt(s[i], s[j])
  }

  /** The usual order on integers. */
  function IntLess(x: int, y: int): bool {
    x < y
  }

  lemma IntLessIsStrictTotalOrder()
    ensures StrictTotalOrder(IntLess)
  {
  }

  /** Puts `x` into the increasing sequence `s`, unless it is already there. */
  function Insert<T(==)>(lt: (T, T) -> bool, x: T, s: seq<T>): seq<T> {
    if s == [] then [x]
    else if x == s[0] then s
    else if lt(x, s[0]) then [x] + s
    else [s[0]] + Insert(lt, x, s[1..])
  }

  /** The distinct elements of `s`, in increasing order. */
  function SortedUnique<T(==)>(lt: (T, T) -> bool, s: seq<T>): seq<T> {
    if s == [] then [] else Insert(lt, s[0], SortedUnique(lt, s[1..]))
  }

  lemma {:induction false} InsertKeepsIncreasing<T(!new)>(lt: (T, T) -> bool, x: T, s: seq<T>)
    requires StrictTotalOrder(lt) && Increasing(lt, s)
    ensures Increasing(lt, Insert(lt, x, s))
    ensures forall y :: y in Insert(lt, x, s) <==> y == x || y in s
  {
    if s == [] || x == s[0] {
    } else if lt(x, s[0]) {
      var r := [x] + s;
      forall i, j | 0 <= i < j < |r| ensures lt(r[i], r[j]) {
        if i > 0 {
          assert r[i] == s[i - 1] && r[j] == s[j - 1];
        } else if j > 1 {
          assert lt(s[0], s[j - 1]);
        }
      }
    } else {
      InsertKeepsIncreasing(lt, x, s[1..]);
      var t := Insert(lt, x, s[1..]);
      var r := [s[0]] + t;
      assert lt(s[0], x);
      forall y | y in t ensures lt(s[0], y) {
        if y != x {
          var k :| 0 <= k < |s[1..]| && s[1..][k] == y;
          assert s[k + 1] == y;
        }
      }
      forall i, j | 0 <= i < j < |r| ensures lt(r[i], r[j]) {
        if i > 0 {
          assert r[i] == t[i - 1] && r[j] == t[j - 1];
        } else {
          assert r[j] == t[j - 1] && r[j] in t;
        }
      }
      assert s == [s[0]] + s[1..];
    }
  }

  /** numpy's `unique`: increasing, and holding exactly the elements of the input. */
  lemma {:induction false} SortedUniqueSpec<T(!new)>(lt: (T, T) -> bool, s: seq<T>)
    requires StrictTotalOrder(lt)
    ensures Increasing(lt, SortedUnique(lt, s))
    ensures forall y :: y in SortedUnique(lt, s) <==> y in s
  {
    if s != [] {
      SortedUniqueSpec(lt, s[1..]);
      InsertKeepsIncreasing(lt, s[0], SortedUnique(lt, s[1..]));
      assert s == [s[0]] + s[1..];
    }
  }

  lemma HeadIsElement<T>(s: seq<T>)
    ensures |s| > 0 ==> s[0] in s
  {
  }

  /**
   * There is only one increasing sequence with a given set of elements, so
   * SortedUnique is determined by the elements of its input alone.
   */
  lemma {:induction false} IncreasingIsUnique<T(!new)>(lt: (T, T) -> bool, r1: seq<T>, r2: seq<T>)
    requires StrictTotalOrder(lt)
    requires Increasing(lt, r1) && Increasing(lt, r2)
    requires forall y :: y in r1 <==> y in r2
    ensures r1 == r2
  {
    if |r1| == 0 || |r2| == 0 {
      if |r1| != |r2| {
        HeadIsElement(r1);
        HeadIsElement(r2);
        assert false;
      }
    } else {
      // the first element of an increasing sequence is below all the others
      forall y | y in r1 ensures y == r1[0] || lt(r1[0], y) {
        var i :| 0 <= i < |r1| && r1[i] == y;
      }
      forall y | y in r2 ensures y == r2[0] || lt(r2[0], y) {
        var j :| 0 <= j < |r2| && r2[j] == y;
      }
      assert r1[0] in r2 && r2[0] in r1;
      assert r1[0] == r2[0];
      forall y ensures y in r1[1..] <==> y in r2[1..] {
        if y in r1[1..] {
          var i :| 0 <= i < |r1[1..]| && r1[1..][i] == y;
          assert lt(r1[0], r1[i + 1]) && y in r1;
          var j :| 0 <= j < |r2| && r2[j] == y;
          assert r2[1..][j - 1] == y;
        }
        if y in r2[1..] {
          var j :| 0 <= j < |r2[1..]| && r2[1..][j] == y;
          assert lt(r2[0], r2[j + 1]) && y in r2;
          var i :| 0 <= i < |r1| && r1[i] == y;
          assert r1[1..][i - 1] == y;
        }
      }
      IncreasingIsUnique(lt, r1[1..], r2[1..]);
      assert r1 == [r1[0]] + r1[1..] && r2 == [r2[0]] + r2[1..];
    }
  }

  /** A sorted list without repeats has as many elements as it has distinct values. */
  lemma {:induction false} IncreasingCardinality<T(!new)>(lt: (T, T) -> bool, s: seq<T>)
    requires StrictTotalOrder(lt) && Increasing(lt, s)
    ensures |set x | x in s| == |s|
  {
    if s != [] {
      var n := |s| - 1;
      var front := s[..n];
      IncreasingCardinality(lt, front);
      assert s[n] !in front by {
        forall i | 0 <= i < n ensures front[i] != s[n] {
          assert lt(s[i], s[n]);
        }
      }
      assert (set x | x in s) == (set x | x in front) + {s[n]} by {
        assert s == front + [s[n]];
      }
    }
  }
}
