/** Sequence helpers shared by the modules: concatenation of a list of lists and boolean-mask selection. */
module Seqs {

  function Flatten<T>(xss: seq<seq<T>>): seq<T> {
    if xss == [] then [] else xss[0] + Flatten(xss[1..])
  }

  /** Appending one more list at the end appends its elements at the end. */
  lemma {:induction false} FlattenAppend<T>(xss: seq<seq<T>>, xs: seq<T>)
    ensures Flatten(xss + [xs]) == Flatten(xss) + xs
  {
    if xss != [] {
      assert (xss + [xs])[1..] == xss[1..] + [xs];
      FlattenAppend(xss[1..], xs);
    }
  }

  /** An element of the flattened list comes from one of the lists, and every element of each list is kept. */
  lemma {:induction false} FlattenMember<T>(xss: seq<seq<T>>, x: T)
    ensures x in Flatten(xss) <==> exists t :: 0 <= t < |xss| && x in xss[t]
  {
    if xss != [] {
      FlattenMember(xss[1..], x);
      if x in Flatten(xss[1..]) {
        var t :| 0 <= t < |xss[1..]| && x in xss[1..][t];
        assert x in xss[t + 1];
      }
      if exists t :: 0 <= t < |xss| && x in xss[t] {
        var t :| 0 <= t < |xss| && x in xss[t];
        if t > 0 {
          assert x in xss[1..][t - 1];
        }
      }
    }
  }

  /** The flattened length is the sum of the lengths. */
  function SumOfLengths<T>(xss: seq<seq<T>>): nat {
    if xss == [] then 0 else |xss[0]| + SumOfLengths(xss[1..])
  }

  lemma {:induction false} FlattenLength<T>(xss: seq<seq<T>>)
    ensures |Flatten(xss)| == SumOfLengths(xss)
  {
    if xss != [] {
      FlattenLength(xss[1..]);
    }
  }

  /** A boolean-mask selection: the elements satisfying `keep`, in their order. */
  function Keep<T>(rows: seq<T>, keep: T -> bool): (kept: seq<T>)
    ensures |kept| <= |rows|
  {
    if rows == [] then []
    else
      var n := |rows| - 1;
      Keep(rows[..n], keep) + (if keep(rows[n]) then [rows[n]] else [])
  }

  lemma {:induction false} KeepSpec<T>(rows: seq<T>, keep: T -> bool)
    ensures forall x :: x in Keep(rows, keep) <==> x in rows && keep(x)
  {
    if rows != [] {
      var n := |rows| - 1;
      KeepSpec(rows[..n], keep);
      assert rows == rows[..n] + [rows[n]];
    }
  }

  /**
   * `kept` is the subsequence of `rows` at the strictly increasing
   * positions `idx`.
   */
  ghost predicate Picks<T>(kept: seq<T>, rows: seq<T>, idx: seq<nat>) {
    && |idx| == |kept|
    && (forall k :: 0 <= k < |idx| ==> idx[k] < |rows| && kept[k] == rows[idx[k]])
    && (forall k, l :: 0 <= k < l < |idx| ==> idx[k] < idx[l])
  }

  /**
   * A selection keeps order and repeats: it is the subsequence of the input
   * at exactly the positions whose element satisfies `keep`.
   */
  lemma {:induction false} KeepPicks<T>(rows: seq<T>, keep: T -> bool) returns (idx: seq<nat>)
    ensures Picks(Keep(rows, keep), rows, idx)
    ensures forall i :: 0 <= i < |rows| ==> (i in idx <==> keep(rows[i]))
  {
    if rows == [] {
      idx := [];
    } else {
      var n := |rows| - 1;
      var front := KeepPicks(rows[..n], keep);
      assert rows == rows[..n] + [rows[n]];
      PicksGrow(Keep(rows[..n], keep), rows[..n], front, rows[n]);
      idx := if keep(rows[n]) then front + [n] else front;
      forall i | 0 <= i < |rows| ensures i in idx <==> keep(rows[i]) {
        if i < n {
          assert rows[..n][i] == rows[i];
          assert i in idx <==> i in front;
        } else {
          assert n !in front;
        }
      }
    }
  }

  /** Growing the input by one element keeps a selection valid, with or without that element. */
  lemma PicksGrow<T>(kept: seq<T>, rows: seq<T>, idx: seq<nat>, x: T)
    requires Picks(kept, rows, idx)
    ensures Picks(kept, rows + [x], idx)
    ensures Picks(kept + [x], rows + [x], idx + [|rows|])
    ensures |rows| !in idx
  {
  }

  /** Selecting from a concatenation selects from each part. */
  lemma {:induction false} KeepAppend<T>(xs: seq<T>, ys: seq<T>, keep: T -> bool)
    ensures Keep(xs + ys, keep) == Keep(xs, keep) + Keep(ys, keep)
  {
    if ys == [] {
      assert xs + ys == xs;
    } else {
      var n := |ys| - 1;
      assert (xs + ys)[..|xs| + n] == xs + ys[..n];
      assert (xs + ys)[|xs| + n] == ys[n];
      KeepAppend(xs, ys[..n], keep);
    }
  }

  /** Two masks applied one after the other select what their conjunction selects. */
  lemma {:induction false} KeepKeep<T>(rows: seq<T>, first: T -> bool, second: T -> bool, both: T -> bool)
    requires forall x :: both(x) == (first(x) && second(x))
    ensures Keep(Keep(rows, first), second) == Keep(rows, both)
  {
    if rows != [] {
      var n := |rows| - 1;
      KeepKeep(rows[..n], first, second, both);
      KeepAppend(Keep(rows[..n], first), if first(rows[n]) then [rows[n]] else [], second);
    }
  }

  /** Masks that agree on every element select the same elements. */
  lemma {:induction false} KeepSame<T>(rows: seq<T>, keep: T -> bool, same: T -> bool)
    requires forall x :: keep(x) == same(x)
    ensures Keep(rows, keep) == Keep(rows, same)
  {
    if rows != [] {
      KeepSame(rows[..|rows| - 1], keep, same);
    }
  }

  /** A mask every element satisfies selects everything. */
  lemma {:induction false} KeepAll<T>(rows: seq<T>, keep: T -> bool)
    requires forall x :: keep(x)
    ensures Keep(rows, keep) == rows
  {
    if rows != [] {
      var n := |rows| - 1;
      KeepAll(rows[..n], keep);
      assert rows == rows[..n] + [rows[n]];
    }
  }
}
