/**
 * Levenshtein edit distance: the recurrence, the table-filling program that
 * computes it, and the facts the clustering relies on (zero exactly for equal
 * strings, symmetry, bounds, and that it is the least number of single-character
 * insertions, deletions and substitutions that turn one string into the other).
 */
module Levenshtein {

  function Min3(x: nat, y: nat, z: nat): nat {
    if x <= y && x <= z then x else if y <= z then y else z
  }

  /** Cost of pairing two characters: nothing when they are equal. */
  function Delta(c1: char, c2: char): nat {
    if c1 == c2 then 0 else 1
  }

  /**
   * The recurrence on prefix lengths: the distance between the first `i`
   * characters of `a` and the first `j` characters of `b`.  An empty prefix is
   * as far from the other as the other is long; otherwise take the cheapest of
   * dropping the last character of `b`, dropping the last of `a`, or pairing
   * the two last characters.
   */
  function Dist(a: string, b: string, i: nat, j: nat): nat
    requires i <= |a| && j <= |b|
    decreases i + j
  {
    if i == 0 then j
    else if j == 0 then i
    else Min3(Dist(a, b, i, j - 1) + 1,
              Dist(a, b, i - 1, j) + 1,
              Dist(a, b, i - 1, j - 1) + Delta(a[i - 1], b[j - 1]))
  }

  lemma DistStep(a: string, b: string, i: nat, j: nat)
    requires 1 <= i <= |a| && 1 <= j <= |b|
    ensures Dist(a, b, i, j) == Min3(Dist(a, b, i, j - 1) + 1, Dist(a, b, i - 1, j) + 1, Dist(a, b, i - 1, j - 1) + Delta(a[i - 1], b[j - 1]))
  {
  }

  /** The edit distance between two whole strings. */
  function EditDistance(a: string, b: string): nat {
    Dist(a, b, |a|, |b|)
  }

  /**
   * `levenshtein(string1, string2)`: allocates an (m+1) x (n+1) table of
   * zeros, sets the first column and the first row, then fills the remaining
   * cells column by column.  Row i stands for the first i characters of
   * `string2` and column j for the first j characters of `string1`.
   */
  method Levenshtein(string1: string, string2: string) returns (distance: nat)
    ensures distance == EditDistance(string1, string2)
    ensures string2 == [] ==> distance == |string1|
    ensures string1 == [] ==> distance == |string2|
  {
    var n := |string1|;
    var m := |string2|;
    var d := new nat[m + 1, n + 1]((_, _) => 0);
    for i := 1 to m + 1
      invariant forall k :: 0 <= k < i ==> d[k, 0] == k
      invariant forall k :: 0 <= k <= n ==> d[0, k] == 0
    {
      d[i, 0] := i;
    }
    for j := 1 to n + 1
      invariant forall k :: 0 <= k <= m ==> d[k, 0] == k
      invariant forall k :: 0 <= k < j ==> d[0, k] == k
    {
      d[0, j] := j;
    }
    for j := 1 to n + 1
      invariant forall i' {:trigger d[i', j - 1]} :: 0 <= i' <= m ==> d[i', j - 1] == Dist(string1, string2, j - 1, i')
      invariant forall j' :: j <= j' <= n ==> d[0, j'] == j'
    {
      FillColumn(d, string1, string2, j);
    }
    distance := d[m, n];
  }

  /**
   * The inner loop of `levenshtein`: fills column `j` from row 1 down, each
   * cell from the cell above, the cell to the left and the one diagonally
   * above-left.  Every other column is left as it was.
   */
  method FillColumn(d: array2<nat>, string1: string, string2: string, j: nat)
    requires d.Length0 == |string2| + 1 && d.Length1 == |string1| + 1
    requires 1 <= j <= |string1|
    requires forall i' {:trigger d[i', j - 1]} :: 0 <= i' < d.Length0 ==> d[i', j - 1] == Dist(string1, string2, j - 1, i')
    requires d[0, j] == j
    modifies d
    ensures forall i' {:trigger d[i', j]} :: 0 <= i' < d.Length0 ==> d[i', j] == Dist(string1, string2, j, i')
    ensures forall i', j' :: 0 <= i' < d.Length0 && 0 <= j' < d.Length1 && j' != j ==> d[i', j'] == old(d[i', j'])
  {
    var m := |string2|;
    for i := 1 to m + 1
      invariant forall i' {:trigger d[i', j]} :: 0 <= i' < i ==> d[i', j] == Dist(string1, string2, j, i')
      invariant forall i' {:trigger d[i', j - 1]} :: 0 <= i' <= m ==> d[i', j - 1] == Dist(string1, string2, j - 1, i')
      invariant forall i', j' :: 0 <= i' < d.Length0 && 0 <= j' < d.Length1 && j' != j ==> d[i', j'] == old(d[i', j'])
    {
      FillCell(d, string1, string2, i, j);
    }
  }

  method FillCell(d: array2<nat>, string1: string, string2: string, i: nat, j: nat)
    requires d.Length0 == |string2| + 1 && d.Length1 == |string1| + 1
    requires 1 <= i <= |string2| && 1 <= j <= |string1|
    requires d[i - 1, j] == Dist(string1, string2, j, i - 1)
    requires d[i, j - 1] == Dist(string1, string2, j - 1, i)
    requires d[i - 1, j - 1] == Dist(string1, string2, j - 1, i - 1)
    modifies d
    ensures d[i, j] == Dist(string1, string2, j, i)
    ensures forall i', j' :: 0 <= i' < d.Length0 && 0 <= j' < d.Length1 && (i' != i || j' != j) ==> d[i', j'] == old(d[i', j'])
  {
    var delta: nat;
    if string1[j - 1] == string2[i - 1] {
      delta := 0;
    } else {
      delta := 1;
    }
    d[i, j] := Min3(d[i - 1, j] + 1, d[i, j - 1] + 1, d[i - 1, j - 1] + delta);
  }

  lemma {:induction false} DistSymmetric(a: string, b: string, i: nat, j: nat)
    requires i <= |a| && j <= |b|
    ensures Dist(a, b, i, j) == Dist(b, a, j, i)
    decreases i + j
  {
    if i > 0 && j > 0 {
      DistSymmetric(a, b, i, j - 1);
      DistSymmetric(a, b, i - 1, j);
      DistSymmetric(a, b, i - 1, j - 1);
      DistStep(a, b, i, j);
      DistStep(b, a, j, i);
      var x, y, z := Dist(a, b, i, j - 1) + 1, Dist(a, b, i - 1, j) + 1, Dist(a, b, i - 1, j - 1) + Delta(a[i - 1], b[j - 1]);
      assert Dist(b, a, j, i) == Min3(y, x, z);
    }
  }

  /** The distance does not depend on which string comes first. */
  lemma Symmetric(a: string, b: string)
    ensures EditDistance(a, b) == EditDistance(b, a)
  {
    DistSymmetric(a, b, |a|, |b|);
  }

  lemma {:induction false} DistZeroIffEqual(a: string, b: string, i: nat, j: nat)
    requires i <= |a| && j <= |b|
    ensures Dist(a, b, i, j) == 0 <==> a[..i] == b[..j]
    decreases i + j
  {
    if i > 0 && j > 0 {
      DistZeroIffEqual(a, b, i - 1, j - 1);
      assert a[..i] == a[..i - 1] + [a[i - 1]];
      assert b[..j] == b[..j - 1] + [b[j - 1]];
      if a[..i] == b[..j] {
        assert a[..i][i - 1] == b[..j][j - 1];
        assert a[..i][..i - 1] == b[..j][..j - 1];
      }
    } else if i > 0 {
      assert |a[..i]| != |b[..j]|;
    } else if j > 0 {
      assert |a[..i]| != |b[..j]|;
    }
  }

  /** The distance is zero exactly when the two strings are the same. */
  lemma ZeroIffEqual(a: string, b: string)
    ensures EditDistance(a, b) == 0 <==> a == b
  {
    DistZeroIffEqual(a, b, |a|, |b|);
    assert a[..|a|] == a && b[..|b|] == b;
  }

  lemma {:induction false} DistLowerBound(a: string, b: string, i: nat, j: nat)
    requires i <= |a| && j <= |b|
    ensures i - j <= Dist(a, b, i, j) && j - i <= Dist(a, b, i, j)
    decreases i + j
  {
    if i > 0 && j > 0 {
      DistLowerBound(a, b, i, j - 1);
      DistLowerBound(a, b, i - 1, j);
      DistLowerBound(a, b, i - 1, j - 1);
      DistStep(a, b, i, j);
    }
  }

  lemma {:induction false} DistUpperBound(a: string, b: string, i: nat, j: nat)
    requires i <= |a| && j <= |b|
    ensures Dist(a, b, i, j) <= if i <= j then j else i
    decreases i + j
  {
    if i > 0 && j > 0 {
      DistUpperBound(a, b, i - 1, j - 1);
      DistAtMostEachMove(a, b, i, j);
    }
  }

  /**
   * The distance is at least the difference of the lengths and at most the
   * longer length; against the empty string it is the other string's length.
   */
  lemma Bounds(a: string, b: string)
    ensures |a| - |b| <= EditDistance(a, b) && |b| - |a| <= EditDistance(a, b)
    ensures EditDistance(a, b) <= if |a| <= |b| then |b| else |a|
    ensures EditDistance(a, []) == |a| && EditDistance([], a) == |a|
  {
    DistLowerBound(a, b, |a|, |b|);
    DistUpperBound(a, b, |a|, |b|);
  }

  /** One step of an edit script. */
  datatype Edit = Keep | Substitute(c: char) | Insert(c: char) | Delete

  /** Keeping a character is free; every other step costs one. */
  function Cost(script: seq<Edit>): nat {
    if script == [] then 0
    else Cost(script[..|script| - 1]) + (if script[|script| - 1] == Keep then 0 else 1)
  }

  /**
   * `script` turns the first `i` characters of `a` into the first `j` of `b`,
   * its last step acting at the end of both: Keep copies the last character
   * of `a`, Substitute(c) replaces it by c, Delete drops it, and Insert(c)
   * writes c without consuming anything of `a`.
   */
  predicate Turns(script: seq<Edit>, a: string, b: string, i: nat, j: nat)
    requires i <= |a| && j <= |b|
    decreases |script|
  {
    if script == [] then i == 0 && j == 0
    else
      var rest := script[..|script| - 1];
      match script[|script| - 1]
      case Keep =>
        i > 0 && j > 0 && b[j - 1] == a[i - 1] && Turns(rest, a, b, i - 1, j - 1)
      case Substitute(c) =>
        i > 0 && j > 0 && b[j - 1] == c && Turns(rest, a, b, i - 1, j - 1)
      case Insert(c) =>
        j > 0 && b[j - 1] == c && Turns(rest, a, b, i, j - 1)
      case Delete =>
        i > 0 && Turns(rest, a, b, i - 1, j)
  }

  /** `script` turns the whole of `a` into the whole of `b`. */
  predicate Transforms(script: seq<Edit>, a: string, b: string) {
    Turns(script, a, b, |a|, |b|)
  }

  /** Each of the three moves of the recurrence bounds the distance from above. */
  lemma DistAtMostEachMove(a: string, b: string, i: nat, j: nat)
    requires i <= |a| && j <= |b|
    ensures j > 0 ==> Dist(a, b, i, j) <= Dist(a, b, i, j - 1) + 1
    ensures i > 0 ==> Dist(a, b, i, j) <= Dist(a, b, i - 1, j) + 1
    ensures i > 0 && j > 0 ==> Dist(a, b, i, j) <= Dist(a, b, i - 1, j - 1) + Delta(a[i - 1], b[j - 1])
  {
    if i > 0 && j > 0 {
      DistStep(a, b, i, j);
    }
  }

  lemma {:induction false} NoScriptIsCheaperOnPrefixes(script: seq<Edit>, a: string, b: string, i: nat, j: nat)
    requires i <= |a| && j <= |b|
    requires Turns(script, a, b, i, j)
    ensures Cost(script) >= Dist(a, b, i, j)
    decreases |script|
  {
    if script != [] {
      var rest := script[..|script| - 1];
      DistAtMostEachMove(a, b, i, j);
      match script[|script| - 1]
      case Keep =>
        assert Cost(script) == Cost(rest);
        NoScriptIsCheaperOnPrefixes(rest, a, b, i - 1, j - 1);
      case Substitute(c) =>
        assert Cost(script) == Cost(rest) + 1;
        NoScriptIsCheaperOnPrefixes(rest, a, b, i - 1, j - 1);
      case Insert(c) =>
        assert Cost(script) == Cost(rest) + 1;
        NoScriptIsCheaperOnPrefixes(rest, a, b, i, j - 1);
      case Delete =>
        assert Cost(script) == Cost(rest) + 1;
        NoScriptIsCheaperOnPrefixes(rest, a, b, i - 1, j);
    }
  }

  /** No edit script that turns `a` into `b` is cheaper than the edit distance. */
  lemma NoScriptIsCheaper(script: seq<Edit>, a: string, b: string)
    requires Transforms(script, a, b)
    ensures Cost(script) >= EditDistance(a, b)
  {
    NoScriptIsCheaperOnPrefixes(script, a, b, |a|, |b|);
  }

  /** Adding one step at the end of a script. */
  lemma ExtendScript(script: seq<Edit>, e: Edit)
    ensures (script + [e])[..|script|] == script
    ensures Cost(script + [e]) == Cost(script) + (if e == Keep then 0 else 1)
  {
    assert (script + [e])[..|script|] == script;
  }

  lemma {:induction false} OptimalScriptOnPrefixes(a: string, b: string, i: nat, j: nat) returns (script: seq<Edit>)
    requires i <= |a| && j <= |b|
    ensures Turns(script, a, b, i, j)
    ensures Cost(script) == Dist(a, b, i, j)
    decreases i + j
  {
    if i == 0 && j == 0 {
      script := [];
    } else if i == 0 || (j > 0 && Dist(a, b, i, j) == Dist(a, b, i, j - 1) + 1) {
      var s := OptimalScriptOnPrefixes(a, b, i, j - 1);
      script := s + [Insert(b[j - 1])];
      ExtendScript(s, Insert(b[j - 1]));
    } else if j == 0 || Dist(a, b, i, j) == Dist(a, b, i - 1, j) + 1 {
      var s := OptimalScriptOnPrefixes(a, b, i - 1, j);
      script := s + [Delete];
      ExtendScript(s, Delete);
    } else {
      DistStep(a, b, i, j);
      var s := OptimalScriptOnPrefixes(a, b, i - 1, j - 1);
      var e := if a[i - 1] == b[j - 1] then Keep else Substitute(b[j - 1]);
      script := s + [e];
      ExtendScript(s, e);
    }
  }

  /** Some edit script turns `a` into `b` at a cost of exactly the edit distance. */
  lemma OptimalScript(a: string, b: string) returns (script: seq<Edit>)
    ensures Transforms(script, a, b)
    ensures Cost(script) == EditDistance(a, b)
  {
    script := OptimalScriptOnPrefixes(a, b, |a|, |b|);
  }
}
