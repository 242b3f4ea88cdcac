/**
 * `cluster_keywords`: the keywords' pairwise similarity (the negated edit
 * distance), a clustering of that matrix, and the table of (keyword,
 * exemplar) rows assembled label by label.
 *
 * The clustering itself (scikit-learn's affinity propagation) is not part of
 * this model: it is the parameter `affinity`, a function from the similarity
 * matrix and the damping factor to the labels and exemplar indices it finds.
 */
module Cluster {
  import opened Wrappers
  import opened Ordering
  import opened Text
  import opened Seqs
  import Levenshtein

  /** What the clustering reports: a label per keyword and, per label, the index of its exemplar. */
  datatype Fit = Fit(labels: seq<int>, centers: seq<int>)

  /** One row of the output table: a keyword and the exemplar of its cluster. */
  datatype Row = Row(keywords: string, cluster: string)

  datatype Error =
    | DampingOutOfRange     // the damping factor is below 0.5 or above 1.0: the program exits
    | IndexOutOfRange       // a label or exemplar index outside its list, or labels not one per keyword
    | NothingToConcatenate  // no label at all: there is no table to concatenate

  /** Row `r` of the similarity matrix: minus the distance from every keyword to keyword `r`. */
  function SimilarityRow(words: seq<string>, r: nat): seq<int>
    requires r < |words|
  {
    seq(|words|, c requires 0 <= c < |words| => -(Levenshtein.EditDistance(words[c], words[r]) as int))
  }

  /** The square matrix handed to the clustering. */
  function Similarity(words: seq<string>): (matrix: seq<seq<int>>)
    ensures |matrix| == |words|
    ensures forall r :: 0 <= r < |matrix| ==> |matrix[r]| == |words|
  {
    seq(|words|, r requires 0 <= r < |words| => SimilarityRow(words, r))
  }

  /**
   * The matrix is symmetric, zero exactly where the two keywords are equal
   * (so on the diagonal), never positive, and no further below zero than
   * the longer of the two keywords is long.
   */
  lemma SimilarityFacts(words: seq<string>)
    ensures forall r, c :: 0 <= r < |words| && 0 <= c < |words| ==> Similarity(words)[r][c] == Similarity(words)[c][r]
    ensures forall r, c :: 0 <= r < |words| && 0 <= c < |words| ==> (Similarity(words)[r][c] == 0 <==> words[r] == words[c])
    ensures forall r, c :: 0 <= r < |words| && 0 <= c < |words| ==> Similarity(words)[r][c] <= 0
    ensures forall r, c :: 0 <= r < |words| && 0 <= c < |words| ==>
      -Similarity(words)[r][c] <= if |words[r]| <= |words[c]| then |words[c]| else |words[r]|
  {
    forall r, c | 0 <= r < |words| && 0 <= c < |words|
      ensures Similarity(words)[r][c] == Similarity(words)[c][r]
      ensures Similarity(words)[r][c] == 0 <==> words[r] == words[c]
      ensures -Similarity(words)[r][c] <= if |words[r]| <= |words[c]| then |words[c]| else |words[r]|
    {
      Levenshtein.Symmetric(words[c], words[r]);
      Levenshtein.ZeroIffEqual(words[c], words[r]);
      Levenshtein.Bounds(words[c], words[r]);
    }
  }

  /**
   * The similarity matrix handed to affinity propagation: the negated edit
   * distance of every pair of keywords, one row per keyword `w2` and one
   * column per keyword `w1`.
   */
  method DistanceMatrix(words: seq<string>) returns (matrix: seq<seq<int>>)
    ensures matrix == Similarity(words)
  {
    matrix := [];
    for r := 0 to |words|
      invariant |matrix| == r
      invariant forall r' :: 0 <= r' < r ==> matrix[r'] == SimilarityRow(words, r')
    {
      var row: seq<int> := [];
      for c := 0 to |words|
        invariant |row| == c
        invariant forall c' :: 0 <= c' < c ==> row[c'] == -(Levenshtein.EditDistance(words[c'], words[r]) as int)
      {
        var distance := Levenshtein.Levenshtein(words[c], words[r]);
        row := row + [-1 * distance as int];
      }
      matrix := matrix + [row];
    }
  }

  /** Python's `s[k]`: a negative index counts from the end; anything else outside the list fails. */
  function PyIndex<T>(s: seq<T>, k: int): (r: Option<T>)
    ensures r.Some? <==> -|s| <= k < |s|
  {
    if 0 <= k < |s| then Some(s[k])
    else if -|s| <= k < 0 then Some(s[|s| + k])
    else None
  }

  /** The exemplar of cluster `lab`: the keyword at that cluster's centre index. */
  function Exemplar(searches: seq<string>, centers: seq<int>, lab: int): Option<string> {
    match PyIndex(centers, lab)
    case None => None
    case Some(c) => PyIndex(searches, c)
  }

  /** The members of cluster `lab`: the keywords carrying that label, in their original order. */
  function Members(words: seq<string>, labels: seq<int>, lab: int): seq<string>
    requires |labels| == |words|
  {
    if words == [] then []
    else
      var n := |words| - 1;
      Members(words[..n], labels[..n], lab) + (if labels[n] == lab then [words[n]] else [])
  }

  lemma {:induction false} MembersSpec(words: seq<string>, labels: seq<int>, lab: int)
    requires |labels| == |words|
    ensures forall w :: w in Members(words, labels, lab) <==>
      exists i :: 0 <= i < |words| && labels[i] == lab && words[i] == w
  {
    if words != [] {
      var n := |words| - 1;
      MembersSpec(words[..n], labels[..n], lab);
      forall w ensures w in Members(words, labels, lab) <==>
        exists i :: 0 <= i < |words| && labels[i] == lab && words[i] == w
      {
        if w in Members(words[..n], labels[..n], lab) {
          var i :| 0 <= i < n && labels[..n][i] == lab && words[..n][i] == w;
          assert labels[i] == lab && words[i] == w;
        }
        if exists i :: 0 <= i < |words| && labels[i] == lab && words[i] == w {
          var i :| 0 <= i < |words| && labels[i] == lab && words[i] == w;
          if i < n {
            assert labels[..n][i] == lab && words[..n][i] == w;
          }
        }
      }
    }
  }

  /** The output pairs of one cluster: every member keyword paired with the exemplar. */
  function Block(cluster: seq<string>, exemplar: string): seq<Row> {
    seq(|cluster|, i requires 0 <= i < |cluster| => Row(cluster[i], exemplar))
  }

  /** The keyword column of a table. */
  function Keywords(rows: seq<Row>): seq<string> {
    seq(|rows|, i requires 0 <= i < |rows| => rows[i].keywords)
  }

  /** The block for each label of `ls` in turn, or None once an exemplar index is out of range. */
  function Blocks(searches: seq<string>, fit: Fit, ls: seq<int>): Option<seq<seq<Row>>>
    requires |fit.labels| == |searches|
  {
    if ls == [] then Some([])
    else
      var lab := ls[|ls| - 1];
      match Blocks(searches, fit, ls[..|ls| - 1])
      case None => None
      case Some(bs) =>
        match Exemplar(searches, fit.centers, lab)
        case None => None
        case Some(e) => Some(bs + [Block(SortedUnique(LexLess, Members(searches, fit.labels, lab)), e)])
  }

  /** The table `cluster_keywords` returns for a given clustering, or the error it stops with. */
  function Clustered(searches: seq<string>, fit: Fit): Result<seq<Row>, Error> {
    var labels := SortedUnique(IntLess, fit.labels);
    if labels == [] then Failure(NothingToConcatenate)
    else if |fit.labels| != |searches| then Failure(IndexOutOfRange)
    else match Blocks(searches, fit, labels)
      case None => Failure(IndexOutOfRange)
      case Some(bs) => Success(Flatten(bs))
  }

  /**
   * `cluster_keywords(searches, damping, fpath)` without the file output:
   * rejects a damping factor outside [0.5, 1.0], clusters the similarity
   * matrix, and for each label in increasing order appends the block of its
   * distinct keywords, sorted, paired with its exemplar.
   */
  method ClusterKeywords(searches: seq<string>, damping: real, affinity: (seq<seq<int>>, real) -> Fit)
    returns (result: Result<seq<Row>, Error>)
    ensures damping < 0.5 || damping > 1.0 ==> result == Failure(DampingOutOfRange)
    ensures 0.5 <= damping <= 1.0 ==> result == Clustered(searches, affinity(Similarity(searches), damping))
  {
    if damping < 0.5 || damping > 1.0 {
      return Failure(DampingOutOfRange);
    }
    var matrix := DistanceMatrix(searches);
    var fit := affinity(matrix, damping);
    var labels := SortedUnique(IntLess, fit.labels);
    var datasets: seq<seq<Row>> := [];
    for k := 0 to |labels|
      invariant k == 0 ==> datasets == []
      invariant k > 0 ==> |fit.labels| == |searches| && Blocks(searches, fit, labels[..k]) == Some(datasets)
    {
      var exemplar := Exemplar(searches, fit.centers, labels[k]);
      if exemplar.None? || |fit.labels| != |searches| {
        if |fit.labels| == |searches| {
          BlocksSpec(searches, fit, labels);
        }
        return Failure(IndexOutOfRange);
      }
      var cluster := SortedUnique(LexLess, Members(searches, fit.labels, labels[k]));
      assert labels[..k + 1][..k] == labels[..k];
      datasets := datasets + [Block(cluster, exemplar.value)];
    }
    if datasets == [] {
      return Failure(NothingToConcatenate);
    }
    assert labels[..|labels|] == labels;
    result := Success(Flatten(datasets));
  }

  lemma {:induction false} BlocksSpec(searches: seq<string>, fit: Fit, ls: seq<int>)
    requires |fit.labels| == |searches|
    ensures Blocks(searches, fit, ls).Some? <==>
      forall t :: 0 <= t < |ls| ==> Exemplar(searches, fit.centers, ls[t]).Some?
    ensures Blocks(searches, fit, ls).Some? ==>
      var bs := Blocks(searches, fit, ls).value;
      && |bs| == |ls|
      && forall t :: 0 <= t < |ls| ==>
           bs[t] == Block(SortedUnique(LexLess, Members(searches, fit.labels, ls[t])), Exemplar(searches, fit.centers, ls[t]).value)
  {
    if ls != [] {
      var n := |ls| - 1;
      BlocksSpec(searches, fit, ls[..n]);
      assert forall t :: 0 <= t < n ==> ls[..n][t] == ls[t];
    }
  }

  lemma BlockSpec(cluster: seq<string>, exemplar: string)
    ensures Keywords(Block(cluster, exemplar)) == cluster
    ensures forall r :: r in Block(cluster, exemplar) <==> r.keywords in cluster && r.cluster == exemplar
  {
    var b := Block(cluster, exemplar);
    forall r ensures r in b <==> r.keywords in cluster && r.cluster == exemplar {
      if r.keywords in cluster && r.cluster == exemplar {
        var i :| 0 <= i < |cluster| && cluster[i] == r.keywords;
        assert b[i] == r;
      }
    }
  }

  /**
   * The table exists exactly when there is at least one keyword, the
   * clustering gives one label per keyword, and every label leads to an
   * exemplar inside the keyword list.
   */
  lemma ClusteredSucceeds(searches: seq<string>, fit: Fit)
    ensures Clustered(searches, fit).Success? <==>
      && |searches| > 0
      && |fit.labels| == |searches|
      && forall i :: 0 <= i < |searches| ==> Exemplar(searches, fit.centers, fit.labels[i]).Some?
  {
    var labels := SortedUnique(IntLess, fit.labels);
    IntLessIsStrictTotalOrder();
    SortedUniqueSpec(IntLess, fit.labels);
    if fit.labels != [] {
      assert fit.labels[0] in labels;
    }
    if |fit.labels| == |searches| {
      BlocksSpec(searches, fit, labels);
      if forall i :: 0 <= i < |searches| ==> Exemplar(searches, fit.centers, fit.labels[i]).Some? {
        forall t | 0 <= t < |labels| ensures Exemplar(searches, fit.centers, labels[t]).Some? {
          assert labels[t] in fit.labels;
        }
      }
      if Blocks(searches, fit, labels).Some? {
        forall i | 0 <= i < |searches| ensures Exemplar(searches, fit.centers, fit.labels[i]).Some? {
          assert fit.labels[i] in labels;
          var t :| 0 <= t < |labels| && labels[t] == fit.labels[i];
        }
      }
    }
  }

  /**
   * The rows of the table are exactly the pairs of a keyword and the
   * exemplar of that keyword's label: every keyword is listed with its
   * exemplar, and nothing else is listed.
   */
  lemma ClusteredRows(searches: seq<string>, fit: Fit, table: seq<Row>)
    requires Clustered(searches, fit) == Success(table)
    ensures forall r :: r in table <==>
      exists i :: 0 <= i < |searches| && r.keywords == searches[i] && Exemplar(searches, fit.centers, fit.labels[i]) == Some(r.cluster)
  {
    var labels := SortedUnique(IntLess, fit.labels);
    IntLessIsStrictTotalOrder();
    SortedUniqueSpec(IntLess, fit.labels);
    BlocksSpec(searches, fit, labels);
    var bs := Blocks(searches, fit, labels).value;
    assert table == Flatten(bs);
    forall r ensures r in table <==>
      exists i :: 0 <= i < |searches| && r.keywords == searches[i] && Exemplar(searches, fit.centers, fit.labels[i]) == Some(r.cluster)
    {
      FlattenMember(bs, r);
      if r in table {
        var t :| 0 <= t < |bs| && r in bs[t];
        var members := Members(searches, fit.labels, labels[t]);
        LexLessIsStrictTotalOrder();
        SortedUniqueSpec(LexLess, members);
        BlockSpec(SortedUnique(LexLess, members), Exemplar(searches, fit.centers, labels[t]).value);
        MembersSpec(searches, fit.labels, labels[t]);
        var i :| 0 <= i < |searches| && fit.labels[i] == labels[t] && searches[i] == r.keywords;
      }
      if exists i :: 0 <= i < |searches| && r.keywords == searches[i] && Exemplar(searches, fit.centers, fit.labels[i]) == Some(r.cluster) {
        var i :| 0 <= i < |searches| && r.keywords == searches[i] && Exemplar(searches, fit.centers, fit.labels[i]) == Some(r.cluster);
        assert fit.labels[i] in labels;
        var t :| 0 <= t < |labels| && labels[t] == fit.labels[i];
        var members := Members(searches, fit.labels, labels[t]);
        MembersSpec(searches, fit.labels, labels[t]);
        assert r.keywords in members;
        LexLessIsStrictTotalOrder();
        SortedUniqueSpec(LexLess, members);
        BlockSpec(SortedUnique(LexLess, members), Exemplar(searches, fit.centers, labels[t]).value);
        assert r in bs[t];
      }
    }
  }

  /**
   * The table is made of one block per distinct label, in increasing label
   * order; each block lists the distinct keywords of its label in increasing
   * order, every one paired with that label's exemplar.
   */
  lemma ClusteredBlocks(searches: seq<string>, fit: Fit, table: seq<Row>)
    requires Clustered(searches, fit) == Success(table)
    ensures Increasing(IntLess, SortedUnique(IntLess, fit.labels))
    ensures
      var labels := SortedUnique(IntLess, fit.labels);
      var bs := Blocks(searches, fit, labels).value;
      && table == Flatten(bs)
      && |bs| == |labels|
      && forall t :: 0 <= t < |bs| ==>
           && Increasing(LexLess, Keywords(bs[t]))
           && (forall w :: w in Keywords(bs[t]) <==> exists i :: 0 <= i < |searches| && fit.labels[i] == labels[t] && searches[i] == w)
           && (forall r: Row :: r in bs[t] ==> Exemplar(searches, fit.centers, labels[t]) == Some(r.cluster))
  {
    var labels := SortedUnique(IntLess, fit.labels);
    IntLessIsStrictTotalOrder();
    SortedUniqueSpec(IntLess, fit.labels);
    BlocksSpec(searches, fit, labels);
    var bs := Blocks(searches, fit, labels).value;
    forall t | 0 <= t < |bs|
      ensures Increasing(LexLess, Keywords(bs[t]))
      ensures forall w :: w in Keywords(bs[t]) <==> exists i :: 0 <= i < |searches| && fit.labels[i] == labels[t] && searches[i] == w
      ensures forall r: Row :: r in bs[t] ==> Exemplar(searches, fit.centers, labels[t]) == Some(r.cluster)
    {
      var members := Members(searches, fit.labels, labels[t]);
      LexLessIsStrictTotalOrder();
      SortedUniqueSpec(LexLess, members);
      MembersSpec(searches, fit.labels, labels[t]);
      BlockSpec(SortedUnique(LexLess, members), Exemplar(searches, fit.centers, labels[t]).value);
    }
  }

  /** The number of distinct keywords carrying each label of `ls`, summed. */
  ghost function DistinctPerLabel(searches: seq<string>, labels: seq<int>, ls: seq<int>): nat
    requires |labels| == |searches|
  {
    if ls == [] then 0
    else
      var n := |ls| - 1;
      DistinctPerLabel(searches, labels, ls[..n]) + |set w | w in Members(searches, labels, ls[n])|
  }

  /** The blocks for the labels of `ls` hold as many rows as those labels have distinct keywords. */
  lemma {:induction false} BlocksLength(searches: seq<string>, fit: Fit, ls: seq<int>)
    requires |fit.labels| == |searches|
    requires Blocks(searches, fit, ls).Some?
    ensures |Flatten(Blocks(searches, fit, ls).value)| == DistinctPerLabel(searches, fit.labels, ls)
  {
    if ls != [] {
      var n := |ls| - 1;
      var lab := ls[n];
      BlocksLength(searches, fit, ls[..n]);
      var members := Members(searches, fit.labels, lab);
      var cluster := SortedUnique(LexLess, members);
      var bs := Blocks(searches, fit, ls[..n]).value;
      var block := Block(cluster, Exemplar(searches, fit.centers, lab).value);
      assert Blocks(searches, fit, ls).value == bs + [block];
      FlattenAppend(bs, block);
      LexLessIsStrictTotalOrder();
      SortedUniqueSpec(LexLess, members);
      IncreasingCardinality(LexLess, cluster);
      assert (set w | w in cluster) == (set w | w in members);
    }
  }

  /**
   * The table has one row per distinct keyword of each label, so its length
   * is the number of distinct keywords per label, summed over the labels.
   */
  lemma ClusteredRowCount(searches: seq<string>, fit: Fit, table: seq<Row>)
    requires Clustered(searches, fit) == Success(table)
    ensures |fit.labels| == |searches|
    ensures |table| == DistinctPerLabel(searches, fit.labels, SortedUnique(IntLess, fit.labels))
  {
    BlocksLength(searches, fit, SortedUnique(IntLess, fit.labels));
  }

  /**
   * When the exemplar of a keyword's cluster carries that cluster's label
   * itself, as affinity propagation makes it, the exemplar is listed as a
   * keyword of its own cluster.
   */
  lemma ExemplarListsItself(searches: seq<string>, fit: Fit, table: seq<Row>, i: nat)
    requires Clustered(searches, fit) == Success(table)
    requires i < |searches|
    requires 0 <= fit.labels[i] < |fit.centers| && 0 <= fit.centers[fit.labels[i]] < |searches|
    requires fit.labels[fit.centers[fit.labels[i]]] == fit.labels[i]
    ensures var e := searches[fit.centers[fit.labels[i]]]; Row(e, e) in table
  {
    ClusteredRows(searches, fit, table);
    var c := fit.centers[fit.labels[i]];
    assert Exemplar(searches, fit.centers, fit.labels[c]) == Some(searches[c]);
  }
}
