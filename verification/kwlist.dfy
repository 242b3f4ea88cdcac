/**
 * `collect_related` and `get_kwlist`: the related searches and questions of
 * every keyword are stacked up; while the stack is shorter than the cutoff,
 * every keyword on it is queried again and the answers are added; the stack
 * is then lowercased and the keywords containing an unwanted pattern dropped.
 *
 * The search service is the parameter `query`, which gives the decoded
 * response for one keyword.
 */
module KwList {
  import opened Wrappers
  import opened Seqs
  import opened Text

  /**
   * A decoded response: the "query" of each related search and the
   * "question" of each related question, each list absent when its key is.
   */
  datatype Response = Response(relatedSearches: Option<seq<string>>, relatedQuestions: Option<seq<string>>)

  /**
   * `collect_related(response)`: a list holding the related searches (when
   * present) and then the related questions (when present), flattened.
   */
  function CollectRelated(response: Response): (related: seq<string>)
    ensures related == response.relatedSearches.GetOr([]) + response.relatedQuestions.GetOr([])
  {
    var searches := if response.relatedSearches.Some? then [response.relatedSearches.value] else [];
    var questions := if response.relatedQuestions.Some? then [response.relatedQuestions.value] else [];
    var lists := searches + questions;
    assert |lists| == 1 ==> Flatten(lists) == lists[0] + Flatten([]);
    assert |lists| == 2 ==> Flatten(lists) == lists[0] + Flatten([lists[1]]) by {
      if |lists| == 2 {
        assert lists[1..] == [lists[1]];
      }
    }
    assert |lists| == 2 ==> Flatten([lists[1]]) == lists[1] + Flatten([]) by {
      if |lists| == 2 {
        assert [lists[1]][1..] == [];
      }
    }
    Flatten(lists)
  }

  /** The related keywords of every keyword of `ks`, in the order of `ks`. */
  function Related(query: string -> Response, ks: seq<string>): seq<string> {
    if ks == [] then []
    else Related(query, ks[..|ks| - 1]) + CollectRelated(query(ks[|ks| - 1]))
  }

  /** A keyword is collected exactly when one of the queried keywords has it as a related keyword. */
  lemma {:induction false} RelatedSpec(query: string -> Response, ks: seq<string>, x: string)
    ensures x in Related(query, ks) <==> exists k :: 0 <= k < |ks| && x in CollectRelated(query(ks[k]))
  {
    if x in Related(query, ks) {
      var k := RelatedSource(query, ks, x);
    }
    if exists k :: 0 <= k < |ks| && x in CollectRelated(query(ks[k])) {
      var k :| 0 <= k < |ks| && x in CollectRelated(query(ks[k]));
      RelatedIncludes(query, ks, k, x);
    }
  }

  /** A collected keyword comes from one of the queried keywords. */
  lemma {:induction false} RelatedSource(query: string -> Response, ks: seq<string>, x: string) returns (k: nat)
    requires x in Related(query, ks)
    ensures k < |ks| && x in CollectRelated(query(ks[k]))
  {
    var n := |ks| - 1;
    var front := ks[..n];
    assert Related(query, ks) == Related(query, front) + CollectRelated(query(ks[n]));
    if x in Related(query, front) {
      k := RelatedSource(query, front, x);
      assert front[k] == ks[k];
    } else {
      k := n;
    }
  }

  /** Every related keyword of every queried keyword is collected. */
  lemma {:induction false} RelatedIncludes(query: string -> Response, ks: seq<string>, k: nat, x: string)
    requires k < |ks| && x in CollectRelated(query(ks[k]))
    ensures x in Related(query, ks)
  {
    var n := |ks| - 1;
    var front := ks[..n];
    assert Related(query, ks) == Related(query, front) + CollectRelated(query(ks[n]));
    if k < n {
      assert front[k] == ks[k];
      RelatedIncludes(query, front, k, x);
    }
  }

  /** One round of the `while` loop: every keyword of the stack queried, answers appended. */
  function Round(query: string -> Response, stack: seq<string>): seq<string> {
    stack + Related(query, stack)
  }

  /**
   * The `while kw_stack_length < cutoff` loop, allowed at most `fuel` rounds:
   * the stack once it reaches the cutoff, or None when the rounds run out.
   */
  function Grow(query: string -> Response, stack: seq<string>, cutoff: int, fuel: nat): Option<seq<string>>
    decreases fuel
  {
    if |stack| >= cutoff then Some(stack)
    else if fuel == 0 then None
    else Grow(query, Round(query, stack), cutoff, fuel - 1)
  }

  /** When the loop ends, the stack has reached the cutoff and still starts with what it started with. */
  lemma {:induction false} GrowReaches(query: string -> Response, stack: seq<string>, cutoff: int, fuel: nat)
    ensures Grow(query, stack, cutoff, fuel).Some? ==>
      && |Grow(query, stack, cutoff, fuel).value| >= cutoff
      && stack <= Grow(query, stack, cutoff, fuel).value
    decreases fuel
  {
    if |stack| < cutoff && fuel > 0 {
      GrowReaches(query, Round(query, stack), cutoff, fuel - 1);
    }
  }

  /**
   * When no keyword of a stack below the cutoff has any related keyword, no
   * number of rounds reaches the cutoff: the loop of `get_kwlist` never ends.
   */
  lemma {:induction false} GrowStalls(query: string -> Response, stack: seq<string>, cutoff: int, fuel: nat)
    requires |stack| < cutoff
    requires forall k :: 0 <= k < |stack| ==> CollectRelated(query(stack[k])) == []
    ensures Grow(query, stack, cutoff, fuel) == None
    decreases fuel
  {
    if fuel > 0 {
      if Related(query, stack) != [] {
        var x := Related(query, stack)[0];
        RelatedSpec(query, stack, x);
        assert false;
      }
      assert Round(query, stack) == stack;
      GrowStalls(query, stack, cutoff, fuel - 1);
    }
  }

  /** Every keyword of the stack lowercased, in stack order. */
  function LowerAll(stack: seq<string>): (collection: seq<string>)
    ensures |collection| == |stack|
  {
    seq(|stack|, i requires 0 <= i < |stack| => Lower(stack[i]))
  }

  /** The mask of the `--remove` filter: a keyword passes when it contains none of the patterns. */
  function Unmatched(cut: seq<string>): string -> bool {
    (w: string) => !ContainsAny(w, cut)
  }

  /**
   * The keywords kept by the `--remove` filter: the patterns are joined into
   * one regular expression of literal alternatives, and a keyword that
   * contains any of them is dropped.
   */
  function RemoveMatching(collection: seq<string>, cut: seq<string>): seq<string> {
    Keep(collection, Unmatched(cut))
  }

  /**
   * The filter keeps order and repeats: its result is the subsequence of
   * the collection at exactly the positions whose keyword contains no
   * pattern.
   */
  lemma RemoveMatchingSpec(collection: seq<string>, cut: seq<string>) returns (idx: seq<nat>)
    ensures Picks(RemoveMatching(collection, cut), collection, idx)
    ensures forall i :: 0 <= i < |collection| ==> (i in idx <==> !ContainsAny(collection[i], cut))
    ensures forall w :: w in RemoveMatching(collection, cut) <==> w in collection && !ContainsAny(w, cut)
  {
    idx := KeepPicks(collection, Unmatched(cut));
    KeepSpec(collection, Unmatched(cut));
  }

  /** The exported column: lowercased, and filtered only when `cut` is not empty. */
  function Export(stack: seq<string>, cut: seq<string>): seq<string> {
    var collection := LowerAll(stack);
    if cut != [] then RemoveMatching(collection, cut) else collection
  }

  /**
   * The export keeps order and repeats: it is the lowercased stack at the
   * strictly increasing positions `idx`, which are exactly the positions
   * whose lowercased keyword contains no cut pattern (all of them when
   * `cut` is empty).
   */
  lemma ExportOrder(stack: seq<string>, cut: seq<string>) returns (idx: seq<nat>)
    ensures |idx| == |Export(stack, cut)|
    ensures forall k :: 0 <= k < |idx| ==> idx[k] < |stack| && Export(stack, cut)[k] == Lower(stack[idx[k]])
    ensures forall k, l :: 0 <= k < l < |idx| ==> idx[k] < idx[l]
    ensures forall i :: 0 <= i < |stack| ==> (i in idx <==> !(cut != [] && ContainsAny(Lower(stack[i]), cut)))
  {
    if cut == [] {
      idx := seq(|stack|, i requires 0 <= i < |stack| => i);
      forall i | 0 <= i < |stack| ensures i in idx {
        assert idx[i] == i;
      }
    } else {
      idx := RemoveMatchingSpec(LowerAll(stack), cut);
      assert forall i :: 0 <= i < |stack| ==> LowerAll(stack)[i] == Lower(stack[i]);
    }
  }

  /**
   * Every exported keyword is a lowercased stack keyword that contains none
   * of the cut patterns, and every such keyword is exported; with no cut
   * patterns the whole lowercased stack is exported, in order.
   */
  lemma ExportSpec(stack: seq<string>, cut: seq<string>)
    ensures forall w :: w in Export(stack, cut) <==>
      (exists i :: 0 <= i < |stack| && w == Lower(stack[i])) && !(cut != [] && ContainsAny(w, cut))
    ensures cut == [] ==> |Export(stack, cut)| == |stack| && forall i :: 0 <= i < |stack| ==> Export(stack, cut)[i] == Lower(stack[i])
  {
    var _ := RemoveMatchingSpec(LowerAll(stack), cut);
    forall w ensures w in LowerAll(stack) <==> exists i :: 0 <= i < |stack| && w == Lower(stack[i]) {
      if w in LowerAll(stack) {
        var i :| 0 <= i < |stack| && LowerAll(stack)[i] == w;
      }
      if exists i :: 0 <= i < |stack| && w == Lower(stack[i]) {
        var i :| 0 <= i < |stack| && w == Lower(stack[i]);
        assert LowerAll(stack)[i] == w;
      }
    }
  }

  /** No exported keyword holds an upper-case ASCII letter. */
  lemma ExportIsLowerCase(stack: seq<string>, cut: seq<string>)
    ensures forall w, c :: w in Export(stack, cut) && c in w ==> !('A' <= c <= 'Z')
  {
    ExportSpec(stack, cut);
    forall w, c | w in Export(stack, cut) && c in w ensures !('A' <= c <= 'Z') {
      var i :| 0 <= i < |stack| && w == Lower(stack[i]);
      LowerSpec(stack[i]);
      var k :| 0 <= k < |w| && w[k] == c;
    }
  }

  /**
   * A pattern holding an upper-case ASCII letter never occurs in a
   * lowercased keyword, so it removes nothing.
   */
  lemma UpperCasePatternNeverMatches(s: string, p: string, k: nat)
    requires k < |p| && 'A' <= p[k] <= 'Z'
    ensures !Contains(Lower(s), p)
  {
    ContainsIffOccurs(Lower(s), p);
    LowerSpec(s);
  }

  /** The keyword list `get_kwlist` returns, or None when `fuel` rounds do not reach the cutoff. */
  function KwList(keywords: seq<string>, cutoff: int, cut: seq<string>, query: string -> Response, fuel: nat): Option<seq<string>> {
    match Grow(query, Related(query, keywords), cutoff, fuel)
    case None => None
    case Some(stack) => Some(Export(stack, cut))
  }

  /**
   * The `for f in futures` loop of `get_kwlist`: every keyword of `ks`
   * queried in turn, its related keywords appended to `stack`, and their
   * number returned as `added`.
   */
  method ExtendRelated(query: string -> Response, stack: seq<string>, ks: seq<string>)
    returns (grown: seq<string>, added: nat)
    ensures grown == stack + Related(query, ks)
    ensures added == |Related(query, ks)|
  {
    grown := stack;
    added := 0;
    for k := 0 to |ks|
      invariant grown == stack + Related(query, ks[..k])
      invariant added == |Related(query, ks[..k])|
    {
      var related := CollectRelated(query(ks[k]));
      assert ks[..k + 1][..k] == ks[..k];
      grown := grown + related;
      added := added + |related|;
    }
    assert ks[..|ks|] == ks;
  }

  /**
   * `get_kwlist(keywords, location, cutoff, fpath, cut)` without the CSV
   * output.  The source's `while` loop has no bound; here it may run at most
   * `maxRounds` rounds, and running out of rounds gives None.
   */
  method GetKwList(keywords: seq<string>, cutoff: int, cut: seq<string>, query: string -> Response, maxRounds: nat)
    returns (dataset: Option<seq<string>>)
    ensures dataset == KwList(keywords, cutoff, cut, query, maxRounds)
  {
    var kwStack: seq<string> := [];
    var kwStackLength := |kwStack|;
    var added;
    kwStack, added := ExtendRelated(query, kwStack, keywords);
    kwStackLength := kwStackLength + added;
    assert kwStack == Related(query, keywords);
    var rounds := 0;
    while kwStackLength < cutoff
      invariant rounds <= maxRounds
      invariant kwStackLength == |kwStack|
      invariant Grow(query, kwStack, cutoff, maxRounds - rounds) == Grow(query, Related(query, keywords), cutoff, maxRounds)
      decreases maxRounds - rounds
    {
      if rounds == maxRounds {
        return None;
      }
      kwStack, added := ExtendRelated(query, kwStack, kwStack);
      kwStackLength := kwStackLength + added;
      rounds := rounds + 1;
    }
    var collection := LowerAll(kwStack);
    if cut != [] {
      collection := RemoveMatching(collection, cut);
    }
    dataset := Some(collection);
  }
}
