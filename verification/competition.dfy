/**
 * `enumerate_competition`: for each keyword, the domains of the organic
 * search results; the domains, with "www." removed, counted; and the counts
 * ordered from the most frequent domain down.
 *
 * The search service is the parameter `query`, which gives the decoded
 * response for one keyword.
 */
module Competition {
  import opened Wrappers
  import opened Seqs
  import opened Text

  /** One organic result; it may lack a "domain" key. */
  datatype OrganicResult = OrganicResult(domain: Option<string>)

  /** A decoded response; it may lack the "organic_results" key. */
  datatype Response = Response(organicResults: Option<seq<OrganicResult>>)

  /** One item of the returned dictionary: a domain and how often it appeared. */
  datatype Entry = Entry(domain: string, count: nat)

  datatype Error = MissingOrganicResults  // a response without "organic_results": the lookup fails

  /** The "domain" field of each result that carries one, in result order. */
  function SerpDomains(results: seq<OrganicResult>): seq<string> {
    if results == [] then []
    else
      var n := |results| - 1;
      SerpDomains(results[..n]) + (match results[n].domain case Some(d) => [d] case None => [])
  }

  /** The "domain" field of every result, in order, absent where the result has none. */
  function DomainFields(results: seq<OrganicResult>): (fields: seq<Option<string>>)
    ensures |fields| == |results|
    ensures forall i :: 0 <= i < |results| ==> fields[i] == results[i].domain
  {
    if results == [] then []
    else
      var n := |results| - 1;
      DomainFields(results[..n]) + [results[n].domain]
  }

  /** The domains kept are those of the results that have one, in order, each as often as it occurs. */
  lemma {:induction false} SerpDomainsSpec(results: seq<OrganicResult>, d: string)
    ensures multiset(SerpDomains(results))[d] == multiset(DomainFields(results))[Some(d)]
    ensures |SerpDomains(results)| <= |results|
  {
    if results != [] {
      var n := |results| - 1;
      SerpDomainsSpec(results[..n], d);
      var last: seq<string> := match results[n].domain case Some(x) => [x] case None => [];
      assert SerpDomains(results) == SerpDomains(results[..n]) + last;
      assert multiset(SerpDomains(results)) == multiset(SerpDomains(results[..n])) + multiset(last);
      assert multiset(DomainFields(results)) == multiset(DomainFields(results[..n])) + multiset{results[n].domain};
    }
  }

  /**
   * The domains keep result order: they are the "domain" fields of the
   * results at strictly increasing positions `idx`, which are exactly the
   * positions of the results that carry one.
   */
  lemma {:induction false} SerpDomainsOrder(results: seq<OrganicResult>) returns (idx: seq<nat>)
    ensures |idx| == |SerpDomains(results)|
    ensures forall k :: 0 <= k < |idx| ==> idx[k] < |results| && results[idx[k]].domain == Some(SerpDomains(results)[k])
    ensures forall k, l :: 0 <= k < l < |idx| ==> idx[k] < idx[l]
    ensures forall i :: 0 <= i < |results| ==> (i in idx <==> results[i].domain.Some?)
  {
    if results == [] {
      idx := [];
    } else {
      var n := |results| - 1;
      var front := SerpDomainsOrder(results[..n]);
      assert results == results[..n] + [results[n]];
      idx := DomainPositionsGrow(results[..n], results[n], SerpDomains(results[..n]), front);
    }
  }

  /**
   * One more result: its domain, when it has one, is appended and its
   * position recorded.
   */
  lemma DomainPositionsGrow(results: seq<OrganicResult>, x: OrganicResult, ds: seq<string>, front: seq<nat>)
    returns (idx: seq<nat>)
    requires |front| == |ds|
    requires forall k :: 0 <= k < |front| ==> front[k] < |results| && results[front[k]].domain == Some(ds[k])
    requires forall k, l :: 0 <= k < l < |front| ==> front[k] < front[l]
    requires forall i :: 0 <= i < |results| ==> (i in front <==> results[i].domain.Some?)
    ensures var grown := ds + (match x.domain case Some(d) => [d] case None => []);
      && |idx| == |grown|
      && (forall k :: 0 <= k < |idx| ==> idx[k] < |results| + 1 && (results + [x])[idx[k]].domain == Some(grown[k]))
      && (forall k, l :: 0 <= k < l < |idx| ==> idx[k] < idx[l])
      && (forall i :: 0 <= i < |results| + 1 ==> (i in idx <==> (results + [x])[i].domain.Some?))
  {
    var n := |results|;
    var grown := ds + (match x.domain case Some(d) => [d] case None => []);
    var ext := results + [x];
    assert n !in front;
    idx := if x.domain.Some? then front + [n] else front;
    forall k | 0 <= k < |idx| ensures idx[k] < n + 1 && ext[idx[k]].domain == Some(grown[k]) {
      if k < |front| {
        assert idx[k] == front[k] && grown[k] == ds[k];
        assert ext[front[k]] == results[front[k]];
      }
    }
    forall i | 0 <= i < n + 1 ensures i in idx <==> ext[i].domain.Some? {
      if i < n {
        assert ext[i] == results[i];
        assert i in idx <==> i in front;
      }
    }
  }

  /** The response for every keyword in turn, as the executor hands them back (in keyword order). */
  function Responses(keywords: seq<string>, query: string -> Response): seq<Response> {
    seq(|keywords|, k requires 0 <= k < |keywords| => query(keywords[k]))
  }

  /** The per-keyword domain lists, or None when some response has no organic results. */
  function Collect(responses: seq<Response>): Option<seq<seq<string>>> {
    if responses == [] then Some([])
    else
      var n := |responses| - 1;
      match Collect(responses[..n])
      case None => None
      case Some(ds) =>
        match responses[n].organicResults
        case None => None
        case Some(results) => Some(ds + [SerpDomains(results)])
  }

  lemma {:induction false} CollectSpec(responses: seq<Response>)
    ensures Collect(responses).Some? <==> forall k :: 0 <= k < |responses| ==> responses[k].organicResults.Some?
    ensures Collect(responses).Some? ==>
      && |Collect(responses).value| == |responses|
      && forall k :: 0 <= k < |responses| ==> Collect(responses).value[k] == SerpDomains(responses[k].organicResults.value)
  {
    if responses != [] {
      var n := |responses| - 1;
      CollectSpec(responses[..n]);
      assert forall k :: 0 <= k < n ==> responses[..n][k] == responses[k];
    }
  }

  /** A domain with every occurrence of `www.` deleted. */
  function Strip(domain: string): string {
    RemoveAll(domain, "www.")
  }

  /** "www." in front of a domain is removed, and a domain without "www." is kept as it is. */
  lemma StripSpec(domain: string)
    ensures (forall i :: !OccursAt(domain, "www.", i)) ==> Strip(domain) == domain
    ensures (forall i :: !OccursAt(domain, "www.", i)) ==> Strip("www." + domain) == domain
  {
    if forall i :: !OccursAt(domain, "www.", i) {
      RemoveAllNoOccurrence(domain, "www.");
      assert "www." + domain == [] + "www." + domain;
      RemoveAllDeletesOccurrence([], "www.", domain);
    }
  }

  /** All per-keyword domain lists concatenated in keyword order, each domain with `www.` deleted. */
  function FlatDomains(domains: seq<seq<string>>): (flat: seq<string>)
    ensures |flat| == |Flatten(domains)|
  {
    var all := Flatten(domains);
    seq(|all|, i requires 0 <= i < |all| => Strip(all[i]))
  }

  /** The domains of a list of entries, in order. */
  function DomainsOf(entries: seq<Entry>): seq<string> {
    seq(|entries|, i requires 0 <= i < |entries| => entries[i].domain)
  }

  /** No domain is listed twice. */
  predicate DistinctDomains(entries: seq<Entry>) {
    forall i, j :: 0 <= i < j < |entries| ==> entries[i].domain != entries[j].domain
  }

  /** Counting one more `d`: its entry goes up by one, or a new entry with count 1 goes at the end. */
  function Bump(entries: seq<Entry>, d: string): seq<Entry> {
    if entries == [] then [Entry(d, 1)]
    else if entries[0].domain == d then [Entry(d, entries[0].count + 1)] + entries[1..]
    else [entries[0]] + Bump(entries[1..], d)
  }

  /** The tally of the flat list: the count of each domain, domains in order of first appearance. */
  function Tally(flat: seq<string>): seq<Entry> {
    if flat == [] then []
    else Bump(Tally(flat[..|flat| - 1]), flat[|flat| - 1])
  }

  /** The sum of the counts. */
  function TotalCount(entries: seq<Entry>): nat {
    if entries == [] then 0 else entries[0].count + TotalCount(entries[1..])
  }

  lemma {:induction false} BumpTotal(entries: seq<Entry>, d: string)
    ensures TotalCount(Bump(entries, d)) == TotalCount(entries) + 1
  {
    if entries != [] && entries[0].domain != d {
      BumpTotal(entries[1..], d);
      assert Bump(entries, d)[1..] == Bump(entries[1..], d);
    }
  }

  /** The counts add up to the number of domains counted. */
  lemma {:induction false} TallyTotal(flat: seq<string>)
    ensures TotalCount(Tally(flat)) == |flat|
  {
    if flat != [] {
      TallyTotal(flat[..|flat| - 1]);
      BumpTotal(Tally(flat[..|flat| - 1]), flat[|flat| - 1]);
    }
  }

  /** Where `d` first appears in `s` (|s| when it does not). */
  function FirstIndex(s: seq<string>, d: string): (k: nat)
    ensures k <= |s|
    ensures k < |s| ==> s[k] == d
    ensures forall i :: 0 <= i < k ==> s[i] != d
  {
    if s == [] then 0
    else if s[0] == d then 0
    else 1 + FirstIndex(s[1..], d)
  }

  /**
   * Counting `d` when it is already listed raises its count by one in place;
   * otherwise it is appended with count 1.
   */
  lemma {:induction false} BumpSpec(entries: seq<Entry>, d: string)
    requires DistinctDomains(entries)
    ensures d in DomainsOf(entries) ==>
      && |Bump(entries, d)| == |entries|
      && forall i :: 0 <= i < |entries| ==>
           Bump(entries, d)[i] == if entries[i].domain == d then Entry(d, entries[i].count + 1) else entries[i]
    ensures d !in DomainsOf(entries) ==> Bump(entries, d) == entries + [Entry(d, 1)]
  {
    if entries != [] {
      var rest := entries[1..];
      assert DomainsOf(entries) == [entries[0].domain] + DomainsOf(rest);
      if entries[0].domain == d {
        forall i | 1 <= i < |entries| ensures entries[i].domain != d {
        }
      } else {
        BumpSpec(rest, d);
        forall i | 1 <= i < |entries|
          ensures Bump(entries, d)[i] == Bump(rest, d)[i - 1]
          ensures entries[i] == rest[i - 1]
        {
        }
      }
    }
  }

  lemma FirstIndexAppend(s: seq<string>, x: string, d: string)
    ensures x in s ==> FirstIndex(s + [d], x) == FirstIndex(s, x) < |s|
    ensures x !in s ==> FirstIndex(s + [x], x) == |s|
  {
    var k := FirstIndex(s + [d], x);
    if x in s {
      var j :| 0 <= j < |s| && s[j] == x;
      assert (s + [d])[j] == x;
      assert forall i :: 0 <= i < |s| ==> (s + [d])[i] == s[i];
      FirstIndexUnique(s + [d], x, k);
      FirstIndexUnique(s, x, k);
    } else {
      assert (s + [x])[|s|] == x;
      FirstIndexUnique(s + [x], x, |s|);
    }
  }

  /** The first index is the only index holding `x` with no `x` before it. */
  lemma FirstIndexUnique(s: seq<string>, x: string, k: nat)
    requires k < |s| && s[k] == x
    requires forall i :: 0 <= i < k ==> s[i] != x
    ensures FirstIndex(s, x) == k
  {
  }

  /** The tally lists every domain of `flat` once and nothing else. */
  lemma {:induction false} TallyDomains(flat: seq<string>)
    ensures DistinctDomains(Tally(flat))
    ensures forall d :: d in DomainsOf(Tally(flat)) <==> d in flat
  {
    if flat != [] {
      var n := |flat| - 1;
      var front, d := flat[..n], flat[n];
      assert flat == front + [d];
      TallyDomains(front);
      var t := Tally(front);
      BumpSpec(t, d);
      var r := Tally(flat);
      assert r == Bump(t, d);
      forall x ensures x in DomainsOf(r) <==> x in flat {
        if x in DomainsOf(r) {
          var i :| 0 <= i < |r| && DomainsOf(r)[i] == x;
          if i < |t| {
            assert DomainsOf(t)[i] == x || x == d;
          }
        }
        if x in front || (x == d && d in DomainsOf(t)) {
          var i :| 0 <= i < |t| && DomainsOf(t)[i] == x;
          assert DomainsOf(r)[i] == x;
        }
        if x == d && d !in DomainsOf(t) {
          assert DomainsOf(r)[|t|] == x;
        }
      }
      forall i, j | 0 <= i < j < |r| ensures r[i].domain != r[j].domain {
        if j == |t| {
          assert DomainsOf(t)[i] == t[i].domain;
        }
      }
    }
  }

  /** Each listed count is the number of times its domain occurs in `flat`. */
  lemma {:induction false} TallyCounts(flat: seq<string>)
    ensures forall i :: 0 <= i < |Tally(flat)| ==> Tally(flat)[i].count == multiset(flat)[Tally(flat)[i].domain]
  {
    if flat != [] {
      var n := |flat| - 1;
      var front, d := flat[..n], flat[n];
      assert flat == front + [d];
      TallyCounts(front);
      TallyDomains(front);
      var t := Tally(front);
      BumpSpec(t, d);
      var r := Tally(flat);
      assert r == Bump(t, d);
      assert multiset(flat) == multiset(front) + multiset{d};
      forall i | 0 <= i < |r| ensures r[i].count == multiset(flat)[r[i].domain] {
        if i < |t| {
          assert DomainsOf(t)[i] == t[i].domain;
        }
      }
    }
  }

  /** Domains are listed in the order in which they first appear in `flat`. */
  lemma {:induction false} TallyOrder(flat: seq<string>)
    ensures forall i, j :: 0 <= i < j < |Tally(flat)| ==>
      FirstIndex(flat, Tally(flat)[i].domain) < FirstIndex(flat, Tally(flat)[j].domain)
  {
    if flat != [] {
      var n := |flat| - 1;
      var front, d := flat[..n], flat[n];
      assert flat == front + [d];
      TallyOrder(front);
      TallyDomains(front);
      var t := Tally(front);
      BumpSpec(t, d);
      var r := Tally(flat);
      assert r == Bump(t, d);
      forall i, j | 0 <= i < j < |r| ensures FirstIndex(flat, r[i].domain) < FirstIndex(flat, r[j].domain) {
        assert DomainsOf(t)[i] == t[i].domain;
        FirstIndexAppend(front, t[i].domain, d);
        if j < |t| {
          assert DomainsOf(t)[j] == t[j].domain;
          FirstIndexAppend(front, t[j].domain, d);
        } else {
          FirstIndexAppend(front, d, d);
        }
      }
    }
  }

  /** `x` goes before `y`: a higher count first, and among equal counts the one ranked earlier by `rank`. */
  ghost predicate Precedes(x: Entry, y: Entry, rank: string -> int) {
    x.count > y.count || (x.count == y.count && rank(x.domain) < rank(y.domain))
  }

  /** Every entry goes before every later one. */
  ghost predicate RankedBy(entries: seq<Entry>, rank: string -> int) {
    forall i, j :: 0 <= i < j < |entries| ==> Precedes(entries[i], entries[j], rank)
  }

  lemma RankedByCons(x: Entry, s: seq<Entry>, rank: string -> int)
    requires RankedBy(s, rank)
    requires forall j :: 0 <= j < |s| ==> Precedes(x, s[j], rank)
    ensures RankedBy([x] + s, rank)
  {
    var r := [x] + s;
    forall i, j | 0 <= i < j < |r| ensures Precedes(r[i], r[j], rank) {
      assert r[j] == s[j - 1];
      if i > 0 {
        assert r[i] == s[i - 1];
      }
    }
  }

  /** Puts `e` in front of the first entry whose count is not higher than its own. */
  function InsertByCount(e: Entry, sorted: seq<Entry>): seq<Entry> {
    if sorted == [] then [e]
    else if sorted[0].count <= e.count then [e] + sorted
    else [sorted[0]] + InsertByCount(e, sorted[1..])
  }

  /**
   * The stable sort of the tally by count, highest first; entries with
   * equal counts keep their relative order.
   */
  function SortByCount(entries: seq<Entry>): seq<Entry> {
    if entries == [] then [] else InsertByCount(entries[0], SortByCount(entries[1..]))
  }

  lemma {:induction false} InsertByCountPermutes(e: Entry, sorted: seq<Entry>)
    ensures multiset(InsertByCount(e, sorted)) == multiset(sorted) + multiset{e}
  {
    if sorted != [] && sorted[0].count > e.count {
      assert sorted == [sorted[0]] + sorted[1..];
      InsertByCountPermutes(e, sorted[1..]);
    }
  }

  /** Inserting an entry that `rank` places after every sorted entry keeps the order and adds exactly it. */
  lemma InsertByCountSpec(e: Entry, sorted: seq<Entry>, rank: string -> int)
    requires RankedBy(sorted, rank)
    requires forall t :: t in sorted ==> rank(e.domain) < rank(t.domain)
    ensures RankedBy(InsertByCount(e, sorted), rank)
    ensures multiset(InsertByCount(e, sorted)) == multiset(sorted) + multiset{e}
  {
    InsertByCountPermutes(e, sorted);
    InsertByCountRanked(e, sorted, rank);
  }

  lemma {:induction false} InsertByCountRanked(e: Entry, sorted: seq<Entry>, rank: string -> int)
    requires RankedBy(sorted, rank)
    requires forall t :: t in sorted ==> rank(e.domain) < rank(t.domain)
    ensures RankedBy(InsertByCount(e, sorted), rank)
  {
    if sorted != [] && sorted[0].count > e.count {
      var rest := sorted[1..];
      InsertByCountRanked(e, rest, rank);
      InsertByCountPermutes(e, rest);
      var tail := InsertByCount(e, rest);
      forall j | 0 <= j < |tail| ensures Precedes(sorted[0], tail[j], rank) {
        assert tail[j] in multiset(tail);
        if tail[j] != e {
          var k :| 0 <= k < |rest| && rest[k] == tail[j];
          assert sorted[k + 1] == tail[j];
        }
      }
      RankedByCons(sorted[0], tail, rank);
    } else if sorted != [] {
      InsertInFrontRanked(e, sorted, rank);
    }
  }

  lemma InsertInFrontRanked(e: Entry, sorted: seq<Entry>, rank: string -> int)
    requires sorted != [] && sorted[0].count <= e.count
    requires RankedBy(sorted, rank)
    requires forall t :: t in sorted ==> rank(e.domain) < rank(t.domain)
    ensures RankedBy([e] + sorted, rank)
  {
    forall j | 0 <= j < |sorted| ensures Precedes(e, sorted[j], rank) {
      assert sorted[j] in sorted;
      if j > 0 {
        assert Precedes(sorted[0], sorted[j], rank);
      }
    }
    RankedByCons(e, sorted, rank);
  }

  lemma {:induction false} InsertByCountTotal(e: Entry, sorted: seq<Entry>)
    ensures TotalCount(InsertByCount(e, sorted)) == e.count + TotalCount(sorted)
  {
    if sorted != [] && sorted[0].count > e.count {
      InsertByCountTotal(e, sorted[1..]);
      assert InsertByCount(e, sorted)[1..] == InsertByCount(e, sorted[1..]);
    } else {
      assert ([e] + sorted)[1..] == sorted;
    }
  }

  /** Sorting keeps the sum of the counts. */
  lemma {:induction false} SortByCountTotal(entries: seq<Entry>)
    ensures TotalCount(SortByCount(entries)) == TotalCount(entries)
  {
    if entries != [] {
      SortByCountTotal(entries[1..]);
      InsertByCountTotal(entries[0], SortByCount(entries[1..]));
    }
  }

  /**
   * Sorting entries whose domains `rank` orders as they are listed gives a
   * permutation of them ranked by count, ties in their original order.
   */
  lemma {:induction false} SortByCountSpec(entries: seq<Entry>, rank: string -> int)
    requires forall i, j :: 0 <= i < j < |entries| ==> rank(entries[i].domain) < rank(entries[j].domain)
    ensures RankedBy(SortByCount(entries), rank)
    ensures multiset(SortByCount(entries)) == multiset(entries)
  {
    if entries != [] {
      var rest := entries[1..];
      assert entries == [entries[0]] + rest;
      SortByCountSpec(rest, rank);
      forall t | t in SortByCount(rest) ensures rank(entries[0].domain) < rank(t.domain) {
        assert t in multiset(rest);
        var k :| 0 <= k < |rest| && rest[k] == t;
        assert entries[k + 1] == t;
      }
      InsertByCountSpec(entries[0], SortByCount(rest), rank);
    }
  }

  /** The ranking `enumerate_competition` returns for the given responses, or the error it stops with. */
  function Competitors(responses: seq<Response>): Result<seq<Entry>, Error> {
    match Collect(responses)
    case None => Failure(MissingOrganicResults)
    case Some(domains) => Success(SortByCount(Tally(FlatDomains(domains))))
  }

  /**
   * `enumerate_competition(keywords, location, fpath)` without the CSV
   * output: one query per keyword, the domains of each response collected in
   * keyword order, then stripped, counted and ranked.
   */
  method EnumerateCompetition(keywords: seq<string>, query: string -> Response)
    returns (result: Result<seq<Entry>, Error>)
    ensures result == Competitors(Responses(keywords, query))
  {
    var responses := Responses(keywords, query);
    var domains: seq<seq<string>> := [];
    for k := 0 to |keywords|
      invariant Collect(responses[..k]) == Some(domains)
    {
      var response := query(keywords[k]);
      assert responses[..k + 1] == responses[..k] + [response];
      assert responses[..k + 1][..k] == responses[..k];
      if response.organicResults.None? {
        CollectNoneStaysNone(responses, k + 1);
        return Failure(MissingOrganicResults);
      }
      var serps := SerpDomains(response.organicResults.value);
      domains := domains + [serps];
    }
    assert responses[..|keywords|] == responses;
    var flat := FlatDomains(domains);
    var tally := Tally(flat);
    result := Success(SortByCount(tally));
  }

  lemma CollectNoneStaysNone(responses: seq<Response>, k: nat)
    requires k <= |responses|
    requires Collect(responses[..k]).None?
    ensures Collect(responses).None?
  {
    CollectSpec(responses[..k]);
    CollectSpec(responses);
    var j :| 0 <= j < k && responses[..k][j].organicResults.None?;
    assert responses[j].organicResults.None?;
  }

  /** The search fails exactly when some response lacks its organic results. */
  lemma CompetitorsFails(responses: seq<Response>)
    ensures Competitors(responses).Failure? <==> exists k :: 0 <= k < |responses| && responses[k].organicResults.None?
  {
    CollectSpec(responses);
  }

  /** Two orderings of the same entries list the same domains. */
  lemma SameEntriesSameDomains(a: seq<Entry>, b: seq<Entry>)
    requires multiset(a) == multiset(b)
    ensures forall d :: d in DomainsOf(a) <==> d in DomainsOf(b)
  {
    forall d | d in DomainsOf(a) ensures d in DomainsOf(b) {
      var i :| 0 <= i < |a| && a[i].domain == d;
      assert a[i] in multiset(b);
      var k :| 0 <= k < |b| && b[k] == a[i];
      assert DomainsOf(b)[k] == d;
    }
    forall d | d in DomainsOf(b) ensures d in DomainsOf(a) {
      var k :| 0 <= k < |b| && b[k].domain == d;
      assert b[k] in multiset(a);
      var i :| 0 <= i < |a| && a[i] == b[k];
      assert DomainsOf(a)[i] == d;
    }
  }

  /**
   * Ranking the tally of `flat` lists each domain of `flat` exactly once,
   * with its number of occurrences, from the most frequent down; domains
   * seen equally often keep the order in which they first appear.
   */
  lemma RankedTally(flat: seq<string>)
    ensures var ranking := SortByCount(Tally(flat));
      && DistinctDomains(ranking)
      && (forall d :: d in DomainsOf(ranking) <==> d in flat)
      && (forall i :: 0 <= i < |ranking| ==> ranking[i].count == multiset(flat)[ranking[i].domain])
      && (forall i, j :: 0 <= i < j < |ranking| ==>
            ranking[i].count > ranking[j].count ||
            (ranking[i].count == ranking[j].count && FirstIndex(flat, ranking[i].domain) < FirstIndex(flat, ranking[j].domain)))
  {
    var tally := Tally(flat);
    var ranking := SortByCount(tally);
    var rank := d => FirstIndex(flat, d);
    TallyDomains(flat);
    TallyCounts(flat);
    TallyOrder(flat);
    SortByCountSpec(tally, rank);
    SameEntriesSameDomains(ranking, tally);
    forall i | 0 <= i < |ranking| ensures ranking[i].count == multiset(flat)[ranking[i].domain] {
      assert ranking[i] in multiset(tally);
    }
  }

  /**
   * What `enumerate_competition` returns: each domain seen (after removing
   * "www.") exactly once, with the number of times it was seen, from the most
   * frequent down, ties in order of first appearance.
   */
  lemma CompetitorsRanking(responses: seq<Response>, ranking: seq<Entry>)
    requires Competitors(responses) == Success(ranking)
    ensures var flat := FlatDomains(Collect(responses).value);
      && DistinctDomains(ranking)
      && (forall d :: d in DomainsOf(ranking) <==> d in flat)
      && (forall i :: 0 <= i < |ranking| ==> ranking[i].count == multiset(flat)[ranking[i].domain])
      && (forall i, j :: 0 <= i < j < |ranking| ==>
            ranking[i].count > ranking[j].count ||
            (ranking[i].count == ranking[j].count && FirstIndex(flat, ranking[i].domain) < FirstIndex(flat, ranking[j].domain)))
  {
    RankedTally(FlatDomains(Collect(responses).value));
  }

  /** The counts returned add up to the number of domains seen. */
  lemma CompetitorsTotal(responses: seq<Response>, ranking: seq<Entry>)
    requires Competitors(responses) == Success(ranking)
    ensures TotalCount(ranking) == |FlatDomains(Collect(responses).value)|
  {
    var flat := FlatDomains(Collect(responses).value);
    TallyTotal(flat);
    SortByCountTotal(Tally(flat));
  }
}
