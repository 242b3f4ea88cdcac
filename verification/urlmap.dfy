/**
 * `set_score` and `map_domain`: the keywords a domain ranks for, as the
 * search-analytics service reports them, are cut by the `--remove`
 * patterns, optionally merged with an uploaded keyword list, scored by
 * search volume, click-through rate and position, reduced to one row per
 * keyword, ranked by score and kept when the position is at most 20.
 *
 * The service's reply text, the CSV parser that reads it and pandas' outer
 * merge are parameters.
 */
module UrlMap {
  import opened Wrappers
  import opened Text
  import opened Seqs

  /** pandas' `_merge` indicator of an outer merge. */
  datatype MergeTag = Both | LeftOnly | RightOnly

  /** The text pandas shows for each indicator value. */
  function MergeName(tag: MergeTag): string {
    match tag
    case Both => "both"
    case LeftOnly => "left_only"
    case RightOnly => "right_only"
  }

  /** One row of the service's CSV reply: the columns the tool reads. */
  datatype ApiRow = ApiRow(keyword: string, url: string, position: int, searchVolume: int)

  /** One row of the table `set_score` receives; None stands for pandas' NaN. */
  datatype Row = Row(keyword: string, url: Option<string>, position: Option<int>, searchVolume: Option<int>, merge: Option<MergeTag>)

  /** A row with the `ctr` and `score` columns `set_score` adds. */
  datatype Scored = Scored(row: Row, ctr: real, score: Option<real>)

  /** A row of the table `map_domain` returns: `_merge` dropped, NaN filled with 0. */
  datatype OutRow = OutRow(keyword: string, url: string, position: int, searchVolume: int, ctr: real, score: real)

  datatype Error = DomainRejected | NoData

  /** The url given to a keyword no page ranks for. */
  const Unmapped := "unmapped - create new page"

  /** The click-through rate of positions 1 to 20. */
  const CtrTable: seq<real> := [
    0.329, 0.1534, 0.0897, 0.0594, 0.0417, 0.0305, 0.0228, 0.0177, 0.0143, 0.0117,
    0.0101, 0.01, 0.0104, 0.0104, 0.01, 0.0089, 0.0084, 0.0075, 0.0072, 0.0064]

  // ----- the domain and the reply -----

  /** A domain given with `http` or `www` in it is refused. */
  predicate Refused(domain: string) {
    Contains(domain, "http") || Contains(domain, "www")
  }

  // ----- the `--remove` patterns -----

  /** The patterns holding a slash, with every slash deleted: they are matched against urls. */
  function PathPatterns(cut: seq<string>): seq<string> {
    var slashed := Keep(cut, (p: string) => '/' in p);
    seq(|slashed|, i requires 0 <= i < |slashed| => RemoveAll(slashed[i], "/"))
  }

  /** The patterns without a slash: they are matched against keywords. */
  function KeywordPatterns(cut: seq<string>): seq<string> {
    Keep(cut, (p: string) => '/' !in p)
  }

  /**
   * Every pattern lands in exactly one group: one holding a slash goes, with
   * its slashes deleted, to the path group, any other to the keyword group;
   * nothing else is in either group and no path pattern holds a slash.
   */
  lemma PatternGroups(cut: seq<string>)
    ensures forall p :: p in cut && '/' in p ==> RemoveAll(p, "/") in PathPatterns(cut)
    ensures forall p :: p in cut && '/' !in p ==> p in KeywordPatterns(cut)
    ensures forall q :: q in PathPatterns(cut) ==> '/' !in q && exists p :: p in cut && '/' in p && q == RemoveAll(p, "/")
    ensures forall q :: q in KeywordPatterns(cut) ==> q in cut && '/' !in q
  {
    var hasSlash := (p: string) => '/' in p;
    var slashed := Keep(cut, hasSlash);
    KeepSpec(cut, hasSlash);
    KeepSpec(cut, (p: string) => '/' !in p);
    var paths := PathPatterns(cut);
    forall p | p in cut && '/' in p ensures RemoveAll(p, "/") in paths {
      var i :| 0 <= i < |slashed| && slashed[i] == p;
      assert paths[i] == RemoveAll(p, "/");
    }
    forall q | q in paths ensures '/' !in q && exists p :: p in cut && '/' in p && q == RemoveAll(p, "/") {
      var i :| 0 <= i < |paths| && paths[i] == q;
      assert slashed[i] in slashed;
      RemoveAllChar(slashed[i], '/');
      assert q == RemoveAll(slashed[i], ['/']);
    }
  }

  /** A group of patterns joined with `|`, or None when the join is empty and the group is not applied. */
  function Group(parts: seq<string>): (group: Option<string>)
    ensures group.None? <==> parts == [] || parts == [""]
  {
    JoinIsEmpty("|", parts);
    var joined := Join("|", parts);
    if joined != "" then Some(joined) else None
  }

  /**
   * The reply rows that survive the `--remove` patterns: first the rows whose
   * url holds a path pattern are dropped, then those whose keyword holds a
   * keyword pattern.  Each joined group is matched as literal alternatives.
   */
  function CutRows(rows: seq<ApiRow>, cut: seq<string>): seq<ApiRow> {
    if cut == [] then rows
    else
      var paths := PathPatterns(cut);
      var words := KeywordPatterns(cut);
      var byUrl := if Group(paths).Some? then Keep(rows, (r: ApiRow) => !ContainsAny(r.url, paths)) else rows;
      if Group(words).Some? then Keep(byUrl, (r: ApiRow) => !ContainsAny(r.keyword, words)) else byUrl
  }

  /** A row survives the `--remove` patterns when neither applied group matches it. */
  predicate Survives(r: ApiRow, cut: seq<string>) {
    && !(Group(PathPatterns(cut)).Some? && ContainsAny(r.url, PathPatterns(cut)))
    && !(Group(KeywordPatterns(cut)).Some? && ContainsAny(r.keyword, KeywordPatterns(cut)))
  }

  function Survivor(cut: seq<string>): ApiRow -> bool {
    (r: ApiRow) => Survives(r, cut)
  }

  /** The two successive filters of `CutRows` select what one mask `Survives` selects. */
  lemma CutIsOneMask(rows: seq<ApiRow>, cut: seq<string>)
    ensures CutRows(rows, cut) == Keep(rows, Survivor(cut))
  {
    var paths := PathPatterns(cut);
    var words := KeywordPatterns(cut);
    var byUrl := (r: ApiRow) => !ContainsAny(r.url, paths);
    var byKeyword := (r: ApiRow) => !ContainsAny(r.keyword, words);
    if cut == [] {
      assert Keep(cut, (p: string) => '/' in p) == [];
      assert paths == [] && words == [];
      KeepAll(rows, Survivor(cut));
    } else if Group(paths).Some? && Group(words).Some? {
      KeepKeep(rows, byUrl, byKeyword, Survivor(cut));
    } else if Group(paths).Some? {
      KeepSame(rows, byUrl, Survivor(cut));
    } else if Group(words).Some? {
      KeepSame(rows, byKeyword, Survivor(cut));
    } else {
      KeepAll(rows, Survivor(cut));
    }
  }

  /**
   * The cut keeps order and repeats: its result is the subsequence of the
   * reply at exactly the positions whose row survives, so a row is kept
   * exactly when it is in the reply and neither applied group matches it.
   */
  lemma CutSpec(rows: seq<ApiRow>, cut: seq<string>) returns (idx: seq<nat>)
    ensures Picks(CutRows(rows, cut), rows, idx)
    ensures forall i :: 0 <= i < |rows| ==> (i in idx <==> Survives(rows[i], cut))
    ensures forall r :: r in CutRows(rows, cut) <==> r in rows && Survives(r, cut)
  {
    CutIsOneMask(rows, cut);
    idx := KeepPicks(rows, Survivor(cut));
    KeepSpec(rows, Survivor(cut));
  }

  /** A pattern such as `/blog/` drops every row whose url contains `blog`. */
  lemma CutDropsPage(rows: seq<ApiRow>, cut: seq<string>, p: string, r: ApiRow)
    requires p in cut && '/' in p && RemoveAll(p, "/") != ""
    requires Contains(r.url, RemoveAll(p, "/"))
    ensures r !in CutRows(rows, cut)
  {
    var slashed := Keep(cut, (q: string) => '/' in q);
    KeepSpec(cut, (q: string) => '/' in q);
    var i :| 0 <= i < |slashed| && slashed[i] == p;
    var paths := PathPatterns(cut);
    assert paths[i] == RemoveAll(p, "/");
    assert paths != [""];
    var _ := CutSpec(rows, cut);
  }

  /** A pattern without a slash drops every row whose keyword contains it. */
  lemma CutDropsKeyword(rows: seq<ApiRow>, cut: seq<string>, p: string, r: ApiRow)
    requires p in cut && '/' !in p && p != ""
    requires Contains(r.keyword, p)
    ensures r !in CutRows(rows, cut)
  {
    KeepSpec(cut, (q: string) => '/' !in q);
    var words := KeywordPatterns(cut);
    assert p in words;
    assert words != [""];
    var _ := CutSpec(rows, cut);
  }

  // ----- `set_score` -----

  /** numpy's `round(x, 2)`: to the nearest hundredth, a half to the even hundredth. */
  function Round2(x: real): (r: real)
    ensures x - 0.005 <= r <= x + 0.005
  {
    var h := x * 100.0;
    var f := h.Floor;
    var frac := h - f as real;
    var n := if frac < 0.5 then f else if frac > 0.5 then f + 1 else if f % 2 == 0 then f else f + 1;
    n as real / 100.0
  }

  /** `r` is a whole number of hundredths within half a hundredth of `x`, a tie going to the even hundredth. */
  ghost predicate RoundsTo2(x: real, r: real) {
    && (r * 100.0).Floor as real == r * 100.0
    && x - 0.005 <= r <= x + 0.005
    && (r - x == 0.005 || x - r == 0.005 ==> (r * 100.0).Floor % 2 == 0)
  }

  /** Rounding gives a whole number of hundredths, the nearest one, and on a tie the even one. */
  lemma Round2Spec(x: real)
    ensures (Round2(x) * 100.0).Floor as real == Round2(x) * 100.0
    ensures x - 0.005 <= Round2(x) <= x + 0.005
    ensures Round2(x) - x == 0.005 || x - Round2(x) == 0.005 ==> (Round2(x) * 100.0).Floor % 2 == 0
  {
  }

  /** At most one value rounds that way, so these properties define `Round2`. */
  lemma Round2Unique(x: real, r: real)
    requires RoundsTo2(x, r)
    ensures r == Round2(x)
  {
    Round2Spec(x);
    var a := (r * 100.0).Floor;
    var b := (Round2(x) * 100.0).Floor;
    var h := x * 100.0;
    assert h - 0.5 <= a as real <= h + 0.5;
    assert h - 0.5 <= b as real <= h + 0.5;
    if a != b {
      assert false;
    }
  }

  /** Rounding never reverses an order. */
  lemma Round2Monotone(x: real, y: real)
    requires x <= y
    ensures Round2(x) <= Round2(y)
  {
    var fx := (x * 100.0).Floor;
    var fy := (y * 100.0).Floor;
    assert fx <= fy;
  }

  /**
   * The `ctr` column: the click-through rate of the position rounded to two
   * decimals, and 0 for a missing position or one outside 1 to 20.
   */
  function Ctr(position: Option<int>): real {
    if position.Some? && 1 <= position.value <= 20 then Round2(CtrTable[position.value - 1]) else 0.0
  }

  /** The rates of the table rounded to two decimals, position by position. */
  function RoundedCtr(p: int): real {
    if p == 1 then 0.33
    else if p == 2 then 0.15
    else if p == 3 then 0.09
    else if p == 4 then 0.06
    else if p == 5 then 0.04
    else if p == 6 then 0.03
    else if 7 <= p <= 8 then 0.02
    else if 9 <= p <= 20 then 0.01
    else 0.0
  }

  /** src/urlmap.py:68 turns the table into these rates, which never grow with the position. */
  lemma CtrIsRounded(p: int)
    ensures Ctr(Some(p)) == RoundedCtr(p)
  {
    if 1 <= p <= 20 {
      var f := (CtrTable[p - 1] * 100.0).Floor;
      if p == 1 { assert f == 32; }
      else if p == 2 { assert f == 15; }
      else if p == 3 { assert f == 8; }
      else if p == 4 { assert f == 5; }
      else if p == 5 { assert f == 4; }
      else if p == 6 { assert f == 3; }
      else if p == 7 { assert f == 2; }
      else if p <= 15 { assert f == 1; }
      else { assert f == 0; }
    }
  }

  /**
   * The `score` column, `round(search volume * ctr / position, 2)`, or None
   * (NaN) when the position or the volume is missing, or the position is 0
   * (a zero rate over a zero position).
   */
  function ScoreOf(row: Row): Option<real> {
    if row.position.None? || row.searchVolume.None? || row.position.value == 0 then None
    else Some(Round2(Rate(row.searchVolume.value, Ctr(row.position), row.position.value)))
  }

  /** The unrounded score, `search volume * ctr / position`. */
  function Rate(volume: int, ctr: real, position: int): real
    requires position != 0
  {
    volume as real * ctr / position as real
  }

  /** For the same volume, a better (smaller) position never scores lower; past position 20 the score is 0. */
  lemma ScoreRewardsPosition(keyword: string, volume: nat, p: int, q: int)
    requires 1 <= p <= q
    ensures ScoreOf(Row(keyword, None, Some(q), Some(volume), None)).value <= ScoreOf(Row(keyword, None, Some(p), Some(volume), None)).value
    ensures q > 20 ==> ScoreOf(Row(keyword, None, Some(q), Some(volume), None)) == Some(0.0)
  {
    CtrIsRounded(p);
    CtrIsRounded(q);
    RoundedCtrNonIncreasing(p, q);
    RateShrinks(volume, Ctr(Some(p)), Ctr(Some(q)), p, q);
    Round2Monotone(Rate(volume, Ctr(Some(q)), q), Rate(volume, Ctr(Some(p)), p));
    if q > 20 {
      assert Rate(volume, Ctr(Some(q)), q) == 0.0;
    }
  }

  lemma RoundedCtrNonIncreasing(p: int, q: int)
    requires 1 <= p <= q
    ensures 0.0 <= RoundedCtr(q) <= RoundedCtr(p)
  {
  }

  lemma RateShrinks(volume: nat, cp: real, cq: real, p: int, q: int)
    requires 1 <= p <= q && 0.0 <= cq <= cp
    ensures Rate(volume, cq, q) <= Rate(volume, cp, p)
  {
    RatioShrinks(volume as real, cp, cq, p as real, q as real);
  }

  lemma RatioShrinks(v: real, cp: real, cq: real, p: real, q: real)
    requires 0.0 <= v && 0.0 <= cq <= cp && 1.0 <= p <= q
    ensures v * cq / q <= v * cp / p
  {
    var a := v * cq;
    var b := v * cp;
    assert b - a == v * (cp - cq);
    assert a <= b;
    assert a / q <= b / q;
    assert b / q <= b / p by {
      assert b / q * q == b;
      assert b / p * p == b;
    }
  }

  /** src/urlmap.py:66-69: every row with its rate and score. */
  function Scores(data: seq<Row>): seq<Scored> {
    seq(|data|, i requires 0 <= i < |data| => Scored(data[i], Ctr(data[i].position), ScoreOf(data[i])))
  }

  function Keywords(rows: seq<Scored>): seq<string> {
    seq(|rows|, i requires 0 <= i < |rows| => rows[i].row.keyword)
  }

  predicate UniqueKeywords(rows: seq<Scored>) {
    forall i, j :: 0 <= i < j < |rows| ==> rows[i].row.keyword != rows[j].row.keyword
  }

  /** Row `i` is the first row carrying its keyword. */
  predicate FirstOfKeyword(rows: seq<Scored>, i: int)
    requires 0 <= i < |rows|
  {
    rows[i].row.keyword !in Keywords(rows[..i])
  }

  /** The first row of each keyword, in table order. */
  function FirstPerKeyword(rows: seq<Scored>): seq<Scored> {
    if rows == [] then []
    else
      var n := |rows| - 1;
      FirstPerKeyword(rows[..n]) + (if FirstOfKeyword(rows, n) then [rows[n]] else [])
  }

  /** Every keyword of the table keeps a row. */
  lemma {:induction false} FirstPerKeywordCovers(rows: seq<Scored>)
    ensures forall k :: k in Keywords(FirstPerKeyword(rows)) <==> k in Keywords(rows)
  {
    if rows != [] {
      var n := |rows| - 1;
      var front := rows[..n];
      FirstPerKeywordCovers(front);
      var kept := FirstPerKeyword(front);
      assert Keywords(rows) == Keywords(front) + [rows[n].row.keyword];
      if FirstOfKeyword(rows, n) {
        assert Keywords(FirstPerKeyword(rows)) == Keywords(kept) + [rows[n].row.keyword];
      } else {
        assert FirstPerKeyword(rows) == kept;
        assert rows[n].row.keyword in Keywords(front);
      }
    }
  }

  /** No keyword keeps two rows. */
  lemma {:induction false} FirstPerKeywordUnique(rows: seq<Scored>)
    ensures UniqueKeywords(FirstPerKeyword(rows))
  {
    if rows != [] {
      var n := |rows| - 1;
      var front := rows[..n];
      FirstPerKeywordUnique(front);
      var kept := FirstPerKeyword(front);
      if FirstOfKeyword(rows, n) {
        FirstPerKeywordCovers(front);
        assert rows[..n] == front;
        var r := FirstPerKeyword(rows);
        forall i, j | 0 <= i < j < |r| ensures r[i].row.keyword != r[j].row.keyword {
          assert r[i] == kept[i];
          if j == |r| - 1 {
            assert Keywords(kept)[i] == r[i].row.keyword;
          } else {
            assert r[j] == kept[j];
          }
        }
      }
    }
  }

  /** The rows kept are exactly the first row of each keyword. */
  lemma FirstPerKeywordMembers(rows: seq<Scored>)
    ensures forall x :: x in FirstPerKeyword(rows) <==> exists i :: 0 <= i < |rows| && FirstOfKeyword(rows, i) && rows[i] == x
  {
    forall x ensures x in FirstPerKeyword(rows) <==> exists i :: 0 <= i < |rows| && FirstOfKeyword(rows, i) && rows[i] == x {
      if x in FirstPerKeyword(rows) {
        var i := FirstPerKeywordSource(rows, x);
      }
      if exists i :: 0 <= i < |rows| && FirstOfKeyword(rows, i) && rows[i] == x {
        var i :| 0 <= i < |rows| && FirstOfKeyword(rows, i) && rows[i] == x;
        FirstPerKeywordIncludes(rows, i);
      }
    }
  }

  lemma {:induction false} FirstPerKeywordSource(rows: seq<Scored>, x: Scored) returns (i: nat)
    requires x in FirstPerKeyword(rows)
    ensures i < |rows| && FirstOfKeyword(rows, i) && rows[i] == x
  {
    var n := |rows| - 1;
    var front := rows[..n];
    if x in FirstPerKeyword(front) {
      i := FirstPerKeywordSource(front, x);
      assert front[..i] == rows[..i];
    } else {
      i := n;
    }
  }

  lemma {:induction false} FirstPerKeywordIncludes(rows: seq<Scored>, i: nat)
    requires i < |rows| && FirstOfKeyword(rows, i)
    ensures rows[i] in FirstPerKeyword(rows)
  {
    var n := |rows| - 1;
    var front := rows[..n];
    if i < n {
      assert front[..i] == rows[..i];
      FirstPerKeywordIncludes(front, i);
    }
  }

  /** pandas' descending order of `score`: NaN after every number. */
  predicate ScoreAtLeast(a: Option<real>, b: Option<real>) {
    b.None? || (a.Some? && a.value >= b.value)
  }

  predicate Descending(rows: seq<Scored>) {
    forall i, j :: 0 <= i < j < |rows| ==> ScoreAtLeast(rows[i].score, rows[j].score)
  }

  /** Puts `e` in front of the first row it scores at least as high as. */
  function InsertByScore(e: Scored, sorted: seq<Scored>): seq<Scored> {
    if sorted == [] || ScoreAtLeast(e.score, sorted[0].score) then [e] + sorted
    else [sorted[0]] + InsertByScore(e, sorted[1..])
  }

  /** The rows sorted by score, highest first, rows with equal scores kept in table order. */
  function SortByScore(rows: seq<Scored>): seq<Scored> {
    if rows == [] then [] else InsertByScore(rows[0], SortByScore(rows[1..]))
  }

  lemma DescendingCons(x: Scored, s: seq<Scored>)
    requires Descending(s)
    requires forall j :: 0 <= j < |s| ==> ScoreAtLeast(x.score, s[j].score)
    ensures Descending([x] + s)
  {
    var r := [x] + s;
    forall i, j | 0 <= i < j < |r| ensures ScoreAtLeast(r[i].score, r[j].score) {
      assert r[j] == s[j - 1];
      if i > 0 {
        assert r[i] == s[i - 1];
      }
    }
  }

  lemma UniqueCons(x: Scored, s: seq<Scored>)
    requires UniqueKeywords(s)
    requires forall j :: 0 <= j < |s| ==> s[j].row.keyword != x.row.keyword
    ensures UniqueKeywords([x] + s)
  {
    var r := [x] + s;
    forall i, j | 0 <= i < j < |r| ensures r[i].row.keyword != r[j].row.keyword {
      assert r[j] == s[j - 1];
      if i > 0 {
        assert r[i] == s[i - 1];
      }
    }
  }

  lemma {:induction false} InsertByScorePermutes(e: Scored, sorted: seq<Scored>)
    ensures multiset(InsertByScore(e, sorted)) == multiset(sorted) + multiset{e}
  {
    if sorted != [] && !ScoreAtLeast(e.score, sorted[0].score) {
      assert sorted == [sorted[0]] + sorted[1..];
      InsertByScorePermutes(e, sorted[1..]);
    }
  }

  lemma {:induction false} InsertByScoreDescending(e: Scored, sorted: seq<Scored>)
    requires Descending(sorted)
    ensures Descending(InsertByScore(e, sorted))
  {
    if sorted != [] && !ScoreAtLeast(e.score, sorted[0].score) {
      var rest := sorted[1..];
      InsertByScoreDescending(e, rest);
      InsertByScorePermutes(e, rest);
      var tail := InsertByScore(e, rest);
      forall j | 0 <= j < |tail| ensures ScoreAtLeast(sorted[0].score, tail[j].score) {
        assert tail[j] in multiset(tail);
        if tail[j] != e {
          var k :| 0 <= k < |rest| && rest[k] == tail[j];
          assert sorted[k + 1] == tail[j];
        }
      }
      DescendingCons(sorted[0], tail);
    } else if sorted != [] {
      forall j | 0 <= j < |sorted| ensures ScoreAtLeast(e.score, sorted[j].score) {
        if j > 0 {
          assert ScoreAtLeast(sorted[0].score, sorted[j].score);
        }
      }
      DescendingCons(e, sorted);
    }
  }

  lemma {:induction false} InsertByScoreUnique(e: Scored, sorted: seq<Scored>)
    requires UniqueKeywords(sorted)
    requires e.row.keyword !in Keywords(sorted)
    ensures UniqueKeywords(InsertByScore(e, sorted))
  {
    if sorted != [] && !ScoreAtLeast(e.score, sorted[0].score) {
      var rest := sorted[1..];
      forall k | 0 <= k < |rest| ensures Keywords(rest)[k] != e.row.keyword {
        assert Keywords(sorted)[k + 1] == Keywords(rest)[k];
      }
      InsertByScoreUnique(e, rest);
      InsertByScorePermutes(e, rest);
      var tail := InsertByScore(e, rest);
      forall j | 0 <= j < |tail| ensures tail[j].row.keyword != sorted[0].row.keyword {
        assert tail[j] in multiset(tail);
        if tail[j] != e {
          var k :| 0 <= k < |rest| && rest[k] == tail[j];
          assert sorted[k + 1] == tail[j];
        } else {
          assert Keywords(sorted)[0] == sorted[0].row.keyword;
        }
      }
      UniqueCons(sorted[0], tail);
    } else {
      forall j | 0 <= j < |sorted| ensures sorted[j].row.keyword != e.row.keyword {
        assert Keywords(sorted)[j] == sorted[j].row.keyword;
      }
      UniqueCons(e, sorted);
    }
  }

  /** Sorting by score rearranges the rows and nothing else. */
  lemma {:induction false} SortByScorePermutes(rows: seq<Scored>)
    ensures multiset(SortByScore(rows)) == multiset(rows)
  {
    if rows != [] {
      assert rows == [rows[0]] + rows[1..];
      SortByScorePermutes(rows[1..]);
      InsertByScorePermutes(rows[0], SortByScore(rows[1..]));
    }
  }

  /** Sorting by score puts the rows in descending score order. */
  lemma {:induction false} SortByScoreDescending(rows: seq<Scored>)
    ensures Descending(SortByScore(rows))
  {
    if rows != [] {
      SortByScoreDescending(rows[1..]);
      InsertByScoreDescending(rows[0], SortByScore(rows[1..]));
    }
  }

  /** Sorting rows with unique keywords keeps them unique. */
  lemma {:induction false} SortByScoreUnique(rows: seq<Scored>)
    requires UniqueKeywords(rows)
    ensures UniqueKeywords(SortByScore(rows))
  {
    if rows != [] {
      var rest := rows[1..];
      var sorted := SortByScore(rest);
      assert UniqueKeywords(rest) by {
        forall i, j | 0 <= i < j < |rest| ensures rest[i].row.keyword != rest[j].row.keyword {
          assert rest[i] == rows[i + 1] && rest[j] == rows[j + 1];
        }
      }
      SortByScoreUnique(rest);
      SortByScorePermutes(rest);
      forall k | 0 <= k < |sorted| ensures Keywords(sorted)[k] != rows[0].row.keyword {
        var t := sorted[k];
        assert t in multiset(rest);
        var m :| 0 <= m < |rest| && rest[m] == t;
        assert rows[m + 1] == t;
      }
      InsertByScoreUnique(rows[0], sorted);
    }
  }

  /** Keeping some of the rows keeps them in descending order with unique keywords. */
  lemma {:induction false} KeepScored(rows: seq<Scored>, keep: Scored -> bool)
    ensures Descending(rows) ==> Descending(Keep(rows, keep))
    ensures UniqueKeywords(rows) ==> UniqueKeywords(Keep(rows, keep))
  {
    if rows != [] {
      var n := |rows| - 1;
      var front := rows[..n];
      KeepScored(front, keep);
      KeepSpec(front, keep);
      var kept := Keep(front, keep);
      if keep(rows[n]) {
        var r := Keep(rows, keep);
        forall i, j | 0 <= i < j < |r|
          ensures Descending(rows) ==> ScoreAtLeast(r[i].score, r[j].score)
          ensures UniqueKeywords(rows) ==> r[i].row.keyword != r[j].row.keyword
        {
          if j == |r| - 1 {
            assert r[i] in front;
            var k :| 0 <= k < n && front[k] == r[i];
            assert rows[k] == r[i];
          } else {
            assert r[i] == kept[i] && r[j] == kept[j];
          }
        }
      }
    }
  }

  /** src/urlmap.py:71: a row is listed when its position is missing or at most 20. */
  predicate Listed(row: Row) {
    row.position.None? || row.position.value <= 20
  }

  /** src/urlmap.py:72: a missing url becomes the suggestion to create a page. */
  function FillUrl(s: Scored): Scored {
    s.(row := s.row.(url := Some(s.row.url.GetOr(Unmapped))))
  }

  /** src/urlmap.py:66-71: the first row of each keyword, ranked, when its position is listed. */
  function Listing(data: seq<Row>): seq<Scored> {
    Keep(SortByScore(FirstPerKeyword(Scores(data))), (s: Scored) => Listed(s.row))
  }

  /** The table `set_score(data)` returns. */
  function Scoring(data: seq<Row>): seq<Scored> {
    var listed := Listing(data);
    seq(|listed|, i requires 0 <= i < |listed| => FillUrl(listed[i]))
  }

  /** The rows of `a` with a missing url replaced by the `Unmapped` text. */
  method FillUnmapped(a: array<Scored>)
    modifies a
    ensures forall i :: 0 <= i < a.Length ==> a[i] == FillUrl(old(a[i]))
  {
    for i := 0 to a.Length
      invariant forall k :: 0 <= k < i ==> a[k] == FillUrl(old(a[k]))
      invariant forall k :: i <= k < a.Length ==> a[k] == old(a[k])
    {
      if a[i].row.url.None? {
        a[i] := a[i].(row := a[i].row.(url := Some(Unmapped)));
      }
    }
  }

  /** `set_score(data)`: score, one row per keyword, rank, keep positions up to 20, fill missing urls. */
  method SetScore(data: seq<Row>) returns (output: seq<Scored>)
    ensures output == Scoring(data)
  {
    var scored := Scores(data);
    var pairs := SortByScore(FirstPerKeyword(scored));
    var listed := Keep(pairs, (s: Scored) => Listed(s.row));
    assert listed == Listing(data);
    var a := new Scored[|listed|](i requires 0 <= i < |listed| => listed[i]);
    FillUnmapped(a);
    output := a[..];
  }

  lemma ListingOrder(data: seq<Row>)
    ensures UniqueKeywords(Listing(data)) && Descending(Listing(data))
  {
    var firsts := FirstPerKeyword(Scores(data));
    FirstPerKeywordUnique(Scores(data));
    SortByScoreDescending(firsts);
    SortByScoreUnique(firsts);
    KeepScored(SortByScore(firsts), (s: Scored) => Listed(s.row));
  }

  lemma ListingMembers(data: seq<Row>)
    ensures forall x :: x in Listing(data) <==>
      exists i :: 0 <= i < |data| && FirstOfKeyword(Scores(data), i) && Listed(data[i]) && Scores(data)[i] == x
  {
    var scored := Scores(data);
    var firsts := FirstPerKeyword(scored);
    var pairs := SortByScore(firsts);
    FirstPerKeywordMembers(scored);
    SortByScorePermutes(firsts);
    KeepSpec(pairs, (s: Scored) => Listed(s.row));
    forall x ensures x in Listing(data) <==>
      exists i :: 0 <= i < |data| && FirstOfKeyword(scored, i) && Listed(data[i]) && scored[i] == x
    {
      assert x in pairs <==> x in multiset(pairs);
      assert x in firsts <==> x in multiset(firsts);
    }
  }

  /** The scored table holds one row per keyword, in descending score order, each with a url and a position of at most 20 (or none). */
  lemma ScoringOrder(data: seq<Row>)
    ensures UniqueKeywords(Scoring(data))
    ensures Descending(Scoring(data))
    ensures forall s :: s in Scoring(data) ==> s.row.url.Some? && Listed(s.row)
  {
    var listed := Listing(data);
    var out := Scoring(data);
    ListingOrder(data);
    KeepSpec(SortByScore(FirstPerKeyword(Scores(data))), (s: Scored) => Listed(s.row));
    forall i, j | 0 <= i < j < |out|
      ensures out[i].row.keyword != out[j].row.keyword
      ensures ScoreAtLeast(out[i].score, out[j].score)
    {
      assert out[i].row.keyword == listed[i].row.keyword && out[j].row.keyword == listed[j].row.keyword;
    }
    forall s | s in out ensures s.row.url.Some? && Listed(s.row) {
      var k :| 0 <= k < |out| && out[k] == s;
      assert listed[k] in listed;
    }
  }

  /** The rows of the scored table are exactly the first row of each keyword whose position is listed, with its url filled. */
  lemma ScoringMembers(data: seq<Row>)
    ensures forall s :: s in Scoring(data) <==>
      exists i :: 0 <= i < |data| && FirstOfKeyword(Scores(data), i) && Listed(data[i]) && s == FillUrl(Scores(data)[i])
  {
    var scored := Scores(data);
    var listed := Listing(data);
    var out := Scoring(data);
    ListingMembers(data);
    forall s ensures s in out <==>
      exists i :: 0 <= i < |data| && FirstOfKeyword(scored, i) && Listed(data[i]) && s == FillUrl(scored[i])
    {
      if s in out {
        var k :| 0 <= k < |out| && out[k] == s;
        assert listed[k] in listed;
      }
      if exists i :: 0 <= i < |data| && FirstOfKeyword(scored, i) && Listed(data[i]) && s == FillUrl(scored[i]) {
        var i :| 0 <= i < |data| && FirstOfKeyword(scored, i) && Listed(data[i]) && s == FillUrl(scored[i]);
        assert scored[i] in listed;
        var k :| 0 <= k < |listed| && listed[k] == scored[i];
        assert out[k] == s;
      }
    }
  }

  // ----- `map_domain` -----

  /** The reply rows as a table, without a merge indicator. */
  function ApiTable(rows: seq<ApiRow>): seq<Row> {
    seq(|rows|, i requires 0 <= i < |rows| => Row(rows[i].keyword, Some(rows[i].url), Some(rows[i].position), Some(rows[i].searchVolume), None))
  }

  /** src/urlmap.py:104: `_merge` contains `both` or `left_only`. */
  predicate Uploaded(s: Scored) {
    s.row.merge.Some? && ContainsAny(MergeName(s.row.merge.value), ["both", "left_only"])
  }

  /** The indicator filter keeps exactly the rows of uploaded keywords: those tagged `both` or `left_only`. */
  lemma UploadedSpec(s: Scored)
    ensures Uploaded(s) <==> s.row.merge == Some(Both) || s.row.merge == Some(LeftOnly)
  {
    var names := ["both", "left_only"];
    if s.row.merge == Some(Both) {
      assert IsPrefix("both", "both");
      assert Contains(MergeName(Both), names[0]);
    } else if s.row.merge == Some(LeftOnly) {
      assert IsPrefix("left_only", "left_only");
      assert Contains(MergeName(LeftOnly), names[1]);
    } else if s.row.merge == Some(RightOnly) {
      RightOnlyLacksBoth();
      RightOnlyLacksLeftOnly();
    }
  }

  /** `right_only` holds no `b`, so `both` does not occur in it. */
  lemma RightOnlyLacksBoth()
    ensures !Contains("right_only", "both")
  {
    MissingCharNotContained("right_only", "both", 0);
  }

  /** `right_only` holds no `e`, so `left_only` does not occur in it. */
  lemma RightOnlyLacksLeftOnly()
    ensures !Contains("right_only", "left_only")
  {
    MissingCharNotContained("right_only", "left_only", 1);
  }

  /** The output rows: the merge indicator dropped and every missing value filled with 0. */
  function Filled(mapped: seq<Scored>): seq<OutRow> {
    seq(|mapped|, i requires 0 <= i < |mapped| =>
      var s := mapped[i];
      OutRow(s.row.keyword, s.row.url.GetOr("0"), s.row.position.GetOr(0), s.row.searchVolume.GetOr(0), s.ctr, s.score.GetOr(0.0)))
  }

  /** The table `map_domain` returns, or the error it stops with. */
  function Mapping(domain: string, reply: string, parse: string -> seq<ApiRow>, upload: seq<string>, semrush: bool,
                   cut: seq<string>, merge: (seq<string>, seq<ApiRow>) -> seq<Row>): Result<seq<OutRow>, Error>
  {
    if Refused(domain) then Failure(DomainRejected)
    else if Contains(reply, "NOTHING") then Failure(NoData)
    else
      var apiData := CutRows(parse(reply), cut);
      var mapped :=
        if upload != [] then
          var scored := Scoring(merge(upload, apiData));
          if semrush then scored else Keep(scored, Uploaded)
        else Scoring(ApiTable(apiData));
      Success(Filled(mapped))
  }

  /**
   * `map_domain(domain, database, rows, upload, fpath, semrush, cut)` with
   * the service's reply text given as `reply` and without the CSV output.
   * An empty `upload` stands for no file.
   */
  method MapDomain(domain: string, reply: string, parse: string -> seq<ApiRow>, upload: seq<string>, semrush: bool,
                   cut: seq<string>, merge: (seq<string>, seq<ApiRow>) -> seq<Row>)
    returns (result: Result<seq<OutRow>, Error>)
    ensures result == Mapping(domain, reply, parse, upload, semrush, cut, merge)
  {
    if Contains(domain, "http") || Contains(domain, "www") {
      return Failure(DomainRejected);
    }
    if Contains(reply, "NOTHING") {
      return Failure(NoData);
    }
    var apiData := parse(reply);
    if cut != [] {
      var paths := PathPatterns(cut);
      var words := KeywordPatterns(cut);
      var cutPaths := Group(paths);
      var cutKeywords := Group(words);
      if cutPaths.Some? {
        apiData := Keep(apiData, (r: ApiRow) => !ContainsAny(r.url, paths));
      }
      if cutKeywords.Some? {
        apiData := Keep(apiData, (r: ApiRow) => !ContainsAny(r.keyword, words));
      }
    }
    var mapped: seq<Scored>;
    if upload != [] {
      var merged := merge(upload, apiData);
      mapped := SetScore(merged);
      if !semrush {
        mapped := Keep(mapped, Uploaded);
      }
    } else {
      mapped := SetScore(ApiTable(apiData));
    }
    result := Success(Filled(mapped));
  }

  /**
   * The domain is refused exactly when `http` or `www` occurs in it; a
   * reply holding `NOTHING` is reported as no data.
   */
  lemma MappingFails(domain: string, reply: string, parse: string -> seq<ApiRow>, upload: seq<string>, semrush: bool,
                     cut: seq<string>, merge: (seq<string>, seq<ApiRow>) -> seq<Row>)
    ensures Mapping(domain, reply, parse, upload, semrush, cut, merge) == Failure(DomainRejected) <==>
      exists i :: OccursAt(domain, "http", i) || OccursAt(domain, "www", i)
    ensures Mapping(domain, reply, parse, upload, semrush, cut, merge) == Failure(NoData) <==>
      !Refused(domain) && exists i :: OccursAt(reply, "NOTHING", i)
    ensures Mapping(domain, reply, parse, upload, semrush, cut, merge).Success? <==>
      !Refused(domain) && !Contains(reply, "NOTHING")
  {
    ContainsIffOccurs(domain, "http");
    ContainsIffOccurs(domain, "www");
    ContainsIffOccurs(reply, "NOTHING");
  }

  /** Filling a table with one listed row per keyword gives one row per keyword, each at position 20 or better. */
  lemma FilledRows(mapped: seq<Scored>)
    requires UniqueKeywords(mapped)
    requires forall s :: s in mapped ==> Listed(s.row)
    ensures var rows := Filled(mapped);
      && (forall i, j :: 0 <= i < j < |rows| ==> rows[i].keyword != rows[j].keyword)
      && (forall r :: r in rows ==> r.position <= 20)
  {
    var rows := Filled(mapped);
    forall r | r in rows ensures r.position <= 20 {
      var k :| 0 <= k < |rows| && rows[k] == r;
      assert mapped[k] in mapped;
    }
  }

  /** Every returned table holds one row per keyword, each at position 20 or better (0 when missing). */
  lemma MappingRows(domain: string, reply: string, parse: string -> seq<ApiRow>, upload: seq<string>, semrush: bool,
                    cut: seq<string>, merge: (seq<string>, seq<ApiRow>) -> seq<Row>)
    ensures Mapping(domain, reply, parse, upload, semrush, cut, merge).Success? ==>
      var rows := Mapping(domain, reply, parse, upload, semrush, cut, merge).value;
      && (forall i, j :: 0 <= i < j < |rows| ==> rows[i].keyword != rows[j].keyword)
      && (forall r :: r in rows ==> r.position <= 20)
  {
    if !Refused(domain) && !Contains(reply, "NOTHING") {
      var apiData := CutRows(parse(reply), cut);
      var data := if upload != [] then merge(upload, apiData) else ApiTable(apiData);
      ScoringOrder(data);
      var scored := Scoring(data);
      if upload != [] && !semrush {
        KeepScored(scored, Uploaded);
        KeepSpec(scored, Uploaded);
        FilledRows(Keep(scored, Uploaded));
      } else {
        FilledRows(scored);
      }
    }
  }

  lemma RateNonNegative(volume: nat, ctr: real, position: int)
    requires position != 0 && ctr >= 0.0 && (position < 0 ==> ctr == 0.0)
    ensures Rate(volume, ctr, position) >= 0.0
  {
    if position > 0 {
      assert volume as real * ctr >= 0.0;
    }
  }

  /** A row with a non-negative volume never gets a negative score. */
  lemma ScoreNonNegative(row: Row)
    requires row.searchVolume.Some? ==> row.searchVolume.value >= 0
    ensures ScoreOf(row).Some? ==> ScoreOf(row).value >= 0.0
  {
    if ScoreOf(row).Some? {
      var p := row.position.value;
      var v := row.searchVolume.value;
      CtrIsRounded(p);
      RateNonNegative(v, Ctr(Some(p)), p);
      Round2Monotone(0.0, Rate(v, Ctr(Some(p)), p));
      assert Round2(0.0) == 0.0;
    }
  }

  /** With non-negative volumes the returned scores descend, a missing score counting as 0. */
  lemma FilledScoresDescend(data: seq<Row>)
    requires forall i :: 0 <= i < |data| && data[i].searchVolume.Some? ==> data[i].searchVolume.value >= 0
    ensures var rows := Filled(Scoring(data));
      forall i, j :: 0 <= i < j < |rows| ==> rows[i].score >= rows[j].score
  {
    var scored := Scoring(data);
    var rows := Filled(scored);
    ScoringOrder(data);
    ScoringMembers(data);
    forall k | 0 <= k < |scored| ensures scored[k].score.Some? ==> scored[k].score.value >= 0.0 {
      assert scored[k] in scored;
      var m :| 0 <= m < |data| && FirstOfKeyword(Scores(data), m) && Listed(data[m]) && scored[k] == FillUrl(Scores(data)[m]);
      ScoreNonNegative(data[m]);
    }
    forall i, j | 0 <= i < j < |rows| ensures rows[i].score >= rows[j].score {
      assert ScoreAtLeast(scored[i].score, scored[j].score);
    }
  }

  /** `r` is the first reply row of its keyword, at position 20 or better, with its keyword, url, position and volume. */
  predicate FromReply(api: seq<ApiRow>, r: OutRow) {
    exists i :: 0 <= i < |api| && FirstOfKeyword(Scores(ApiTable(api)), i) && api[i].position <= 20 &&
      r.keyword == api[i].keyword && r.url == api[i].url && r.position == api[i].position && r.searchVolume == api[i].searchVolume
  }

  /**
   * Scoring the reply rows alone: every returned row is the first reply row
   * of its keyword, at position 20 or better, with its keyword, url,
   * position and volume; every such first row is returned.
   */
  lemma ReplyRows(api: seq<ApiRow>)
    ensures var rows := Filled(Scoring(ApiTable(api)));
      && (forall r :: r in rows ==> FromReply(api, r))
      && (forall i :: 0 <= i < |api| && FirstOfKeyword(Scores(ApiTable(api)), i) && api[i].position <= 20 ==>
            exists r :: r in rows && r.keyword == api[i].keyword && r.url == api[i].url)
  {
    var data := ApiTable(api);
    var scored := Scoring(data);
    var rows := Filled(scored);
    ScoringMembers(data);
    forall r | r in rows ensures FromReply(api, r)
    {
      var k :| 0 <= k < |rows| && rows[k] == r;
      assert scored[k] in scored;
      var i :| 0 <= i < |data| && FirstOfKeyword(Scores(data), i) && Listed(data[i]) && scored[k] == FillUrl(Scores(data)[i]);
    }
    forall i | 0 <= i < |api| && FirstOfKeyword(Scores(data), i) && api[i].position <= 20
      ensures exists r :: r in rows && r.keyword == api[i].keyword && r.url == api[i].url
    {
      var s := FillUrl(Scores(data)[i]);
      assert s in scored;
      var k :| 0 <= k < |scored| && scored[k] == s;
      assert rows[k] in rows;
    }
  }

  /**
   * Without an upload, the returned rows are the reply rows that survive the
   * `--remove` patterns, scored on their own; with non-negative volumes the
   * scores descend.
   */
  lemma MappingWithoutUpload(domain: string, reply: string, parse: string -> seq<ApiRow>, semrush: bool,
                             cut: seq<string>, merge: (seq<string>, seq<ApiRow>) -> seq<Row>)
    requires !Refused(domain) && !Contains(reply, "NOTHING")
    ensures var rows := Mapping(domain, reply, parse, [], semrush, cut, merge).value;
      var api := CutRows(parse(reply), cut);
      && (forall r :: r in rows ==> FromReply(api, r))
      && (forall i :: 0 <= i < |api| && FirstOfKeyword(Scores(ApiTable(api)), i) && api[i].position <= 20 ==>
            exists r :: r in rows && r.keyword == api[i].keyword && r.url == api[i].url)
      && ((forall a :: a in api ==> a.searchVolume >= 0) ==> forall i, j :: 0 <= i < j < |rows| ==> rows[i].score >= rows[j].score)
  {
    var api := CutRows(parse(reply), cut);
    ReplyRows(api);
    if forall a :: a in api ==> a.searchVolume >= 0 {
      var data := ApiTable(api);
      forall i | 0 <= i < |data| && data[i].searchVolume.Some? ensures data[i].searchVolume.value >= 0 {
        assert api[i] in api;
      }
      FilledScoresDescend(data);
    }
  }
}
