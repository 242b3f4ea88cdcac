# toolchain: a verified model of the keyword tools

`toolchain` is a command-line kit for search-engine keyword research. This
project models, in Dafny, the deterministic core of five of its modules and
proves what they promise:

- **Clustering** (`src/cluster.py`):
  - `levenshtein` fills an (m+1) x (n+1) table of edit distances. It is modelled as an imperative method over a two-dimensional array, proved equal to the edit-distance recurrence.
  - That recurrence is proved to be the least cost of any edit script.
  - `cluster_keywords` rejects a damping factor outside [0.5, 1.0] and builds the negated-distance similarity matrix. After the clustering step it assembles one block of (keyword, exemplar) rows per label.
  - The clustering step is scikit-learn's affinity propagation. It is a parameter of the model: a function from the matrix and the damping factor to labels and exemplar indices.
- **Competition** (`src/competition.py`): `enumerate_competition` collects the `domain` of every organic result, in keyword order. It removes `www.`, counts each domain and ranks the domains by count, ties in order of first appearance. The search service is a parameter.
- **Keyword list** (`src/kwlist.py`):
  - `collect_related` lists a response's related searches, then its related questions.
  - `get_kwlist` queries the whole stack again and again until it reaches the cutoff. It then lowercases the stack and drops keywords that contain a `--remove` pattern.
- **URL mapping** (`src/urlmap.py`):
  - `map_domain` refuses a domain holding `http` or `www` and stops on a `NOTHING` reply. It cuts the reply rows with the `--remove` patterns, the path group against urls and the keyword group against keywords. It then optionally merges them with an uploaded list and hands them to `set_score`.
  - `set_score` scores rows by volume, click-through rate and position. It keeps the first row of each keyword, ranks the rows by score, keeps positions up to 20 and fills missing urls.
- **Formatting** (`src/formatting.py`): `fprint` builds an ANSI-coloured line tagged by level, prints it and returns it.

Modules:

| File | Module | Contents |
|---|---|---|
| `wrappers.dfy` | `Wrappers` | `Option`, `Result` |
| `seqs.dfy` | `Seqs` | flattening of lists of lists, boolean-mask selection |
| `ordering.dfy` | `Ordering` | strict total orders, and sorted de-duplication (`np.unique`) |
| `text.dfy` | `Text` | substring search, `str.replace`, `"\|".join`, ASCII lowercasing, string order |
| `levenshtein.dfy` | `Levenshtein` | the distance |
| `cluster.dfy` | `Cluster` | clustering |
| `competition.dfy` | `Competition` | competition |
| `kwlist.dfy` | `KwList` | keyword list |
| `urlmap.dfy` | `UrlMap` | URL mapping |
| `formatting.dfy` | `Formatting` | formatting |

## Model

| member | source | states |
|---|---|---|
| Levenshtein.Levenshtein | src/cluster.py:35-51 | The value read from the filled table is the edit distance of the two strings. Against the empty string it is the other string's length. |
| Levenshtein.FillColumn | src/cluster.py:44-50 | After the inner loop, every cell of column j holds the recurrence's value for that pair of prefixes. Every cell of every other column is unchanged. |
| Levenshtein.FillCell | src/cluster.py:46-50 | The cell takes the least of the three moves, the diagonal one costing 0 for equal characters. No other cell changes. |
| Levenshtein.Symmetric | src/cluster.py:35-51 | The distance does not depend on the order of the two strings. |
| Levenshtein.ZeroIffEqual | src/cluster.py:46-51 | The distance is 0 exactly when the strings are equal. The `is` comparison is taken as character equality. |
| Levenshtein.Bounds | src/cluster.py:39-51 | The distance is at least the difference of the lengths and at most the longer length. Against the empty string it is the other string's length. |
| Levenshtein.NoScriptIsCheaper | src/cluster.py:44-51 | No script of keeps, substitutions, insertions and deletions that turns one string into the other costs less than the distance. |
| Levenshtein.OptimalScript | src/cluster.py:44-51 | Some such script costs exactly the distance, so the distance is the minimum number of unit edits. |
| Cluster.Similarity | src/cluster.py:60 | The matrix is N x N for N keywords. |
| Cluster.SimilarityFacts | src/cluster.py:60 | The matrix is symmetric. An entry is 0 exactly when the two keywords are equal, so the diagonal is 0. Entries are never positive and never below minus the longer keyword's length. |
| Cluster.DistanceMatrix | src/cluster.py:60 | The comprehension built with the `levenshtein` method gives row w2, column w1 equal to minus the distance from w1 to w2. |
| Cluster.PyIndex | src/cluster.py:66 | Python indexing succeeds exactly for -len <= k < len, with negative indices counting from the end. |
| Cluster.MembersSpec | src/cluster.py:67 | A keyword is among the members of a label exactly when some position carries that keyword and that label. |
| Cluster.BlockSpec | src/cluster.py:68-69 | The keyword column of a block is the cluster, and every row carries the exemplar. |
| Cluster.BlocksSpec | src/cluster.py:65-70 | The blocks exist exactly when every label leads to an exemplar. Block t is the sorted distinct members of label t paired with its exemplar. |
| Cluster.ClusterKeywords | src/cluster.py:54-71 | A damping factor below 0.5 or above 1.0 is refused, and 0.5 and 1.0 themselves are accepted. Otherwise the result is the table assembled from the clustering of the similarity matrix. |
| Cluster.ClusteredSucceeds | src/cluster.py:63-71 | A table is produced exactly when there is a keyword, one label per keyword, and each label's exemplar index falls inside the keyword list. |
| Cluster.ClusteredRows | src/cluster.py:65-71 | The rows are exactly the pairs of an input keyword and the exemplar of its label, so every keyword appears in its own label's block. |
| Cluster.ClusteredBlocks | src/cluster.py:65-71 | The table concatenates one block per distinct label, in increasing label order. Each block lists that label's distinct keywords in increasing order, each with that label's exemplar. |
| Cluster.ExemplarListsItself | src/cluster.py:66-69 | An exemplar that carries its own cluster's label is listed as a keyword of that cluster, paired with itself. |
| Seqs.FlattenLength | src/cluster.py:71 | The concatenated table has as many rows as all the blocks together. |
| Seqs.FlattenAppend | src/cluster.py:71 | Concatenating one more block appends its rows at the end. |
| Cluster.BlocksLength | src/cluster.py:65-70 | The blocks built for a list of labels hold as many rows as those labels have distinct keywords, summed. |
| Cluster.ClusteredRowCount | src/cluster.py:65-71 | The returned table has one row per distinct keyword of each label: its length is the number of distinct keywords per label, summed over the labels. |
| Seqs.FlattenMember | src/kwlist.py:29 | An element of the flattened list is an element of one of the sublists, and conversely. |
| Ordering.SortedUniqueSpec | src/cluster.py:65-67 | `np.unique` gives a strictly increasing list holding exactly the elements of its input. |
| Ordering.IncreasingCardinality | src/cluster.py:67 | A strictly increasing list, such as the one `np.unique` returns, has as many elements as distinct values. |
| Ordering.IncreasingIsUnique | src/cluster.py:65-67 | Two strictly increasing lists with the same elements are equal, so that result is unique. |
| Text.LexLessIsStrictTotalOrder | src/cluster.py:67 | The order on strings used to sort the members is a strict total order. |
| Competition.SerpDomainsSpec | src/competition.py:30 | Each domain is kept as often as results carry it, and results without a domain contribute nothing. |
| Competition.SerpDomainsOrder | src/competition.py:30 | The k-th kept domain is the domain of the result at position idx[k]. The positions strictly increase, and they are exactly the results that carry a domain, so result order and repeats are kept. |
| Competition.CollectSpec | src/competition.py:25-31 | Collection succeeds exactly when every response has organic results. The k-th list is the domains of the k-th keyword's response, in keyword order. |
| Competition.CompetitorsFails | src/competition.py:29-30 | The lookup fails exactly when some response lacks `organic_results`. |
| Competition.EnumerateCompetition | src/competition.py:21-34 | The loop returns the ranking of the responses to the keywords, or the lookup error. |
| Competition.StripSpec | src/competition.py:32 | A domain without `www.` is unchanged, and a leading `www.` in front of it is removed. |
| Text.RemoveAllDeletesOccurrence | src/competition.py:32 | `replace` deletes the leftmost occurrence and goes on after it. |
| Text.RemoveAllNoOccurrence | src/competition.py:32 | `replace` leaves a string without the pattern unchanged. |
| Competition.BumpSpec | src/competition.py:33 | Counting a domain already present raises its count in place. A new domain is appended with count 1. |
| Competition.TallyDomains | src/competition.py:33 | The tally lists each domain once, and its domains are exactly those of the flattened list. |
| Competition.TallyCounts | src/competition.py:33 | Each count is the number of occurrences of its domain. |
| Competition.TallyOrder | src/competition.py:33 | Domains are listed in order of first appearance. |
| Competition.TallyTotal | src/competition.py:33 | The counts add up to the length of the flattened list. |
| Competition.InsertByCountSpec | src/competition.py:34 | Inserting an entry ranked after all others keeps the order and adds exactly that entry. |
| Competition.SortByCountSpec | src/competition.py:34 | Sorting is a permutation ordered by count, highest first, with ties in their previous order. |
| Competition.SortByCountTotal | src/competition.py:34 | Sorting keeps the sum of the counts. |
| Competition.RankedTally | src/competition.py:33-34 | Ranking the tally lists each domain once with its number of occurrences. Counts never increase, and equal counts keep first-appearance order. |
| Competition.CompetitorsRanking | src/competition.py:30-34 | The returned ranking has the properties of `RankedTally`, for the stripped domains of all responses. |
| Competition.CompetitorsTotal | src/competition.py:32-34 | The returned counts add up to the number of domains seen. |
| KwList.CollectRelated | src/kwlist.py:23-29 | The result is the related searches, then the related questions. A missing list contributes nothing, and the length is the sum of the present lists' lengths. |
| KwList.RelatedSpec | src/kwlist.py:38-44 | A keyword is collected exactly when it is related to one of the queried keywords. |
| KwList.ExtendRelated | src/kwlist.py:40-44 | The stack grows by the related keywords of every queried keyword, in order. The counter grows by exactly their number. |
| KwList.GetKwList | src/kwlist.py:32-57 | The result is the lowercased stack once it reaches the cutoff, filtered by the patterns. `kw_stack_length == len(kw_stack)` is a loop invariant. |
| KwList.GrowReaches | src/kwlist.py:45-52 | When the loop ends, the stack holds at least `cutoff` keywords and still starts with the stack it began with. |
| KwList.GrowStalls | src/kwlist.py:45-52 | When no keyword of a stack below the cutoff has related keywords, the loop never ends. |
| KwList.RemoveMatchingSpec | src/kwlist.py:55-57 | The kept keywords are the collection at strictly increasing positions, exactly those whose keyword contains no pattern, so order and repeats are kept. A keyword is therefore kept exactly when it was present and contains no pattern. |
| KwList.ExportOrder | src/kwlist.py:53-57 | The k-th exported keyword is the lowercase form of the stack keyword at position idx[k]. The positions strictly increase, and they are exactly those whose lowercase keyword matches no pattern (every position when there are no patterns). |
| KwList.ExportSpec | src/kwlist.py:53-57 | Each exported keyword is the lowercase form of a stack keyword that matches no pattern, and every such keyword is exported. Without patterns the whole stack is exported lowercased, in order. |
| KwList.ExportIsLowerCase | src/kwlist.py:53 | No exported keyword holds an upper-case ASCII letter. |
| KwList.UpperCasePatternNeverMatches | src/kwlist.py:53-57 | A pattern holding an upper-case ASCII letter (A to Z) never matches a lowercased keyword. |
| Text.LowerSpec | src/kwlist.py:53 | Lowercasing keeps the length, maps only A-Z (by +32), leaves no upper-case letter, and is idempotent. |
| Seqs.KeepSpec | src/urlmap.py:71 | A row is kept by a boolean mask exactly when it was present and satisfies the mask. |
| Seqs.KeepPicks | src/urlmap.py:71 | A boolean-mask selection is the input at strictly increasing positions, exactly those whose row satisfies the mask, so order and repeats are kept. |
| Seqs.KeepKeep | src/urlmap.py:94-97 | Two masks applied one after the other select exactly what their conjunction selects. |
| Seqs.KeepAppend | src/urlmap.py:71 | Selecting from a concatenation gives the selections from each part, concatenated. |
| UrlMap.PatternGroups | src/urlmap.py:90-91 | A pattern with a `/` goes to the path group with every `/` deleted, and any other pattern to the keyword group. Nothing else is in either group, and no path pattern holds a `/`. |
| UrlMap.Group | src/urlmap.py:90-93 | A group is absent, and its filter skipped, exactly when it has no pattern or only the empty one. |
| Text.JoinIsEmpty | src/urlmap.py:90-93 | A `"\|"`-joined string is empty exactly when there is no part or only one empty part. |
| UrlMap.CutIsOneMask | src/urlmap.py:89-97 | The url filter followed by the keyword filter selects what the single mask `Survives` selects: no applied path pattern in the url and no applied keyword pattern in the keyword. |
| UrlMap.CutSpec | src/urlmap.py:89-97 | The surviving rows are the reply at strictly increasing positions, exactly those whose row survives, so order and repeats are kept. A reply row therefore survives exactly when no applied path pattern occurs in its url and no applied keyword pattern occurs in its keyword. |
| UrlMap.CutDropsPage | src/urlmap.py:90-95 | A row whose url holds a non-empty path pattern is removed. |
| UrlMap.CutDropsKeyword | src/urlmap.py:91-97 | A row whose keyword holds a non-empty keyword pattern is removed. |
| UrlMap.Round2Spec | src/urlmap.py:68-69 | Rounding to two decimals gives a whole number of hundredths within 0.005 of the value, and on a tie the even hundredth. |
| UrlMap.Round2Unique | src/urlmap.py:68-69 | Only one value has those three properties, so they define the rounding. |
| UrlMap.Round2Monotone | src/urlmap.py:68-69 | Rounding never reverses an order. |
| UrlMap.CtrIsRounded | src/urlmap.py:44-68 | The `ctr` of each position is the table rate rounded to two decimals: 0.33, 0.15, 0.09, 0.06, 0.04, 0.03, then 0.02 for 7-8, 0.01 for 9-20, and 0 beyond. |
| UrlMap.ScoreRewardsPosition | src/urlmap.py:66-69 | For the same volume, a better position never scores lower, and a position beyond 20 scores 0. |
| UrlMap.ScoreNonNegative | src/urlmap.py:68-69 | A non-negative volume never gives a negative score. |
| UrlMap.FirstPerKeywordCovers | src/urlmap.py:70 | `groupby("keyword").head(1)` keeps every keyword of the table. |
| UrlMap.FirstPerKeywordUnique | src/urlmap.py:70 | `groupby("keyword").head(1)` keeps each keyword only once. |
| UrlMap.FirstPerKeywordMembers | src/urlmap.py:70 | The kept rows are exactly the first row of each keyword. |
| UrlMap.SortByScorePermutes | src/urlmap.py:70 | Sorting by score is a permutation. |
| UrlMap.SortByScoreDescending | src/urlmap.py:70 | The sorted scores never increase, and missing (NaN) scores come last. |
| UrlMap.SortByScoreUnique | src/urlmap.py:70 | Sorting keeps one row per keyword. |
| UrlMap.KeepScored | src/urlmap.py:71 | The position filter keeps the score order and the one-row-per-keyword property. |
| UrlMap.FillUnmapped | src/urlmap.py:72 | Each row with no url gets `unmapped - create new page`, and every other row is unchanged. |
| UrlMap.SetScore | src/urlmap.py:42-73 | `set_score` returns the scored, de-duplicated, ranked, position-filtered table with urls filled. |
| UrlMap.ListingOrder | src/urlmap.py:70-71 | Before the url fill, the table has one row per keyword, in descending score order. |
| UrlMap.ListingMembers | src/urlmap.py:70-71 | Before the url fill, the rows are exactly the first row of each keyword whose position is missing or at most 20. |
| UrlMap.ScoringOrder | src/urlmap.py:70-73 | The result has one row per keyword, in descending score order. Each row has a url and a position missing or at most 20. |
| UrlMap.ScoringMembers | src/urlmap.py:70-73 | The result rows are exactly the first row of each listed keyword, with its url filled. |
| UrlMap.UploadedSpec | src/urlmap.py:103-104 | The `both\|left_only` filter keeps exactly the rows tagged `both` or `left_only`. |
| Text.ContainsIffOccurs | src/urlmap.py:77 | `x in s` on strings holds exactly when `x` occurs at some offset of `s`. |
| UrlMap.MappingFails | src/urlmap.py:77-86 | The domain is refused exactly when `http` or `www` occurs in it. Otherwise the run stops for no data exactly when the reply holds `NOTHING`, and succeeds exactly when neither happens. |
| UrlMap.MapDomain | src/urlmap.py:76-111 | The successive reassignments of `api_data` and `mapped` give the mapping the model defines, or the error. |
| UrlMap.FilledRows | src/urlmap.py:107-111 | Filling missing values keeps one row per keyword, each at position 20 or better. |
| UrlMap.MappingRows | src/urlmap.py:98-111 | Every returned table, with or without an upload, has one row per keyword, each at position 20 or better. |
| UrlMap.FilledScoresDescend | src/urlmap.py:70-73 | With non-negative volumes, the returned scores never increase down the table. |
| UrlMap.ReplyRows | src/urlmap.py:66-73 | Without an upload, every returned row is the first reply row of its keyword, at position 20 or better, with its keyword, url, position and volume. Every such row is returned. |
| UrlMap.MappingWithoutUpload | src/urlmap.py:87-111 | Without an upload, the returned rows are the reply rows surviving the patterns, scored alone, with scores descending when volumes are non-negative. |
| Formatting.Format | src/formatting.py:8-20 | For a known level, the line is `[` bold, the level's colour, the level, reset, `] `, then the message. An unknown level gives the empty string. |
| Formatting.EndsWithMessage | src/formatting.py:15-20 | For a known level, the line ends with the message verbatim. |
| Formatting.FormatIsInjective | src/formatting.py:9-20 | For the three known levels, different levels or messages never give the same line. |
| Formatting.Terminal.Fprint | src/formatting.py:21-22 | The text printed is the text returned. |

## Left out

- Affinity propagation (src/cluster.py:61-62) is scikit-learn's floating-point message passing. It is the parameter `affinity`, and nothing is claimed about cluster quality. scikit-learn's own validation of the damping factor (it refuses 1.0) is not modelled. A NaN damping factor, which passes the source's guard, cannot be expressed with `real`.
- The `is` comparison at src/cluster.py:46 is modelled as character equality. In CPython, one-character strings are shared objects only for code points below 256, so for equal characters outside Latin-1 the source finds them different: there `levenshtein(w, w)` is `len(w)`, not 0. The distance, `ZeroIffEqual` and `SimilarityFacts` therefore describe the source only for Latin-1 text, although src/cluster.py:11 says the tool works in any language.
- Damerau-Levenshtein and a metric selector do not exist in the code. src/app.py is not part of this model.
- Network access and threads: the search service of `competition` and `kwlist` is a function from keyword to decoded response. The Semrush reply of `urlmap` is its text, with the CSV parser as a parameter. `executor.map` returns results in input order, which is what the model uses. `location.title()` only changes the request and is not modelled.
- KwList.GetKwList: the source's `while` loop has no bound and depends on remote answers. The model allows `maxRounds` rounds and gives None when they run out. `GrowStalls` shows a stack whose keywords have no related searches never reaches the cutoff.
- A response without the `query` or `question` key inside its related lists raises `KeyError` in `collect_related`. Responses are modelled as lists of those strings, so this failure is not modelled.
- File output (the CSV writes), progress messages and `sys.exit` are left out. An exit is modelled as an error result, and the `fprint` calls inside other functions are not modelled.
- `str.contains` with `"|"`-joined patterns is a regular expression. The model treats patterns as literal alternatives, so regular-expression metacharacters are not modelled.
- UrlMap.Round2: rounding is exact on real numbers, not on binary floating point. Positions and volumes are whole numbers, so the rounding at src/urlmap.py:66-67 is the identity and is left out.
- UrlMap.SortByScore: pandas' `sort_values` defaults to quicksort, which is not stable. The model's sort keeps ties in table order, so the order of equal scores is one possible order, not necessarily the source's.
- The outer merge of src/urlmap.py:101 is pandas. It is the parameter `merge`, which gives the merged rows with their `_merge` indicator.
- An empty uploaded list stands for no file, as both are falsy at src/urlmap.py:99.
- Lowercasing is ASCII only. `str.lower` also folds other scripts, and that is not modelled.
- src/onpage.py, src/onpageold.py, src/cli.py, src/app.py, src/apicalls.py, src/authentication.py, src/constants.py, src/bqclient.py and setup.py are not part of this model.
