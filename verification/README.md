# AreYouRedis search core, modelled in Dafny

AreYouRedis is a paper-search application over arXiv. Paper hashes and their embedding vectors live in Redis. A RediSearch query combines a tag filter with a K-nearest-neighbour vector search. The hits are turned into result records, and the application derives several views from them: a topic trend with a short forecast, a citation arc graph, and a suggested reading list.

This project models the core of that pipeline:

- **`ScholarCitations`** (`scholar_citations.dfy`): `process_citation`. It encodes the citing papers returned by the Semantic Scholar client as the comma-joined string stored with each paper. It also covers what ingestion's `astype(str)` makes of a missing result.
- **`RedisDb`** (`redis_db.dfy`):
  - the `paper_vector:` key of a vector hash;
  - `format_tags`, the tag filter text;
  - `create_query`, the hybrid KNN query with its sort, paging, return fields and dialect;
  - `process_paper` and `papers_from_results`, which turn hits into result records with `similarity_score = 1 - vector_score`.
- **`TopicEvolution`** (`topic_evolution.dfy`):
  - the in-place `list_index` loop and the category filter patterns of `get_search_query_results`;
  - the zero-filled yearly series of `display_topic_trend`, and its forecast gate and anchoring;
  - `get_reading_list`: scoring in place, top-K by reading score, then date order.
- **`Graph`** (`graph.dfy`):
  - `get_graph_data`: nodes sorted by date string, and links built paper by paper;
  - from `get_arc_graph`, the edge-width rank lookup and the tooltip ordering.
- Shared pieces:
  - `Records`: the stored `Paper` hash, a `ResultRecord`, the date key and the citation count.
  - `PyStrings`: Python `split`, `join`, `str(int)` and string `<`.
  - `StableSort`: Python's stable `sorted(key=...)`, with and without `reverse=True`, and `sorted(set(...))` of integers.
  - `Wrappers`: `Option` and `Result`.

Python dictionaries with a fixed shape become datatypes. A dictionary iterated in insertion order (the tag dict) becomes a sequence of pairs. Exceptions the code can raise become a `None` or `Failure`:

- `KeyError` on an unknown category label;
- `KeyError` in the width lookup when there are more than 16 distinct strengths;
- `NotFoundError` from `Paper.get`.

Two loops in the source write into the result dictionaries in place (`list_index` and `reading_score`). They are methods over an `array<ResultRecord>`, and each is proved equal to a specification function of the old contents. The `links +=` loop of `get_graph_data` and the tooltip loop of `get_arc_graph` are methods proved against the functions that specify them.

Some behaviours of the code are easy to misread from its names, docstrings and UI text. The model follows what the code does:

- **Citation count.** The reading list shows a "Number of citations" (app/features/topic_evolution.py:333 and 389), computed as `len(citations.split(','))`. This counts the sentinel `"None"` and the empty string as one citation each, not zero. For the same reason, a "None" paper's reading score is its full similarity (`Records.CitationCountOfSentinels`, `TopicEvolution.ReadingScoreOfSentinel`).
- **Date order.** Results are ordered by the string `year + '-' + month` compared as text, so `"2020-10"` sorts before `"2020-2"` (`Records.DateKeysCompareAsStrings`). This affects both the graph and the reading list.
- **Forecast gate.** The docstring of `display_topic_trend` (app/features/topic_evolution.py:165) promises a prediction "if more than 5 non zero data points are available". The code instead tests `len(all_dates) >= 5` (line 205), the number of years in the span, zero years included (`TopicEvolution.TopicForecast`).
- **Tag values.** Tag values are inserted into the filter text verbatim, with no escaping.
- **Edge weight.** The graph's help text says "Links between bubbles represent citations" (app/features/topic_evolution.py:242), and every link carries the constant strength 10. So every arc gets the thinnest width (`Graph.GraphEdgeWidths`).

## Model

| member | source | states |
|---|---|---|
| ScholarCitations.KeptIds | src/scholar_citations.py:75-76 | an id is kept iff some entry's `sch_id` is that string; never more ids than entries |
| ScholarCitations.KeptIdsAppend | src/scholar_citations.py:75-76 | the filter keeps order: the ids of a concatenation are the concatenated ids |
| ScholarCitations.KeptIdsAllStrings | src/scholar_citations.py:76 | when every `sch_id` is a string, nothing is dropped and the order is kept |
| ScholarCitations.ProcessCitation | src/scholar_citations.py:69-79 | None exactly for a missing or empty list; "" when no id is a string; the single id when one is kept |
| ScholarCitations.ProcessCitationRoundTrip | src/scholar_citations.py:74-77 | splitting the stored string on "," gives back exactly the kept ids, when they are comma-free |
| ScholarCitations.ProcessCitationOfSplit | src/scholar_citations.py:74-77 | the other direction: any string is the encoding of the comma-free ids that splitting it on "," reads back |
| ScholarCitations.StoredCitations | src/redis_db.py:164-166 | `astype(str)` stores a None result as the text "None" and a string unchanged |
| ScholarCitations.StoredCitationCount | src/scholar_citations.py:69-79 | the count read back is 1 for a missing, empty or all-non-string list, and otherwise the number of kept ids |
| RedisDb.VectorKey | src/redis_db.py:39 | the key is the prefix `paper_vector:` followed by the id, and its length is their sum |
| RedisDb.VectorKeyInjective | src/redis_db.py:216 | two ids share a vector key iff they are equal, so the key used for lookup names the hash written for that id |
| RedisDb.FormatTags | src/redis_db.py:173-181 | the loop builds the parenthesised concatenation of the clauses of the allowed items, in dict order |
| RedisDb.ClausesAppend | src/redis_db.py:175-180 | the clauses of a concatenated dict are the concatenated clauses: order is kept |
| RedisDb.FormattedTagsIgnoresUnknown | src/redis_db.py:176-178 | an item whose name is not one of the eight tag fields leaves the filter unchanged |
| RedisDb.ClausesAllowedItem | src/redis_db.py:179-180 | an allowed item contributes exactly its clause `@name:{...}`, the values joined by the tag-alternative separator, in its place between its neighbours' clauses |
| RedisDb.FormattedTagsNoAllowedKey | src/redis_db.py:181 | a dict with no allowed key formats as "()" |
| RedisDb.FilterPart | src/redis_db.py:190 | the filter is "*" iff the dict is None or empty, and otherwise the formatted tags |
| RedisDb.CreateQuery | src/redis_db.py:184-196 | the query text is filter, `=>[`, search type, count and vector clause; sorted by `vector_score`; page 0 to n; returns id, paper_pk, vector_score; dialect 2 |
| RedisDb.KnnCountMatchesLimit | src/redis_db.py:191-194 | the KNN count written in the query is a digit string whose value is the page limit |
| RedisDb.DefaultQuery | src/redis_db.py:185-191 | with all defaults the query text is `*=>[KNN 15 @vector $vec_param AS vector_score]` |
| RedisDb.ProcessPaper | src/redis_db.py:199-203 | succeeds iff the primary key is stored; then the record is the stored paper with similarity = 1 - distance and no added keys; otherwise NotFound(pk) |
| RedisDb.PapersFromResults | src/redis_db.py:206-207 | succeeds iff every hit's paper is stored, giving one record per hit in hit order, each exactly what `process_paper` makes of that hit (the stored paper, similarity = 1 - distance, no list_index or reading_score); otherwise fails with the first missing key |
| RedisDb.SimilarityDescends | src/redis_db.py:202-207 | hits ordered by ascending distance give records ordered by descending similarity |
| Records.CitationCount | app/features/topic_evolution.py:263 | the citation count of a stored string is at least 1 |
| Records.CitationCountIsCommasPlusOne | app/utils/graph.py:58 | the citation count is the number of commas plus one |
| Records.CitationCountOfSentinels | app/features/topic_evolution.py:263 | "None" and "" each count as one citation |
| Records.DateKeysCompareAsStrings | app/utils/graph.py:54 | date keys compare as text: "2020-10" sorts before "2020-2" |
| Records.LexLessIsStrictTotalOrder | app/utils/graph.py:54 | Python string `<` is irreflexive, transitive and total, so sorting by date key is well defined |
| StableSort.SortByPermutes | app/features/topic_evolution.py:265-267 | `sorted` returns a permutation of its input |
| StableSort.SortBySorted | app/features/topic_evolution.py:267 | `sorted` output has no element whose key is below the key of an earlier element |
| StableSort.SortByStable | app/features/topic_evolution.py:265 | `sorted` is stable: elements with equal keys keep their input order, with or without `reverse=True` |
| StableSort.SortedDistinct | app/utils/graph.py:120 | `sorted(set(xs))` is strictly increasing and holds exactly the elements of xs |
| StableSort.IncreasingUnique | app/utils/graph.py:120 | two strictly increasing sequences with the same elements are equal |
| TopicEvolution.AssignListIndex | app/features/topic_evolution.py:155-157 | the loop sets each result's `list_index` to its position and changes nothing else |
| TopicEvolution.ListIndexIsRank | app/features/topic_evolution.py:155-157 | result j carries index i iff i == j, and every other field is unchanged |
| TopicEvolution.CategoryFilters | app/features/topic_evolution.py:153 | succeeds iff every selected label is in the mapping (else KeyError); then one `pattern*` per label, in order |
| TopicEvolution.CategoryFiltersStripWildcard | app/features/topic_evolution.py:153 | each filter is the mapped pattern followed by one `*` |
| TopicEvolution.MinOf | app/features/topic_evolution.py:174 | `min(dates)` is an element no larger than any other |
| TopicEvolution.MaxOf | app/features/topic_evolution.py:174 | `max(dates)` is an element no smaller than any other |
| TopicEvolution.Range | app/features/topic_evolution.py:174 | `range(lo, hi)` has hi - lo consecutive elements from lo |
| TopicEvolution.TrendSeriesZeroFilled | app/features/topic_evolution.py:172-182 | the series covers every year from min to max, ascending and without gaps, and each year has its number of results (0 where none) |
| TopicEvolution.TrendSeriesTotal | app/features/topic_evolution.py:172-182 | the yearly counts add up to the number of results |
| TopicEvolution.TrendZeroFillExample | app/features/topic_evolution.py:172-205 | years 2019 and 2021 give (2019,1), (2020,0), (2021,1), and no forecast |
| TopicEvolution.TopicForecast | app/features/topic_evolution.py:204-219 | a forecast exists iff the span is at least five years; then its x values are max, max+1, max+2 and its first y value is the count of the last year, followed by the two predictions |
| TopicEvolution.ForecastAnchorPositive | app/features/topic_evolution.py:215-216 | the forecast is anchored on a count of at least one |
| TopicEvolution.PyPrefix | app/features/topic_evolution.py:265 | `s[:k]` is a prefix of s of length min(k, len(s)) for k >= 0 |
| TopicEvolution.GetReadingList | app/features/topic_evolution.py:252-268 | writes each result's reading score in place and returns the top k by score, re-sorted by date key |
| TopicEvolution.GreaterIsStrictTotalOrder | app/features/topic_evolution.py:265 | the reversed comparison on scores is a strict total order |
| TopicEvolution.ScoredKeepsScore | app/features/topic_evolution.py:262-265 | after scoring, each stored `reading_score` equals the key the sort uses, and scoring leaves the score inputs unchanged |
| TopicEvolution.ReadingListLength | app/features/topic_evolution.py:265 | the reading list holds min(k, n) papers |
| TopicEvolution.ReadingListChronological | app/features/topic_evolution.py:267 | the reading list is ordered by the date key |
| TopicEvolution.PrefixDominates | app/features/topic_evolution.py:265 | in a ranking by descending score, each element of a prefix scores at least as much as each element after it |
| TopicEvolution.ReadingListIsTop | app/features/topic_evolution.py:264-265 | the reading list is, as a multiset, the first min(k, n) of the ranking; the ranking's two parts make up all scored results; no paper left out outscores a listed one |
| TopicEvolution.ReadingScoreTiesKeepRank | app/features/topic_evolution.py:265 | results with equal reading scores keep their similarity order |
| TopicEvolution.ReadingScoreOfSentinel | app/features/topic_evolution.py:263 | a paper with citations "None" scores its full similarity |
| Graph.GraphNodes | app/utils/graph.py:54-67 | one node per result; node i has index i and `nb_citations` equal to the citation count of its citations string |
| Graph.GraphNodesAreSortedResults | app/utils/graph.py:54-67 | the nodes are the results, each once, in date-string order, with equal dates in input order |
| Graph.FirstIndex | app/utils/graph.py:75-76 | `list.index` returns the first position holding the value |
| Graph.GetGraphData | app/utils/graph.py:52-88 | the loop gathers each node's links in node order |
| Graph.PaperLinksExact | app/utils/graph.py:73-81 | a paper's `citations` lists the papers citing it; its links are exactly one per such id that some node carries and that is not "None", running from that citing id's first node (source) to the first node with the paper's own id (target), with strength 10 |
| Graph.PaperLinksDistinctSources | app/utils/graph.py:79 | a paper gets at most one link from any citing paper (the set intersection drops repeats) |
| Graph.GraphLinksExact | app/utils/graph.py:72-81 | l is a link iff some node's `citations` lists a citing id carried by a node, other than "None", and l runs from that citing id's first node (source) to the first node carrying the cited node's id (target) |
| Graph.GraphLinkEndpoints | app/utils/graph.py:75-77 | every link joins two nodes, has strength 10, and starts at a node whose id is not "None" |
| Graph.WidthsIncreasing | app/utils/graph.py:121 | the 16 widths strictly increase |
| Graph.ZipMap | app/utils/graph.py:122 | `dict(zip(keys, vals))` has as keys exactly the keys paired with a value |
| Graph.EdgeWidths | app/utils/graph.py:118-123 | on success there is one width per link |
| Graph.EdgeWidthsByRank | app/utils/graph.py:120-123 | the lookup succeeds iff there are at most 16 distinct strengths; each link then gets the width at its strength's rank |
| Graph.EdgeWidthsMonotone | app/utils/graph.py:120-123 | a stronger link gets a strictly wider arc; equal strengths get equal widths |
| Graph.UniformEdgeWidths | app/utils/graph.py:119-123 | when all strengths are equal, every arc gets width 0.5 |
| Graph.GraphEdgeWidths | app/utils/graph.py:119-123 | the graph's links all get width 0.5 |
| Graph.EdgeTooltips | app/utils/graph.py:161-165 | one tooltip per link, in link order, naming the lower-positioned endpoint first |
| Graph.TooltipUndirected | app/utils/graph.py:162-165 | the tooltip does not depend on the link's direction and is `interactions(first, second)=strength` with the lower position first |

## Left out

- Redis and network I/O is not modelled: connection setup, bulk loading with a concurrency limit, index creation (flat or HNSW, tag fields), and running the search. `Paper.get` is a lookup in a `store` map given as a parameter.
- `execute_user_query` is not part of this model. The category patterns passed to it are modelled (`CategoryFilters`); the call itself and the year-range filter it builds are not.
- Floating point is not modelled: vector distances, similarities and reading scores are exact reals. The text parse `float(vector_score)` is replaced by a `real` field.
- `int(el['year'])` in the topic trend is not modelled: the trend takes the years as integers.
- The damped-trend (Holt) fit is not modelled: its two predicted values are a parameter of `TopicForecast`. The pandas date index built for it is left out too.
- Presentation is not modelled: Plotly and matplotlib figures, node sizes (StandardScaler, clipping), hover texts, month names, the colour bar, axis labels and title truncation, and the Bézier arc geometry (`get_b1`, `dim_plus_1`, `Bezier_curve`, `Rational_Bezier_curve`).
- Streamlit widgets, session state and `st.experimental_memo` caching are not modelled.
- The Semantic Scholar client calls and the files around `process_citation` are not modelled (`get_sch_paper`, `get_citations_df`, `fill_year_column`). They are network access, file I/O and date parsing.
- `src/vectors.py` (embeddings) is not part of this model.
- GetGraphData: within one paper, links are emitted in ascending source order. Python iterates the set intersection in an unspecified order, so the model fixes one of the possible orders; the set of links is stated exactly.
- GetReadingList: the results are an array whose elements are updated in place. This matches the shallow `copy()`, which writes the scores into the caller's dictionaries. The case of one dictionary appearing twice in the list (aliasing) is not modelled.
- AssignListIndex: the same as GetReadingList; two list entries aliasing one dictionary are not modelled.
- ProcessPaper: the record follows the `Paper` model of src/models.py, which none of the modelled files imports. It is used because it declares the fields that `get_graph_data` and `get_reading_list` read. Ingestion (`Paper(**paper)` and `p.save()`, src/redis_db.py:38-41) and `process_paper` both go through the narrower `Paper` class at src/redis_db.py:18-29, which declares no `month`, `sch_id`, `citations` or `influential_citation_count`. So the code as written would neither store nor return those keys. The model assumes they are present.
