/**
 * The records the query engine works on. A stored paper holds only strings
 * (the ingestion step converts every column but the vector to `str`); a
 * result record is a fetched paper plus the keys the post-processing adds.
 */
module Records {
  import opened Wrappers
  import opened PyStrings
  import opened StableSort

  /**
   * A paper with the fields of the `Paper` model in src/models.py, every one a
   * string: the fields that the graph and the reading list read. Ingestion and
   * lookup both go through a narrower `Paper` class (src/redis_db.py:18-29)
   * that lacks `month`, `sch_id`, `citations` and `influential_citation_count`.
   * The vector index covers separate `paper_vector:` hashes; a hit's
   * `paper_pk` names one of these papers.
   */
  datatype Paper = Paper(
    pk: string,
    id: string,
    submitter: string,
    authors: string,
    doi: string,
    categories: string,
    year: string,
    month: string,
    versions: string,
    license: string,
    updateDate: string,
    title: string,
    paperAbstract: string,
    schId: string,
    citations: string,
    influentialCitationCount: string)

  /**
   * A search result: the paper's fields, `similarity_score`, and the keys that
   * are added later, `list_index` and `reading_score` (absent until then).
   */
  datatype ResultRecord = ResultRecord(
    paper: Paper,
    similarityScore: real,
    listIndex: Option<int>,
    readingScore: Option<real>)

  /** The sort key `year + '-' + month`, a string. */
  function DateKey(r: ResultRecord): string
  {
    r.paper.year + "-" + r.paper.month
  }

  /** String comparison is a strict total order, so sorting on date keys is well defined. */
  lemma LexLessIsStrictTotalOrder()
    ensures StrictTotalOrder(LexLess)
  {
    forall a | true ensures !LexLess(a, a) { LexLessIrreflexive(a); }
    forall a, b, c | LexLess(a, b) && LexLess(b, c) ensures LexLess(a, c) { LexLessTransitive(a, b, c); }
    forall a, b ensures a == b || LexLess(a, b) || LexLess(b, a) { LexLessTotal(a, b); }
  }

  /** `len(citations.split(','))`: every piece counts, empty and "None" ones included. */
  function CitationCount(citations: string): (n: nat)
    ensures n >= 1
  {
    |Split(citations, ',')|
  }

  /** The citation count is one more than the number of commas. */
  lemma CitationCountIsCommasPlusOne(citations: string)
    ensures CitationCount(citations) == Occurrences(citations, ',') + 1
  {
    SplitLength(citations, ',');
  }

  /** The sentinel "None" and the empty string both count as one citation. */
  lemma CitationCountOfSentinels()
    ensures CitationCount("None") == 1
    ensures CitationCount("") == 1
  {
    SplitNoSeparator("None", ',');
  }

  /** Dates compare as strings: October 2020 sorts before February 2020. */
  lemma DateKeysCompareAsStrings(p: Paper, q: Paper)
    requires p.year == "2020" && p.month == "10"
    requires q.year == "2020" && q.month == "2"
    ensures LexLess(DateKey(ResultRecord(p, 0.0, None, None)), DateKey(ResultRecord(q, 0.0, None, None)))
  {
    assert DateKey(ResultRecord(p, 0.0, None, None)) == "2020-10";
    assert DateKey(ResultRecord(q, 0.0, None, None)) == "2020-2";
    assert LexLess("10", "2");
    assert LexLess("-10", "-2");
    assert LexLess("0-10", "0-2");
    assert LexLess("20-10", "20-2");
    assert LexLess("020-10", "020-2");
  }
}
