/**
 * The query side of the Redis store client: the key under which a paper's
 * vector hash lives, the tag filter and hybrid KNN query sent to RediSearch,
 * and the turning of search hits into result records.
 */
module RedisDb {
  import opened Wrappers
  import opened PyStrings
  import opened Records

  /** Prefix of every vector hash; the index is scoped to it. */
  const VectorKeyPrefix: string := "paper_vector:"

  /** The key of a paper's vector hash, used both when writing and when looking a paper up by id. */
  function VectorKey(id: string): (key: string)
    ensures |key| == |VectorKeyPrefix| + |id|
    ensures key[..|VectorKeyPrefix|] == VectorKeyPrefix
    ensures key[|VectorKeyPrefix|..] == id
  {
    VectorKeyPrefix + id
  }

  /** Distinct ids never share a vector key. */
  lemma VectorKeyInjective(a: string, b: string)
    ensures VectorKey(a) == VectorKey(b) <==> a == b
  {
    if VectorKey(a) == VectorKey(b) {
      assert a == VectorKey(a)[|VectorKeyPrefix|..];
    }
  }

  /** The only tag fields of the index; any other key of a tag dict is ignored. */
  const TagFields: seq<string> :=
    ["submitter", "authors", "doi", "categories", "year", "versions", "license", "update_date"]

  /** A Python tag dict, as its (name, values) items in iteration order. */
  type TagDict = seq<(string, seq<string>)>

  /** One tag predicate: `@name:{v1 | v2 | ...}`, values inserted verbatim. */
  function Clause(name: string, values: seq<string>): string
  {
    "@" + name + ":{" + Join(values, " | ") + "}"
  }

  /** What one item adds: its clause when its name is a tag field, nothing otherwise. */
  function ItemClause(item: (string, seq<string>)): string
  {
    if item.0 in TagFields then Clause(item.0, item.1) else ""
  }

  /** Each item's contribution, in dict order. */
  function ItemClauses(d: TagDict): (cs: seq<string>)
    ensures |cs| == |d|
  {
    seq(|d|, i requires 0 <= i < |d| => ItemClause(d[i]))
  }

  /** The clauses of the allowed items, in dict order, concatenated without separator. */
  function Clauses(d: TagDict): string
  {
    Concat(ItemClauses(d))
  }

  /** What `format_tags` returns: the clauses in parentheses. */
  function FormattedTags(d: TagDict): string
  {
    "(" + Clauses(d) + ")"
  }

  /** `format_tags`: appends one clause per allowed item, then wraps the whole in parentheses. */
  method FormatTags(d: TagDict) returns (tags: string)
    ensures tags == FormattedTags(d)
  {
    var acc := "";
    var i := 0;
    while i < |d|
      invariant 0 <= i <= |d|
      invariant acc == Clauses(d[..i])
    {
      var (name, values) := d[i];
      var clause := "";
      if name in TagFields {
        clause := "@" + name + ":{" + Join(values, " | ") + "}";
      }
      ClausesAppend(d[..i], [d[i]]);
      assert d[..i + 1] == d[..i] + [d[i]];
      assert Clauses([d[i]]) == clause by {
        assert clause == ItemClause(d[i]);
        assert ItemClauses([d[i]]) == [clause];
        assert Concat([clause]) == clause + Concat([]);
      }
      acc := acc + clause;
      i := i + 1;
    }
    assert d[..|d|] == d;
    tags := "(" + acc + ")";
  }

  /** Clauses of a concatenation are the concatenation of the clauses: order is kept. */
  lemma ClausesAppend(d1: TagDict, d2: TagDict)
    ensures Clauses(d1 + d2) == Clauses(d1) + Clauses(d2)
  {
    assert ItemClauses(d1 + d2) == ItemClauses(d1) + ItemClauses(d2);
    ConcatAppend(ItemClauses(d1), ItemClauses(d2));
  }

  /** An item whose name is not a tag field changes nothing. */
  lemma FormattedTagsIgnoresUnknown(d1: TagDict, name: string, values: seq<string>, d2: TagDict)
    requires name !in TagFields
    ensures FormattedTags(d1 + [(name, values)] + d2) == FormattedTags(d1 + d2)
  {
    ClausesAppend(d1 + [(name, values)], d2);
    ClausesAppend(d1, [(name, values)]);
    ClausesAppend(d1, d2);
    assert ItemClauses([(name, values)]) == [""];
    assert Concat([""]) == "";
  }

  /** An allowed item contributes exactly its clause, in place, between its neighbours' clauses. */
  lemma ClausesAllowedItem(d1: TagDict, name: string, values: seq<string>, d2: TagDict)
    requires name in TagFields
    ensures Clauses(d1 + [(name, values)] + d2) == Clauses(d1) + Clause(name, values) + Clauses(d2)
  {
    ClausesAppend(d1 + [(name, values)], d2);
    ClausesAppend(d1, [(name, values)]);
    var c := Clause(name, values);
    assert ItemClauses([(name, values)]) == [c];
    assert Concat([c]) == c + "";
  }

  /** A dict with no allowed key formats as "()". */
  lemma {:induction false} FormattedTagsNoAllowedKey(d: TagDict)
    requires forall i :: 0 <= i < |d| ==> d[i].0 !in TagFields
    ensures FormattedTags(d) == "()"
  {
    if d != [] {
      FormattedTagsNoAllowedKey(d[1..]);
      ClausesAppend([d[0]], d[1..]);
      assert [d[0]] + d[1..] == d;
      assert ItemClauses([d[0]]) == [""];
      assert Concat([""]) == "";
    }
  }

  /** The filter part of the query: "*" for a None or empty dict, the formatted tags otherwise. */
  function FilterPart(tagDict: Option<TagDict>): (f: string)
    ensures f == "*" <==> tagDict.None? || tagDict.value == []
    ensures f != "*" ==> f == FormattedTags(tagDict.value)
  {
    if tagDict.None? || tagDict.value == [] then "*" else FormattedTags(tagDict.value)
  }

  /** A RediSearch query as the builder chain leaves it. */
  datatype Query = Query(
    queryString: string,
    sortBy: string,
    offset: int,
    limit: int,
    returnFields: seq<string>,
    dialect: int)

  /** The text after the filter part of every hybrid query. */
  const KnnTail: string := " @vector $vec_param AS vector_score]"

  /** `create_query`: the hybrid KNN query with its paging, sort, return fields and dialect. */
  function CreateQuery(tagDict: Option<TagDict>, searchType: string, numberOfResults: int): (q: Query)
    ensures q.queryString ==
      FilterPart(tagDict) + "=>[" + searchType + " " + IntToString(numberOfResults) + KnnTail
    ensures q.sortBy == "vector_score"
    ensures q.offset == 0 && q.limit == numberOfResults
    ensures q.returnFields == ["id", "paper_pk", "vector_score"]
    ensures q.dialect == 2
  {
    var tags := if tagDict.None? || tagDict.value == [] then "*" else FormattedTags(tagDict.value);
    Query(tags + "=>[" + searchType + " " + IntToString(numberOfResults) + " @vector $vec_param AS vector_score]",
          "vector_score", 0, numberOfResults, ["id", "paper_pk", "vector_score"], 2)
  }

  /** The KNN count written in the query reads back as the page size. */
  lemma KnnCountMatchesLimit(tagDict: Option<TagDict>, searchType: string, n: nat)
    ensures var q := CreateQuery(tagDict, searchType, n);
      exists digits: string ::
        && IsDigits(digits)
        && q.queryString == FilterPart(tagDict) + "=>[" + searchType + " " + digits + KnnTail
        && DecimalValue(digits) == q.limit
  {
    DecimalValueOfNatToString(n);
    var digits := NatToString(n);
    assert IntToString(n) == digits;
  }

  // FifteenText, DefaultQueryHead and DefaultQueryGlue are steps of DefaultQuery
  // below, split out only so that each literal equality stays cheap to check.

  /** The text of the count 15. */
  lemma FifteenText()
    ensures IntToString(15) == "15"
  {
    assert NatToString(15) == NatToString(1) + [DigitChar(5)];
  }

  /** The head of the default query text. */
  lemma DefaultQueryHead()
    ensures "*" + "=>[" + "KNN" + " " + "15" == "*=>[KNN 15"
  {
  }

  /** The default query text: its head followed by the vector clause. */
  lemma DefaultQueryGlue()
    ensures "*=>[KNN 15" + " @vector $vec_param AS vector_score]" == "*=>[KNN 15 @vector $vec_param AS vector_score]"
  {
  }

  /** The query built with every default argument. */
  lemma DefaultQuery()
    ensures CreateQuery(None, "KNN", 15).queryString == "*=>[KNN 15 @vector $vec_param AS vector_score]"
  {
    FifteenText();
    DefaultQueryHead();
    DefaultQueryGlue();
  }

  /** One search hit: the fields the query returns. `vectorScore` is the distance. */
  datatype Doc = Doc(id: string, paperPk: string, vectorScore: real)

  /** `Paper.get` raising NotFoundError for a primary key with no stored paper. */
  datatype FetchError = NotFound(pk: string)

  /** `process_paper`: fetch the stored paper and add `similarity_score = 1 - vector_score`. */
  function ProcessPaper(doc: Doc, store: map<string, Paper>): (r: Result<ResultRecord, FetchError>)
    ensures r.Success? <==> doc.paperPk in store
    ensures r.Success? ==> r.value.paper == store[doc.paperPk]
    ensures r.Success? ==> r.value.similarityScore + doc.vectorScore == 1.0
    ensures r.Success? ==> r.value.listIndex.None? && r.value.readingScore.None?
    ensures r.Failure? ==> r.error == NotFound(doc.paperPk)
  {
    if doc.paperPk in store then Success(ResultRecord(store[doc.paperPk], 1.0 - doc.vectorScore, None, None))
    else Failure(NotFound(doc.paperPk))
  }

  /**
   * `papers_from_results`: the hits processed one after the other, in hit
   * order; the first missing paper aborts with its error.
   */
  function PapersFromResults(docs: seq<Doc>, store: map<string, Paper>): (r: Result<seq<ResultRecord>, FetchError>)
    ensures r.Success? <==> forall i :: 0 <= i < |docs| ==> docs[i].paperPk in store
    ensures r.Success? ==> |r.value| == |docs|
    ensures r.Success? ==> forall i :: 0 <= i < |docs| ==>
      r.value[i].paper == store[docs[i].paperPk] && r.value[i].similarityScore == 1.0 - docs[i].vectorScore
    ensures r.Success? ==> forall i :: 0 <= i < |docs| ==>
      ProcessPaper(docs[i], store) == Success(r.value[i]) &&
      r.value[i].listIndex.None? && r.value[i].readingScore.None?
    ensures r.Failure? ==> exists i :: (0 <= i < |docs| && docs[i].paperPk !in store &&
      r.error == NotFound(docs[i].paperPk) &&
      forall j :: 0 <= j < i ==> docs[j].paperPk in store)
  {
    if docs == [] then Success([])
    else
      match ProcessPaper(docs[0], store)
      case Failure(e) => Failure(e)
      case Success(p) =>
        match PapersFromResults(docs[1..], store)
        case Failure(e) =>
          assert forall i :: 0 < i < |docs| ==> docs[i] == docs[1..][i - 1];
          var k :| 0 <= k < |docs[1..]| && docs[1..][k].paperPk !in store && e == NotFound(docs[1..][k].paperPk) &&
            forall j :: 0 <= j < k ==> docs[1..][j].paperPk in store;
          assert forall j :: 0 <= j < k + 1 ==> docs[j].paperPk in store by {
            forall j | 0 <= j < k + 1 ensures docs[j].paperPk in store {
              if j > 0 { assert docs[j] == docs[1..][j - 1]; }
            }
          }
          Failure(e)
        case Success(ps) =>
          assert forall i :: 0 < i < |docs| ==> docs[i] == docs[1..][i - 1];
          Success([p] + ps)
  }

  /** Hits come ordered by ascending distance, so results come by descending similarity. */
  lemma SimilarityDescends(docs: seq<Doc>, store: map<string, Paper>)
    requires forall i, j :: 0 <= i < j < |docs| ==> docs[i].vectorScore <= docs[j].vectorScore
    requires PapersFromResults(docs, store).Success?
    ensures var rs := PapersFromResults(docs, store).value;
      forall i, j :: 0 <= i < j < |rs| ==> rs[i].similarityScore >= rs[j].similarityScore
  {
  }
}
