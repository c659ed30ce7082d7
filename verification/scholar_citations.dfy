/**
 * Encoding of a paper's citing papers, as returned by the Semantic Scholar
 * client, into the comma-joined string stored with the paper.
 */
module ScholarCitations {
  import opened Wrappers
  import opened PyStrings
  import Records

  /** A `paperId` as the client returns it: a Python `str`, or anything else (None, NaN, ...). */
  datatype SchId = StrId(s: string) | NonStrId

  /** One citing paper as gathered from the client. */
  datatype CitationEntry = CitationEntry(
    schId: SchId,
    arxivId: Option<string>,
    doi: Option<string>,
    influentialCitationCount: Option<int>)

  /** The `sch_id`s that are strings, in their original order. */
  function KeptIds(entries: seq<CitationEntry>): (ids: seq<string>)
    ensures |ids| <= |entries|
    ensures forall id :: id in ids <==> exists i :: 0 <= i < |entries| && entries[i].schId == StrId(id)
  {
    if entries == [] then []
    else
      var rest := KeptIds(entries[1..]);
      assert forall i :: 0 < i < |entries| ==> entries[i] == entries[1..][i - 1];
      match entries[0].schId
      case StrId(s) => [s] + rest
      case NonStrId => rest
  }

  /** Filtering keeps order: the ids of a concatenation are the concatenation of the ids. */
  lemma {:induction false} KeptIdsAppend(a: seq<CitationEntry>, b: seq<CitationEntry>)
    ensures KeptIds(a + b) == KeptIds(a) + KeptIds(b)
  {
    if a != [] {
      KeptIdsAppend(a[1..], b);
      assert (a + b)[1..] == a[1..] + b;
    } else {
      assert a + b == b;
    }
  }

  /** When every `sch_id` is a string, nothing is dropped. */
  lemma {:induction false} KeptIdsAllStrings(entries: seq<CitationEntry>)
    requires forall i :: 0 <= i < |entries| ==> entries[i].schId.StrId?
    ensures KeptIds(entries) == seq(|entries|, i requires 0 <= i < |entries| => entries[i].schId.s)
  {
    if entries != [] {
      KeptIdsAllStrings(entries[1..]);
    }
  }

  /** `process_citation`: None for a missing or empty list, otherwise the kept ids joined by ",". */
  function ProcessCitation(citation: Option<seq<CitationEntry>>): (r: Option<string>)
    ensures r.None? <==> (citation.None? || citation.value == [])
    ensures r.Some? && KeptIds(citation.value) == [] ==> r.value == ""
    ensures r.Some? && |KeptIds(citation.value)| == 1 ==> r.value == KeptIds(citation.value)[0]
  {
    match citation
    case None => None
    case Some(entries) =>
      if entries == [] then None else Some(Join(KeptIds(entries), ","))
  }

  /** Round trip: splitting the stored string on "," gives back the kept ids. */
  lemma ProcessCitationRoundTrip(entries: seq<CitationEntry>)
    requires entries != []
    requires KeptIds(entries) != []
    requires forall i :: 0 <= i < |KeptIds(entries)| ==> ',' !in KeptIds(entries)[i]
    ensures ProcessCitation(Some(entries)).Some?
    ensures Split(ProcessCitation(Some(entries)).value, ',') == KeptIds(entries)
  {
    SplitJoin(KeptIds(entries), ',');
  }

  /** Entries carrying the given ids as string `sch_id`s (only the id matters to the encoding). */
  function EntriesOf(ids: seq<string>): (entries: seq<CitationEntry>)
    ensures |entries| == |ids|
    ensures forall i :: 0 <= i < |ids| ==> entries[i].schId == StrId(ids[i])
  {
    seq(|ids|, i requires 0 <= i < |ids| => CitationEntry(StrId(ids[i]), None, None, None))
  }

  /**
   * The other direction of the round trip: any string is the encoding of the
   * ids that splitting it on "," reads back, and those ids are comma-free.
   */
  lemma ProcessCitationOfSplit(s: string)
    ensures forall i :: 0 <= i < |Split(s, ',')| ==> ',' !in Split(s, ',')[i]
    ensures KeptIds(EntriesOf(Split(s, ','))) == Split(s, ',')
    ensures ProcessCitation(Some(EntriesOf(Split(s, ',')))) == Some(s)
  {
    var ids := Split(s, ',');
    var entries := EntriesOf(ids);
    SplitPiecesFree(s, ',');
    KeptIdsAllStrings(entries);
    assert KeptIds(entries) == ids;
    JoinSplit(s, ',');
  }

  /**
   * What ingestion stores: `astype(str)` turns a None result into the string "None".
   */
  function StoredCitations(r: Option<string>): (s: string)
    ensures r.Some? ==> s == r.value
    ensures r.None? ==> s == "None"
  {
    match r
    case Some(v) => v
    case None => "None"
  }

  /**
   * The citation count later read back from the stored string: the number of
   * kept ids when there is at least one and none contains a comma, and 1 when
   * the list was missing, empty, or held no string id at all.
   */
  lemma StoredCitationCount(citation: Option<seq<CitationEntry>>)
    ensures citation.None? || citation.value == [] ==>
      Records.CitationCount(StoredCitations(ProcessCitation(citation))) == 1
    ensures citation.Some? && citation.value != [] && KeptIds(citation.value) == [] ==>
      Records.CitationCount(StoredCitations(ProcessCitation(citation))) == 1
    ensures citation.Some? && KeptIds(citation.value) != [] &&
            (forall i :: 0 <= i < |KeptIds(citation.value)| ==> ',' !in KeptIds(citation.value)[i]) ==>
      Records.CitationCount(StoredCitations(ProcessCitation(citation))) == |KeptIds(citation.value)|
  {
    Records.CitationCountOfSentinels();
    if citation.Some? && KeptIds(citation.value) != [] &&
       (forall i :: 0 <= i < |KeptIds(citation.value)| ==> ',' !in KeptIds(citation.value)[i]) {
      ProcessCitationRoundTrip(citation.value);
    }
  }
}
