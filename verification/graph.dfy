/**
 * The citation graph of a result set: nodes in date order, one link per
 * citation between two papers of the set, and the arc diagram's edge widths
 * and tooltips.
 */
module Graph {
  import opened Wrappers
  import opened PyStrings
  import opened StableSort
  import opened Records

  /**
   * A node of the graph: the paper fields shown plus its position `index`.
   * `citations` lists the ids of the papers that cite this one.
   */
  datatype Node = Node(
    title: string,
    nbCitations: nat,
    year: string,
    month: string,
    similarityScore: real,
    schId: string,
    citations: string,
    index: nat)

  /** A link from a citing paper (`source`) to the paper it cites (`target`). */
  datatype Link = Link(source: int, target: int, value: int)

  datatype GraphData = GraphData(nodes: seq<Node>, links: seq<Link>)

  /** Every link carries this interaction strength. */
  const LinkValue := 10

  // ---------------------------------------------------------------------------
  // Nodes

  /** The results sorted by the string `year + '-' + month` (a stable sort). */
  function Chronological(results: seq<ResultRecord>): seq<ResultRecord>
  {
    SortBy(results, DateKey, LexLess)
  }

  function NodeOf(r: ResultRecord, i: nat): Node
  {
    Node(r.paper.title, CitationCount(r.paper.citations), r.paper.year, r.paper.month,
         r.similarityScore, r.paper.schId, r.paper.citations, i)
  }

  function NodeDate(n: Node): string
  {
    n.year + "-" + n.month
  }

  /** The node list of `get_graph_data`. */
  function GraphNodes(results: seq<ResultRecord>): (nodes: seq<Node>)
    ensures |nodes| == |results|
    ensures forall i :: 0 <= i < |nodes| ==>
      nodes[i].index == i && nodes[i].nbCitations == CitationCount(nodes[i].citations)
  {
    var sorted := Chronological(results);
    SortByPermutes(results, DateKey, LexLess);
    seq(|sorted|, i requires 0 <= i < |sorted| => NodeOf(sorted[i], i))
  }

  /**
   * The nodes are the results, each once, in date-string order, with results of
   * equal date in their input (similarity) order.
   */
  lemma GraphNodesAreSortedResults(results: seq<ResultRecord>, k: string)
    ensures var nodes := GraphNodes(results);
      && multiset(Chronological(results)) == multiset(results)
      && (forall i :: 0 <= i < |nodes| ==> nodes[i] == NodeOf(Chronological(results)[i], i))
      && (forall i, j :: 0 <= i < j < |nodes| ==> !LexLess(NodeDate(nodes[j]), NodeDate(nodes[i])))
      && WithKey(Chronological(results), DateKey, k) == WithKey(results, DateKey, k)
  {
    SortByPermutes(results, DateKey, LexLess);
    LexLessIsStrictTotalOrder();
    SortBySorted(results, DateKey, LexLess);
    SortByStable(results, DateKey, LexLess, k);
    var nodes := GraphNodes(results);
    var sorted := Chronological(results);
    forall i, j | 0 <= i < j < |nodes|
      ensures !LexLess(NodeDate(nodes[j]), NodeDate(nodes[i]))
    {
      assert NodeDate(nodes[j]) == DateKey(sorted[j]);
      assert NodeDate(nodes[i]) == DateKey(sorted[i]);
    }
  }

  // ---------------------------------------------------------------------------
  // Links

  /** Python `xs.index(x)`: the first position of `x`. */
  function FirstIndex<T(==)>(xs: seq<T>, x: T): (i: nat)
    requires x in xs
    ensures i < |xs| && xs[i] == x
    ensures forall j :: 0 <= j < i ==> xs[j] != x
  {
    if xs[0] == x then 0 else 1 + FirstIndex(xs[1..], x)
  }

  /** The `sch_id` of each node, in node order. */
  function SchIds(nodes: seq<Node>): (ids: seq<string>)
    ensures |ids| == |nodes|
    ensures forall i :: 0 <= i < |nodes| ==> ids[i] == nodes[i].schId
  {
    seq(|nodes|, i requires 0 <= i < |nodes| => nodes[i].schId)
  }

  /**
   * Position `i` is the first occurrence of an id that a paper's citations
   * field lists (a paper citing it) and that is not the "None" sentinel: it
   * stands for one element of `set(sch_ids) & set(citations.split(','))`.
   */
  predicate CitingAt(ids: seq<string>, citers: seq<string>, i: int)
    requires 0 <= i < |ids|
  {
    FirstIndex(ids, ids[i]) == i && ids[i] in citers && ids[i] != "None"
  }

  /** The links into `target` from the citing positions below `n`, in ascending source order. */
  function LinksBelow(ids: seq<string>, citers: seq<string>, target: int, n: nat): seq<Link>
    requires n <= |ids|
  {
    if n == 0 then []
    else LinksBelow(ids, citers, target, n - 1) + (if CitingAt(ids, citers, n - 1) then [Link(n - 1, target, LinkValue)] else [])
  }

  /** The links into one paper: one per distinct citing id present in the graph. */
  function PaperLinks(ids: seq<string>, paper: Node): seq<Link>
    requires paper.schId in ids
  {
    LinksBelow(ids, Split(paper.citations, ','), FirstIndex(ids, paper.schId), |ids|)
  }

  /** The links of the first `n` papers, concatenated in node order. */
  function LinksOf(nodes: seq<Node>, n: nat): seq<Link>
    requires n <= |nodes|
  {
    if n == 0 then []
    else
      var ids := SchIds(nodes);
      assert ids[n - 1] == nodes[n - 1].schId;
      LinksOf(nodes, n - 1) + PaperLinks(ids, nodes[n - 1])
  }

  /** `get_graph_data`: sorts the results into nodes and gathers the links paper by paper. */
  method GetGraphData(results: seq<ResultRecord>) returns (g: GraphData)
    ensures g.nodes == GraphNodes(results)
    ensures g.links == LinksOf(g.nodes, |g.nodes|)
  {
    var nodes := GraphNodes(results);
    var links: seq<Link> := [];
    var ids := SchIds(nodes);
    for i := 0 to |nodes|
      invariant links == LinksOf(nodes, i)
    {
      assert ids[i] == nodes[i].schId;
      assert LinksOf(nodes, i + 1) == LinksOf(nodes, i) + PaperLinks(ids, nodes[i]);
      links := links + PaperLinks(ids, nodes[i]);
    }
    g := GraphData(nodes, links);
  }

  lemma {:induction false} LinksBelowMembers(ids: seq<string>, citers: seq<string>, target: int, n: nat, l: Link)
    requires n <= |ids|
    ensures l in LinksBelow(ids, citers, target, n) <==>
      exists i :: 0 <= i < n && CitingAt(ids, citers, i) && l == Link(i, target, LinkValue)
  {
    if n > 0 {
      LinksBelowMembers(ids, citers, target, n - 1, l);
    }
  }

  lemma {:induction false} LinksBelowAscending(ids: seq<string>, citers: seq<string>, target: int, n: nat)
    requires n <= |ids|
    ensures forall a :: 0 <= a < |LinksBelow(ids, citers, target, n)| ==>
      0 <= LinksBelow(ids, citers, target, n)[a].source < n
    ensures forall a, b :: 0 <= a < b < |LinksBelow(ids, citers, target, n)| ==>
      LinksBelow(ids, citers, target, n)[a].source < LinksBelow(ids, citers, target, n)[b].source
  {
    if n > 0 {
      LinksBelowAscending(ids, citers, target, n - 1);
      var prev := LinksBelow(ids, citers, target, n - 1);
      var ls := LinksBelow(ids, citers, target, n);
      if CitingAt(ids, citers, n - 1) {
        assert ls == prev + [Link(n - 1, target, LinkValue)];
        forall a | 0 <= a < |ls| ensures 0 <= ls[a].source < n
        {
          if a < |prev| { assert ls[a] == prev[a]; }
        }
        forall a, b | 0 <= a < b < |ls| ensures ls[a].source < ls[b].source
        {
          assert ls[a] == prev[a];
          if b < |prev| { assert ls[b] == prev[b]; }
        }
      } else {
        assert ls == prev;
      }
    }
  }

  /**
   * One paper's links, exactly: one link per id in its citations field (a paper
   * citing it) that some node carries and that is not "None"; from that citing
   * id's first node to the first node carrying the cited paper's own id, with
   * strength 10.
   */
  lemma PaperLinksExact(ids: seq<string>, paper: Node, l: Link)
    requires paper.schId in ids
    ensures l in PaperLinks(ids, paper) <==>
      exists c :: c in ids && c in Split(paper.citations, ',') && c != "None" &&
        l == Link(FirstIndex(ids, c), FirstIndex(ids, paper.schId), LinkValue)
  {
    var citers := Split(paper.citations, ',');
    var t := FirstIndex(ids, paper.schId);
    LinksBelowMembers(ids, citers, t, |ids|, l);
    if c :| c in ids && c in citers && c != "None" && l == Link(FirstIndex(ids, c), t, LinkValue) {
      var i := FirstIndex(ids, c);
      assert CitingAt(ids, citers, i);
    }
  }

  /** A paper never gets two links from the same citing paper: the sources ascend strictly. */
  lemma PaperLinksDistinctSources(ids: seq<string>, paper: Node)
    requires paper.schId in ids
    ensures var ls := PaperLinks(ids, paper);
      forall a, b :: 0 <= a < b < |ls| ==> ls[a].source < ls[b].source
  {
    LinksBelowAscending(ids, Split(paper.citations, ','), FirstIndex(ids, paper.schId), |ids|);
  }

  lemma {:induction false} LinksOfMembers(nodes: seq<Node>, n: nat, l: Link)
    requires n <= |nodes|
    ensures l in LinksOf(nodes, n) <==>
      exists i :: 0 <= i < n && nodes[i].schId in SchIds(nodes) && l in PaperLinks(SchIds(nodes), nodes[i])
  {
    if n > 0 {
      LinksOfMembers(nodes, n - 1, l);
      assert SchIds(nodes)[n - 1] == nodes[n - 1].schId;
    }
  }

  /**
   * The graph's links, exactly: `l` is a link iff the citations field of some
   * node `i` lists an id `c` carried by a node, other than "None", and `l` runs
   * from the first node carrying `c` (the citing paper) to the first node
   * carrying node `i`'s id (the cited paper, so `target <= i`).
   */
  lemma GraphLinksExact(nodes: seq<Node>, l: Link)
    ensures var ids := SchIds(nodes);
      l in LinksOf(nodes, |nodes|) <==>
        exists i, c :: 0 <= i < |nodes| && c in ids && c in Split(nodes[i].citations, ',') && c != "None" &&
          l == Link(FirstIndex(ids, c), FirstIndex(ids, nodes[i].schId), LinkValue)
  {
    var ids := SchIds(nodes);
    LinksOfMembers(nodes, |nodes|, l);
    if l in LinksOf(nodes, |nodes|) {
      var i :| 0 <= i < |nodes| && nodes[i].schId in ids && l in PaperLinks(ids, nodes[i]);
      PaperLinksExact(ids, nodes[i], l);
    }
    if exists i, c :: 0 <= i < |nodes| && c in ids && c in Split(nodes[i].citations, ',') && c != "None" &&
          l == Link(FirstIndex(ids, c), FirstIndex(ids, nodes[i].schId), LinkValue) {
      var i, c :| 0 <= i < |nodes| && c in ids && c in Split(nodes[i].citations, ',') && c != "None" &&
          l == Link(FirstIndex(ids, c), FirstIndex(ids, nodes[i].schId), LinkValue);
      assert ids[i] == nodes[i].schId;
      PaperLinksExact(ids, nodes[i], l);
    }
  }

  /**
   * Every link joins two nodes of the graph with strength 10; its source node
   * (the citing paper) carries a real id, never "None", and its target is the
   * first node carrying the cited paper's id.
   */
  lemma GraphLinkEndpoints(nodes: seq<Node>, l: Link)
    requires l in LinksOf(nodes, |nodes|)
    ensures 0 <= l.source < |nodes| && 0 <= l.target < |nodes| && l.value == LinkValue
    ensures nodes[l.source].schId != "None"
    ensures nodes[l.target].schId == nodes[l.source].schId ==> l.source == l.target
  {
    GraphLinksExact(nodes, l);
    var ids := SchIds(nodes);
    var i, c :| 0 <= i < |nodes| && c in ids && c in Split(nodes[i].citations, ',') && c != "None" &&
      l == Link(FirstIndex(ids, c), FirstIndex(ids, nodes[i].schId), LinkValue);
    assert ids[i] == nodes[i].schId;
  }

  // ---------------------------------------------------------------------------
  // Edge widths

  /** The arc widths, thinnest first, assigned by rank of interaction strength. */
  function Widths(): (w: seq<real>)
    ensures |w| == 16
  {
    seq(5, k => 0.5 + k as real * 0.25) + seq(4, k => 2.0 + k as real * 0.25) + [3.0, 3.25, 3.75, 4.25, 5.0, 5.25, 7.0]
  }

  /** A stronger rank gets a strictly wider arc. */
  lemma WidthsIncreasing()
    ensures forall i, j :: 0 <= i < j < |Widths()| ==> Widths()[i] < Widths()[j]
  {
    var w := Widths();
    assert w == [0.5, 0.75, 1.0, 1.25, 1.5, 2.0, 2.25, 2.5, 2.75, 3.0, 3.25, 3.75, 4.25, 5.0, 5.25, 7.0];
    forall i | 0 <= i < |w| - 1 ensures w[i] < w[i + 1] { }
    forall i, j | 0 <= i < j < |w| ensures w[i] < w[j]
    {
      AscendingChain(w, i, j);
    }
  }

  lemma {:induction false} AscendingChain(w: seq<real>, i: nat, j: nat)
    requires forall k :: 0 <= k < |w| - 1 ==> w[k] < w[k + 1]
    requires i < j < |w|
    ensures w[i] < w[j]
    decreases j - i
  {
    if i + 1 < j {
      AscendingChain(w, i + 1, j);
    }
  }

  /** `dict(zip(keys, vals))`: pairs up to the shorter length, a later key overriding. */
  function ZipMap(keys: seq<int>, vals: seq<real>): (m: map<int, real>)
    ensures forall k :: k in m <==> exists i :: 0 <= i < |keys| && i < |vals| && keys[i] == k
    decreases |keys|
  {
    var n := if |keys| < |vals| then |keys| else |vals|;
    if n == 0 then map[]
    else
      var m := ZipMap(keys[..n - 1], vals[..n - 1]);
      assert forall i :: 0 <= i < n - 1 ==> keys[..n - 1][i] == keys[i];
      m[keys[n - 1] := vals[n - 1]]
  }

  lemma {:induction false} ZipMapDistinct(keys: seq<int>, vals: seq<real>, i: nat)
    requires Increasing(keys)
    requires i < |keys| && i < |vals|
    ensures keys[i] in ZipMap(keys, vals) && ZipMap(keys, vals)[keys[i]] == vals[i]
    decreases |keys|
  {
    var n := if |keys| < |vals| then |keys| else |vals|;
    if i < n - 1 {
      ZipMapDistinct(keys[..n - 1], vals[..n - 1], i);
    }
  }

  /**
   * The arc width of each link, `[d[val] for val in interact_strength]` with
   * `d = dict(zip(sorted(set(strengths)), widths))`; a strength outside `d`
   * (more than 16 distinct strengths) raises KeyError.
   */
  function EdgeWidths(strengths: seq<int>): (w: Option<seq<real>>)
    ensures w.Some? ==> |w.value| == |strengths|
  {
    var d := ZipMap(SortedDistinct(strengths), Widths());
    if forall v :: v in strengths ==> v in d then
      Some(seq(|strengths|, i requires 0 <= i < |strengths| => d[strengths[i]]))
    else None
  }

  /**
   * Widths go by rank: the lookup succeeds iff there are at most 16 distinct
   * strengths, and then each link gets the width of its strength's rank among them.
   */
  lemma EdgeWidthsByRank(strengths: seq<int>)
    ensures var keys := SortedDistinct(strengths);
      var w := EdgeWidths(strengths);
      && (w.Some? <==> |keys| <= 16)
      && (w.Some? ==> forall i :: 0 <= i < |strengths| ==>
            strengths[i] in keys && FirstIndex(keys, strengths[i]) < 16 &&
            w.value[i] == Widths()[FirstIndex(keys, strengths[i])])
  {
    var keys := SortedDistinct(strengths);
    var d := ZipMap(keys, Widths());
    if |keys| <= 16 {
      forall v | v in strengths
        ensures v in d && d[v] == Widths()[FirstIndex(keys, v)]
      {
        ZipMapDistinct(keys, Widths(), FirstIndex(keys, v));
      }
    } else {
      var v := keys[16];
      assert v in strengths;
      assert forall i :: 0 <= i < 16 ==> keys[i] < v;
      assert v !in d;
    }
  }

  /** In a strictly increasing sequence, a smaller element has a smaller position. */
  lemma RankAscending(keys: seq<int>, x: int, y: int)
    requires Increasing(keys) && x in keys && y in keys && x < y
    ensures FirstIndex(keys, x) < FirstIndex(keys, y)
  {
    var a, b := FirstIndex(keys, x), FirstIndex(keys, y);
    assert keys[a] == x && keys[b] == y;
  }

  /** A stronger interaction never gets a thinner arc, and equal strengths get equal widths. */
  lemma EdgeWidthsMonotone(strengths: seq<int>, i: nat, j: nat)
    requires EdgeWidths(strengths).Some?
    requires i < |strengths| && j < |strengths|
    ensures strengths[i] < strengths[j] ==> EdgeWidths(strengths).value[i] < EdgeWidths(strengths).value[j]
    ensures strengths[i] == strengths[j] ==> EdgeWidths(strengths).value[i] == EdgeWidths(strengths).value[j]
  {
    EdgeWidthsByRank(strengths);
    var keys := SortedDistinct(strengths);
    var w := EdgeWidths(strengths).value;
    var a, b := FirstIndex(keys, strengths[i]), FirstIndex(keys, strengths[j]);
    assert w[i] == Widths()[a] && w[j] == Widths()[b];
    if strengths[i] < strengths[j] {
      RankAscending(keys, strengths[i], strengths[j]);
      WidthsIncreasing();
      assert Widths()[a] < Widths()[b];
    }
  }

  /** When every link has the same strength, every arc gets the thinnest width. */
  lemma UniformEdgeWidths(strengths: seq<int>, v: int)
    requires forall i :: 0 <= i < |strengths| ==> strengths[i] == v
    ensures EdgeWidths(strengths) == Some(seq(|strengths|, _ => 0.5))
  {
    EdgeWidthsByRank(strengths);
    var keys := SortedDistinct(strengths);
    if |strengths| > 0 {
      forall y
        ensures y in keys <==> y in [v]
      {
        if y == v { assert strengths[0] == y; }
      }
      IncreasingUnique(keys, [v]);
      assert FirstIndex(keys, v) == 0;
      var w := EdgeWidths(strengths).value;
      assert Widths()[0] == 0.5;
      assert forall i :: 0 <= i < |strengths| ==> w[i] == Widths()[0];
      assert w == seq(|strengths|, _ => 0.5);
    } else {
      assert |keys| == 0;
      assert |EdgeWidths(strengths).value| == 0;
      assert seq(|strengths|, _ => 0.5) == [];
    }
  }

  /** Every link of the graph has strength 10, so every arc gets the thinnest width. */
  lemma GraphEdgeWidths(nodes: seq<Node>)
    ensures var links := LinksOf(nodes, |nodes|);
      var strengths := seq(|links|, i requires 0 <= i < |links| => links[i].value);
      EdgeWidths(strengths) == Some(seq(|links|, _ => 0.5))
  {
    var links := LinksOf(nodes, |nodes|);
    var strengths := seq(|links|, i requires 0 <= i < |links| => links[i].value);
    forall i | 0 <= i < |links| ensures strengths[i] == LinkValue
    {
      GraphLinkEndpoints(nodes, links[i]);
    }
    UniformEdgeWidths(strengths, LinkValue);
  }

  // ---------------------------------------------------------------------------
  // Tooltips

  /** The hover text of an arc between two papers. */
  function TooltipText(first: string, second: string, strength: int): string
  {
    Concat(["interactions(", first, ", ", second, ")=", IntToString(strength)])
  }

  /** The tooltip of one link: the label of the lower-positioned endpoint comes first. */
  function Tooltip(labels: seq<string>, l: Link): string
    requires 0 <= l.source < |labels| && 0 <= l.target < |labels|
  {
    if l.source < l.target then TooltipText(labels[l.source], labels[l.target], l.value)
    else TooltipText(labels[l.target], labels[l.source], l.value)
  }

  /** The tooltip loop of `get_arc_graph`, one text per link in link order. */
  method EdgeTooltips(labels: seq<string>, links: seq<Link>) returns (tooltips: seq<string>)
    requires forall l :: l in links ==> 0 <= l.source < |labels| && 0 <= l.target < |labels|
    ensures |tooltips| == |links|
    ensures forall i :: 0 <= i < |links| ==> tooltips[i] == Tooltip(labels, links[i])
  {
    tooltips := [];
    for i := 0 to |links|
      invariant |tooltips| == i
      invariant forall m :: 0 <= m < i ==> tooltips[m] == Tooltip(labels, links[m])
    {
      var j, k := links[i].source, links[i].target;
      assert links[i] in links;
      var tip: string;
      if j < k {
        tip := TooltipText(labels[j], labels[k], links[i].value);
      } else {
        tip := TooltipText(labels[k], labels[j], links[i].value);
      }
      assert tip == Tooltip(labels, links[i]);
      var next := tooltips + [tip];
      forall m | 0 <= m < i + 1
        ensures next[m] == Tooltip(labels, links[m])
      {
        if m < i {
          assert next[m] == tooltips[m];
        }
      }
      tooltips := next;
    }
  }

  /**
   * A tooltip does not depend on the link's direction: it names the two papers
   * in axis order (the lower position first) and then the strength.
   */
  lemma TooltipUndirected(labels: seq<string>, j: int, k: int, v: int)
    requires 0 <= j < |labels| && 0 <= k < |labels|
    ensures Tooltip(labels, Link(j, k, v)) == Tooltip(labels, Link(k, j, v))
    ensures Tooltip(labels, Link(j, k, v)) ==
      TooltipText(labels[if j < k then j else k], labels[if j < k then k else j], v)
  {
  }
}
