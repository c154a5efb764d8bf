/**
  The grouping loop of mediastreamer2/tools/filters_graph.py: link lines of a log collected
  into clusters and clusters into graphs. A line is what the two regular expressions make of it.
 */
module LinkGrouping {
  import opened Lists

  datatype Line<T> = Link(link: T) | Unlink | Other

  /** The three lists of the loop. */
  datatype Groups<T> = Groups(graphs: seq<seq<seq<T>>>, clusters: seq<seq<T>>, links: seq<T>)

  function PushIfAny<T>(list: seq<seq<T>>, item: seq<T>): seq<seq<T>> {
    if item == [] then list else list + [item]
  }

  /** One line. */
  function Feed<T>(g: Groups<T>, line: Line<T>): Groups<T> {
    match line
    case Link(l) => g.(links := g.links + [l])
    case Other => Groups(g.graphs, PushIfAny(g.clusters, g.links), [])
    case Unlink => Groups(PushIfAny(g.graphs, PushIfAny(g.clusters, g.links)), [], [])
  }

  function FeedAll<T>(lines: seq<Line<T>>, n: nat): Groups<T>
    requires n <= |lines|
  {
    if n == 0 then Groups([], [], []) else Feed(FeedAll(lines, n - 1), lines[n - 1])
  }

  /** The graphs at the end of the log; links of an unfinished cluster are dropped. */
  function Graphs<T>(lines: seq<Line<T>>): seq<seq<seq<T>>> {
    var g := FeedAll(lines, |lines|);
    PushIfAny(g.graphs, g.clusters)
  }

  method GroupLinks<T(==)>(lines: seq<Line<T>>) returns (graphs: seq<seq<seq<T>>>)
    ensures graphs == Graphs(lines)
    ensures Faithful(lines, LabelGraphs(graphs), KeptPositions(lines)) && NoEmpty(graphs)
  {
    hide Faithful, NoEmpty, KeptPositions, LabelGraphs;
    GraphsAreFaithful(lines);
    GraphsNotEmpty(lines);
    graphs := [];
    var clusters: seq<seq<T>>, links: seq<T> := [], [];
    for n := 0 to |lines|
      invariant Groups(graphs, clusters, links) == FeedAll(lines, n)
    {
      var line := lines[n];
      if line.Unlink? {
        if links != [] {
          clusters := clusters + [links];
        }
        if clusters != [] {
          graphs := graphs + [clusters];
        }
        links, clusters := [], [];
      }
      if line.Link? {
        links := links + [line.link];
      } else {
        if links != [] {
          clusters := clusters + [links];
          links := [];
        }
      }
    }
    if clusters != [] {
      graphs := graphs + [clusters];
    }
  }

  // ---------- Links with their graph and cluster numbers ----------

  datatype Entry<T> = Entry(graph: nat, cluster: nat, link: T)

  function LabelLinks<T>(graph: nat, cluster: nat, links: seq<T>): (e: seq<Entry<T>>)
    ensures |e| == |links|
  {
    seq(|links|, k requires 0 <= k < |links| => Entry(graph, cluster, links[k]))
  }

  function LabelClusters<T>(graph: nat, clusters: seq<seq<T>>): (e: seq<Entry<T>>)
    ensures forall i :: 0 <= i < |e| ==> e[i].graph == graph && e[i].cluster < |clusters|
  {
    if clusters == [] then []
    else
      var last := |clusters| - 1;
      LabelClusters(graph, clusters[..last]) + LabelLinks(graph, last, clusters[last])
  }

  /** Every link of the graphs in output order. */
  function LabelGraphs<T>(graphs: seq<seq<seq<T>>>): (e: seq<Entry<T>>)
    ensures forall i :: 0 <= i < |e| ==> e[i].graph < |graphs|
  {
    if graphs == [] then []
    else
      var last := |graphs| - 1;
      LabelGraphs(graphs[..last]) + LabelClusters(last, graphs[last])
  }

  function Entries<T>(g: Groups<T>): seq<Entry<T>> {
    LabelGraphs(g.graphs) + LabelClusters(|g.graphs|, g.clusters)
    + LabelLinks(|g.graphs|, |g.clusters|, g.links)
  }

  lemma LabelPushCluster<T>(graph: nat, clusters: seq<seq<T>>, links: seq<T>)
    ensures LabelClusters(graph, PushIfAny(clusters, links))
            == LabelClusters(graph, clusters) + LabelLinks(graph, |clusters|, links)
  {
    if links != [] { assert (clusters + [links])[..|clusters|] == clusters; }
  }

  lemma LabelPushGraph<T>(graphs: seq<seq<seq<T>>>, clusters: seq<seq<T>>)
    ensures LabelGraphs(PushIfAny(graphs, clusters)) == LabelGraphs(graphs) + LabelClusters(|graphs|, clusters)
  {
    if clusters != [] { assert (graphs + [clusters])[..|graphs|] == graphs; }
  }

  lemma LabelNothing<T>(graph: nat, cluster: nat)
    ensures LabelLinks<T>(graph, cluster, []) == [] && LabelClusters<T>(graph, []) == []
  {
  }

  lemma LabelOneMore<T>(graph: nat, cluster: nat, links: seq<T>, l: T)
    ensures LabelLinks(graph, cluster, links + [l]) == LabelLinks(graph, cluster, links) + [Entry(graph, cluster, l)]
  {
  }

  /** Closing a cluster or a graph renumbers nothing; only a link line adds an entry, at the open place. */
  lemma EntriesStep<T>(g: Groups<T>, line: Line<T>)
    ensures Entries(Feed(g, line))
            == Entries(g) + (if line.Link? then [Entry(|g.graphs|, |g.clusters|, line.link)] else [])
  {
    hide LabelGraphs, LabelClusters, LabelLinks, PushIfAny;
    var graphs, clusters := LabelGraphs(g.graphs), LabelClusters(|g.graphs|, g.clusters);
    var links := LabelLinks(|g.graphs|, |g.clusters|, g.links);
    AppendNothing(Entries(g));
    match line
    case Link(l) =>
      LabelOneMore(|g.graphs|, |g.clusters|, g.links, l);
      Regroup(graphs + clusters, links, [Entry(|g.graphs|, |g.clusters|, l)]);
    case Other =>
      LabelPushCluster(|g.graphs|, g.clusters, g.links);
      LabelNothing<T>(|g.graphs|, |PushIfAny(g.clusters, g.links)|);
      Regroup(graphs, clusters, links);
      AppendNothing(graphs + (clusters + links));
    case Unlink =>
      var closed := PushIfAny(g.clusters, g.links);
      LabelPushCluster(|g.graphs|, g.clusters, g.links);
      LabelPushGraph(g.graphs, closed);
      LabelNothing<T>(|PushIfAny(g.graphs, closed)|, 0);
      Regroup(graphs, clusters, links);
      AppendNothing(graphs + (clusters + links));
  }

  // ---------- Lines ----------

  /** Positions of the link lines among the first `n`, in order. */
  function LinkPositions<T>(lines: seq<Line<T>>, n: nat): (p: seq<nat>)
    requires n <= |lines|
    ensures forall i :: 0 <= i < |p| ==> p[i] < n && lines[p[i]].Link?
    ensures forall i, j :: 0 <= i < j < |p| ==> p[i] < p[j]
  {
    if n == 0 then [] else LinkPositions(lines, n - 1) + (if lines[n - 1].Link? then [n - 1] else [])
  }

  /** Just past the last non-link line among the first `n`. */
  function Cut<T>(lines: seq<Line<T>>, n: nat): (m: nat)
    requires n <= |lines|
    ensures m <= n
    ensures forall k :: m <= k < n ==> lines[k].Link?
    ensures m > 0 ==> !lines[m - 1].Link?
  {
    if n == 0 || !lines[n - 1].Link? then n else Cut(lines, n - 1)
  }

  predicate OnlyLinksBetween<T>(lines: seq<Line<T>>, a: int, b: int)
    requires -1 <= a && b <= |lines|
  {
    forall k :: a < k < b ==> lines[k].Link?
  }

  predicate NoUnlinkBetween<T>(lines: seq<Line<T>>, a: int, b: int)
    requires -1 <= a && b <= |lines|
  {
    forall k :: a < k < b ==> !lines[k].Unlink?
  }

  // ---------- The invariant of the loop ----------

  predicate SamePlace<T>(e: Entry<T>, graph: nat, cluster: nat) { e.graph == graph && e.cluster == cluster }

  /** Entries against the link positions: equal clusters and graphs exactly where the lines between allow it. */
  ghost predicate Faithful<T>(lines: seq<Line<T>>, e: seq<Entry<T>>, p: seq<nat>)
    requires forall i :: 0 <= i < |p| ==> p[i] < |lines| && lines[p[i]].Link?
  {
    && |e| == |p|
    && (forall i :: 0 <= i < |e| ==> e[i].link == lines[p[i]].link)
    && (forall i, j :: 0 <= i < j < |e| ==>
          (SamePlace(e[i], e[j].graph, e[j].cluster) <==> OnlyLinksBetween(lines, p[i], p[j])))
    && (forall i, j :: 0 <= i < j < |e| ==>
          (e[i].graph == e[j].graph <==> NoUnlinkBetween(lines, p[i], p[j])))
  }

  /** What the next link line would share with an entry. */
  ghost predicate OpenPlace<T>(lines: seq<Line<T>>, n: nat, g: Groups<T>)
    requires n <= |lines|
  {
    var e, p := Entries(g), LinkPositions(lines, n);
    && |e| == |p| && |g.links| == n - Cut(lines, n)
    && (forall i :: 0 <= i < |e| ==>
          && (e[i].graph < |g.graphs| || (e[i].graph == |g.graphs| && e[i].cluster <= |g.clusters|))
          && (SamePlace(e[i], |g.graphs|, |g.clusters|) <==> OnlyLinksBetween(lines, p[i], n))
          && (e[i].graph == |g.graphs| <==> NoUnlinkBetween(lines, p[i], n)))
  }

  lemma BetweenStep<T>(lines: seq<Line<T>>, a: int, n: nat)
    requires -1 <= a < n < |lines|
    ensures OnlyLinksBetween(lines, a, n + 1) <==> OnlyLinksBetween(lines, a, n) && lines[n].Link?
    ensures NoUnlinkBetween(lines, a, n + 1) <==> NoUnlinkBetween(lines, a, n) && !lines[n].Unlink?
    ensures OnlyLinksBetween(lines, a, n) ==> NoUnlinkBetween(lines, a, n)
  {
  }

  /** With no open links nothing is in the open cluster, and with no open cluster nothing is in the open graph. */
  lemma NothingOpen<T>(lines: seq<Line<T>>, n: nat, g: Groups<T>)
    requires n <= |lines| && OpenPlace(lines, n, g)
    ensures g.links == [] ==> forall i :: 0 <= i < |Entries(g)| ==> !SamePlace(Entries(g)[i], |g.graphs|, |g.clusters|)
    ensures g.links == [] && g.clusters == [] ==> forall i :: 0 <= i < |Entries(g)| ==> Entries(g)[i].graph < |g.graphs|
  {
    hide LabelGraphs, LabelClusters;
    var p := LinkPositions(lines, n);
    if g.links == [] && n > 0 {
      forall i | 0 <= i < |p| ensures !OnlyLinksBetween(lines, p[i], n) {
        assert !lines[n - 1].Link? && p[i] < n - 1;
      }
    }
  }

  lemma OpenStep<T>(lines: seq<Line<T>>, n: nat, g: Groups<T>)
    requires n < |lines| && OpenPlace(lines, n, g)
    ensures OpenPlace(lines, n + 1, Feed(g, lines[n]))
  {
    hide Entries, OnlyLinksBetween, NoUnlinkBetween;
    EntriesStep(g, lines[n]);
    NothingOpen(lines, n, g);
    var e, p := Entries(g), LinkPositions(lines, n);
    forall i | 0 <= i < |p|
      ensures OnlyLinksBetween(lines, p[i], n + 1) <==> OnlyLinksBetween(lines, p[i], n) && lines[n].Link?
      ensures NoUnlinkBetween(lines, p[i], n + 1) <==> NoUnlinkBetween(lines, p[i], n) && !lines[n].Unlink?
    {
      BetweenStep(lines, p[i], n);
    }
    assert OnlyLinksBetween(lines, n, n + 1) && NoUnlinkBetween(lines, n, n + 1) by { NothingBetween(lines, n); }
  }

  lemma NothingBetween<T>(lines: seq<Line<T>>, n: nat)
    requires n < |lines|
    ensures OnlyLinksBetween(lines, n, n) && NoUnlinkBetween(lines, n, n)
    ensures OnlyLinksBetween(lines, n, n + 1) && NoUnlinkBetween(lines, n, n + 1)
  {
  }

  lemma FaithfulAppend<T>(lines: seq<Line<T>>, e: seq<Entry<T>>, p: seq<nat>, x: Entry<T>, n: nat)
    requires n < |lines| && lines[n].Link? && x.link == lines[n].link
    requires forall i :: 0 <= i < |p| ==> p[i] < |lines| && lines[p[i]].Link?
    requires Faithful(lines, e, p)
    requires forall i :: 0 <= i < |e| ==> (SamePlace(e[i], x.graph, x.cluster) <==> OnlyLinksBetween(lines, p[i], n))
    requires forall i :: 0 <= i < |e| ==> (e[i].graph == x.graph <==> NoUnlinkBetween(lines, p[i], n))
    ensures forall i :: 0 <= i < |p + [n]| ==> (p + [n])[i] < |lines| && lines[(p + [n])[i]].Link?
    ensures Faithful(lines, e + [x], p + [n])
  {
    hide OnlyLinksBetween, NoUnlinkBetween, SamePlace;
  }

  lemma FaithfulStep<T>(lines: seq<Line<T>>, n: nat, g: Groups<T>)
    requires n < |lines| && OpenPlace(lines, n, g)
    requires Faithful(lines, Entries(g), LinkPositions(lines, n))
    ensures Faithful(lines, Entries(Feed(g, lines[n])), LinkPositions(lines, n + 1))
  {
    hide Feed, Entries, Faithful, OnlyLinksBetween, NoUnlinkBetween;
    EntriesStep(g, lines[n]);
    if lines[n].Link? {
      FaithfulAppend(lines, Entries(g), LinkPositions(lines, n), Entry(|g.graphs|, |g.clusters|, lines[n].link), n);
    } else {
      assert Entries(g) + [] == Entries(g);
      assert LinkPositions(lines, n) + [] == LinkPositions(lines, n);
    }
  }

  lemma {:induction false} LoopInvariant<T>(lines: seq<Line<T>>, n: nat)
    requires n <= |lines|
    ensures var g := FeedAll(lines, n);
            OpenPlace(lines, n, g) && Faithful(lines, Entries(g), LinkPositions(lines, n))
  {
    hide Feed, Entries, OpenPlace, Faithful;
    if n == 0 {
      NothingFed(lines);
    } else {
      LoopInvariant(lines, n - 1);
      OpenStep(lines, n - 1, FeedAll(lines, n - 1));
      FaithfulStep(lines, n - 1, FeedAll(lines, n - 1));
    }
  }

  lemma NothingFed<T>(lines: seq<Line<T>>)
    ensures var g := FeedAll(lines, 0);
            OpenPlace(lines, 0, g) && Faithful(lines, Entries(g), LinkPositions(lines, 0))
  {
  }

  // ---------- What the graphs are ----------

  /** The link lines that have some later non-link line. */
  function KeptPositions<T>(lines: seq<Line<T>>): (p: seq<nat>)
    ensures forall i :: 0 <= i < |p| ==> p[i] < |lines| && lines[p[i]].Link?
    ensures forall i, j :: 0 <= i < j < |p| ==> p[i] < p[j]
  {
    LinkPositions(lines, Cut(lines, |lines|))
  }

  lemma {:induction false} LinkPositionsComplete<T>(lines: seq<Line<T>>, n: nat, k: nat)
    requires k < n <= |lines|
    ensures k in LinkPositions(lines, n) <==> lines[k].Link?
  {
    if k < n - 1 { LinkPositionsComplete(lines, n - 1, k); }
  }

  lemma KeptExactly<T>(lines: seq<Line<T>>, k: nat)
    ensures k in KeptPositions(lines) <==>
              k < |lines| && lines[k].Link? && exists j :: k < j < |lines| && !lines[j].Link?
  {
    var m := Cut(lines, |lines|);
    if k < m { LinkPositionsComplete(lines, m, k); }
  }

  /** The positions up to the cut are those of the whole log less the trailing run of links. */
  lemma {:induction false} TrailingLinks<T>(lines: seq<Line<T>>, n: nat)
    requires n <= |lines|
    ensures var m := Cut(lines, n);
            |LinkPositions(lines, n)| == |LinkPositions(lines, m)| + (n - m)
            && LinkPositions(lines, m) <= LinkPositions(lines, n)
  {
    if n > 0 && lines[n - 1].Link? { TrailingLinks(lines, n - 1); }
  }

  /**
    For every log: the links of the graphs are, in order and once each, the link lines with a later
    non-link line; two of them share a cluster exactly when only links lie between them, and a graph
    exactly when no unlink does.
   */
  lemma GraphsAreFaithful<T>(lines: seq<Line<T>>)
    ensures Faithful(lines, LabelGraphs(Graphs(lines)), KeptPositions(lines))
  {
    hide Faithful, Entries, LabelGraphs, LabelClusters;
    var n := |lines|;
    var g := FeedAll(lines, n);
    LoopInvariant(lines, n);
    TrailingLinks(lines, n);
    LabelPushGraph(g.graphs, g.clusters);
    EntriesPrefix(g);
    var p, kept := LinkPositions(lines, n), KeptPositions(lines);
    assert kept == p[..|kept|];
    assert LabelGraphs(Graphs(lines)) == Entries(g)[..|kept|];
    FaithfulPrefix(lines, Entries(g), p, |kept|);
  }

  lemma EntriesPrefix<T>(g: Groups<T>)
    ensures var closed := LabelGraphs(g.graphs) + LabelClusters(|g.graphs|, g.clusters);
            |Entries(g)| == |closed| + |g.links| && Entries(g)[..|closed|] == closed
  {
    hide LabelGraphs, LabelClusters, LabelLinks;
  }

  lemma FaithfulPrefix<T>(lines: seq<Line<T>>, e: seq<Entry<T>>, p: seq<nat>, m: nat)
    requires forall i :: 0 <= i < |p| ==> p[i] < |lines| && lines[p[i]].Link?
    requires Faithful(lines, e, p) && m <= |p|
    ensures Faithful(lines, e[..m], p[..m])
  {
    hide OnlyLinksBetween, NoUnlinkBetween, SamePlace;
  }

  predicate NoEmpty<T>(graphs: seq<seq<seq<T>>>) {
    forall g :: 0 <= g < |graphs| ==>
      graphs[g] != [] && forall c :: 0 <= c < |graphs[g]| ==> graphs[g][c] != []
  }

  lemma {:induction false} FedNoEmpty<T>(lines: seq<Line<T>>, n: nat)
    requires n <= |lines|
    ensures var g := FeedAll(lines, n); NoEmpty(g.graphs) && (g.clusters != [] ==> NoEmpty([g.clusters]))
  {
    if n > 0 {
      FedNoEmpty(lines, n - 1);
      var g := FeedAll(lines, n - 1);
      assert g.clusters != [] ==> [g.clusters][0] == g.clusters;
    }
  }

  /** No graph and no cluster is empty. */
  lemma GraphsNotEmpty<T>(lines: seq<Line<T>>)
    ensures NoEmpty(Graphs(lines))
  {
    FedNoEmpty(lines, |lines|);
    var g := FeedAll(lines, |lines|);
    assert g.clusters != [] ==> [g.clusters][0] == g.clusters;
  }
}
