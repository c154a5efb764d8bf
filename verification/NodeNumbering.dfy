/**
  The emission loops of mediastreamer2/tools/filters_graph.py: node numbers given out at the
  first sight of an address in a cluster, then one edge per link.
 */
module NodeNumbering {
  import opened LinkGrouping

  datatype End = End(name: string, address: string, pin: string)

  datatype FilterLink = FilterLink(source: End, dest: End)

  /** A line of the dot file, with the graph and the cluster it is written in. */
  datatype Out =
    | Node(graph: nat, cluster: nat, number: nat, name: string, address: string)
    | Edge(graph: nat, cluster: nat, tail: nat, head: nat, tailLabel: string, headLabel: string)

  // ---------- First sights ----------

  predicate Seen(f: seq<End>, address: string) { exists i :: 0 <= i < |f| && f[i].address == address }

  function AddEnd(f: seq<End>, e: End): seq<End> {
    if Seen(f, e.address) then f else f + [e]
  }

  /** The first end with each address, in order of appearance. */
  function Firsts(links: seq<FilterLink>, n: nat): seq<End>
    requires n <= |links|
  {
    if n == 0 then [] else AddEnd(AddEnd(Firsts(links, n - 1), links[n - 1].source), links[n - 1].dest)
  }

  predicate DistinctAddresses(f: seq<End>) {
    forall i, j :: 0 <= i < j < |f| ==> f[i].address != f[j].address
  }

  /** Every end's address is there, once. */
  lemma {:induction false} FirstsComplete(links: seq<FilterLink>, n: nat)
    requires n <= |links|
    ensures var f := Firsts(links, n);
            && DistinctAddresses(f)
            && (forall k :: 0 <= k < n ==> Seen(f, links[k].source.address) && Seen(f, links[k].dest.address))
  {
    hide AddEnd, Seen, DistinctAddresses;
    if n > 0 {
      FirstsComplete(links, n - 1);
      var f := Firsts(links, n - 1);
      SeenStays(f, links[n - 1].source);
      SeenStays(AddEnd(f, links[n - 1].source), links[n - 1].dest);
    } else {
      NothingSeen();
    }
  }

  lemma NothingSeen()
    ensures DistinctAddresses([])
  {
  }

  predicate IsEndOf(e: End, l: FilterLink) { e == l.source || e == l.dest }

  /** Link `k` is where the loop first sees the address of the end `e`. */
  predicate FirstSight(links: seq<FilterLink>, k: nat, e: End) {
    && k < |links| && IsEndOf(e, links[k])
    && (e.address == links[k].source.address ==> e == links[k].source)
    && forall j :: 0 <= j < k ==> links[j].source.address != e.address && links[j].dest.address != e.address
  }

  /** Each declared end is the first with its address. */
  lemma {:induction false} FirstsAreEnds(links: seq<FilterLink>, n: nat, i: nat)
    requires n <= |links| && i < |Firsts(links, n)|
    ensures exists k :: 0 <= k < n && FirstSight(links, k, Firsts(links, n)[i])
  {
    hide Seen;
    var before, l := Firsts(links, n - 1), links[n - 1];
    var e := Firsts(links, n)[i];
    if i < |before| {
      FirstsAreEnds(links, n - 1, i);
      assert e == before[i];
    } else {
      NewSight(links, n, i);
    }
  }

  lemma SightUnique(links: seq<FilterLink>, j: nat, k: nat, e: End)
    requires FirstSight(links, j, e) && FirstSight(links, k, e)
    ensures j == k
  {
  }

  /** Of two declared ends the first is seen at an earlier link, or both at one link as its source and its destination. */
  lemma {:induction false} FirstsInSightOrder(links: seq<FilterLink>, n: nat, i: nat, j: nat, a: nat, b: nat)
    requires n <= |links| && i < j < |Firsts(links, n)|
    requires FirstSight(links, a, Firsts(links, n)[i]) && FirstSight(links, b, Firsts(links, n)[j])
    ensures a < b || (a == b && Firsts(links, n)[i] == links[a].source)
  {
    hide Seen, FirstSight;
    var before, l, f := Firsts(links, n - 1), links[n - 1], Firsts(links, n);
    if j < |before| {
      FirstsInSightOrder(links, n - 1, i, j, a, b);
    } else {
      NewSight(links, n, j);
      SightUnique(links, n - 1, b, f[j]);
      if i < |before| {
        FirstsAreEnds(links, n - 1, i);
        var k :| 0 <= k < n - 1 && FirstSight(links, k, before[i]);
        SightUnique(links, k, a, f[i]);
      } else {
        NewSight(links, n, i);
        SightUnique(links, n - 1, a, f[i]);
      }
    }
  }

  lemma NewSight(links: seq<FilterLink>, n: nat, i: nat)
    requires 0 < n <= |links| && |Firsts(links, n - 1)| <= i < |Firsts(links, n)|
    ensures FirstSight(links, n - 1, Firsts(links, n)[i])
  {
    hide Seen;
    var before, l := Firsts(links, n - 1), links[n - 1];
    var e := Firsts(links, n)[i];
    FirstsComplete(links, n - 1);
    SeenStays(before, l.source);
    assert !Seen(before, e.address);
  }

  lemma SeenStays(f: seq<End>, e: End)
    ensures forall a :: Seen(f, a) ==> Seen(AddEnd(f, e), a)
    ensures Seen(AddEnd(f, e), e.address)
    ensures DistinctAddresses(f) ==> DistinctAddresses(AddEnd(f, e))
  {
    var f' := AddEnd(f, e);
    forall a | Seen(f, a) ensures Seen(f', a) {
      var i :| 0 <= i < |f| && f[i].address == a;
      assert f'[i].address == a;
    }
    if !Seen(f, e.address) { assert f'[|f|].address == e.address; }
  }

  /** The place of an address among the first ends. */
  function PlaceOf(f: seq<End>, address: string): (i: nat)
    requires Seen(f, address)
    ensures i < |f| && f[i].address == address
  {
    if f[|f| - 1].address == address then |f| - 1
    else
      assert Seen(f[..|f| - 1], address) by {
        var i :| 0 <= i < |f| && f[i].address == address;
        assert f[..|f| - 1][i].address == address;
      }
      PlaceOf(f[..|f| - 1], address)
  }

  // ---------- What is written ----------

  datatype Rendered = Rendered(out: seq<Out>, next: nat)

  function Declarations(graph: nat, cluster: nat, f: seq<End>, start: nat): (d: seq<Out>)
    ensures |d| == |f|
    ensures forall i :: 0 <= i < |d| ==> d[i] == Node(graph, cluster, start + i, f[i].name, f[i].address)
  {
    seq(|f|, i requires 0 <= i < |f| => Node(graph, cluster, start + i, f[i].name, f[i].address))
  }

  function EdgeOf(graph: nat, cluster: nat, f: seq<End>, start: nat, l: FilterLink): Out
    requires Seen(f, l.source.address) && Seen(f, l.dest.address)
  {
    Edge(graph, cluster, start + PlaceOf(f, l.source.address), start + PlaceOf(f, l.dest.address),
         l.source.pin, l.dest.pin)
  }

  function EdgesOf(graph: nat, cluster: nat, links: seq<FilterLink>, start: nat, n: nat): (d: seq<Out>)
    requires n <= |links|
    ensures |d| == n
    ensures forall i :: 0 <= i < |d| ==> d[i].Edge?
  {
    FirstsComplete(links, |links|);
    var f := Firsts(links, |links|);
    seq(n, i requires 0 <= i < n => EdgeOf(graph, cluster, f, start, links[i]))
  }

  function RenderCluster(graph: nat, cluster: nat, links: seq<FilterLink>, start: nat): Rendered {
    var f := Firsts(links, |links|);
    Rendered(Declarations(graph, cluster, f, start) + EdgesOf(graph, cluster, links, start, |links|), start + |f|)
  }

  function RenderGraph(graph: nat, clusters: seq<seq<FilterLink>>, n: nat, start: nat): Rendered
    requires n <= |clusters|
  {
    if n == 0 then Rendered([], start)
    else
      var r := RenderGraph(graph, clusters, n - 1, start);
      var last := RenderCluster(graph, n - 1, clusters[n - 1], r.next);
      Rendered(r.out + last.out, last.next)
  }

  /** Numbers start at 1 and run on from cluster to cluster and graph to graph. */
  function RenderAll(graphs: seq<seq<seq<FilterLink>>>, n: nat): Rendered
    requires n <= |graphs|
  {
    if n == 0 then Rendered([], 1)
    else
      var r := RenderAll(graphs, n - 1);
      var last := RenderGraph(n - 1, graphs[n - 1], |graphs[n - 1]|, r.next);
      Rendered(r.out + last.out, last.next)
  }

  /** Graph by graph and cluster by cluster, and within a cluster all nodes before all edges. */
  predicate Precedes(a: Out, b: Out) {
    || a.graph < b.graph
    || (a.graph == b.graph && a.cluster < b.cluster)
    || (a.graph == b.graph && a.cluster == b.cluster && (a.Node? || b.Edge?))
  }

  predicate LinesInOrder(out: seq<Out>) {
    forall i, j :: 0 <= i < j < |out| ==> Precedes(out[i], out[j])
  }

  lemma LinesAppend(a: seq<Out>, b: seq<Out>)
    requires LinesInOrder(a) && LinesInOrder(b)
    requires forall i, j :: 0 <= i < |a| && 0 <= j < |b| ==> Precedes(a[i], b[j])
    ensures LinesInOrder(a + b)
  {
    hide Precedes;
  }

  lemma EdgesPlaced(graph: nat, cluster: nat, links: seq<FilterLink>, start: nat, n: nat)
    requires n <= |links|
    ensures var e := EdgesOf(graph, cluster, links, start, n);
            forall i :: 0 <= i < |e| ==> e[i].Edge? && e[i].graph == graph && e[i].cluster == cluster
  {
    hide Firsts, PlaceOf, Seen;
    FirstsComplete(links, |links|);
  }

  lemma ClusterInOrder(graph: nat, cluster: nat, links: seq<FilterLink>, start: nat)
    ensures var out := RenderCluster(graph, cluster, links, start).out;
            LinesInOrder(out) && forall i :: 0 <= i < |out| ==> out[i].graph == graph && out[i].cluster == cluster
  {
    hide Firsts, EdgesOf, Declarations;
    EdgesPlaced(graph, cluster, links, start, |links|);
    LinesAppend(Declarations(graph, cluster, Firsts(links, |links|), start),
                EdgesOf(graph, cluster, links, start, |links|));
  }

  lemma {:induction false} GraphInOrder(graph: nat, clusters: seq<seq<FilterLink>>, n: nat, start: nat)
    requires n <= |clusters|
    ensures var out := RenderGraph(graph, clusters, n, start).out;
            LinesInOrder(out) && forall i :: 0 <= i < |out| ==> out[i].graph == graph && out[i].cluster < n
  {
    hide RenderCluster;
    if n > 0 {
      GraphInOrder(graph, clusters, n - 1, start);
      var r := RenderGraph(graph, clusters, n - 1, start);
      ClusterInOrder(graph, n - 1, clusters[n - 1], r.next);
      LinesAppend(r.out, RenderCluster(graph, n - 1, clusters[n - 1], r.next).out);
    }
  }

  /** For every set of graphs the lines of the file are in that order. */
  lemma {:induction false} AllInOrder(graphs: seq<seq<seq<FilterLink>>>, n: nat)
    requires n <= |graphs|
    ensures var out := RenderAll(graphs, n).out;
            LinesInOrder(out) && forall i :: 0 <= i < |out| ==> out[i].graph < n
  {
    hide RenderGraph;
    if n > 0 {
      AllInOrder(graphs, n - 1);
      var r := RenderAll(graphs, n - 1);
      var clusters := graphs[n - 1];
      GraphInOrder(n - 1, clusters, |clusters|, r.next);
      LinesAppend(r.out, RenderGraph(n - 1, clusters, |clusters|, r.next).out);
    }
  }

  // ---------- The loops ----------

  /** The `nodes` dictionary of a cluster. */
  ghost predicate Numbers(nodes: map<string, nat>, f: seq<End>, start: nat) {
    && (forall a :: a in nodes <==> Seen(f, a))
    && (forall i :: 0 <= i < |f| ==> f[i].address in nodes && nodes[f[i].address] == start + i)
  }

  method Declare(graph: nat, cluster: nat, e: End, nodes: map<string, nat>, number: nat, out: seq<Out>,
                 ghost f: seq<End>, ghost start: nat)
    returns (nodes': map<string, nat>, number': nat, out': seq<Out>)
    requires Numbers(nodes, f, start) && number == start + |f|
    ensures Numbers(nodes', AddEnd(f, e), start) && number' == start + |AddEnd(f, e)|
    ensures out' == out + Declarations(graph, cluster, AddEnd(f, e), start)[|f|..]
  {
    nodes', number', out' := nodes, number, out;
    if e.address !in nodes {
      nodes' := nodes[e.address := number];
      out' := out + [Node(graph, cluster, number, e.name, e.address)];
      number' := number + 1;
      SeenStays(f, e);
      ghost var f' := AddEnd(f, e);
      forall a | Seen(f', a) ensures a in nodes' {
        var i :| 0 <= i < |f'| && f'[i].address == a;
        if i < |f| { assert f[i].address == a; }
      }
      forall i | 0 <= i < |f| ensures f[i].address != e.address {
        assert f[i].address == e.address ==> Seen(f, e.address);
      }
    }
  }

  method EmitCluster(graph: nat, cluster: nat, links: seq<FilterLink>, start: nat) returns (out: seq<Out>, number: nat)
    ensures Rendered(out, number) == RenderCluster(graph, cluster, links, start)
  {
    hide Firsts, AddEnd, Seen, Declarations;
    var nodes: map<string, nat> := map[];
    out, number := [], start;
    NoNumbers(graph, cluster, links, start);
    for n := 0 to |links|
      invariant Numbers(nodes, Firsts(links, n), start) && number == start + |Firsts(links, n)|
      invariant out == Declarations(graph, cluster, Firsts(links, n), start)
    {
      ghost var f0 := Firsts(links, n);
      ghost var f1 := AddEnd(f0, links[n].source);
      FirstsNext(links, n);
      nodes, number, out := Declare(graph, cluster, links[n].source, nodes, number, out, f0, start);
      DeclarationsGrow(graph, cluster, f0, links[n].source, start);
      nodes, number, out := Declare(graph, cluster, links[n].dest, nodes, number, out, f1, start);
      DeclarationsGrow(graph, cluster, f1, links[n].dest, start);
    }
    ghost var f := Firsts(links, |links|);
    ghost var declared := out;
    FirstsComplete(links, |links|);
    for n := 0 to |links|
      invariant out == declared + EdgesOf(graph, cluster, links, start, n)
    {
      var l := links[n];
      NumberIsPlace(nodes, f, start, l.source.address);
      NumberIsPlace(nodes, f, start, l.dest.address);
      out := out + [Edge(graph, cluster, nodes[l.source.address], nodes[l.dest.address], l.source.pin, l.dest.pin)];
      assert EdgesOf(graph, cluster, links, start, n + 1)
          == EdgesOf(graph, cluster, links, start, n) + [EdgeOf(graph, cluster, f, start, l)];
    }
  }

  lemma NoNumbers(graph: nat, cluster: nat, links: seq<FilterLink>, start: nat)
    ensures Firsts(links, 0) == [] && Numbers(map[], [], start) && Declarations(graph, cluster, [], start) == []
  {
  }

  lemma FirstsNext(links: seq<FilterLink>, n: nat)
    requires n < |links|
    ensures Firsts(links, n + 1) == AddEnd(AddEnd(Firsts(links, n), links[n].source), links[n].dest)
  {
  }

  lemma DeclarationsGrow(graph: nat, cluster: nat, f: seq<End>, e: End, start: nat)
    ensures |f| <= |AddEnd(f, e)|
    ensures Declarations(graph, cluster, AddEnd(f, e), start)
            == Declarations(graph, cluster, f, start) + Declarations(graph, cluster, AddEnd(f, e), start)[|f|..]
  {
  }

  lemma NumberIsPlace(nodes: map<string, nat>, f: seq<End>, start: nat, a: string)
    requires Numbers(nodes, f, start) && Seen(f, a)
    ensures a in nodes && nodes[a] == start + PlaceOf(f, a)
  {
    hide Seen;
    var i := PlaceOf(f, a);
    assert f[i].address in nodes;
  }

  method Emit(graphs: seq<seq<seq<FilterLink>>>) returns (out: seq<Out>, nodeNum: nat)
    ensures Rendered(out, nodeNum) == RenderAll(graphs, |graphs|)
    ensures WellNumbered(Rendered(out, nodeNum), LabelGraphs(graphs)) && LinesInOrder(out)
  {
    hide RenderCluster, WellNumbered, LabelGraphs, LinesInOrder;
    AllInOrder(graphs, |graphs|);
    AllWellNumbered(graphs, |graphs|);
    assert graphs[..|graphs|] == graphs;
    out, nodeNum := [], 1;
    for g := 0 to |graphs|
      invariant Rendered(out, nodeNum) == RenderAll(graphs, g)
    {
      var clusters := graphs[g];
      ghost var before, start := out, nodeNum;
      for c := 0 to |clusters|
        invariant out == before + RenderGraph(g, clusters, c, start).out
        invariant nodeNum == RenderGraph(g, clusters, c, start).next
      {
        var written, next := EmitCluster(g, c, clusters[c], nodeNum);
        out, nodeNum := out + written, next;
      }
    }
  }

  // ---------- What the numbers mean ----------

  function NodesOf(out: seq<Out>): (n: seq<Out>)
    ensures forall i :: 0 <= i < |n| ==> n[i].Node?
  {
    if out == [] then [] else
    NodesOf(out[..|out| - 1]) + (if out[|out| - 1].Node? then [out[|out| - 1]] else [])
  }

  function EdgesIn(out: seq<Out>): (e: seq<Out>)
    ensures forall i :: 0 <= i < |e| ==> e[i].Edge?
  {
    if out == [] then [] else
    EdgesIn(out[..|out| - 1]) + (if out[|out| - 1].Edge? then [out[|out| - 1]] else [])
  }

  lemma {:induction false} OutConcat(a: seq<Out>, b: seq<Out>)
    ensures NodesOf(a + b) == NodesOf(a) + NodesOf(b)
    ensures EdgesIn(a + b) == EdgesIn(a) + EdgesIn(b)
  {
    if b == [] {
      assert a + b == a;
    } else {
      assert (a + b)[..|a + b| - 1] == a + b[..|b| - 1];
      OutConcat(a, b[..|b| - 1]);
    }
  }

  lemma {:induction false} OnlyNodes(a: seq<Out>)
    requires AllNodes(a)
    ensures NodesOf(a) == a && EdgesIn(a) == []
  {
    if a != [] {
      var init := a[..|a| - 1];
      OnlyNodes(init);
      assert a == init + [a[|a| - 1]];
    }
  }

  lemma {:induction false} OnlyEdges(a: seq<Out>)
    requires AllEdges(a)
    ensures NodesOf(a) == [] && EdgesIn(a) == a
  {
    if a != [] {
      var init := a[..|a| - 1];
      OnlyEdges(init);
      assert a == init + [a[|a| - 1]];
    }
  }

  predicate SameNode(m: Out, n: Out)
    requires m.Node? && n.Node?
  {
    m.graph == n.graph && m.cluster == n.cluster && m.address == n.address
  }

  /** Node number `k` is declared for this address in this cluster. */
  predicate Declared(nodes: seq<Out>, graph: nat, cluster: nat, k: nat, address: string)
    requires forall i :: 0 <= i < |nodes| ==> nodes[i].Node?
  {
    && 1 <= k <= |nodes|
    && nodes[k - 1].graph == graph && nodes[k - 1].cluster == cluster && nodes[k - 1].address == address
  }

  /** The edge of a link joins the declared numbers of its own ends in its own cluster. */
  predicate EdgeFits(nodes: seq<Out>, e: Out, x: Entry<FilterLink>)
    requires e.Edge? && forall i :: 0 <= i < |nodes| ==> nodes[i].Node?
  {
    && e.graph == x.graph && e.cluster == x.cluster
    && e.tailLabel == x.link.source.pin && e.headLabel == x.link.dest.pin
    && Declared(nodes, x.graph, x.cluster, e.tail, x.link.source.address)
    && Declared(nodes, x.graph, x.cluster, e.head, x.link.dest.address)
  }

  /** The link of an entry lies in this cluster and ends at this address. */
  predicate EndsAt(x: Entry<FilterLink>, graph: nat, cluster: nat, address: string) {
    SamePlace(x, graph, cluster) && (x.link.source.address == address || x.link.dest.address == address)
  }

  /** The name of the end at this address, the source's when both ends have it. */
  function NameIn(l: FilterLink, address: string): string {
    if l.source.address == address then l.source.name else l.dest.name
  }

  /** The first link with an end at this address in this cluster; the number of links if there is none. */
  function FirstMention(links: seq<Entry<FilterLink>>, graph: nat, cluster: nat, address: string): (k: nat)
    ensures k <= |links|
    ensures k < |links| ==> EndsAt(links[k], graph, cluster, address)
    ensures forall j :: 0 <= j < k ==> !EndsAt(links[j], graph, cluster, address)
  {
    if links == [] then 0
    else
      var last := |links| - 1;
      var k := FirstMention(links[..last], graph, cluster, address);
      assert forall j :: 0 <= j < last ==> links[..last][j] == links[j];
      if k < last || EndsAt(links[last], graph, cluster, address) then k else |links|
  }

  lemma FirstMentionIs(links: seq<Entry<FilterLink>>, graph: nat, cluster: nat, address: string, k: nat)
    requires k < |links| && EndsAt(links[k], graph, cluster, address)
    requires forall j :: 0 <= j < k ==> !EndsAt(links[j], graph, cluster, address)
    ensures FirstMention(links, graph, cluster, address) == k
  {
    hide EndsAt, FirstMention;
    assert FirstMention(links, graph, cluster, address) <= k;
  }

  /** Link `k` is the first to mention the node, and the node carries the name it has there. */
  predicate NamedBy(links: seq<Entry<FilterLink>>, k: nat, n: Out)
    requires n.Node?
  {
    && k < |links| && EndsAt(links[k], n.graph, n.cluster, n.address) && n.name == NameIn(links[k].link, n.address)
    && forall j :: 0 <= j < k ==> !EndsAt(links[j], n.graph, n.cluster, n.address)
  }

  function MentionOf(links: seq<Entry<FilterLink>>, n: Out): nat
    requires n.Node?
  {
    FirstMention(links, n.graph, n.cluster, n.address)
  }

  lemma NamedByMention(links: seq<Entry<FilterLink>>, k: nat, n: Out)
    requires n.Node? && NamedBy(links, k, n)
    ensures MentionOf(links, n) == k
  {
    hide EndsAt, NameIn;
    FirstMentionIs(links, n.graph, n.cluster, n.address, k);
  }

  /** Seen no later: at an earlier link, or as the source of the link whose destination is the other. */
  predicate SeenBefore(links: seq<Entry<FilterLink>>, m: Out, n: Out)
    requires m.Node? && n.Node?
  {
    var k := MentionOf(links, m);
    || k < MentionOf(links, n)
    || (k == MentionOf(links, n) && k < |links| && links[k].link.source.address == m.address)
  }

  /** Nodes are declared, and so numbered, in the order in which the loop first sees them. */
  predicate InSightOrder(nodes: seq<Out>, links: seq<Entry<FilterLink>>)
    requires forall i :: 0 <= i < |nodes| ==> nodes[i].Node?
  {
    forall i, j :: 0 <= i < j < |nodes| ==> SeenBefore(links, nodes[i], nodes[j])
  }

  predicate AllNodes(nodes: seq<Out>) { forall i :: 0 <= i < |nodes| ==> nodes[i].Node? }

  predicate AllEdges(edges: seq<Out>) { forall i :: 0 <= i < |edges| ==> edges[i].Edge? }

  /** Numbers count the declarations from 1, and no address is declared twice in a cluster. */
  predicate NumberedInOrder(nodes: seq<Out>)
    requires AllNodes(nodes)
  {
    && (forall i :: 0 <= i < |nodes| ==> nodes[i].number == i + 1)
    && (forall i, j :: 0 <= i < j < |nodes| ==> !SameNode(nodes[i], nodes[j]))
  }

  ghost predicate Justified(n: Out, links: seq<Entry<FilterLink>>)
    requires n.Node?
  {
    exists k: nat :: NamedBy(links, k, n)
  }

  ghost predicate AllJustified(nodes: seq<Out>, links: seq<Entry<FilterLink>>)
    requires AllNodes(nodes)
  {
    forall i :: 0 <= i < |nodes| ==> Justified(nodes[i], links)
  }

  /** The edges follow the links one by one. */
  predicate EdgesFollow(nodes: seq<Out>, edges: seq<Out>, links: seq<Entry<FilterLink>>)
    requires AllNodes(nodes) && AllEdges(edges)
  {
    |edges| == |links| && forall k :: 0 <= k < |links| ==> EdgeFits(nodes, edges[k], links[k])
  }

  ghost predicate WellNumbered(r: Rendered, links: seq<Entry<FilterLink>>) {
    var nodes, edges := NodesOf(r.out), EdgesIn(r.out);
    && r.next == |nodes| + 1
    && NumberedInOrder(nodes) && AllJustified(nodes, links) && EdgesFollow(nodes, edges, links)
    && InSightOrder(nodes, links)
  }

  /** No link of these is in the given cluster. */
  predicate FreePlace(links: seq<Entry<FilterLink>>, graph: nat, cluster: nat) {
    forall k :: 0 <= k < |links| ==> !SamePlace(links[k], graph, cluster)
  }

  lemma OrderKept(nodes: seq<Out>, links: seq<Entry<FilterLink>>, graph: nat, cluster: nat, f: seq<End>)
    requires AllNodes(nodes) && NumberedInOrder(nodes) && AllJustified(nodes, links)
    requires FreePlace(links, graph, cluster) && DistinctAddresses(f)
    ensures NumberedInOrder(nodes + Declarations(graph, cluster, f, |nodes| + 1))
  {
    hide Declarations;
    forall i | 0 <= i < |nodes| ensures !(nodes[i].graph == graph && nodes[i].cluster == cluster) {
      var k: nat :| NamedBy(links, k, nodes[i]);
      assert !SamePlace(links[k], graph, cluster);
    }
  }

  predicate AllIn(nodes: seq<Out>, graph: nat, cluster: nat)
    requires AllNodes(nodes)
  {
    forall i :: 0 <= i < |nodes| ==> nodes[i].graph == graph && nodes[i].cluster == cluster
  }

  lemma JustifiedAppend(m: seq<Out>, n: seq<Out>, before: seq<Entry<FilterLink>>, links: seq<Entry<FilterLink>>,
                        graph: nat, cluster: nat)
    requires AllNodes(m) && AllNodes(n) && AllJustified(m, before) && AllJustified(n, links)
    requires AllIn(n, graph, cluster) && FreePlace(before, graph, cluster)
    ensures AllNodes(m + n) && AllJustified(m + n, before + links)
  {
    hide Justified, FreePlace;
    forall i | 0 <= i < |m + n| ensures (m + n)[i].Node? && Justified((m + n)[i], before + links) {
      if i < |m| {
        StillJustified(m[i], before, links);
      } else {
        NewlyJustified(n[i - |m|], before, links);
      }
    }
  }

  lemma StillJustified(n: Out, before: seq<Entry<FilterLink>>, links: seq<Entry<FilterLink>>)
    requires n.Node? && Justified(n, before)
    ensures Justified(n, before + links)
  {
    hide EndsAt;
    var k: nat :| NamedBy(before, k, n);
    assert NamedBy(before + links, k, n);
  }

  lemma NewlyJustified(n: Out, before: seq<Entry<FilterLink>>, links: seq<Entry<FilterLink>>)
    requires n.Node? && Justified(n, links) && FreePlace(before, n.graph, n.cluster)
    ensures Justified(n, before + links)
  {
    hide NameIn;
    var k: nat :| NamedBy(links, k, n);
    var all := before + links;
    forall j | 0 <= j < |before| + k ensures !EndsAt(all[j], n.graph, n.cluster, n.address) {
      if j < |before| {
        assert !SamePlace(before[j], n.graph, n.cluster);
      } else {
        assert !EndsAt(links[j - |before|], n.graph, n.cluster, n.address);
      }
    }
    assert NamedBy(all, |before| + k, n);
  }

  lemma DeclaredIsJustified(graph: nat, cluster: nat, links: seq<FilterLink>, start: nat)
    ensures var d := Declarations(graph, cluster, Firsts(links, |links|), start);
            AllIn(d, graph, cluster) && AllJustified(d, LabelLinks(graph, cluster, links))
  {
    hide Declarations, Firsts, Justified;
    var f := Firsts(links, |links|);
    var d, labels := Declarations(graph, cluster, f, start), LabelLinks(graph, cluster, links);
    forall i | 0 <= i < |d| ensures Justified(d[i], labels) {
      FirstsAreEnds(links, |links|, i);
      var k :| 0 <= k < |links| && FirstSight(links, k, f[i]);
      SightIsNaming(graph, cluster, links, k, f[i], d[i]);
    }
  }

  lemma SightIsNaming(graph: nat, cluster: nat, links: seq<FilterLink>, k: nat, e: End, n: Out)
    requires FirstSight(links, k, e)
    requires n.Node? && n.graph == graph && n.cluster == cluster && n.name == e.name && n.address == e.address
    ensures Justified(n, LabelLinks(graph, cluster, links))
  {
    assert NamedBy(LabelLinks(graph, cluster, links), k, n);
  }

  lemma MentionPrefix(before: seq<Entry<FilterLink>>, links: seq<Entry<FilterLink>>, n: Out)
    requires n.Node? && MentionOf(before, n) < |before|
    ensures MentionOf(before + links, n) == MentionOf(before, n)
  {
    hide EndsAt, FirstMention;
    FirstMentionIs(before + links, n.graph, n.cluster, n.address, MentionOf(before, n));
  }

  lemma MentionSuffix(before: seq<Entry<FilterLink>>, links: seq<Entry<FilterLink>>, n: Out)
    requires n.Node? && FreePlace(before, n.graph, n.cluster) && MentionOf(links, n) < |links|
    ensures MentionOf(before + links, n) == |before| + MentionOf(links, n)
  {
    hide FirstMention;
    var all, m := before + links, |before| + MentionOf(links, n);
    forall j | 0 <= j < m ensures !EndsAt(all[j], n.graph, n.cluster, n.address) {
      if j < |before| {
        assert !SamePlace(before[j], n.graph, n.cluster);
      } else {
        assert !EndsAt(links[j - |before|], n.graph, n.cluster, n.address);
      }
    }
    FirstMentionIs(all, n.graph, n.cluster, n.address, m);
  }

  lemma JustifiedMention(n: Out, links: seq<Entry<FilterLink>>)
    requires n.Node? && Justified(n, links)
    ensures MentionOf(links, n) < |links|
  {
    hide EndsAt, NameIn, FirstMention;
    var k: nat :| NamedBy(links, k, n);
    NamedByMention(links, k, n);
  }

  /** Declarations of one cluster are in sight order. */
  lemma DeclaredInSightOrder(graph: nat, cluster: nat, links: seq<FilterLink>, start: nat)
    ensures InSightOrder(Declarations(graph, cluster, Firsts(links, |links|), start), LabelLinks(graph, cluster, links))
  {
    hide Declarations, Firsts, SeenBefore;
    var f := Firsts(links, |links|);
    var d, labels := Declarations(graph, cluster, f, start), LabelLinks(graph, cluster, links);
    forall i, j | 0 <= i < j < |d| ensures SeenBefore(labels, d[i], d[j]) {
      FirstsAreEnds(links, |links|, i);
      FirstsAreEnds(links, |links|, j);
      var a :| 0 <= a < |links| && FirstSight(links, a, f[i]);
      var b :| 0 <= b < |links| && FirstSight(links, b, f[j]);
      FirstsInSightOrder(links, |links|, i, j, a, b);
      SightsAreMentions(graph, cluster, links, a, f[i], d[i]);
      SightsAreMentions(graph, cluster, links, b, f[j], d[j]);
      SeenBeforeFrom(labels, d[i], d[j], a, b);
    }
  }

  lemma SeenBeforeFrom(links: seq<Entry<FilterLink>>, m: Out, n: Out, a: nat, b: nat)
    requires m.Node? && n.Node? && MentionOf(links, m) == a < |links| && MentionOf(links, n) == b
    requires a < b || (a == b && links[a].link.source.address == m.address)
    ensures SeenBefore(links, m, n)
  {
  }

  lemma SightsAreMentions(graph: nat, cluster: nat, links: seq<FilterLink>, k: nat, e: End, n: Out)
    requires FirstSight(links, k, e)
    requires n.Node? && n.graph == graph && n.cluster == cluster && n.address == e.address
    ensures MentionOf(LabelLinks(graph, cluster, links), n) == k
  {
    hide FirstMention;
    FirstMentionIs(LabelLinks(graph, cluster, links), graph, cluster, e.address, k);
  }

  lemma SightOrderAppend(m: seq<Out>, n: seq<Out>, before: seq<Entry<FilterLink>>, links: seq<Entry<FilterLink>>,
                         graph: nat, cluster: nat)
    requires AllNodes(m) && AllNodes(n) && AllJustified(m, before) && AllJustified(n, links)
    requires AllIn(n, graph, cluster) && FreePlace(before, graph, cluster)
    requires InSightOrder(m, before) && InSightOrder(n, links)
    ensures AllNodes(m + n) && InSightOrder(m + n, before + links)
  {
    hide Justified, FreePlace, FirstMention;
    var all, mn := before + links, m + n;
    forall i | 0 <= i < |m| ensures MentionOf(all, m[i]) == MentionOf(before, m[i]) < |before| {
      JustifiedMention(m[i], before);
      MentionPrefix(before, links, m[i]);
    }
    forall i | 0 <= i < |n| ensures |before| <= MentionOf(all, n[i]) == |before| + MentionOf(links, n[i]) < |all| {
      JustifiedMention(n[i], links);
      MentionSuffix(before, links, n[i]);
    }
    forall i, j | 0 <= i < j < |mn| ensures mn[i].Node? && mn[j].Node? && SeenBefore(all, mn[i], mn[j]) {
      if j < |m| {
        assert SeenBefore(before, m[i], m[j]);
      } else if i >= |m| {
        assert SeenBefore(links, n[i - |m|], n[j - |m|]);
      }
    }
  }

  lemma EdgeStillFits(nodes: seq<Out>, more: seq<Out>, e: Out, x: Entry<FilterLink>)
    requires AllNodes(nodes) && AllNodes(more) && e.Edge? && EdgeFits(nodes, e, x)
    ensures AllNodes(nodes + more) && EdgeFits(nodes + more, e, x)
  {
  }

  lemma NewEdgeFits(nodes: seq<Out>, graph: nat, cluster: nat, f: seq<End>, l: FilterLink)
    requires AllNodes(nodes) && Seen(f, l.source.address) && Seen(f, l.dest.address)
    ensures EdgeFits(nodes + Declarations(graph, cluster, f, |nodes| + 1),
                     EdgeOf(graph, cluster, f, |nodes| + 1, l), Entry(graph, cluster, l))
  {
    hide Seen, Declarations;
    var nodes' := nodes + Declarations(graph, cluster, f, |nodes| + 1);
    assert nodes'[|nodes| + PlaceOf(f, l.source.address)].address == l.source.address;
    assert nodes'[|nodes| + PlaceOf(f, l.dest.address)].address == l.dest.address;
  }

  lemma EdgesAppend(nodes: seq<Out>, d: seq<Out>, e: seq<Out>, before: seq<Entry<FilterLink>>, links: seq<Entry<FilterLink>>)
    requires AllNodes(nodes) && AllEdges(d) && AllEdges(e)
    requires EdgesFollow(nodes, d, before) && EdgesFollow(nodes, e, links)
    ensures AllEdges(d + e) && EdgesFollow(nodes, d + e, before + links)
  {
    hide EdgeFits;
  }

  lemma OldEdges(nodes: seq<Out>, more: seq<Out>, edges: seq<Out>, links: seq<Entry<FilterLink>>)
    requires AllNodes(nodes) && AllNodes(more) && AllEdges(edges) && EdgesFollow(nodes, edges, links)
    ensures AllNodes(nodes + more) && EdgesFollow(nodes + more, edges, links)
  {
    hide EdgeFits;
    forall k | 0 <= k < |links| ensures EdgeFits(nodes + more, edges[k], links[k]) {
      EdgeStillFits(nodes, more, edges[k], links[k]);
    }
  }

  lemma NewEdges(nodes: seq<Out>, graph: nat, cluster: nat, links: seq<FilterLink>)
    requires AllNodes(nodes)
    ensures EdgesFollow(nodes + Declarations(graph, cluster, Firsts(links, |links|), |nodes| + 1),
                        EdgesOf(graph, cluster, links, |nodes| + 1, |links|), LabelLinks(graph, cluster, links))
  {
    hide Declarations, Firsts, Seen, EdgeFits, EdgeOf;
    FirstsComplete(links, |links|);
    var f, start := Firsts(links, |links|), |nodes| + 1;
    forall k | 0 <= k < |links|
      ensures EdgeFits(nodes + Declarations(graph, cluster, f, start), EdgesOf(graph, cluster, links, start, |links|)[k],
                       LabelLinks(graph, cluster, links)[k])
    {
      NewEdgeFits(nodes, graph, cluster, f, links[k]);
    }
  }

  lemma ClusterParts(graph: nat, cluster: nat, links: seq<FilterLink>, start: nat)
    ensures var r := RenderCluster(graph, cluster, links, start);
            && NodesOf(r.out) == Declarations(graph, cluster, Firsts(links, |links|), start)
            && EdgesIn(r.out) == EdgesOf(graph, cluster, links, start, |links|)
  {
    hide Firsts, EdgesOf, Declarations, NodesOf, EdgesIn;
    var d := Declarations(graph, cluster, Firsts(links, |links|), start);
    var e := EdgesOf(graph, cluster, links, start, |links|);
    OutConcat(d, e);
    OnlyNodes(d);
    OnlyEdges(e);
  }

  /** One more cluster, in a place no earlier link has. */
  lemma ClusterKeeps(r: Rendered, before: seq<Entry<FilterLink>>, graph: nat, cluster: nat, links: seq<FilterLink>)
    requires WellNumbered(r, before) && FreePlace(before, graph, cluster)
    ensures var last := RenderCluster(graph, cluster, links, r.next);
            WellNumbered(Rendered(r.out + last.out, last.next), before + LabelLinks(graph, cluster, links))
  {
    hide Firsts, EdgesOf, NumberedInOrder, AllJustified, EdgesFollow, InSightOrder, NodesOf, EdgesIn;
    var last := RenderCluster(graph, cluster, links, r.next);
    var nodes, edges := NodesOf(r.out), EdgesIn(r.out);
    ClusterParts(graph, cluster, links, r.next);
    OutConcat(r.out, last.out);
    FirstsComplete(links, |links|);
    OrderKept(nodes, before, graph, cluster, Firsts(links, |links|));
    DeclaredIsJustified(graph, cluster, links, r.next);
    JustifiedAppend(nodes, NodesOf(last.out), before, LabelLinks(graph, cluster, links), graph, cluster);
    DeclaredInSightOrder(graph, cluster, links, r.next);
    SightOrderAppend(nodes, NodesOf(last.out), before, LabelLinks(graph, cluster, links), graph, cluster);
    OldEdges(nodes, NodesOf(last.out), edges, before);
    NewEdges(nodes, graph, cluster, links);
    EdgesAppend(nodes + NodesOf(last.out), edges, EdgesIn(last.out), before, LabelLinks(graph, cluster, links));
  }

  lemma {:induction false} GraphKeeps(r: Rendered, before: seq<Entry<FilterLink>>, graph: nat,
                                      clusters: seq<seq<FilterLink>>, n: nat)
    requires WellNumbered(r, before) && n <= |clusters|
    requires forall k :: 0 <= k < |before| ==> before[k].graph != graph
    ensures var last := RenderGraph(graph, clusters, n, r.next);
            WellNumbered(Rendered(r.out + last.out, last.next), before + LabelClusters(graph, clusters[..n]))
  {
    hide WellNumbered, RenderCluster;
    if n == 0 {
      assert r.out + [] == r.out && before + [] == before;
    } else {
      GraphKeeps(r, before, graph, clusters, n - 1);
      var mid := RenderGraph(graph, clusters, n - 1, r.next);
      var last := RenderCluster(graph, n - 1, clusters[n - 1], mid.next);
      var done := before + LabelClusters(graph, clusters[..n - 1]);
      ClusterKeeps(Rendered(r.out + mid.out, mid.next), done, graph, n - 1, clusters[n - 1]);
      assert clusters[..n][..n - 1] == clusters[..n - 1];
      assert r.out + mid.out + last.out == r.out + (mid.out + last.out);
      assert done + LabelLinks(graph, n - 1, clusters[n - 1]) == before + LabelClusters(graph, clusters[..n]);
    }
  }

  /**
    For every set of graphs: nodes are numbered 1, 2, 3, ... over the whole output, each address once
    per cluster, and the edges are the links in order, joining the numbers of their own ends.
   */
  lemma {:induction false} AllWellNumbered(graphs: seq<seq<seq<FilterLink>>>, n: nat)
    requires n <= |graphs|
    ensures WellNumbered(RenderAll(graphs, n), LabelGraphs(graphs[..n]))
  {
    hide WellNumbered;
    if n == 0 {
      NothingNumbered();
    } else {
      AllWellNumbered(graphs, n - 1);
      assert graphs[..n][..n - 1] == graphs[..n - 1];
      var clusters := graphs[n - 1];
      GraphKeeps(RenderAll(graphs, n - 1), LabelGraphs(graphs[..n - 1]), n - 1, clusters, |clusters|);
      assert clusters[..|clusters|] == clusters;
    }
  }

  lemma NothingNumbered()
    ensures WellNumbered(Rendered([], 1), [])
  {
  }

  predicate HasNode(nodes: seq<Out>, graph: nat, cluster: nat, address: string)
    requires AllNodes(nodes)
  {
    exists i :: 0 <= i < |nodes| && nodes[i].graph == graph && nodes[i].cluster == cluster && nodes[i].address == address
  }

  lemma NodeHasEnd(nodes: seq<Out>, links: seq<Entry<FilterLink>>, graph: nat, cluster: nat, address: string)
    requires AllNodes(nodes) && AllJustified(nodes, links) && HasNode(nodes, graph, cluster, address)
    ensures exists k :: 0 <= k < |links| && EndsAt(links[k], graph, cluster, address)
  {
    hide NameIn;
    var i :| 0 <= i < |nodes| && nodes[i].graph == graph && nodes[i].cluster == cluster && nodes[i].address == address;
    assert Justified(nodes[i], links);
    var k: nat :| NamedBy(links, k, nodes[i]);
    assert EndsAt(links[k], graph, cluster, address);
  }

  lemma EndHasNode(nodes: seq<Out>, e: Out, x: Entry<FilterLink>, address: string)
    requires AllNodes(nodes) && e.Edge? && EdgeFits(nodes, e, x)
    requires EndsAt(x, x.graph, x.cluster, address)
    ensures HasNode(nodes, x.graph, x.cluster, address)
  {
    assert nodes[e.tail - 1].address == x.link.source.address;
    assert nodes[e.head - 1].address == x.link.dest.address;
  }

  lemma NodesMatchEnds(nodes: seq<Out>, edges: seq<Out>, links: seq<Entry<FilterLink>>,
                       graph: nat, cluster: nat, address: string)
    requires AllNodes(nodes) && AllEdges(edges) && AllJustified(nodes, links) && EdgesFollow(nodes, edges, links)
    ensures HasNode(nodes, graph, cluster, address) <==>
            exists k :: 0 <= k < |links| && EndsAt(links[k], graph, cluster, address)
  {
    hide HasNode, AllJustified, EdgeFits;
    if HasNode(nodes, graph, cluster, address) { NodeHasEnd(nodes, links, graph, cluster, address); }
    if k :| 0 <= k < |links| && EndsAt(links[k], graph, cluster, address) {
      EndHasNode(nodes, edges[k], links[k], address);
    }
  }

  /** An address has a node in a cluster exactly when it is an end of one of the cluster's links. */
  lemma NodesExactly(graphs: seq<seq<seq<FilterLink>>>, graph: nat, cluster: nat, address: string)
    ensures var links := LabelGraphs(graphs);
            HasNode(NodesOf(RenderAll(graphs, |graphs|).out), graph, cluster, address) <==>
            exists k :: 0 <= k < |links| && EndsAt(links[k], graph, cluster, address)
  {
    hide RenderAll, LabelGraphs, NodesOf, EdgesIn, AllJustified, EdgesFollow, HasNode, EndsAt;
    AllWellNumbered(graphs, |graphs|);
    assert graphs[..|graphs|] == graphs;
    var out := RenderAll(graphs, |graphs|).out;
    NodesMatchEnds(NodesOf(out), EdgesIn(out), LabelGraphs(graphs), graph, cluster, address);
  }

  // ---------- From the log to the edges ----------

  /** The node number an edge writes for one of its ends, and the address of that end of the link. */
  function NumberAt(e: Out, atSource: bool): nat
    requires e.Edge?
  {
    if atSource then e.tail else e.head
  }

  function AddressAt(l: FilterLink, atSource: bool): string {
    if atSource then l.source.address else l.dest.address
  }

  /** Two ends are the same node exactly when they have the same address in the same cluster. */
  lemma SameNumberIff(r: Rendered, links: seq<Entry<FilterLink>>, i: nat, j: nat, a: bool, b: bool)
    requires WellNumbered(r, links) && i < |links| && j < |links|
    ensures |EdgesIn(r.out)| == |links|
    ensures var e := EdgesIn(r.out);
            NumberAt(e[i], a) == NumberAt(e[j], b) <==>
            SamePlace(links[i], links[j].graph, links[j].cluster)
            && AddressAt(links[i].link, a) == AddressAt(links[j].link, b)
  {
    hide NodesOf, EdgesIn, AllJustified, InSightOrder, NumberedInOrder;
    var nodes, e := NodesOf(r.out), EdgesIn(r.out);
    assert EdgeFits(nodes, e[i], links[i]) && EdgeFits(nodes, e[j], links[j]);
    DistinctNumbers(nodes, NumberAt(e[i], a), NumberAt(e[j], b));
  }

  lemma DistinctNumbers(nodes: seq<Out>, m: nat, n: nat)
    requires AllNodes(nodes) && NumberedInOrder(nodes) && 1 <= m <= |nodes| && 1 <= n <= |nodes|
    ensures m == n <==> SameNode(nodes[m - 1], nodes[n - 1])
  {
  }

  /**
    The edges are the link lines with a later non-link line, in order; two of them are in the same graph
    exactly when no unlink line lies between them, and two ends are the same node exactly when the lines
    name the same address there and only link lines lie between them.
   */
  ghost predicate EdgesOfLog(lines: seq<Line<FilterLink>>, e: seq<Out>)
    requires AllEdges(e)
  {
    var p := KeptPositions(lines);
    && |e| == |p|
    && (forall k :: 0 <= k < |p| ==>
          e[k].tailLabel == lines[p[k]].link.source.pin && e[k].headLabel == lines[p[k]].link.dest.pin)
    && (forall i, j :: 0 <= i < j < |p| ==>
          (e[i].graph == e[j].graph <==> NoUnlinkBetween(lines, p[i], p[j])))
    && (forall i, j, a, b :: 0 <= i <= j < |p| ==>
          (NumberAt(e[i], a) == NumberAt(e[j], b) <==>
           && AddressAt(lines[p[i]].link, a) == AddressAt(lines[p[j]].link, b)
           && OnlyLinksBetween(lines, p[i], p[j])))
  }

  /** Numbers go up in the order in which lines first name the addresses, the source of a line before its destination. */
  ghost predicate NumbersFollowLog(lines: seq<Line<FilterLink>>, e: seq<Out>)
    requires AllEdges(e)
  {
    var p := KeptPositions(lines);
    && |e| == |p|
    && forall i, j, a, b :: 0 <= i <= j < |p| && NamedFirstAt(lines, i, a) && NamedFirstAt(lines, j, b)
                            && (i < j || (a && !b && AddressAt(lines[p[i]].link, a) != AddressAt(lines[p[i]].link, b)))
                            ==> NumberAt(e[i], a) < NumberAt(e[j], b)
  }

  /** The end of kept line `k` is the first of its run of links with its address. */
  predicate NamedFirstAt(lines: seq<Line<FilterLink>>, k: nat, atSource: bool)
    requires k < |KeptPositions(lines)|
  {
    FirstLineNaming(lines, k, AddressAt(lines[KeptPositions(lines)[k]].link, atSource))
  }

  /** Kept line `k` names the address and no earlier kept line of its run of links does. */
  predicate FirstLineNaming(lines: seq<Line<FilterLink>>, k: nat, address: string) {
    var p := KeptPositions(lines);
    && k < |p| && NamesAddress(lines[p[k]].link, address)
    && forall j :: 0 <= j < k && OnlyLinksBetween(lines, p[j], p[k]) ==> !NamesAddress(lines[p[j]].link, address)
  }

  predicate NamesAddress(l: FilterLink, address: string) {
    l.source.address == address || l.dest.address == address
  }

  /** A node is the end of the edge of the first line of a run of links that names its address, with the name given there. */
  ghost predicate NodeOfLog(lines: seq<Line<FilterLink>>, e: seq<Out>, n: Out)
    requires AllEdges(e) && n.Node?
  {
    exists k: nat ::
      && FirstLineNaming(lines, k, n.address) && k < |e|
      && n.name == NameIn(lines[KeptPositions(lines)[k]].link, n.address)
      && n.number == NumberAt(e[k], lines[KeptPositions(lines)[k]].link.source.address == n.address)
  }

  lemma EdgesFromLog(lines: seq<Line<FilterLink>>, r: Rendered, links: seq<Entry<FilterLink>>)
    requires WellNumbered(r, links) && Faithful(lines, links, KeptPositions(lines))
    ensures EdgesOfLog(lines, EdgesIn(r.out))
  {
    hide NodesOf, EdgesIn, KeptPositions, OnlyLinksBetween, NoUnlinkBetween, NumberedInOrder, AllJustified,
         InSightOrder, NumberAt, AddressAt, Declared;
    var p, e := KeptPositions(lines), EdgesIn(r.out);
    forall k | 0 <= k < |p|
      ensures e[k].graph == links[k].graph
      ensures e[k].tailLabel == lines[p[k]].link.source.pin && e[k].headLabel == lines[p[k]].link.dest.pin
    {
      assert EdgeFits(NodesOf(r.out), e[k], links[k]);
    }
    forall i, j, a, b | 0 <= i <= j < |p|
      ensures NumberAt(e[i], a) == NumberAt(e[j], b) <==>
              && AddressAt(lines[p[i]].link, a) == AddressAt(lines[p[j]].link, b)
              && OnlyLinksBetween(lines, p[i], p[j])
    {
      SameNumberIff(r, links, i, j, a, b);
      if i == j { NothingBetween(lines, p[i]); }
    }
  }

  lemma FirstLineMention(lines: seq<Line<FilterLink>>, links: seq<Entry<FilterLink>>, k: nat, address: string)
    requires Faithful(lines, links, KeptPositions(lines)) && FirstLineNaming(lines, k, address)
    ensures k < |links| && FirstMention(links, links[k].graph, links[k].cluster, address) == k
  {
    hide KeptPositions, OnlyLinksBetween, NoUnlinkBetween, FirstMention;
    var p := KeptPositions(lines);
    forall j | 0 <= j < k ensures !EndsAt(links[j], links[k].graph, links[k].cluster, address) {
      if SamePlace(links[j], links[k].graph, links[k].cluster) {
        assert OnlyLinksBetween(lines, p[j], p[k]);
      }
    }
    FirstMentionIs(links, links[k].graph, links[k].cluster, address, k);
  }

  /** Two numbers whose nodes are first mentioned in this order. */
  lemma EarlierMentionSmaller(nodes: seq<Out>, links: seq<Entry<FilterLink>>, m: nat, n: nat)
    requires AllNodes(nodes) && InSightOrder(nodes, links) && 1 <= m <= |nodes| && 1 <= n <= |nodes|
    requires var j, k := MentionOf(links, nodes[m - 1]), MentionOf(links, nodes[n - 1]);
             j < k || (j == k < |links| && links[k].link.source.address != nodes[n - 1].address
                       && nodes[m - 1].address != nodes[n - 1].address)
    ensures m < n
  {
    hide FirstMention;
  }

  lemma EdgeNumberNode(nodes: seq<Out>, e: Out, x: Entry<FilterLink>, a: bool)
    requires AllNodes(nodes) && e.Edge? && EdgeFits(nodes, e, x)
    ensures 1 <= NumberAt(e, a) <= |nodes|
    ensures var n := nodes[NumberAt(e, a) - 1];
            n.graph == x.graph && n.cluster == x.cluster && n.address == AddressAt(x.link, a)
  {
  }

  lemma NumbersFromLog(lines: seq<Line<FilterLink>>, nodes: seq<Out>, e: seq<Out>, links: seq<Entry<FilterLink>>)
    requires AllNodes(nodes) && AllEdges(e) && EdgesFollow(nodes, e, links) && InSightOrder(nodes, links)
    requires Faithful(lines, links, KeptPositions(lines))
    ensures NumbersFollowLog(lines, e)
  {
    hide KeptPositions, FirstLineNaming, EdgeFits, InSightOrder, FirstMention, NumberAt, OnlyLinksBetween, NoUnlinkBetween;
    var p := KeptPositions(lines);
    forall i, j, a, b | 0 <= i <= j < |p| && NamedFirstAt(lines, i, a) && NamedFirstAt(lines, j, b)
                        && (i < j || (a && !b && AddressAt(lines[p[i]].link, a) != AddressAt(lines[p[i]].link, b)))
      ensures NumberAt(e[i], a) < NumberAt(e[j], b)
    {
      FirstLineMention(lines, links, i, AddressAt(lines[p[i]].link, a));
      FirstLineMention(lines, links, j, AddressAt(lines[p[j]].link, b));
      EdgeNumberNode(nodes, e[i], links[i], a);
      EdgeNumberNode(nodes, e[j], links[j], b);
      EarlierMentionSmaller(nodes, links, NumberAt(e[i], a), NumberAt(e[j], b));
    }
  }

  lemma NamingLine(lines: seq<Line<FilterLink>>, links: seq<Entry<FilterLink>>, k: nat, n: Out)
    requires Faithful(lines, links, KeptPositions(lines)) && n.Node? && NamedBy(links, k, n)
    ensures k < |KeptPositions(lines)| && links[k].link == lines[KeptPositions(lines)[k]].link
    ensures FirstLineNaming(lines, k, n.address)
  {
    hide KeptPositions, OnlyLinksBetween, NoUnlinkBetween, NameIn;
    var p := KeptPositions(lines);
    forall j | 0 <= j < k && OnlyLinksBetween(lines, p[j], p[k]) ensures !NamesAddress(lines[p[j]].link, n.address) {
      assert SamePlace(links[j], links[k].graph, links[k].cluster);
      assert !EndsAt(links[j], n.graph, n.cluster, n.address);
    }
  }

  lemma NamingNumber(nodes: seq<Out>, e: Out, x: Entry<FilterLink>, i: nat)
    requires AllNodes(nodes) && NumberedInOrder(nodes) && i < |nodes|
    requires e.Edge? && EdgeFits(nodes, e, x) && EndsAt(x, nodes[i].graph, nodes[i].cluster, nodes[i].address)
    ensures nodes[i].number == NumberAt(e, x.link.source.address == nodes[i].address)
  {
    DistinctNumbers(nodes, NumberAt(e, x.link.source.address == nodes[i].address), i + 1);
  }

  lemma NodeFromLog(lines: seq<Line<FilterLink>>, nodes: seq<Out>, e: seq<Out>, links: seq<Entry<FilterLink>>, i: nat)
    requires AllNodes(nodes) && AllEdges(e) && i < |nodes|
    requires NumberedInOrder(nodes) && AllJustified(nodes, links) && EdgesFollow(nodes, e, links)
    requires Faithful(lines, links, KeptPositions(lines))
    ensures NodeOfLog(lines, e, nodes[i])
  {
    hide KeptPositions, Faithful, NumberedInOrder, FirstLineNaming, EdgeFits, EndsAt, NumberAt;
    assert Justified(nodes[i], links);
    var k: nat :| NamedBy(links, k, nodes[i]);
    NamingLine(lines, links, k, nodes[i]);
    NamingNumber(nodes, e[k], links[k], i);
  }

  /** For every log: all edges and all nodes of the file in terms of log lines. */
  lemma LogToDot(lines: seq<Line<FilterLink>>)
    ensures var out := RenderAll(Graphs(lines), |Graphs(lines)|).out;
            && EdgesOfLog(lines, EdgesIn(out)) && NumbersFollowLog(lines, EdgesIn(out)) && LinesInOrder(out)
            && (forall i :: 0 <= i < |NodesOf(out)| ==> NodeOfLog(lines, EdgesIn(out), NodesOf(out)[i]))
  {
    hide RenderAll, Graphs, LabelGraphs, NodesOf, EdgesIn, KeptPositions, Faithful, NumberedInOrder, AllJustified, EdgesFollow,
         InSightOrder, EdgesOfLog, NodeOfLog, NumbersFollowLog, LinesInOrder;
    var graphs := Graphs(lines);
    var r, links := RenderAll(graphs, |graphs|), LabelGraphs(graphs);
    GraphsAreFaithful(lines);
    AllWellNumbered(graphs, |graphs|);
    assert graphs[..|graphs|] == graphs;
    EdgesFromLog(lines, r, links);
    NumbersFromLog(lines, NodesOf(r.out), EdgesIn(r.out), links);
    AllInOrder(graphs, |graphs|);
    forall i | 0 <= i < |NodesOf(r.out)| ensures NodeOfLog(lines, EdgesIn(r.out), NodesOf(r.out)[i]) {
      NodeFromLog(lines, NodesOf(r.out), EdgesIn(r.out), links, i);
    }
  }

  /** The script from log to dot file. */
  method Convert(lines: seq<Line<FilterLink>>) returns (out: seq<Out>, nodeNum: nat)
    ensures Rendered(out, nodeNum) == RenderAll(Graphs(lines), |Graphs(lines)|)
    ensures EdgesOfLog(lines, EdgesIn(out)) && nodeNum == |NodesOf(out)| + 1
    ensures LinesInOrder(out) && NumbersFollowLog(lines, EdgesIn(out))
    ensures forall i :: 0 <= i < |NodesOf(out)| ==>
              NodesOf(out)[i].number == i + 1 && NodeOfLog(lines, EdgesIn(out), NodesOf(out)[i])
  {
    hide RenderAll, Graphs, EdgesOfLog, NodeOfLog, NumbersFollowLog, LinesInOrder, EdgesIn, NodesOf, LabelGraphs, Faithful,
         InSightOrder;
    var graphs := GroupLinks(lines);
    out, nodeNum := Emit(graphs);
    LogToDot(lines);
  }
}
