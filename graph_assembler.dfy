/**
 * The visualization graph of the /api/graph handler in main.py: from the
 * neighbourhood query's single row (the center page and the DISTINCT lists
 * of its outgoing and incoming LINKS_TO neighbours) build the node list,
 * deduplicated by node id with the first group assignment winning, and one
 * edge per neighbour entry. A missing row is a 404, never an empty graph.
 */
module GraphAssembler {
  import opened Wrappers

  /** A :Page node as the store returns it: its internal id and its title. */
  datatype Node = Node(id: int, title: string)

  /** `RETURN p, collect(DISTINCT outgoing) as outgoing_links, collect(DISTINCT incoming) as incoming_links` */
  datatype QueryRow = QueryRow(p: Node, outgoing: seq<Node>, incoming: seq<Node>)

  /** `{"id": ..., "label": ..., "group": ...}`; `label` is a Dafny keyword, hence `caption`. */
  datatype VNode = VNode(id: int, caption: string, group: int)

  /** `{"from": ..., "to": ...}` */
  datatype Edge = Edge(from: int, to: int)

  datatype Response =
    | Graph(nodes: seq<VNode>, edges: seq<Edge>)
    | HttpError(status: int, detail: string)

  const CenterGroup := 1
  const OutgoingGroup := 2
  const IncomingGroup := 3
  const NotFoundStatus := 404

  /** The ids of a node list, collected from the front. */
  function Ids(ns: seq<VNode>): set<int>
  {
    if ns == [] then {} else Ids(ns[..|ns| - 1]) + {ns[|ns| - 1].id}
  }

  function NodeIds(ns: seq<Node>): set<int>
  {
    set n | n in ns :: n.id
  }

  ghost predicate DistinctIds(ns: seq<VNode>)
  {
    forall i, j :: 0 <= i < j < |ns| ==> ns[i].id != ns[j].id
  }

  /** The nodes of a neighbour list as visualization nodes of one group, in order. */
  function Tagged(ns: seq<Node>, group: int): (r: seq<VNode>)
    ensures |r| == |ns|
    ensures forall i :: 0 <= i < |ns| ==> r[i] == VNode(ns[i].id, ns[i].title, group)
  {
    if ns == [] then []
    else Tagged(ns[..|ns| - 1], group) + [VNode(ns[|ns| - 1].id, ns[|ns| - 1].title, group)]
  }

  /** Every node the handler considers adding, in the order it considers them. */
  function Candidates(p: Node, outgoing: seq<Node>, incoming: seq<Node>): seq<VNode>
  {
    [VNode(p.id, p.title, CenterGroup)] + Tagged(outgoing, OutgoingGroup) + Tagged(incoming, IncomingGroup)
  }

  /** One step of the `node_ids` filter: a node is appended exactly when its id is new. */
  function Keep(kept: seq<VNode>, x: VNode): seq<VNode>
  {
    if x.id in Ids(kept) then kept else kept + [x]
  }

  /** The filter applied to each node of `xs` in order, starting from `kept`. */
  function KeepAll(kept: seq<VNode>, xs: seq<VNode>): seq<VNode>
  {
    if xs == [] then kept else Keep(KeepAll(kept, xs[..|xs| - 1]), xs[|xs| - 1])
  }

  /** Reference definition of the node list: keep the first node of each id, in order. */
  function FirstById(s: seq<VNode>): seq<VNode>
  {
    KeepAll([], s)
  }

  /** The first node of `s` that has the given id. */
  function FirstWith(s: seq<VNode>, id: int): VNode
    requires id in Ids(s)
  {
    var init := s[..|s| - 1];
    assert s == init + [s[|s| - 1]];
    if id in Ids(init) then FirstWith(init, id) else s[|s| - 1]
  }

  /** The group the handler gives to a node id of a row: first assignment wins. */
  function GroupOf(row: QueryRow, id: int): int
  {
    if id == row.p.id then CenterGroup
    else if id in NodeIds(row.outgoing) then OutgoingGroup
    else IncomingGroup
  }

  /** An id is collected exactly when some node of the list carries it. */
  lemma {:induction false} IdsMember(ns: seq<VNode>)
    ensures forall id :: id in Ids(ns) <==> exists n :: n in ns && n.id == id
  {
    if ns != [] {
      var init := ns[..|ns| - 1];
      assert ns == init + [ns[|ns| - 1]];
      IdsMember(init);
    }
  }

  lemma {:induction false} IdsAppend(a: seq<VNode>, b: seq<VNode>)
    ensures Ids(a + b) == Ids(a) + Ids(b)
  {
    if b == [] {
      assert a + b == a;
    } else {
      var init := b[..|b| - 1];
      var last := b[|b| - 1];
      assert b == init + [last];
      assert a + b == (a + init) + [last];
      IdsAppend(a, init);
      IdsSnoc(a + init, last);
      IdsSnoc(init, last);
    }
  }

  lemma TaggedIds(ns: seq<Node>, group: int)
    ensures Ids(Tagged(ns, group)) == NodeIds(ns)
    ensures forall n :: n in Tagged(ns, group) ==> n.group == group
  {
    var t := Tagged(ns, group);
    IdsMember(t);
    forall id | id in NodeIds(ns) ensures id in Ids(t) {
      var n :| n in ns && n.id == id;
      var i :| 0 <= i < |ns| && ns[i] == n;
      assert t[i].id == id;
    }
  }

  /** Considering one more node: it is kept exactly when its id is new. */
  lemma KeepAllSnoc(kept: seq<VNode>, s: seq<VNode>, x: VNode)
    ensures KeepAll(kept, s + [x]) == Keep(KeepAll(kept, s), x)
  {
    assert (s + [x])[..|s|] == s;
  }

  lemma FirstByIdSnoc(s: seq<VNode>, x: VNode)
    ensures FirstById(s + [x]) == if x.id in Ids(FirstById(s)) then FirstById(s) else FirstById(s) + [x]
  {
    KeepAllSnoc([], s, x);
  }

  /** Filtering `a` and then `b` is filtering `a + b`. */
  lemma {:induction false} KeepAllAppend(kept: seq<VNode>, a: seq<VNode>, b: seq<VNode>)
    ensures KeepAll(KeepAll(kept, a), b) == KeepAll(kept, a + b)
  {
    if b == [] {
      assert a + b == a;
    } else {
      var init := b[..|b| - 1];
      var last := b[|b| - 1];
      assert a + b == (a + init) + [last];
      KeepAllAppend(kept, a, init);
      KeepAllSnoc(kept, a + init, last);
    }
  }

  /** Appending to a list adds exactly the new node's id. */
  lemma IdsSnoc(ns: seq<VNode>, x: VNode)
    ensures Ids(ns + [x]) == Ids(ns) + {x.id}
  {
    assert (ns + [x])[..|ns|] == ns;
  }

  /**
   * The kept nodes have pairwise distinct ids, cover every id of the input,
   * are input nodes, and are no more than the input.
   */
  lemma {:induction false} FirstByIdProps(s: seq<VNode>)
    ensures var r := FirstById(s);
      DistinctIds(r) && Ids(r) == Ids(s) && |r| <= |s| && (forall n :: n in r ==> n in s)
  {
    if s != [] {
      var init := s[..|s| - 1];
      var last := s[|s| - 1];
      assert s == init + [last];
      FirstByIdProps(init);
      FirstByIdSnoc(init, last);
      IdsAppend(init, [last]);
      var kept := FirstById(init);
      IdsAppend(kept, [last]);
      assert Ids([last]) == {last.id};
      if last.id !in Ids(kept) {
        IdsMember(kept);
        forall i | 0 <= i < |kept| ensures kept[i].id != last.id {
          assert kept[i] in kept;
        }
      }
    }
  }

  lemma {:induction false} FirstWithIn(s: seq<VNode>, id: int)
    requires id in Ids(s)
    ensures FirstWith(s, id) in s && FirstWith(s, id).id == id
  {
    var init := s[..|s| - 1];
    assert s == init + [s[|s| - 1]];
    IdsAppend(init, [s[|s| - 1]]);
    if id in Ids(init) {
      FirstWithIn(init, id);
    } else {
      assert Ids([s[|s| - 1]]) == {s[|s| - 1].id};
    }
  }

  /** The first node with an id in `a + b` is the first in `a`, or else the first in `b`. */
  lemma {:induction false} FirstWithAppend(a: seq<VNode>, b: seq<VNode>, id: int)
    requires id in Ids(a + b)
    ensures id in Ids(a) ==> FirstWith(a + b, id) == FirstWith(a, id)
    ensures id !in Ids(a) ==> id in Ids(b) && FirstWith(a + b, id) == FirstWith(b, id)
    decreases |b|
  {
    IdsAppend(a, b);
    if b == [] {
      assert a + b == a;
    } else {
      var init := b[..|b| - 1];
      var last := b[|b| - 1];
      assert b == init + [last];
      assert (a + b)[..|a + b| - 1] == a + init;
      IdsAppend(a, init);
      IdsAppend(init, [last]);
      assert Ids([last]) == {last.id};
      if id in Ids(a + init) {
        FirstWithAppend(a, init, id);
      }
    }
  }

  /**
   * First assignment wins: every kept node is the first candidate with its id.
   */
  lemma {:induction false} FirstByIdFirstWins(s: seq<VNode>)
    ensures var r := FirstById(s);
      forall k :: 0 <= k < |r| ==> r[k].id in Ids(s) && r[k] == FirstWith(s, r[k].id)
  {
    if s != [] {
      var init := s[..|s| - 1];
      var last := s[|s| - 1];
      assert s == init + [last];
      FirstByIdFirstWins(init);
      FirstByIdSnoc(init, last);
      FirstByIdProps(init);
      IdsAppend(init, [last]);
      var kept := FirstById(init);
      var r := FirstById(s);
      forall k | 0 <= k < |r| ensures r[k].id in Ids(s) && r[k] == FirstWith(s, r[k].id) {
        if k < |kept| {
          assert kept[k] in kept;
          FirstWithAppend(init, [last], kept[k].id);
        } else {
          assert Ids([last]) == {last.id};
          FirstWithAppend(init, [last], last.id);
        }
      }
    }
  }

  /**
   * The group of the first candidate with an id: the center's id keeps
   * group 1, an outgoing neighbour's id group 2 even if it is also incoming,
   * and only ids that are incoming alone get group 3.
   */
  lemma CandidateGroup(row: QueryRow, id: int)
    requires id in Ids(Candidates(row.p, row.outgoing, row.incoming))
    ensures FirstWith(Candidates(row.p, row.outgoing, row.incoming), id).group == GroupOf(row, id)
  {
    var c := [VNode(row.p.id, row.p.title, CenterGroup)];
    var o := Tagged(row.outgoing, OutgoingGroup);
    var i := Tagged(row.incoming, IncomingGroup);
    TaggedIds(row.outgoing, OutgoingGroup);
    TaggedIds(row.incoming, IncomingGroup);
    IdsAppend(c, o);
    assert Ids(c) == {row.p.id};
    FirstWithAppend(c + o, i, id);
    if id in Ids(c + o) {
      FirstWithAppend(c, o, id);
      if id in Ids(c) {
        assert FirstWith(c, id) == c[0];
      } else {
        FirstWithIn(o, id);
      }
    } else {
      FirstWithIn(i, id);
    }
  }

  /**
   * The graph the handler builds from a row: the candidates filtered by
   * first id, and one edge center->n per outgoing entry followed by one
   * edge n->center per incoming entry.
   */
  function Assemble(row: QueryRow): Response
  {
    Graph(FirstById(Candidates(row.p, row.outgoing, row.incoming)),
          EdgesFrom(row.p.id, row.outgoing) + EdgesTo(row.incoming, row.p.id))
  }

  /**
   * `get_graph_data`: NotFound (404) when the query returns no row,
   * otherwise the assembled graph.
   */
  method GetGraphData(row: Option<QueryRow>) returns (r: Response)
    ensures row.None? <==> r.HttpError?
    ensures row.None? ==> r == HttpError(NotFoundStatus, "Page not found")
    ensures row.Some? ==> r == Assemble(row.value)
  {
    if row.None? {
      return HttpError(NotFoundStatus, "Page not found");
    }
    var result := row.value;
    var mainNode := result.p;
    var nodes, nodeIds := Absorb([], {}, VNode(mainNode.id, mainNode.title, CenterGroup));
    var edges;
    nodes, nodeIds, edges := AddOutgoing(mainNode, result.outgoing, nodes, nodeIds);
    nodes, nodeIds, edges := AddIncoming(mainNode, result.incoming, nodes, nodeIds, edges);
    r := Graph(nodes, edges);
    AssembleSteps(result);
  }

  /** The three phases of the handler together filter all candidates at once. */
  lemma AssembleSteps(row: QueryRow)
    ensures KeepAll(KeepAll(Keep([], VNode(row.p.id, row.p.title, CenterGroup)),
                            Tagged(row.outgoing, OutgoingGroup)),
                    Tagged(row.incoming, IncomingGroup))
         == FirstById(Candidates(row.p, row.outgoing, row.incoming))
  {
    var c := [VNode(row.p.id, row.p.title, CenterGroup)];
    var o := Tagged(row.outgoing, OutgoingGroup);
    var i := Tagged(row.incoming, IncomingGroup);
    assert c == [] + [c[0]];
    KeepAllSnoc([], [], c[0]);
    KeepAllAppend([], c, o);
    KeepAllAppend([], c + o, i);
  }

  /**
   * The `node_ids` filter for one node: append it exactly when its id has
   * not been seen, with `node_ids` kept equal to the ids of the list.
   */
  method Absorb(nodes0: seq<VNode>, nodeIds0: set<int>, node: VNode) returns (nodes: seq<VNode>, nodeIds: set<int>)
    requires nodeIds0 == Ids(nodes0)
    ensures nodes == Keep(nodes0, node) && nodeIds == Ids(nodes)
  {
    nodes, nodeIds := nodes0, nodeIds0;
    if node.id !in nodeIds {
      IdsSnoc(nodes, node);
      nodes := nodes + [node];
      nodeIds := nodeIds + {node.id};
    }
  }

  /** The outgoing loop: each neighbour is offered with group 2 and gets an edge center->n. */
  method AddOutgoing(center: Node, outgoing: seq<Node>, nodes0: seq<VNode>, nodeIds0: set<int>)
    returns (nodes: seq<VNode>, nodeIds: set<int>, edges: seq<Edge>)
    requires nodeIds0 == Ids(nodes0)
    ensures nodes == KeepAll(nodes0, Tagged(outgoing, OutgoingGroup)) && nodeIds == Ids(nodes)
    ensures edges == EdgesFrom(center.id, outgoing)
  {
    nodes, nodeIds, edges := nodes0, nodeIds0, [];
    for i := 0 to |outgoing|
      invariant nodes == KeepAll(nodes0, Tagged(outgoing[..i], OutgoingGroup)) && nodeIds == Ids(nodes)
      invariant edges == EdgesFrom(center.id, outgoing[..i])
    {
      var node := outgoing[i];
      ghost var x := VNode(node.id, node.title, OutgoingGroup);
      assert outgoing[..i + 1][..i] == outgoing[..i];
      KeepAllSnoc(nodes0, Tagged(outgoing[..i], OutgoingGroup), x);
      nodes, nodeIds := Absorb(nodes, nodeIds, VNode(node.id, node.title, OutgoingGroup));
      edges := edges + [Edge(center.id, node.id)];
    }
    assert outgoing[..|outgoing|] == outgoing;
  }

  /** The incoming loop: each neighbour is offered with group 3 and gets an edge n->center. */
  method AddIncoming(center: Node, incoming: seq<Node>, nodes0: seq<VNode>, nodeIds0: set<int>, edges0: seq<Edge>)
    returns (nodes: seq<VNode>, nodeIds: set<int>, edges: seq<Edge>)
    requires nodeIds0 == Ids(nodes0)
    ensures nodes == KeepAll(nodes0, Tagged(incoming, IncomingGroup)) && nodeIds == Ids(nodes)
    ensures edges == edges0 + EdgesTo(incoming, center.id)
  {
    nodes, nodeIds, edges := nodes0, nodeIds0, edges0;
    for i := 0 to |incoming|
      invariant nodes == KeepAll(nodes0, Tagged(incoming[..i], IncomingGroup)) && nodeIds == Ids(nodes)
      invariant edges == edges0 + EdgesTo(incoming[..i], center.id)
    {
      var node := incoming[i];
      ghost var x := VNode(node.id, node.title, IncomingGroup);
      assert incoming[..i + 1][..i] == incoming[..i];
      KeepAllSnoc(nodes0, Tagged(incoming[..i], IncomingGroup), x);
      nodes, nodeIds := Absorb(nodes, nodeIds, VNode(node.id, node.title, IncomingGroup));
      ghost var tail := EdgesTo(incoming[..i], center.id);
      assert edges0 + (tail + [Edge(node.id, center.id)]) == (edges0 + tail) + [Edge(node.id, center.id)];
      edges := edges + [Edge(node.id, center.id)];
    }
    assert incoming[..|incoming|] == incoming;
  }

  /** The edges center->n of the outgoing loop, one per entry. */
  function EdgesFrom(center: int, ns: seq<Node>): seq<Edge>
  {
    if ns == [] then [] else EdgesFrom(center, ns[..|ns| - 1]) + [Edge(center, ns[|ns| - 1].id)]
  }

  /** The edges n->center of the incoming loop, one per entry. */
  function EdgesTo(ns: seq<Node>, center: int): seq<Edge>
  {
    if ns == [] then [] else EdgesTo(ns[..|ns| - 1], center) + [Edge(ns[|ns| - 1].id, center)]
  }

  lemma {:induction false} EdgesFromAt(center: int, ns: seq<Node>)
    ensures |EdgesFrom(center, ns)| == |ns|
    ensures forall i :: 0 <= i < |ns| ==> EdgesFrom(center, ns)[i] == Edge(center, ns[i].id)
  {
    if ns != [] {
      EdgesFromAt(center, ns[..|ns| - 1]);
    }
  }

  lemma {:induction false} EdgesToAt(ns: seq<Node>, center: int)
    ensures |EdgesTo(ns, center)| == |ns|
    ensures forall i :: 0 <= i < |ns| ==> EdgesTo(ns, center)[i] == Edge(ns[i].id, center)
  {
    if ns != [] {
      EdgesToAt(ns[..|ns| - 1], center);
    }
  }

  /** One edge per outgoing entry, then one per incoming entry, in input order. */
  lemma EdgesAt(row: QueryRow, edges: seq<Edge>)
    requires edges == EdgesFrom(row.p.id, row.outgoing) + EdgesTo(row.incoming, row.p.id)
    ensures |edges| == |row.outgoing| + |row.incoming|
    ensures forall i :: 0 <= i < |row.outgoing| ==> edges[i] == Edge(row.p.id, row.outgoing[i].id)
    ensures forall i :: |row.outgoing| <= i < |edges| ==> edges[i] == Edge(row.incoming[i - |row.outgoing|].id, row.p.id)
  {
    EdgesFromAt(row.p.id, row.outgoing);
    EdgesToAt(row.incoming, row.p.id);
  }

  /** The ids of the candidates are the center's and all neighbours' ids. */
  lemma CandidateIds(p: Node, outgoing: seq<Node>, incoming: seq<Node>)
    ensures Ids(Candidates(p, outgoing, incoming)) == {p.id} + NodeIds(outgoing) + NodeIds(incoming)
  {
    var c := [VNode(p.id, p.title, CenterGroup)];
    var o := Tagged(outgoing, OutgoingGroup);
    TaggedIds(outgoing, OutgoingGroup);
    TaggedIds(incoming, IncomingGroup);
    IdsAppend(c, o);
    IdsAppend(c + o, Tagged(incoming, IncomingGroup));
    assert Ids(c) == {p.id};
  }

  /** Every kept node carries the group its id is given by first assignment. */
  lemma KeptGroups(row: QueryRow)
    ensures var nodes := FirstById(Candidates(row.p, row.outgoing, row.incoming));
      forall k :: 0 <= k < |nodes| ==> nodes[k].group == GroupOf(row, nodes[k].id)
  {
    var cands := Candidates(row.p, row.outgoing, row.incoming);
    var nodes := FirstById(cands);
    FirstByIdFirstWins(cands);
    forall k | 0 <= k < |nodes| ensures nodes[k].group == GroupOf(row, nodes[k].id) {
      assert nodes[k].id in Ids(cands) && nodes[k] == FirstWith(cands, nodes[k].id);
      CandidateGroup(row, nodes[k].id);
    }
  }

  /** With every neighbour id among the node ids, no edge dangles. */
  lemma EdgesCovered(row: QueryRow, ids: set<int>, edges: seq<Edge>)
    requires ids == {row.p.id} + NodeIds(row.outgoing) + NodeIds(row.incoming)
    requires |edges| == |row.outgoing| + |row.incoming|
    requires forall i :: 0 <= i < |row.outgoing| ==> edges[i] == Edge(row.p.id, row.outgoing[i].id)
    requires forall i :: |row.outgoing| <= i < |edges| ==> edges[i] == Edge(row.incoming[i - |row.outgoing|].id, row.p.id)
    ensures forall e :: e in edges ==> e.from in ids && e.to in ids
  {
    forall e | e in edges ensures e.from in ids && e.to in ids {
      var j :| 0 <= j < |edges| && edges[j] == e;
      if j < |row.outgoing| {
        assert row.outgoing[j] in row.outgoing;
      } else {
        assert row.incoming[j - |row.outgoing|] in row.incoming;
      }
    }
  }

  /**
   * What the assembled graph satisfies: the center first with group 1,
   * unique ids, first group wins, exactly the ids of the row present, at
   * most one node per candidate, one edge per neighbour entry in order, and
   * no edge endpoint missing from the nodes.
   */
  lemma GraphFacts(row: QueryRow)
    ensures var g := Assemble(row);
      var p, outgoing, incoming := row.p, row.outgoing, row.incoming;
      |g.nodes| >= 1 && g.nodes[0] == VNode(p.id, p.title, CenterGroup) &&
      DistinctIds(g.nodes) &&
      (forall k :: 0 <= k < |g.nodes| ==> g.nodes[k].group == GroupOf(row, g.nodes[k].id)) &&
      Ids(g.nodes) == {p.id} + NodeIds(outgoing) + NodeIds(incoming) &&
      |g.nodes| <= 1 + |outgoing| + |incoming| &&
      |g.edges| == |outgoing| + |incoming| &&
      (forall i :: 0 <= i < |outgoing| ==> g.edges[i] == Edge(p.id, outgoing[i].id)) &&
      (forall i :: |outgoing| <= i < |g.edges| ==> g.edges[i] == Edge(incoming[i - |outgoing|].id, p.id)) &&
      (forall e :: e in g.edges ==> e.from in Ids(g.nodes) && e.to in Ids(g.nodes))
  {
    var g := Assemble(row);
    var c := [VNode(row.p.id, row.p.title, CenterGroup)];
    var rest := Tagged(row.outgoing, OutgoingGroup) + Tagged(row.incoming, IncomingGroup);
    assert Candidates(row.p, row.outgoing, row.incoming) == c + rest;
    FirstByIdPrefix(c, rest);
    FirstByIdProps(c + rest);
    CandidateIds(row.p, row.outgoing, row.incoming);
    KeptGroups(row);
    EdgesAt(row, g.edges);
    EdgesCovered(row, Ids(g.nodes), g.edges);
  }

  /** The first node considered is always kept, in front. */
  lemma FirstByIdPrefix(c: seq<VNode>, rest: seq<VNode>)
    requires |c| == 1
    ensures |FirstById(c + rest)| >= 1 && FirstById(c + rest)[0] == c[0]
    decreases |rest|
  {
    if rest == [] {
      assert c + rest == [] + [c[0]];
      FirstByIdSnoc([], c[0]);
    } else {
      var init := rest[..|rest| - 1];
      var last := rest[|rest| - 1];
      assert c + rest == (c + init) + [last];
      FirstByIdSnoc(c + init, last);
      FirstByIdPrefix(c, init);
    }
  }
}
