/** The knowledge graph: workspaces of nodes and labelled edges, and the
    breadth-first search for what is related to a node. */
module Graph {
  import opened Base

  datatype Node = Node(id: Bytes, label_: Bytes, metadata: map<Bytes, Bytes>)
  datatype Edge = Edge(from: Bytes, to: Bytes, label_: Bytes, weight: real)
  datatype EdgeKey = EdgeKey(from: Bytes, to: Bytes, label_: Bytes)
  datatype RelatedNode = RelatedNode(node: Node, edge: Edge, hops: nat)

  function KeyOf(e: Edge): EdgeKey { EdgeKey(e.from, e.to, e.label_) }

  /** One workspace's graph as a value. */
  datatype G = G(nodes: map<Bytes, Node>, edges: map<EdgeKey, Edge>)

  ghost predicate Keyed(g: G) {
    && (forall id :: id in g.nodes ==> g.nodes[id].id == id)
    && (forall k :: k in g.edges ==> KeyOf(g.edges[k]) == k)
  }

  // -------------------------------------------------------------------- distance

  predicate Touches(e: Edge, u: Bytes, v: Bytes) {
    (e.from == u && e.to == v) || (e.to == u && e.from == v)
  }

  /** Some edge joins the two, in either direction. */
  ghost predicate Joined(g: G, u: Bytes, v: Bytes) {
    exists k :: k in g.edges && Touches(g.edges[k], u, v)
  }

  /** A walk through nodes that exist. */
  ghost predicate Walk(g: G, p: seq<Bytes>) {
    && (forall i :: 0 <= i < |p| ==> p[i] in g.nodes)
    && (forall i :: 0 < i < |p| ==> Joined(g, p[i - 1], p[i]))
  }

  ghost predicate WalkBetween(g: G, s: Bytes, v: Bytes, p: seq<Bytes>) {
    p != [] && p[0] == s && p[|p| - 1] == v && Walk(g, p)
  }

  ghost predicate Reaches(g: G, s: Bytes, v: Bytes, h: nat) {
    exists p :: WalkBetween(g, s, v, p) && |p| == h + 1
  }

  /** h is the length of a shortest walk. */
  ghost predicate IsDistance(g: G, s: Bytes, v: Bytes, h: nat) {
    Reaches(g, s, v, h) && forall i: nat :: i < h ==> !Reaches(g, s, v, i)
  }

  lemma {:induction false} ReachedHasDistance(g: G, s: Bytes, v: Bytes, h: nat) returns (i: nat)
    requires Reaches(g, s, v, h)
    ensures i <= h && IsDistance(g, s, v, i)
    decreases h
  {
    i := h;
    if j: nat :| j < h && Reaches(g, s, v, j) {
      i := ReachedHasDistance(g, s, v, j);
    }
  }

  lemma DistanceUnique(g: G, s: Bytes, v: Bytes, h: nat, i: nat)
    requires IsDistance(g, s, v, h) && IsDistance(g, s, v, i)
    ensures h == i
  {}

  lemma OneStepOn(g: G, s: Bytes, u: Bytes, v: Bytes, h: nat)
    requires Reaches(g, s, u, h) && v in g.nodes && Joined(g, u, v)
    ensures Reaches(g, s, v, h + 1)
  {
    var p :| WalkBetween(g, s, u, p) && |p| == h + 1;
    assert WalkBetween(g, s, v, p + [v]);
  }

  /** The last step of a shortest walk starts one step nearer. */
  lemma OneStepBack(g: G, s: Bytes, v: Bytes, h: nat) returns (u: Bytes)
    requires IsDistance(g, s, v, h) && h > 0
    ensures IsDistance(g, s, u, h - 1) && Joined(g, u, v) && v in g.nodes
  {
    var p :| WalkBetween(g, s, v, p) && |p| == h + 1;
    u := p[h - 1];
    assert Joined(g, p[h - 1], p[h]);
    assert WalkBetween(g, s, u, p[..h]);
    forall i: nat | i < h - 1 ensures !Reaches(g, s, u, i) {
      if Reaches(g, s, u, i) { OneStepOn(g, s, u, v, i); }
    }
  }

  lemma StartIsNear(g: G, s: Bytes)
    requires s in g.nodes
    ensures IsDistance(g, s, s, 0)
    ensures forall v :: IsDistance(g, s, v, 0) ==> v == s
  {
    assert WalkBetween(g, s, s, [s]);
  }

  ghost predicate Near(g: G, s: Bytes, v: Bytes, h: nat) {
    exists i: nat :: i <= h && IsDistance(g, s, v, i)
  }

  // ------------------------------------------------------------------- the answer

  /** What may be reported: a real node other than the start, its distance, and an
      edge that joins it to a node one step nearer. */
  ghost predicate Sound(g: G, s: Bytes, depth: nat, r: RelatedNode) {
    && r.node.id in g.nodes && g.nodes[r.node.id] == r.node && r.node.id != s
    && 1 <= r.hops <= depth && IsDistance(g, s, r.node.id, r.hops)
    && r.edge in g.edges.Values
    && exists u :: IsDistance(g, s, u, r.hops - 1) && Touches(r.edge, u, r.node.id)
  }

  /** Exactly the nodes at distance 1 to depth, each once. */
  ghost predicate Answers(g: G, s: Bytes, depth: nat, out: seq<RelatedNode>) {
    && (forall i :: 0 <= i < |out| ==> Sound(g, s, depth, out[i]))
    && (forall i, j :: 0 <= i < j < |out| ==> out[i].node.id != out[j].node.id)
    && (forall v, h: nat :: 1 <= h <= depth && IsDistance(g, s, v, h) ==> Reported(out, v, h))
  }

  ghost predicate Reported(out: seq<RelatedNode>, v: Bytes, h: nat) {
    exists i :: 0 <= i < |out| && out[i].node.id == v && out[i].hops == h
  }

  /** The answer to one and the same question lists the same nodes at the same hops,
      whatever order the edges are visited in. */
  lemma AnswersAreUnique(g: G, s: Bytes, depth: nat, a: seq<RelatedNode>, b: seq<RelatedNode>, v: Bytes, h: nat)
    requires Answers(g, s, depth, a) && Answers(g, s, depth, b)
    ensures Reported(a, v, h) <==> Reported(b, v, h)
  {
    if Reported(a, v, h) { var i :| 0 <= i < |a| && a[i].node.id == v && a[i].hops == h; assert Sound(g, s, depth, a[i]); }
    if Reported(b, v, h) { var i :| 0 <= i < |b| && b[i].node.id == v && b[i].hops == h; assert Sound(g, s, depth, b[i]); }
  }

  lemma WalkReversed(g: G, s: Bytes, v: Bytes, h: nat)
    requires Reaches(g, s, v, h)
    ensures Reaches(g, v, s, h)
  {
    var p :| WalkBetween(g, s, v, p) && |p| == h + 1;
    var q := seq(|p|, i requires 0 <= i < |p| => p[|p| - 1 - i]);
    forall i | 0 < i < |q| ensures Joined(g, q[i - 1], q[i]) {
      assert Joined(g, p[|p| - 1 - i], p[|p| - i]);
      var k :| k in g.edges && Touches(g.edges[k], p[|p| - 1 - i], p[|p| - i]);
      assert Touches(g.edges[k], q[i - 1], q[i]);
    }
    assert WalkBetween(g, v, s, q);
  }

  lemma DistanceSymmetric(g: G, s: Bytes, v: Bytes, h: nat)
    requires IsDistance(g, s, v, h)
    ensures IsDistance(g, v, s, h)
  {
    WalkReversed(g, s, v, h);
    forall i: nat | i < h ensures !Reaches(g, v, s, i) {
      if Reaches(g, v, s, i) { WalkReversed(g, v, s, i); }
    }
  }

  /** Being related is mutual: v shows up around s at h hops if and only if s does around v. */
  lemma RelatedIsSymmetric(g: G, s: Bytes, v: Bytes, depth: nat, a: seq<RelatedNode>, b: seq<RelatedNode>, h: nat)
    requires Answers(g, s, depth, a) && Answers(g, v, depth, b)
    ensures Reported(a, v, h) <==> Reported(b, s, h)
  {
    if Reported(a, v, h) {
      var i :| 0 <= i < |a| && a[i].node.id == v && a[i].hops == h;
      assert Sound(g, s, depth, a[i]);
      DistanceSymmetric(g, s, v, h);
    }
    if Reported(b, s, h) {
      var i :| 0 <= i < |b| && b[i].node.id == s && b[i].hops == h;
      assert Sound(g, v, depth, b[i]);
      DistanceSymmetric(g, v, s, h);
    }
  }

  /** A greater depth adds nodes further out and changes nothing nearer. */
  lemma RelatedIsMonotone(g: G, s: Bytes, d: nat, e: nat, a: seq<RelatedNode>, b: seq<RelatedNode>, v: Bytes, h: nat)
    requires d <= e && Answers(g, s, d, a) && Answers(g, s, e, b)
    ensures Reported(a, v, h) <==> h <= d && Reported(b, v, h)
  {
    if Reported(a, v, h) { var i :| 0 <= i < |a| && a[i].node.id == v && a[i].hops == h; assert Sound(g, s, d, a[i]); }
    if Reported(b, v, h) { var i :| 0 <= i < |b| && b[i].node.id == v && b[i].hops == h; assert Sound(g, s, e, b[i]); }
  }

  // ------------------------------------------------------------- the search itself

  /** Once no node is i steps away none is further. */
  lemma {:induction false} EmptyLayerEnds(g: G, s: Bytes, i: nat, v: Bytes, h: nat)
    requires i <= h && forall u :: !IsDistance(g, s, u, i)
    ensures !IsDistance(g, s, v, h)
    decreases h
  {
    if IsDistance(g, s, v, h) && h > i {
      var u := OneStepBack(g, s, v, h);
      EmptyLayerEnds(g, s, i, u, h - 1);
    }
  }

  /** visited, restricted to real nodes, is everything within hop - 1 steps plus next. */
  ghost predicate Frontier(g: G, s: Bytes, hop: nat, visited: set<Bytes>, next: seq<Bytes>)
    requires hop >= 1
  {
    && (forall v :: v in g.nodes ==> (v in visited <==> Near(g, s, v, hop - 1) || v in next))
    && (forall v :: v in next ==> v in g.nodes && IsDistance(g, s, v, hop))
  }

  /** The edge has been tried from the first n frontier nodes. */
  ghost predicate Tried(e: Edge, frontier: seq<Bytes>, n: nat, visited: set<Bytes>)
    requires n <= |frontier|
  {
    forall i, v :: 0 <= i < n && Touches(e, frontier[i], v) ==> v in visited
  }

  lemma LayerComplete(g: G, s: Bytes, hop: nat, visited: set<Bytes>, frontier: seq<Bytes>, next: seq<Bytes>)
    requires hop >= 1 && Frontier(g, s, hop, visited, next)
    requires forall v :: v in frontier <==> IsDistance(g, s, v, hop - 1)
    requires forall k :: k in g.edges ==> Tried(g.edges[k], frontier, |frontier|, visited)
    ensures forall v :: v in next <==> IsDistance(g, s, v, hop)
    ensures Frontier(g, s, hop + 1, visited, [])
  {
    forall v | IsDistance(g, s, v, hop) ensures v in next {
      var u := OneStepBack(g, s, v, hop);
      assert u in frontier;
      var i :| 0 <= i < |frontier| && frontier[i] == u;
      var k :| k in g.edges && Touches(g.edges[k], u, v);
      assert Tried(g.edges[k], frontier, |frontier|, visited);
      forall j: nat | IsDistance(g, s, v, j) ensures j == hop { DistanceUnique(g, s, v, hop, j); }
    }
    forall v ensures Near(g, s, v, hop) <==> Near(g, s, v, hop - 1) || IsDistance(g, s, v, hop) {}
  }

  /** The far end of an edge seen from a frontier node is new to the layer. */
  lemma NewInLayer(g: G, s: Bytes, hop: nat, e: EdgeKey, u: Bytes, v: Bytes)
    requires hop >= 1 && e in g.edges && Touches(g.edges[e], u, v)
    requires v in g.nodes && IsDistance(g, s, u, hop - 1) && !Near(g, s, v, hop - 1)
    ensures IsDistance(g, s, v, hop)
  {
    assert Joined(g, u, v);
    OneStepOn(g, s, u, v, hop - 1);
    var i := ReachedHasDistance(g, s, v, hop);
    assert i == hop;
  }

  // ------------------------------------------------------------------- the store

  class WorkspaceGraph {
    var nodes: map<Bytes, Node>
    var edges: map<EdgeKey, Edge>

    constructor ()
      ensures nodes == map[] && edges == map[]
    {
      nodes, edges := map[], map[];
    }
  }

  class Store {
    var byWS: map<Bytes, WorkspaceGraph>
    ghost var graphs: set<WorkspaceGraph>

    constructor ()
      ensures Valid() && byWS == map[] && graphs == {}
    {
      byWS, graphs := map[], {};
    }

    ghost predicate Valid()
      reads this, graphs
    {
      && (forall ws :: ws in byWS ==> byWS[ws] in graphs && Keyed(G(byWS[ws].nodes, byWS[ws].edges)))
      && (forall ws, ws' :: ws in byWS && ws' in byWS && ws != ws' ==> byWS[ws] != byWS[ws'])
    }

    /** A workspace nothing was ever put into is an empty graph. */
    ghost function GraphOf(ws: Bytes): G
      requires Valid()
      reads this, graphs
    {
      if ws in byWS then G(byWS[ws].nodes, byWS[ws].edges) else G(map[], map[])
    }

    method GetOrCreate(ws: Bytes) returns (g: WorkspaceGraph)
      requires Valid()
      modifies this
      ensures Valid() && fresh(graphs - old(graphs)) && old(graphs) <= graphs
      ensures ws in byWS && byWS[ws] == g && g in graphs
      ensures forall w :: GraphOf(w) == old(GraphOf(w))
    {
      if ws !in byWS {
        g := new WorkspaceGraph();
        byWS := byWS[ws := g];
        graphs := graphs + {g};
      } else {
        g := byWS[ws];
      }
    }

    method UpsertNode(ws: Bytes, n: Node)
      requires Valid()
      modifies this, graphs
      ensures Valid() && fresh(graphs - old(graphs))
      ensures GraphOf(ws) == old(GraphOf(ws)).(nodes := old(GraphOf(ws)).nodes[n.id := n])
      ensures forall w :: w != ws ==> GraphOf(w) == old(GraphOf(w))
    {
      var g := GetOrCreate(ws);
      g.nodes := g.nodes[n.id := n];
    }

    method UpsertEdge(ws: Bytes, e: Edge)
      requires Valid()
      modifies this, graphs
      ensures Valid() && fresh(graphs - old(graphs))
      ensures GraphOf(ws) == old(GraphOf(ws)).(edges := old(GraphOf(ws)).edges[KeyOf(e) := e])
      ensures forall w :: w != ws ==> GraphOf(w) == old(GraphOf(w))
    {
      var g := GetOrCreate(ws);
      g.edges := g.edges[KeyOf(e) := e];
    }

    method GetNode(ws: Bytes, id: Bytes) returns (n: Option<Node>)
      requires Valid()
      ensures n == if id in GraphOf(ws).nodes then Some(GraphOf(ws).nodes[id]) else None
    {
      if ws !in byWS { return None; }
      if id !in byWS[ws].nodes { return None; }
      return Some(byWS[ws].nodes[id]);
    }

    /** The breadth-first search, visiting the edges of each hop in arbitrary order. */
    method Related(ws: Bytes, nodeID: Bytes, depth0: int) returns (out: seq<RelatedNode>)
      requires Valid()
      ensures nodeID !in GraphOf(ws).nodes ==> out == []
      ensures nodeID in GraphOf(ws).nodes ==>
                Answers(GraphOf(ws), nodeID, if depth0 <= 0 then 1 else depth0, out)
    {
      var depth := if depth0 <= 0 then 1 else depth0;
      if ws !in byWS { return []; }
      if nodeID !in byWS[ws].nodes { return []; }
      out := Search(G(byWS[ws].nodes, byWS[ws].edges), nodeID, depth);
    }
  }

  method Search(g: G, s: Bytes, depth: nat) returns (out: seq<RelatedNode>)
    requires Keyed(g) && s in g.nodes && depth >= 1
    ensures Answers(g, s, depth, out)
  {
    var visited, frontier := {s}, [s];
    out := [];
    var hop := 1;
    StartIsNear(g, s);
    while hop <= depth && |frontier| > 0
      invariant 1 <= hop <= depth + 1
      invariant forall v :: v in frontier <==> IsDistance(g, s, v, hop - 1)
      invariant Frontier(g, s, hop, visited, [])
      invariant Answers(g, s, hop - 1, out)
      decreases depth + 1 - hop
    {
      var next;
      visited, next, out := OneHop(g, s, hop, visited, frontier, out);
      frontier := next;
      hop := hop + 1;
    }
    if hop <= depth {
      ghost var last := hop - 1;
      forall v, h: nat | last <= h && IsDistance(g, s, v, h) ensures false {
        EmptyLayerEnds(g, s, last, v, h);
      }
      DeeperAnswers(g, s, hop - 1, depth, out);
    }
  }

  /** When nothing lies beyond, the answer to the smaller depth answers the greater. */
  lemma DeeperAnswers(g: G, s: Bytes, d: nat, e: nat, out: seq<RelatedNode>)
    requires d <= e && Answers(g, s, d, out)
    requires forall v, h: nat :: d < h && IsDistance(g, s, v, h) ==> false
    ensures Answers(g, s, e, out)
  {
    forall i | 0 <= i < |out| ensures Sound(g, s, e, out[i]) { assert Sound(g, s, d, out[i]); }
  }

  method OneHop(g: G, s: Bytes, hop: nat, visited0: set<Bytes>, frontier: seq<Bytes>, out0: seq<RelatedNode>)
    returns (visited: set<Bytes>, next: seq<Bytes>, out: seq<RelatedNode>)
    requires Keyed(g) && s in g.nodes && hop >= 1
    requires forall v :: v in frontier <==> IsDistance(g, s, v, hop - 1)
    requires Frontier(g, s, hop, visited0, []) && Answers(g, s, hop - 1, out0)
    ensures forall v :: v in next <==> IsDistance(g, s, v, hop)
    ensures Frontier(g, s, hop + 1, visited, []) && Answers(g, s, hop, out)
  {
    visited, next, out := visited0, [], out0;
    var rest := g.edges.Keys;
    while rest != {}
      invariant rest <= g.edges.Keys
      invariant Frontier(g, s, hop, visited, next) && InProgress(g, s, hop, out0, out, next)
      invariant forall k :: k in g.edges && k !in rest ==> Tried(g.edges[k], frontier, |frontier|, visited)
      decreases rest
    {
      var k :| k in rest;
      rest := rest - {k};
      visited, next, out := OneEdge(g, s, hop, k, visited, frontier, out0, out, next);
    }
    LayerComplete(g, s, hop, visited, frontier, next);
    InProgressAnswers(g, s, hop, out0, out, next);
  }

  /** One edge against every frontier node. */
  method OneEdge(g: G, s: Bytes, hop: nat, k: EdgeKey, visited0: set<Bytes>, frontier: seq<Bytes>,
                 ghost out0: seq<RelatedNode>, out1: seq<RelatedNode>, next1: seq<Bytes>)
    returns (visited: set<Bytes>, next: seq<Bytes>, out: seq<RelatedNode>)
    requires Keyed(g) && s in g.nodes && hop >= 1 && k in g.edges
    requires forall v :: v in frontier ==> IsDistance(g, s, v, hop - 1)
    requires Frontier(g, s, hop, visited0, next1) && InProgress(g, s, hop, out0, out1, next1)
    ensures Frontier(g, s, hop, visited, next) && InProgress(g, s, hop, out0, out, next)
    ensures visited0 <= visited && Tried(g.edges[k], frontier, |frontier|, visited)
  {
    visited, next, out := visited0, next1, out1;
    var e := g.edges[k];
    for i := 0 to |frontier|
      invariant Frontier(g, s, hop, visited, next) && InProgress(g, s, hop, out0, out, next)
      invariant visited0 <= visited && Tried(e, frontier, i, visited)
    {
      var id := frontier[i];
      var other;
      if e.from == id {
        other := e.to;
      } else if e.to == id {
        other := e.from;
      } else {
        continue;
      }
      if other in visited { continue; }
      assert id in frontier && (other in g.nodes ==> !Near(g, s, other, hop - 1));
      visited := visited + {other};
      if other !in g.nodes { continue; }
      NewInLayer(g, s, hop, k, id, other);
      OneMore(g, s, hop, out0, out, next, RelatedNode(g.nodes[other], e, hop), id);
      out := out + [RelatedNode(g.nodes[other], e, hop)];
      next := next + [other];
    }
  }

  /** The entries added during the hop are those of next, in the same order. */
  ghost predicate InProgress(g: G, s: Bytes, hop: nat, out0: seq<RelatedNode>, out: seq<RelatedNode>, next: seq<Bytes>) {
    && |out| == |out0| + |next| && out0 <= out
    && (forall i :: |out0| <= i < |out| ==>
          Sound(g, s, hop, out[i]) && out[i].hops == hop && out[i].node.id == next[i - |out0|])
    && Distinct(next)
  }

  lemma OneMore(g: G, s: Bytes, hop: nat, out0: seq<RelatedNode>, out: seq<RelatedNode>, next: seq<Bytes>,
                r: RelatedNode, u: Bytes)
    requires Keyed(g) && s in g.nodes && hop >= 1 && r.hops == hop && r.node.id !in next
    requires InProgress(g, s, hop, out0, out, next)
    requires r.node.id in g.nodes && g.nodes[r.node.id] == r.node && IsDistance(g, s, r.node.id, hop)
    requires r.edge in g.edges.Values && IsDistance(g, s, u, hop - 1) && Touches(r.edge, u, r.node.id)
    ensures InProgress(g, s, hop, out0, out + [r], next + [r.node.id])
  {
    StartIsNear(g, s);
    assert Sound(g, s, hop, r);
  }

  lemma InProgressAnswers(g: G, s: Bytes, hop: nat, out0: seq<RelatedNode>, out: seq<RelatedNode>, next: seq<Bytes>)
    requires hop >= 1 && Answers(g, s, hop - 1, out0) && InProgress(g, s, hop, out0, out, next)
    requires forall v :: v in next <==> IsDistance(g, s, v, hop)
    ensures Answers(g, s, hop, out)
  {
    forall i | 0 <= i < |out| ensures Sound(g, s, hop, out[i]) {
      if i < |out0| { assert out[i] == out0[i] && Sound(g, s, hop - 1, out0[i]); }
    }
    forall i, j | 0 <= i < j < |out| ensures out[i].node.id != out[j].node.id {
      if j < |out0| {
        assert out[i] == out0[i] && out[j] == out0[j];
      } else if i < |out0| {
        assert out[i] == out0[i] && Sound(g, s, hop - 1, out0[i]) && Sound(g, s, hop, out[j]);
        if out[i].node.id == out[j].node.id { DistanceUnique(g, s, out[i].node.id, out[i].hops, hop); }
      }
    }
    forall v, h: nat | 1 <= h <= hop && IsDistance(g, s, v, h) ensures Reported(out, v, h) {
      if h < hop {
        assert Reported(out0, v, h);
        var i :| 0 <= i < |out0| && out0[i].node.id == v && out0[i].hops == h;
        assert out[i] == out0[i];
      } else {
        var i :| 0 <= i < |next| && next[i] == v;
        assert out[|out0| + i].node.id == v;
      }
    }
  }

  /** At depth 1 the answer is the neighbours: the other nodes that an edge joins to the start, be it
      from it or to it. */
  lemma NeighboursAtDepthOne(g: G, s: Bytes, out: seq<RelatedNode>, v: Bytes)
    requires s in g.nodes && Answers(g, s, 1, out)
    ensures (exists i :: 0 <= i < |out| && out[i].node.id == v) <==>
      v in g.nodes && v != s
      && exists k :: k in g.edges && ((g.edges[k].from == s && g.edges[k].to == v) || (g.edges[k].to == s && g.edges[k].from == v))
  {
    StartIsNear(g, s);
    if i :| 0 <= i < |out| && out[i].node.id == v {
      assert Sound(g, s, 1, out[i]);
      var u := OneStepBack(g, s, v, 1);
      var k :| k in g.edges && Touches(g.edges[k], u, v);
    }
    if v in g.nodes && v != s && exists k :: k in g.edges && Touches(g.edges[k], s, v) {
      OneStepOn(g, s, s, v, 0);
      assert IsDistance(g, s, v, 1);
      assert Reported(out, v, 1);
    }
    assert forall k :: k in g.edges ==>
      (Touches(g.edges[k], s, v) <==> (g.edges[k].from == s && g.edges[k].to == v) || (g.edges[k].to == s && g.edges[k].from == v));
  }

  /** What is reported further out is a neighbour of something reported one hop nearer. */
  lemma EachHopHasANeighbour(g: G, s: Bytes, depth: nat, out: seq<RelatedNode>, i: nat)
    requires s in g.nodes && Answers(g, s, depth, out) && i < |out| && out[i].hops > 1
    ensures exists j :: 0 <= j < |out| && out[j].hops == out[i].hops - 1 && Joined(g, out[j].node.id, out[i].node.id)
  {
    assert Sound(g, s, depth, out[i]);
    var u := OneStepBack(g, s, out[i].node.id, out[i].hops);
    assert Reported(out, u, out[i].hops - 1);
    var j :| 0 <= j < |out| && out[j].node.id == u && out[j].hops == out[i].hops - 1;
  }
}
