/**
 * The road graph of src/graph.ts: nodes that own their outgoing edges, edges
 * whose travel cost is derived on demand, a graph that owns a list of nodes,
 * and the A* search over it. The graph's constructor takes any list of nodes
 * unchecked; adding a node keeps the names distinct only when they already
 * were.
 *
 * Nodes, edges and edge options are objects, as in the source: the search
 * compares nodes by identity, while edge removal and node registration compare
 * them by name. One `EdgeOptions` object may be shared by several edges, so a
 * speed limit set through one of them is seen through all of them.
 */
module RoadGraph {
  import opened Geometry

  datatype Option<T> = None | Some(value: T)

  /** The options record of an edge; `connectNode` hands the same record to both directions. */
  class EdgeOptions {
    var speedLimit: real
    const unidirectional: bool

    constructor (speedLimit: real, unidirectional: bool)
      ensures this.speedLimit == speedLimit && this.unidirectional == unidirectional
    {
      this.speedLimit := speedLimit;
      this.unidirectional := unidirectional;
    }
  }

  class Edge {
    const from: Node
    const to: Node
    const options: EdgeOptions

    constructor (from: Node, to: Node, options: EdgeOptions)
      ensures this.from == from && this.to == to && this.options == options
    {
      this.from := from;
      this.to := to;
      this.options := options;
    }

    /** The traffic-light penalty for entering the target node. */
    function Penalty(): real
    {
      if to.trafficLights then 20.0 else 0.0
    }

    /**
     * Travel cost, computed afresh from the current positions and speed limit:
     * distance over speed limit, plus the penalty of the target node. With a
     * positive speed limit it is never below the penalty, hence never negative.
     */
    function Weight(h: Hypot): (w: real)
      reads from, to, options
      requires options.speedLimit != 0.0
      ensures 0.0 < options.speedLimit ==> 0.0 <= Penalty() <= w
    {
      from.DistanceTo(to, h) / options.speedLimit + Penalty()
    }

    /** Overwrites the speed limit in the (possibly shared) options record. */
    method SetSpeedLimit(n: real)
      modifies options`speedLimit
      ensures options.speedLimit == n
    {
      options.speedLimit := n;
    }
  }

  /**
   * Two edges joining the same pair of nodes in opposite directions, with the
   * same speed limit, differ in cost only by the penalties of their targets.
   */
  lemma WeightDirectional(e: Edge, r: Edge, h: Hypot)
    requires Even(h)
    requires r.from == e.to && r.to == e.from
    requires e.options.speedLimit != 0.0 && r.options.speedLimit == e.options.speedLimit
    ensures e.Weight(h) - e.Penalty() == r.Weight(h) - r.Penalty()
  {
  }

  /** Node-to-node distance is symmetric. */
  lemma DistanceToSymmetric(a: Node, b: Node, h: Hypot)
    requires Even(h)
    ensures a.DistanceTo(b, h) == b.DistanceTo(a, h)
  {
  }

  /** `after` is `before` with one more edge from -> to carrying `options` at its end. */
  ghost predicate Appended(before: seq<Edge>, after: seq<Edge>, from: Node, to: Node, options: EdgeOptions)
  {
    && |after| == |before| + 1
    && after[..|before|] == before
    && after[|before|].from == from
    && after[|before|].to == to
    && after[|before|].options == options
  }

  /** The edges of `edges` whose target is not named `name`, in their original order. */
  function WithoutTarget(edges: seq<Edge>, name: string): (kept: seq<Edge>)
    ensures forall i :: 0 <= i < |kept| ==> kept[i] in edges && kept[i].to.name != name
    ensures forall i :: 0 <= i < |edges| && edges[i].to.name != name ==> edges[i] in kept
    ensures |kept| <= |edges|
  {
    if edges == [] then []
    else if edges[0].to.name != name then [edges[0]] + WithoutTarget(edges[1..], name)
    else WithoutTarget(edges[1..], name)
  }

  /** Filtering distributes over concatenation, so surviving edges keep their order. */
  lemma {:induction false} WithoutTargetAppend(a: seq<Edge>, b: seq<Edge>, name: string)
    ensures WithoutTarget(a + b, name) == WithoutTarget(a, name) + WithoutTarget(b, name)
  {
    if a == [] {
      assert a + b == b;
    } else {
      assert (a + b)[1..] == a[1..] + b;
      WithoutTargetAppend(a[1..], b, name);
    }
  }

  /** Removing edges to a name that no edge targets changes nothing. */
  lemma {:induction false} WithoutTargetAbsent(edges: seq<Edge>, name: string)
    requires forall e :: e in edges ==> e.to.name != name
    ensures WithoutTarget(edges, name) == edges
  {
    if edges != [] {
      WithoutTargetAbsent(edges[1..], name);
    }
  }

  /** Removing the same target twice is removing it once. */
  lemma {:induction false} WithoutTargetIdempotent(edges: seq<Edge>, name: string)
    ensures WithoutTarget(WithoutTarget(edges, name), name) == WithoutTarget(edges, name)
  {
    WithoutTargetAbsent(WithoutTarget(edges, name), name);
  }

  /** Removing a target undoes appending an edge to it. */
  lemma RemoveUndoesAppend(edges: seq<Edge>, e: Edge, name: string)
    requires e.to.name == name
    ensures WithoutTarget(edges + [e], name) == WithoutTarget(edges, name)
  {
    WithoutTargetAppend(edges, [e], name);
    assert WithoutTarget([e], name) == [];
  }

  /**
   * Disconnecting after connecting: once an edge to `to` has been appended,
   * removing the edges to `to`'s name leaves what removing them beforehand
   * would have left, so the edges to other nodes are kept in their order.
   */
  lemma DisconnectUndoesConnect(before: seq<Edge>, after: seq<Edge>, from: Node, to: Node, options: EdgeOptions)
    requires Appended(before, after, from, to, options)
    ensures WithoutTarget(after, to.name) == WithoutTarget(before, to.name)
  {
    assert after == before + [after[|before|]];
    RemoveUndoesAppend(before, after[|before|], to.name);
  }

  class Node {
    var position: Position
    const name: string
    const trafficLights: bool
    var edges: seq<Edge>

    constructor (position: Position, name: string, trafficLights: bool)
      ensures this.position == position && this.name == name && this.trafficLights == trafficLights
      ensures edges == []
    {
      this.position := position;
      this.name := name;
      this.trafficLights := trafficLights;
      edges := [];
    }

    /** Appends a new edge this -> to that refers to `options` (not a copy of it). */
    method AddEdge(to: Node, options: EdgeOptions)
      modifies this`edges
      ensures Appended(old(edges), edges, this, to, options)
      ensures fresh(edges[|edges| - 1])
    {
      var edge := new Edge(this, to, options);
      edges := edges + [edge];
    }

    /** Drops every outgoing edge whose target has `to`'s name; the rest keep their order. */
    method RemoveEdge(to: Node)
      modifies this`edges
      ensures edges == WithoutTarget(old(edges), to.name)
      ensures forall e :: e in edges ==> e.to.name != to.name
    {
      edges := WithoutTarget(edges, to.name);
    }

    /**
     * Connects this node to `node`, and `node` back to this one unless the
     * options say the connection is one-way. Both new edges refer to the same
     * options record.
     */
    method ConnectNode(node: Node, options: EdgeOptions)
      modifies this`edges, node`edges
      ensures node != this ==> Appended(old(edges), edges, this, node, options)
      ensures node != this && options.unidirectional ==> node.edges == old(node.edges)
      ensures node != this && !options.unidirectional ==> Appended(old(node.edges), node.edges, node, this, options)
      ensures node == this && options.unidirectional ==> Appended(old(edges), edges, this, this, options)
      ensures node == this && !options.unidirectional ==>
        && |edges| == |old(edges)| + 2
        && Appended(old(edges), edges[..|edges| - 1], this, this, options)
        && Appended(edges[..|edges| - 1], edges, this, this, options)
    {
      ghost var before := edges;
      AddEdge(node, options);
      ghost var middle := edges;
      if !options.unidirectional {
        node.AddEdge(this, options);
        if node == this {
          assert edges[..|edges| - 1] == middle;
        }
      }
    }

    /** Removes the edges between this node and `node`, in both directions. */
    method DisconnectNode(node: Node)
      modifies this`edges, node`edges
      ensures node != this ==> edges == WithoutTarget(old(edges), node.name)
      ensures node != this ==> node.edges == WithoutTarget(old(node.edges), name)
      ensures node == this ==> edges == WithoutTarget(old(edges), name)
      ensures forall e :: e in edges ==> e.to.name != node.name
      ensures forall e :: e in node.edges ==> e.to.name != name
    {
      RemoveEdge(node);
      node.RemoveEdge(this);
      if node == this {
        WithoutTargetIdempotent(old(edges), name);
      }
    }

    method SetPosition(position: Position)
      modifies this`position
      ensures this.position == position
    {
      this.position := position;
    }

    /** Straight-line distance between the two nodes' current positions. */
    function DistanceTo(other: Node, h: Hypot): (d: real)
      reads this, other
      ensures 0.0 <= d
    {
      Distance(position, other.position, h)
    }
  }

  /**
   * A two-way connection shares one options record between its directions:
   * after `a.ConnectNode(b, options)`, a speed limit set through the new edge
   * a -> b is the speed limit of the new edge b -> a as well.
   */
  method SharedSpeedLimit(a: Node, b: Node, options: EdgeOptions, n: real) returns (forward: Edge, backward: Edge)
    requires a != b && !options.unidirectional
    modifies a`edges, b`edges, options`speedLimit
    ensures forward in a.edges && forward.from == a && forward.to == b
    ensures backward in b.edges && backward.from == b && backward.to == a
    ensures forward.options.speedLimit == n && backward.options.speedLimit == n
  {
    a.ConnectNode(b, options);
    forward := a.edges[|a.edges| - 1];
    backward := b.edges[|b.edges| - 1];
    forward.SetSpeedLimit(n);
  }

  /** Whether some node of `nodes` is called `name`. */
  predicate HasName(nodes: seq<Node>, name: string)
  {
    exists i :: 0 <= i < |nodes| && nodes[i].name == name
  }

  /** No two nodes of `nodes` share a name. */
  predicate DistinctNames(nodes: seq<Node>)
  {
    forall i, j :: 0 <= i < j < |nodes| ==> nodes[i].name != nodes[j].name
  }

  /** Selects the x or the y coordinate. */
  datatype Axis = X | Y

  function Coordinate(p: Position, axis: Axis): real
  {
    match axis
    case X => p.x
    case Y => p.y
  }

  /** `v` is the least `axis` coordinate of the nodes in `nodes`. */
  ghost predicate IsLeast(nodes: seq<Node>, axis: Axis, v: Extended)
    reads nodes
  {
    && v.Finite?
    && (forall i :: 0 <= i < |nodes| ==> v.value <= Coordinate(nodes[i].position, axis))
    && (exists i :: 0 <= i < |nodes| && v.value == Coordinate(nodes[i].position, axis))
  }

  /** `v` is the greatest `axis` coordinate of the nodes in `nodes`. */
  ghost predicate IsGreatest(nodes: seq<Node>, axis: Axis, v: Extended)
    reads nodes
  {
    && v.Finite?
    && (forall i :: 0 <= i < |nodes| ==> Coordinate(nodes[i].position, axis) <= v.value)
    && (exists i :: 0 <= i < |nodes| && v.value == Coordinate(nodes[i].position, axis))
  }

  /**
   * One step of the bounding-box fold: taking node `i` into the running
   * minimum and maximum gives the least and greatest coordinate of the first
   * `i + 1` nodes.
   */
  lemma BoundsStep(nodes: seq<Node>, i: nat, axis: Axis, lo: Extended, hi: Extended)
    requires i < |nodes|
    requires i == 0 ==> lo == PosInf && hi == NegInf
    requires i > 0 ==> IsLeast(nodes[..i], axis, lo) && IsGreatest(nodes[..i], axis, hi)
    ensures IsLeast(nodes[..i + 1], axis, Lower(lo, Coordinate(nodes[i].position, axis)))
    ensures IsGreatest(nodes[..i + 1], axis, Upper(hi, Coordinate(nodes[i].position, axis)))
  {
  }

  /** No node occurs twice in `path`. */
  predicate NoRepeats(path: seq<Node>)
  {
    forall i, j :: 0 <= i < j < |path| ==> path[i] != path[j]
  }

  /** Some outgoing edge of `a` leads to `b`. */
  ghost predicate Linked(a: Node, b: Node)
    reads a
  {
    exists k :: 0 <= k < |a.edges| && a.edges[k].to == b
  }

  /** A non-empty walk in which every node has an outgoing edge to the next. */
  ghost predicate IsPath(path: seq<Node>)
    reads path
  {
    && |path| > 0
    && forall i :: 0 <= i < |path| - 1 ==> Linked(path[i], path[i + 1])
  }

  /** Every outgoing edge of a node in `s` leads back into `s`. */
  ghost predicate ClosedUnderEdges(s: set<Node>)
    reads s
  {
    forall n, k :: n in s && 0 <= k < |n.edges| ==> n.edges[k].to in s
  }

  /** A walk that starts inside a set closed under edges never leaves it. */
  lemma {:induction false} PathStaysWithin(path: seq<Node>, s: set<Node>)
    requires IsPath(path) && path[0] in s && ClosedUnderEdges(s)
    ensures forall i :: 0 <= i < |path| ==> path[i] in s
  {
    if |path| > 1 {
      var prefix := path[..|path| - 1];
      assert IsPath(prefix) by {
        forall i | 0 <= i < |prefix| - 1
          ensures Linked(prefix[i], prefix[i + 1])
        {
          assert prefix[i] == path[i] && prefix[i + 1] == path[i + 1];
        }
      }
      PathStaysWithin(prefix, s);
      var last := |path| - 1;
      assert Linked(path[last - 1], path[last]);
      var k :| 0 <= k < |path[last - 1].edges| && path[last - 1].edges[k].to == path[last];
      forall i | 0 <= i < |path|
        ensures path[i] in s
      {
        if i < last {
          assert path[i] == prefix[i];
        }
      }
    }
  }

  /** Deleting position `k` of a repetition-free sequence removes exactly that element. */
  lemma RemoveAt(s: seq<Node>, k: nat)
    requires k < |s| && NoRepeats(s)
    ensures NoRepeats(s[..k] + s[k + 1..])
    ensures forall n :: n in s[..k] + s[k + 1..] <==> n in s && n != s[k]
  {
  }

  /**
   * The index that a left fold over `s` settles on when it keeps the earlier
   * element only if that one scores strictly less: a position of minimal
   * score, and among tied positions the LAST one, since every tie goes to the
   * later element.
   */
  function LatestMinimum<T>(s: seq<T>, score: map<T, real>): (k: nat)
    requires |s| > 0
    requires forall i :: 0 <= i < |s| ==> s[i] in score
    ensures k < |s|
    ensures forall j :: 0 <= j < |s| ==> score[s[k]] <= score[s[j]]
    ensures forall j :: k < j < |s| ==> score[s[k]] < score[s[j]]
  {
    if |s| == 1 then 0
    else
      var a := LatestMinimum(s[..|s| - 1], score);
      if score[s[a]] < score[s[|s| - 1]] then a else |s| - 1
  }

  /** The open list: repetition-free, disjoint from the closed set, scored. */
  ghost predicate OpenListOk(openSet: seq<Node>, closedSet: set<Node>, universe: set<Node>,
                             gScore: map<Node, real>, fScore: map<Node, real>)
  {
    && NoRepeats(openSet)
    && forall j :: 0 <= j < |openSet| ==>
         openSet[j] in universe && openSet[j] !in closedSet && openSet[j] in gScore && openSet[j] in fScore
  }

  /**
   * The estimated total cost of each open node is its cost so far plus its
   * straight-line distance to `end`, the heuristic of the search.
   */
  ghost predicate Estimated(openSet: seq<Node>, gScore: map<Node, real>, fScore: map<Node, real>, end: Node, h: Hypot)
    reads openSet, end
  {
    forall j :: 0 <= j < |openSet| ==>
      && openSet[j] in gScore && openSet[j] in fScore
      && fScore[openSet[j]] == gScore[openSet[j]] + openSet[j].DistanceTo(end, h)
  }

  /** Deleting one position of the open list keeps the estimates of the other nodes. */
  lemma RemoveKeepsEstimates(openSet: seq<Node>, gScore: map<Node, real>, fScore: map<Node, real>,
                             end: Node, h: Hypot, k: nat)
    requires k < |openSet| && Estimated(openSet, gScore, fScore, end, h)
    ensures Estimated(openSet[..k] + openSet[k + 1..], gScore, fScore, end, h)
  {
  }

  /** The first `upto` outgoing edges of `c` lead to closed or open nodes. */
  ghost predicate Covered(c: Node, upto: int, closedSet: set<Node>, openSet: seq<Node>)
    reads c
  {
    forall k :: 0 <= k < upto && k < |c.edges| ==> c.edges[k].to in closedSet || c.edges[k].to in openSet
  }

  /** Every edge out of a closed node leads to a closed or an open node. */
  ghost predicate Frontier(closedSet: set<Node>, openSet: seq<Node>)
    reads closedSet
  {
    forall c {:trigger Covered(c, |c.edges|, closedSet, openSet)} :: c in closedSet ==> Covered(c, |c.edges|, closedSet, openSet)
  }

  /** With nothing left open, the closed set is closed under edges. */
  lemma FrontierExhausted(closedSet: set<Node>)
    requires Frontier(closedSet, [])
    ensures ClosedUnderEdges(closedSet)
  {
    forall n, k | n in closedSet && 0 <= k < |n.edges|
      ensures n.edges[k].to in closedSet
    {
      assert Covered(n, |n.edges|, closedSet, []);
    }
  }

  /**
   * `n` has a recorded predecessor. Stated through this predicate, the fact
   * that closed nodes have predecessors is used only where asked for, and does
   * not chase the predecessor chain on its own.
   */
  ghost predicate HasPredecessor(cameFrom: map<Node, Node>, n: Node)
  {
    n in cameFrom
  }

  /**
   * The predecessor map: `start` has none, every other discovered node has
   * one, each predecessor is closed and has an edge to its successor, and a
   * closed node was closed in a later round than its predecessor.
   */
  ghost predicate PredecessorsOk(start: Node, closedSet: set<Node>, openSet: seq<Node>,
                                 cameFrom: map<Node, Node>, order: map<Node, nat>)
    reads cameFrom.Values
  {
    && start !in cameFrom
    && (forall n {:trigger n in cameFrom} :: n in cameFrom ==> cameFrom[n] in closedSet && cameFrom[n] in order && Linked(cameFrom[n], n))
    && (forall n {:trigger n in cameFrom} :: n in cameFrom ==> n in closedSet || n in openSet)
    && (forall n {:trigger order[cameFrom[n]]} :: n in cameFrom && n in order ==> order[cameFrom[n]] < order[n])
    && (forall n {:trigger HasPredecessor(cameFrom, n)} :: n in closedSet && n != start ==> HasPredecessor(cameFrom, n))
    && (forall j :: 0 <= j < |openSet| && openSet[j] != start ==> openSet[j] in cameFrom)
  }

  /** Closing the chosen open node keeps the open list well formed. */
  lemma CloseKeepsOpenList(universe: set<Node>, closedSet: set<Node>, openSet: seq<Node>,
                           gScore: map<Node, real>, fScore: map<Node, real>, k: nat)
    requires k < |openSet| && OpenListOk(openSet, closedSet, universe, gScore, fScore)
    ensures OpenListOk(openSet[..k] + openSet[k + 1..], closedSet + {openSet[k]}, universe, gScore, fScore)
  {
  }

  /**
   * Closing the chosen open node, in round `rounds`, keeps the predecessor
   * map consistent: the node was already recorded, and its predecessor was
   * closed in an earlier round.
   */
  lemma CloseKeepsPredecessors(start: Node, closedSet: set<Node>, openSet: seq<Node>, cameFrom: map<Node, Node>,
                               order: map<Node, nat>, rounds: nat, k: nat)
    requires k < |openSet| && NoRepeats(openSet)
    requires PredecessorsOk(start, closedSet, openSet, cameFrom, order)
    requires order.Keys == closedSet && forall c :: c in order ==> order[c] < rounds
    requires openSet[k] !in closedSet
    ensures PredecessorsOk(start, closedSet + {openSet[k]}, openSet[..k] + openSet[k + 1..], cameFrom, order[openSet[k] := rounds])
  {
    var current := openSet[k];
    var openSet', closedSet', order' := openSet[..k] + openSet[k + 1..], closedSet + {current}, order[current := rounds];
    RemoveAt(openSet, k);
    forall n | n in cameFrom
      ensures n in closedSet' || n in openSet'
    {
      assert n in closedSet || n in openSet;
    }
    forall n | n in cameFrom && n in order'
      ensures order'[cameFrom[n]] < order'[n]
    {
      assert cameFrom[n] in order;
    }
    forall j | 0 <= j < |openSet'| && openSet'[j] != start
      ensures openSet'[j] in cameFrom
    {
      assert openSet'[j] in openSet;
    }
    forall n | n in closedSet' && n != start
      ensures HasPredecessor(cameFrom, n)
    {
      if n == current {
        assert openSet[k] in cameFrom;
      }
    }
  }

  /** Once the chosen open node is closed, every other closed node is still covered. */
  lemma CloseKeepsCoverage(closedSet: set<Node>, openSet: seq<Node>, k: nat)
    requires k < |openSet| && NoRepeats(openSet)
    requires Frontier(closedSet, openSet)
    ensures var current := openSet[k];
      forall c :: c in closedSet + {current} && c != current ==>
        Covered(c, |c.edges|, closedSet + {current}, openSet[..k] + openSet[k + 1..])
  {
    var current := openSet[k];
    var openSet', closedSet' := openSet[..k] + openSet[k + 1..], closedSet + {current};
    RemoveAt(openSet, k);
    forall c | c in closedSet' && c != current
      ensures Covered(c, |c.edges|, closedSet', openSet')
    {
      assert Covered(c, |c.edges|, closedSet, openSet);
    }
  }

  /** Appending to the open list keeps a node's edges covered. */
  lemma CoveredGrows(c: Node, upto: int, closedSet: set<Node>, openSet: seq<Node>, openSet': seq<Node>)
    requires Covered(c, upto, closedSet, openSet)
    requires |openSet| <= |openSet'| && openSet'[..|openSet|] == openSet
    ensures Covered(c, upto, closedSet, openSet')
  {
    forall k | 0 <= k < upto && k < |c.edges| && c.edges[k].to in openSet
      ensures c.edges[k].to in openSet'
    {
      var j :| 0 <= j < |openSet| && openSet[j] == c.edges[k].to;
      assert openSet'[j] == openSet[j];
    }
  }

  /** Covering one more edge. */
  lemma CoveredExtend(c: Node, i: nat, closedSet: set<Node>, openSet: seq<Node>)
    requires Covered(c, i, closedSet, openSet) && i < |c.edges|
    requires c.edges[i].to in closedSet || c.edges[i].to in openSet
    ensures Covered(c, i + 1, closedSet, openSet)
  {
  }

  /** Expansion only appends to the open list, so the closed nodes stay covered. */
  lemma FrontierAfterExpand(current: Node, closedSet: set<Node>, openSet: seq<Node>, openSet': seq<Node>)
    requires forall c :: c in closedSet && c != current ==> Covered(c, |c.edges|, closedSet, openSet)
    requires Covered(current, |current.edges|, closedSet, openSet')
    requires |openSet| <= |openSet'| && openSet'[..|openSet|] == openSet
    ensures Frontier(closedSet, openSet')
  {
    forall c | c in closedSet && c != current
      ensures Covered(c, |c.edges|, closedSet, openSet')
    {
      CoveredGrows(c, |c.edges|, closedSet, openSet, openSet');
    }
  }

  /**
   * Recording `current` as the predecessor of a node that is not closed, and
   * opening that node if it was not open, keeps the predecessor map consistent.
   */
  lemma RecordPredecessor(start: Node, closedSet: set<Node>, openSet: seq<Node>, cameFrom: map<Node, Node>,
                          order: map<Node, nat>, current: Node, neighbor: Node, openSet': seq<Node>)
    requires PredecessorsOk(start, closedSet, openSet, cameFrom, order)
    requires start in closedSet && current in closedSet && current in order && Linked(current, neighbor)
    requires neighbor !in closedSet && neighbor !in order
    requires openSet' == openSet + [neighbor] || (openSet' == openSet && neighbor in openSet)
    ensures PredecessorsOk(start, closedSet, openSet', cameFrom[neighbor := current], order)
  {
    var cameFrom' := cameFrom[neighbor := current];
    forall n | n in cameFrom'
      ensures n in closedSet || n in openSet'
    {
      if n != neighbor {
        assert n in closedSet || n in openSet;
      }
    }
    forall j | 0 <= j < |openSet'| && openSet'[j] != start
      ensures openSet'[j] in cameFrom'
    {
      if j < |openSet| {
        assert openSet'[j] == openSet[j];
      }
    }
    forall n | n in closedSet && n != start
      ensures HasPredecessor(cameFrom', n)
    {
      assert HasPredecessor(cameFrom, n);
    }
  }

  /**
   * Ranks every node the predecessor map mentions: a closed node by the round
   * it was closed in, any other node by the current round. Ranks strictly
   * decrease from a node to its predecessor, so the map has no cycle.
   */
  ghost function ClosingRank(start: Node, closedSet: set<Node>, openSet: seq<Node>, cameFrom: map<Node, Node>,
                             order: map<Node, nat>, rounds: nat, current: Node): (rank: map<Node, nat>)
    reads cameFrom.Values
    requires PredecessorsOk(start, closedSet, openSet, cameFrom, order)
    requires order.Keys == closedSet && forall c :: c in order ==> order[c] < rounds
    ensures current in rank
    ensures forall n :: n in cameFrom ==> n in rank && cameFrom[n] in rank && rank[cameFrom[n]] < rank[n]
  {
    map n | n in order.Keys + cameFrom.Keys + {current} :: if n in order then order[n] else rounds
  }

  /** A walk back along the predecessor map from an open node is a path from `start`. */
  lemma FoundPath(start: Node, closedSet: set<Node>, openSet: seq<Node>, cameFrom: map<Node, Node>,
                  order: map<Node, nat>, path: seq<Node>)
    requires PredecessorsOk(start, closedSet, openSet, cameFrom, order)
    requires |path| > 0 && path[|path| - 1] in openSet && path[0] !in cameFrom
    requires forall i :: 0 < i < |path| ==> path[i] in cameFrom && cameFrom[path[i]] == path[i - 1]
    ensures IsPath(path) && path[0] == start
  {
    forall i | 0 <= i < |path| - 1
      ensures Linked(path[i], path[i + 1])
    {
      assert path[i + 1] in cameFrom;
    }
    assert !HasPredecessor(cameFrom, path[0]);
    if |path| > 1 {
      assert path[1] in cameFrom && path[0] in closedSet;
    }
  }

  /** The invariant of the search loop, at the top of each round. */
  ghost predicate SearchOk(start: Node, end: Node, h: Hypot, universe: set<Node>, closedSet: set<Node>, openSet: seq<Node>,
                           cameFrom: map<Node, Node>, gScore: map<Node, real>, fScore: map<Node, real>,
                           order: map<Node, nat>, rounds: nat)
    reads closedSet, cameFrom.Values, openSet, end
  {
    && closedSet <= universe && end !in closedSet
    && OpenListOk(openSet, closedSet, universe, gScore, fScore)
    && Estimated(openSet, gScore, fScore, end, h)
    && (start in closedSet || (closedSet == {} && openSet == [start]))
    && (start == end ==> openSet == [start] && cameFrom == map[])
    && Frontier(closedSet, openSet)
    && PredecessorsOk(start, closedSet, openSet, cameFrom, order)
    && order.Keys == closedSet && (forall c :: c in order ==> order[c] < rounds)
  }

  /** The state in the middle of a round: `current` has just been closed and is about to be expanded. */
  ghost predicate Expandable(start: Node, end: Node, h: Hypot, universe: set<Node>, current: Node, closedSet: set<Node>,
                             openSet: seq<Node>, cameFrom: map<Node, Node>, gScore: map<Node, real>,
                             fScore: map<Node, real>, order: map<Node, nat>, rounds: nat)
    reads closedSet, cameFrom.Values, openSet, end
  {
    && start != end && start in closedSet
    && current in closedSet && current in gScore && current in universe
    && closedSet <= universe && end !in closedSet
    && OpenListOk(openSet, closedSet, universe, gScore, fScore)
    && Estimated(openSet, gScore, fScore, end, h)
    && (forall c {:trigger Covered(c, |c.edges|, closedSet, openSet)} ::
          c in closedSet && c != current ==> Covered(c, |c.edges|, closedSet, openSet))
    && PredecessorsOk(start, closedSet, openSet, cameFrom, order)
    && order.Keys == closedSet && (forall c :: c in order ==> order[c] < rounds)
  }

  /** Closing the chosen node (other than `end`) leads from the loop invariant to an expandable state. */
  lemma CloseStep(start: Node, end: Node, h: Hypot, universe: set<Node>, closedSet: set<Node>, openSet: seq<Node>,
                  cameFrom: map<Node, Node>, gScore: map<Node, real>, fScore: map<Node, real>,
                  order: map<Node, nat>, rounds: nat, k: nat)
    requires SearchOk(start, end, h, universe, closedSet, openSet, cameFrom, gScore, fScore, order, rounds)
    requires k < |openSet| && openSet[k] != end
    ensures Expandable(start, end, h, universe, openSet[k], closedSet + {openSet[k]}, openSet[..k] + openSet[k + 1..],
                       cameFrom, gScore, fScore, order[openSet[k] := rounds], rounds + 1)
    ensures |universe - (closedSet + {openSet[k]})| < |universe - closedSet|
  {
    var current := openSet[k];
    CloseKeepsOpenList(universe, closedSet, openSet, gScore, fScore, k);
    CloseKeepsPredecessors(start, closedSet, openSet, cameFrom, order, rounds, k);
    CloseKeepsCoverage(closedSet, openSet, k);
    RemoveKeepsEstimates(openSet, gScore, fScore, end, h, k);
    assert current in universe && current in gScore;
    assert start == end ==> current == start;
    assert order[current := rounds].Keys == closedSet + {current};
    assert universe - (closedSet + {current}) == (universe - closedSet) - {current};
  }

  /**
   * What expanding `current` establishes: the open list, its estimates and the
   * predecessor map stay consistent, and every edge of `current` is covered.
   */
  ghost predicate Expanded(start: Node, end: Node, h: Hypot, universe: set<Node>, current: Node, closedSet: set<Node>, openSet: seq<Node>,
                           openSet': seq<Node>, cameFrom': map<Node, Node>, gScore': map<Node, real>,
                           fScore': map<Node, real>, order: map<Node, nat>)
    reads current, cameFrom'.Values, openSet', end
  {
    && OpenListOk(openSet', closedSet, universe, gScore', fScore')
    && Estimated(openSet', gScore', fScore', end, h)
    && PredecessorsOk(start, closedSet, openSet', cameFrom', order)
    && Covered(current, |current.edges|, closedSet, openSet')
    && |openSet| <= |openSet'| && openSet'[..|openSet|] == openSet
  }

  /** Expanding the closed node re-establishes the loop invariant. */
  lemma AfterExpand(start: Node, end: Node, h: Hypot, universe: set<Node>, current: Node, closedSet: set<Node>,
                    openSet: seq<Node>, cameFrom: map<Node, Node>, gScore: map<Node, real>, fScore: map<Node, real>,
                    order: map<Node, nat>, rounds: nat,
                    openSet': seq<Node>, cameFrom': map<Node, Node>, gScore': map<Node, real>, fScore': map<Node, real>)
    requires Expandable(start, end, h, universe, current, closedSet, openSet, cameFrom, gScore, fScore, order, rounds)
    requires Expanded(start, end, h, universe, current, closedSet, openSet, openSet', cameFrom', gScore', fScore', order)
    ensures SearchOk(start, end, h, universe, closedSet, openSet', cameFrom', gScore', fScore', order, rounds)
  {
    FrontierAfterExpand(current, closedSet, openSet, openSet');
  }

  /**
   * The invariant of the expansion loop over the edges of `current`, after
   * its first `i` edges: `openSet0` and `gScore0` are the open list and cost
   * map from before the expansion.
   */
  ghost predicate Relaxing(start: Node, end: Node, h: Hypot, universe: set<Node>, current: Node, i: int, closedSet: set<Node>,
                           openSet0: seq<Node>, gScore0: map<Node, real>, openSet: seq<Node>,
                           cameFrom: map<Node, Node>, gScore: map<Node, real>, fScore: map<Node, real>,
                           order: map<Node, nat>)
    reads current, cameFrom.Values, openSet, end
  {
    && start in closedSet && current in closedSet && current in universe && current in gScore
    && closedSet == order.Keys
    && OpenListOk(openSet, closedSet, universe, gScore, fScore)
    && Estimated(openSet, gScore, fScore, end, h)
    && PredecessorsOk(start, closedSet, openSet, cameFrom, order)
    && Covered(current, i, closedSet, openSet)
    && |openSet0| <= |openSet| && openSet[..|openSet0|] == openSet0
    && (forall j :: |openSet0| <= j < |openSet| ==> Linked(current, openSet[j]))
    && (forall j :: 0 <= j < |openSet0| ==>
          openSet0[j] in gScore0 && openSet0[j] in gScore && gScore[openSet0[j]] <= gScore0[openSet0[j]])
  }

  /**
   * What reaching the target of each outgoing edge of `c` through `c` costs,
   * when reaching `c` costs `cost`: the offers the expansion of `c` makes.
   */
  ghost function Offers(c: Node, cost: real, h: Hypot): (offers: seq<real>)
    reads c, set e | e in c.edges :: e.from, set e | e in c.edges :: e.to, set e | e in c.edges :: e.options
    requires forall k :: 0 <= k < |c.edges| ==> c.edges[k].options.speedLimit != 0.0
    ensures |offers| == |c.edges|
    ensures forall k :: 0 <= k < |c.edges| ==> offers[k] == cost + c.edges[k].Weight(h)
  {
    seq(|c.edges|, k requires 0 <= k < |c.edges| && c.edges[k].options.speedLimit != 0.0
                     reads c, set e | e in c.edges :: e.from, set e | e in c.edges :: e.to,
                           set e | e in c.edges :: e.options
                     => cost + c.edges[k].Weight(h))
  }

  /**
   * The costs recorded by the expansion of `current` after its first `i`
   * edges, against the costs `gScore0` from before it, where `offers[k]` is
   * the cost offered through edge k: each target of those edges that is not
   * closed has a cost no higher than the offer through that edge, and every
   * cost that is new or changed is the offer through one of those edges,
   * recorded with `current` as predecessor.
   */
  ghost predicate Offered(current: Node, i: int, offers: seq<real>, closedSet: set<Node>, gScore0: map<Node, real>,
                          cameFrom: map<Node, Node>, gScore: map<Node, real>)
    reads current
  {
    && current in gScore0 && |offers| == |current.edges|
    && (forall k :: 0 <= k < i && k < |current.edges| && current.edges[k].to !in closedSet ==>
          current.edges[k].to in gScore && gScore[current.edges[k].to] <= offers[k])
    && (forall n :: n in gScore && (n !in gScore0 || gScore[n] != gScore0[n]) ==>
          && n !in closedSet && n in cameFrom && cameFrom[n] == current
          && exists k :: 0 <= k < i && k < |current.edges| && current.edges[k].to == n && gScore[n] == offers[k])
  }

  /** An edge whose offer is not taken keeps the recorded costs as they are. */
  lemma OfferSkipped(current: Node, i: nat, offers: seq<real>, closedSet: set<Node>, gScore0: map<Node, real>,
                     cameFrom: map<Node, Node>, gScore: map<Node, real>,
                     cameFrom': map<Node, Node>, gScore': map<Node, real>)
    requires i < |current.edges|
    requires Offered(current, i, offers, closedSet, gScore0, cameFrom, gScore)
    requires var n := current.edges[i].to; n in closedSet || (n in gScore && offers[i] >= gScore[n])
    requires cameFrom' == cameFrom && gScore' == gScore
    ensures Offered(current, i + 1, offers, closedSet, gScore0, cameFrom', gScore')
  {
  }

  /**
   * An edge whose offer is taken records that offer, with `current` as
   * predecessor. It is taken either by a node not yet reached by an earlier
   * edge of `current` or because it undercuts the recorded cost.
   */
  lemma OfferTaken(current: Node, i: nat, offers: seq<real>, closedSet: set<Node>, openSet: seq<Node>,
                   gScore0: map<Node, real>, cameFrom: map<Node, Node>, gScore: map<Node, real>,
                   cameFrom': map<Node, Node>, gScore': map<Node, real>)
    requires i < |current.edges|
    requires Offered(current, i, offers, closedSet, gScore0, cameFrom, gScore)
    requires Covered(current, i, closedSet, openSet)
    requires var n := current.edges[i].to;
      n !in closedSet && (n !in openSet || (n in gScore && offers[i] < gScore[n]))
    requires var n := current.edges[i].to; cameFrom' == cameFrom[n := current] && gScore' == gScore[n := offers[i]]
    ensures Offered(current, i + 1, offers, closedSet, gScore0, cameFrom', gScore')
  {
    var n := current.edges[i].to;
    forall k | 0 <= k < i + 1 && k < |current.edges| && current.edges[k].to !in closedSet
      ensures current.edges[k].to in gScore' && gScore'[current.edges[k].to] <= offers[k]
    {
      if k < i && current.edges[k].to == n {
        assert n in openSet;
      }
    }
  }

  /**
   * The effect of the pass over the edge `current.edges[i]` to n, with offered
   * cost t (the cost of `current` plus the edge's weight): if n is closed, or
   * open with a cost at most t, nothing changes; otherwise n is appended to
   * the open list unless already open, and gets `current` as predecessor, t
   * as cost and t plus its distance to `end` as estimate.
   */
  ghost predicate RelaxedEdge(current: Node, i: nat, end: Node, h: Hypot, closedSet: set<Node>,
                              openSet: seq<Node>, cameFrom: map<Node, Node>, gScore: map<Node, real>, fScore: map<Node, real>,
                              openSet': seq<Node>, cameFrom': map<Node, Node>, gScore': map<Node, real>,
                              fScore': map<Node, real>)
    reads current, current.edges[i].from, current.edges[i].to, current.edges[i].options, end
    requires i < |current.edges| && current.edges[i].options.speedLimit != 0.0
    requires current in gScore && forall j :: 0 <= j < |openSet| ==> openSet[j] in gScore
  {
    var n, t := current.edges[i].to, gScore[current] + current.edges[i].Weight(h);
    && (n in closedSet || (n in openSet && t >= gScore[n]) ==>
          openSet' == openSet && cameFrom' == cameFrom && gScore' == gScore && fScore' == fScore)
    && (n !in closedSet && (n !in openSet || t < gScore[n]) ==>
          && openSet' == (if n in openSet then openSet else openSet + [n])
          && cameFrom' == cameFrom[n := current]
          && gScore' == gScore[n := t]
          && fScore' == fScore[n := t + n.DistanceTo(end, h)])
  }

  /**
   * One pass of the expansion loop keeps the recorded offers, whichever way it
   * goes: `cameFrom'` and `gScore'` are the maps after the pass over the edge
   * `current.edges[i]`, related to those before it as that pass relates them.
   */
  lemma OfferStep(current: Node, i: nat, end: Node, h: Hypot, offers: seq<real>, closedSet: set<Node>,
                  gScore0: map<Node, real>, openSet: seq<Node>, cameFrom: map<Node, Node>, gScore: map<Node, real>,
                  fScore: map<Node, real>, openSet': seq<Node>, cameFrom': map<Node, Node>, gScore': map<Node, real>,
                  fScore': map<Node, real>)
    requires i < |current.edges| && current.edges[i].options.speedLimit != 0.0
    requires current in closedSet && current in gScore
    requires Offered(current, i, offers, closedSet, gScore0, cameFrom, gScore)
    requires offers[i] == gScore0[current] + current.edges[i].Weight(h)
    requires Covered(current, i, closedSet, openSet)
    requires forall j :: 0 <= j < |openSet| ==> openSet[j] in gScore
    requires RelaxedEdge(current, i, end, h, closedSet, openSet, cameFrom, gScore, fScore, openSet', cameFrom', gScore', fScore')
    ensures Offered(current, i + 1, offers, closedSet, gScore0, cameFrom', gScore')
  {
    var n := current.edges[i].to;
    assert gScore[current] == gScore0[current];
    if n in closedSet || (n in openSet && offers[i] >= gScore[n]) {
      OfferSkipped(current, i, offers, closedSet, gScore0, cameFrom, gScore, cameFrom', gScore');
    } else {
      OfferTaken(current, i, offers, closedSet, openSet, gScore0, cameFrom, gScore, cameFrom', gScore');
    }
  }

  /**
   * The targets of `edges` that are neither closed nor in `seen`, each once,
   * in the order of the first edge that reaches them: the nodes that a pass
   * over `edges` appends to the open list `seen`.
   */
  ghost function NewTargets(edges: seq<Edge>, closedSet: set<Node>, seen: seq<Node>): seq<Node>
    decreases |edges|
  {
    if edges == [] then []
    else
      var prior := NewTargets(edges[..|edges| - 1], closedSet, seen);
      var n := edges[|edges| - 1].to;
      if n in closedSet || n in seen || n in prior then prior else prior + [n]
  }

  /**
   * `NewTargets` holds no node twice, and holds exactly the targets of
   * `edges` that are neither closed nor in `seen`.
   */
  lemma {:induction false} NewTargetsMeaning(edges: seq<Edge>, closedSet: set<Node>, seen: seq<Node>)
    ensures NoRepeats(NewTargets(edges, closedSet, seen))
    ensures forall n :: n in NewTargets(edges, closedSet, seen) ==> n !in closedSet && n !in seen
    ensures forall n :: n in NewTargets(edges, closedSet, seen) ==> exists k :: 0 <= k < |edges| && edges[k].to == n
    ensures forall k :: 0 <= k < |edges| && edges[k].to !in closedSet && edges[k].to !in seen ==>
      edges[k].to in NewTargets(edges, closedSet, seen)
    decreases |edges|
  {
    if edges != [] {
      var init := edges[..|edges| - 1];
      NewTargetsMeaning(init, closedSet, seen);
      forall k | 0 <= k < |edges| - 1
        ensures edges[k] == init[k]
      {
      }
    }
  }

  /**
   * One edge more of the expansion, on the open list: it grows by the edge's
   * target exactly when that target is neither closed nor already open.
   */
  lemma NewTargetsStep(current: Node, i: nat, end: Node, h: Hypot, closedSet: set<Node>, openSet0: seq<Node>,
                       openSet: seq<Node>, cameFrom: map<Node, Node>, gScore: map<Node, real>, fScore: map<Node, real>,
                       openSet': seq<Node>, cameFrom': map<Node, Node>, gScore': map<Node, real>,
                       fScore': map<Node, real>)
    requires i < |current.edges| && current.edges[i].options.speedLimit != 0.0
    requires current in gScore
    requires openSet == openSet0 + NewTargets(current.edges[..i], closedSet, openSet0)
    requires forall j :: 0 <= j < |openSet| ==> openSet[j] in gScore
    requires RelaxedEdge(current, i, end, h, closedSet, openSet, cameFrom, gScore, fScore, openSet', cameFrom', gScore', fScore')
    ensures openSet' == openSet0 + NewTargets(current.edges[..i + 1], closedSet, openSet0)
  {
    assert current.edges[..i + 1][..i] == current.edges[..i];
  }

  /**
   * How an expansion of `current` may change the predecessor map, from
   * `cameFrom` and `gScore` to `cameFrom'` and `gScore'`: no node loses its
   * predecessor, and a node whose predecessor is new or changed now comes
   * from `current`, has a cost, and, if it was in the open list `openSet`,
   * costs strictly less than before.
   */
  ghost predicate KeptPredecessors(current: Node, openSet: seq<Node>, gScore: map<Node, real>, cameFrom: map<Node, Node>,
                                   gScore': map<Node, real>, cameFrom': map<Node, Node>)
  {
    && (forall n :: n in cameFrom ==> n in cameFrom')
    && (forall n :: n in cameFrom' && (n !in cameFrom || cameFrom'[n] != cameFrom[n]) ==>
          && cameFrom'[n] == current && n in gScore'
          && (n in openSet ==> n in gScore && gScore'[n] < gScore[n]))
  }

  /**
   * One edge more of the expansion keeps `KeptPredecessors`: an open node is
   * given `current` as predecessor only for a strictly lower cost, and open
   * costs never rise.
   */
  lemma PredecessorStep(current: Node, i: nat, end: Node, h: Hypot, closedSet: set<Node>, openSet0: seq<Node>,
                        gScore0: map<Node, real>, cameFrom0: map<Node, Node>, openSet: seq<Node>,
                        cameFrom: map<Node, Node>, gScore: map<Node, real>, fScore: map<Node, real>,
                        openSet': seq<Node>, cameFrom': map<Node, Node>, gScore': map<Node, real>,
                        fScore': map<Node, real>)
    requires i < |current.edges| && current.edges[i].options.speedLimit != 0.0
    requires current in gScore
    requires KeptPredecessors(current, openSet0, gScore0, cameFrom0, gScore, cameFrom)
    requires forall j :: 0 <= j < |openSet| ==> openSet[j] in gScore
    requires |openSet0| <= |openSet| && openSet[..|openSet0|] == openSet0
    requires forall j :: 0 <= j < |openSet0| ==>
      openSet0[j] in gScore0 && openSet0[j] in gScore && gScore[openSet0[j]] <= gScore0[openSet0[j]]
    requires RelaxedEdge(current, i, end, h, closedSet, openSet, cameFrom, gScore, fScore, openSet', cameFrom', gScore', fScore')
    ensures KeptPredecessors(current, openSet0, gScore0, cameFrom0, gScore', cameFrom')
  {
  }

  /**
   * One edge more of the expansion, from the state before the pass over
   * `current.edges[i]` to the state after it, keeps the three descriptions of
   * the expansion so far: the offers taken (`Offered`), the open list as the
   * old one followed by the new targets, and the predecessor changes.
   */
  lemma ExpansionStep(start: Node, end: Node, h: Hypot, universe: set<Node>, current: Node, i: nat,
                      offers: seq<real>, closedSet: set<Node>, openSet0: seq<Node>, cameFrom0: map<Node, Node>,
                      gScore0: map<Node, real>, openSet: seq<Node>, cameFrom: map<Node, Node>,
                      gScore: map<Node, real>, fScore: map<Node, real>, order: map<Node, nat>,
                      openSet': seq<Node>, cameFrom': map<Node, Node>, gScore': map<Node, real>,
                      fScore': map<Node, real>)
    requires i < |current.edges| && current.edges[i].options.speedLimit != 0.0
    requires Relaxing(start, end, h, universe, current, i, closedSet, openSet0, gScore0, openSet, cameFrom, gScore, fScore, order)
    requires Offered(current, i, offers, closedSet, gScore0, cameFrom, gScore)
    requires offers[i] == gScore0[current] + current.edges[i].Weight(h)
    requires openSet == openSet0 + NewTargets(current.edges[..i], closedSet, openSet0)
    requires KeptPredecessors(current, openSet0, gScore0, cameFrom0, gScore, cameFrom)
    requires RelaxedEdge(current, i, end, h, closedSet, openSet, cameFrom, gScore, fScore, openSet', cameFrom', gScore', fScore')
    ensures Offered(current, i + 1, offers, closedSet, gScore0, cameFrom', gScore')
    ensures openSet' == openSet0 + NewTargets(current.edges[..i + 1], closedSet, openSet0)
    ensures KeptPredecessors(current, openSet0, gScore0, cameFrom0, gScore', cameFrom')
  {
    OfferStep(current, i, end, h, offers, closedSet, gScore0, openSet, cameFrom, gScore, fScore,
              openSet', cameFrom', gScore', fScore');
    NewTargetsStep(current, i, end, h, closedSet, openSet0, openSet, cameFrom, gScore, fScore,
                   openSet', cameFrom', gScore', fScore');
    PredecessorStep(current, i, end, h, closedSet, openSet0, gScore0, cameFrom0, openSet, cameFrom, gScore, fScore,
                    openSet', cameFrom', gScore', fScore');
  }

  /**
   * Giving the node `n` the cost `t`, and opening it if it is not yet open,
   * keeps the open list well formed and every estimate equal to cost plus
   * distance to `end`.
   */
  lemma ScoreNode(universe: set<Node>, closedSet: set<Node>, openSet: seq<Node>, gScore: map<Node, real>,
                  fScore: map<Node, real>, end: Node, h: Hypot, n: Node, t: real,
                  openSet': seq<Node>, gScore': map<Node, real>, fScore': map<Node, real>)
    requires OpenListOk(openSet, closedSet, universe, gScore, fScore) && Estimated(openSet, gScore, fScore, end, h)
    requires n in universe && n !in closedSet
    requires openSet' == (if n in openSet then openSet else openSet + [n])
    requires gScore' == gScore[n := t] && fScore' == fScore[n := t + n.DistanceTo(end, h)]
    ensures OpenListOk(openSet', closedSet, universe, gScore', fScore') && Estimated(openSet', gScore', fScore', end, h)
  {
  }

  /**
   * Lowering the cost of the neighbour `n` of `current` to `t`, and opening
   * it if it is not yet open: the open list only grows at its end, with
   * neighbours of `current`, and no node that was open before the expansion
   * (`openSet0`, with costs `gScore0`) costs more.
   */
  lemma GrowNeighbour(current: Node, openSet0: seq<Node>, gScore0: map<Node, real>, openSet: seq<Node>,
                      gScore: map<Node, real>, n: Node, t: real, openSet': seq<Node>, gScore': map<Node, real>)
    requires |openSet0| <= |openSet| && openSet[..|openSet0|] == openSet0
    requires forall j :: |openSet0| <= j < |openSet| ==> Linked(current, openSet[j])
    requires forall j :: 0 <= j < |openSet0| ==>
               openSet0[j] in gScore0 && openSet0[j] in gScore && gScore[openSet0[j]] <= gScore0[openSet0[j]]
    requires Linked(current, n) && (n in openSet ==> n in gScore && t < gScore[n])
    requires openSet' == (if n in openSet then openSet else openSet + [n]) && gScore' == gScore[n := t]
    ensures |openSet0| <= |openSet'| && openSet'[..|openSet0|] == openSet0
    ensures forall j :: |openSet0| <= j < |openSet'| ==> Linked(current, openSet'[j])
    ensures forall j :: 0 <= j < |openSet0| ==>
              openSet0[j] in gScore0 && openSet0[j] in gScore' && gScore'[openSet0[j]] <= gScore0[openSet0[j]]
  {
    assert openSet'[..|openSet|] == openSet;
  }

  /**
   * Taking the offer of the edge `current.edges[i]` (its target is open and
   * undercut, or not yet open) keeps the expansion invariants one edge further.
   */
  lemma RelaxTaken(start: Node, end: Node, h: Hypot, universe: set<Node>, current: Node, i: nat, closedSet: set<Node>,
                   openSet0: seq<Node>, gScore0: map<Node, real>, openSet: seq<Node>,
                   cameFrom: map<Node, Node>, gScore: map<Node, real>, fScore: map<Node, real>,
                   order: map<Node, nat>, openSet': seq<Node>, cameFrom': map<Node, Node>,
                   gScore': map<Node, real>, fScore': map<Node, real>)
    requires i < |current.edges| && current.edges[i].options.speedLimit != 0.0
    requires ClosedUnderEdges(universe)
    requires Relaxing(start, end, h, universe, current, i, closedSet, openSet0, gScore0, openSet, cameFrom, gScore, fScore, order)
    requires var n := current.edges[i].to;
      n !in closedSet && (n !in openSet || gScore[current] + current.edges[i].Weight(h) < gScore[n])
    requires var n, t := current.edges[i].to, gScore[current] + current.edges[i].Weight(h);
      && openSet' == (if n in openSet then openSet else openSet + [n])
      && cameFrom' == cameFrom[n := current] && gScore' == gScore[n := t]
      && fScore' == fScore[n := t + n.DistanceTo(end, h)]
    ensures Relaxing(start, end, h, universe, current, i + 1, closedSet, openSet0, gScore0,
                     openSet', cameFrom', gScore', fScore', order)
  {
    var n, t := current.edges[i].to, gScore[current] + current.edges[i].Weight(h);
    assert Linked(current, n);
    ScoreNode(universe, closedSet, openSet, gScore, fScore, end, h, n, t, openSet', gScore', fScore');
    GrowNeighbour(current, openSet0, gScore0, openSet, gScore, n, t, openSet', gScore');
    assert PredecessorsOk(start, closedSet, openSet', cameFrom', order) by {
      RecordPredecessor(start, closedSet, openSet, cameFrom, order, current, n, openSet');
    }
    assert Covered(current, i + 1, closedSet, openSet') by {
      CoveredGrows(current, i, closedSet, openSet, openSet');
      assert n in openSet';
      CoveredExtend(current, i, closedSet, openSet');
    }
  }

  /**
   * A round deletes the chosen position `k` of the open list and expands the
   * rest: the other open nodes keep their order at the head of the new list,
   * and none of them costs more than before.
   */
  lemma RoundKeepsOrder(openSet: seq<Node>, k: nat, gScore: map<Node, real>, openSet': seq<Node>, gScore': map<Node, real>)
    requires k < |openSet| && forall j :: 0 <= j < |openSet| ==> openSet[j] in gScore
    requires var rest := openSet[..k] + openSet[k + 1..];
      && |rest| <= |openSet'| && openSet'[..|rest|] == rest
      && forall j :: 0 <= j < |rest| ==> rest[j] in gScore' && gScore'[rest[j]] <= gScore[rest[j]]
    ensures |openSet| - 1 <= |openSet'| && openSet'[..|openSet| - 1] == openSet[..k] + openSet[k + 1..]
    ensures forall j :: 0 <= j < |openSet| && j != k ==> openSet[j] in gScore' && gScore'[openSet[j]] <= gScore[openSet[j]]
  {
    var rest := openSet[..k] + openSet[k + 1..];
    forall j | 0 <= j < |openSet| && j != k
      ensures openSet[j] in gScore' && gScore'[openSet[j]] <= gScore[openSet[j]]
    {
      var r := if j < k then j else j - 1;
      assert rest[r] == openSet[j];
    }
  }

  /** The loop invariant holds before the first round. */
  lemma SearchStarts(start: Node, end: Node, h: Hypot, universe: set<Node>)
    requires start in universe
    ensures SearchOk(start, end, h, universe, {}, [start], map[], map[start := 0.0],
                     map[start := start.DistanceTo(end, h)], map[], 0)
  {
  }

  /**
   * When the chosen open node is `end`, the walk back along the predecessor
   * map is a path from `start` to `end` without repeated nodes, and it is the
   * one-node path when `start` is `end`.
   */
  lemma WalkBackIsPath(start: Node, end: Node, h: Hypot, universe: set<Node>, closedSet: set<Node>, openSet: seq<Node>,
                   cameFrom: map<Node, Node>, gScore: map<Node, real>, fScore: map<Node, real>,
                   order: map<Node, nat>, rounds: nat, path: seq<Node>)
    requires SearchOk(start, end, h, universe, closedSet, openSet, cameFrom, gScore, fScore, order, rounds)
    requires end in openSet
    requires |path| > 0 && path[|path| - 1] == end && path[0] !in cameFrom
    requires forall i :: 0 < i < |path| ==> path[i] in cameFrom && cameFrom[path[i]] == path[i - 1]
    ensures IsPath(path) && path[0] == start && path[|path| - 1] == end
    ensures start == end ==> path == [start]
  {
    FoundPath(start, closedSet, openSet, cameFrom, order, path);
    if start == end && |path| > 1 {
      assert false;
    }
  }

  datatype Point = Point(x: Extended, y: Extended)

  /** The bounding box of the map: `start` holds the minima, `end` the maxima. */
  datatype Corners = Corners(start: Point, end: Point)

  datatype Size = Size(width: Extended, height: Extended)

  class Graph {
    var nodes: seq<Node>

    /** The initial node list is taken as given; nothing checks its names. */
    constructor (nodes: seq<Node>)
      ensures this.nodes == nodes
    {
      this.nodes := nodes;
    }

    /**
     * Registers `node` unless its name is empty or already taken; a refused
     * node leaves the graph as it was. Distinct names stay distinct.
     */
    method AddNode(node: Node) returns (added: bool)
      modifies this`nodes
      ensures added <==> node.name != "" && !HasName(old(nodes), node.name)
      ensures nodes == if added then old(nodes) + [node] else old(nodes)
      ensures old(DistinctNames(nodes)) ==> DistinctNames(nodes)
    {
      if node.name == "" {
        return false;
      }
      if HasName(nodes, node.name) {
        return false;
      }
      nodes := nodes + [node];
      return true;
    }

    /**
     * The bounding box of all node positions. An empty graph yields the
     * starting values of the fold: +infinity for the minima and -infinity for
     * the maxima.
     */
    method MapCorners() returns (corners: Corners)
      ensures nodes == [] ==> corners == Corners(Point(PosInf, PosInf), Point(NegInf, NegInf))
      ensures nodes != [] ==> IsLeast(nodes, X, corners.start.x) && IsLeast(nodes, Y, corners.start.y)
      ensures nodes != [] ==> IsGreatest(nodes, X, corners.end.x) && IsGreatest(nodes, Y, corners.end.y)
    {
      var minX, maxX, minY, maxY := PosInf, NegInf, PosInf, NegInf;
      for i := 0 to |nodes|
        invariant i == 0 ==> minX == PosInf && maxX == NegInf && minY == PosInf && maxY == NegInf
        invariant i > 0 ==> IsLeast(nodes[..i], X, minX) && IsGreatest(nodes[..i], X, maxX)
        invariant i > 0 ==> IsLeast(nodes[..i], Y, minY) && IsGreatest(nodes[..i], Y, maxY)
      {
        var p := nodes[i].position;
        BoundsStep(nodes, i, X, minX, maxX);
        BoundsStep(nodes, i, Y, minY, maxY);
        minX := Lower(minX, p.x);
        maxX := Upper(maxX, p.x);
        minY := Lower(minY, p.y);
        maxY := Upper(maxY, p.y);
      }
      assert nodes[..|nodes|] == nodes;
      corners := Corners(Point(minX, minY), Point(maxX, maxY));
    }

    /**
     * The map size in grid cells: the least integer not below (greatest x) + 1,
     * and likewise for y. An empty graph yields -infinity for both.
     */
    method MapSize() returns (size: Size)
      ensures nodes == [] ==> size == Size(NegInf, NegInf)
      ensures nodes != [] ==> size.width.Finite? && size.height.Finite?
      ensures nodes != [] ==> size.width.value == size.width.value.Floor as real && size.height.value == size.height.value.Floor as real
      ensures forall i :: 0 <= i < |nodes| ==> nodes[i].position.x + 1.0 <= size.width.value && nodes[i].position.y + 1.0 <= size.height.value
      ensures nodes != [] ==> exists i :: 0 <= i < |nodes| && size.width.value < nodes[i].position.x + 2.0
      ensures nodes != [] ==> exists i :: 0 <= i < |nodes| && size.height.value < nodes[i].position.y + 2.0
    {
      var corners := MapCorners();
      size := Size(CeilPlusOne(corners.end.x), CeilPlusOne(corners.end.y));
    }

    /**
     * Walks the predecessor map back from `current`, prepending each
     * predecessor, until it reaches a node without one. `rank` witnesses that
     * the map has no cycle: it strictly decreases from a node to its
     * predecessor. The result ends at `current`, starts at a node without a
     * predecessor, follows the map backwards and repeats no node.
     */
    static method ReconstructPath(cameFrom: map<Node, Node>, current: Node, ghost rank: map<Node, nat>)
      returns (totalPath: seq<Node>)
      requires current in rank
      requires forall n :: n in cameFrom ==> n in rank && cameFrom[n] in rank && rank[cameFrom[n]] < rank[n]
      ensures |totalPath| > 0 && totalPath[|totalPath| - 1] == current
      ensures totalPath[0] !in cameFrom
      ensures forall i :: 0 < i < |totalPath| ==> totalPath[i] in cameFrom && cameFrom[totalPath[i]] == totalPath[i - 1]
      ensures NoRepeats(totalPath)
    {
      var node := current;
      totalPath := [node];
      while node in cameFrom
        invariant |totalPath| > 0 && totalPath[0] == node && totalPath[|totalPath| - 1] == current
        invariant forall i :: 0 <= i < |totalPath| ==> totalPath[i] in rank
        invariant forall i :: 0 < i < |totalPath| ==> totalPath[i] in cameFrom && cameFrom[totalPath[i]] == totalPath[i - 1]
        invariant forall i, j :: 0 <= i < j < |totalPath| ==> rank[totalPath[i]] < rank[totalPath[j]]
        decreases rank[node]
      {
        node := cameFrom[node];
        totalPath := [node] + totalPath;
      }
    }

    /**
     * The body of the search loop after the chosen node has been closed: a
     * pass over the outgoing edges of `current`, in which each edge to a node
     * that is not closed offers that node a cost through `current`. A node not yet
     * open is appended to the open list; an open node takes the offer only if
     * it is strictly cheaper, and keeps its place in the list either way.
     */
    static method ExpandNode(current: Node, end: Node, h: Hypot, ghost start: Node, ghost universe: set<Node>,
                             closedSet: set<Node>, openSet: seq<Node>, cameFrom: map<Node, Node>,
                             gScore: map<Node, real>, fScore: map<Node, real>,
                             ghost order: map<Node, nat>, ghost rounds: nat)
      returns (openSet': seq<Node>, cameFrom': map<Node, Node>, gScore': map<Node, real>, fScore': map<Node, real>)
      requires Expandable(start, end, h, universe, current, closedSet, openSet, cameFrom, gScore, fScore, order, rounds)
      requires ClosedUnderEdges(universe)
      requires forall k :: 0 <= k < |current.edges| ==> current.edges[k].options.speedLimit != 0.0
      ensures Expanded(start, end, h, universe, current, closedSet, openSet, openSet', cameFrom', gScore', fScore', order)
      ensures forall j :: |openSet| <= j < |openSet'| ==> Linked(current, openSet'[j])
      ensures forall j :: 0 <= j < |openSet| ==> openSet[j] in gScore' && gScore'[openSet[j]] <= gScore[openSet[j]]
      ensures Offered(current, |current.edges|, Offers(current, gScore[current], h), closedSet, gScore, cameFrom', gScore')
      ensures openSet' == openSet + NewTargets(current.edges, closedSet, openSet)
      ensures KeptPredecessors(current, openSet, gScore, cameFrom, gScore', cameFrom')
    {
      ghost var offers := Offers(current, gScore[current], h);
      openSet', cameFrom', gScore', fScore' := openSet, cameFrom, gScore, fScore;
      for i := 0 to |current.edges|
        invariant Relaxing(start, end, h, universe, current, i, closedSet, openSet, gScore, openSet', cameFrom', gScore', fScore', order)
        invariant Offered(current, i, offers, closedSet, gScore, cameFrom', gScore')
        invariant openSet' == openSet + NewTargets(current.edges[..i], closedSet, openSet)
        invariant KeptPredecessors(current, openSet, gScore, cameFrom, gScore', cameFrom')
      {
        ghost var openSet1, cameFrom1, gScore1, fScore1 := openSet', cameFrom', gScore', fScore';
        openSet', cameFrom', gScore', fScore' :=
          RelaxEdge(current, i, end, h, start, universe, closedSet, openSet, gScore, openSet', cameFrom', gScore', fScore', order);
        ExpansionStep(start, end, h, universe, current, i, offers, closedSet, openSet, cameFrom, gScore,
                      openSet1, cameFrom1, gScore1, fScore1, order, openSet', cameFrom', gScore', fScore');
      }
      assert current.edges[..|current.edges|] == current.edges;
    }

    /**
     * One pass of the expansion loop, over the edge `current.edges[i]`: a
     * closed target is skipped; otherwise, if the target is new to the open
     * list or the cost through `current` is strictly lower than its recorded
     * cost, `current` becomes its predecessor and its costs are updated.
     */
    static method RelaxEdge(current: Node, i: nat, end: Node, h: Hypot, ghost start: Node, ghost universe: set<Node>,
                            closedSet: set<Node>, ghost openSet0: seq<Node>, ghost gScore0: map<Node, real>,
                            openSet: seq<Node>, cameFrom: map<Node, Node>, gScore: map<Node, real>,
                            fScore: map<Node, real>, ghost order: map<Node, nat>)
      returns (openSet': seq<Node>, cameFrom': map<Node, Node>, gScore': map<Node, real>, fScore': map<Node, real>)
      requires i < |current.edges| && current.edges[i].options.speedLimit != 0.0
      requires ClosedUnderEdges(universe)
      requires Relaxing(start, end, h, universe, current, i, closedSet, openSet0, gScore0, openSet, cameFrom, gScore, fScore, order)
      ensures Relaxing(start, end, h, universe, current, i + 1, closedSet, openSet0, gScore0, openSet', cameFrom', gScore', fScore', order)
      ensures RelaxedEdge(current, i, end, h, closedSet, openSet, cameFrom, gScore, fScore, openSet', cameFrom', gScore', fScore')
    {
      openSet', cameFrom', gScore', fScore' := openSet, cameFrom, gScore, fScore;
      var edge := current.edges[i];
      var neighbor := edge.to;
      if neighbor in closedSet {
        CoveredExtend(current, i, closedSet, openSet');
        return;
      }
      var tentativeGScore := gScore[current] + edge.Weight(h);
      if neighbor !in openSet {
        openSet' := openSet + [neighbor];
      } else if tentativeGScore >= gScore[neighbor] {
        CoveredExtend(current, i, closedSet, openSet');
        return;
      }
      cameFrom' := cameFrom[neighbor := current];
      gScore' := gScore[neighbor := tentativeGScore];
      fScore' := fScore[neighbor := tentativeGScore + neighbor.DistanceTo(end, h)];
      RelaxTaken(start, end, h, universe, current, i, closedSet, openSet0, gScore0, openSet, cameFrom, gScore, fScore, order,
                 openSet', cameFrom', gScore', fScore');
    }

    /**
     * The end of a search round in which the chosen open node `openSet[k]` is
     * `end`: the answer is the walk back from it along the predecessor map.
     */
    static method FinishSearch(k: nat, end: Node, h: Hypot, ghost start: Node, ghost universe: set<Node>,
                               closedSet: set<Node>, openSet: seq<Node>, cameFrom: map<Node, Node>,
                               ghost gScore: map<Node, real>, ghost fScore: map<Node, real>,
                               ghost order: map<Node, nat>, ghost rounds: nat)
      returns (totalPath: seq<Node>)
      requires SearchOk(start, end, h, universe, closedSet, openSet, cameFrom, gScore, fScore, order, rounds)
      requires k < |openSet| && openSet[k] == end
      ensures IsPath(totalPath) && totalPath[0] == start && totalPath[|totalPath| - 1] == end
      ensures NoRepeats(totalPath)
      ensures start == end ==> totalPath == [start]
    {
      ghost var rank := ClosingRank(start, closedSet, openSet, cameFrom, order, rounds, end);
      totalPath := ReconstructPath(cameFrom, end, rank);
      WalkBackIsPath(start, end, h, universe, closedSet, openSet, cameFrom, gScore, fScore, order, rounds, totalPath);
    }

    /**
     * The rest of a search round once the chosen open node `openSet[k]` is not
     * `end`: it moves from the open list to the closed set and is expanded.
     */
    static method CloseAndExpand(k: nat, end: Node, h: Hypot, ghost start: Node, ghost universe: set<Node>,
                                 closedSet: set<Node>, openSet: seq<Node>, cameFrom: map<Node, Node>,
                                 gScore: map<Node, real>, fScore: map<Node, real>,
                                 ghost order: map<Node, nat>, ghost rounds: nat)
      returns (closedSet': set<Node>, openSet': seq<Node>, cameFrom': map<Node, Node>,
               gScore': map<Node, real>, fScore': map<Node, real>, ghost order': map<Node, nat>, ghost rounds': nat)
      requires ClosedUnderEdges(universe)
      requires forall n, i :: n in universe && 0 <= i < |n.edges| ==> n.edges[i].options.speedLimit != 0.0
      requires SearchOk(start, end, h, universe, closedSet, openSet, cameFrom, gScore, fScore, order, rounds)
      requires k < |openSet| && openSet[k] != end
      ensures SearchOk(start, end, h, universe, closedSet', openSet', cameFrom', gScore', fScore', order', rounds')
      ensures closedSet' == closedSet + {openSet[k]}
      ensures |universe - closedSet'| < |universe - closedSet|
      ensures |openSet| - 1 <= |openSet'| && openSet'[..|openSet| - 1] == openSet[..k] + openSet[k + 1..]
      ensures forall j :: 0 <= j < |openSet| && j != k ==> openSet[j] in gScore' && gScore'[openSet[j]] <= gScore[openSet[j]]
      ensures Offered(openSet[k], |openSet[k].edges|, Offers(openSet[k], gScore[openSet[k]], h), closedSet', gScore,
                      cameFrom', gScore')
      ensures openSet' == openSet[..k] + openSet[k + 1..] + NewTargets(openSet[k].edges, closedSet', openSet[..k] + openSet[k + 1..])
      ensures KeptPredecessors(openSet[k], openSet[..k] + openSet[k + 1..], gScore, cameFrom, gScore', cameFrom')
    {
      var current := openSet[k];
      CloseStep(start, end, h, universe, closedSet, openSet, cameFrom, gScore, fScore, order, rounds, k);
      var remaining := openSet[..k] + openSet[k + 1..];
      closedSet' := closedSet + {current};
      order' := order[current := rounds];
      rounds' := rounds + 1;
      openSet', cameFrom', gScore', fScore' :=
        ExpandNode(current, end, h, start, universe, closedSet', remaining, cameFrom, gScore, fScore, order', rounds');
      AfterExpand(start, end, h, universe, current, closedSet', remaining, cameFrom, gScore, fScore,
                  order', rounds', openSet', cameFrom', gScore', fScore');
      RoundKeepsOrder(openSet, k, gScore, openSet', gScore');
    }

    /**
     * A* search from `start` to `end` (`Graph.findPath`). The open set is kept
     * in insertion order; each round takes the open node of least estimated
     * total cost (ties go to the latest inserted), stops if it is `end`, and
     * otherwise closes it and expands it. A node once closed is never
     * reopened, and each round closes one node of `universe`.
     *
     * `universe` is any finite set of nodes that contains `start` and is
     * closed under edges (the nodes reachable from `start` are one); it bounds
     * the number of rounds.
     *
     * The answer is a walk along outgoing edges from `start` to `end` that
     * repeats no node, or None exactly when no such walk exists.
     */
    static method FindPath(start: Node, end: Node, h: Hypot, ghost universe: set<Node>)
      returns (path: Option<seq<Node>>)
      requires start in universe && ClosedUnderEdges(universe)
      requires forall n, k :: n in universe && 0 <= k < |n.edges| ==> n.edges[k].options.speedLimit != 0.0
      ensures start == end ==> path == Some([start])
      ensures path.Some? ==> IsPath(path.value) && path.value[0] == start && path.value[|path.value| - 1] == end
      ensures path.Some? ==> NoRepeats(path.value)
      ensures path.None? ==> forall p :: IsPath(p) && p[0] == start ==> p[|p| - 1] != end
    {
      var closedSet: set<Node> := {};
      var openSet: seq<Node> := [start];
      var cameFrom: map<Node, Node> := map[];
      var gScore: map<Node, real> := map[start := 0.0];
      var fScore: map<Node, real> := map[start := start.DistanceTo(end, h)];
      // the round in which each closed node was closed
      ghost var order: map<Node, nat> := map[];
      ghost var rounds: nat := 0;
      SearchStarts(start, end, h, universe);

      while |openSet| > 0
        invariant SearchOk(start, end, h, universe, closedSet, openSet, cameFrom, gScore, fScore, order, rounds)
        decreases |universe - closedSet|
      {
        var k := LatestMinimum(openSet, fScore);
        var current := openSet[k];

        if current == end {
          var totalPath := FinishSearch(k, end, h, start, universe, closedSet, openSet, cameFrom, gScore, fScore, order, rounds);
          return Some(totalPath);
        }

        closedSet, openSet, cameFrom, gScore, fScore, order, rounds :=
          CloseAndExpand(k, end, h, start, universe, closedSet, openSet, cameFrom, gScore, fScore, order, rounds);
      }

      FrontierExhausted(closedSet);
      forall p | IsPath(p) && p[0] == start
        ensures p[|p| - 1] != end
      {
        PathStaysWithin(p, closedSet);
      }
      return None;
    }
  }
}
