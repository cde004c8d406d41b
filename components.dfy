/**
 * Connected components of the graph whose nodes are superpixel ids and whose
 * edges are a list of id pairs, numbered from 1: the effect of building
 * `nx.Graph(edges)`, adding the remaining nodes, and enumerating
 * `nx.connected_components` with `start=1` (ilastikrag/rag.py,
 * `naive_segmentation_from_edge_decisions`).
 */
module Components {
  import opened EdgeExtraction

  // ---------------------------------------------------------------------------
  // Paths

  /** Some pair of `edges` joins `x` and `y`, in either direction. */
  ghost predicate Linked(edges: seq<EdgeId>, x: nat, y: nat)
  {
    exists i :: 0 <= i < |edges| && ((edges[i].sp1 == x && edges[i].sp2 == y) || (edges[i].sp1 == y && edges[i].sp2 == x))
  }

  /** Consecutive nodes of `p` are linked. */
  ghost predicate IsPath(edges: seq<EdgeId>, p: seq<nat>)
  {
    |p| > 0 && forall i :: 0 <= i < |p| - 1 ==> Linked(edges, p[i], p[i + 1])
  }

  /** `x` and `y` are joined by a path (every node is joined to itself). */
  ghost predicate Connected(edges: seq<EdgeId>, x: nat, y: nat)
  {
    exists p :: IsPath(edges, p) && p[0] == x && p[|p| - 1] == y
  }

  lemma ConnectedRefl(edges: seq<EdgeId>, x: nat)
    ensures Connected(edges, x, x)
  {
    assert IsPath(edges, [x]);
  }

  lemma LinkedConnected(edges: seq<EdgeId>, x: nat, y: nat)
    requires Linked(edges, x, y)
    ensures Connected(edges, x, y)
  {
    assert IsPath(edges, [x, y]);
  }

  function Reverse(p: seq<nat>): (r: seq<nat>)
    ensures |r| == |p| && forall i :: 0 <= i < |p| ==> r[i] == p[|p| - 1 - i]
  {
    seq(|p|, i requires 0 <= i < |p| => p[|p| - 1 - i])
  }

  lemma ConnectedSym(edges: seq<EdgeId>, x: nat, y: nat)
    requires Connected(edges, x, y)
    ensures Connected(edges, y, x)
  {
    var p :| IsPath(edges, p) && p[0] == x && p[|p| - 1] == y;
    var r := Reverse(p);
    forall i | 0 <= i < |r| - 1 ensures Linked(edges, r[i], r[i + 1]) {
      var j := |p| - 2 - i;
      assert Linked(edges, p[j], p[j + 1]);
      var k :| 0 <= k < |edges| && ((edges[k].sp1 == p[j] && edges[k].sp2 == p[j + 1]) || (edges[k].sp1 == p[j + 1] && edges[k].sp2 == p[j]));
      assert r[i] == p[j + 1] && r[i + 1] == p[j];
    }
    assert IsPath(edges, r);
  }

  lemma ConnectedTrans(edges: seq<EdgeId>, x: nat, y: nat, z: nat)
    requires Connected(edges, x, y) && Connected(edges, y, z)
    ensures Connected(edges, x, z)
  {
    var p :| IsPath(edges, p) && p[0] == x && p[|p| - 1] == y;
    var q :| IsPath(edges, q) && q[0] == y && q[|q| - 1] == z;
    var pq := p + q[1..];
    forall i | 0 <= i < |pq| - 1 ensures Linked(edges, pq[i], pq[i + 1]) {
      if i < |p| - 1 {
        assert pq[i] == p[i] && pq[i + 1] == p[i + 1];
      } else {
        var j := i - (|p| - 1);
        assert pq[i] == q[j] && pq[i + 1] == q[j + 1];
      }
    }
    assert IsPath(edges, pq);
  }

  /** Adding an edge at the end keeps every existing link. */
  lemma LinkedSnoc(edges: seq<EdgeId>, e: EdgeId, x: nat, y: nat)
    requires Linked(edges, x, y)
    ensures Linked(edges + [e], x, y)
  {
    var i :| 0 <= i < |edges| && ((edges[i].sp1 == x && edges[i].sp2 == y) || (edges[i].sp1 == y && edges[i].sp2 == x));
    assert (edges + [e])[i] == edges[i];
  }

  lemma ConnectedSnocMono(edges: seq<EdgeId>, e: EdgeId, x: nat, y: nat)
    requires Connected(edges, x, y)
    ensures Connected(edges + [e], x, y)
  {
    var p :| IsPath(edges, p) && p[0] == x && p[|p| - 1] == y;
    forall i | 0 <= i < |p| - 1 ensures Linked(edges + [e], p[i], p[i + 1]) {
      LinkedSnoc(edges, e, p[i], p[i + 1]);
    }
    assert IsPath(edges + [e], p);
  }

  /** Without edges, a node is connected only to itself. */
  lemma ConnectedNoEdges(x: nat, y: nat)
    ensures Connected([], x, y) <==> x == y
  {
    if Connected([], x, y) {
      var p :| IsPath([], p) && p[0] == x && p[|p| - 1] == y;
      assert |p| >= 2 ==> Linked([], p[0], p[1]);
    } else {
      ConnectedRefl([], x);
    }
  }

  /** `x` reaches `y` using the old edges, possibly once through the new edge `(u, v)`. */
  ghost predicate JoinedVia(edges: seq<EdgeId>, u: nat, v: nat, x: nat, y: nat)
  {
    Connected(edges, x, y)
    || (Connected(edges, x, u) && Connected(edges, v, y))
    || (Connected(edges, x, v) && Connected(edges, u, y))
  }

  lemma {:induction false} PathSplit(edges: seq<EdgeId>, e: EdgeId, p: seq<nat>)
    requires IsPath(edges + [e], p)
    ensures JoinedVia(edges, e.sp1, e.sp2, p[0], p[|p| - 1])
    decreases |p|
  {
    var x := p[0];
    if |p| == 1 {
      ConnectedRefl(edges, x);
    } else {
      var q := p[..|p| - 1];
      assert IsPath(edges + [e], q) by {
        forall i | 0 <= i < |q| - 1 ensures Linked(edges + [e], q[i], q[i + 1]) {
          assert q[i] == p[i] && q[i + 1] == p[i + 1];
        }
      }
      PathSplit(edges, e, q);
      var z, y := p[|p| - 2], p[|p| - 1];
      assert q[|q| - 1] == z;
      var u, v := e.sp1, e.sp2;
      assert Linked(edges + [e], z, y);
      var i :| 0 <= i < |edges + [e]| && (((edges + [e])[i].sp1 == z && (edges + [e])[i].sp2 == y) || ((edges + [e])[i].sp1 == y && (edges + [e])[i].sp2 == z));
      if i < |edges| {
        assert edges[i] == (edges + [e])[i];
        assert Linked(edges, z, y);
        LinkedConnected(edges, z, y);
        if Connected(edges, x, z) {
          ConnectedTrans(edges, x, z, y);
        } else if Connected(edges, x, u) && Connected(edges, v, z) {
          ConnectedTrans(edges, v, z, y);
        } else {
          ConnectedTrans(edges, u, z, y);
        }
      } else {
        assert (edges + [e])[i] == e;
        ConnectedRefl(edges, y);
        // Either `x` already reaches `z` and the new edge is the last step, or `x`
        // reaches one end of the new edge and `z` is the other end.
      }
    }
  }

  /** Connectivity after appending edge `e`, described with the edges before it. */
  lemma ConnectedSnoc(edges: seq<EdgeId>, e: EdgeId, x: nat, y: nat)
    ensures Connected(edges + [e], x, y) <==> JoinedVia(edges, e.sp1, e.sp2, x, y)
  {
    var u, v := e.sp1, e.sp2;
    if Connected(edges + [e], x, y) {
      var p :| IsPath(edges + [e], p) && p[0] == x && p[|p| - 1] == y;
      PathSplit(edges, e, p);
    }
    if JoinedVia(edges, u, v, x, y) {
      assert (edges + [e])[|edges|] == e;
      assert Linked(edges + [e], u, v);
      LinkedConnected(edges + [e], u, v);
      assert Linked(edges + [e], v, u);
      LinkedConnected(edges + [e], v, u);
      if Connected(edges, x, y) {
        ConnectedSnocMono(edges, e, x, y);
      } else if Connected(edges, x, u) && Connected(edges, v, y) {
        ConnectedSnocMono(edges, e, x, u);
        ConnectedSnocMono(edges, e, v, y);
        ConnectedTrans(edges + [e], x, u, v);
        ConnectedTrans(edges + [e], x, v, y);
      } else {
        ConnectedSnocMono(edges, e, x, v);
        ConnectedSnocMono(edges, e, u, y);
        ConnectedTrans(edges + [e], x, v, u);
        ConnectedTrans(edges + [e], x, u, y);
      }
    }
  }

  // ---------------------------------------------------------------------------
  // Union by relabelling (quick-find)

  /** `rep` names the component of every node of `nodes` and of nothing else. */
  ghost predicate RepresentsComponents(rep: map<nat, nat>, nodes: set<nat>, edges: seq<EdgeId>)
  {
    rep.Keys == nodes
    && forall x, y :: x in rep && y in rep ==> (rep[x] == rep[y] <==> Connected(edges, x, y))
  }

  /** Relabelling the component of `v` with the name of the component of `u`. */
  function Union(rep: map<nat, nat>, u: nat, v: nat): (r: map<nat, nat>)
    requires u in rep && v in rep
    ensures r.Keys == rep.Keys
  {
    map x | x in rep :: if rep[x] == rep[v] then rep[u] else rep[x]
  }

  lemma UnionPair(rep: map<nat, nat>, nodes: set<nat>, edges: seq<EdgeId>, e: EdgeId, x: nat, y: nat)
    requires RepresentsComponents(rep, nodes, edges) && e.sp1 in rep && e.sp2 in rep
    requires x in rep && y in rep
    ensures Union(rep, e.sp1, e.sp2)[x] == Union(rep, e.sp1, e.sp2)[y] <==> Connected(edges + [e], x, y)
  {
    var u, v := e.sp1, e.sp2;
    ConnectedSnoc(edges, e, x, y);
    if Connected(edges, y, u) { ConnectedSym(edges, y, u); }
    if Connected(edges, u, y) { ConnectedSym(edges, u, y); }
    if Connected(edges, y, v) { ConnectedSym(edges, y, v); }
    if Connected(edges, v, y) { ConnectedSym(edges, v, y); }
    if Connected(edges, x, u) && Connected(edges, u, y) { ConnectedTrans(edges, x, u, y); }
    if Connected(edges, x, v) && Connected(edges, v, y) { ConnectedTrans(edges, x, v, y); }
    assert (rep[x] == rep[u] <==> Connected(edges, x, u)) && (rep[x] == rep[v] <==> Connected(edges, x, v));
    assert (rep[y] == rep[u] <==> Connected(edges, y, u)) && (rep[y] == rep[v] <==> Connected(edges, y, v));
    assert (rep[u] == rep[y] <==> Connected(edges, u, y)) && (rep[v] == rep[y] <==> Connected(edges, v, y));
    assert rep[x] == rep[y] <==> Connected(edges, x, y);
  }

  lemma UnionStep(rep: map<nat, nat>, nodes: set<nat>, edges: seq<EdgeId>, e: EdgeId)
    requires RepresentsComponents(rep, nodes, edges) && e.sp1 in rep && e.sp2 in rep
    ensures RepresentsComponents(Union(rep, e.sp1, e.sp2), nodes, edges + [e])
  {
    forall x, y | x in rep && y in rep
      ensures Union(rep, e.sp1, e.sp2)[x] == Union(rep, e.sp1, e.sp2)[y] <==> Connected(edges + [e], x, y)
    {
      UnionPair(rep, nodes, edges, e, x, y);
    }
  }

  /** The node list of `nx.Graph(edges)` followed by `add_nodes_from(extra)`. */
  function GraphNodes(edges: seq<EdgeId>, extra: seq<nat>): (ns: seq<nat>)
    ensures forall k :: 0 <= k < |edges| ==> edges[k].sp1 in ns && edges[k].sp2 in ns
    ensures forall x :: x in extra ==> x in ns
    ensures forall x :: x in ns ==> x in extra || exists k :: 0 <= k < |edges| && (edges[k].sp1 == x || edges[k].sp2 == x)
  {
    if |edges| == 0 then extra
    else
      var n := |edges| - 1;
      var rest := GraphNodes(edges[..n], extra);
      assert forall k :: 0 <= k < n ==> edges[..n][k] == edges[k];
      [edges[n].sp1, edges[n].sp2] + rest
  }

  /** The numbers `1..count`. */
  function OneTo(count: nat): (s: set<nat>)
    ensures forall n :: n in s <==> 1 <= n <= count
  {
    if count == 0 then {} else OneTo(count - 1) + {count}
  }

  /** Quick-find over the edges in order: afterwards `rep` names the components of `nodes`. */
  method MergeComponents(nodes: seq<nat>, edges: seq<EdgeId>) returns (rep: map<nat, nat>)
    requires forall k :: 0 <= k < |edges| ==> edges[k].sp1 in nodes && edges[k].sp2 in nodes
    ensures RepresentsComponents(rep, (set x | x in nodes), edges)
  {
    ghost var nodeSet := set x | x in nodes;
    rep := map x | x in nodes :: x;
    forall x, y | x in rep && y in rep ensures rep[x] == rep[y] <==> Connected(edges[..0], x, y) {
      ConnectedNoEdges(x, y);
    }
    for k := 0 to |edges|
      invariant RepresentsComponents(rep, nodeSet, edges[..k])
    {
      assert edges[..k + 1] == edges[..k] + [edges[k]];
      UnionStep(rep, nodeSet, edges[..k], edges[k]);
      rep := Union(rep, edges[k].sp1, edges[k].sp2);
    }
    assert edges[..|edges|] == edges;
  }

  /**
   * Numbers the components named by `rep` from 1, in the order in which their
   * first node occurs in `nodes`; every number in `1..count` is used.
   */
  method NumberComponents(nodes: seq<nat>, rep: map<nat, nat>) returns (componentOf: map<nat, nat>, count: nat)
    requires forall i :: 0 <= i < |nodes| ==> nodes[i] in rep
    ensures componentOf.Keys == set x | x in nodes
    ensures componentOf.Values == OneTo(count)
    ensures forall x, y :: x in componentOf && y in componentOf ==> (componentOf[x] == componentOf[y] <==> rep[x] == rep[y])
  {
    componentOf := map[];
    var seen: map<nat, nat> := map[];
    count := 0;
    ghost var firsts: seq<nat> := [];
    for i := 0 to |nodes|
      invariant componentOf.Keys == set j | 0 <= j < i :: nodes[j]
      invariant forall x :: x in componentOf ==> x in rep && rep[x] in seen && componentOf[x] == seen[rep[x]]
      invariant forall r :: r in seen ==> 1 <= seen[r] <= count
      invariant forall r, r' :: r in seen && r' in seen && seen[r] == seen[r'] ==> r == r'
      invariant |firsts| == count
      invariant forall n :: 0 <= n < count ==> firsts[n] in componentOf && componentOf[firsts[n]] == n + 1
    {
      var x := nodes[i];
      if rep[x] !in seen {
        count := count + 1;
        seen := seen[rep[x] := count];
        firsts := firsts + [x];
      }
      componentOf := componentOf[x := seen[rep[x]]];
    }
    assert componentOf.Keys == set x | x in nodes by {
      forall x | x in nodes ensures x in componentOf {
        var j :| 0 <= j < |nodes| && nodes[j] == x;
      }
    }
    forall n | n in OneTo(count) ensures n in componentOf.Values {
      assert componentOf[firsts[n - 1]] == n;
    }
  }

  /**
   * Component numbers `1..count` for every node of the graph: two nodes get the
   * same number exactly when a path of `edges` joins them, and every number in
   * `1..count` is used.
   */
  method ConnectedComponents(edges: seq<EdgeId>, extra: seq<nat>) returns (componentOf: map<nat, nat>, count: nat)
    ensures componentOf.Keys == set x | x in GraphNodes(edges, extra)
    ensures componentOf.Values == OneTo(count)
    ensures forall x :: x in componentOf ==> 1 <= componentOf[x] <= count
    ensures forall x, y :: x in componentOf && y in componentOf ==> (componentOf[x] == componentOf[y] <==> Connected(edges, x, y))
  {
    var nodes := GraphNodes(edges, extra);
    var rep := MergeComponents(nodes, edges);
    componentOf, count := NumberComponents(nodes, rep);
    forall x | x in componentOf ensures 1 <= componentOf[x] <= count {
      assert componentOf[x] in componentOf.Values;
    }
  }
}
