// A deterministic topological sort of a directed graph given by its edge
// list, standing in for `networkx.topological_sort(nx.DiGraph(edges))`: the
// nodes are the distinct edge endpoints, and a graph with a cycle (a
// self-loop included) has no order.
module TopoSort {
  import opened Wrappers
  import opened Sequences

  type Edge = (string, string)

  datatype TopoError = Cycle   // networkx raises NetworkXUnfeasible

  /** The endpoints of every edge, source before target, edge by edge. */
  function Flatten(edges: seq<Edge>): (r: seq<string>)
    ensures |r| == 2 * |edges|
    ensures forall k :: 0 <= k < |edges| ==> r[2 * k] == edges[k].0 && r[2 * k + 1] == edges[k].1
  {
    if |edges| == 0 then [] else Flatten(edges[..|edges| - 1]) + [edges[|edges| - 1].0, edges[|edges| - 1].1]
  }

  /** The graph's nodes in the order the edge list first mentions them. */
  function Endpoints(edges: seq<Edge>): seq<string>
  {
    Dedup(Flatten(edges))
  }

  lemma EndpointsOfEdges(edges: seq<Edge>)
    ensures Distinct(Endpoints(edges))
    ensures forall k :: 0 <= k < |edges| ==> edges[k].0 in Endpoints(edges) && edges[k].1 in Endpoints(edges)
    ensures forall x :: x in Endpoints(edges) ==> exists k :: 0 <= k < |edges| && (edges[k].0 == x || edges[k].1 == x)
  {
    var F := Flatten(edges);
    forall k | 0 <= k < |edges| ensures edges[k].0 in F && edges[k].1 in F {
      assert F[2 * k] == edges[k].0 && F[2 * k + 1] == edges[k].1;
    }
    forall x | x in Endpoints(edges) ensures exists k :: 0 <= k < |edges| && (edges[k].0 == x || edges[k].1 == x) {
      var i :| 0 <= i < |F| && F[i] == x;
      var k := i / 2;
      assert F[2 * k] == edges[k].0 && F[2 * k + 1] == edges[k].1;
      if i == 2 * k {
        assert edges[k].0 == x;
      } else {
        assert i == 2 * k + 1;
        assert edges[k].1 == x;
      }
    }
  }

  /** Every edge goes from an earlier to a later position of `order`. */
  ghost predicate RespectsEdges(order: seq<string>, edges: seq<Edge>)
  {
    forall k :: 0 <= k < |edges| ==>
      edges[k].0 in order && edges[k].1 in order
      && FirstIndex(order, edges[k].0) < FirstIndex(order, edges[k].1)
  }

  /** `order` lists each node of the graph once, every edge pointing forward. */
  ghost predicate IsTopologicalOrder(order: seq<string>, edges: seq<Edge>)
  {
    && Distinct(order)
    && (forall x :: x in order <==> x in Endpoints(edges))
    && RespectsEdges(order, edges)
  }

  /** Whether some edge into x starts at a node still in `remaining`. */
  predicate HasPredecessorIn(x: string, remaining: seq<string>, edges: seq<Edge>)
  {
    exists k :: 0 <= k < |edges| && edges[k].1 == x && edges[k].0 in remaining
  }

  /** Kahn's algorithm: repeatedly take the first remaining node that no
      remaining node points to; fail when every remaining node has one. */
  method TopologicalSort(edges: seq<Edge>) returns (r: Result<seq<string>, TopoError>)
    ensures r.Ok? ==> IsTopologicalOrder(r.value, edges)
    ensures r.Err? ==> forall order :: !IsTopologicalOrder(order, edges)
  {
    var nodes := Endpoints(edges);
    EndpointsOfEdges(edges);
    var order: seq<string> := [];
    var remaining := nodes;
    while |remaining| > 0
      invariant Distinct(order) && Distinct(remaining)
      invariant forall x :: x in nodes <==> x in order || x in remaining
      invariant forall x :: x in order ==> x !in remaining
      invariant forall k :: 0 <= k < |edges| && edges[k].1 in order ==>
        edges[k].0 in order && FirstIndex(order, edges[k].0) < FirstIndex(order, edges[k].1)
      decreases |remaining|
    {
      var j := FirstFree(remaining, edges);
      if j == |remaining| {
        forall order' | true ensures !IsTopologicalOrder(order', edges) {
          CycleBlocksOrder(remaining, edges, order');
        }
        return Err(Cycle);
      }
      var x := remaining[j];
      AppendFree(order, remaining, nodes, edges, x);
      RemoveAt(order, remaining, nodes, j);
      order := order + [x];
      remaining := remaining[..j] + remaining[j + 1..];
    }
    return Ok(order);
  }

  /** The position of the first remaining node without a remaining
      predecessor, or |remaining| when there is none. */
  method FirstFree(remaining: seq<string>, edges: seq<Edge>) returns (j: nat)
    ensures j <= |remaining|
    ensures forall q :: 0 <= q < j ==> HasPredecessorIn(remaining[q], remaining, edges)
    ensures j < |remaining| ==> !HasPredecessorIn(remaining[j], remaining, edges)
  {
    j := 0;
    while j < |remaining| && HasPredecessorIn(remaining[j], remaining, edges)
      invariant j <= |remaining|
      invariant forall q :: 0 <= q < j ==> HasPredecessorIn(remaining[q], remaining, edges)
    {
      j := j + 1;
    }
  }

  /** Moving the j-th remaining node to the end of the order keeps both lists
      duplicate-free, disjoint and together equal to the nodes. */
  lemma RemoveAt(order: seq<string>, remaining: seq<string>, nodes: seq<string>, j: nat)
    requires j < |remaining|
    requires Distinct(order) && Distinct(remaining)
    requires forall x :: x in nodes <==> x in order || x in remaining
    requires forall x :: x in order ==> x !in remaining
    ensures Distinct(order + [remaining[j]]) && Distinct(remaining[..j] + remaining[j + 1..])
    ensures forall x :: x in nodes <==> x in order + [remaining[j]] || x in remaining[..j] + remaining[j + 1..]
    ensures forall x :: x in order + [remaining[j]] ==> x !in remaining[..j] + remaining[j + 1..]
  {
    var rest := remaining[..j] + remaining[j + 1..];
    assert remaining == remaining[..j] + [remaining[j]] + remaining[j + 1..];
    forall i | 0 <= i < |rest| ensures rest[i] == remaining[if i < j then i else i + 1] {
    }
    forall x | x in rest ensures x in remaining && x != remaining[j] {
      var i :| 0 <= i < |rest| && rest[i] == x;
    }
    var o := order + [remaining[j]];
    forall a, b | 0 <= a < b < |o| ensures o[a] != o[b] {
      if b == |order| {
        assert o[a] in order;
      }
    }
  }

  /** Appending a node without remaining predecessors keeps every edge into
      the placed nodes pointing forward. */
  lemma AppendFree(order: seq<string>, remaining: seq<string>, nodes: seq<string>, edges: seq<Edge>, x: string)
    requires Distinct(order) && x in remaining && x !in order
    requires forall k :: 0 <= k < |edges| ==> edges[k].0 in nodes && edges[k].1 in nodes
    requires forall y :: y in nodes <==> y in order || y in remaining
    requires forall k :: 0 <= k < |edges| && edges[k].1 in order ==>
      edges[k].0 in order && FirstIndex(order, edges[k].0) < FirstIndex(order, edges[k].1)
    requires !HasPredecessorIn(x, remaining, edges)
    ensures forall k :: 0 <= k < |edges| && edges[k].1 in order + [x] ==>
      edges[k].0 in order + [x] && FirstIndex(order + [x], edges[k].0) < FirstIndex(order + [x], edges[k].1)
  {
    var o := order + [x];
    forall y | y in order ensures FirstIndex(o, y) == FirstIndex(order, y) {
      var i := FirstIndex(order, y);
      assert o[i] == y;
    }
    assert FirstIndex(o, x) == |order|;
  }

  /** A non-empty set of nodes each of which has a predecessor inside the
      set admits no order that respects every edge and contains the set. */
  lemma CycleBlocksOrder(blocked: seq<string>, edges: seq<Edge>, order: seq<string>)
    requires |blocked| > 0
    requires forall q :: 0 <= q < |blocked| ==> HasPredecessorIn(blocked[q], blocked, edges)
    ensures !(RespectsEdges(order, edges) && forall x :: x in blocked ==> x in order)
  {
    if forall x :: x in blocked ==> x in order {
      var m := EarliestIn(blocked, order);
      var q :| 0 <= q < |blocked| && blocked[q] == m;
      assert HasPredecessorIn(blocked[q], blocked, edges);
      var k :| 0 <= k < |edges| && edges[k].1 == m && edges[k].0 in blocked;
      assert !(FirstIndex(order, edges[k].0) < FirstIndex(order, edges[k].1));
    }
  }

  /** The element of `xs` that comes first in `order`. */
  lemma {:induction false} EarliestIn(xs: seq<string>, order: seq<string>) returns (m: string)
    requires |xs| > 0 && forall x :: x in xs ==> x in order
    ensures m in xs
    ensures forall x :: x in xs ==> FirstIndex(order, m) <= FirstIndex(order, x)
  {
    if |xs| == 1 {
      m := xs[0];
    } else {
      var rest := EarliestIn(xs[1..], order);
      assert forall x :: x in xs ==> x == xs[0] || x in xs[1..];
      if FirstIndex(order, xs[0]) <= FirstIndex(order, rest) {
        m := xs[0];
      } else {
        m := rest;
      }
    }
  }
}
