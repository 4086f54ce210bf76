/**
  Graphs as the scripts build them with graphviz. A `Digraph` object records
  the node and edge statements it is given, in order; what the renderer
  draws from it is a set of node names (a repeated node statement draws the
  same node) and the sequence of edges (a repeated edge is drawn again).
 */
module Graphs {

  /** (parent, child): the parent includes, or depends on, the child. */
  type Edge = (string, string)

  /** The content of a finished graph, as it is handed to the renderer. */
  datatype Graph = Graph(nodes: set<string>, edges: seq<Edge>)

  /** The set of names a list of node statements declares. */
  function NodeSet(stmts: seq<string>): (r: set<string>)
    ensures forall n :: n in r <==> n in stmts
  {
    set n | n in stmts
  }

  /** The nodes of two statement lists together. */
  lemma NodeSetAppend(a: seq<string>, b: seq<string>)
    ensures NodeSet(a + b) == NodeSet(a) + NodeSet(b)
  {
    assert forall n :: n in a + b <==> n in a || n in b;
  }

  /** Concatenation regroups freely; used where a statement list is extended. */
  lemma Regroup<T>(x: seq<T>, y: seq<T>, z: seq<T>)
    ensures x + (y + z) == (x + y) + z
  {
  }

  /** A graphviz `Digraph` object, updated in place by `node()` and `edge()`. */
  class Digraph {
    /** The node statements issued so far. */
    var nodeStmts: seq<string>
    var edges: seq<Edge>

    constructor ()
      ensures nodeStmts == [] && edges == []
    {
      nodeStmts, edges := [], [];
    }

    /** `g.node(name)`. */
    method AddNode(name: string)
      modifies this
      ensures nodeStmts == old(nodeStmts) + [name] && edges == old(edges)
    {
      nodeStmts := nodeStmts + [name];
    }

    /** `g.edge(tail, head)`. */
    method AddEdge(tail: string, head: string)
      modifies this
      ensures edges == old(edges) + [(tail, head)] && nodeStmts == old(nodeStmts)
    {
      edges := edges + [(tail, head)];
    }

    /** What the renderer would draw from this object now. */
    function Snapshot(): (g: Graph)
      reads this
      ensures forall n :: n in g.nodes <==> n in nodeStmts
      ensures g.edges == edges
    {
      Graph(NodeSet(nodeStmts), edges)
    }
  }
}
