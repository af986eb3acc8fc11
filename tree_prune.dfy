/**
 * `removeNodeAndChildren`: a node and everything below it leave the tree,
 * one node at a time, in the order the topological sort of the subtree
 * lists them (each node after all of its children). The facts here are
 * about graph values: what the store looks like after some of the nodes
 * below the removed one are gone, and why every intermediate store is still
 * a tree.
 */
module TreePrune {
  import opened GraphErrors
  import opened ElementIDs
  import opened EdgeSets
  import opened GraphModel
  import opened Paths
  import opened TreeShapes
  import opened TopoSort

  /** `he` holds exactly the edges of `ge` with neither end in `R`, unchanged. */
  ghost predicate EdgesRestricted<ED>(ge: map<EdgeID, Edge<ED>>, he: map<EdgeID, Edge<ED>>, R: set<NodeID>) {
    && (forall x | x in ge :: x in he <==> ge[x].tail !in R && ge[x].head !in R)
    && (forall x | x in he :: x in ge && he[x] == ge[x])
  }

  /** `hn` holds the nodes of `gn` outside `R`, with their data. */
  ghost predicate NodesRestricted<ND>(gn: map<NodeID, Node<ND>>, hn: map<NodeID, Node<ND>>, R: set<NodeID>) {
    && hn.Keys == gn.Keys - R
    && (forall m | m in hn :: hn[m].data == gn[m].data)
  }

  /** Every out-list of `hn` is the one in `gn` with the edges missing from `he` filtered out, order kept. */
  ghost predicate OutsFiltered<ND, ED>(gn: map<NodeID, Node<ND>>, hn: map<NodeID, Node<ND>>, he: map<EdgeID, Edge<ED>>) {
    forall m | m in hn :: m in gn && hn[m].outEdges == Keep(gn[m].outEdges, x => x in he)
  }

  /**
   * `h` is the store `g` with the nodes of `R` and every edge touching them
   * removed: same kind of graph, the other nodes with their data, the
   * other edges unchanged, each out-list keeping its surviving edges in
   * order. In a valid store this fixes `h` completely, since in-lists are
   * sorted.
   */
  ghost predicate PrunedTo<ND, ED>(g: GraphState<ND, ED>, h: GraphState<ND, ED>, R: set<NodeID>) {
    && h.Valid() && h.isOrdered == g.isOrdered
    && NodesRestricted(g.nodes, h.nodes, R)
    && EdgesRestricted(g.edges, h.edges, R)
    && OutsFiltered(g.nodes, h.nodes, h.edges)
  }

  /** Nothing removed yet. */
  lemma PruneStart<ND, ED>(g: GraphState<ND, ED>)
    requires g.Valid()
    ensures PrunedTo(g, g, {})
  {
    forall m | m in g.nodes ensures g.nodes[m].outEdges == Keep(g.nodes[m].outEdges, x => x in g.edges) {
      var out := g.nodes[m].outEdges;
      assert g.NodeValid(m);
      forall x | x in out ensures x in g.edges {
        assert x in Elements(out);
      }
      KeepAll(out, x => x in g.edges);
    }
  }

  lemma EdgesNext<ED>(ge: map<EdgeID, Edge<ED>>, he: map<EdgeID, Edge<ED>>, he2: map<EdgeID, Edge<ED>>, R: set<NodeID>, v: NodeID)
    requires EdgesRestricted(ge, he, R)
    requires he2 == map x | x in he && he[x].tail != v && he[x].head != v :: he[x]
    ensures EdgesRestricted(ge, he2, R + {v})
  {
  }

  lemma NodesNext<ND>(gn: map<NodeID, Node<ND>>, hn: map<NodeID, Node<ND>>, hn2: map<NodeID, Node<ND>>, R: set<NodeID>, v: NodeID)
    requires NodesRestricted(gn, hn, R)
    requires hn2.Keys == hn.Keys - {v} && forall m | m in hn2 :: hn2[m].data == hn[m].data
    ensures NodesRestricted(gn, hn2, R + {v})
  {
  }

  lemma OutsNext<ND, ED>(gn: map<NodeID, Node<ND>>, hn: map<NodeID, Node<ND>>, hn2: map<NodeID, Node<ND>>,
                         he: map<EdgeID, Edge<ED>>, he2: map<EdgeID, Edge<ED>>)
    requires OutsFiltered(gn, hn, he) && hn2.Keys <= hn.Keys && he2.Keys <= he.Keys
    requires forall m | m in hn2 :: hn2[m].outEdges == Keep(hn[m].outEdges, x => x in he2)
    ensures OutsFiltered(gn, hn2, he2)
  {
    forall m | m in hn2 ensures m in gn && hn2[m].outEdges == Keep(gn[m].outEdges, x => x in he2) {
      KeepKeep(gn[m].outEdges, x => x in he, x => x in he2, x => x in he2);
    }
  }

  /** Removing one more node keeps the description: `R` grows by that node. */
  lemma PruneStep<ND, ED>(g: GraphState<ND, ED>, h: GraphState<ND, ED>, R: set<NodeID>, v: NodeID)
    requires PrunedTo(g, h, R) && v in h.nodes
    ensures h.RemoveNode(v).Ok? && PrunedTo(g, h.RemoveNode(v).value, R + {v})
  {
    var h2 := h.RemoveNode(v).value;
    EdgesNext(g.edges, h.edges, h2.edges, R, v);
    NodesNext(g.nodes, h.nodes, h2.nodes, R, v);
    OutsNext(g.nodes, h.nodes, h2.nodes, h.edges, h2.edges);
  }

  /**
   * A node the sort lists at position `j`, once every node listed before it
   * is removed, has no out-edge left: the heads of its edges were listed
   * earlier.
   */
  lemma PrunedLeaf<ND, ED>(g: GraphState<ND, ED>, h: GraphState<ND, ED>, s: seq<NodeID>, j: nat)
    requires j < |s| && HeadsFirst(g, s) && EdgesRestricted(g.edges, h.edges, Elements(s[..j]))
    ensures forall x | x in h.edges :: h.edges[x].tail != s[j]
  {
  }

  /** A list without repetitions does not hold its `j`-th member earlier. */
  lemma DistinctNext(s: seq<NodeID>, j: nat)
    requires Distinct(s) && j < |s|
    ensures s[j] !in Elements(s[..j])
  {
  }

  /** Nothing below a node other than the root reaches the root. */
  lemma RootAbove<ND, ED>(g: GraphState<ND, ED>, root: NodeID, n: NodeID)
    requires TreeShaped(g, root) && n != root
    ensures root !in ReachableFrom(g, {n})
  {
    if root in ReachableFrom(g, {n}) {
      var p :| IsPath(g, {}, p, n, root);
      NoEntryPath(g, {}, p, n, root);
    }
  }

  /**
   * One step of `removeNodeAndChildren` on a tree: the `j`-th node of the
   * sorted subtree is in the store, is not the root, and removing it leaves
   * a tree with the same root.
   */
  lemma PruneTreeStep<ND, ED>(g: GraphState<ND, ED>, h: GraphState<ND, ED>, root: NodeID, n: NodeID, s: seq<NodeID>, j: nat)
    requires g.Valid() && n != root && j < |s| && Distinct(s) && HeadsFirst(g, s)
    requires Elements(s) == ReachableFrom(g, {n}) && TreeShaped(g, root)
    requires PrunedTo(g, h, Elements(s[..j])) && TreeShaped(h, root)
    ensures s[j] in h.nodes && h.RemoveNode(s[j]).Ok?
    ensures PrunedTo(g, h.RemoveNode(s[j]).value, Elements(s[..j + 1]))
    ensures TreeShaped(h.RemoveNode(s[j]).value, root)
  {
    var v := s[j];
    assert v in Elements(s);
    DistinctNext(s, j);
    RootAbove(g, root, n);
    PrunedLeaf(g, h, s, j);
    TreeRemoveLeaf(h, root, v);
    PruneStep(g, h, Elements(s[..j]), v);
    ElementsPrefix(s, j);
  }
}
