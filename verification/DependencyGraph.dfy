/** The `depends_on` graph of a mortar file: paths, cycles and start orders.

    A graph maps each declared service to the names it depends on. A name on the
    right-hand side need not be a key: such a name simply has no outgoing edges. */
module DependencyGraph {
  import opened Sequences

  type Graph = map<string, seq<string>>

  /** Every name the graph mentions, declared or not. */
  function Names(g: Graph): set<string> {
    g.Keys + set u, v | u in g && v in g[u] :: v
  }

  ghost predicate Edge(g: Graph, u: string, v: string) {
    u in g && v in g[u]
  }

  ghost predicate IsPath(g: Graph, p: seq<string>) {
    forall i :: 0 <= i < |p| - 1 ==> Edge(g, p[i], p[i + 1])
  }

  /** A closed walk along at least one edge; a self-dependency is the shortest one. */
  ghost predicate IsCycle(g: Graph, p: seq<string>) {
    |p| >= 2 && IsPath(g, p) && p[0] == p[|p| - 1]
  }

  ghost predicate HasCycle(g: Graph) {
    exists p :: IsCycle(g, p)
  }

  /** Each name comes after everything it depends on. */
  ghost predicate DependenciesFirst(g: Graph, order: seq<string>) {
    forall i, v :: 0 <= i < |order| && Edge(g, order[i], v) ==> v in order[..i]
  }

  /** A start order lists every name exactly once, each after all of its dependencies. */
  ghost predicate StartOrder(g: Graph, order: seq<string>) {
    Distinct(order) && DependenciesFirst(g, order) && Elements(order) == Names(g)
  }

  /** A name may be appended once everything it depends on is listed. */
  lemma AppendDependent(g: Graph, order: seq<string>, node: string)
    requires DependenciesFirst(g, order)
    requires forall v :: Edge(g, node, v) ==> v in order
    ensures DependenciesFirst(g, order + [node])
  {
    var longer := order + [node];
    forall i, v | 0 <= i < |longer| && Edge(g, longer[i], v)
      ensures v in longer[..i]
    {
      assert longer[..i] == order[..i];
      if i == |order| {
        assert order[..i] == order;
      } else {
        assert Edge(g, order[i], v);
      }
    }
  }

  /** Walking along a cycle from an ordered vertex would descend through the order forever. */
  lemma {:induction false} CycleDescends(g: Graph, order: seq<string>, p: seq<string>, k: nat, i: nat)
    requires DependenciesFirst(g, order)
    requires IsCycle(g, p)
    requires k < |p| - 1 && i < |order| && p[k] == order[i]
    ensures false
    decreases i
  {
    var next := p[k + 1];
    assert Edge(g, order[i], next);
    var j :| 0 <= j < i && order[j] == next;
    CycleDescends(g, order, p, if k + 1 == |p| - 1 then 0 else k + 1, j);
  }

  /** A dependencies-first listing of all declared services rules out every cycle. */
  lemma OrderRefutesCycles(g: Graph, order: seq<string>)
    requires DependenciesFirst(g, order)
    requires forall u :: u in g ==> u in order
    ensures !HasCycle(g)
  {
    if p :| IsCycle(g, p) {
      assert Edge(g, p[0], p[1]);
      var i :| 0 <= i < |order| && order[i] == p[0];
      CycleDescends(g, order, p, 0, i);
    }
  }
}
