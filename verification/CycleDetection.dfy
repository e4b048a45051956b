/** Depth-first search for circular service dependencies. */
module CycleDetection {
  import opened DependencyGraph
  import opened Sequences
  import opened Wrappers

  /** The error text names an edge `u -> v` that closes a cycle: some path leads
      from `v` back to `u`. */
  ghost predicate ReportsCycle(g: Graph, text: string) {
    exists p :: IsCycle(g, p) && text == p[|p| - 2] + " -> " + p[|p| - 1]
  }

  /** The bookkeeping of a search along `path`: `recStack` is exactly the current path,
      and everything else that was visited has finished, dependencies first. */
  ghost predicate SearchState(g: Graph, path: seq<string>,
                              visited: set<string>, recStack: set<string>, finished: seq<string>)
  {
    && IsPath(g, path)
    && recStack == Elements(path)
    && visited == recStack + Elements(finished)
    && visited <= Names(g)
    && recStack !! Elements(finished)
    && DependenciesFirst(g, finished)
    && Distinct(finished)
  }

  lemma EnterNode(g: Graph, path: seq<string>, visited: set<string>, recStack: set<string>,
                  finished: seq<string>, node: string)
    requires SearchState(g, path, visited, recStack, finished)
    requires node in Names(g) && node !in visited
    requires path != [] ==> Edge(g, path[|path| - 1], node)
    ensures SearchState(g, path + [node], visited + {node}, recStack + {node}, finished)
  {
  }

  lemma LeaveNode(g: Graph, path: seq<string>, visited: set<string>, recStack: set<string>,
                  finished: seq<string>, node: string)
    requires SearchState(g, path + [node], visited, recStack, finished)
    requires node !in path
    requires forall v :: Edge(g, node, v) ==> v in finished
    ensures SearchState(g, path, visited, recStack - {node}, finished + [node])
  {
    AppendDependent(g, finished, node);
    assert Elements(path + [node]) == Elements(path) + {node};
    assert Elements(finished + [node]) == Elements(finished) + {node};
    var longer := path + [node];
    forall i | 0 <= i < |path| - 1
      ensures Edge(g, path[i], path[i + 1])
    {
      assert Edge(g, longer[i], longer[i + 1]);
    }
  }

  /** An edge from the end of the path back into it closes a cycle. */
  lemma BackEdge(g: Graph, path: seq<string>, neighbor: string)
    requires IsPath(g, path) && path != [] && neighbor in path
    requires Edge(g, path[|path| - 1], neighbor)
    ensures ReportsCycle(g, path[|path| - 1] + " -> " + neighbor)
  {
    var k :| 0 <= k < |path| && path[k] == neighbor;
    var p := path[k..] + [neighbor];
    forall i | 0 <= i < |p| - 1
      ensures Edge(g, p[i], p[i + 1])
    {
      assert p[i] == path[k + i];
    }
    assert IsCycle(g, p);
    assert p[|p| - 2] == path[|path| - 1];
  }

  /** The two mutable sets shared by all recursive calls of one search. */
  class CycleDetector {
    const graph: Graph
    var visited: set<string>
    var recStack: set<string>
    /** The names whose exploration has finished, in the order in which it finished. */
    ghost var finished: seq<string>

    ghost predicate Valid(path: seq<string>)
      reads this
    {
      SearchState(graph, path, visited, recStack, finished)
    }

    constructor (g: Graph)
      ensures graph == g && Valid([]) && visited == {} && finished == []
    {
      graph, visited, recStack, finished := g, {}, {}, [];
    }

    method DfsDetectCycle(node: string, ghost path: seq<string>) returns (cycle: Option<string>)
      requires Valid(path)
      requires node in Names(graph) && node !in visited
      requires path != [] ==> Edge(graph, path[|path| - 1], node)
      modifies this
      ensures cycle.Some? ==> ReportsCycle(graph, cycle.value)
      ensures cycle.None? ==> Valid(path) && recStack == old(recStack)
      ensures cycle.None? ==> old(finished) <= finished && node in finished
      decreases Names(graph) - visited
    {
      ghost var here := path + [node];
      EnterNode(graph, path, visited, recStack, finished, node);
      visited := visited + {node};
      recStack := recStack + {node};

      if node in graph {
        var neighbors := graph[node];
        for i := 0 to |neighbors|
          invariant Valid(here) && recStack == old(recStack) + {node}
          invariant old(visited) + {node} <= visited
          invariant old(finished) <= finished
          invariant forall j :: 0 <= j < i ==> neighbors[j] in finished
        {
          var neighbor := neighbors[i];
          assert Edge(graph, node, neighbor);
          if neighbor !in visited {
            cycle := DfsDetectCycle(neighbor, here);
            if cycle.Some? {
              return;
            }
          } else if neighbor in recStack {
            BackEdge(graph, here, neighbor);
            return Some(node + " -> " + neighbor);
          }
        }
      }

      LeaveNode(graph, path, visited, recStack, finished, node);
      recStack := recStack - {node};
      finished := finished + [node];
      return None;
    }
  }

  /** Builds the adjacency map from the declared dependencies and searches from every
      service that is still unvisited. Services are taken in an arbitrary order, as a
      hash map yields them. */
  method CheckCircularDependencies(dependsOn: map<string, Option<seq<string>>>)
      returns (r: Result<(), string>)
    ensures r.Err? <==> HasCycle(Adjacency(dependsOn))
    ensures r.Err? ==> ReportsCycle(Adjacency(dependsOn), r.error)
    ensures r.Ok? ==> exists order :: StartOrder(Adjacency(dependsOn), order)
  {
    var graph := Adjacency(dependsOn);
    var search := new CycleDetector(graph);
    var remaining := graph.Keys;
    while remaining != {}
      invariant remaining <= graph.Keys
      invariant search.graph == graph && fresh(search) && search.Valid([])
      invariant forall u :: u in graph && u !in remaining ==> u in search.visited
      decreases remaining
    {
      var node :| node in remaining;
      remaining := remaining - {node};
      if node !in search.visited {
        var cycle := search.DfsDetectCycle(node, []);
        if cycle.Some? {
          return Err(cycle.value);
        }
      }
    }
    ghost var order := search.finished;
    OrderRefutesCycles(graph, order);
    assert forall u, v :: Edge(graph, u, v) ==> v in order;
    assert StartOrder(graph, order);
    return Ok(());
  }

  function Adjacency(dependsOn: map<string, Option<seq<string>>>): (g: Graph)
    ensures g.Keys == dependsOn.Keys
    ensures forall u, v :: Edge(g, u, v) <==> u in dependsOn && dependsOn[u].Some? && v in dependsOn[u].value
  {
    map u | u in dependsOn :: if dependsOn[u].Some? then dependsOn[u].value else []
  }
}
