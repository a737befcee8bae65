/** The dependency cycle check: a depth-first search over two sets that change as it goes. */
module DependencyGraph {
  import opened Wrappers

  /** Every key with the keys it depends on. */
  type Graph = map<string, seq<string>>

  predicate Closed(g: Graph) {
    forall k | k in g :: forall i | 0 <= i < |g[k]| :: g[k][i] in g
  }

  /** Consecutive keys of a path depend on each other. */
  ghost predicate IsPath(g: Graph, p: seq<string>) {
    && p != []
    && (forall i | 0 <= i < |p| :: p[i] in g)
    && (forall i | 0 <= i < |p| - 1 :: p[i + 1] in g[p[i]])
  }

  ghost predicate IsCycle(g: Graph, p: seq<string>, key: string) {
    IsPath(g, p) && |p| >= 2 && p[0] == key && p[|p| - 1] == key
  }

  ghost predicate OnCycle(g: Graph, key: string) {
    exists p :: IsCycle(g, p, key)
  }

  ghost predicate Acyclic(g: Graph) {
    forall key :: !OnCycle(g, key)
  }

  lemma PathSuffix(g: Graph, p: seq<string>, n: nat)
    requires IsPath(g, p) && n < |p|
    ensures IsPath(g, p[n..])
  {
    forall i | 0 <= i < |p[n..]| - 1
      ensures p[n..][i + 1] in g[p[n..][i]]
    {
      assert p[n + i + 1] in g[p[n + i]];
    }
  }

  // ----- Orders -----

  /** A list of keys in which everything a key depends on comes before it. */
  ghost predicate IsOrder(g: Graph, order: seq<string>) {
    && (forall i, j | 0 <= i < j < |order| :: order[i] != order[j])
    && (forall i | 0 <= i < |order| ::
          order[i] in g && forall d | d in g[order[i]] :: d in order[..i])
  }

  ghost predicate Sorts(g: Graph, order: seq<string>) {
    IsOrder(g, order) && forall k | k in g :: k in order
  }

  /** Along a path, positions in the order strictly descend. */
  lemma {:induction false} PathDescends(g: Graph, order: seq<string>, p: seq<string>, a: nat)
    requires IsOrder(g, order) && IsPath(g, p) && |p| >= 2
    requires a < |order| && order[a] == p[0]
    ensures exists b | 0 <= b < a :: order[b] == p[|p| - 1]
  {
    assert p[1] in g[p[0]];
    assert p[1] in order[..a];
    var b :| 0 <= b < a && order[..a][b] == p[1];
    if |p| > 2 {
      assert IsPath(g, p[1..]) by {
        PathSuffix(g, p, 1);
      }
      PathDescends(g, order, p[1..], b);
      var c :| 0 <= c < b && order[c] == p[1..][|p| - 2];
      assert order[c] == p[|p| - 1];
    } else {
      assert order[b] == p[|p| - 1];
    }
  }

  /** A graph that can be sorted has no cycle. */
  lemma SortedIsAcyclic(g: Graph, order: seq<string>)
    requires Sorts(g, order)
    ensures Acyclic(g)
  {
    forall key
      ensures !OnCycle(g, key)
    {
      if OnCycle(g, key) {
        var p :| IsCycle(g, p, key);
        var a :| 0 <= a < |order| && order[a] == key;
        PathDescends(g, order, p, a);
      }
    }
  }

  // ----- The search -----

  class CycleSearch {
    const graph: Graph
    var visiting: set<string>
    var visited: set<string>
    ghost var order: seq<string>  // the keys in the order they were finished

    constructor (g: Graph)
      requires Closed(g)
      ensures graph == g && visiting == {} && Valid() && fresh(this)
    {
      graph := g;
      visiting, visited, order := {}, {}, [];
    }

    ghost predicate Valid()
      reads this
    {
      && Closed(graph)
      && visiting <= graph.Keys
      && visiting !! visited
      && IsOrder(graph, order)
      && (forall k :: k in visited <==> k in order)
    }

    /** `visit`: None when the key was or is now finished, else a key found being visited. */
    method Visit(key: string, ghost stack: seq<string>) returns (cycle: Option<string>)
      requires Valid() && key in graph
      requires IsPath(graph, stack + [key])
      requires forall k :: k in visiting <==> k in stack
      modifies this
      decreases graph.Keys - visiting
      ensures cycle.Some? ==> OnCycle(graph, cycle.value)
      ensures cycle.None? ==>
        && Valid()
        && visiting == old(visiting)
        && old(visited) <= visited
        && key in visited
    {
      if key in visiting {
        ghost var i :| 0 <= i < |stack| && stack[i] == key;
        CycleFromStack(graph, stack, key, i);
        return Some(key);
      }
      if key in visited {
        return None;
      }
      visiting := visiting + {key};
      hide IsPath, IsOrder;
      for i := 0 to |graph[key]|
        invariant Valid()
        invariant visiting == old(visiting) + {key}
        invariant old(visited) <= visited
        invariant forall j | 0 <= j < i :: graph[key][j] in visited
      {
        PathGrows(graph, stack + [key], graph[key][i]);
        cycle := Visit(graph[key][i], stack + [key]);
        if cycle.Some? {
          return;
        }
      }
      visiting := visiting - {key};
      visited := visited + {key};
      OrderGrows(graph, order, key);
      order := order + [key];
      cycle := None;
    }
  }

  lemma CycleFromStack(g: Graph, stack: seq<string>, key: string, i: nat)
    requires IsPath(g, stack + [key]) && i < |stack| && stack[i] == key
    ensures OnCycle(g, key)
  {
    PathSuffix(g, stack + [key], i);
    assert IsCycle(g, (stack + [key])[i..], key);
  }

  lemma PathGrows(g: Graph, p: seq<string>, key: string)
    requires IsPath(g, p) && key in g && key in g[p[|p| - 1]]
    ensures IsPath(g, p + [key])
  {
  }

  lemma OrderGrows(g: Graph, order: seq<string>, key: string)
    requires IsOrder(g, order) && key in g && key !in order
    requires forall d | d in g[key] :: d in order
    ensures IsOrder(g, order + [key])
  {
    var longer := order + [key];
    forall i | 0 <= i < |longer|
      ensures longer[i] in g && forall d | d in g[longer[i]] :: d in longer[..i]
    {
      assert longer[..i] == order[..i];
    }
  }

  /** `_validate_dependency_dag`: accepts exactly the acyclic graphs, in which case the keys
      can be sorted; a rejection names a key that lies on a cycle. */
  method FindCycle(g: Graph, keys: seq<string>) returns (cycle: Option<string>, ghost order: seq<string>)
    requires Closed(g)
    requires forall k :: k in keys <==> k in g
    ensures cycle.None? <==> Acyclic(g)
    ensures cycle.Some? ==> OnCycle(g, cycle.value)
    ensures cycle.None? ==> Sorts(g, order)
  {
    var search := new CycleSearch(g);
    order := [];
    for i := 0 to |keys|
      invariant search.graph == g && search.Valid() && search.visiting == {}
      invariant forall j | 0 <= j < i :: keys[j] in search.visited
      invariant fresh(search)
    {
      assert IsPath(g, [] + [keys[i]]);
      cycle := search.Visit(keys[i], []);
      if cycle.Some? {
        return;
      }
    }
    order := search.order;
    cycle := None;
    SortedIsAcyclic(g, order);
  }
}
