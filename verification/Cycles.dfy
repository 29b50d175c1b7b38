/** Cycles among modules: the depth-first search of findModuleCycles (malong/code-index.js). */
module Cycles {
  import opened Common

  datatype Edge = Edge(from: Path, to: Path)

  type Graph = map<Path, seq<Path>>

  /** Adjacency lists whose entries are nodes themselves. */
  ghost predicate Closed(adj: Graph) {
    forall u :: u in adj ==> forall v :: v in adj[u] ==> v in adj
  }

  ghost predicate HasEdge(adj: Graph, u: Path, v: Path) {
    u in adj && v in adj[u]
  }

  /** Every node of the walk but the last has an edge to the next. */
  ghost predicate Walk(adj: Graph, p: seq<Path>) {
    forall i :: 0 <= i < |p| - 1 ==> HasEdge(adj, p[i], p[i+1])
  }

  ghost predicate Distinct(p: seq<Path>) {
    forall i, j :: 0 <= i < j < |p| ==> p[i] != p[j]
  }

  /** A closed walk that meets no inner node twice: what is reported as a cycle. */
  ghost predicate IsCycle(adj: Graph, c: seq<Path>) {
    |c| >= 2 && Walk(adj, c) && c[|c|-1] == c[0] && Distinct(c[..|c|-1])
  }

  /** The graph has a directed cycle at all: a closed walk with at least one edge. */
  ghost predicate Cyclic(adj: Graph) {
    exists c :: ClosedWalk(adj, c)
  }

  ghost predicate ClosedWalk(adj: Graph, c: seq<Path>) {
    |c| >= 2 && Walk(adj, c) && c[|c|-1] == c[0]
  }

  /** Both nodes lie on one of the reported cycles. */
  ghost predicate OnReported(cycles: seq<seq<Path>>, u: Path, v: Path) {
    exists i :: 0 <= i < |cycles| && u in cycles[i] && v in cycles[i]
  }

  /** Every edge from a ranked node leads to one of smaller rank, unless a reported cycle goes through both ends. */
  ghost predicate Ranks(adj: Graph, rank: map<Path, nat>, cycles: seq<seq<Path>>) {
    forall u, v :: u in rank && HasEdge(adj, u, v) ==> Falls(rank, u, v) || OnReported(cycles, u, v)
  }

  ghost predicate Falls(rank: map<Path, nat>, u: Path, v: Path) {
    u in rank && v in rank && rank[v] < rank[u]
  }

  /** A walk on which no edge has both ends on a reported cycle goes down. */
  lemma {:induction false} RankFalls(adj: Graph, rank: map<Path, nat>, cycles: seq<seq<Path>>, c: seq<Path>, k: nat)
    requires Ranks(adj, rank, cycles) && Walk(adj, c) && k < |c| && c[0] in rank
    requires forall i :: 0 <= i < k ==> !OnReported(cycles, c[i], c[i+1])
    ensures c[k] in rank && rank[c[k]] <= rank[c[0]] - k
  {
    if k > 0 {
      RankFalls(adj, rank, cycles, c, k - 1);
      assert HasEdge(adj, c[k-1], c[k-1+1]) && !OnReported(cycles, c[k-1], c[k-1+1]);
    }
  }

  /** In a graph all of whose nodes are ranked every closed walk has an edge both of whose ends lie on one reported
      cycle; so without reports there is none. */
  lemma {:induction false} RankedMeets(adj: Graph, rank: map<Path, nat>, cycles: seq<seq<Path>>, c: seq<Path>)
    requires Ranks(adj, rank, cycles) && adj.Keys <= rank.Keys && ClosedWalk(adj, c)
    ensures Met(cycles, c)
  {
    assert HasEdge(adj, c[0], c[0+1]);
    if forall i :: 0 <= i < |c| - 1 ==> !OnReported(cycles, c[i], c[i+1]) {
      RankFalls(adj, rank, cycles, c, |c| - 1);
    }
  }

  ghost predicate Met(cycles: seq<seq<Path>>, c: seq<Path>) {
    exists i :: 0 <= i < |c| - 1 && OnReported(cycles, c[i], c[i+1])
  }

  /** The trail is a walk along distinct nodes, and the nodes on it are those on the stack. */
  ghost predicate OnTrail(adj: Graph, visited: set<Path>, stack: set<Path>, trail: seq<Path>) {
    && (forall u :: u in stack <==> u in trail)
    && Distinct(trail) && Walk(adj, trail)
    && stack <= visited <= adj.Keys
  }

  /** What was reported is a cycle, and no two reports have the same nodes. */
  ghost predicate Reported(adj: Graph, cycles: seq<seq<Path>>, seen: set<multiset<Path>>) {
    && (forall i :: 0 <= i < |cycles| ==> IsCycle(adj, cycles[i]) && multiset(cycles[i]) in seen)
    && (forall i, j :: 0 <= i < j < |cycles| ==> multiset(cycles[i]) != multiset(cycles[j]))
    && (forall m :: m in seen ==> exists i :: 0 <= i < |cycles| && multiset(cycles[i]) == m)
  }

  /** The finished nodes are ranked by when they were finished. */
  ghost predicate Finished(adj: Graph, done: set<Path>, cycles: seq<seq<Path>>, rank: map<Path, nat>, clock: nat) {
    && rank.Keys == done
    && (forall u :: u in rank ==> rank[u] < clock)
    && Ranks(adj, rank, cycles)
  }

  lemma {:induction false} MoreReports(cycles: seq<seq<Path>>, more: seq<seq<Path>>)
    requires cycles <= more
    ensures forall u, v :: OnReported(cycles, u, v) ==> OnReported(more, u, v)
  {
    forall u, v | OnReported(cycles, u, v) ensures OnReported(more, u, v) {
      var i :| 0 <= i < |cycles| && u in cycles[i] && v in cycles[i];
      assert more[i] == cycles[i];
    }
  }

  lemma {:induction false} Pushed(adj: Graph, visited: set<Path>, stack: set<Path>, trail: seq<Path>, path: Path)
    requires OnTrail(adj, visited, stack, trail) && path in adj && path !in visited
    requires trail != [] ==> HasEdge(adj, trail[|trail|-1], path)
    ensures OnTrail(adj, visited + {path}, stack + {path}, trail + [path])
    ensures (visited + {path}) - (stack + {path}) == visited - stack
  {
    assert path !in trail;
  }

  lemma {:induction false} Popped(adj: Graph, visited: set<Path>, stack: set<Path>, trail: seq<Path>, path: Path)
    requires OnTrail(adj, visited, stack, trail + [path])
    ensures OnTrail(adj, visited, stack - {path}, trail)
    ensures visited - (stack - {path}) == visited - stack + {path} && path !in visited - stack
  {
    var all := trail + [path];
    assert all[|trail|] == path;
    assert forall i :: 0 <= i < |trail| ==> all[i] == trail[i];
    assert path !in trail;
    forall i | 0 <= i < |trail| - 1 ensures HasEdge(adj, trail[i], trail[i+1]) {
      assert HasEdge(adj, all[i], all[i+1]);
    }
    forall u ensures u in stack - {path} <==> u in trail {
      assert u in all <==> u in trail || u == path;
    }
  }

  lemma {:induction false} FinishedOneMore(adj: Graph, done: set<Path>, cycles: seq<seq<Path>>, rank: map<Path, nat>,
                                           clock: nat, path: Path)
    requires Finished(adj, done, cycles, rank, clock) && path !in done
    requires forall v :: HasEdge(adj, path, v) ==> v in rank || OnReported(cycles, path, v)
    ensures Finished(adj, done + {path}, cycles, rank[path := clock], clock + 1)
  {
    var rank' := rank[path := clock];
    forall u, v | u in rank' && HasEdge(adj, u, v) ensures Falls(rank', u, v) || OnReported(cycles, u, v) {
      assert u != path ==> Falls(rank, u, v) || OnReported(cycles, u, v);
    }
  }

  class CycleFinder {
    const adj: Graph
    var visited: set<Path>
    var stack: set<Path>
    var trail: seq<Path>
    var cycles: seq<seq<Path>>
    /** The sorted nodes of the cycles reported so far. */
    var seen: set<multiset<Path>>
    /** When each node was finished. */
    ghost var rank: map<Path, nat>
    ghost var clock: nat

    constructor (graph: Graph)
      ensures adj == graph && visited == stack == {} && trail == [] && cycles == [] && seen == {} && rank == map[]
    {
      adj := graph;
      visited, stack, trail, cycles, seen, rank, clock := {}, {}, [], [], {}, map[], 0;
    }

    ghost predicate Valid()
      reads this
    {
      && Closed(adj)
      && OnTrail(adj, visited, stack, trail)
      && Reported(adj, cycles, seen)
      && Finished(adj, visited - stack, cycles, rank, clock)
    }

    /** An edge from the end of the trail back into it: the part of the trail from there is a cycle. */
    method Report(next: Path)
      requires Valid() && trail != [] && HasEdge(adj, trail[|trail|-1], next) && next in stack
      modifies this`cycles, this`seen
      ensures Valid() && old(cycles) <= cycles && OnReported(cycles, trail[|trail|-1], next)
    {
      var cycle := CycleTo(adj, trail, next);
      cycles, seen := AddReport(adj, cycles, seen, cycle, trail[|trail|-1], next, visited - stack, rank, clock);
    }

    method Dfs(path: Path)
      requires Valid() && path in adj && path !in visited
      requires trail != [] ==> HasEdge(adj, trail[|trail|-1], path)
      modifies this
      decreases adj.Keys - visited, 0
      ensures Valid() && stack == old(stack) && trail == old(trail)
      ensures old(visited) + {path} <= visited && old(cycles) <= cycles
    {
      ghost var before := trail;
      Pushed(adj, visited, stack, trail, path);
      visited := visited + {path};
      stack := stack + {path};
      trail := trail + [path];
      var succ := adj[path];
      for i := 0 to |succ|
        invariant Valid() && stack == old(stack) + {path} && trail == before + [path]
        invariant old(visited) + {path} <= visited && old(cycles) <= cycles
        invariant forall j :: 0 <= j < i ==> succ[j] in rank || OnReported(cycles, path, succ[j])
      {
        VisitNext(path, succ, i, before);
      }
      Leave(path, before);
    }

    /** All successors of the node at the end of the trail have been dealt with. */
    method Leave(path: Path, ghost before: seq<Path>)
      requires Valid() && path in stack && trail == before + [path]
      requires forall v :: HasEdge(adj, path, v) ==> v in rank || OnReported(cycles, path, v)
      modifies this`stack, this`trail, this`rank, this`clock
      ensures Valid() && stack == old(stack) - {path} && trail == before
    {
      Popped(adj, visited, stack, before, path);
      FinishedOneMore(adj, visited - stack, cycles, rank, clock, path);
      stack := stack - {path};
      trail := trail[..|trail|-1];
      rank, clock := rank[path := clock], clock + 1;
    }

    /** One turn of the loop over the successors, the earlier ones having been dealt with. */
    method VisitNext(path: Path, succ: seq<Path>, i: nat, ghost before: seq<Path>)
      requires Valid() && path in stack && trail == before + [path] && i < |succ| && HasEdge(adj, path, succ[i])
      requires forall j :: 0 <= j < i ==> succ[j] in rank || OnReported(cycles, path, succ[j])
      modifies this
      decreases adj.Keys - visited, 2
      ensures Valid() && stack == old(stack) && trail == old(trail)
      ensures old(visited) <= visited && old(cycles) <= cycles
      ensures forall j :: 0 <= j < i + 1 ==> succ[j] in rank || OnReported(cycles, path, succ[j])
    {
      ghost var reports := cycles;
      Visit(path, succ[i], before);
      MoreReports(reports, cycles);
    }

    /** The body of the loop over the successors of a node. */
    method Visit(path: Path, next: Path, ghost before: seq<Path>)
      requires Valid() && path in stack && trail == before + [path] && HasEdge(adj, path, next)
      modifies this
      decreases adj.Keys - visited, 1
      ensures Valid() && stack == old(stack) && trail == old(trail)
      ensures old(visited) <= visited && old(cycles) <= cycles && old(rank.Keys) <= rank.Keys
      ensures next in rank || OnReported(cycles, path, next)
    {
      if next in stack {
        Report(next);
      } else if next !in visited {
        Dfs(next);
      }
    }

    /** The loop over all nodes. */
    method Search(nodes: seq<Path>)
      requires Valid() && visited == stack == {} && trail == [] && cycles == []
      requires forall u :: u in nodes <==> u in adj
      modifies this
      ensures Valid() && forall c :: ClosedWalk(adj, c) ==> Met(cycles, c)
      ensures cycles != [] <==> Cyclic(adj)
    {
      for i := 0 to |nodes|
        invariant Valid() && trail == [] && stack == {}
        invariant forall j :: 0 <= j < i ==> nodes[j] in visited
      {
        if nodes[i] !in visited {
          Dfs(nodes[i]);
        }
      }
      forall c | ClosedWalk(adj, c) ensures Met(cycles, c) {
        RankedMeets(adj, rank, cycles, c);
      }
      if cycles != [] {
        assert IsCycle(adj, cycles[0]) && ClosedWalk(adj, cycles[0]);
      }
    }
  }

  /** A cycle is filed unless one with the same nodes is. */
  lemma {:induction false} Filed(adj: Graph, cycles: seq<seq<Path>>, seen: set<multiset<Path>>, cycle: seq<Path>,
                                 u: Path, v: Path,
                                 done: set<Path>, rank: map<Path, nat>, clock: nat)
    requires Reported(adj, cycles, seen) && Finished(adj, done, cycles, rank, clock)
    requires IsCycle(adj, cycle) && u in cycle && v in cycle
    ensures multiset(cycle) in seen ==> OnReported(cycles, u, v)
    ensures multiset(cycle) !in seen ==>
              && Reported(adj, cycles + [cycle], seen + {multiset(cycle)}) && OnReported(cycles + [cycle], u, v)
              && Finished(adj, done, cycles + [cycle], rank, clock)
  {
    if multiset(cycle) in seen {
      var i :| 0 <= i < |cycles| && multiset(cycles[i]) == multiset(cycle);
      assert u in multiset(cycle) && v in multiset(cycle);
    } else {
      MoreReports(cycles, cycles + [cycle]);
      FiledNew(adj, cycles, seen, cycle);
      assert (cycles + [cycle])[|cycles|] == cycle;
    }
  }

  lemma {:induction false} FiledNew(adj: Graph, cycles: seq<seq<Path>>, seen: set<multiset<Path>>, cycle: seq<Path>)
    requires Reported(adj, cycles, seen) && IsCycle(adj, cycle) && multiset(cycle) !in seen
    ensures Reported(adj, cycles + [cycle], seen + {multiset(cycle)})
  {
    var more := cycles + [cycle];
    assert more[|cycles|] == cycle && forall i :: 0 <= i < |cycles| ==> more[i] == cycles[i];
    forall m | m in seen ensures exists i :: 0 <= i < |more| && multiset(more[i]) == m {
      var i :| 0 <= i < |cycles| && multiset(cycles[i]) == m;
      assert multiset(more[i]) == m;
    }
  }

  /** The reports with one cycle more, unless one with the same nodes is among them. */
  method AddReport(ghost adj: Graph, cycles: seq<seq<Path>>, seen: set<multiset<Path>>, cycle: seq<Path>, ghost u: Path,
                   ghost v: Path, ghost done: set<Path>, ghost rank: map<Path, nat>, ghost clock: nat)
    returns (cycles': seq<seq<Path>>, seen': set<multiset<Path>>)
    requires Reported(adj, cycles, seen) && Finished(adj, done, cycles, rank, clock)
    requires IsCycle(adj, cycle) && u in cycle && v in cycle
    ensures Reported(adj, cycles', seen') && Finished(adj, done, cycles', rank, clock)
    ensures cycles <= cycles' && OnReported(cycles', u, v)
  {
    Filed(adj, cycles, seen, cycle, u, v, done, rank, clock);
    cycles', seen' := cycles, seen;
    if multiset(cycle) !in seen {
      cycles', seen' := cycles + [cycle], seen + {multiset(cycle)};
    }
  }

  /** The trail from a node on it to its end, and back. */
  method CycleTo(ghost adj: Graph, trail: seq<Path>, next: Path) returns (cycle: seq<Path>)
    requires Walk(adj, trail) && Distinct(trail) && next in trail && HasEdge(adj, trail[|trail|-1], next)
    ensures IsCycle(adj, cycle) && next in cycle && trail[|trail|-1] in cycle
  {
    var idx := IndexOf(trail, next);
    TrailClosed(adj, trail, idx, next);
    cycle := trail[idx..] + [next];
  }

  method IndexOf(trail: seq<Path>, p: Path) returns (idx: nat)
    requires p in trail
    ensures idx < |trail| && trail[idx] == p
  {
    idx := 0;
    while trail[idx] != p
      invariant idx < |trail| && p in trail[idx..]
      decreases |trail| - idx
    {
      idx := idx + 1;
    }
  }

  lemma {:induction false} TrailClosed(adj: Graph, trail: seq<Path>, idx: nat, next: Path)
    requires Walk(adj, trail) && Distinct(trail) && idx < |trail| && trail[idx] == next
    requires HasEdge(adj, trail[|trail|-1], next)
    ensures IsCycle(adj, trail[idx..] + [next])
    ensures next in trail[idx..] + [next] && trail[|trail|-1] in trail[idx..] + [next]
  {
    var c := trail[idx..] + [next];
    assert c[|trail|-1-idx] == trail[|trail|-1];
    assert c[..|c|-1] == trail[idx..];
    forall i | 0 <= i < |c| - 1 ensures HasEdge(adj, c[i], c[i+1]) {
      if i < |c| - 2 {
        assert HasEdge(adj, trail[idx+i], trail[idx+i+1]);
      }
    }
  }

  /** The edges between nodes. */
  ghost predicate Links(nodes: seq<Path>, edges: seq<Edge>, n: nat, u: Path, v: Path)
    requires n <= |edges|
  {
    u in nodes && v in nodes && exists i :: 0 <= i < n && edges[i] == Edge(u, v)
  }

  /** findModuleCycles: the cycles reported are cycles of the given edges between the given nodes, no two with
      the same nodes; there is one exactly if those edges contain a cycle, and every closed walk along them has an
      edge both of whose ends lie on one of them. It ends on every input. */
  method FindModuleCycles(nodes: seq<Path>, edges: seq<Edge>) returns (cycles: seq<seq<Path>>, ghost adj: Graph)
    ensures forall u, v :: HasEdge(adj, u, v) <==> Links(nodes, edges, |edges|, u, v)
    ensures forall i :: 0 <= i < |cycles| ==> IsCycle(adj, cycles[i])
    ensures forall i, j :: 0 <= i < j < |cycles| ==> multiset(cycles[i]) != multiset(cycles[j])
    ensures cycles != [] <==> Cyclic(adj)
    ensures forall c :: ClosedWalk(adj, c) ==> Met(cycles, c)
  {
    var graph: Graph := map[];
    for i := 0 to |nodes|
      invariant forall u :: u in graph <==> u in nodes[..i]
      invariant forall u :: u in graph ==> graph[u] == []
    {
      graph := graph[nodes[i] := []];
    }
    assert nodes[..|nodes|] == nodes;
    for n := 0 to |edges|
      invariant forall u :: u in graph <==> u in nodes
      invariant forall u, v :: HasEdge(graph, u, v) <==> Links(nodes, edges, n, u, v)
    {
      var e := edges[n];
      ghost var before := graph;
      if e.from in graph && e.to in graph {
        graph := graph[e.from := graph[e.from] + [e.to]];
      }
      forall u, v ensures HasEdge(graph, u, v) <==> Links(nodes, edges, n + 1, u, v) {
        assert HasEdge(before, u, v) <==> Links(nodes, edges, n, u, v);
        assert HasEdge(graph, u, v) <==> HasEdge(before, u, v) || (u in nodes && v in nodes && e == Edge(u, v));
      }
    }
    adj := graph;
    var finder := new CycleFinder(graph);
    assert forall u :: u in graph ==> forall v :: v in graph[u] ==> HasEdge(graph, u, v);
    finder.Search(nodes);
    cycles := finder.cycles;
  }
}
