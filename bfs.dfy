/** `breadth_first_search` of project/our_functions.py: a FIFO search from
    one start node that records, for every hop distance, the set of nodes
    first discovered at that distance. The result is proved to be exactly
    the shortest-path layering defined in module Paths. */
module Bfs {
  import opened Matrices
  import opened Paths

  /** The entries of row v equal to 1. */
  function Neighbors(a: Matrix, v: nat): (r: set<nat>)
    requires IsSquare(a) && v < |a|
    ensures forall w: nat :: w in r <==> w < |a| && a[v][w] == 1
  {
    set w: nat | w < |a| && a[v][w] == 1
  }

  /** Python's `list(s)` of a set: its members, in some order. */
  method ListOf(s: set<nat>) returns (q: seq<nat>)
    ensures forall x :: x in q <==> x in s
    ensures |q| == |s|
  {
    q := [];
    var rest := s;
    while rest != {}
      invariant rest <= s
      invariant forall x :: x in q <==> x in s - rest
      invariant |q| + |rest| == |s|
      decreases rest
    {
      var x :| x in rest;
      q := q + [x];
      rest := rest - {x};
    }
  }

  /** The layer holding `vertex`, found as the search does: scanning every
      layer and keeping the last one that holds it. (Looking a layer up by
      its value finds that same layer, since a layer holding `vertex` is
      unique.) */
  method LayerOf(layers: seq<set<nat>>, vertex: nat) returns (key: nat)
    requires exists d :: 0 <= d < |layers| && vertex in layers[d]
    ensures key < |layers| && vertex in layers[key]
    ensures forall d :: key < d < |layers| ==> vertex !in layers[d]
  {
    key := 0;
    var seen := false;
    for n := 0 to |layers|
      invariant seen <==> exists d :: 0 <= d < n && vertex in layers[d]
      invariant seen ==> key < n && vertex in layers[key]
      invariant forall d :: key < d < n ==> vertex !in layers[d]
    {
      if vertex in layers[n] {
        key := n;
        seen := true;
      }
    }
  }

  /** `m` with every key of `found` mapped to `v`. */
  ghost function Assign(m: map<nat, nat>, found: set<nat>, v: nat): (r: map<nat, nat>)
    ensures r.Keys == m.Keys + found
    ensures forall x :: x in r ==> r[x] == if x in found then v else m[x]
  {
    m + map x | x in found :: v
  }

  /** x occurs in the queue before position i. */
  ghost predicate QueuedAhead(queue: seq<nat>, i: int, x: nat)
  {
    0 <= i <= |queue| && x in queue[..i]
  }

  /** `level` gives the layer of every searched node: the layers are its
      level classes, so no node is in two layers. */
  ghost predicate LevelsState(a: Matrix, start: nat, searched: set<nat>,
                              layers: seq<set<nat>>, level: map<nat, nat>)
  {
    && start < |a|
    && searched == level.Keys
    && start in level && level[start] == 0
    && (forall x :: x in level ==> x < |a| && level[x] < |layers| && x in layers[level[x]])
    && (forall d, x :: 0 <= d < |layers| && x in layers[d] ==> x in level && level[x] == d)
  }

  /** The queue holds every searched node not yet visited, lowest layers
      first. */
  ghost predicate QueueState(visited: set<nat>, searched: set<nat>,
                             layers: seq<set<nat>>, queue: seq<nat>, level: map<nat, nat>)
    requires searched == level.Keys
  {
    && visited <= searched
    // a visited node has created the layer after its own
    && (forall v :: v in visited ==> level[v] + 1 < |layers|)
    && (forall i :: 0 <= i < |queue| ==> queue[i] in searched)
    && (forall x :: x in searched && x !in visited ==> x in queue)
    // FIFO order: an unvisited node of a lower layer is queued ahead
    && (forall i, x {:trigger QueuedAhead(queue, i, x)} ::
          0 <= i < |queue| && x in searched && x !in visited && level[x] < level[queue[i]]
          ==> QueuedAhead(queue, i, x))
    // the unvisited nodes lag at most one layer behind the deepest one
    && (forall y :: y in searched && y !in visited ==> |layers| <= level[y] + 2)
  }

  /** Edges out of visited nodes are fully explored. */
  ghost predicate Explored(a: Matrix, visited: set<nat>, searched: set<nat>, level: map<nat, nat>)
    requires IsSquare(a) && searched == level.Keys && visited <= searched
  {
    forall v, w :: v in visited && v < |a| && 0 <= w < |a| && a[v][w] == 1 ==>
      w in searched && level[w] <= level[v] + 1
  }

  /** Every node other than the start was discovered from the layer before
      its own; `parent` names the discovering node. */
  ghost predicate Discovered(a: Matrix, start: nat, visited: set<nat>, searched: set<nat>,
                             level: map<nat, nat>, parent: map<nat, nat>)
    requires IsSquare(a) && searched == level.Keys && visited <= searched
  {
    forall w :: w in searched && w != start ==>
      w < |a| && w in parent && parent[w] in visited && parent[w] < |a| && a[parent[w]][w] == 1 &&
      level[parent[w]] + 1 == level[w]
  }

  ghost predicate EdgesState(a: Matrix, start: nat, visited: set<nat>, searched: set<nat>,
                             level: map<nat, nat>, parent: map<nat, nat>)
    requires IsSquare(a) && searched == level.Keys && visited <= searched
  {
    Explored(a, visited, searched, level) && Discovered(a, start, visited, searched, level, parent)
  }

  /** What holds of the search between two iterations; `level` and `parent`
      are bookkeeping for the proof only. */
  ghost predicate SearchState(a: Matrix, start: nat, visited: set<nat>, searched: set<nat>,
                              layers: seq<set<nat>>, queue: seq<nat>,
                              level: map<nat, nat>, parent: map<nat, nat>)
    requires IsSquare(a)
  {
    && LevelsState(a, start, searched, layers, level)
    && QueueState(visited, searched, layers, queue, level)
    && EdgesState(a, start, visited, searched, level, parent)
  }

  lemma {:induction false} InitialState(a: Matrix, start: nat)
    requires IsSquare(a) && start < |a|
    ensures SearchState(a, start, {}, {start}, [{start}], [start], map[start := 0], map[])
  {
  }

  /** Popping a node that was already visited keeps the state. */
  lemma {:induction false} SkipStep(visited: set<nat>, searched: set<nat>,
                 layers: seq<set<nat>>, queue: seq<nat>, level: map<nat, nat>)
    requires searched == level.Keys
    requires QueueState(visited, searched, layers, queue, level)
    requires queue != [] && queue[0] in visited
    ensures QueueState(visited, searched, layers, queue[1..], level)
  {
    var q := queue[1..];
    forall i, x | 0 <= i < |q| && x in searched && x !in visited && level[x] < level[q[i]]
      ensures QueuedAhead(q, i, x)
    {
      assert queue[i + 1] == q[i];
      assert QueuedAhead(queue, i + 1, x);
      var j :| 0 <= j < i + 1 && queue[j] == x;
      assert q[j - 1] == x;
    }
    forall x | x in searched && x !in visited
      ensures x in q
    {
      assert x in queue && x != queue[0];
      var j :| 0 <= j < |queue| && queue[j] == x;
      assert q[j - 1] == x;
    }
  }

  /** The visited node is a lowest-layer unvisited node. */
  lemma {:induction false} HeadIsLowest(visited: set<nat>, searched: set<nat>,
                     layers: seq<set<nat>>, queue: seq<nat>, level: map<nat, nat>)
    requires searched == level.Keys
    requires QueueState(visited, searched, layers, queue, level)
    requires queue != [] && queue[0] !in visited
    ensures forall y :: y in searched && y !in visited ==> level[queue[0]] <= level[y]
  {
    forall y | y in searched && y !in visited
      ensures level[queue[0]] <= level[y]
    {
      assert !QueuedAhead(queue, 0, y);
    }
  }

  lemma {:induction false} VisitLevels(a: Matrix, start: nat, searched: set<nat>, layers: seq<set<nat>>,
                    level: map<nat, nat>, key: nat, grown: seq<set<nat>>, found: set<nat>)
    requires LevelsState(a, start, searched, layers, level)
    requires key < |layers|
    requires grown == if key + 1 == |layers| then layers + [{}] else layers
    requires found !! searched && forall x :: x in found ==> x < |a|
    ensures key + 1 < |grown|
    ensures LevelsState(a, start, searched + found, grown[key + 1 := grown[key + 1] + found],
                        Assign(level, found, key + 1))
  {
    var layers' := grown[key + 1 := grown[key + 1] + found];
    var level' := Assign(level, found, key + 1);
    assert level'.Keys == searched + found;
    forall x | x in level'
      ensures x < |a| && level'[x] < |layers'| && x in layers'[level'[x]]
    {
      if x !in found {
        assert level'[x] == level[x];
        assert x in grown[level[x]];
      }
    }
    forall d, x | 0 <= d < |layers'| && x in layers'[d]
      ensures x in level' && level'[x] == d
    {
      if d != key + 1 || x !in found {
        assert x in grown[d];
      }
    }
  }

  lemma {:induction false} VisitQueue(visited: set<nat>, searched: set<nat>, layers: seq<set<nat>>, queue: seq<nat>,
                   level: map<nat, nat>, vertex: nat, key: nat, grown: seq<set<nat>>,
                   found: set<nat>, extension: seq<nat>)
    requires searched == level.Keys
    requires QueueState(visited, searched, layers, queue, level)
    requires queue != [] && vertex == queue[0] && vertex !in visited && key == level[vertex]
    requires key < |layers|
    requires grown == if key + 1 == |layers| then layers + [{}] else layers
    requires forall x :: x in searched ==> level[x] <= key + 1
    requires found !! searched
    requires forall x :: x in extension ==> x in searched + found && x !in visited + {vertex}
    requires forall x :: x in found ==> x in extension
    requires forall x :: x in extension && x in searched ==> level[x] <= key + 1
    ensures QueueState(visited + {vertex}, searched + found, grown[key + 1 := grown[key + 1] + found],
                       queue[1..] + extension, Assign(level, found, key + 1))
  {
    var visited' := visited + {vertex};
    var searched' := searched + found;
    var layers' := grown[key + 1 := grown[key + 1] + found];
    var queue' := queue[1..] + extension;
    var level' := Assign(level, found, key + 1);
    HeadIsLowest(visited, searched, layers, queue, level);
    assert |layers'| == key + 2;
    forall i | 0 <= i < |queue'|
      ensures queue'[i] in searched'
    {
      if i < |queue| - 1 {
        assert queue'[i] == queue[i + 1];
      } else {
        assert queue'[i] in extension;
      }
    }
    forall x | x in searched' && x !in visited'
      ensures x in queue'
    {
      if x in searched {
        assert x in queue && x != queue[0];
        var j :| 0 <= j < |queue| && queue[j] == x;
        assert queue'[j - 1] == x;
      } else {
        var j :| 0 <= j < |extension| && extension[j] == x;
        assert queue'[|queue| - 1 + j] == x;
      }
    }
    forall i, x | 0 <= i < |queue'| && x in searched' && x !in visited' && level'[x] < level'[queue'[i]]
      ensures QueuedAhead(queue', i, x)
    {
      assert queue'[i] in searched';
      assert level'[queue'[i]] <= key + 1;
      assert x in searched;
      if i < |queue| - 1 {
        assert queue'[i] == queue[i + 1];
        assert QueuedAhead(queue, i + 1, x);
        var j :| 0 <= j < i + 1 && queue[j] == x;
        assert queue'[j - 1] == x;
      } else {
        assert x in queue && x != queue[0];
        var j :| 0 <= j < |queue| && queue[j] == x;
        assert queue'[j - 1] == x;
      }
    }
  }

  lemma {:induction false} VisitExplored(a: Matrix, visited: set<nat>, searched: set<nat>,
                      level: map<nat, nat>, vertex: nat, key: nat)
    requires IsSquare(a) && vertex < |a|
    requires searched == level.Keys && visited <= searched
    requires Explored(a, visited, searched, level)
    requires vertex in searched && vertex !in visited && key == level[vertex]
    requires forall x :: x in searched ==> level[x] <= key + 1
    ensures
      var found := Neighbors(a, vertex) - searched;
      Explored(a, visited + {vertex}, searched + found, Assign(level, found, key + 1))
  {
    var found := Neighbors(a, vertex) - searched;
    var level' := Assign(level, found, key + 1);
    forall v, w | v in visited + {vertex} && v < |a| && 0 <= w < |a| && a[v][w] == 1
      ensures w in searched + found && level'[w] <= level'[v] + 1
    {
      assert level'[v] == level[v];
      if v == vertex && w !in searched {
        assert w in found;
      }
    }
  }

  lemma {:induction false} VisitDiscovered(a: Matrix, start: nat, visited: set<nat>, searched: set<nat>,
                        level: map<nat, nat>, parent: map<nat, nat>, vertex: nat, key: nat)
    requires IsSquare(a) && vertex < |a|
    requires searched == level.Keys && visited <= searched
    requires start in searched
    requires Discovered(a, start, visited, searched, level, parent)
    requires vertex in searched && vertex !in visited && key == level[vertex]
    ensures
      var found := Neighbors(a, vertex) - searched;
      Discovered(a, start, visited + {vertex}, searched + found,
                 Assign(level, found, key + 1), Assign(parent, found, vertex))
  {
    var found := Neighbors(a, vertex) - searched;
    var level' := Assign(level, found, key + 1);
    var parent' := Assign(parent, found, vertex);
    forall w | w in searched + found && w != start
      ensures w < |a| && w in parent' && parent'[w] in visited + {vertex} && parent'[w] < |a| &&
              a[parent'[w]][w] == 1 && level'[parent'[w]] + 1 == level'[w]
    {
      if w in found {
        assert parent'[w] == vertex && level'[vertex] == key;
      } else {
        assert parent'[w] == parent[w] && level'[w] == level[w];
        assert parent[w] in searched;
        assert level'[parent[w]] == level[parent[w]];
      }
    }
  }

  /** Visiting the first queued node that was not yet visited keeps the
      state: its undiscovered neighbours join the next layer. */
  lemma {:induction false} VisitStep(a: Matrix, start: nat, visited: set<nat>, searched: set<nat>,
                  layers: seq<set<nat>>, queue: seq<nat>,
                  level: map<nat, nat>, parent: map<nat, nat>,
                  vertex: nat, key: nat, grown: seq<set<nat>>, extension: seq<nat>)
    requires IsSquare(a)
    requires SearchState(a, start, visited, searched, layers, queue, level, parent)
    requires queue != [] && vertex == queue[0] && vertex !in visited
    requires key == level[vertex]
    requires grown == if key + 1 == |layers| then layers + [{}] else layers
    requires forall x :: x in extension <==> x in Neighbors(a, vertex) - (visited + {vertex})
    ensures key + 1 < |grown|
    ensures
      var found := Neighbors(a, vertex) - searched;
      SearchState(a, start, visited + {vertex}, searched + Neighbors(a, vertex),
                  grown[key + 1 := grown[key + 1] + found], queue[1..] + extension,
                  Assign(level, found, key + 1), Assign(parent, found, vertex))
  {
    var found := Neighbors(a, vertex) - searched;
    assert searched + Neighbors(a, vertex) == searched + found;
    HeadIsLowest(visited, searched, layers, queue, level);
    forall x | x in searched
      ensures level[x] <= key + 1
    {
    }
    VisitLevels(a, start, searched, layers, level, key, grown, found);
    VisitQueue(visited, searched, layers, queue, level, vertex, key, grown, found, extension);
    VisitExplored(a, visited, searched, level, vertex, key);
    VisitDiscovered(a, start, visited, searched, level, parent, vertex, key);
  }

  /** Every searched node is reached from the start in its level's number of
      hops, by following the discovering nodes back to the start. */
  lemma {:induction false} LevelReached(a: Matrix, start: nat, visited: set<nat>, searched: set<nat>,
                                        level: map<nat, nat>, parent: map<nat, nat>, w: nat)
    requires IsSquare(a) && searched == level.Keys && visited <= searched
    requires start in level && level[start] == 0
    requires Discovered(a, start, visited, searched, level, parent)
    requires w in searched
    ensures InBall(a, start, w, level[w])
    decreases level[w]
  {
    if w == start {
      assert InBall(a, start, start, 0);
    } else {
      var p := parent[w];
      LevelReached(a, start, visited, searched, level, parent, p);
      BallStep(a, start, p, w, level[p]);
    }
  }

  /** Once every searched node is visited, whatever is within k hops has been
      searched and has a level no deeper than k. */
  lemma {:induction false} BallSearched(a: Matrix, start: nat, searched: set<nat>,
                                        level: map<nat, nat>, parent: map<nat, nat>, w: nat, k: nat)
    requires IsSquare(a) && searched == level.Keys
    requires start in level && level[start] == 0
    requires Explored(a, searched, searched, level)
    requires InBall(a, start, w, k)
    ensures w in searched && level[w] <= k
    decreases k
  {
    if k > 0 {
      if InBall(a, start, w, k - 1) {
        BallSearched(a, start, searched, level, parent, w, k - 1);
      } else {
        var v: nat :| v < |a| && InBall(a, start, v, k - 1) && a[v][w] == 1;
        BallSearched(a, start, searched, level, parent, v, k - 1);
      }
    }
  }

  /** With the queue empty, every searched node has been visited. */
  lemma {:induction false} AllVisited(a: Matrix, start: nat, visited: set<nat>, searched: set<nat>,
                   layers: seq<set<nat>>, level: map<nat, nat>, parent: map<nat, nat>)
    requires IsSquare(a)
    requires SearchState(a, start, visited, searched, layers, [], level, parent)
    ensures visited == searched
    ensures LevelsState(a, start, searched, layers, level)
    ensures EdgesState(a, start, searched, searched, level, parent)
    ensures forall x :: x in searched ==> level[x] + 1 < |layers|
    ensures |layers| >= 2 && layers[|layers| - 1] == {}
  {
    assert visited == searched;
    assert level[start] + 1 < |layers|;
    var last := layers[|layers| - 1];
    forall x: nat
      ensures x !in last
    {
      assert x in last ==> x in visited;
    }
  }

  /** Once every searched node is visited, a node's level is its distance. */
  lemma {:induction false} LevelIsDistance(a: Matrix, start: nat, searched: set<nat>,
                        level: map<nat, nat>, parent: map<nat, nat>, w: nat)
    requires IsSquare(a) && searched == level.Keys
    requires start in level && level[start] == 0
    requires Explored(a, searched, searched, level)
    requires Discovered(a, start, searched, searched, level, parent)
    requires w in searched
    ensures AtDistance(a, start, w, level[w])
  {
    LevelReached(a, start, searched, searched, level, parent, w);
    if level[w] > 0 {
      NoShorterPath(a, start, searched, level, parent, w);
    }
  }

  lemma {:induction false} NoShorterPath(a: Matrix, start: nat, searched: set<nat>,
                      level: map<nat, nat>, parent: map<nat, nat>, w: nat)
    requires IsSquare(a) && searched == level.Keys
    requires start in level && level[start] == 0
    requires Explored(a, searched, searched, level)
    requires w in searched && level[w] > 0
    ensures !InBall(a, start, w, level[w] - 1)
  {
    if InBall(a, start, w, level[w] - 1) {
      BallSearched(a, start, searched, level, parent, w, level[w] - 1);
    }
  }

  /** Layer d of the final state holds exactly the nodes at distance d. */
  lemma {:induction false} FinalLayer(a: Matrix, start: nat, searched: set<nat>,
                   layers: seq<set<nat>>, level: map<nat, nat>, parent: map<nat, nat>, d: nat, w: nat)
    requires IsSquare(a) && searched == level.Keys
    requires start in level && level[start] == 0
    requires Explored(a, searched, searched, level)
    requires Discovered(a, start, searched, searched, level, parent)
    requires d < |layers|
    requires w in layers[d] ==> w in level && level[w] == d
    requires w in level ==> level[w] < |layers| && w in layers[level[w]]
    ensures w in layers[d] <==> AtDistance(a, start, w, d)
  {
    if w in layers[d] {
      LevelIsDistance(a, start, searched, level, parent, w);
    }
    if AtDistance(a, start, w, d) {
      BallSearched(a, start, searched, level, parent, w, d);
      LevelIsDistance(a, start, searched, level, parent, w);
      DistanceUnique(a, start, w, level[w], d);
    }
  }

  /** The union of the final layers is the set of reachable nodes. */
  lemma {:induction false} FinalUnion(a: Matrix, start: nat, searched: set<nat>,
                   layers: seq<set<nat>>, level: map<nat, nat>, parent: map<nat, nat>, w: nat)
    requires IsSquare(a)
    requires LevelsState(a, start, searched, layers, level)
    requires EdgesState(a, start, searched, searched, level, parent)
    ensures w in Union(layers) <==> Reachable(a, start, w)
  {
    UnionMember(layers, w);
    if w in Union(layers) {
      var d :| 0 <= d < |layers| && w in layers[d];
      LevelReached(a, start, searched, searched, level, parent, w);
    }
    if Reachable(a, start, w) {
      var k: nat :| InBall(a, start, w, k);
      BallSearched(a, start, searched, level, parent, w, k);
      assert w in layers[level[w]];
    }
  }

  /** The final state describes the shortest-path layering. */
  lemma {:induction false} FinalLayers(a: Matrix, start: nat, visited: set<nat>, searched: set<nat>,
                    layers: seq<set<nat>>, level: map<nat, nat>, parent: map<nat, nat>)
    requires IsSquare(a)
    requires SearchState(a, start, visited, searched, layers, [], level, parent)
    ensures |layers| >= 2
    ensures layers[0] == {start}
    ensures layers[|layers| - 1] == {}
    ensures forall d, w :: 0 <= d < |layers| ==> (w in layers[d] <==> AtDistance(a, start, w, d))
    ensures forall w :: w in Union(layers) <==> Reachable(a, start, w)
  {
    AllVisited(a, start, visited, searched, layers, level, parent);
    FinalLayersExact(a, start, searched, layers, level, parent);
    FinalUnionReachable(a, start, searched, layers, level, parent);
    forall x | x in layers[0]
      ensures x == start
    {
      assert level[x] == 0;
    }
  }

  lemma {:induction false} FinalLayersExact(a: Matrix, start: nat, searched: set<nat>,
                         layers: seq<set<nat>>, level: map<nat, nat>, parent: map<nat, nat>)
    requires IsSquare(a)
    requires LevelsState(a, start, searched, layers, level)
    requires EdgesState(a, start, searched, searched, level, parent)
    ensures forall d, w :: 0 <= d < |layers| ==> (w in layers[d] <==> AtDistance(a, start, w, d))
  {
    forall d, w | 0 <= d < |layers|
      ensures w in layers[d] <==> AtDistance(a, start, w, d)
    {
      assert w in layers[d] ==> w in level && level[w] == d;
      assert w in level ==> level[w] < |layers| && w in layers[level[w]];
      FinalLayer(a, start, searched, layers, level, parent, d, w);
    }
  }

  lemma {:induction false} FinalUnionReachable(a: Matrix, start: nat, searched: set<nat>,
                            layers: seq<set<nat>>, level: map<nat, nat>, parent: map<nat, nat>)
    requires IsSquare(a)
    requires LevelsState(a, start, searched, layers, level)
    requires EdgesState(a, start, searched, searched, level, parent)
    ensures forall w :: w in Union(layers) <==> Reachable(a, start, w)
  {
    forall w
      ensures w in Union(layers) <==> Reachable(a, start, w)
    {
      FinalUnion(a, start, searched, layers, level, parent, w);
    }
  }

  /** The layers of a breadth-first search from `start`: layer d holds exactly
      the nodes whose shortest path from `start` has d hops (so the layers
      are disjoint and layer 0 is `{start}`), together the layers hold exactly
      the nodes reachable from `start`, and a trailing empty layer is always
      present. */
  method BreadthFirstSearch(a: Matrix, start: nat) returns (layers: seq<set<nat>>)
    requires IsSquare(a) && start < |a|
    ensures |layers| >= 2
    ensures layers[0] == {start}
    ensures layers[|layers| - 1] == {}
    ensures forall d, w :: 0 <= d < |layers| ==> (w in layers[d] <==> AtDistance(a, start, w, d))
    ensures forall w :: w in Union(layers) <==> Reachable(a, start, w)
  {
    var visited: set<nat> := {};
    layers := [{start}];
    var searched: set<nat> := {start};
    var queue: seq<nat> := [start];
    ghost var level: map<nat, nat> := map[start := 0];
    ghost var parent: map<nat, nat> := map[];
    InitialState(a, start);
    while queue != []
      invariant SearchState(a, start, visited, searched, layers, queue, level, parent)
      decreases RangeSet(|a|) - visited, |queue|
    {
      var vertex := queue[0];
      if vertex in visited {
        SkipStep(visited, searched, layers, queue, level);
        queue := queue[1..];
      } else {
        visited, searched, layers, queue, level, parent :=
          Visit(a, start, visited, searched, layers, queue, level, parent);
      }
    }
    FinalLayers(a, start, visited, searched, layers, level, parent);
  }

  /** One visit: the first queued node is marked visited, its undiscovered
      neighbours join the layer after its own, and its unvisited neighbours
      are queued. */
  method Visit(a: Matrix, start: nat, visited: set<nat>, searched: set<nat>,
               layers: seq<set<nat>>, queue: seq<nat>,
               ghost level: map<nat, nat>, ghost parent: map<nat, nat>)
    returns (visited': set<nat>, searched': set<nat>, layers': seq<set<nat>>, queue': seq<nat>,
             ghost level': map<nat, nat>, ghost parent': map<nat, nat>)
    requires IsSquare(a)
    requires SearchState(a, start, visited, searched, layers, queue, level, parent)
    requires queue != [] && queue[0] !in visited
    ensures SearchState(a, start, visited', searched', layers', queue', level', parent')
    ensures queue[0] < |a| && visited' == visited + {queue[0]}
  {
    var vertex := queue[0];
    var neighbors := Neighbors(a, vertex);
    // the layer that holds the vertex, found by scanning every layer
    assert vertex in layers[level[vertex]];
    var key := LayerOf(layers, vertex);
    var grown := if key + 1 == |layers| then layers + [{}] else layers;
    var extension := ListOf(neighbors - (visited + {vertex}));
    VisitStep(a, start, visited, searched, layers, queue, level, parent, vertex, key, grown, extension);
    ghost var found := neighbors - searched;
    level' := Assign(level, found, key + 1);
    parent' := Assign(parent, found, vertex);
    visited' := visited + {vertex};
    layers' := grown[key + 1 := grown[key + 1] + (neighbors - searched)];
    searched' := searched + neighbors;
    queue' := queue[1..] + extension;
  }
}
