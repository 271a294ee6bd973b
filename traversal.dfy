/**
 * Breadth-first and depth-first search over a graph given by its neighbour
 * lists (lib/algorithms.py). The neighbour function of the source becomes a
 * finite map from a node to the sequence of its neighbours; a node the map
 * does not list has no neighbours.
 */
module Traversal {

  function Neighbours<T(!new)>(g: map<T, seq<T>>, v: T): seq<T>
  {
    if v in g then g[v] else []
  }

  /** Every node a search from start can meet: start and every listed neighbour. */
  ghost function Nodes<T(!new)>(g: map<T, seq<T>>, start: T): set<T>
  {
    {start} + set v, w | v in g && w in g[v] :: w
  }

  predicate Distinct<T(==, !new)>(s: seq<T>)
  {
    forall i, j :: 0 <= i < j < |s| ==> s[i] != s[j]
  }

  /** p is a non-empty walk along neighbour links. */
  ghost predicate IsPath<T(!new)>(g: map<T, seq<T>>, p: seq<T>)
  {
    |p| > 0 && forall i :: 0 <= i < |p| - 1 ==> p[i + 1] in Neighbours(g, p[i])
  }

  ghost predicate Reachable<T(!new)>(g: map<T, seq<T>>, s: T, t: T)
  {
    exists p :: IsPath(g, p) && p[0] == s && p[|p| - 1] == t
  }

  /** No neighbour link leaves the set. */
  ghost predicate Closed<T(!new)>(g: map<T, seq<T>>, nodes: set<T>)
  {
    forall v, w :: v in nodes && w in Neighbours(g, v) ==> w in nodes
  }

  ghost predicate Symmetric<T(!new)>(g: map<T, seq<T>>)
  {
    forall v, w :: w in Neighbours(g, v) ==> v in Neighbours(g, w)
  }

  /**
   * What both searches promise: the result starts at start, visits no node
   * twice, is closed under neighbours and holds only nodes reachable from start.
   */
  ghost predicate IsTraversal<T(!new)>(g: map<T, seq<T>>, start: T, r: seq<T>)
  {
    && |r| > 0 && r[0] == start
    && Distinct(r)
    && (forall v, w :: v in r && w in Neighbours(g, v) ==> w in r)
    && (forall v :: v in r ==> Reachable(g, start, v))
  }

  /** The seen set is split without repetition between the visited prefix and the worklist. */
  ghost predicate Partition<T(!new)>(seen: set<T>, done: seq<T>, todo: seq<T>)
  {
    && (forall x :: x in seen <==> x in done || x in todo)
    && Distinct(done) && Distinct(todo)
    && (forall x :: x in done ==> x !in todo)
  }

  /** Every seen node carries a witness walk from start. */
  ghost predicate PathsTo<T(!new)>(g: map<T, seq<T>>, start: T, seen: set<T>, paths: map<T, seq<T>>)
  {
    forall x :: x in seen ==>
      x in paths && IsPath(g, paths[x]) && paths[x][0] == start && paths[x][|paths[x]| - 1] == x
  }

  lemma PartitionPopFront<T(!new)>(seen: set<T>, done: seq<T>, todo: seq<T>)
    requires Partition(seen, done, todo) && todo != []
    ensures Partition(seen, done + [todo[0]], todo[1..])
  {
    assert todo == [todo[0]] + todo[1..];
    DistinctAppend(done, todo[0]);
    forall i, j | 0 <= i < j < |todo| - 1 ensures todo[1..][i] != todo[1..][j] {
      assert todo[i + 1] != todo[j + 1];
    }
    forall x | x in todo[1..] ensures x != todo[0] {
      var j :| 0 <= j < |todo| - 1 && todo[1..][j] == x;
      assert todo[j + 1] != todo[0];
    }
  }

  lemma PartitionPopBack<T(!new)>(seen: set<T>, done: seq<T>, todo: seq<T>)
    requires Partition(seen, done, todo) && todo != []
    ensures Partition(seen, done + [todo[|todo| - 1]], todo[..|todo| - 1])
  {
    var n := |todo| - 1;
    assert todo == todo[..n] + [todo[n]];
    DistinctAppend(done, todo[n]);
    forall x | x in todo[..n] ensures x != todo[n] {
      var j :| 0 <= j < n && todo[..n][j] == x;
      assert todo[j] != todo[n];
    }
  }

  lemma PartitionPush<T(!new)>(seen: set<T>, done: seq<T>, todo: seq<T>, w: T)
    requires Partition(seen, done, todo) && w !in seen
    ensures Partition(seen + {w}, done, todo + [w])
  {
  }

  lemma PathsPush<T(!new)>(g: map<T, seq<T>>, start: T, seen: set<T>, paths: map<T, seq<T>>, node: T, w: T)
    requires PathsTo(g, start, seen, paths) && node in seen && w in Neighbours(g, node)
    ensures PathsTo(g, start, seen + {w}, paths[w := paths[node] + [w]])
  {
    assert IsPath(g, paths[node] + [w]);
  }

  lemma DistinctAppend<T(!new)>(s: seq<T>, x: T)
    requires Distinct(s) && x !in s
    ensures Distinct(s + [x])
  {
  }

  lemma NeighboursInNodes<T(!new)>(g: map<T, seq<T>>, start: T, v: T)
    ensures forall w :: w in Neighbours(g, v) ==> w in Nodes(g, start)
  {
    forall w | w in Neighbours(g, v) ensures w in Nodes(g, start) {
      assert v in g && w in g[v];
    }
  }

  /** Adding a node that is not yet seen shrinks the unseen part of a finite universe by one. */
  lemma UnseenShrinks<T(!new)>(nodes: set<T>, seen: set<T>, w: T)
    requires w in nodes && w !in seen
    ensures |nodes - (seen + {w})| == |nodes - seen| - 1
  {
    assert nodes - seen == (nodes - (seen + {w})) + {w};
  }

  /** At the end of a search nothing is left to do and the paths witness reachability. */
  lemma SearchDone<T(!new)>(g: map<T, seq<T>>, start: T, seen: set<T>, done: seq<T>, paths: map<T, seq<T>>)
    requires Partition(seen, done, []) && PathsTo(g, start, seen, paths)
    requires done != [] && done[0] == start
    requires forall v, w :: v in done && w in Neighbours(g, v) ==> w in seen
    ensures IsTraversal(g, start, done)
  {
    forall v | v in done
      ensures Reachable(g, start, v)
    {
      assert IsPath(g, paths[v]);
    }
  }

  /**
   * The inner loop shared by bfs and dfs: every neighbour of node not seen
   * yet is marked seen and appended to the worklist, in neighbour order.
   */
  method PushNeighbours<T(==, !new)>(g: map<T, seq<T>>, node: T, seen: set<T>, queue: seq<T>,
                                     ghost start: T, ghost done: seq<T>, ghost nodes: set<T>,
                                     ghost paths: map<T, seq<T>>)
    returns (seen': set<T>, queue': seq<T>, ghost paths': map<T, seq<T>>)
    requires Partition(seen, done, queue) && PathsTo(g, start, seen, paths)
    requires node in seen && seen <= nodes
    requires forall w :: w in Neighbours(g, node) ==> w in nodes
    ensures Partition(seen', done, queue') && PathsTo(g, start, seen', paths')
    ensures seen <= seen' <= nodes
    ensures forall w :: w in Neighbours(g, node) ==> w in seen'
    ensures forall w :: w in seen' ==> w in seen || w in Neighbours(g, node)
    ensures |nodes - seen'| + |queue'| == |nodes - seen| + |queue|
  {
    seen', queue', paths' := seen, queue, paths;
    var ns := Neighbours(g, node);
    var i := 0;
    while i < |ns|
      invariant 0 <= i <= |ns|
      invariant Partition(seen', done, queue') && PathsTo(g, start, seen', paths')
      invariant forall x :: x in seen' <==> x in seen || x in ns[..i]
      invariant |nodes - seen'| + |queue'| == |nodes - seen| + |queue|
    {
      assert ns[..i + 1] == ns[..i] + [ns[i]];
      seen', queue', paths' := Visit(g, node, ns[i], seen', queue', start, done, nodes, paths');
      i := i + 1;
    }
    assert ns[..i] == ns;
  }

  /** One neighbour w of node: if not seen yet, mark it seen and append it to the worklist. */
  method Visit<T(==, !new)>(g: map<T, seq<T>>, node: T, w: T, seen: set<T>, queue: seq<T>,
                            ghost start: T, ghost done: seq<T>, ghost nodes: set<T>,
                            ghost paths: map<T, seq<T>>)
    returns (seen': set<T>, queue': seq<T>, ghost paths': map<T, seq<T>>)
    requires Partition(seen, done, queue) && PathsTo(g, start, seen, paths)
    requires node in seen && seen <= nodes && w in Neighbours(g, node) && w in nodes
    ensures Partition(seen', done, queue') && PathsTo(g, start, seen', paths')
    ensures seen' == seen + {w}
    ensures |nodes - seen'| + |queue'| == |nodes - seen| + |queue|
  {
    seen', queue', paths' := seen, queue, paths;
    if w !in seen {
      UnseenShrinks(nodes, seen, w);
      PartitionPush(seen, done, queue, w);
      PathsPush(g, start, seen, paths, node, w);
      paths' := paths[w := paths[node] + [w]];
      seen' := seen + {w};
      queue' := queue + [w];
    }
  }

  /** bfs: take nodes from the front of the worklist (first in, first out). */
  method Bfs<T(==, !new)>(g: map<T, seq<T>>, start: T) returns (component: seq<T>)
    ensures IsTraversal(g, start, component)
  {
    component := [];
    var seen := {start};
    var queue := [start];
    ghost var paths := map[start := [start]];
    ghost var nodes := Nodes(g, start);
    while |queue| > 0
      invariant seen <= nodes
      invariant Partition(seen, component, queue)
      invariant PathsTo(g, start, seen, paths)
      invariant component == [] ==> queue == [start]
      invariant component != [] ==> component[0] == start
      invariant forall v, w :: v in component && w in Neighbours(g, v) ==> w in seen
      decreases |nodes - seen| + |queue|
    {
      var node := queue[0];
      PartitionPopFront(seen, component, queue);
      queue := queue[1..];
      component := component + [node];
      NeighboursInNodes(g, start, node);
      seen, queue, paths := PushNeighbours(g, node, seen, queue, start, component, nodes, paths);
    }
    SearchDone(g, start, seen, component, paths);
  }

  /** dfs: take nodes from the back of the worklist (last in, first out). */
  method Dfs<T(==, !new)>(g: map<T, seq<T>>, start: T) returns (component: seq<T>)
    ensures IsTraversal(g, start, component)
  {
    component := [];
    var seen := {start};
    var queue := [start];
    ghost var paths := map[start := [start]];
    ghost var nodes := Nodes(g, start);
    while |queue| > 0
      invariant seen <= nodes
      invariant Partition(seen, component, queue)
      invariant PathsTo(g, start, seen, paths)
      invariant component == [] ==> queue == [start]
      invariant component != [] ==> component[0] == start
      invariant forall v, w :: v in component && w in Neighbours(g, v) ==> w in seen
      decreases |nodes - seen| + |queue|
    {
      var node := queue[|queue| - 1];
      PartitionPopBack(seen, component, queue);
      queue := queue[..|queue| - 1];
      component := component + [node];
      NeighboursInNodes(g, start, node);
      seen, queue, paths := PushNeighbours(g, node, seen, queue, start, component, nodes, paths);
    }
    SearchDone(g, start, seen, component, paths);
  }

  /** Every node of a walk that starts in a closed set stays in the set. */
  lemma {:induction false} ClosedHoldsPath<T(!new)>(g: map<T, seq<T>>, nodes: set<T>, p: seq<T>, i: nat)
    requires Closed(g, nodes) && IsPath(g, p) && p[0] in nodes && i < |p|
    ensures p[i] in nodes
  {
    if i > 0 {
      ClosedHoldsPath(g, nodes, p, i - 1);
      assert p[i] in Neighbours(g, p[i - 1]);
    }
  }

  /** A closed set that holds s holds everything reachable from s. */
  lemma ClosedHoldsReachable<T(!new)>(g: map<T, seq<T>>, nodes: set<T>, s: T, t: T)
    requires Closed(g, nodes) && s in nodes && Reachable(g, s, t)
    ensures t in nodes
  {
    var p :| IsPath(g, p) && p[0] == s && p[|p| - 1] == t;
    ClosedHoldsPath(g, nodes, p, |p| - 1);
  }

  /** A traversal holds exactly the nodes reachable from its start. */
  lemma TraversalIsReachableSet<T(!new)>(g: map<T, seq<T>>, start: T, r: seq<T>)
    requires IsTraversal(g, start, r)
    ensures forall t :: t in r <==> Reachable(g, start, t)
  {
    var nodes := set x | x in r;
    assert Closed(g, nodes);
    forall t | Reachable(g, start, t)
      ensures t in r
    {
      ClosedHoldsReachable(g, nodes, start, t);
    }
  }

  /** bfs and dfs from the same start return the same nodes, possibly in different orders. */
  lemma TraversalsAgree<T(!new)>(g: map<T, seq<T>>, start: T, a: seq<T>, b: seq<T>)
    requires IsTraversal(g, start, a) && IsTraversal(g, start, b)
    ensures forall x :: x in a <==> x in b
    ensures |a| == |b|
  {
    TraversalIsReachableSet(g, start, a);
    TraversalIsReachableSet(g, start, b);
    DistinctSameElementsSameLength(a, b);
  }

  lemma {:induction false} DistinctSameElementsSameLength<T(!new)>(a: seq<T>, b: seq<T>)
    requires Distinct(a) && Distinct(b)
    requires forall x :: x in a <==> x in b
    ensures |a| == |b|
  {
    DistinctCardinality(a);
    DistinctCardinality(b);
    assert (set x | x in a) == (set x | x in b);
  }

  /** A sequence without repetitions has as many elements as its set. */
  lemma {:induction false} DistinctCardinality<T(!new)>(s: seq<T>)
    requires Distinct(s)
    ensures |set x | x in s| == |s|
  {
    if s != [] {
      var t := s[1..];
      assert Distinct(t) by {
        forall i, j | 0 <= i < j < |t| ensures t[i] != t[j] {
          assert s[i + 1] != s[j + 1];
        }
      }
      DistinctCardinality(t);
      assert s[0] !in t by {
        forall j | 0 <= j < |t| ensures t[j] != s[0] {
          assert s[j + 1] != s[0];
        }
      }
      assert (set x | x in s) == (set x | x in t) + {s[0]} by {
        assert s == [s[0]] + t;
      }
    }
  }

  /** With symmetric links a walk can be retraced. */
  lemma {:induction false} ReachableSymmetric<T(!new)>(g: map<T, seq<T>>, s: T, t: T)
    requires Symmetric(g) && Reachable(g, s, t)
    ensures Reachable(g, t, s)
  {
    var p :| IsPath(g, p) && p[0] == s && p[|p| - 1] == t;
    var q := seq(|p|, i requires 0 <= i < |p| => p[|p| - 1 - i]);
    forall i | 0 <= i < |q| - 1
      ensures q[i + 1] in Neighbours(g, q[i])
    {
      assert p[|p| - 1 - i] in Neighbours(g, p[|p| - 2 - i]);
    }
    assert IsPath(g, q) && q[0] == t && q[|q| - 1] == s;
  }

  /** Walks compose. */
  lemma ReachableTransitive<T(!new)>(g: map<T, seq<T>>, a: T, b: T, c: T)
    requires Reachable(g, a, b) && Reachable(g, b, c)
    ensures Reachable(g, a, c)
  {
    var p :| IsPath(g, p) && p[0] == a && p[|p| - 1] == b;
    var q :| IsPath(g, q) && q[0] == b && q[|q| - 1] == c;
    var r := p + q[1..];
    forall i | 0 <= i < |r| - 1
      ensures r[i + 1] in Neighbours(g, r[i])
    {
      if i < |p| - 1 {
        assert r[i] == p[i] && r[i + 1] == p[i + 1];
      } else {
        assert r[i] == q[i - |p| + 1] && r[i + 1] == q[i - |p| + 2];
      }
    }
    assert IsPath(g, r) && r[0] == a && r[|r| - 1] == c;
  }

  /**
   * With symmetric links, a node from which some node of a closed set can be
   * reached is itself in that set: searches from outside a union of
   * components never enter it.
   */
  lemma ClosedHoldsSources<T(!new)>(g: map<T, seq<T>>, nodes: set<T>, s: T, t: T)
    requires Symmetric(g) && Closed(g, nodes) && t in nodes && Reachable(g, s, t)
    ensures s in nodes
  {
    ReachableSymmetric(g, s, t);
    ClosedHoldsReachable(g, nodes, t, s);
  }

  /** With symmetric links, a search from a start outside a traversal shares no node with it. */
  lemma TraversalsDisjoint<T(!new)>(g: map<T, seq<T>>, a: seq<T>, s: T, b: seq<T>)
    requires Symmetric(g) && |a| > 0 && IsTraversal(g, a[0], a) && IsTraversal(g, s, b) && s !in a
    ensures forall x :: x in a ==> x !in b
  {
    TraversalIsReachableSet(g, a[0], a);
    forall x | x in a ensures x !in b {
      if x in b {
        ReachableSymmetric(g, s, x);
        ReachableTransitive(g, a[0], x, s);
      }
    }
  }

  /**
   * With symmetric links, a search from s inside a closed set has as many
   * nodes as the set exactly when every two nodes of the set are joined by
   * a walk.
   */
  lemma ComponentIsAll<T(!new)>(g: map<T, seq<T>>, nodes: set<T>, s: T, comp: seq<T>)
    requires Symmetric(g) && Closed(g, nodes) && s in nodes && IsTraversal(g, s, comp)
    ensures |comp| == |nodes| <==> forall a, b :: a in nodes && b in nodes ==> Reachable(g, a, b)
  {
    TraversalIsReachableSet(g, s, comp);
    DistinctCardinality(comp);
    var cs := set x | x in comp;
    forall x | x in cs ensures x in nodes {
      ClosedHoldsReachable(g, nodes, s, x);
    }
    if |comp| == |nodes| {
      SameSizeSubset(cs, nodes);
      forall a, b | a in nodes && b in nodes ensures Reachable(g, a, b) {
        ReachableSymmetric(g, s, a);
        ReachableTransitive(g, a, s, b);
      }
    }
    if forall a, b :: a in nodes && b in nodes ==> Reachable(g, a, b) {
      forall b | b in nodes ensures b in cs {
        assert Reachable(g, s, b);
      }
      assert cs == nodes;
    }
  }

  lemma SameSizeSubset<T>(a: set<T>, b: set<T>)
    requires a <= b && |a| == |b|
    ensures a == b
  {
    assert b == a + (b - a);
    assert |b - a| == 0;
  }
}
