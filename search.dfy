/**
 * The search half of src/graph/graph.rs: a graph as an adjacency map from
 * positions to neighbour sets, breadth-first search returning a parent-pointer
 * map, and A* over a max-heap whose order is reversed on cost. Positions are
 * integer pairs compared lexicographically, as Rust compares tuples.
 */
module Search {
  import opened Wrappers

  type Pos = (int, int)

  /** A path entry: the position itself and the position it was reached from (`children` is always None). */
  datatype Node = Node(value: Pos, parent: Option<Pos>)

  datatype Ordering = Less | Equal | Greater

  function Flip(o: Ordering): Ordering
  {
    match o
    case Less => Greater
    case Equal => Equal
    case Greater => Less
  }

  /** `Ord::cmp` on integers. */
  function CmpInt(a: int, b: int): (r: Ordering)
    ensures r == Equal <==> a == b
    ensures r == Less <==> a < b
  {
    if a < b then Less else if a == b then Equal else Greater
  }

  /** `Ordering::then_with`: the second comparison decides only a tie. */
  function ThenWith(first: Ordering, second: Ordering): Ordering
  {
    if first == Equal then second else first
  }

  /** Lexicographic `Ord::cmp` on positions. */
  function CmpPos(a: Pos, b: Pos): (r: Ordering)
    ensures r == Equal <==> a == b
    ensures r == Less <==> a.0 < b.0 || (a.0 == b.0 && a.1 < b.1)
  {
    ThenWith(CmpInt(a.0, b.0), CmpInt(a.1, b.1))
  }

  /** A heap entry: a priority and a position. */
  datatype QueueItem = QueueItem(cost: int, position: Pos)

  /**
   * `QueueItem::cmp`: cost compared in reverse, ties broken by position. Lower
   * cost compares greater, so a max-heap yields the cheapest entry first; it
   * agrees with the derived equality.
   */
  function Cmp(a: QueueItem, b: QueueItem): (r: Ordering)
    ensures r == Equal <==> a == b
    ensures a.cost < b.cost ==> r == Greater
    ensures a.cost > b.cost ==> r == Less
    ensures a.cost == b.cost ==> r == CmpPos(a.position, b.position)
  {
    ThenWith(CmpInt(b.cost, a.cost), CmpPos(a.position, b.position))
  }

  /** `QueueItem::partial_cmp`: always defined, equal exactly on equal items, antisymmetric. */
  function PartialCmp(a: QueueItem, b: QueueItem): (r: Option<Ordering>)
    ensures r.Some? && (r.value == Equal <==> a == b)
    ensures r.Some? && r.value == Flip(Cmp(b, a))
  {
    CmpAntisymmetric(a, b);
    Some(Cmp(a, b))
  }

  lemma CmpAntisymmetric(a: QueueItem, b: QueueItem)
    ensures Cmp(a, b) == Flip(Cmp(b, a))
  {
  }

  lemma CmpTransitive(a: QueueItem, b: QueueItem, c: QueueItem)
    requires Cmp(a, b) == Greater && Cmp(b, c) == Greater
    ensures Cmp(a, c) == Greater
  {
  }

  /** `t` is a greatest entry of the heap: what `BinaryHeap::pop` removes. */
  predicate IsTop(heap: multiset<QueueItem>, t: QueueItem)
  {
    t in heap && forall x :: x in heap ==> Cmp(x, t) != Greater
  }

  /** A non-empty heap has a greatest entry. */
  lemma {:induction false} TopExists(heap: multiset<QueueItem>)
    requires |heap| > 0
    ensures exists t :: IsTop(heap, t)
    decreases |heap|
  {
    var x :| x in heap;
    var rest := heap - multiset{x};
    if |rest| == 0 {
      assert heap == multiset{x};
      assert IsTop(heap, x);
    } else {
      TopExists(rest);
      var t :| IsTop(rest, t);
      if Cmp(x, t) == Greater {
        forall y | y in heap ensures Cmp(y, x) != Greater {
          if y != x {
            assert y in rest;
            if Cmp(y, x) == Greater {
              CmpTransitive(y, x, t);
            }
          }
        }
        assert IsTop(heap, x);
      } else {
        forall y | y in heap ensures Cmp(y, t) != Greater {
          if y != x {
            assert y in rest;
          }
        }
        assert IsTop(heap, t);
      }
    }
  }

  /** The greatest entry is unique, so popping is deterministic. */
  lemma TopUnique(heap: multiset<QueueItem>, s: QueueItem, t: QueueItem)
    requires IsTop(heap, s) && IsTop(heap, t)
    ensures s == t
  {
    CmpAntisymmetric(s, t);
  }

  // ---------------------------------------------------------------------
  // Walks

  /** The neighbour set of `v`, empty when `v` is not a key (`vertices.get(&v)` is None). */
  function Neighbours(vertices: map<Pos, set<Pos>>, v: Pos): set<Pos>
  {
    if v in vertices then vertices[v] else {}
  }

  /** A non-empty sequence of positions, each a neighbour of the one before. */
  ghost predicate IsWalk(vertices: map<Pos, set<Pos>>, w: seq<Pos>)
  {
    |w| >= 1 && forall i :: 0 <= i < |w| - 1 ==> w[i + 1] in Neighbours(vertices, w[i])
  }

  ghost predicate Reachable(vertices: map<Pos, set<Pos>>, a: Pos, b: Pos)
  {
    exists w :: IsWalk(vertices, w) && w[0] == a && w[|w| - 1] == b
  }

  lemma WalkPrefix(vertices: map<Pos, set<Pos>>, w: seq<Pos>, n: nat)
    requires IsWalk(vertices, w) && 1 <= n <= |w|
    ensures IsWalk(vertices, w[..n])
  {
    assert forall i :: 0 <= i < n ==> w[..n][i] == w[i];
  }

  /** Every position a walk visits lies in a set that holds its start and is closed under neighbours. */
  lemma {:induction false} WalkStaysInside(vertices: map<Pos, set<Pos>>, s: set<Pos>, w: seq<Pos>)
    requires IsWalk(vertices, w) && w[0] in s
    requires forall v :: v in s ==> Neighbours(vertices, v) <= s
    ensures w[|w| - 1] in s
    decreases |w|
  {
    if |w| > 1 {
      WalkPrefix(vertices, w, |w| - 1);
      WalkStaysInside(vertices, s, w[..|w| - 1]);
      assert w[|w| - 1] in Neighbours(vertices, w[|w| - 2]);
    }
  }

  /** A walk that starts inside `s` and ends outside it has a step leaving `s`. */
  lemma {:induction false} FirstExit(w: seq<Pos>, s: set<Pos>) returns (i: nat)
    requires |w| >= 1 && w[0] in s && w[|w| - 1] !in s
    ensures i + 1 < |w| && w[i] in s && w[i + 1] !in s
    decreases |w|
  {
    if w[1] !in s {
      i := 0;
    } else {
      var j := FirstExit(w[1..], s);
      i := j + 1;
    }
  }

  // ---------------------------------------------------------------------
  // Breadth-first search

  /**
   * The map returned by `bfs`: `start` is its root with no parent, and every
   * other key names itself and a parent key of which it is a neighbour, one
   * level deeper.
   */
  ghost predicate IsBfsTree(vertices: map<Pos, set<Pos>>, start: Pos, m: map<Pos, Node>, depth: map<Pos, nat>)
  {
    && start in m && m[start] == Node(start, None)
    && depth.Keys == m.Keys && depth[start] == 0
    && forall k :: k in m && k != start ==>
         && m[k].value == k && m[k].parent.Some?
         && m[k].parent.value in m
         && k in Neighbours(vertices, m[k].parent.value)
         && depth[k] == depth[m[k].parent.value] + 1
  }

  /** No walk from `start` to a key is shorter than its depth. */
  ghost predicate Shortest(vertices: map<Pos, set<Pos>>, start: Pos, depth: map<Pos, nat>)
  {
    forall w :: IsWalk(vertices, w) && w[0] == start && w[|w| - 1] in depth ==> |w| - 1 >= depth[w[|w| - 1]]
  }

  /** Each position of `w` after the first is a key whose parent is the position before it. */
  ghost predicate FollowsParents(m: map<Pos, Node>, w: seq<Pos>)
  {
    forall i :: 0 < i < |w| ==> w[i] in m && m[w[i]].parent == Some(w[i - 1])
  }

  /** Following parent links from any key reaches `start` in exactly depth-many steps, along a walk. */
  lemma {:induction false} ParentChain(vertices: map<Pos, set<Pos>>, start: Pos, m: map<Pos, Node>, depth: map<Pos, nat>, k: Pos)
      returns (w: seq<Pos>)
    requires IsBfsTree(vertices, start, m, depth) && k in m
    ensures IsWalk(vertices, w) && w[0] == start && w[|w| - 1] == k && |w| == depth[k] + 1
    ensures FollowsParents(m, w)
    decreases depth[k]
  {
    if k == start {
      w := [start];
    } else {
      var p := m[k].parent.value;
      var w0 := ParentChain(vertices, start, m, depth, p);
      w := w0 + [k];
      WalkSnoc(vertices, m, w0, k);
    }
  }

  /** Extending a walk that follows parent links by a child of its last position. */
  lemma WalkSnoc(vertices: map<Pos, set<Pos>>, m: map<Pos, Node>, w: seq<Pos>, k: Pos)
    requires IsWalk(vertices, w) && FollowsParents(m, w)
    requires k in Neighbours(vertices, w[|w| - 1]) && k in m && m[k].parent == Some(w[|w| - 1])
    ensures IsWalk(vertices, w + [k]) && FollowsParents(m, w + [k])
    ensures (w + [k])[0] == w[0] && |w + [k]| == |w| + 1
  {
    var w2 := w + [k];
    assert forall i :: 0 <= i < |w| ==> w2[i] == w[i];
  }

  ghost function Universe(vertices: map<Pos, set<Pos>>, start: Pos): set<Pos>
  {
    vertices.Keys + (set k, n | k in vertices && n in vertices[k] :: n) + {start}
  }

  /** The depths along the queue never decrease. */
  ghost predicate SortedDepths(queue: seq<Pos>, depth: map<Pos, nat>)
  {
    forall i, j :: 0 <= i < j < |queue| && queue[i] in depth && queue[j] in depth ==> depth[queue[i]] <= depth[queue[j]]
  }

  /** Every depth on the queue is `d` or `d + 1`. */
  ghost predicate DepthsWithin(queue: seq<Pos>, depth: map<Pos, nat>, d: nat)
  {
    forall i :: 0 <= i < |queue| ==> queue[i] in depth && d <= depth[queue[i]] <= d + 1
  }

  /** What holds between and during iterations: `done` are the fully expanded positions. */
  ghost predicate BfsCore(vertices: map<Pos, set<Pos>>, start: Pos, end: Pos, queue: seq<Pos>, visited: set<Pos>,
                          m: map<Pos, Node>, depth: map<Pos, nat>, done: set<Pos>)
  {
    && visited == m.Keys && visited == depth.Keys
    && visited <= Universe(vertices, start)
    && IsBfsTree(vertices, start, m, depth)
    && Shortest(vertices, start, depth)
    && done <= visited && end !in done
    && (forall v :: v in done ==> Neighbours(vertices, v) <= visited)
    && SortedDepths(queue, depth)
    && (forall i :: 0 <= i < |queue| ==> queue[i] in visited)
  }

  ghost predicate BfsOuter(vertices: map<Pos, set<Pos>>, start: Pos, end: Pos, queue: seq<Pos>, visited: set<Pos>,
                           m: map<Pos, Node>, depth: map<Pos, nat>, done: set<Pos>)
  {
    && BfsCore(vertices, start, end, queue, visited, m, depth, done)
    && (forall v :: v in visited ==> v in done || v in queue)
    && (queue != [] ==> queue[0] in depth && DepthsWithin(queue, depth, depth[queue[0]]))
  }

  /** While the neighbours of `u` are scanned: those not in `remaining` are visited already. */
  ghost predicate BfsInner(vertices: map<Pos, set<Pos>>, start: Pos, end: Pos, queue: seq<Pos>, visited: set<Pos>,
                           m: map<Pos, Node>, depth: map<Pos, nat>, done: set<Pos>, u: Pos, remaining: set<Pos>)
  {
    && BfsCore(vertices, start, end, queue, visited, m, depth, done)
    && u in visited && u != end
    && (forall v :: v in visited ==> v in done || v in queue || v == u)
    && DepthsWithin(queue, depth, depth[u])
    && remaining <= Neighbours(vertices, u)
    && Neighbours(vertices, u) - remaining <= visited
  }

  /** Growing `a` to a different `b` inside `u` shrinks what is left of `u`. */
  lemma ShrinkRest(u: set<Pos>, a: set<Pos>, b: set<Pos>)
    requires a <= b <= u && a != b
    ensures u - b < u - a
  {
    var x :| x in b && x !in a;
    assert x in u - a;
  }

  lemma BfsInit(vertices: map<Pos, set<Pos>>, start: Pos, end: Pos)
    ensures BfsOuter(vertices, start, end, [start], {start}, map[start := Node(start, None)], map[start := 0], {})
  {
  }

  /** Dequeuing a position other than `end` starts the scan of its neighbours. */
  lemma BfsPop(vertices: map<Pos, set<Pos>>, start: Pos, end: Pos, queue: seq<Pos>, visited: set<Pos>,
               m: map<Pos, Node>, depth: map<Pos, nat>, done: set<Pos>)
    requires BfsOuter(vertices, start, end, queue, visited, m, depth, done)
    requires queue != [] && queue[0] != end
    ensures BfsInner(vertices, start, end, queue[1..], visited, m, depth, done, queue[0], Neighbours(vertices, queue[0]))
  {
    var u := queue[0];
    forall v | v in visited ensures v in done || v in queue[1..] || v == u {
      if v in queue && v != u {
        var i :| 0 <= i < |queue| && queue[i] == v;
        assert queue[1..][i - 1] == v;
      }
    }
    forall i | 0 <= i < |queue[1..]| ensures queue[1..][i] in depth && depth[u] <= depth[queue[1..][i]] <= depth[u] + 1 {
      assert queue[1..][i] == queue[i + 1];
    }
  }

  /**
   * A position outside `visited` is more than `depth[u]` steps from `start`:
   * a walk to it leaves the visited set from a position that is queued or is
   * `u`, so already at depth at least `depth[u]`.
   */
  lemma FrontierBound(vertices: map<Pos, set<Pos>>, start: Pos, end: Pos, queue: seq<Pos>, visited: set<Pos>,
                      m: map<Pos, Node>, depth: map<Pos, nat>, done: set<Pos>, u: Pos, remaining: set<Pos>,
                      x: Pos, w: seq<Pos>)
    requires BfsInner(vertices, start, end, queue, visited, m, depth, done, u, remaining)
    requires x !in visited && IsWalk(vertices, w) && w[0] == start && w[|w| - 1] == x
    ensures |w| - 1 >= depth[u] + 1
  {
    var i := FirstExit(w, visited);
    var v := w[i];
    assert w[i + 1] in Neighbours(vertices, v);
    assert v !in done;
    if v != u {
      assert v in queue;
      var j :| 0 <= j < |queue| && queue[j] == v;
    }
    assert depth[v] >= depth[u];
    WalkPrefix(vertices, w, i + 1);
    assert w[..i + 1][i] == v;
  }

  /** The new depth of a discovered position is its distance: no walk reaches it sooner. */
  lemma DiscoverShortest(vertices: map<Pos, set<Pos>>, start: Pos, end: Pos, queue: seq<Pos>, visited: set<Pos>,
                         m: map<Pos, Node>, depth: map<Pos, nat>, done: set<Pos>, u: Pos, remaining: set<Pos>, x: Pos)
    requires BfsInner(vertices, start, end, queue, visited, m, depth, done, u, remaining)
    requires x !in visited
    ensures Shortest(vertices, start, depth[x := depth[u] + 1])
  {
    var depth2 := depth[x := depth[u] + 1];
    forall w | IsWalk(vertices, w) && w[0] == start && w[|w| - 1] in depth2
      ensures |w| - 1 >= depth2[w[|w| - 1]]
    {
      if w[|w| - 1] == x {
        FrontierBound(vertices, start, end, queue, visited, m, depth, done, u, remaining, x, w);
      }
    }
  }

  /** Appending a position at depth `d + 1` keeps the queue sorted and within `d .. d + 1`. */
  lemma QueuePush(queue: seq<Pos>, depth: map<Pos, nat>, d: nat, x: Pos)
    requires SortedDepths(queue, depth) && DepthsWithin(queue, depth, d) && x !in depth
    ensures SortedDepths(queue + [x], depth[x := d + 1]) && DepthsWithin(queue + [x], depth[x := d + 1], d)
    ensures forall i :: 0 <= i < |queue| ==> (queue + [x])[i] == queue[i]
  {
    var depth2 := depth[x := d + 1];
    var queue2 := queue + [x];
    assert forall i :: 0 <= i < |queue| ==> queue2[i] == queue[i];
    forall i, j | 0 <= i < j < |queue2| && queue2[i] in depth2 && queue2[j] in depth2
      ensures depth2[queue2[i]] <= depth2[queue2[j]]
    {
      assert queue2[i] == queue[i];
    }
  }

  /** Giving an unvisited neighbour `x` of `u` the parent `u` keeps the map a tree one level per step. */
  lemma TreeExtend(vertices: map<Pos, set<Pos>>, start: Pos, m: map<Pos, Node>, depth: map<Pos, nat>, u: Pos, x: Pos)
    requires IsBfsTree(vertices, start, m, depth) && u in m && x !in m && x in Neighbours(vertices, u)
    ensures IsBfsTree(vertices, start, m[x := Node(x, Some(u))], depth[x := depth[u] + 1])
  {
  }

  /** Every neighbour of a position is in the universe. */
  lemma NeighbourInUniverse(vertices: map<Pos, set<Pos>>, start: Pos, u: Pos, x: Pos)
    requires x in Neighbours(vertices, u)
    ensures x in Universe(vertices, start)
  {
    assert u in vertices && x in vertices[u];
  }

  /** Discovering an unvisited neighbour `x` of `u` at depth `depth[u] + 1`. */
  lemma BfsDiscover(vertices: map<Pos, set<Pos>>, start: Pos, end: Pos, queue: seq<Pos>, visited: set<Pos>,
                    m: map<Pos, Node>, depth: map<Pos, nat>, done: set<Pos>, u: Pos, remaining: set<Pos>, x: Pos)
    requires BfsInner(vertices, start, end, queue, visited, m, depth, done, u, remaining)
    requires x in remaining && x !in visited
    ensures BfsInner(vertices, start, end, queue + [x], visited + {x}, m[x := Node(x, Some(u))],
                     depth[x := depth[u] + 1], done, u, remaining - {x})
  {
    var queue2 := queue + [x];
    var depth2 := depth[x := depth[u] + 1];
    NeighbourInUniverse(vertices, start, u, x);
    TreeExtend(vertices, start, m, depth, u, x);
    DiscoverShortest(vertices, start, end, queue, visited, m, depth, done, u, remaining, x);
    QueuePush(queue, depth, depth[u], x);
    assert forall i :: 0 <= i < |queue2| ==> queue2[i] in visited + {x};
    assert depth2[u] == depth[u];
    forall v | v in visited + {x} ensures v in done || v in queue2 || v == u {
      if v != x && v in queue {
        var i :| 0 <= i < |queue| && queue[i] == v;
        assert queue2[i] == v;
      }
    }
  }

  /** Once every neighbour of `u` is visited, `u` is fully expanded. */
  lemma BfsFinish(vertices: map<Pos, set<Pos>>, start: Pos, end: Pos, queue: seq<Pos>, visited: set<Pos>,
                  m: map<Pos, Node>, depth: map<Pos, nat>, done: set<Pos>, u: Pos)
    requires BfsInner(vertices, start, end, queue, visited, m, depth, done, u, {})
    ensures BfsOuter(vertices, start, end, queue, visited, m, depth, done + {u})
  {
    if queue != [] {
      forall i | 0 <= i < |queue| ensures queue[i] in depth && depth[queue[0]] <= depth[queue[i]] <= depth[queue[0]] + 1 {
      }
    }
  }

  /** When `end` is dequeued it is reachable, and the map is a shortest-path tree holding it. */
  lemma BfsFound(vertices: map<Pos, set<Pos>>, start: Pos, end: Pos, queue: seq<Pos>, visited: set<Pos>,
                 m: map<Pos, Node>, depth: map<Pos, nat>, done: set<Pos>)
    requires BfsOuter(vertices, start, end, queue, visited, m, depth, done)
    requires queue != [] && queue[0] == end
    ensures Reachable(vertices, start, end) && end in m
  {
    var w := ParentChain(vertices, start, m, depth, end);
  }

  /** When the queue runs dry the visited set is closed under neighbours and `end` is not in it. */
  lemma BfsExhausted(vertices: map<Pos, set<Pos>>, start: Pos, end: Pos, visited: set<Pos>,
                     m: map<Pos, Node>, depth: map<Pos, nat>, done: set<Pos>)
    requires BfsOuter(vertices, start, end, [], visited, m, depth, done)
    ensures !Reachable(vertices, start, end)
  {
    if Reachable(vertices, start, end) {
      var w :| IsWalk(vertices, w) && w[0] == start && w[|w| - 1] == end;
      WalkStaysInside(vertices, done, w);
    }
  }

  /** `bfs`'s answer: the parent chain from `end` is a walk from `start` no longer than any other. */
  lemma BfsPathIsShortest(vertices: map<Pos, set<Pos>>, start: Pos, end: Pos, m: map<Pos, Node>, depth: map<Pos, nat>)
      returns (w: seq<Pos>)
    requires IsBfsTree(vertices, start, m, depth) && Shortest(vertices, start, depth) && end in m
    ensures IsWalk(vertices, w) && w[0] == start && w[|w| - 1] == end && FollowsParents(m, w)
    ensures forall w' :: IsWalk(vertices, w') && w'[0] == start && w'[|w'| - 1] == end ==> |w| <= |w'|
  {
    w := ParentChain(vertices, start, m, depth, end);
  }

  // ---------------------------------------------------------------------
  // A*

  const I32_MAX: int := 0x7fff_ffff

  /** `*g_score.get(&v).unwrap_or(&i32::MAX)`: the stored score, `i32::MAX` when there is none. */
  function ScoreOrMax(g: map<Pos, int>, v: Pos): int
  {
    if v in g then g[v] else I32_MAX
  }

  /** The summed `distance` of the consecutive steps of a walk. */
  ghost function Cost(distance: (Pos, Pos) -> int, w: seq<Pos>): int
  {
    if |w| <= 1 then 0 else Cost(distance, w[..|w| - 1]) + distance(w[|w| - 2], w[|w| - 1])
  }

  ghost predicate NonNegative(distance: (Pos, Pos) -> int)
  {
    forall a, b :: distance(a, b) >= 0
  }

  /** No neighbour of `k` could have its score lowered by going through `k`. */
  ghost predicate Settled(vertices: map<Pos, set<Pos>>, distance: (Pos, Pos) -> int, g: map<Pos, int>, k: Pos)
  {
    k in g && forall n :: n in Neighbours(vertices, k) ==> ScoreOrMax(g, n) <= g[k] + distance(k, n)
  }

  ghost predicate Queued(heap: multiset<QueueItem>, k: Pos)
  {
    exists c :: QueueItem(c, k) in heap
  }

  /** The entry A* wrote for `k`: itself, and a scored parent of which `k` is a neighbour, no dearer than `k`'s own score. */
  ghost predicate PathEntry(vertices: map<Pos, set<Pos>>, distance: (Pos, Pos) -> int, g: map<Pos, int>,
                            path: map<Pos, Node>, k: Pos)
    requires k in g
  {
    && k in path && path[k].value == k && path[k].parent.Some?
    && path[k].parent.value in g
    && k in Neighbours(vertices, path[k].parent.value)
    && g[k] >= g[path[k].parent.value] + distance(path[k].parent.value, k)
  }

  /** A walk from `start` to `k` whose cost is exactly the score of `k`. */
  ghost predicate Witness(vertices: map<Pos, set<Pos>>, distance: (Pos, Pos) -> int, start: Pos, k: Pos, score: int, w: seq<Pos>)
  {
    IsWalk(vertices, w) && w[0] == start && w[|w| - 1] == k && Cost(distance, w) == score
  }

  /** The sum over `vs` of the scores, `i32::MAX` where there is none: every relaxation lowers it. */
  ghost function PotSum(vs: seq<Pos>, g: map<Pos, int>): int
  {
    if vs == [] then 0 else ScoreOrMax(g, vs[0]) + PotSum(vs[1..], g)
  }

  lemma {:induction false} PotSumNonNegative(vs: seq<Pos>, g: map<Pos, int>)
    requires forall k :: k in g ==> g[k] >= 0
    ensures PotSum(vs, g) >= 0
  {
    if vs != [] {
      PotSumNonNegative(vs[1..], g);
    }
  }

  lemma {:induction false} PotSumDecreases(vs: seq<Pos>, g: map<Pos, int>, n: Pos, t: int)
    requires n in vs && t < ScoreOrMax(g, n)
    ensures PotSum(vs, g[n := t]) < PotSum(vs, g)
  {
    PotSumMonotone(vs[1..], g, n, t);
    if vs[0] != n {
      PotSumDecreases(vs[1..], g, n, t);
    }
  }

  lemma {:induction false} PotSumMonotone(vs: seq<Pos>, g: map<Pos, int>, n: Pos, t: int)
    requires t < ScoreOrMax(g, n)
    ensures PotSum(vs, g[n := t]) <= PotSum(vs, g)
  {
    if vs != [] {
      PotSumMonotone(vs[1..], g, n, t);
    }
  }

  /** Some listing of a finite set. */
  ghost function Enumerate(s: set<Pos>): (r: seq<Pos>)
    ensures forall x :: x in s ==> x in r
  {
    if s == {} then []
    else
      var x :| x in s;
      [x] + Enumerate(s - {x})
  }

  /** What A* keeps between and during iterations; `path0` is `path` as it was on entry. */
  ghost predicate AStarCore(vertices: map<Pos, set<Pos>>, start: Pos, distance: (Pos, Pos) -> int, g: map<Pos, int>,
                            walks: map<Pos, seq<Pos>>, path: map<Pos, Node>, path0: map<Pos, Node>)
  {
    && NonNegative(distance)
    && start in g && g[start] == 0
    && g.Keys <= Universe(vertices, start)
    && (forall k :: k in g ==> 0 <= g[k] <= I32_MAX)
    && (forall k :: k in g ==> k in walks && Witness(vertices, distance, start, k, g[k], walks[k]))
    && path.Keys == path0.Keys + (g.Keys - {start})
    && (forall k :: k in path0 && (k !in g || k == start) ==> path[k] == path0[k])
    && (forall k :: k in g && k != start ==> PathEntry(vertices, distance, g, path, k))
  }

  ghost predicate AStarOuter(vertices: map<Pos, set<Pos>>, start: Pos, distance: (Pos, Pos) -> int, heap: multiset<QueueItem>,
                             g: map<Pos, int>, walks: map<Pos, seq<Pos>>, path: map<Pos, Node>, path0: map<Pos, Node>)
  {
    && AStarCore(vertices, start, distance, g, walks, path, path0)
    && HeapScored(heap, g)
    && (forall k :: k in g ==> Settled(vertices, distance, g, k) || Queued(heap, k))
  }

  /** Every heap entry names a scored position. */
  ghost predicate HeapScored(heap: multiset<QueueItem>, g: map<Pos, int>)
  {
    forall it :: it in heap ==> it.position in g
  }

  /** Every scored position other than `u` is settled or still has a heap entry. */
  ghost predicate OthersSettledOrQueued(vertices: map<Pos, set<Pos>>, distance: (Pos, Pos) -> int,
                                        heap: multiset<QueueItem>, g: map<Pos, int>, u: Pos)
  {
    forall k :: k in g && k != u ==> Settled(vertices, distance, g, k) || Queued(heap, k)
  }

  /** The neighbours in `done` cannot be improved by going through `u`. */
  ghost predicate Relaxed(vertices: map<Pos, set<Pos>>, distance: (Pos, Pos) -> int, g: map<Pos, int>, u: Pos, done: set<Pos>)
    requires u in g
  {
    forall n :: n in done ==> ScoreOrMax(g, n) <= g[u] + distance(u, n)
  }

  /** While the neighbours of `u` are relaxed: those no longer in `remaining` are done. */
  ghost predicate AStarInner(vertices: map<Pos, set<Pos>>, start: Pos, distance: (Pos, Pos) -> int, heap: multiset<QueueItem>,
                             g: map<Pos, int>, walks: map<Pos, seq<Pos>>, path: map<Pos, Node>, path0: map<Pos, Node>,
                             u: Pos, remaining: set<Pos>)
  {
    && AStarCore(vertices, start, distance, g, walks, path, path0)
    && HeapScored(heap, g)
    && OthersSettledOrQueued(vertices, distance, heap, g, u)
    && u in g
    && remaining <= Neighbours(vertices, u)
    && Relaxed(vertices, distance, g, u, Neighbours(vertices, u) - remaining)
  }

  lemma AStarInit(vertices: map<Pos, set<Pos>>, start: Pos, distance: (Pos, Pos) -> int, path0: map<Pos, Node>)
    requires NonNegative(distance)
    ensures AStarOuter(vertices, start, distance, multiset{QueueItem(0, start)}, map[start := 0],
                       map[start := [start]], path0, path0)
  {
    assert Queued(multiset{QueueItem(0, start)}, start);
    assert Witness(vertices, distance, start, start, 0, [start]);
  }

  /** Popping an entry starts the relaxation of its position's neighbours. */
  lemma AStarPop(vertices: map<Pos, set<Pos>>, start: Pos, distance: (Pos, Pos) -> int, heap: multiset<QueueItem>,
                 g: map<Pos, int>, walks: map<Pos, seq<Pos>>, path: map<Pos, Node>, path0: map<Pos, Node>, top: QueueItem)
    requires AStarOuter(vertices, start, distance, heap, g, walks, path, path0) && top in heap
    ensures AStarInner(vertices, start, distance, heap - multiset{top}, g, walks, path, path0,
                       top.position, Neighbours(vertices, top.position))
  {
    var heap2 := heap - multiset{top};
    forall k | k in g && k != top.position && Queued(heap, k) ensures Queued(heap2, k) {
      var c :| QueueItem(c, k) in heap;
      assert QueueItem(c, k) in heap2;
    }
  }

  /** A witness walk extended by one step to a neighbour. */
  lemma WalkExtend(vertices: map<Pos, set<Pos>>, distance: (Pos, Pos) -> int, start: Pos, k: Pos, score: int,
                   w: seq<Pos>, n: Pos)
    requires Witness(vertices, distance, start, k, score, w) && n in Neighbours(vertices, k)
    ensures Witness(vertices, distance, start, n, score + distance(k, n), w + [n])
  {
    var w2 := w + [n];
    assert w2[..|w2| - 1] == w;
    assert forall i :: 0 <= i < |w| ==> w2[i] == w[i];
  }

  /** Lowering the score of `n` through `u` keeps every path entry valid and makes `n`'s point to `u`. */
  lemma RelaxPathEntries(vertices: map<Pos, set<Pos>>, start: Pos, distance: (Pos, Pos) -> int,
                         g: map<Pos, int>, path: map<Pos, Node>, u: Pos, n: Pos, t: int)
    requires forall k :: k in g && k != start ==> PathEntry(vertices, distance, g, path, k)
    requires u in g && n in Neighbours(vertices, u) && t == g[u] + distance(u, n) && t < ScoreOrMax(g, n) && n != u
    ensures var g2 := g[n := t];
            forall k :: k in g2 && k != start ==> PathEntry(vertices, distance, g2, path[n := Node(n, Some(u))], k)
  {
    var g2 := g[n := t];
    var path2 := path[n := Node(n, Some(u))];
    forall k | k in g2 && k != start ensures PathEntry(vertices, distance, g2, path2, k) {
      if k != n {
        assert PathEntry(vertices, distance, g, path, k);
        var p := path[k].parent.value;
        assert g2[p] <= g[p];
      }
    }
  }

  /** The lowered score of `n` is in range and is the cost of the walk to `u` extended by `n`. */
  lemma RelaxWitnesses(vertices: map<Pos, set<Pos>>, start: Pos, distance: (Pos, Pos) -> int,
                       g: map<Pos, int>, walks: map<Pos, seq<Pos>>, u: Pos, n: Pos, t: int)
    requires NonNegative(distance)
    requires forall k :: k in g ==> 0 <= g[k] <= I32_MAX
    requires forall k :: k in g ==> k in walks && Witness(vertices, distance, start, k, g[k], walks[k])
    requires u in g && n in Neighbours(vertices, u) && t == g[u] + distance(u, n) && t < ScoreOrMax(g, n)
    ensures var g2 := g[n := t];
            var walks2 := walks[n := walks[u] + [n]];
            && (forall k :: k in g2 ==> 0 <= g2[k] <= I32_MAX)
            && (forall k :: k in g2 ==> k in walks2 && Witness(vertices, distance, start, k, g2[k], walks2[k]))
  {
    assert distance(u, n) >= 0;
    WalkExtend(vertices, distance, start, u, g[u], walks[u], n);
  }

  /** The score and entry of a relaxed neighbour `n` of `u`, and the new walk to it. */
  lemma RelaxCore(vertices: map<Pos, set<Pos>>, start: Pos, distance: (Pos, Pos) -> int,
                  g: map<Pos, int>, walks: map<Pos, seq<Pos>>, path: map<Pos, Node>, path0: map<Pos, Node>,
                  u: Pos, n: Pos, t: int)
    requires AStarCore(vertices, start, distance, g, walks, path, path0)
    requires u in g && n in Neighbours(vertices, u) && t == g[u] + distance(u, n) && t < ScoreOrMax(g, n)
    ensures n != start && n != u
    ensures AStarCore(vertices, start, distance, g[n := t], walks[n := walks[u] + [n]], path[n := Node(n, Some(u))], path0)
  {
    assert distance(u, n) >= 0;
    NeighbourInUniverse(vertices, start, u, n);
    RelaxWitnesses(vertices, start, distance, g, walks, u, n, t);
    RelaxPathEntries(vertices, start, distance, g, path, u, n, t);
    RelaxPathKeys(start, g, path, path0, n, t, Node(n, Some(u)));
  }

  /** Scoring a position other than `start` adds its entry to the path map and touches no entry of `path0` left unscored. */
  lemma RelaxPathKeys(start: Pos, g: map<Pos, int>, path: map<Pos, Node>, path0: map<Pos, Node>, n: Pos, t: int, node: Node)
    requires n != start
    requires path.Keys == path0.Keys + (g.Keys - {start})
    requires forall k :: k in path0 && (k !in g || k == start) ==> path[k] == path0[k]
    ensures path[n := node].Keys == path0.Keys + (g[n := t].Keys - {start})
    ensures forall k :: k in path0 && (k !in g[n := t] || k == start) ==> path[n := node][k] == path0[k]
  {
    assert path[n := node].Keys == path.Keys + {n};
    assert g[n := t].Keys == g.Keys + {n};
  }

  /** Relaxing `n` keeps every other position settled or queued, and queues `n`. */
  lemma RelaxSettled(vertices: map<Pos, set<Pos>>, distance: (Pos, Pos) -> int, heap: multiset<QueueItem>,
                     g: map<Pos, int>, u: Pos, n: Pos, t: int, c: int)
    requires t < ScoreOrMax(g, n)
    requires OthersSettledOrQueued(vertices, distance, heap, g, u)
    ensures OthersSettledOrQueued(vertices, distance, heap + multiset{QueueItem(c, n)}, g[n := t], u)
    ensures HeapScored(heap, g) ==> HeapScored(heap + multiset{QueueItem(c, n)}, g[n := t])
  {
    var g2 := g[n := t];
    var heap2 := heap + multiset{QueueItem(c, n)};
    forall k | k in g2 && k != u ensures Settled(vertices, distance, g2, k) || Queued(heap2, k) {
      if k == n {
        assert QueueItem(c, n) in heap2;
      } else if Settled(vertices, distance, g, k) {
        forall m | m in Neighbours(vertices, k) ensures ScoreOrMax(g2, m) <= g2[k] + distance(k, m) {
        }
      } else {
        var c' :| QueueItem(c', k) in heap;
        assert QueueItem(c', k) in heap2;
      }
    }
  }

  /** The neighbours of `u` relaxed so far stay relaxed, `n` among them. */
  lemma RelaxProcessed(vertices: map<Pos, set<Pos>>, distance: (Pos, Pos) -> int, g: map<Pos, int>,
                       u: Pos, remaining: set<Pos>, n: Pos, t: int)
    requires u in g && u != n && t == g[u] + distance(u, n) && t < ScoreOrMax(g, n)
    requires Relaxed(vertices, distance, g, u, Neighbours(vertices, u) - remaining)
    ensures u in g[n := t] && Relaxed(vertices, distance, g[n := t], u, Neighbours(vertices, u) - (remaining - {n}))
  {
  }

  /** One relaxation inside the scan of `u`'s neighbours. */
  lemma AStarRelax(vertices: map<Pos, set<Pos>>, start: Pos, distance: (Pos, Pos) -> int, heap: multiset<QueueItem>,
                   g: map<Pos, int>, walks: map<Pos, seq<Pos>>, path: map<Pos, Node>, path0: map<Pos, Node>,
                   u: Pos, remaining: set<Pos>, n: Pos, t: int, c: int)
    requires AStarInner(vertices, start, distance, heap, g, walks, path, path0, u, remaining)
    requires n in remaining && t == g[u] + distance(u, n) && t < ScoreOrMax(g, n)
    ensures AStarInner(vertices, start, distance, heap + multiset{QueueItem(c, n)}, g[n := t],
                       walks[n := walks[u] + [n]], path[n := Node(n, Some(u))], path0, u, remaining - {n})
    ensures n in Universe(vertices, start) && n != u
  {
    RelaxCore(vertices, start, distance, g, walks, path, path0, u, n, t);
    RelaxSettled(vertices, distance, heap, g, u, n, t, c);
    RelaxProcessed(vertices, distance, g, u, remaining, n, t);
  }

  /** A neighbour whose score the tentative one does not beat needs nothing. */
  lemma AStarSkip(vertices: map<Pos, set<Pos>>, start: Pos, distance: (Pos, Pos) -> int, heap: multiset<QueueItem>,
                  g: map<Pos, int>, walks: map<Pos, seq<Pos>>, path: map<Pos, Node>, path0: map<Pos, Node>,
                  u: Pos, remaining: set<Pos>, n: Pos)
    requires AStarInner(vertices, start, distance, heap, g, walks, path, path0, u, remaining)
    requires n in remaining && g[u] + distance(u, n) >= ScoreOrMax(g, n)
    ensures AStarInner(vertices, start, distance, heap, g, walks, path, path0, u, remaining - {n})
  {
  }

  /** Once every neighbour of `u` is relaxed, `u` is settled. */
  lemma AStarFinish(vertices: map<Pos, set<Pos>>, start: Pos, distance: (Pos, Pos) -> int, heap: multiset<QueueItem>,
                    g: map<Pos, int>, walks: map<Pos, seq<Pos>>, path: map<Pos, Node>, path0: map<Pos, Node>, u: Pos)
    requires AStarInner(vertices, start, distance, heap, g, walks, path, path0, u, {})
    ensures AStarOuter(vertices, start, distance, heap, g, walks, path, path0)
  {
    assert Settled(vertices, distance, g, u);
  }

  /**
   * When the heap runs dry every scored position is settled, so no walk from
   * `start` is cheaper than the score at its end (`i32::MAX` where unscored).
   */
  lemma {:induction false} SettledScoresAreLowerBounds(vertices: map<Pos, set<Pos>>, start: Pos, distance: (Pos, Pos) -> int,
                                                      g: map<Pos, int>, w: seq<Pos>)
    requires NonNegative(distance) && start in g && g[start] == 0
    requires forall k :: k in g ==> g[k] <= I32_MAX && Settled(vertices, distance, g, k)
    requires IsWalk(vertices, w) && w[0] == start
    ensures ScoreOrMax(g, w[|w| - 1]) <= Cost(distance, w)
    decreases |w|
  {
    if |w| > 1 {
      var v := w[..|w| - 1];
      WalkPrefix(vertices, w, |w| - 1);
      SettledScoresAreLowerBounds(vertices, start, distance, g, v);
      assert w[|w| - 1] in Neighbours(vertices, w[|w| - 2]);
      assert v[|v| - 1] == w[|w| - 2];
      assert distance(w[|w| - 2], w[|w| - 1]) >= 0;
    }
  }

  /** After an exhausting run each score is the cheapest cost of any walk from `start` to that position. */
  lemma ExhaustedScoresAreOptimal(vertices: map<Pos, set<Pos>>, start: Pos, distance: (Pos, Pos) -> int,
                                  g: map<Pos, int>, k: Pos)
    requires NonNegative(distance) && start in g && g[start] == 0
    requires forall k :: k in g ==> g[k] <= I32_MAX && Settled(vertices, distance, g, k)
    requires k in g && exists w :: Witness(vertices, distance, start, k, g[k], w)
    ensures exists w :: Witness(vertices, distance, start, k, g[k], w)
    ensures forall w :: IsWalk(vertices, w) && w[0] == start && w[|w| - 1] == k ==> g[k] <= Cost(distance, w)
  {
    forall w | IsWalk(vertices, w) && w[0] == start && w[|w| - 1] == k ensures g[k] <= Cost(distance, w) {
      SettledScoresAreLowerBounds(vertices, start, distance, g, w);
    }
  }

  /**
   * What the `for neighbor in edges` loop of `astar` may change, from the
   * scores `g0`, path map `p0` and heap `q0` it started with: scores only
   * fall, and only those of neighbours change; the path map only gains or
   * rewrites entries of neighbours, each pointing back to `u`; the heap only
   * gains entries, all for neighbours.
   */
  ghost predicate Frame(edges: set<Pos>, u: Pos, g0: map<Pos, int>, g: map<Pos, int>, p0: map<Pos, Node>,
                        p: map<Pos, Node>, q0: multiset<QueueItem>, q: multiset<QueueItem>)
  {
    && (forall k :: k in g0 ==> k in g && g[k] <= g0[k])
    && (forall k :: k in g && k !in edges ==> k in g0 && g[k] == g0[k])
    && (forall k :: k in p0 ==> k in p)
    && (forall k :: k in p && k !in edges ==> k in p0 && p[k] == p0[k])
    && (forall k :: k in p && (k !in p0 || p[k] != p0[k]) ==> p[k] == Node(k, Some(u)))
    && q0 <= q && (forall it :: it in q - q0 ==> it.position in edges)
  }

  /** Relax, on top of any stretch of the loop that kept Frame, keeps it. */
  lemma RelaxFrame(edges: set<Pos>, position: Pos, neighbor: Pos, d: int, h: int, g0: map<Pos, int>,
                   p0: map<Pos, Node>, q0: multiset<QueueItem>, queue: multiset<QueueItem>, gScore: map<Pos, int>,
                   path: map<Pos, Node>)
    requires position in gScore && neighbor in edges
    requires Frame(edges, position, g0, gScore, p0, path, q0, queue)
    ensures var r := Relax(position, neighbor, d, h, queue, gScore, path);
            Frame(edges, position, g0, r.1, p0, r.2, q0, r.0)
  {
    var r := Relax(position, neighbor, d, h, queue, gScore, path);
    forall it | it in r.0 - q0 ensures it.position in edges {
      if it !in queue - q0 {
        assert it.position == neighbor;
      }
    }
  }

  /**
   * Every heap entry the `for neighbor in edges` loop of `astar` has pushed
   * beyond `q0` is for a scanned neighbour, and costs that neighbour's score
   * plus the heuristic from it to `end`.
   */
  ghost predicate Priced(q0: multiset<QueueItem>, q: multiset<QueueItem>, g: map<Pos, int>,
                         heuristic: (Pos, Pos) -> int, end: Pos, scanned: set<Pos>)
  {
    forall it :: it in q - q0 ==>
      it.position in scanned && it.position in g && it.cost == g[it.position] + heuristic(it.position, end)
  }

  /** Relaxing a neighbour not yet scanned, with `h` its heuristic, keeps Priced. */
  lemma RelaxPriced(edges: set<Pos>, remaining: set<Pos>, position: Pos, neighbor: Pos, d: int, h: int,
                    heuristic: (Pos, Pos) -> int, end: Pos, q0: multiset<QueueItem>, queue: multiset<QueueItem>,
                    gScore: map<Pos, int>, path: map<Pos, Node>)
    requires position in gScore && neighbor in remaining && remaining <= edges && h == heuristic(neighbor, end)
    requires Priced(q0, queue, gScore, heuristic, end, edges - remaining)
    ensures var r := Relax(position, neighbor, d, h, queue, gScore, path);
            Priced(q0, r.0, r.1, heuristic, end, edges - (remaining - {neighbor}))
  {
    var r := Relax(position, neighbor, d, h, queue, gScore, path);
    forall it | it in r.0 - q0
      ensures it.position in edges - (remaining - {neighbor}) && it.position in r.1
      ensures it.cost == r.1[it.position] + heuristic(it.position, end)
    {
      if it !in queue - q0 {
        assert it == QueueItem(gScore[position] + d + h, neighbor);
      }
    }
  }

  /** Position `k` has the score, path entry and (absent) heap entries it had before the loop. */
  ghost predicate Untouched(k: Pos, g0: map<Pos, int>, g: map<Pos, int>, p0: map<Pos, Node>, p: map<Pos, Node>,
                            q0: multiset<QueueItem>, q: multiset<QueueItem>)
  {
    && (k in g <==> k in g0) && (k in g ==> g[k] == g0[k])
    && (k in p <==> k in p0) && (k in p ==> p[k] == p0[k])
    && (forall it :: it in q - q0 ==> it.position != k)
  }

  /**
   * The outcome of relaxing neighbour `k` with tentative score `t` and heap
   * cost `c`: when `t` beats `k`'s score before the loop, `k` has score `t`,
   * a path entry pointing back to `u` and the heap entry QueueItem(c, k);
   * otherwise `k` is untouched.
   */
  ghost predicate Outcome(k: Pos, t: int, c: int, u: Pos, g0: map<Pos, int>, g: map<Pos, int>,
                          p0: map<Pos, Node>, p: map<Pos, Node>, q0: multiset<QueueItem>, q: multiset<QueueItem>)
  {
    if t < ScoreOrMax(g0, k) then
      k in g && g[k] == t && k in p && p[k] == Node(k, Some(u)) && QueueItem(c, k) in q - q0
    else
      Untouched(k, g0, g, p0, p, q0, q)
  }

  /**
   * Once `remaining` is left to scan, the `for neighbor in edges` loop of
   * `astar` has kept `u`'s score, given every scanned neighbour its Outcome,
   * left every unscanned one untouched, and pushed no heap entry twice.
   */
  ghost predicate Outcomes(edges: set<Pos>, remaining: set<Pos>, u: Pos, distance: (Pos, Pos) -> int,
                           heuristic: (Pos, Pos) -> int, end: Pos, g0: map<Pos, int>, g: map<Pos, int>,
                           p0: map<Pos, Node>, p: map<Pos, Node>, q0: multiset<QueueItem>, q: multiset<QueueItem>)
  {
    && u in g0 && u in g && g[u] == g0[u]
    && (forall k :: k in edges && k !in remaining ==>
          Outcome(k, g0[u] + distance(u, k), g0[u] + distance(u, k) + heuristic(k, end), u, g0, g, p0, p, q0, q))
    && (forall k :: k in remaining ==> Untouched(k, g0, g, p0, p, q0, q))
    && (forall it :: (q - q0)[it] <= 1)
  }

  /** Relaxing an unscanned neighbour, with `d` its distance and `h` its heuristic, keeps Outcomes. */
  lemma RelaxOutcomes(edges: set<Pos>, remaining: set<Pos>, position: Pos, neighbor: Pos, d: int, h: int,
                      distance: (Pos, Pos) -> int, heuristic: (Pos, Pos) -> int, end: Pos, g0: map<Pos, int>,
                      p0: map<Pos, Node>, q0: multiset<QueueItem>, queue: multiset<QueueItem>,
                      gScore: map<Pos, int>, path: map<Pos, Node>)
    requires NonNegative(distance) && neighbor in remaining && q0 <= queue
    requires d == distance(position, neighbor) && h == heuristic(neighbor, end)
    requires Outcomes(edges, remaining, position, distance, heuristic, end, g0, gScore, p0, path, q0, queue)
    ensures var r := Relax(position, neighbor, d, h, queue, gScore, path);
            Outcomes(edges, remaining - {neighbor}, position, distance, heuristic, end, g0, r.1, p0, r.2, q0, r.0)
  {
    if gScore[position] + d < ScoreOrMax(gScore, neighbor) {
      RelaxOutcomesWin(edges, remaining, position, neighbor, d, h, distance, heuristic, end, g0, p0, q0, queue,
                       gScore, path);
    } else {
      assert Untouched(neighbor, g0, gScore, p0, path, q0, queue);
    }
  }

  /** The winning case of RelaxOutcomes. */
  lemma RelaxOutcomesWin(edges: set<Pos>, remaining: set<Pos>, position: Pos, neighbor: Pos, d: int, h: int,
                         distance: (Pos, Pos) -> int, heuristic: (Pos, Pos) -> int, end: Pos, g0: map<Pos, int>,
                         p0: map<Pos, Node>, q0: multiset<QueueItem>, queue: multiset<QueueItem>,
                         gScore: map<Pos, int>, path: map<Pos, Node>)
    requires NonNegative(distance) && neighbor in remaining && q0 <= queue
    requires d == distance(position, neighbor) && h == heuristic(neighbor, end)
    requires Outcomes(edges, remaining, position, distance, heuristic, end, g0, gScore, p0, path, q0, queue)
    requires gScore[position] + d < ScoreOrMax(gScore, neighbor)
    ensures var r := Relax(position, neighbor, d, h, queue, gScore, path);
            Outcomes(edges, remaining - {neighbor}, position, distance, heuristic, end, g0, r.1, p0, r.2, q0, r.0)
  {
    var r := Relax(position, neighbor, d, h, queue, gScore, path);
    var t := gScore[position] + d;
    assert Untouched(neighbor, g0, gScore, p0, path, q0, queue);
    assert d >= 0;
    assert neighbor != position;
    RelaxWins(position, neighbor, d, h, t, t + h, queue, gScore, path);
    var item := QueueItem(t + h, neighbor);
    forall it ensures (r.0 - q0)[it] == (queue - q0)[it] + (if it == item then 1 else 0) {
    }
    forall k | k in edges && k !in remaining - {neighbor}
      ensures Outcome(k, g0[position] + distance(position, k), g0[position] + distance(position, k) + heuristic(k, end),
                      position, g0, r.1, p0, r.2, q0, r.0)
    {
      if k != neighbor {
        assert k !in remaining;
      }
    }
  }

  /**
   * What the `for neighbor in edges` loop of `astar` has done once only
   * `remaining` is left to scan, from the scores `g0`, path map `p0` and
   * heap `q0` it started with: Frame, Priced and Outcomes together.
   */
  ghost predicate RelaxLoop(edges: set<Pos>, remaining: set<Pos>, u: Pos, distance: (Pos, Pos) -> int,
                            heuristic: (Pos, Pos) -> int, end: Pos, g0: map<Pos, int>, g: map<Pos, int>,
                            p0: map<Pos, Node>, p: map<Pos, Node>, q0: multiset<QueueItem>, q: multiset<QueueItem>)
  {
    && remaining <= edges
    && Frame(edges, u, g0, g, p0, p, q0, q)
    && Priced(q0, q, g, heuristic, end, edges - remaining)
    && Outcomes(edges, remaining, u, distance, heuristic, end, g0, g, p0, p, q0, q)
  }

  /** Relaxing an unscanned neighbour, with `d` its distance and `h` its heuristic, keeps RelaxLoop. */
  lemma RelaxLoopStep(edges: set<Pos>, remaining: set<Pos>, position: Pos, neighbor: Pos, d: int, h: int,
                      distance: (Pos, Pos) -> int, heuristic: (Pos, Pos) -> int, end: Pos, g0: map<Pos, int>,
                      p0: map<Pos, Node>, q0: multiset<QueueItem>, queue: multiset<QueueItem>,
                      gScore: map<Pos, int>, path: map<Pos, Node>)
    requires NonNegative(distance) && neighbor in remaining
    requires d == distance(position, neighbor) && h == heuristic(neighbor, end)
    requires RelaxLoop(edges, remaining, position, distance, heuristic, end, g0, gScore, p0, path, q0, queue)
    ensures var r := Relax(position, neighbor, d, h, queue, gScore, path);
            RelaxLoop(edges, remaining - {neighbor}, position, distance, heuristic, end, g0, r.1, p0, r.2, q0, r.0)
  {
    var r := Relax(position, neighbor, d, h, queue, gScore, path);
    assert Frame(edges, position, g0, r.1, p0, r.2, q0, r.0) by {
      RelaxFrame(edges, position, neighbor, d, h, g0, p0, q0, queue, gScore, path);
    }
    assert Priced(q0, r.0, r.1, heuristic, end, edges - (remaining - {neighbor})) by {
      RelaxPriced(edges, remaining, position, neighbor, d, h, heuristic, end, q0, queue, gScore, path);
    }
    assert Outcomes(edges, remaining - {neighbor}, position, distance, heuristic, end, g0, r.1, p0, r.2, q0, r.0) by {
      RelaxOutcomes(edges, remaining, position, neighbor, d, h, distance, heuristic, end, g0, p0, q0, queue,
                    gScore, path);
    }
  }

  /** A finished loop, in the terms of the contract of RelaxNeighbours. */
  lemma RelaxLoopDone(edges: set<Pos>, u: Pos, distance: (Pos, Pos) -> int, heuristic: (Pos, Pos) -> int, end: Pos,
                      g0: map<Pos, int>, g: map<Pos, int>, p0: map<Pos, Node>, p: map<Pos, Node>,
                      q0: multiset<QueueItem>, q: multiset<QueueItem>)
    requires RelaxLoop(edges, {}, u, distance, heuristic, end, g0, g, p0, p, q0, q)
    ensures forall k :: k in g0 ==> k in g && g[k] <= g0[k]
    ensures forall k :: k in g && k !in edges ==> k in g0 && g[k] == g0[k]
    ensures forall k :: k in p0 ==> k in p
    ensures forall k :: k in p && k !in edges ==> k in p0 && p[k] == p0[k]
    ensures forall k :: k in p && (k !in p0 || p[k] != p0[k]) ==> p[k] == Node(k, Some(u))
    ensures q0 <= q && forall it :: it in q - q0 ==> it.position in edges
    ensures forall it :: it in q - q0 ==> it.position in g && it.cost == g[it.position] + heuristic(it.position, end)
    ensures forall k :: k in edges ==>
              Outcome(k, g0[u] + distance(u, k), g0[u] + distance(u, k) + heuristic(k, end), u, g0, g, p0, p, q0, q)
    ensures forall it :: (q - q0)[it] <= 1
  {
  }

  /**
   * The relaxation rule of the `for neighbor in edges` loop of `astar`, given
   * the step's distance `d` and the heuristic `h` from `neighbor` to `end`:
   * when the tentative score through `position` beats the stored one
   * (`i32::MAX` when absent), `neighbor` gets a path entry pointing back to
   * `position`, the tentative score and a heap entry costing it plus `h`;
   * otherwise nothing changes.
   */
  function Relax(position: Pos, neighbor: Pos, d: int, h: int,
                 queue: multiset<QueueItem>, gScore: map<Pos, int>, path: map<Pos, Node>)
    : (r: (multiset<QueueItem>, map<Pos, int>, map<Pos, Node>))
    requires position in gScore
    ensures gScore[position] + d < ScoreOrMax(gScore, neighbor) ==>
              r == (queue + multiset{QueueItem(gScore[position] + d + h, neighbor)},
                    gScore[neighbor := gScore[position] + d], path[neighbor := Node(neighbor, Some(position))])
    ensures gScore[position] + d >= ScoreOrMax(gScore, neighbor) ==> r == (queue, gScore, path)
  {
    var tentativeGScore := gScore[position] + d;
    if tentativeGScore < ScoreOrMax(gScore, neighbor) then
      (queue + multiset{QueueItem(tentativeGScore + h, neighbor)},
       gScore[neighbor := tentativeGScore],
       path[neighbor := Node(neighbor, Some(position))])
    else
      (queue, gScore, path)
  }

  /**
   * One pass of the `for neighbor in edges` loop of `astar` keeps the A*
   * invariant: Relax, with the ghost walk to `neighbor` extended when it is
   * relaxed. A relaxation strictly lowers the sum of scores over `vs`.
   */
  lemma RelaxNeighbour(vertices: map<Pos, set<Pos>>, start: Pos, distance: (Pos, Pos) -> int, position: Pos,
                       neighbor: Pos, d: int, h: int, queue: multiset<QueueItem>, gScore: map<Pos, int>,
                       path: map<Pos, Node>, walks: map<Pos, seq<Pos>>, walks': map<Pos, seq<Pos>>,
                       path0: map<Pos, Node>, vs: seq<Pos>, remaining: set<Pos>)
    requires neighbor in remaining
    requires AStarInner(vertices, start, distance, queue, gScore, walks, path, path0, position, remaining)
    requires forall x :: x in Universe(vertices, start) ==> x in vs
    requires d == distance(position, neighbor)
    requires walks' == if gScore[position] + d < ScoreOrMax(gScore, neighbor)
                       then walks[neighbor := walks[position] + [neighbor]] else walks
    ensures var r := Relax(position, neighbor, d, h, queue, gScore, path);
            && AStarInner(vertices, start, distance, r.0, r.1, walks', r.2, path0, position, remaining - {neighbor})
            && (r == (queue, gScore, path) || PotSum(vs, r.1) < PotSum(vs, gScore))
  {
    var r := Relax(position, neighbor, d, h, queue, gScore, path);
    if gScore[position] + d < ScoreOrMax(gScore, neighbor) {
      RelaxAccepted(vertices, start, distance, position, neighbor, d, h, queue, gScore, path, walks, path0, remaining);
      assert PotSum(vs, r.1) < PotSum(vs, gScore) by {
        NeighbourInUniverse(vertices, start, position, neighbor);
        RelaxLowersPotSum(vs, position, neighbor, d, h, queue, gScore, path);
      }
    } else {
      assert r == (queue, gScore, path);
      assert AStarInner(vertices, start, distance, queue, gScore, walks, path, path0, position, remaining - {neighbor}) by {
        AStarSkip(vertices, start, distance, queue, gScore, walks, path, path0, position, remaining, neighbor);
      }
    }
  }

  /** The winning case of Relax, as a fact at the call site: `t` is the new score, `c` the queued cost. */
  lemma RelaxWins(position: Pos, neighbor: Pos, d: int, h: int, t: int, c: int,
                  queue: multiset<QueueItem>, gScore: map<Pos, int>, path: map<Pos, Node>)
    requires position in gScore && t == gScore[position] + d && c == t + h && t < ScoreOrMax(gScore, neighbor)
    ensures var r := Relax(position, neighbor, d, h, queue, gScore, path);
            && r.0 == queue + multiset{QueueItem(c, neighbor)}
            && r.1 == gScore[neighbor := t]
            && r.2 == path[neighbor := Node(neighbor, Some(position))]
  {
  }

  /** A winning Relax keeps the A* invariant, with the walk to `neighbor` extended through `position`. */
  lemma RelaxAccepted(vertices: map<Pos, set<Pos>>, start: Pos, distance: (Pos, Pos) -> int, position: Pos,
                      neighbor: Pos, d: int, h: int, queue: multiset<QueueItem>, gScore: map<Pos, int>,
                      path: map<Pos, Node>, walks: map<Pos, seq<Pos>>, path0: map<Pos, Node>, remaining: set<Pos>)
    requires neighbor in remaining && d == distance(position, neighbor)
    requires AStarInner(vertices, start, distance, queue, gScore, walks, path, path0, position, remaining)
    requires gScore[position] + d < ScoreOrMax(gScore, neighbor)
    ensures var r := Relax(position, neighbor, d, h, queue, gScore, path);
            AStarInner(vertices, start, distance, r.0, r.1, walks[neighbor := walks[position] + [neighbor]], r.2,
                       path0, position, remaining - {neighbor})
  {
    var t := gScore[position] + d;
    var c := t + h;
    AStarRelax(vertices, start, distance, queue, gScore, walks, path, path0, position, remaining, neighbor, t, c);
    RelaxWins(position, neighbor, d, h, t, c, queue, gScore, path);
  }

  /** In the winning case, Relax strictly lowers the sum of scores over `vs`. */
  lemma RelaxLowersPotSum(vs: seq<Pos>, position: Pos, neighbor: Pos, d: int, h: int,
                          queue: multiset<QueueItem>, gScore: map<Pos, int>, path: map<Pos, Node>)
    requires position in gScore && gScore[position] + d < ScoreOrMax(gScore, neighbor) && neighbor in vs
    ensures PotSum(vs, Relax(position, neighbor, d, h, queue, gScore, path).1) < PotSum(vs, gScore)
  {
    var t := gScore[position] + d;
    RelaxWins(position, neighbor, d, h, t, t + h, queue, gScore, path);
    PotSumDecreases(vs, gScore, neighbor, t);
  }

  /**
   * What the `for w in edges` loop of `bfs` has done once only `remaining`
   * is left to scan, from the visited set `visited0`, parent map `m0` and
   * queue `q0` it started with: the scanned neighbours are now visited; old
   * parent entries stand and new ones point to `u`; the old queue is a
   * prefix, and what follows it are the scanned neighbours that were
   * unvisited, as many as there were.
   */
  ghost predicate ScanFrame(edges: set<Pos>, remaining: set<Pos>, u: Pos, visited0: set<Pos>, visited: set<Pos>,
                            m0: map<Pos, Node>, m: map<Pos, Node>, q0: seq<Pos>, q: seq<Pos>)
  {
    && remaining <= edges && visited == visited0 + (edges - remaining)
    && (forall k :: k in m0 ==> k in m && m[k] == m0[k])
    && (forall k :: k in m && k !in m0 ==> m[k] == Node(k, Some(u)))
    && |q0| <= |q| && (forall i :: 0 <= i < |q0| ==> q[i] == q0[i])
    && (forall i :: |q0| <= i < |q| ==> q[i] in (edges - remaining) - visited0)
    && |q| == |q0| + |(edges - remaining) - visited0|
  }

  /** Discovering an unvisited neighbour `w` keeps ScanFrame. */
  lemma ScanStep(edges: set<Pos>, remaining: set<Pos>, u: Pos, w: Pos, visited0: set<Pos>, visited: set<Pos>,
                 m0: map<Pos, Node>, m: map<Pos, Node>, q0: seq<Pos>, q: seq<Pos>)
    requires ScanFrame(edges, remaining, u, visited0, visited, m0, m, q0, q)
    requires w in remaining && w !in visited && w !in m
    ensures ScanFrame(edges, remaining - {w}, u, visited0, visited + {w}, m0, m[w := Node(w, Some(u))], q0, q + [w])
  {
    assert visited + {w} == visited0 + (edges - (remaining - {w}));
    assert (edges - (remaining - {w})) - visited0 == ((edges - remaining) - visited0) + {w};
  }

  /** Meeting an already visited neighbour `w` keeps ScanFrame. */
  lemma ScanSkip(edges: set<Pos>, remaining: set<Pos>, u: Pos, w: Pos, visited0: set<Pos>, visited: set<Pos>,
                 m0: map<Pos, Node>, m: map<Pos, Node>, q0: seq<Pos>, q: seq<Pos>)
    requires ScanFrame(edges, remaining, u, visited0, visited, m0, m, q0, q)
    requires w in remaining && w in visited
    ensures ScanFrame(edges, remaining - {w}, u, visited0, visited, m0, m, q0, q)
  {
    assert visited == visited0 + (edges - (remaining - {w}));
    assert (edges - (remaining - {w})) - visited0 == (edges - remaining) - visited0;
  }

  /** A finished scan: ScanFrame with nothing left, in terms of the whole neighbour set. */
  lemma ScanDone(edges: set<Pos>, u: Pos, visited0: set<Pos>, visited: set<Pos>, m0: map<Pos, Node>,
                 m: map<Pos, Node>, q0: seq<Pos>, q: seq<Pos>)
    requires ScanFrame(edges, {}, u, visited0, visited, m0, m, q0, q)
    ensures visited == visited0 + (edges - visited0)
    ensures forall k :: k in m0 ==> k in m && m[k] == m0[k]
    ensures forall k :: k in m && k !in m0 ==> m[k] == Node(k, Some(u))
    ensures |q0| <= |q| && q[..|q0|] == q0
    ensures forall i :: |q0| <= i < |q| ==> q[i] in edges - visited0
    ensures |q| == |q0| + |edges - visited0|
  {
    assert edges - {} == edges;
    assert q[..|q0|] == q0;
  }

  class Graph {
    var vertices: map<Pos, set<Pos>>
    var path: map<Pos, Node>

    /** The graph `GraphBuilder::build` hands out: the given adjacency and an empty path map. */
    constructor (vertices: map<Pos, set<Pos>>)
      ensures this.vertices == vertices && path == map[]
    {
      this.vertices := vertices;
      path := map[];
    }

    /** `get_path`: the path map A* has filled in so far. */
    function GetPath(): (r: map<Pos, Node>)
      reads this
      ensures r == path
    {
      path
    }

    /**
     * The `for w in edges` loop of `bfs`: every unvisited neighbour of `v` is
     * marked visited, queued at the back and given `v` as its parent.
     */
    method ScanNeighbours(start: Pos, end: Pos, v: Pos, queue: seq<Pos>, visited: set<Pos>, mapPath: map<Pos, Node>,
                          ghost depth: map<Pos, nat>, ghost done: set<Pos>)
        returns (queue': seq<Pos>, visited': set<Pos>, mapPath': map<Pos, Node>, ghost depth': map<Pos, nat>)
      requires v in vertices
      requires BfsInner(vertices, start, end, queue, visited, mapPath, depth, done, v, vertices[v])
      ensures BfsInner(vertices, start, end, queue', visited', mapPath', depth', done, v, {})
      ensures visited <= visited' && (visited' == visited ==> queue' == queue)
      ensures visited' == visited + (vertices[v] - visited)
      ensures forall k :: k in mapPath ==> k in mapPath' && mapPath'[k] == mapPath[k]
      ensures forall k :: k in mapPath' && k !in mapPath ==> mapPath'[k] == Node(k, Some(v))
      ensures |queue| <= |queue'| && queue'[..|queue|] == queue
      ensures forall i :: |queue| <= i < |queue'| ==> queue'[i] in vertices[v] - visited
      ensures |queue'| == |queue| + |vertices[v] - visited|
    {
      queue', visited', mapPath', depth' := queue, visited, mapPath, depth;
      var edges := vertices[v];
      var remaining := edges;
      while remaining != {}
        invariant BfsInner(vertices, start, end, queue', visited', mapPath', depth', done, v, remaining)
        invariant visited <= visited' && (visited' == visited ==> queue' == queue)
        invariant ScanFrame(edges, remaining, v, visited, visited', mapPath, mapPath', queue, queue')
        decreases remaining
      {
        var w :| w in remaining;
        if w !in visited' {
          assert && BfsInner(vertices, start, end, queue' + [w], visited' + {w}, mapPath'[w := Node(w, Some(v))],
                             depth'[w := depth'[v] + 1], done, v, remaining - {w})
                 && ScanFrame(edges, remaining - {w}, v, visited, visited' + {w}, mapPath, mapPath'[w := Node(w, Some(v))],
                              queue, queue' + [w]) by {
            BfsDiscover(vertices, start, end, queue', visited', mapPath', depth', done, v, remaining, w);
            ScanStep(edges, remaining, v, w, visited, visited', mapPath, mapPath', queue, queue');
          }
          visited' := visited' + {w};
          queue' := queue' + [w];
          mapPath' := mapPath'[w := Node(w, Some(v))];
          depth' := depth'[w := depth'[v] + 1];
        } else {
          assert ScanFrame(edges, remaining - {w}, v, visited, visited', mapPath, mapPath', queue, queue') by {
            ScanSkip(edges, remaining, v, w, visited, visited', mapPath, mapPath', queue, queue');
          }
        }
        remaining := remaining - {w};
      }
      ScanDone(edges, v, visited, visited', mapPath, mapPath', queue, queue');
    }

    /**
     * `bfs`: Some exactly when `end` is reachable from `start` (which includes
     * `end == start`); the map is then a parent tree rooted at `start` holding
     * `end`, and the ghost `depth` of every key is its distance from `start`.
     */
    method Bfs(start: Pos, end: Pos) returns (r: Option<map<Pos, Node>>, ghost depth: map<Pos, nat>)
      ensures r.Some? <==> Reachable(vertices, start, end)
      ensures r.Some? ==> end in r.value && IsBfsTree(vertices, start, r.value, depth) && Shortest(vertices, start, depth)
    {
      var queue: seq<Pos> := [];
      var visited: set<Pos> := {};
      var mapPath: map<Pos, Node> := map[];
      visited := visited + {start};
      queue := [start] + queue;
      mapPath := mapPath[start := Node(start, None)];
      depth := map[start := 0];
      ghost var done: set<Pos> := {};
      ghost var universe := Universe(vertices, start);
      BfsInit(vertices, start, end);
      while queue != []
        invariant BfsOuter(vertices, start, end, queue, visited, mapPath, depth, done)
        invariant universe == Universe(vertices, start)
        decreases universe - visited, |queue|
      {
        ghost var before, visitedBefore := queue, visited;
        var v := queue[0];
        queue := queue[1..];
        if v == end {
          BfsFound(vertices, start, end, before, visited, mapPath, depth, done);
          return Some(mapPath), depth;
        }
        BfsPop(vertices, start, end, before, visited, mapPath, depth, done);
        if v in vertices {
          queue, visited, mapPath, depth := ScanNeighbours(start, end, v, queue, visited, mapPath, depth, done);
        }
        BfsFinish(vertices, start, end, queue, visited, mapPath, depth, done, v);
        done := done + {v};
        if visited != visitedBefore {
          ShrinkRest(universe, visitedBefore, visited);
        }
      }
      BfsExhausted(vertices, start, end, visited, mapPath, depth, done);
      return None, depth;
    }

    /** The `for neighbor in edges` loop of `astar`, over the neighbours of `position` in any order. */
    method RelaxNeighbours(start: Pos, end: Pos, heuristic: (Pos, Pos) -> int, distance: (Pos, Pos) -> int,
                           position: Pos, queue: multiset<QueueItem>, gScore: map<Pos, int>,
                           ghost walks: map<Pos, seq<Pos>>, ghost path0: map<Pos, Node>, ghost vs: seq<Pos>)
        returns (queue': multiset<QueueItem>, gScore': map<Pos, int>, ghost walks': map<Pos, seq<Pos>>)
      requires position in vertices
      requires AStarInner(vertices, start, distance, queue, gScore, walks, path, path0, position, vertices[position])
      requires forall x :: x in Universe(vertices, start) ==> x in vs
      modifies this`path
      ensures AStarInner(vertices, start, distance, queue', gScore', walks', path, path0, position, {})
      ensures (gScore' == gScore && queue' == queue) || PotSum(vs, gScore') < PotSum(vs, gScore)
      ensures forall k :: k in gScore ==> k in gScore' && gScore'[k] <= gScore[k]
      ensures forall k :: k in gScore' && k !in vertices[position] ==> k in gScore && gScore'[k] == gScore[k]
      ensures forall k :: k in old(path) ==> k in path
      ensures forall k :: k in path && k !in vertices[position] ==> k in old(path) && path[k] == old(path)[k]
      ensures forall k :: k in path && (k !in old(path) || path[k] != old(path)[k]) ==> path[k] == Node(k, Some(position))
      ensures queue <= queue' && forall it :: it in queue' - queue ==> it.position in vertices[position]
      ensures forall it :: it in queue' - queue ==>
                it.position in gScore' && it.cost == gScore'[it.position] + heuristic(it.position, end)
      ensures forall k :: k in vertices[position] ==>
                Outcome(k, gScore[position] + distance(position, k), gScore[position] + distance(position, k) + heuristic(k, end),
                        position, gScore, gScore', old(path), path, queue, queue')
      ensures forall it :: (queue' - queue)[it] <= 1
    {
      queue', gScore', walks' := queue, gScore, walks;
      var p := path;
      var edges := vertices[position];
      var remaining := edges;
      assert NonNegative(distance);
      while remaining != {}
        invariant AStarInner(vertices, start, distance, queue', gScore', walks', p, path0, position, remaining)
        invariant (gScore' == gScore && queue' == queue) || PotSum(vs, gScore') < PotSum(vs, gScore)
        invariant RelaxLoop(edges, remaining, position, distance, heuristic, end, gScore, gScore', path, p, queue, queue')
        decreases remaining
      {
        var neighbor :| neighbor in remaining;
        var d := distance(position, neighbor);
        var h := heuristic(neighbor, end);
        var r := Relax(position, neighbor, d, h, queue', gScore', p);
        ghost var walksNext := walks';
        if gScore'[position] + d < ScoreOrMax(gScore', neighbor) {
          walksNext := walks'[neighbor := walks'[position] + [neighbor]];
        }
        assert && AStarInner(vertices, start, distance, r.0, r.1, walksNext, r.2, path0, position, remaining - {neighbor})
               && ((r.1 == gScore' && r.0 == queue') || PotSum(vs, r.1) < PotSum(vs, gScore')) by {
          RelaxNeighbour(vertices, start, distance, position, neighbor, d, h, queue', gScore', p,
                         walks', walksNext, path0, vs, remaining);
        }
        assert RelaxLoop(edges, remaining - {neighbor}, position, distance, heuristic, end, gScore, r.1, path, r.2,
                         queue, r.0) by {
          RelaxLoopStep(edges, remaining, position, neighbor, d, h, distance, heuristic, end, gScore, path, queue,
                        queue', gScore', p);
        }
        queue', gScore', walks' := r.0, r.1, walksNext;
        p := r.2;
        remaining := remaining - {neighbor};
      }
      RelaxLoopDone(edges, position, distance, heuristic, end, gScore, gScore', path, p, queue, queue');
      path := p;
    }

    /**
     * `astar`: best-first search from `start` until `end` is popped or the
     * heap is empty. The ghost results are the final `g_score` map and whether
     * the heap ran dry. Every score is the cost of a real walk from `start`;
     * `path` only gains entries, one per scored position other than `start`,
     * each pointing to a scored parent; when the heap ran dry every score is
     * settled (see ExhaustedScoresAreOptimal), and otherwise `end` is scored.
     */
    method AStar(start: Pos, end: Pos, heuristic: (Pos, Pos) -> int, distance: (Pos, Pos) -> int)
        returns (ghost gScore: map<Pos, int>, ghost exhausted: bool)
      requires NonNegative(distance)
      modifies this`path
      ensures start in gScore && gScore[start] == 0
      ensures forall k :: k in gScore ==> 0 <= gScore[k] <= I32_MAX
      ensures forall k :: k in gScore ==> exists w :: Witness(vertices, distance, start, k, gScore[k], w)
      ensures path.Keys == old(path).Keys + (gScore.Keys - {start})
      ensures forall k :: k in old(path) && (k !in gScore || k == start) ==> path[k] == old(path)[k]
      ensures forall k :: k in gScore && k != start ==> PathEntry(vertices, distance, gScore, path, k)
      ensures exhausted ==> forall k :: k in gScore ==> Settled(vertices, distance, gScore, k)
      ensures !exhausted ==> end in gScore
    {
      var queue: multiset<QueueItem> := multiset{};
      var g: map<Pos, int> := map[];
      g := g[start := 0];
      queue := queue + multiset{QueueItem(if start in g then g[start] else 0, start)};
      ghost var walks: map<Pos, seq<Pos>> := map[start := [start]];
      ghost var path0 := path;
      ghost var vs := Enumerate(Universe(vertices, start));
      AStarInit(vertices, start, distance, path0);
      exhausted := true;
      PotSumNonNegative(vs, g);
      while queue != multiset{}
        invariant AStarOuter(vertices, start, distance, queue, g, walks, path, path0)
        invariant exhausted
        invariant PotSum(vs, g) >= 0
        decreases PotSum(vs, g), |queue|
      {
        TopExists(queue);
        var top :| IsTop(queue, top);
        ghost var before := queue;
        queue := queue - multiset{top};
        var position := top.position;
        if position == end {
          exhausted := false;
          break;
        }
        AStarPop(vertices, start, distance, before, g, walks, path, path0, top);
        if position in vertices {
          queue, g, walks := RelaxNeighbours(start, end, heuristic, distance, position, queue, g, walks, path0, vs);
        }
        AStarFinish(vertices, start, distance, queue, g, walks, path, path0, position);
        PotSumNonNegative(vs, g);
      }
      gScore := g;
      forall k | k in gScore ensures exists w :: Witness(vertices, distance, start, k, gScore[k], w) {
        assert Witness(vertices, distance, start, k, gScore[k], walks[k]);
      }
    }
  }
}
