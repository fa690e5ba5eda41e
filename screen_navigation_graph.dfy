/**
 * The screen navigation graph: a set of known screens and an adjacency map
 * from a screen to the screens one step away, with edges always inserted in
 * both directions, and a breadth-first search for the shortest path.
 */
module ScreenNavigation {
  import opened Wrappers

  type Screen = string

  /** Python's `defaultdict(set)`: a key that is absent reads as the empty set. */
  type Adjacency = map<Screen, set<Screen>>

  function Neighbours(g: Adjacency, s: Screen): set<Screen> {
    if s in g then g[s] else {}
  }

  // ------------------------------------------------------------------ paths

  /** Every consecutive pair of `p` is an edge. */
  ghost predicate IsWalk(g: Adjacency, p: seq<Screen>) {
    |p| > 0 && forall i :: 0 <= i < |p| - 1 ==> p[i + 1] in Neighbours(g, p[i])
  }

  ghost predicate IsPathBetween(g: Adjacency, p: seq<Screen>, s: Screen, t: Screen) {
    IsWalk(g, p) && p[0] == s && p[|p| - 1] == t
  }

  /** No screen occurs twice. */
  ghost predicate IsSimple(p: seq<Screen>) {
    forall i, j :: 0 <= i < j < |p| ==> p[i] != p[j]
  }

  ghost predicate Reachable(g: Adjacency, s: Screen, t: Screen) {
    exists p :: IsPathBetween(g, p, s, t)
  }

  /** `p` leads from `s` to `t` and no path between them has fewer hops. */
  ghost predicate IsShortestPath(g: Adjacency, p: seq<Screen>, s: Screen, t: Screen) {
    IsPathBetween(g, p, s, t) && forall q :: IsPathBetween(g, q, s, t) ==> |p| <= |q|
  }

  // ------------------------------------------------------------------ graph invariant

  ghost predicate Symmetric(g: Adjacency) {
    forall a, b :: b in Neighbours(g, a) ==> a in Neighbours(g, b)
  }

  /** Both ends of every edge are known screens. */
  ghost predicate EdgesWithin(screens: set<Screen>, g: Adjacency) {
    forall a :: Neighbours(g, a) != {} ==> a in screens && Neighbours(g, a) <= screens
  }

  ghost predicate WellFormed(screens: set<Screen>, g: Adjacency) {
    Symmetric(g) && EdgesWithin(screens, g)
  }

  /** The adjacency after `add_navigation(a, b)`: `b` joins `a`'s set, then `a` joins `b`'s. */
  function WithEdge(g: Adjacency, a: Screen, b: Screen): (r: Adjacency)
    ensures r.Keys == g.Keys + {a, b}
    ensures forall x, y :: y in Neighbours(r, x) <==>
      y in Neighbours(g, x) || (x == a && y == b) || (x == b && y == a)
  {
    var g1 := g[a := Neighbours(g, a) + {b}];
    g1[b := Neighbours(g1, b) + {a}]
  }

  /** Inserting an edge a second time changes nothing. */
  lemma WithEdgeIdempotent(g: Adjacency, a: Screen, b: Screen)
    ensures WithEdge(WithEdge(g, a, b), a, b) == WithEdge(g, a, b)
  {
    var r1 := WithEdge(g, a, b);
    SameAdjacency(WithEdge(r1, a, b), r1);
  }

  /** Two adjacency maps with the same keys and the same neighbour sets are equal. */
  lemma SameAdjacency(r1: Adjacency, r2: Adjacency)
    requires r1.Keys == r2.Keys
    requires forall x, y :: y in Neighbours(r1, x) <==> y in Neighbours(r2, x)
    ensures r1 == r2
  {
    forall x | x in r1 ensures r1[x] == r2[x] {
      assert Neighbours(r1, x) == Neighbours(r2, x);
    }
  }

  /** The edge is undirected: inserting it either way round gives the same graph. */
  lemma WithEdgeCommutes(g: Adjacency, a: Screen, b: Screen)
    ensures WithEdge(g, a, b) == WithEdge(g, b, a)
  {
    SameAdjacency(WithEdge(g, a, b), WithEdge(g, b, a));
  }

  /** Adding an edge keeps the graph symmetric and within the (enlarged) screen set. */
  lemma WithEdgeWellFormed(screens: set<Screen>, g: Adjacency, a: Screen, b: Screen)
    requires WellFormed(screens, g)
    ensures WellFormed(screens + {a, b}, WithEdge(g, a, b))
  {
    var r := WithEdge(g, a, b);
    var s := screens + {a, b};
    forall x, y | y in Neighbours(r, x) ensures x in Neighbours(r, y) {
      if y in Neighbours(g, x) {
        assert x in Neighbours(g, y);
      }
    }
    forall x | Neighbours(r, x) != {} ensures x in s && Neighbours(r, x) <= s {
      forall y | y in Neighbours(r, x) ensures x in s && y in s {
        if y in Neighbours(g, x) {
          assert Neighbours(g, x) != {};
        }
      }
      var y :| y in Neighbours(r, x);
    }
  }

  /** A change that leaves every neighbour set as it was keeps the graph well formed. */
  lemma SameNeighboursWellFormed(screens: set<Screen>, g: Adjacency, h: Adjacency)
    requires WellFormed(screens, g)
    requires forall x :: Neighbours(h, x) == Neighbours(g, x)
    ensures WellFormed(screens, h)
  {
  }

  /** Edges go both ways, so every path read backwards is a path. */
  lemma {:induction false} ReversedPath(g: Adjacency, p: seq<Screen>, s: Screen, t: Screen)
    requires Symmetric(g) && IsPathBetween(g, p, s, t)
    ensures IsPathBetween(g, Reverse(p), t, s)
  {
    var r := Reverse(p);
    forall i | 0 <= i < |r| - 1 ensures r[i + 1] in Neighbours(g, r[i]) {
      var j := |p| - 2 - i;
      assert r[i] == p[j + 1] && r[i + 1] == p[j];
      assert p[j + 1] in Neighbours(g, p[j]);
    }
  }

  function Reverse(p: seq<Screen>): (r: seq<Screen>)
    ensures |r| == |p|
    ensures forall i :: 0 <= i < |p| ==> r[i] == p[|p| - 1 - i]
  {
    seq(|p|, i requires 0 <= i < |p| => p[|p| - 1 - i])
  }

  lemma ReachableSymmetric(g: Adjacency, s: Screen, t: Screen)
    requires Symmetric(g)
    ensures Reachable(g, s, t) <==> Reachable(g, t, s)
  {
    if Reachable(g, s, t) {
      var p :| IsPathBetween(g, p, s, t);
      ReversedPath(g, p, s, t);
    }
    if Reachable(g, t, s) {
      var p :| IsPathBetween(g, p, t, s);
      ReversedPath(g, p, t, s);
    }
  }

  // ------------------------------------------------------------------ BFS bookkeeping

  function Last(p: seq<Screen>): Screen
    requires |p| > 0
  {
    p[|p| - 1]
  }

  /** The screens at the ends of the queued paths. */
  ghost function Ends(queue: seq<seq<Screen>>): set<Screen> {
    set i | 0 <= i < |queue| && |queue[i]| > 0 :: Last(queue[i])
  }

  lemma EndsPop(queue: seq<seq<Screen>>)
    requires |queue| > 0 && |queue[0]| > 0
    ensures Ends(queue) == {Last(queue[0])} + Ends(queue[1..])
  {
    forall x | x in Ends(queue) ensures x in {Last(queue[0])} + Ends(queue[1..]) {
      var i :| 0 <= i < |queue| && |queue[i]| > 0 && Last(queue[i]) == x;
      if i > 0 {
        assert queue[1..][i - 1] == queue[i];
      }
    }
    forall x | x in Ends(queue[1..]) ensures x in Ends(queue) {
      var i :| 0 <= i < |queue[1..]| && |queue[1..][i]| > 0 && Last(queue[1..][i]) == x;
      assert queue[1..][i] == queue[i + 1];
    }
  }

  lemma EndsPush(queue: seq<seq<Screen>>, p: seq<Screen>)
    requires |p| > 0
    ensures Ends(queue + [p]) == Ends(queue) + {Last(p)}
  {
    var q := queue + [p];
    forall x | x in Ends(q) ensures x in Ends(queue) + {Last(p)} {
      var i :| 0 <= i < |q| && |q[i]| > 0 && Last(q[i]) == x;
      if i < |queue| {
        assert q[i] == queue[i];
      }
    }
    forall x | x in Ends(queue) ensures x in Ends(q) {
      var i :| 0 <= i < |queue| && |queue[i]| > 0 && Last(queue[i]) == x;
      assert q[i] == queue[i];
    }
    assert q[|queue|] == p;
  }

  /** Every queued path is a shortest, simple path from `start` whose screens are all visited. */
  ghost predicate QueueSound(g: Adjacency, start: Screen, queue: seq<seq<Screen>>, visited: set<Screen>) {
    forall i :: 0 <= i < |queue| ==> SoundPath(g, start, queue[i], visited)
  }

  ghost predicate SoundPath(g: Adjacency, start: Screen, p: seq<Screen>, visited: set<Screen>) {
    |p| > 0 && IsShortestPath(g, p, start, Last(p)) && IsSimple(p) &&
    forall k :: 0 <= k < |p| ==> p[k] in visited
  }

  lemma QueuePush(g: Adjacency, start: Screen, queue: seq<seq<Screen>>, visited: set<Screen>,
                  p: seq<Screen>, more: set<Screen>)
    requires QueueSound(g, start, queue, visited) && SoundPath(g, start, p, visited + more)
    ensures QueueSound(g, start, queue + [p], visited + more)
  {
    var q := queue + [p];
    forall i | 0 <= i < |q| ensures SoundPath(g, start, q[i], visited + more) {
      if i < |queue| {
        assert q[i] == queue[i];
        assert SoundPath(g, start, queue[i], visited);
      }
    }
  }

  lemma QueuePop(g: Adjacency, start: Screen, queue: seq<seq<Screen>>, visited: set<Screen>)
    requires |queue| > 0 && QueueSound(g, start, queue, visited)
    ensures SoundPath(g, start, queue[0], visited) && QueueSound(g, start, queue[1..], visited)
  {
    forall i | 0 <= i < |queue| - 1 ensures SoundPath(g, start, queue[1..][i], visited) {
      assert queue[1..][i] == queue[i + 1];
    }
  }

  /** Queued path lengths lie between `len` and `len + 1`, in non-decreasing order. */
  ghost predicate LengthsWithin(queue: seq<seq<Screen>>, len: nat) {
    Layered(queue) && forall i :: 0 <= i < |queue| ==> len <= |queue[i]| <= len + 1
  }

  lemma LayeredPush(queue: seq<seq<Screen>>, p: seq<Screen>, len: nat)
    requires LengthsWithin(queue, len) && |p| == len + 1
    ensures LengthsWithin(queue + [p], len)
  {
    var q := queue + [p];
    forall i | 0 <= i < |q| ensures len <= |q[i]| <= len + 1 {
      if i < |queue| { assert q[i] == queue[i]; }
    }
    forall i, j | 0 <= i <= j < |q| ensures |q[i]| <= |q[j]| <= |q[i]| + 1 {
      if j < |queue| { assert q[i] == queue[i] && q[j] == queue[j]; }
      else if i < |queue| { assert q[i] == queue[i]; }
    }
  }

  lemma LayeredPop(queue: seq<seq<Screen>>)
    requires |queue| > 0 && Layered(queue)
    ensures LengthsWithin(queue[1..], |queue[0]|)
  {
    var q := queue[1..];
    forall i | 0 <= i < |q| ensures |queue[0]| <= |q[i]| <= |queue[0]| + 1 {
      assert q[i] == queue[i + 1];
    }
    forall i, j | 0 <= i <= j < |q| ensures |q[i]| <= |q[j]| <= |q[i]| + 1 {
      assert q[i] == queue[i + 1] && q[j] == queue[j + 1];
    }
  }

  /** Queued path lengths never decrease and span at most one hop. */
  ghost predicate Layered(queue: seq<seq<Screen>>) {
    forall i, j :: 0 <= i <= j < |queue| ==> |queue[i]| <= |queue[j]| <= |queue[i]| + 1
  }

  /** Every neighbour of an expanded screen has been visited. */
  ghost predicate Expanded(g: Adjacency, done: set<Screen>, visited: set<Screen>) {
    forall u :: u in done ==> Neighbours(g, u) <= visited
  }

  /** Every screen reachable from `start` in fewer than `len - 1` hops has been expanded. */
  ghost predicate LayerDone(g: Adjacency, start: Screen, done: set<Screen>, len: nat) {
    forall q :: IsWalk(g, q) && q[0] == start && |q| < len ==> Last(q) in done
  }

  /** All screens mentioned by `g`, plus `start`: a finite bound on what BFS can visit. */
  ghost function Universe(g: Adjacency, start: Screen): (u: set<Screen>)
    ensures start in u
    ensures forall x, y :: y in Neighbours(g, x) ==> y in u
  {
    var u := {start} + g.Keys + (set x, y | x in g && y in g[x] :: y);
    assert forall x, y :: y in Neighbours(g, x) ==> x in g && y in g[x];
    u
  }

  lemma CardDiff(u: set<Screen>, v: set<Screen>)
    requires v <= u
    ensures |u - v| == |u| - |v|
  {
    assert u == (u - v) + v;
    assert (u - v) * v == {};
  }

  lemma WalkPrefix(g: Adjacency, q: seq<Screen>, n: nat)
    requires IsWalk(g, q) && 0 < n <= |q|
    ensures IsWalk(g, q[..n])
  {
    var p := q[..n];
    forall i | 0 <= i < |p| - 1 ensures p[i + 1] in Neighbours(g, p[i]) {
      assert p[i] == q[i] && p[i + 1] == q[i + 1];
    }
  }

  lemma WalkExtend(g: Adjacency, p: seq<Screen>, next: Screen)
    requires IsWalk(g, p) && next in Neighbours(g, Last(p))
    ensures IsWalk(g, p + [next])
  {
    var q := p + [next];
    forall i | 0 <= i < |q| - 1 ensures q[i + 1] in Neighbours(g, q[i]) {
      if i < |p| - 1 {
        assert q[i] == p[i] && q[i + 1] == p[i + 1];
      }
    }
  }

  /** A walk from `start` no longer than the front path ends at a visited screen. */
  lemma ShortWalkVisited(g: Adjacency, start: Screen, done: set<Screen>, visited: set<Screen>,
                         q: seq<Screen>, len: nat)
    requires LayerDone(g, start, done, len) && Expanded(g, done, visited) && start in visited
    requires IsWalk(g, q) && q[0] == start
    ensures |q| <= len ==> Last(q) in visited
  {
    if 1 < |q| <= len {
      var pre := q[..|q| - 1];
      WalkPrefix(g, q, |q| - 1);
      assert q[|q| - 2] == Last(pre);
    }
  }

  /** Extending a front path by an unvisited neighbour gives a shortest, simple path. */
  lemma ExtendShortest(g: Adjacency, start: Screen, done: set<Screen>, visited: set<Screen>,
                       p: seq<Screen>, next: Screen)
    requires IsWalk(g, p) && p[0] == start && IsSimple(p)
    requires forall k :: 0 <= k < |p| ==> p[k] in visited
    requires LayerDone(g, start, done, |p|)
    requires Expanded(g, done, visited)
    requires start in visited && next !in visited
    requires next in Neighbours(g, Last(p))
    ensures SoundPath(g, start, p + [next], visited + {next})
  {
    var np := p + [next];
    WalkExtend(g, p, next);
    forall q | IsPathBetween(g, q, start, next) ensures |np| <= |q| {
      ShortWalkVisited(g, start, done, visited, q, |p|);
    }
    forall i, j | 0 <= i < j < |np| ensures np[i] != np[j] {
      if j == |p| {
        assert np[i] == p[i] && p[i] in visited;
      } else {
        assert np[i] == p[i] && np[j] == p[j];
      }
    }
    forall k | 0 <= k < |np| ensures np[k] in visited + {next} {
      if k < |p| { assert np[k] == p[k]; }
    }
  }

  /** After expanding the front path, the layer boundary moves to the new front. */
  lemma AdvanceLayer(g: Adjacency, start: Screen, done: set<Screen>, visited0: set<Screen>,
                     path: seq<Screen>, rest: seq<seq<Screen>>, queue: seq<seq<Screen>>)
    requires |path| > 0
    requires LayerDone(g, start, done, |path|)
    requires Expanded(g, done, visited0)
    requires start in visited0
    requires visited0 == done + {Last(path)} + Ends(rest)
    requires QueueSound(g, start, rest, visited0)
    requires |queue| > 0 && rest <= queue
    requires Layered(queue) && |path| <= |queue[0]| <= |path| + 1
    ensures LayerDone(g, start, done + {Last(path)}, |queue[0]|)
  {
    forall q | IsWalk(g, q) && q[0] == start && |q| < |queue[0]|
      ensures Last(q) in done + {Last(path)}
    {
      var v := Last(q);
      ShortWalkVisited(g, start, done, visited0, q, |path|);
      if |path| <= |q| {
        assert IsPathBetween(g, q, start, v);
        forall j | 0 <= j < |rest| && |rest[j]| > 0 ensures Last(rest[j]) != v {
          assert SoundPath(g, start, rest[j], visited0);
          assert queue[j] == rest[j];
          assert |queue[0]| <= |queue[j]|;
        }
        assert v !in Ends(rest);
      }
    }
  }

  /** A set that holds `start` and is closed under neighbours holds every screen reachable from it. */
  lemma {:induction false} ClosedHoldsReachable(g: Adjacency, start: Screen, s: set<Screen>, q: seq<Screen>)
    requires start in s && Expanded(g, s, s)
    requires IsWalk(g, q) && q[0] == start
    ensures Last(q) in s
    decreases |q|
  {
    if |q| > 1 {
      WalkPrefix(g, q, |q| - 1);
      ClosedHoldsReachable(g, start, s, q[..|q| - 1]);
      assert q[|q| - 2] == Last(q[..|q| - 1]);
    }
  }

  /** Bookkeeping for one newly visited screen: the sets and counts move together. */
  lemma VisitStep(queue0: seq<seq<Screen>>, queue: seq<seq<Screen>>, np: seq<Screen>,
                  visited0: set<Screen>, visited: set<Screen>, added: set<Screen>, next: Screen)
    requires |np| > 0 && Last(np) == next && next !in visited
    requires visited == visited0 + added && Ends(queue) == Ends(queue0) + added
    requires Ends(queue + [np]) == Ends(queue) + {next}
    requires |visited| == |visited0| + |queue| - |queue0| && queue0 <= queue
    ensures visited + {next} == visited0 + (added + {next})
    ensures Ends(queue + [np]) == Ends(queue0) + (added + {next})
    ensures |visited + {next}| == |visited0| + |queue + [np]| - |queue0|
    ensures queue0 <= queue + [np]
  {
  }

  /** The only shortest path from a screen to itself is that screen alone. */
  lemma TrivialShortest(g: Adjacency, p: seq<Screen>, s: Screen)
    requires IsShortestPath(g, p, s, s)
    ensures p == [s]
  {
    assert IsPathBetween(g, [s], s, s);
  }

  /** Set bookkeeping for one finished screen of the breadth-first search. */
  lemma FinishStep(g: Adjacency, done: set<Screen>, current: Screen, visited0: set<Screen>,
                   rest: seq<seq<Screen>>, visited: set<Screen>, added: set<Screen>,
                   queue: seq<seq<Screen>>)
    requires visited0 == done + ({current} + Ends(rest))
    requires visited == visited0 + added && Ends(queue) == Ends(rest) + added
    requires Expanded(g, done, visited0) && Neighbours(g, current) <= visited
    ensures visited == (done + {current}) + Ends(queue)
    ensures Expanded(g, done + {current}, visited)
  {
  }

  /** What the breadth-first search keeps true between two dequeues. */
  ghost predicate SearchInv(g: Adjacency, start: Screen, target: Screen, queue: seq<seq<Screen>>,
                            visited: set<Screen>, done: set<Screen>, universe: set<Screen>) {
    universe == Universe(g, start) && visited <= universe &&
    QueueSound(g, start, queue, visited) && Layered(queue) &&
    visited == done + Ends(queue) && Expanded(g, done, visited) &&
    target !in done && start in visited &&
    (queue != [] ==> LayerDone(g, start, done, |queue[0]|))
  }

  lemma SearchStart(g: Adjacency, start: Screen, target: Screen)
    ensures SearchInv(g, start, target, [[start]], {start}, {}, Universe(g, start))
  {
    assert Ends([[start]]) == {start} by {
      assert Last([[start]][0]) == start;
    }
    assert IsPathBetween(g, [start], start, start);
  }

  /** Once the queue is empty every screen reachable from `start` is done, so `target` is not. */
  lemma SearchExhausted(g: Adjacency, start: Screen, target: Screen, visited: set<Screen>,
                        done: set<Screen>, universe: set<Screen>)
    requires SearchInv(g, start, target, [], visited, done, universe)
    ensures !Reachable(g, start, target)
  {
    assert Ends([]) == {};
    assert start in done;
    forall p ensures !IsPathBetween(g, p, start, target) {
      if IsWalk(g, p) && p[0] == start {
        ClosedHoldsReachable(g, start, done, p);
      }
    }
  }

  /** After the front path's neighbours are enqueued the search invariant holds again. */
  lemma FrontStep(g: Adjacency, start: Screen, target: Screen, path: seq<Screen>,
                  rest: seq<seq<Screen>>, visited0: set<Screen>, done0: set<Screen>,
                  universe: set<Screen>, queue: seq<seq<Screen>>, visited: set<Screen>,
                  added: set<Screen>)
    requires |path| > 0 && Last(path) != target
    requires universe == Universe(g, start) && visited0 <= universe
    requires visited0 == done0 + ({Last(path)} + Ends(rest))
    requires Expanded(g, done0, visited0) && target !in done0 && start in visited0
    requires LayerDone(g, start, done0, |path|) && QueueSound(g, start, rest, visited0)
    requires Neighbours(g, Last(path)) <= visited <= visited0 + Neighbours(g, Last(path))
    requires visited == visited0 + added && Ends(queue) == Ends(rest) + added
    requires rest <= queue
    requires QueueSound(g, start, queue, visited) && LengthsWithin(queue, |path|)
    ensures SearchInv(g, start, target, queue, visited, done0 + {Last(path)}, universe)
  {
    if queue != [] {
      AdvanceLayer(g, start, done0, visited0, path, rest, queue);
    }
    FinishStep(g, done0, Last(path), visited0, rest, visited, added, queue);
  }

  /**
   * One round of the search loop: dequeue the front path, stop with it when it ends at
   * the target, otherwise enqueue its unvisited neighbours.
   */
  method VisitFront(g: Adjacency, start: Screen, target: Screen, queue0: seq<seq<Screen>>,
                    visited0: set<Screen>, ghost done0: set<Screen>, ghost universe: set<Screen>)
    returns (found: Option<seq<Screen>>, queue: seq<seq<Screen>>, visited: set<Screen>,
             ghost done: set<Screen>)
    requires queue0 != [] && SearchInv(g, start, target, queue0, visited0, done0, universe)
    ensures found.Some? ==>
      IsShortestPath(g, found.value, start, target) && IsSimple(found.value) &&
      (start == target ==> found.value == [start])
    ensures found.None? ==> SearchInv(g, start, target, queue, visited, done, universe)
    ensures found.None? ==>
      |universe - visited| < |universe - visited0| ||
      (|universe - visited| == |universe - visited0| && |queue| < |queue0|)
  {
    var path := queue0[0];
    QueuePop(g, start, queue0, visited0);
    LayeredPop(queue0);
    EndsPop(queue0);
    var rest := queue0[1..];
    var current := Last(path);
    if current == target {
      if start == target {
        TrivialShortest(g, path, start);
      }
      return Some(path), rest, visited0, done0;
    }
    ghost var added;
    queue, visited, added := EnqueueNeighbours(g, start, done0, path, rest, visited0);
    FrontStep(g, start, target, path, rest, visited0, done0, universe, queue, visited, added);
    CardDiff(universe, visited0);
    CardDiff(universe, visited);
    done := done0 + {current};
    found := None;
  }

  /** What holds after adding the unvisited neighbours `added` of the front path's last screen. */
  ghost predicate EnqueueInv(g: Adjacency, start: Screen, path: seq<Screen>,
                             queue0: seq<seq<Screen>>, visited0: set<Screen>,
                             queue: seq<seq<Screen>>, visited: set<Screen>, added: set<Screen>)
    requires |path| > 0
  {
    && added <= Neighbours(g, Last(path))
    && visited == visited0 + added && Ends(queue) == Ends(queue0) + added
    && |visited| == |visited0| + |queue| - |queue0|
    && queue0 <= queue
    && QueueSound(g, start, queue, visited)
    && LengthsWithin(queue, |path|)
  }

  /** The front path extended by an unvisited neighbour is again a sound queue entry. */
  lemma ExtendStep(g: Adjacency, start: Screen, done: set<Screen>, path: seq<Screen>,
                   visited0: set<Screen>, visited: set<Screen>, next: Screen)
    requires SoundPath(g, start, path, visited0) && path[0] == start
    requires LayerDone(g, start, done, |path|) && Expanded(g, done, visited0) && start in visited0
    requires visited0 <= visited && next in Neighbours(g, Last(path)) && next !in visited
    ensures SoundPath(g, start, path + [next], visited + {next})
  {
    ExtendShortest(g, start, done, visited, path, next);
  }

  /** Enqueueing one more unvisited neighbour keeps `EnqueueInv`. */
  lemma EnqueueStep(g: Adjacency, start: Screen, path: seq<Screen>,
                    queue0: seq<seq<Screen>>, visited0: set<Screen>,
                    queue: seq<seq<Screen>>, visited: set<Screen>, added: set<Screen>, next: Screen)
    requires |path| > 0 && EnqueueInv(g, start, path, queue0, visited0, queue, visited, added)
    requires next in Neighbours(g, Last(path)) && next !in visited
    requires SoundPath(g, start, path + [next], visited + {next})
    ensures EnqueueInv(g, start, path, queue0, visited0, queue + [path + [next]], visited + {next}, added + {next})
  {
    var np := path + [next];
    QueuePush(g, start, queue, visited, np, {next});
    LayeredPush(queue, np, |path|);
    EndsPush(queue, np);
    VisitStep(queue0, queue, np, visited0, visited, added, next);
  }

  /**
   * The `for next_screen in self.graph[current_screen]` loop of the search:
   * every neighbour `n` of the front path's last screen that is not yet visited
   * is marked visited and queued as `path + [n]`. The set is iterated in no
   * particular order.
   */
  method EnqueueNeighbours(g: Adjacency, start: Screen, ghost done: set<Screen>, path: seq<Screen>,
                           queue0: seq<seq<Screen>>, visited0: set<Screen>)
    returns (queue: seq<seq<Screen>>, visited: set<Screen>, ghost added: set<Screen>)
    requires SoundPath(g, start, path, visited0) && path[0] == start
    requires LayerDone(g, start, done, |path|) && Expanded(g, done, visited0) && start in visited0
    requires QueueSound(g, start, queue0, visited0) && LengthsWithin(queue0, |path|)
    ensures Neighbours(g, Last(path)) <= visited <= visited0 + Neighbours(g, Last(path))
    ensures visited == visited0 + added && Ends(queue) == Ends(queue0) + added
    ensures queue0 <= queue
    ensures |visited| == |visited0| + |queue| - |queue0|
    ensures QueueSound(g, start, queue, visited) && LengthsWithin(queue, |path|)
  {
    queue, visited, added := queue0, visited0, {};
    var pending := Neighbours(g, Last(path));
    while pending != {}
      invariant pending <= Neighbours(g, Last(path))
      invariant forall n :: n in Neighbours(g, Last(path)) && n !in pending ==> n in visited
      invariant EnqueueInv(g, start, path, queue0, visited0, queue, visited, added)
      decreases pending
    {
      var next :| next in pending;
      pending := pending - {next};
      if next !in visited {
        ExtendStep(g, start, done, path, visited0, visited, next);
        EnqueueStep(g, start, path, queue0, visited0, queue, visited, added, next);
        visited := visited + {next};
        queue := queue + [path + [next]];
        added := added + {next};
      }
    }
  }

  // ------------------------------------------------------------------ the class

  class ScreenNavigationGraph {
    var graph: Adjacency
    var screens: set<Screen>

    ghost predicate Valid()
      reads this
    {
      WellFormed(screens, graph)
    }

    constructor ()
      ensures Valid() && screens == {} && graph == map[]
    {
      graph := map[];
      screens := {};
    }

    /** `add_screen`: register a screen; the edges are untouched. */
    method AddScreen(screen: Screen)
      requires Valid()
      modifies this
      ensures Valid()
      ensures screens == old(screens) + {screen} && graph == old(graph)
    {
      screens := screens + {screen};
    }

    /** `add_navigation`: register both screens and the edge in both directions. */
    method AddNavigation(fromScreen: Screen, toScreen: Screen)
      requires Valid()
      modifies this
      ensures Valid()
      ensures screens == old(screens) + {fromScreen, toScreen}
      ensures graph == WithEdge(old(graph), fromScreen, toScreen)
      ensures toScreen in Neighbours(graph, fromScreen) && fromScreen in Neighbours(graph, toScreen)
    {
      WithEdgeWellFormed(screens, graph, fromScreen, toScreen);
      screens := screens + {fromScreen};
      screens := screens + {toScreen};
      graph := graph[fromScreen := Neighbours(graph, fromScreen) + {toScreen}];
      graph := graph[toScreen := Neighbours(graph, toScreen) + {fromScreen}];
    }

    /** `get_all_screens`: the known screens, a set closed under navigation. */
    function GetAllScreens(): (r: set<Screen>)
      reads this
      requires Valid()
      ensures forall a, b :: b in Neighbours(graph, a) ==> a in r && b in r
      ensures r == screens
    {
      screens
    }

    /**
     * `get_connected_screens`: the neighbours of `screen`; the defaultdict read
     * stores an empty set for a screen that had no entry.
     */
    method GetConnectedScreens(screen: Screen) returns (r: set<Screen>)
      requires Valid()
      modifies this
      ensures Valid()
      ensures r == Neighbours(old(graph), screen)
      ensures r == {} <==> forall x :: screen !in Neighbours(old(graph), x)
      ensures screens == old(screens)
      ensures graph.Keys == old(graph).Keys + {screen}
      ensures forall x :: Neighbours(graph, x) == Neighbours(old(graph), x)
    {
      ghost var g := graph;
      if screen !in graph {
        graph := graph[screen := {}];
      }
      r := graph[screen];
      assert r == Neighbours(g, screen);
      SameNeighboursWellFormed(screens, g, graph);
      if r != {} {
        var y :| y in r;
        assert screen in Neighbours(g, y);
      }
    }

    /**
     * `get_navigation_path`: breadth-first search over paths. The result is a
     * shortest simple path exactly when both screens are known and the target
     * is reachable; otherwise it is None.
     */
    method GetNavigationPath(startScreen: Screen, targetScreen: Screen) returns (r: Option<seq<Screen>>)
      ensures startScreen !in screens || targetScreen !in screens ==> r == None
      ensures r.Some? <==>
        startScreen in screens && targetScreen in screens && Reachable(graph, startScreen, targetScreen)
      ensures r.Some? ==> IsShortestPath(graph, r.value, startScreen, targetScreen) && IsSimple(r.value)
      ensures startScreen in screens && startScreen == targetScreen ==> r == Some([startScreen])
    {
      if startScreen !in screens || targetScreen !in screens {
        return None;
      }
      var g := graph;
      var queue: seq<seq<Screen>> := [[startScreen]];
      var visited: set<Screen> := {startScreen};
      ghost var done: set<Screen> := {};
      ghost var universe := Universe(g, startScreen);
      SearchStart(g, startScreen, targetScreen);
      while queue != []
        invariant SearchInv(g, startScreen, targetScreen, queue, visited, done, universe)
        decreases |universe - visited|, |queue|
      {
        var found;
        found, queue, visited, done := VisitFront(g, startScreen, targetScreen, queue, visited, done, universe);
        if found.Some? {
          return found;
        }
      }
      SearchExhausted(g, startScreen, targetScreen, visited, done, universe);
      return None;
    }
  }
}
