/** The map-building search both agents share (`get_frontier` and `bfs`
    have the same text in agents/blaute3.py and agents/base_agent.py): the
    agent's remembered free cells and walls, the frontier of explored
    space, and a breadth-first search over the cells it believes open. */
module Exploration {
  import opened Grid
  import opened Paths

  /** The cells the search may enter: remembered free, not remembered as a
      wall, and inside the grid. */
  function Passable(free: set<Pos>, walls: set<Pos>, rows: int, cols: int): (open: set<Pos>)
    ensures forall p :: p in open <==> p in free && p !in walls && InBounds(p, rows, cols)
  {
    set p | p in free && p !in walls && InBounds(p, rows, cols)
  }

  /** Stepping from `c` towards `d` lands in the grid on a cell the agent
      knows nothing about. */
  predicate OpensOnto(c: Pos, d: Direction, free: set<Pos>, walls: set<Pos>, rows: int, cols: int)
  {
    InBounds(Step(c, d), rows, cols) && Step(c, d) !in free && Step(c, d) !in walls
  }

  /** A frontier cell borders unexplored space. */
  predicate Borders(c: Pos, free: set<Pos>, walls: set<Pos>, rows: int, cols: int)
  {
    exists d :: OpensOnto(c, d, free, walls, rows, cols)
  }

  /** `get_frontier`: every free cell that borders unexplored space, each
      once. The order is that of the set iteration, left unspecified. */
  method Frontier(free: set<Pos>, walls: set<Pos>, rows: int, cols: int) returns (frontier: seq<Pos>)
    ensures forall c :: c in frontier <==> c in free && Borders(c, free, walls, rows, cols)
    ensures forall i, j :: 0 <= i < j < |frontier| ==> frontier[i] != frontier[j]
  {
    frontier := [];
    var rest := free;
    while rest != {}
      invariant rest <= free
      invariant forall c :: c in frontier <==> c in free - rest && Borders(c, free, walls, rows, cols)
      invariant forall i, j :: 0 <= i < j < |frontier| ==> frontier[i] != frontier[j]
      decreases |rest|
    {
      var c :| c in rest;
      var found := false;
      ghost var frontier0 := frontier;
      ghost var way := Up;
      for k := 0 to 4
        invariant !found && frontier == frontier0
        invariant forall j :: 0 <= j < k ==> !OpensOnto(c, Directions[j], free, walls, rows, cols)
      {
        var n := Step(c, Directions[k]);
        if InBounds(n, rows, cols) && n !in free && n !in walls {
          frontier := frontier + [c];
          found := true;
          way := Directions[k];
          break;
        }
      }
      if found {
        assert OpensOnto(c, way, free, walls, rows, cols);
        assert c !in frontier0;
        assert forall x :: x in frontier <==> x in frontier0 || x == c;
      } else {
        forall d
          ensures !OpensOnto(c, d, free, walls, rows, cols)
        {
          assert Directions[Index(d)] == d;
        }
      }
      rest := rest - {c};
    }
  }

  /** `w` is a walk through `open` from `start` to one of `targets`. */
  ghost predicate PathTo(open: set<Pos>, start: Pos, targets: set<Pos>, w: seq<Pos>)
  {
    IsWalk(open, w) && w[0] == start && Last(w) in targets
  }

  /** The search tree: `parent` and `dist` have the same keys, the start is
      the root at distance 0, and every other key is an open neighbour of
      its parent, one step farther. */
  ghost predicate Tree(open: set<Pos>, start: Pos, parent: map<Pos, Option<Pos>>, dist: map<Pos, nat>)
  {
    parent.Keys == dist.Keys && start in dist && dist[start] == 0 && parent[start] == None &&
    forall v {:trigger parent[v]} :: v in parent && v in dist && v != start ==>
      parent[v].Some? && parent[v].value in dist && v in open &&
      Adjacent(parent[v].value, v) && dist[v] == dist[parent[v].value] + 1
  }

  /** No walk from the start reaches a key of `dist` in fewer steps than
      `dist` records. */
  ghost predicate LowerBound(open: set<Pos>, start: Pos, dist: map<Pos, nat>)
  {
    forall w {:trigger IsWalk(open, w)} :: IsWalk(open, w) && w[0] == start && Last(w) in dist ==> |w| - 1 >= dist[Last(w)]
  }

  /** The queue holds keys in nondecreasing distance, spanning one layer. */
  ghost predicate Layered(queue: seq<Pos>, dist: map<Pos, nat>)
  {
    (forall i :: 0 <= i < |queue| ==> queue[i] in dist) &&
    (forall i, j :: 0 <= i <= j < |queue| ==> dist[queue[i]] <= dist[queue[j]]) &&
    (forall i :: 0 <= i < |queue| ==> dist[queue[i]] <= dist[queue[0]] + 1)
  }

  /** A walk from the start that leaves the expanded cells `done` is at
      least as long as the nearest unexpanded key, and one step longer if
      it ends outside the keys. */
  lemma BeyondDone(open: set<Pos>, start: Pos, dist: map<Pos, nat>, done: set<Pos>, m: nat, w: seq<Pos>)
    requires IsWalk(open, w) && w[0] == start && start in dist
    requires done <= dist.Keys && ClosedIn(open, done, dist.Keys)
    requires LowerBound(open, start, dist)
    requires forall v :: v in dist && v !in done ==> dist[v] >= m
    requires Last(w) !in done
    ensures |w| - 1 >= m
    ensures Last(w) !in dist ==> |w| - 1 >= m + 1
  {
    var j := FirstExit(open, dist.Keys, done, w);
    PrefixIsWalk(open, w, j + 1);
    assert Last(w[..j + 1]) == w[j];
  }

  /** Adding `n` as a child of `cur` keeps the tree and the lower bound. */
  lemma AddChild(open: set<Pos>, start: Pos, parent: map<Pos, Option<Pos>>, dist: map<Pos, nat>,
                 done: set<Pos>, cur: Pos, n: Pos)
    requires Tree(open, start, parent, dist) && LowerBound(open, start, dist)
    requires done <= dist.Keys && ClosedIn(open, done, dist.Keys)
    requires cur in dist && forall v :: v in dist && v !in done ==> dist[v] >= dist[cur]
    requires n in open && n !in dist && Adjacent(cur, n)
    ensures Tree(open, start, parent[n := Some(cur)], dist[n := dist[cur] + 1])
    ensures LowerBound(open, start, dist[n := dist[cur] + 1])
  {
    var dist' := dist[n := dist[cur] + 1];
    forall w | IsWalk(open, w) && w[0] == start && Last(w) in dist'
      ensures |w| - 1 >= dist'[Last(w)]
    {
      if Last(w) == n {
        BeyondDone(open, start, dist, done, dist[cur], w);
      }
    }
  }

  /** The cells `added` by a scan of `cur`'s neighbours are exactly the
      keys of `dist'` that `dist` lacks, all one layer below `cur`, and
      the old distances stay. */
  ghost predicate Extends(cur: Pos, dist: map<Pos, nat>, dist': map<Pos, nat>, added: seq<Pos>)
    requires cur in dist
  {
    dist.Keys <= dist'.Keys &&
    (forall v :: v in dist ==> dist'[v] == dist[v]) &&
    (forall i :: 0 <= i < |added| ==> added[i] in dist' && dist'[added[i]] == dist[cur] + 1) &&
    Elements(added) == dist'.Keys - dist.Keys
  }

  lemma ExtendsAdd(cur: Pos, dist: map<Pos, nat>, dist': map<Pos, nat>, added: seq<Pos>, n: Pos)
    requires cur in dist && Extends(cur, dist, dist', added) && n !in dist'
    ensures Extends(cur, dist, dist'[n := dist'[cur] + 1], added + [n])
    ensures forall v :: v in dist' && v !in dist ==> dist'[v] == dist[cur] + 1
  {
    forall v | v in dist' && v !in dist
      ensures dist'[v] == dist[cur] + 1
    {
      assert v in Elements(added);
      var i :| 0 <= i < |added| && added[i] == v;
    }
    ElementsOfSnoc(added, n);
    assert dist'[n := dist'[cur] + 1].Keys == dist'.Keys + {n};
  }

  lemma CountAdd(universe: set<Pos>, keys: set<Pos>, n: Pos)
    requires n in universe && n !in keys
    ensures |universe - (keys + {n})| + 1 == |universe - keys|
  {
    assert universe - (keys + {n}) == (universe - keys) - {n};
  }

  lemma SnocAssociates(q: seq<Pos>, a: seq<Pos>, x: Pos)
    ensures (q + a) + [x] == q + (a + [x])
  {
  }

  /** `parent'` is `parent` with some more cells given `cur` as parent. */
  ghost predicate Adopted(parent: map<Pos, Option<Pos>>, parent': map<Pos, Option<Pos>>, cur: Pos)
  {
    parent.Keys <= parent'.Keys &&
    forall v :: v in parent' ==> parent'[v] == if v in parent then parent[v] else Some(cur)
  }

  /** One newly discovered neighbour `nxt` of `cur`: it gets `cur` as its
      parent, a distance one more than `cur`'s, and a place at the back of
      the queue. */
  method AdoptChild(cur: Pos, nxt: Pos, queue: seq<Pos>, ghost parent: map<Pos, Option<Pos>>,
                    ghost open: set<Pos>, ghost universe: set<Pos>, ghost start: Pos,
                    ghost dist: map<Pos, nat>, ghost done: set<Pos>,
                    queue': seq<Pos>, parent': map<Pos, Option<Pos>>, ghost dist': map<Pos, nat>, ghost added: seq<Pos>)
    returns (queue'': seq<Pos>, parent'': map<Pos, Option<Pos>>, ghost dist'': map<Pos, nat>, ghost added': seq<Pos>)
    requires open <= universe
    requires done <= dist.Keys && ClosedIn(open, done, dist.Keys)
    requires cur in dist && forall v :: v in dist && v !in done ==> dist[v] >= dist[cur]
    requires Tree(open, start, parent', dist') && LowerBound(open, start, dist')
    requires Extends(cur, dist, dist', added) && dist'.Keys <= universe
    requires queue' == queue + added
    requires nxt in open && nxt !in parent' && Adjacent(cur, nxt)
    ensures Tree(open, start, parent'', dist'') && LowerBound(open, start, dist'')
    ensures Extends(cur, dist, dist'', added') && dist''.Keys <= universe
    ensures |universe - dist''.Keys| + |added'| == |universe - dist'.Keys| + |added|
    ensures queue'' == queue + added'
    ensures dist''.Keys == dist'.Keys + {nxt}
    ensures Adopted(parent, parent', cur) ==> Adopted(parent, parent'', cur)
    ensures queue'' == queue' + [nxt] && added' == added + [nxt]
  {
    ExtendsAdd(cur, dist, dist', added, nxt);
    AddChild(open, start, parent', dist', done, cur, nxt);
    CountAdd(universe, dist'.Keys, nxt);
    SnocAssociates(queue, added, nxt);
    parent'' := parent'[nxt := Some(cur)];
    dist'' := dist'[nxt := dist'[cur] + 1];
    queue'' := queue' + [nxt];
    added' := added + [nxt];
  }

  /** The `j`-th neighbour of `cur`, when open, has been given a distance. */
  ghost predicate Offered(open: set<Pos>, dist: map<Pos, nat>, cur: Pos, j: int)
    requires 0 <= j < |Directions|
  {
    Step(cur, Directions[j]) in open ==> Step(cur, Directions[j]) in dist
  }

  /** The neighbour scan of `bfs` for one dequeued cell `cur`: every
      in-grid neighbour that is free, not a wall and not yet in `parent`
      gets `cur` as its parent and joins the back of the queue. */
  method EnqueueChildren(free: set<Pos>, walls: set<Pos>, rows: int, cols: int, cur: Pos,
                         queue: seq<Pos>, parent: map<Pos, Option<Pos>>,
                         ghost open: set<Pos>, ghost universe: set<Pos>, ghost start: Pos,
                         ghost dist: map<Pos, nat>, ghost done: set<Pos>)
    returns (queue': seq<Pos>, parent': map<Pos, Option<Pos>>, ghost dist': map<Pos, nat>, ghost added: seq<Pos>)
    requires forall p :: p in open <==> p in free && p !in walls && InBounds(p, rows, cols)
    requires open <= universe && dist.Keys <= universe
    requires Tree(open, start, parent, dist) && LowerBound(open, start, dist)
    requires done <= dist.Keys && ClosedIn(open, done, dist.Keys)
    requires cur in dist && forall v :: v in dist && v !in done ==> dist[v] >= dist[cur]
    ensures Tree(open, start, parent', dist') && LowerBound(open, start, dist')
    ensures Extends(cur, dist, dist', added) && dist'.Keys <= universe
    ensures |universe - dist'.Keys| + |added| == |universe - dist.Keys|
    ensures queue' == queue + added
    ensures forall d :: Step(cur, d) in open ==> Step(cur, d) in dist'
    ensures Adopted(parent, parent', cur)
    ensures |queue| <= |queue'| && queue'[..|queue|] == queue
  {
    queue', parent', dist', added := queue, parent, dist, [];
    for k := 0 to 4
      invariant Tree(open, start, parent', dist') && LowerBound(open, start, dist')
      invariant Extends(cur, dist, dist', added) && dist'.Keys <= universe
      invariant |universe - dist'.Keys| + |added| == |universe - dist.Keys|
      invariant queue' == queue + added
      invariant forall j :: 0 <= j < k ==> Offered(open, dist', cur, j)
      invariant Adopted(parent, parent', cur)
    {
      ghost var before := dist';
      var nxt := Step(cur, Directions[k]);
      if InBounds(nxt, rows, cols) && nxt !in walls && nxt in free && nxt !in parent' {
        StepAdjacent(cur, Directions[k]);
        queue', parent', dist', added :=
          AdoptChild(cur, nxt, queue, parent, open, universe, start, dist, done, queue', parent', dist', added);
      }
      forall j | 0 <= j < k + 1
        ensures Offered(open, dist', cur, j)
      {
        if j < k {
          assert Offered(open, before, cur, j);
        }
      }
    }
    forall d | Step(cur, d) in open
      ensures Step(cur, d) in dist'
    {
      assert Directions[Index(d)] == d;
      assert Offered(open, dist', cur, Index(d));
    }
  }

  /** The walk-back of `bfs`: from `cur` along `parent` to the root, read
      backwards (before the path is reversed). */
  method TraceBack(parent: map<Pos, Option<Pos>>, cur: Pos,
                   ghost open: set<Pos>, ghost start: Pos, ghost dist: map<Pos, nat>)
    returns (back: seq<Pos>)
    requires Tree(open, start, parent, dist) && cur in dist
    ensures |back| == dist[cur] + 1 && back[0] == cur && Last(back) == start
    ensures forall i :: 0 <= i < |back| - 1 ==> BackLink(open, back, i)
  {
    back := [];
    var c: Option<Pos> := Some(cur);
    while c.Some?
      invariant c.Some? ==> c.value in dist && |back| + dist[c.value] == dist[cur]
      invariant c.Some? && |back| > 0 ==> Last(back) in open && Adjacent(c.value, Last(back))
      invariant c.None? ==> |back| == dist[cur] + 1 && Last(back) == start
      invariant |back| == 0 ==> c == Some(cur)
      invariant |back| > 0 ==> back[0] == cur
      invariant forall i :: 0 <= i < |back| - 1 ==> BackLink(open, back, i)
      decreases if c.Some? then dist[c.value] + 1 else 0
    {
      var x := c.value;
      ghost var before := back;
      back := back + [x];
      forall i | 0 <= i < |back| - 1
        ensures BackLink(open, back, i)
      {
        if i < |before| - 1 {
          assert BackLink(open, before, i);
        }
      }
      c := parent[x];
    }
  }

  /** Popping the head of a layered queue and appending the next layer
      keeps it layered. */
  lemma LayeredAfter(queue: seq<Pos>, dist: map<Pos, nat>, dist': map<Pos, nat>, added: seq<Pos>)
    requires |queue| > 0 && Layered(queue, dist) && Extends(queue[0], dist, dist', added)
    ensures Layered(queue[1..] + added, dist')
  {
    var q := queue[1..] + added;
    var c := dist[queue[0]];
    forall i | 0 <= i < |q|
      ensures q[i] in dist' && c <= dist'[q[i]] <= c + 1
    {
      if i < |queue| - 1 {
        assert q[i] == queue[i + 1];
      } else {
        assert q[i] == added[i - (|queue| - 1)];
      }
    }
    forall i, j | 0 <= i <= j < |q|
      ensures dist'[q[i]] <= dist'[q[j]]
    {
      if j < |queue| - 1 {
        assert q[i] == queue[i + 1] && q[j] == queue[j + 1];
      } else if i >= |queue| - 1 {
        assert q[i] == added[i - (|queue| - 1)] && q[j] == added[j - (|queue| - 1)];
      } else {
        assert q[i] == queue[i + 1] && q[j] == added[j - (|queue| - 1)];
      }
    }
  }

  /** Every key not yet expanded is at least as far as the head of the queue. */
  lemma HeadIsNearest(queue: seq<Pos>, dist: map<Pos, nat>, done: set<Pos>)
    requires |queue| > 0 && Layered(queue, dist) && dist.Keys == done + Elements(queue)
    ensures forall v :: v in dist && v !in done ==> dist[v] >= dist[queue[0]]
  {
    forall v | v in dist && v !in done
      ensures dist[v] >= dist[queue[0]]
    {
      assert v in Elements(queue);
      var i :| 0 <= i < |queue| && queue[i] == v;
    }
  }

  lemma ElementsOfConcat(a: seq<Pos>, b: seq<Pos>)
    ensures Elements(a + b) == Elements(a) + Elements(b)
  {
  }

  /** The dequeued target `cur` is reached by the walk read back along the
      tree, and no walk reaches a target in fewer steps. */
  method Reconstruct(parent: map<Pos, Option<Pos>>, cur: Pos, ghost open: set<Pos>, ghost start: Pos,
                     ghost goal: set<Pos>, ghost dist: map<Pos, nat>, ghost done: set<Pos>)
    returns (path: seq<Pos>)
    requires Tree(open, start, parent, dist) && LowerBound(open, start, dist)
    requires done <= dist.Keys && ClosedIn(open, done, dist.Keys)
    requires cur in dist && cur in goal && forall v :: v in dist && v !in done ==> dist[v] >= dist[cur]
    requires forall v :: v in done ==> v !in goal
    ensures PathTo(open, start, goal, path)
    ensures forall w :: PathTo(open, start, goal, w) ==> |path| <= |w|
  {
    var back := TraceBack(parent, cur, open, start, dist);
    ReverseOfBackwardChain(open, back);
    forall w | PathTo(open, start, goal, w)
      ensures |back| <= |w|
    {
      BeyondDone(open, start, dist, done, dist[cur], w);
    }
    path := Reverse(back);
  }

  /** After a cell is expanded the search invariant holds again, with `cur`
      among the expanded cells. */
  lemma ExpandKeeps(open: set<Pos>, queue: seq<Pos>, dist: map<Pos, nat>, done: set<Pos>,
                    dist': map<Pos, nat>, added: seq<Pos>)
    requires |queue| > 0 && Layered(queue, dist) && dist.Keys == done + Elements(queue)
    requires ClosedIn(open, done, dist.Keys)
    requires Extends(queue[0], dist, dist', added)
    requires forall d :: Step(queue[0], d) in open ==> Step(queue[0], d) in dist'
    ensures Layered(queue[1..] + added, dist')
    ensures dist'.Keys == (done + {queue[0]}) + Elements(queue[1..] + added)
    ensures ClosedIn(open, done + {queue[0]}, dist'.Keys)
  {
    LayeredAfter(queue, dist, dist', added);
    ElementsOfTail(queue);
    ElementsOfConcat(queue[1..], added);
    forall v, d | v in done + {queue[0]} && Step(v, d) in open
      ensures Step(v, d) in dist'
    {
      if v != queue[0] {
        assert Step(v, d) in dist.Keys;
      }
    }
  }

  /** Once every key is expanded and none was a target, no walk from the
      start reaches a target. */
  lemma Exhausted(open: set<Pos>, start: Pos, done: set<Pos>, goal: set<Pos>)
    requires start in done && ClosedIn(open, done, done)
    requires forall v :: v in done ==> v !in goal
    ensures forall w :: IsWalk(open, w) && w[0] == start ==> Last(w) !in goal
  {
    forall w | IsWalk(open, w) && w[0] == start
      ensures Last(w) !in goal
    {
      ClosedContainsWalk(open, done, w);
      assert w[|w| - 1] in done;
    }
  }

  /** The state the search loop of `bfs` keeps: a shortest-walk tree whose
      keys are the expanded cells, none a target and all with their open
      neighbours discovered, and the queue, which spans one layer. */
  ghost predicate Searching(open: set<Pos>, universe: set<Pos>, start: Pos, goal: set<Pos>,
                            queue: seq<Pos>, parent: map<Pos, Option<Pos>>, dist: map<Pos, nat>, done: set<Pos>)
  {
    Tree(open, start, parent, dist) && LowerBound(open, start, dist) &&
    Layered(queue, dist) &&
    dist.Keys == done + Elements(queue) && dist.Keys <= universe &&
    ClosedIn(open, done, dist.Keys) &&
    (forall v :: v in done ==> v !in goal)
  }

  /** The search starts from the tree that holds only `start`. */
  lemma SearchStarts(open: set<Pos>, universe: set<Pos>, start: Pos, goal: set<Pos>)
    requires start in universe
    ensures Searching(open, universe, start, goal, [start], map[start := None], map[start := 0], {})
  {
    assert Elements([start]) == {start};
  }

  /** A dequeued target is the nearest undone cell, ready for the walk-back. */
  lemma ReadyToReconstruct(open: set<Pos>, universe: set<Pos>, start: Pos, goal: set<Pos>,
                           queue: seq<Pos>, parent: map<Pos, Option<Pos>>, dist: map<Pos, nat>, done: set<Pos>)
    requires Searching(open, universe, start, goal, queue, parent, dist, done) && queue != []
    ensures Tree(open, start, parent, dist) && LowerBound(open, start, dist)
    ensures done <= dist.Keys && ClosedIn(open, done, dist.Keys)
    ensures queue[0] in dist && forall v :: v in dist && v !in done ==> dist[v] >= dist[queue[0]]
    ensures forall v :: v in done ==> v !in goal
  {
    HeadIsNearest(queue, dist, done);
    assert queue[0] in Elements(queue);
  }

  /** Once the queue is empty, no walk from the start reaches a target. */
  lemma SearchEnds(open: set<Pos>, universe: set<Pos>, start: Pos, goal: set<Pos>,
                   parent: map<Pos, Option<Pos>>, dist: map<Pos, nat>, done: set<Pos>)
    requires Searching(open, universe, start, goal, [], parent, dist, done)
    ensures forall w :: IsWalk(open, w) && w[0] == start ==> Last(w) !in goal
  {
    assert Elements([]) == {};
    Exhausted(open, start, done, goal);
  }

  /** One round of the search loop of `bfs` for a dequeued cell that is
      no target: its undiscovered neighbours join the tree and the queue,
      and the cell joins the expanded ones. */
  method ExpandNearest(free: set<Pos>, walls: set<Pos>, rows: int, cols: int,
                       queue: seq<Pos>, parent: map<Pos, Option<Pos>>,
                       ghost open: set<Pos>, ghost universe: set<Pos>, ghost start: Pos,
                       ghost goal: set<Pos>, ghost dist: map<Pos, nat>, ghost done: set<Pos>)
    returns (queue': seq<Pos>, parent': map<Pos, Option<Pos>>, ghost dist': map<Pos, nat>, ghost done': set<Pos>)
    requires open == Passable(free, walls, rows, cols) && open <= universe
    requires queue != [] && queue[0] !in goal
    requires Searching(open, universe, start, goal, queue, parent, dist, done)
    ensures Searching(open, universe, start, goal, queue', parent', dist', done')
    ensures |universe - dist'.Keys| + |queue'| < |universe - dist.Keys| + |queue|
  {
    HeadIsNearest(queue, dist, done);
    var cur := queue[0];
    ghost var added;
    queue', parent', dist', added := EnqueueChildren(free, walls, rows, cols, cur, queue[1..], parent,
                                                     open, universe, start, dist, done);
    ExpandKeeps(open, queue, dist, done, dist', added);
    done' := done + {cur};
  }

  /** `bfs`: breadth-first search from `start` through the passable cells,
      stopping at the first dequeued cell among `targets`; the walk is
      read back along the parent links. It finds a shortest walk to a
      target when one exists, and `None` exactly when none does. */
  method Bfs(start: Pos, targets: seq<Pos>, rows: int, cols: int, free: set<Pos>, walls: set<Pos>)
    returns (path: Option<seq<Pos>>)
    ensures path.Some? ==> PathTo(Passable(free, walls, rows, cols), start, (set t | t in targets), path.value)
    ensures path.Some? ==> forall w :: PathTo(Passable(free, walls, rows, cols), start, (set t | t in targets), w) ==>
                                         |path.value| <= |w|
    ensures path.None? <==> forall w :: IsWalk(Passable(free, walls, rows, cols), w) && w[0] == start ==>
                                         Last(w) !in targets
  {
    ghost var open := Passable(free, walls, rows, cols);
    ghost var universe := open + {start};
    var goal := set t | t in targets;
    var queue := [start];
    var parent: map<Pos, Option<Pos>> := map[start := None];
    ghost var dist: map<Pos, nat> := map[start := 0];
    // the dequeued cells, none of them a target
    ghost var done: set<Pos> := {};
    SearchStarts(open, universe, start, goal);
    while queue != []
      invariant Searching(open, universe, start, goal, queue, parent, dist, done)
      decreases |universe - dist.Keys| + |queue|
    {
      var cur := queue[0];
      if cur in goal {
        ReadyToReconstruct(open, universe, start, goal, queue, parent, dist, done);
        var p := Reconstruct(parent, cur, open, start, goal, dist, done);
        return Some(p);
      }
      queue, parent, dist, done := ExpandNearest(free, walls, rows, cols, queue, parent,
                                                 open, universe, start, goal, dist, done);
    }
    SearchEnds(open, universe, start, goal, parent, dist, done);
    return None;
  }

  /** The cells of `s` other than `x`, in order: the frontier without the agent's own cell. */
  function Without(s: seq<Pos>, x: Pos): (r: seq<Pos>)
    ensures forall y :: y in r <==> y in s && y != x
    ensures |r| <= |s|
  {
    if s == [] then []
    else if s[0] == x then Without(s[1..], x)
    else [s[0]] + Without(s[1..], x)
  }

  /** The direction the agents read off the second cell of a path: the
      row change is checked before the column change. */
  function StepDirection(me: Pos, next: Pos): (d: Option<Direction>)
    ensures Adjacent(me, next) ==> d.Some? && Step(me, d.value) == next
    ensures d.Some? ==> next.0 - me.0 == Delta(d.value).0 || next.1 - me.1 == Delta(d.value).1
  {
    var dx, dy := next.0 - me.0, next.1 - me.1;
    if dx == -1 then Some(Up)
    else if dx == 1 then Some(Down)
    else if dy == -1 then Some(Left)
    else if dy == 1 then Some(Right)
    else None
  }

  /** Reading back the direction of a step recovers it. */
  lemma StepDirectionOfStep(me: Pos, d: Direction)
    ensures StepDirection(me, Step(me, d)) == Some(d)
  {
    StepAdjacent(me, d);
  }

  /** The frontier cells other than the agent's own: the search targets. */
  ghost function FrontierTargets(me: Pos, free: set<Pos>, walls: set<Pos>, rows: int, cols: int): set<Pos>
  {
    set c | c in free && Borders(c, free, walls, rows, cols) && c != me
  }

  /** `w` is a walk to a target no longer than any other. */
  ghost predicate Shortest(open: set<Pos>, start: Pos, targets: set<Pos>, w: seq<Pos>)
  {
    PathTo(open, start, targets, w) && forall w' :: PathTo(open, start, targets, w') ==> |w| <= |w'|
  }

  /** Stepping towards `d` enters the second cell of a shortest walk from
      `me` to a frontier target. */
  ghost predicate TowardsFrontier(me: Pos, free: set<Pos>, walls: set<Pos>, rows: int, cols: int, d: Direction)
  {
    exists w :: Shortest(Passable(free, walls, rows, cols), me, FrontierTargets(me, free, walls, rows, cols), w) &&
                |w| >= 2 && w[1] == Step(me, d)
  }

  /** The frontier step enters a cell the agent remembers as free, does
      not remember as a wall, and that lies inside the grid. */
  lemma TowardsFrontierIsPassable(me: Pos, free: set<Pos>, walls: set<Pos>, rows: int, cols: int, d: Direction)
    requires TowardsFrontier(me, free, walls, rows, cols, d)
    ensures Step(me, d) in free && Step(me, d) !in walls && InBounds(Step(me, d), rows, cols)
    ensures Adjacent(me, Step(me, d))
  {
    var w :| Shortest(Passable(free, walls, rows, cols), me, FrontierTargets(me, free, walls, rows, cols), w) &&
             |w| >= 2 && w[1] == Step(me, d);
    assert w[1] in Passable(free, walls, rows, cols);
  }

  /** Some walk through the passable cells leads from `me` to a frontier target. */
  ghost predicate FrontierReachable(me: Pos, free: set<Pos>, walls: set<Pos>, rows: int, cols: int)
  {
    exists w :: PathTo(Passable(free, walls, rows, cols), me, FrontierTargets(me, free, walls, rows, cols), w)
  }

  /** The frontier fallback both agents share: compute the frontier, drop
      the agent's own cell, search, and turn the second cell of the path
      into a direction. `None` means that no frontier target can be reached. */
  method FrontierStep(me: Pos, rows: int, cols: int, free: set<Pos>, walls: set<Pos>) returns (d: Option<Direction>)
    ensures d.Some? ==> TowardsFrontier(me, free, walls, rows, cols, d.value)
    ensures d.None? <==> !FrontierReachable(me, free, walls, rows, cols)
  {
    ghost var open := Passable(free, walls, rows, cols);
    ghost var goal := FrontierTargets(me, free, walls, rows, cols);
    var frontier := Frontier(free, walls, rows, cols);
    var targets := Without(frontier, me);
    assert (set t | t in targets) == goal;
    if targets == [] {
      d := None;
      assert forall w :: !PathTo(open, me, goal, w);
      return;
    }
    var path := Bfs(me, targets, rows, cols, free, walls);
    if path.Some? && |path.value| >= 2 {
      var w := path.value;
      assert Adjacent(w[1 - 1], w[1]);
      d := StepDirection(me, w[1]);
      assert Shortest(open, me, goal, w);
      return;
    }
    d := None;
    if path.Some? {
      assert false;
    }
    forall w | PathTo(open, me, goal, w)
      ensures false
    {
    }
  }
}
