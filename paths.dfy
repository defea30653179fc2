/** Walks over the four-neighbour grid graph restricted to a set of open
    cells, and the facts about them that both breadth-first searches of the
    game rely on. */
module Paths {
  import opened Grid

  function Last<T>(s: seq<T>): T
    requires |s| > 0
  {
    s[|s| - 1]
  }

  /** A walk through `open`: consecutive cells are orthogonal neighbours and
      every cell after the first is open. The first cell is where the walker
      stands and need not be open itself. */
  predicate IsWalk(open: set<Pos>, w: seq<Pos>)
  {
    |w| > 0 && forall i :: 0 < i < |w| ==> Adjacent(w[i - 1], w[i]) && w[i] in open
  }

  ghost predicate Reachable(open: set<Pos>, s: Pos, t: Pos)
  {
    exists w :: IsWalk(open, w) && w[0] == s && Last(w) == t
  }

  /** `done` is closed in `inside`: every open neighbour of a `done` cell is `inside`. */
  ghost predicate ClosedIn(open: set<Pos>, done: set<Pos>, inside: set<Pos>)
  {
    forall v, d :: v in done && Step(v, d) in open ==> Step(v, d) in inside
  }

  lemma {:induction false} PrefixIsWalk(open: set<Pos>, w: seq<Pos>, n: nat)
    requires IsWalk(open, w) && 0 < n <= |w|
    ensures IsWalk(open, w[..n])
  {
    forall i | 0 < i < n
      ensures Adjacent(w[..n][i - 1], w[..n][i]) && w[..n][i] in open
    {
      assert w[..n][i - 1] == w[i - 1] && w[..n][i] == w[i];
    }
  }

  lemma ExtendWalk(open: set<Pos>, w: seq<Pos>, c: Pos)
    requires IsWalk(open, w) && Adjacent(Last(w), c) && c in open
    ensures IsWalk(open, w + [c]) && Last(w + [c]) == c && (w + [c])[0] == w[0]
  {
    var w' := w + [c];
    forall i | 0 < i < |w'|
      ensures Adjacent(w'[i - 1], w'[i]) && w'[i] in open
    {
      if i < |w| {
        assert w'[i - 1] == w[i - 1] && w'[i] == w[i];
      }
    }
  }

  /** A walk that starts in `inside` and ends outside `done`, where `done`
      is closed in `inside`, meets a cell of `inside` that is not `done`,
      and every cell before that is `done`. */
  lemma {:induction false} FirstExit(open: set<Pos>, inside: set<Pos>, done: set<Pos>, w: seq<Pos>)
    returns (j: nat)
    requires IsWalk(open, w) && w[0] in inside && done <= inside
    requires ClosedIn(open, done, inside)
    requires Last(w) !in done
    ensures j < |w| && w[j] in inside && w[j] !in done
    ensures forall i :: 0 <= i < j ==> w[i] in done
  {
    j := 0;
    while w[j] in done
      invariant j < |w| && w[j] in inside
      invariant forall i :: 0 <= i < j ==> w[i] in done
      decreases |w| - j
    {
      assert j < |w| - 1;
      assert Adjacent(w[(j + 1) - 1], w[j + 1]) && w[j + 1] in open;
      var d := DirectionBetween(w[j], w[j + 1]);
      assert Step(w[j], d) == w[j + 1];
      j := j + 1;
    }
  }

  /** A set that contains the start of a walk and is closed under open
      neighbours contains the whole walk. */
  lemma ClosedContainsWalk(open: set<Pos>, s: set<Pos>, w: seq<Pos>)
    requires IsWalk(open, w) && w[0] in s
    requires ClosedIn(open, s, s)
    ensures forall i :: 0 <= i < |w| ==> w[i] in s
  {
    forall i | 0 <= i < |w|
      ensures w[i] in s
    {
      PrefixIsWalk(open, w, i + 1);
      if w[i] !in s {
        var j := FirstExit(open, s, s, w[..i + 1]);
      }
    }
  }

  function Reverse<T>(s: seq<T>): (r: seq<T>)
    ensures |r| == |s|
    ensures forall i :: 0 <= i < |s| ==> r[i] == s[|s| - 1 - i]
  {
    if s == [] then [] else Reverse(s[1..]) + [s[0]]
  }

  /** Cell `i` of a chain read backwards is open and follows cell `i + 1`. */
  predicate BackLink(open: set<Pos>, back: seq<Pos>, i: int)
    requires 0 <= i < |back| - 1
  {
    back[i] in open && Adjacent(back[i + 1], back[i])
  }

  /** A chain read backwards from its last cell to its first is a walk once
      reversed: the parent-link walk-back of both searches. */
  lemma ReverseOfBackwardChain(open: set<Pos>, back: seq<Pos>)
    requires |back| > 0
    requires forall i :: 0 <= i < |back| - 1 ==> BackLink(open, back, i)
    ensures IsWalk(open, Reverse(back))
    ensures Reverse(back)[0] == Last(back) && Last(Reverse(back)) == back[0]
  {
    var r := Reverse(back);
    var n := |back|;
    forall i | 0 < i < n
      ensures Adjacent(r[i - 1], r[i]) && r[i] in open
    {
      var k := n - 1 - i;
      assert r[i - 1] == back[k + 1] && r[i] == back[k];
      assert BackLink(open, back, k);
    }
  }

  /** The cells of a queue, as a set. */
  function Elements(q: seq<Pos>): set<Pos>
  {
    set x | x in q
  }

  lemma ElementsOfTail(q: seq<Pos>)
    requires |q| > 0
    ensures Elements(q) == {q[0]} + Elements(q[1..])
  {
    assert q == [q[0]] + q[1..];
  }

  lemma ElementsOfSnoc(q: seq<Pos>, x: Pos)
    ensures Elements(q + [x]) == Elements(q) + {x}
  {
  }
}
