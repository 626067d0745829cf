/** The breadth-first search of maze_solve/solve.py (_bfs) seen as pure
    state: the queue of whole paths, the order in which positions were
    enqueued, and the length of the path each position was enqueued with.
    The lemmas here carry the shortest-path and no-path arguments; the
    search loop of Solver.Explore keeps Searching as its invariant. */
module MazeWalks {
  import opened Wrappers
  import opened MazeGrid

  function Elems<T>(s: seq<T>): set<T>
  {
    set x | x in s
  }

  predicate Distinct<T(==)>(s: seq<T>)
  {
    forall i, j :: 0 <= i < j < |s| ==> s[i] != s[j]
  }

  /** The paths `path + [n]` for the positions n of ns, in order: what the
      neighbour loop appends to the queue. */
  function Extensions(path: seq<Pos>, ns: seq<Pos>): (paths: seq<seq<Pos>>)
    ensures |paths| == |ns|
  {
    if |ns| == 0 then [] else Extensions(path, ns[..|ns| - 1]) + [path + [ns[|ns| - 1]]]
  }

  lemma {:induction false} ExtensionsAt(path: seq<Pos>, ns: seq<Pos>)
    ensures forall k {:trigger Extensions(path, ns)[k]} :: 0 <= k < |ns| ==> Extensions(path, ns)[k] == path + [ns[k]]
  {
    if |ns| > 0 {
      ExtensionsAt(path, ns[..|ns| - 1]);
    }
  }

  /** The positions of ns that are unseen, open and not yet painted, in the
      order of ns. */
  function Admits(open: set<Pos>, seen: set<Pos>, painted: set<Pos>, ns: seq<Pos>): (cells: seq<Pos>)
    ensures |cells| <= |ns|
  {
    if |ns| == 0 then []
    else
      var last := ns[|ns| - 1];
      Admits(open, seen, painted, ns[..|ns| - 1]) + (if last !in seen && last in open && last !in painted then [last] else [])
  }

  lemma {:induction false} AdmitsMembers(open: set<Pos>, seen: set<Pos>, painted: set<Pos>, ns: seq<Pos>)
    ensures forall m {:trigger m in Admits(open, seen, painted, ns)} :: m in Admits(open, seen, painted, ns) <==>
              m in ns && m !in seen && m in open && m !in painted
  {
    if |ns| > 0 {
      AdmitsMembers(open, seen, painted, ns[..|ns| - 1]);
      assert ns == ns[..|ns| - 1] + [ns[|ns| - 1]];
    }
  }

  /** Admitting over one more position of ns appends it when it passes. */
  lemma AdmitsStep(open: set<Pos>, seen: set<Pos>, painted: set<Pos>, ns: seq<Pos>, i: nat)
    requires i < |ns|
    ensures Admits(open, seen, painted, ns[..i + 1]) ==
              Admits(open, seen, painted, ns[..i]) +
              (if ns[i] !in seen && ns[i] in open && ns[i] !in painted then [ns[i]] else [])
  {
    assert ns[..i + 1][..i] == ns[..i];
  }

  /** Enqueuing one more extension keeps the queue equal to the old queue
      followed by the extensions of the positions admitted so far. */
  lemma ExtensionsAppend(q: seq<seq<Pos>>, log: seq<Pos>, path: seq<Pos>, cells: seq<Pos>, n: Pos)
    ensures q + Extensions(path, cells) + [path + [n]] == q + Extensions(path, cells + [n])
    ensures log + cells + [n] == log + (cells + [n])
  {
    assert (cells + [n])[..|cells|] == cells;
  }

  /** The part of the search state one pass of the loop of _bfs hands to
      the next: the path it stopped with, if any, the queue, the seen
      positions and the enqueue log. */
  datatype Pass = Pass(found: Option<seq<Pos>>, queue: seq<seq<Pos>>, seen: set<Pos>, log: seq<Pos>)

  /** One pass of the loop of _bfs: pop the head path and mark its last
      position seen; stop with that path if it ends at `end`, otherwise
      enqueue its extensions by the admitted neighbours and log them. */
  function NextPass(open: set<Pos>, painted: set<Pos>, end: Pos, q: seq<seq<Pos>>, seen: set<Pos>, log: seq<Pos>): Pass
    requires |q| > 0 && |q[0]| > 0
  {
    var path := q[0];
    var pos := path[|path| - 1];
    var seen' := seen + {pos};
    if pos == end then Pass(Some(path), q[1..], seen', log)
    else
      var cells := Admits(open, seen', painted, Neighbours(pos));
      Pass(None, q[1..] + Extensions(path, cells), seen', log + cells)
  }

  /** A 4-connected path from `from` to `to` through open positions; the
      first position itself need not be open. */
  ghost predicate IsWalk(open: set<Pos>, w: seq<Pos>, from: Pos, to: Pos)
  {
    && |w| >= 1 && w[0] == from && w[|w| - 1] == to
    && (forall i :: 1 <= i < |w| ==> w[i] in open)
    && (forall i :: 0 <= i < |w| - 1 ==> Adjacent(w[i], w[i + 1]))
  }

  /** Every open neighbour of an expanded position has been reached, with a
      path at most one longer than the expanded position's. */
  ghost predicate Closed(open: set<Pos>, expanded: set<Pos>, dist: map<Pos, nat>)
  {
    forall u, v {:trigger Adjacent(u, v)} :: u in expanded && v in open && Adjacent(u, v) ==>
      u in dist && v in dist && dist[v] <= dist[u] + 1
  }

  /** The state of the search between two iterations. `log` lists every
      position ever enqueued (start first), the first `d` of them dequeued;
      the queue holds one path for each of the others, in the same order;
      `dist` maps each logged position to the length of its path; `level`
      is the length of the last dequeued path. */
  ghost predicate Frontier(open: set<Pos>, start: Pos, q: seq<seq<Pos>>, log: seq<Pos>, d: nat,
                           dist: map<Pos, nat>, level: nat)
  {
    && |log| >= 1 && log[0] == start && Distinct(log)
    && (forall k :: 1 <= k < |log| ==> log[k] in open)
    && d <= |log| && |q| == |log| - d
    && dist.Keys == Elems(log) && start in dist && dist[start] == 1
    && (forall k :: 0 <= k < |q| ==>
          IsWalk(open, q[k], start, log[d + k]) && dist[log[d + k]] == |q[k]| && level <= |q[k]| <= level + 1)
    && (forall k :: 0 <= k < d ==> dist[log[k]] <= level)
    && (forall p :: p in dist ==> dist[p] <= level + 1)
    && (forall i, j :: 0 <= i < j < |q| ==> |q[i]| <= |q[j]|)
  }

  /** The queue [[start]] of the source's first line. */
  lemma FrontierInit(open: set<Pos>, start: Pos)
    ensures Frontier(open, start, [[start]], [start], 0, map[start := 1], 1)
  {
    assert Elems([start]) == {start};
  }

  /** Dequeuing the head path keeps the invariant, with the head's length
      as the new level: lengths are dequeued in non-decreasing order. */
  lemma {:induction false} FrontierDequeue(open: set<Pos>, start: Pos, q: seq<seq<Pos>>, log: seq<Pos>, d: nat,
                                           dist: map<Pos, nat>, level: nat)
    requires Frontier(open, start, q, log, d, dist, level)
    requires |q| > 0
    ensures d < |log| && q[0][|q[0]| - 1] == log[d] && dist[log[d]] == |q[0]|
    ensures IsWalk(open, q[0], start, log[d])
    ensures level <= |q[0]|
    ensures Frontier(open, start, q[1..], log, d + 1, dist, |q[0]|)
    ensures Elems(log[..d + 1]) == Elems(log[..d]) + {log[d]}
  {
    assert log[..d + 1] == log[..d] + [log[d]];
    var h := |q[0]|;
    assert IsWalk(open, q[0], start, log[d]);
    forall k | 0 <= k < |q| - 1
      ensures IsWalk(open, q[1..][k], start, log[d + 1 + k])
      ensures dist[log[d + 1 + k]] == |q[1..][k]|
      ensures h <= |q[1..][k]| <= h + 1
    {
      assert q[1..][k] == q[k + 1];
      assert IsWalk(open, q[k + 1], start, log[d + (k + 1)]);
    }
    forall k | 0 <= k < d + 1
      ensures dist[log[k]] <= h
    {
      if k == d {
        assert dist[log[d + 0]] == |q[0]|;
      }
    }
  }

  /** Enqueuing `path + [n]` for an open neighbour n of the just-dequeued
      position that was never enqueued keeps the invariant. */
  lemma {:induction false} FrontierEnqueue(open: set<Pos>, start: Pos, q: seq<seq<Pos>>, log: seq<Pos>, d: nat,
                                           dist: map<Pos, nat>, level: nat, path: seq<Pos>, n: Pos)
    requires Frontier(open, start, q, log, d, dist, level)
    requires 1 <= d && IsWalk(open, path, start, log[d - 1]) && |path| == level
    requires Adjacent(log[d - 1], n) && n in open && n !in dist
    ensures Frontier(open, start, q + [path + [n]], log + [n], d, dist[n := level + 1], level)
  {
    var q', log', dist' := q + [path + [n]], log + [n], dist[n := level + 1];
    assert Elems(log') == Elems(log) + {n};
    assert n !in log;
    forall k | 0 <= k < |q'|
      ensures IsWalk(open, q'[k], start, log'[d + k])
      ensures dist'[log'[d + k]] == |q'[k]|
    {
      if k < |q| {
        assert q'[k] == q[k] && log'[d + k] == log[d + k];
        assert log[d + k] in dist;
      }
    }
    forall k | 0 <= k < d
      ensures dist'[log'[k]] <= level
    {
      assert log'[k] == log[k] && log[k] in dist;
    }
  }

  /** Painting more open positions leaves fewer unpainted ones: the measure
      under which the search terminates. */
  lemma FewerUnpainted(open: set<Pos>, before: set<Pos>, after: set<Pos>)
    requires before <= after <= open && before != after
    ensures open - after < open - before
  {
    var p :| p in after && p !in before;
    assert p in open - before;
  }

  /** Once every open neighbour of u has been reached with a path at most
      one longer than u's, u may join the expanded set; extending `dist`
      with new positions keeps what was closed closed. */
  lemma ClosedExpand(open: set<Pos>, expanded: set<Pos>, dist: map<Pos, nat>, dist': map<Pos, nat>, u: Pos)
    requires Closed(open, expanded, dist)
    requires forall p :: p in dist ==> p in dist' && dist'[p] == dist[p]
    requires u in dist'
    requires forall v :: v in open && Adjacent(u, v) ==> v in dist' && dist'[v] <= dist'[u] + 1
    ensures Closed(open, expanded + {u}, dist')
  {
  }

  /** Every logged position not yet dequeued waits in the queue, so its
      recorded length is at least the head's. */
  lemma {:induction false} UndequeuedAtLeastHead(open: set<Pos>, start: Pos, q: seq<seq<Pos>>, log: seq<Pos>, d: nat,
                                                 dist: map<Pos, nat>, level: nat, p: Pos)
    requires Frontier(open, start, q, log, d, dist, level)
    requires |q| > 0 && p in dist && p !in Elems(log[..d])
    ensures |q[0]| <= dist[p]
  {
    assert p in log;
    var k :| 0 <= k < |log| && log[k] == p;
    assert forall j :: 0 <= j < d ==> log[..d][j] == log[j];
    assert k >= d;
    assert log[d + (k - d)] == p;
    assert dist[p] == |q[k - d]|;
    assert k - d == 0 || |q[0]| <= |q[k - d]|;
  }

  /** The position found first on a walk outside a set that does not hold
      the walk's last position. */
  lemma FirstOutside(w: seq<Pos>, s: set<Pos>) returns (i: nat)
    requires |w| >= 1 && w[|w| - 1] !in s
    ensures i < |w| && w[i] !in s
    ensures forall k :: 0 <= k < i ==> w[k] in s
  {
    i := 0;
    while w[i] in s
      invariant i < |w|
      invariant forall k :: 0 <= k < i ==> w[k] in s
      decreases |w| - i
    {
      i := i + 1;
    }
  }

  /** Along a walk whose positions so far were all expanded, the recorded
      length of each position is at most its place on the walk plus one. */
  lemma {:induction false} RecordedLengthAlongWalk(open: set<Pos>, expanded: set<Pos>, dist: map<Pos, nat>,
                                                   w: seq<Pos>, from: Pos, to: Pos, i: nat)
    requires IsWalk(open, w, from, to) && Closed(open, expanded, dist)
    requires from in dist && dist[from] == 1
    requires i < |w| && forall k :: 0 <= k < i ==> w[k] in expanded
    ensures w[i] in dist && dist[w[i]] <= i + 1
  {
    if i > 0 {
      RecordedLengthAlongWalk(open, expanded, dist, w, from, to, i - 1);
      assert Adjacent(w[i - 1], w[i]) && w[i] in open;
    }
  }

  /** BFS optimality: when every reached but unexpanded position has a
      recorded length of at least h and the target is unexpanded, no walk
      to the target has fewer than h positions. */
  lemma ShortestByCut(open: set<Pos>, expanded: set<Pos>, dist: map<Pos, nat>,
                      w: seq<Pos>, start: Pos, end: Pos, h: nat)
    requires IsWalk(open, w, start, end) && Closed(open, expanded, dist)
    requires start in dist && dist[start] == 1 && end !in expanded
    requires forall p :: p in dist && p !in expanded ==> h <= dist[p]
    ensures h <= |w|
  {
    var i := FirstOutside(w, expanded);
    RecordedLengthAlongWalk(open, expanded, dist, w, start, end, i);
  }

  /** Along a walk from an expanded start, a closed expanded set that
      holds every reached position holds every position of the walk. */
  lemma {:induction false} WalkStaysExpanded(open: set<Pos>, expanded: set<Pos>, dist: map<Pos, nat>,
                                             w: seq<Pos>, start: Pos, to: Pos, i: nat)
    requires IsWalk(open, w, start, to) && Closed(open, expanded, dist)
    requires start in expanded && dist.Keys <= expanded
    requires i < |w|
    ensures w[i] in expanded
  {
    if i > 0 {
      WalkStaysExpanded(open, expanded, dist, w, start, to, i - 1);
      assert Adjacent(w[i - 1], w[i]) && w[i] in open;
    }
  }

  /** BFS completeness: a closed set of expanded positions that holds the
      start and every reached position holds every position a walk from the
      start can get to. */
  lemma ReachableIsExpanded(open: set<Pos>, expanded: set<Pos>, dist: map<Pos, nat>,
                            w: seq<Pos>, start: Pos, to: Pos)
    requires Closed(open, expanded, dist)
    requires start in expanded && dist.Keys <= expanded
    ensures IsWalk(open, w, start, to) ==> to in expanded
  {
    if IsWalk(open, w, start, to) {
      WalkStaysExpanded(open, expanded, dist, w, start, to, |w| - 1);
    }
  }

  /** A walk that is also a shortest one and starts at its end is just that
      one position. */
  lemma ShortestToSelf(open: set<Pos>, w: seq<Pos>, start: Pos)
    requires IsWalk(open, w, start, start)
    requires forall v :: IsWalk(open, v, start, start) ==> |w| <= |v|
    ensures w == [start]
  {
    assert IsWalk(open, [start], start, start);
  }

  /** The path dequeued when the end is reached is a walk to the end and no
      walk to the end is shorter. */
  lemma DequeuedEndIsShortest(open: set<Pos>, start: Pos, q: seq<seq<Pos>>, log: seq<Pos>, d: nat,
                              dist: map<Pos, nat>, level: nat, end: Pos)
    requires Frontier(open, start, q, log, d, dist, level)
    requires Closed(open, Elems(log[..d]), dist) && end !in Elems(log[..d])
    requires |q| > 0 && q[0][|q[0]| - 1] == end
    ensures IsWalk(open, q[0], start, end)
    ensures forall w :: IsWalk(open, w, start, end) ==> |q[0]| <= |w|
  {
    assert IsWalk(open, q[0], start, log[d + 0]);
    forall w | IsWalk(open, w, start, end)
      ensures |q[0]| <= |w|
    {
      forall p | p in dist && p !in Elems(log[..d])
        ensures |q[0]| <= dist[p]
      {
        UndequeuedAtLeastHead(open, start, q, log, d, dist, level, p);
      }
      ShortestByCut(open, Elems(log[..d]), dist, w, start, end, |q[0]|);
    }
  }

  /** The state of _bfs between passes of its while loop: the queue and
      the enqueue log form a breadth-first frontier, the positions painted
      on the copy are those enqueued after `start`, the `d` positions already
      popped are the seen set, are closed under expansion and do not include
      `end`. */
  ghost predicate Searching(open: set<Pos>, start: Pos, end: Pos, q: seq<seq<Pos>>, seen: set<Pos>,
                            log: seq<Pos>, d: nat, dist: map<Pos, nat>, level: nat, painted: set<Pos>)
  {
    && Frontier(open, start, q, log, d, dist, level)
    && painted == Elems(log) - {start} && painted <= open
    && seen == Elems(log[..d]) && Closed(open, seen, dist) && end !in seen
    && (d == 0 ==> q == [[start]])
  }

  /** A popped path that ends at `end` is a shortest walk there; when
      start is end it is [start]. */
  lemma SearchFound(open: set<Pos>, start: Pos, end: Pos, q: seq<seq<Pos>>, seen: set<Pos>,
                    log: seq<Pos>, d: nat, dist: map<Pos, nat>, level: nat, painted: set<Pos>)
    requires Searching(open, start, end, q, seen, log, d, dist, level, painted) && |q| > 0
    requires q[0][|q[0]| - 1] == end
    ensures IsWalk(open, q[0], start, end)
    ensures forall w :: IsWalk(open, w, start, end) ==> |q[0]| <= |w|
    ensures start == end ==> q[0] == [start]
  {
    DequeuedEndIsShortest(open, start, q, log, d, dist, level, end);
    if start == end {
      ShortestToSelf(open, q[0], start);
    }
  }

  /** Expanding the popped path, when it does not end at `end`, keeps the
      search state: the popped position joins the seen ones, and either
      more positions are painted or the queue is shorter. */
  lemma SearchExpanded(open: set<Pos>, start: Pos, end: Pos, q: seq<seq<Pos>>, seen: set<Pos>,
                       log: seq<Pos>, d: nat, dist: map<Pos, nat>, level: nat, painted: set<Pos>,
                       q': seq<seq<Pos>>, log': seq<Pos>, dist': map<Pos, nat>, painted': set<Pos>)
    requires Searching(open, start, end, q, seen, log, d, dist, level, painted) && |q| > 0
    requires q[0][|q[0]| - 1] != end
    requires Frontier(open, start, q', log', d + 1, dist', |q[0]|)
    requires painted' == Elems(log') - {start} && painted <= painted' <= open
    requires painted' == painted ==> q' == q[1..]
    requires seen + {q[0][|q[0]| - 1]} == Elems(log'[..d + 1])
    requires forall p :: p in dist ==> p in dist' && dist'[p] == dist[p]
    requires forall v :: v in open && Adjacent(q[0][|q[0]| - 1], v) ==> v in dist' && dist'[v] <= |q[0]| + 1
    ensures Searching(open, start, end, q', seen + {q[0][|q[0]| - 1]}, log', d + 1, dist', |q[0]|, painted')
    ensures open - painted' < open - painted || (painted' == painted && |q'| < |q|)
  {
    FrontierDequeue(open, start, q, log, d, dist, level);
    ClosedExpand(open, seen, dist, dist', q[0][|q[0]| - 1]);
    if painted' != painted {
      FewerUnpainted(open, painted, painted');
    }
  }

  /** A search state with an empty queue has expanded every position
      reachable from `start`, and `end` was not among them. */
  lemma SearchExhausted(open: set<Pos>, start: Pos, end: Pos, q: seq<seq<Pos>>, seen: set<Pos>,
                        log: seq<Pos>, d: nat, dist: map<Pos, nat>, level: nat, painted: set<Pos>)
    requires Searching(open, start, end, q, seen, log, d, dist, level, painted) && |q| == 0
    ensures start != end
    ensures forall w :: !IsWalk(open, w, start, end)
    ensures |log| >= 1 && log[0] == start && Distinct(log)
    ensures forall k :: 1 <= k < |log| ==> log[k] in open
    ensures d == |log|
  {
    ExhaustedMeansNoWalk(open, start, log, d, dist, level, end);
  }

  /** When the queue runs empty before the end is dequeued, no walk leads
      from the start to the end. */
  lemma ExhaustedMeansNoWalk(open: set<Pos>, start: Pos, log: seq<Pos>, d: nat,
                             dist: map<Pos, nat>, level: nat, end: Pos)
    requires Frontier(open, start, [], log, d, dist, level)
    requires Closed(open, Elems(log[..d]), dist) && end !in Elems(log[..d])
    ensures start != end
    ensures forall w :: !IsWalk(open, w, start, end)
  {
    assert log[..d] == log;
    forall w
      ensures !IsWalk(open, w, start, end)
    {
      ReachableIsExpanded(open, Elems(log), dist, w, start, end);
    }
  }
}
