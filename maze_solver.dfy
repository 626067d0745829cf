/** The Solver object of maze_solve/solve.py: an RGB pixel grid indexed
    pixels[x, y], the two anchors, and the operations that clean the grid,
    draw markers, locate a colour's bounding-box centre, search for a
    shortest path and render the result. */
module MazeSolver {
  import opened Wrappers
  import opened MazeColors
  import opened MazeGrid
  import opened MazeWalks

  /** Half the side of the anchor square (d = 1 in _draw_square). */
  const SquareHalf := 1
  /** Half the arm of the failure cross (d = 10 in _draw_x). */
  const CrossHalf := 10

  /** The 2x2 block _draw_square paints: range(-1, 1) in each axis. */
  predicate InSquare(center: Pos, x: int, y: int)
  {
    center.x - SquareHalf <= x < center.x + SquareHalf && center.y - SquareHalf <= y < center.y + SquareHalf
  }

  /** The cells _draw_x paints: range(-10, 10) along the anchor's row and
      along its column, so each arm reaches 10 cells back and 9 forward. */
  predicate InCross(center: Pos, x: int, y: int)
  {
    (y == center.y && center.x - CrossHalf <= x < center.x + CrossHalf) ||
    (x == center.x && center.y - CrossHalf <= y < center.y + CrossHalf)
  }

  /** The colour _clean_image leaves at p: the anchors are only compared
      with their colours (lines 114 and 117 use ==), so they keep theirs. */
  function CleanedAt(p: Pos, c: Color, start: Pos, end: Pos): Color
  {
    if p == start || p == end then c else CleanedColor(c)
  }

  /** The colour a pixel has once the constructor has drawn the anchor
      squares, cleaned the grid and drawn the squares again. */
  function PreparedAt(p: Pos, c: Color, start: Pos, end: Pos): Color
  {
    if InSquare(end, p.x, p.y) then EndColor
    else if InSquare(start, p.x, p.y) then StartColor
    else CleanedColor(c)
  }

  /** The bounding box of a set of pixels. */
  datatype Box = Box(xMin: int, xMax: int, yMin: int, yMax: int)

  /** What solve ends with: a found path, or no path and exit status 1. */
  datatype Outcome = Solved(path: seq<Pos>) | NoPathFound
  {
    function ExitStatus(): int
    {
      if Solved? then 0 else 1
    }
  }

  /** The painting loop shared by _bfs and solve: every position of the path
      takes the colour; every other cell keeps its own. */
  method PaintPath(a: array2<Color>, path: seq<Pos>, color: Color)
    requires forall k :: 0 <= k < |path| ==> InBounds(a.Length0, a.Length1, path[k])
    modifies a
    ensures forall x, y {:trigger a[x, y]} :: 0 <= x < a.Length0 && 0 <= y < a.Length1 ==>
              a[x, y] == if Pos(x, y) in path then color else old(a[x, y])
  {
    for k := 0 to |path|
      invariant forall x, y {:trigger a[x, y]} :: 0 <= x < a.Length0 && 0 <= y < a.Length1 ==>
                  a[x, y] == if Pos(x, y) in path[..k] then color else old(a[x, y])
    {
      a[path[k].x, path[k].y] := color;
      assert path[..k + 1] == path[..k] + [path[k]];
    }
    assert path[..|path|] == path;
  }

  class Solver {
    /** The image's pixel access object; the solver writes through it. */
    const pixels: array2<Color>
    const start: Pos
    const end: Pos
    /** Number of expanded positions of the last search. */
    var iterations: nat

    predicate SquareFits(p: Pos)
    {
      1 <= p.x < pixels.Length0 && 1 <= p.y < pixels.Length1
    }

    predicate CrossFits(p: Pos)
    {
      CrossHalf <= p.x && p.x + CrossHalf <= pixels.Length0 &&
      CrossHalf <= p.y && p.y + CrossHalf <= pixels.Length1
    }

    ghost predicate Valid()
    {
      SquareFits(start) && SquareFits(end)
    }

    /** The positions _is_white accepts in the current grid. */
    ghost function OpenCells(): (open: set<Pos>)
      reads pixels
      ensures forall p {:trigger p in open} :: p in open <==>
                InBounds(pixels.Length0, pixels.Length1, p) && IsWhite(pixels[p.x, p.y])
    {
      set x, y {:trigger pixels[x, y]} | 0 <= x < pixels.Length0 && 0 <= y < pixels.Length1 && IsWhite(pixels[x, y]) :: Pos(x, y)
    }

    /** Every position of a walk from an in-bounds start lies in the grid. */
    lemma WalkInBounds(w: seq<Pos>, from: Pos, to: Pos)
      requires InBounds(pixels.Length0, pixels.Length1, from) && IsWalk(OpenCells(), w, from, to)
      ensures forall k :: 0 <= k < |w| ==> InBounds(pixels.Length0, pixels.Length1, w[k])
    {
      forall k | 0 <= k < |w|
        ensures InBounds(pixels.Length0, pixels.Length1, w[k])
      {
        if k > 0 {
          assert w[k] in OpenCells();
        }
      }
    }

    /** __init__ with the anchors given (the source hard-codes them): mark
        both anchors, clean the grid, mark both anchors again. */
    constructor (image: array2<Color>, start: Pos, end: Pos)
      requires 1 <= start.x < image.Length0 && 1 <= start.y < image.Length1
      requires 1 <= end.x < image.Length0 && 1 <= end.y < image.Length1
      modifies image
      ensures pixels == image && this.start == start && this.end == end && iterations == 0
      ensures Valid()
      ensures forall x, y {:trigger image[x, y]} :: 0 <= x < image.Length0 && 0 <= y < image.Length1 ==>
                image[x, y] == PreparedAt(Pos(x, y), old(image[x, y]), start, end)
    {
      pixels := image;
      this.start := start;
      this.end := end;
      iterations := 0;
      new;
      DrawSquare(start, StartColor);
      DrawSquare(end, EndColor);
      CleanImage();
      DrawSquare(start, StartColor);
      DrawSquare(end, EndColor);
    }

    /** A pixel whose nearest palette colour is `color`. */
    ghost predicate Matches(color: Color, x: int, y: int)
      reads pixels
    {
      0 <= x < pixels.Length0 && 0 <= y < pixels.Length1 && ClosestColor(pixels[x, y]) == color
    }

    /** b is the smallest box holding every pixel that matches `color`:
        it holds them all and each of its four sides touches one. */
    ghost predicate IsBoundingBox(color: Color, b: Box)
      reads pixels
    {
      && (forall x, y :: Matches(color, x, y) ==> b.xMin <= x <= b.xMax && b.yMin <= y <= b.yMax)
      && (exists y :: Matches(color, b.xMin, y)) && (exists y :: Matches(color, b.xMax, y))
      && (exists x :: Matches(color, x, b.yMin)) && (exists x :: Matches(color, x, b.yMax))
    }

    /** Every matching pixel before position (i, j), in the scan order of
        _find_color_center (column by column, top to bottom), lies in b;
        and if there is one, `found` is set. */
    ghost predicate BoxCovers(color: Color, found: bool, b: Box, i: int, j: int)
      reads pixels
    {
      forall x, y {:trigger Matches(color, x, y)} :: Matches(color, x, y) && (x < i || (x == i && y < j)) ==>
        found && b.xMin <= x <= b.xMax && b.yMin <= y <= b.yMax
    }

    /** Each side of b touches a matching pixel; w names one per side. */
    ghost predicate SidesTouch(color: Color, b: Box, w: (int, int, int, int))
      reads pixels
    {
      Matches(color, b.xMin, w.0) && Matches(color, b.xMax, w.1) && Matches(color, w.2, b.yMin) && Matches(color, w.3, b.yMax)
    }

    /** _find_color_center: the centre of the bounding box of the pixels
        classified as `color`, or ((0, 0), False) when there is none. */
    method FindColorCenter(color: Color) returns (center: (real, real), found: bool)
      ensures found <==> exists x, y :: Matches(color, x, y)
      ensures !found ==> center == (0.0, 0.0)
      ensures found ==> exists b :: IsBoundingBox(color, b) &&
                          center == (Mean([b.xMin, b.xMax]), Mean([b.yMin, b.yMax]))
    {
      found := false;
      // The source starts the minima at +inf and the maxima at -inf, so the
      // first match sets all four; `found` stands for "still infinite".
      var b := Box(0, 0, 0, 0);
      ghost var w := (0, 0, 0, 0);
      for i := 0 to pixels.Length0
        invariant BoxCovers(color, found, b, i, 0)
        invariant found ==> SidesTouch(color, b, w)
      {
        found, b, w := ScanColumn(color, i, found, b, w);
      }
      if !found {
        return (0.0, 0.0), false;
      }
      assert IsBoundingBox(color, b);
      center := (Mean([b.xMin, b.xMax]), Mean([b.yMin, b.yMax]));
    }

    /** The inner loop of _find_color_center over column i: each matching
        pixel widens the box to hold it. */
    method ScanColumn(color: Color, i: int, found0: bool, b0: Box, ghost w0: (int, int, int, int))
      returns (found: bool, b: Box, ghost w: (int, int, int, int))
      requires 0 <= i < pixels.Length0
      requires BoxCovers(color, found0, b0, i, 0) && (found0 ==> SidesTouch(color, b0, w0))
      ensures BoxCovers(color, found, b, i + 1, 0) && (found ==> SidesTouch(color, b, w))
    {
      found, b, w := found0, b0, w0;
      for j := 0 to pixels.Length1
        invariant BoxCovers(color, found, b, i, j)
        invariant found ==> SidesTouch(color, b, w)
      {
        var code := ClosestColor(pixels[i, j]);
        if code == color {
          if !found {
            b, w := Box(i, i, j, j), (j, j, i, i);
          } else {
            if i < b.xMin { b, w := b.(xMin := i), w.(0 := j); }
            if j < b.yMin { b, w := b.(yMin := j), w.(2 := i); }
            if i > b.xMax { b, w := b.(xMax := i), w.(1 := j); }
            if j > b.yMax { b, w := b.(yMax := j), w.(3 := i); }
          }
          found := true;
        }
      }
      assert BoxCovers(color, found, b, i + 1, 0) by {
        forall x, y | Matches(color, x, y) && x < i + 1
          ensures found && b.xMin <= x <= b.xMax && b.yMin <= y <= b.yMax
        {
          assert x < i || (x == i && y < pixels.Length1);
        }
      }
    }

    /** _bfs: breadth-first search over a copy of the grid, from `start` to
        `end`, through positions _is_white accepts. The result is a shortest
        such path, or None exactly when there is none. `log` lists the
        positions in the order they were enqueued (start first): none
        twice, and each open when enqueued. The grid itself is unchanged. */
    method Bfs(start: Pos, end: Pos) returns (result: Option<seq<Pos>>, ghost log: seq<Pos>)
      requires InBounds(pixels.Length0, pixels.Length1, start)
      modifies this`iterations
      ensures result.Some? ==> IsWalk(old(OpenCells()), result.value, start, end)
      ensures result.Some? ==> forall w :: IsWalk(old(OpenCells()), w, start, end) ==> |result.value| <= |w|
      ensures result.None? ==> forall w :: !IsWalk(old(OpenCells()), w, start, end)
      ensures start == end ==> result == Some([start])
      ensures |log| >= 1 && log[0] == start && Distinct(log)
      ensures forall k :: 1 <= k < |log| ==> log[k] in old(OpenCells())
      ensures result.None? ==> iterations == |log|
    {
      ghost var open := OpenCells();
      var work := CopyPixels();
      iterations := 0;
      FrontierInit(open, start);
      result, log := Explore(work, [[start]], {}, open, start, end, [start], map[start := 1], {});
    }

    /** The while loop of _bfs, from the queue holding only [start]: one
        SearchStep per pass until a path to `end` is popped or the queue
        runs dry. */
    method Explore(work: array2<Color>, q0: seq<seq<Pos>>, seen0: set<Pos>, ghost open: set<Pos>,
                   ghost start: Pos, end: Pos, ghost log0: seq<Pos>, ghost dist0: map<Pos, nat>, ghost painted0: set<Pos>)
      returns (result: Option<seq<Pos>>, ghost log: seq<Pos>)
      requires work != pixels && PaintedCopy(work, painted0) && open == OpenCells()
      requires InBounds(pixels.Length0, pixels.Length1, start) && iterations == 0
      requires Searching(open, start, end, q0, seen0, log0, 0, dist0, 1, painted0)
      modifies work, this`iterations
      ensures result.Some? ==> IsWalk(open, result.value, start, end)
      ensures result.Some? ==> forall w :: IsWalk(open, w, start, end) ==> |result.value| <= |w|
      ensures result.None? ==> forall w :: !IsWalk(open, w, start, end)
      ensures start == end ==> result == Some([start])
      ensures |log| >= 1 && log[0] == start && Distinct(log)
      ensures forall k :: 1 <= k < |log| ==> log[k] in open
      ensures result.None? ==> iterations == |log|
    {
      var q, seen := q0, seen0;
      log := log0;
      ghost var dist, painted := dist0, painted0;
      ghost var level: nat := 1;
      ghost var d: nat := 0;

      while |q| != 0
        invariant iterations == d
        invariant PaintedCopy(work, painted)
        invariant Searching(open, start, end, q, seen, log, d, dist, level, painted)
        decreases open - painted, |q|
      {
        var found, q', seen';
        ghost var log', dist', painted';
        found, q', seen', log', dist', painted' := SearchStep(work, q, seen, open, start, end, log, d, dist, level, painted);
        if found.Some? {
          return found, log;
        }
        level := |q[0]|;
        q, seen, log, dist, painted := q', seen', log', dist', painted';
        d := d + 1;
      }

      SearchExhausted(open, start, end, q, seen, log, d, dist, level, painted);
      return None, log;
    }

    /** One pass of the while loop of _bfs: pop the head path and mark its
        last position seen; if that is `end`, paint the path on the copy and
        return it, a shortest walk to `end`; otherwise expand its neighbours.
        The search state is kept, the seen positions stay closed, and either
        more positions are painted or the queue is shorter. */
    method SearchStep(work: array2<Color>, q: seq<seq<Pos>>, seen: set<Pos>,
                      ghost open: set<Pos>, ghost start: Pos, end: Pos, ghost log: seq<Pos>, ghost d: nat,
                      ghost dist: map<Pos, nat>, ghost level: nat, ghost painted: set<Pos>)
      returns (found: Option<seq<Pos>>, q': seq<seq<Pos>>, seen': set<Pos>, ghost log': seq<Pos>,
               ghost dist': map<Pos, nat>, ghost painted': set<Pos>)
      requires work != pixels && PaintedCopy(work, painted) && open == OpenCells()
      requires InBounds(pixels.Length0, pixels.Length1, start)
      requires Searching(open, start, end, q, seen, log, d, dist, level, painted) && |q| > 0
      modifies work, this`iterations
      ensures iterations == if found.Some? then old(iterations) else old(iterations) + 1
      ensures var next := NextPass(open, painted, end, q, seen, log); found == next.found && q' == next.queue && seen' == next.seen && log' == next.log
      ensures found.Some? ==> log' == log && IsWalk(open, found.value, start, end)
      ensures found.Some? ==> forall w :: IsWalk(open, w, start, end) ==> |found.value| <= |w|
      ensures found.Some? && start == end ==> found.value == [start]
      ensures found.None? ==> start != end
      ensures found.None? ==> PaintedCopy(work, painted')
      ensures found.None? ==> Searching(open, start, end, q', seen', log', d + 1, dist', |q[0]|, painted')
      ensures found.None? ==> open - painted' < open - painted || (painted' == painted && |q'| < |q|)
    {
      FrontierDequeue(open, start, q, log, d, dist, level);
      var path := q[0];
      q' := q[1..];
      var pos := path[|path| - 1];
      seen' := seen + {pos};

      if pos == end {
        SearchFound(open, start, end, q, seen, log, d, dist, level, painted);
        // Draw solution path on the copy.
        WalkInBounds(path, start, end);
        PaintPath(work, path, Red);
        return Some(path), q', seen', log, dist, painted;
      }

      found := None;
      assert seen' == Elems(log[..d + 1]);
      assert log[d + 1 - 1] == pos;
      AdmittedIsAdmits(work, seen', painted, Neighbours(pos));
      q', log', dist', painted' := ExpandNeighbours(work, path, seen', q', open, start, log, d + 1, dist, painted);
      SearchExpanded(open, start, end, q, seen, log, d, dist, level, painted, q', log', dist', painted');
      // self.iterations += 1 ends the pass
      iterations := iterations + 1;
    }

    /** image.copy(): a fresh grid with the same contents, which the
        search paints instead of the image. */
    method CopyPixels() returns (work: array2<Color>)
      ensures fresh(work) && PaintedCopy(work, {})
    {
      var width, height := pixels.Length0, pixels.Length1;
      work := new Color[width, height]((x, y) reads pixels requires 0 <= x < width && 0 <= y < height => pixels[x, y]);
    }

    /** The search copy equals the grid except at the painted positions,
        which hold the frontier colour. */
    ghost predicate PaintedCopy(work: array2<Color>, painted: set<Pos>)
      reads pixels, work
    {
      && work.Length0 == pixels.Length0 && work.Length1 == pixels.Length1
      && forall x, y {:trigger work[x, y]} :: 0 <= x < work.Length0 && 0 <= y < work.Length1 ==>
           work[x, y] == if Pos(x, y) in painted then FrontierColor else pixels[x, y]
    }

    /** The neighbour loop of _bfs: enqueue, and paint with the frontier
        colour, each neighbour of the path's last position that passes the
        test, in the order of _get_neighbours. Afterwards every open
        neighbour has been reached with a path at most one longer than
        `path`. */
    method ExpandNeighbours(work: array2<Color>, path: seq<Pos>, seen: set<Pos>, q: seq<seq<Pos>>,
                            ghost open: set<Pos>, ghost start: Pos, ghost log: seq<Pos>, ghost d: nat,
                            ghost dist: map<Pos, nat>, ghost painted: set<Pos>)
      returns (q': seq<seq<Pos>>, ghost log': seq<Pos>, ghost dist': map<Pos, nat>, ghost painted': set<Pos>)
      requires work != pixels && PaintedCopy(work, painted) && open == OpenCells()
      requires Frontier(open, start, q, log, d, dist, |path|)
      requires 1 <= d && IsWalk(open, path, start, log[d - 1]) && dist[log[d - 1]] == |path|
      requires painted == Elems(log) - {start} && painted <= open
      requires seen == Elems(log[..d])
      modifies work
      ensures log' == log + old(Admitted(work, seen, Neighbours(path[|path| - 1])))
      ensures q' == q + Extensions(path, old(Admitted(work, seen, Neighbours(path[|path| - 1]))))
      ensures PaintedCopy(work, painted')
      ensures Frontier(open, start, q', log', d, dist', |path|)
      ensures painted' == Elems(log') - {start} && painted <= painted' <= open
      ensures painted' == painted ==> q' == q
      ensures seen == Elems(log'[..d])
      ensures forall p :: p in dist ==> p in dist' && dist'[p] == dist[p]
      ensures forall v :: v in open && Adjacent(path[|path| - 1], v) ==> v in dist' && dist'[v] <= |path| + 1
    {
      var pos := path[|path| - 1];
      var ns := Neighbours(pos);
      AdmittedIsAdmits(work, seen, painted, ns);
      q', log', dist', painted' := q, log, dist, painted;
      for i := 0 to 4
        invariant log' == log + Admits(open, seen, painted, ns[..i])
        invariant q' == q + Extensions(path, Admits(open, seen, painted, ns[..i]))
        invariant PaintedCopy(work, painted')
        invariant Frontier(open, start, q', log', d, dist', |path|)
        invariant painted' == Elems(log') - {start} && painted <= painted' <= open
        invariant painted' == painted ==> q' == q
        invariant |log| <= |log'| && log'[d - 1] == log[d - 1] && seen == Elems(log'[..d])
        invariant forall p :: p in dist ==> p in dist' && dist'[p] == dist[p]
        invariant forall k :: 0 <= k < i && ns[k] in open ==> ns[k] in dist' && dist'[ns[k]] <= |path| + 1
      {
        q', log', dist', painted' := ExpandStep(work, path, ns, i, seen, q', open, start, d, q, log, dist, painted, log', dist', painted');
      }
      assert ns[..4] == ns;
    }

    /** Pass i of the neighbour loop of _bfs, from the state after the
        first i neighbours to the state after i + 1: the queue and the log
        grow by the neighbours the test admitted, in order. */
    method ExpandStep(work: array2<Color>, path: seq<Pos>, ns: seq<Pos>, i: nat, seen: set<Pos>, qi: seq<seq<Pos>>,
                      ghost open: set<Pos>, ghost start: Pos, ghost d: nat,
                      ghost q: seq<seq<Pos>>, ghost log: seq<Pos>, ghost dist: map<Pos, nat>, ghost painted: set<Pos>,
                      ghost logi: seq<Pos>, ghost disti: map<Pos, nat>, ghost paintedi: set<Pos>)
      returns (q': seq<seq<Pos>>, ghost log': seq<Pos>, ghost dist': map<Pos, nat>, ghost painted': set<Pos>)
      requires work != pixels && open == OpenCells()
      requires |path| >= 1 && ns == Neighbours(path[|path| - 1]) && i < |ns|
      requires 1 <= d <= |log| && IsWalk(open, path, start, log[d - 1])
      requires painted == Elems(log) - {start} && seen == Elems(log[..d])
      requires logi == log + Admits(open, seen, painted, ns[..i])
      requires qi == q + Extensions(path, Admits(open, seen, painted, ns[..i]))
      requires PaintedCopy(work, paintedi)
      requires Frontier(open, start, qi, logi, d, disti, |path|)
      requires paintedi == Elems(logi) - {start} && painted <= paintedi <= open
      requires paintedi == painted ==> qi == q
      requires |log| <= |logi| && logi[d - 1] == log[d - 1] && seen == Elems(logi[..d])
      requires forall p :: p in dist ==> p in disti && disti[p] == dist[p]
      requires forall k :: 0 <= k < i && ns[k] in open ==> ns[k] in disti && disti[ns[k]] <= |path| + 1
      modifies work
      ensures log' == log + Admits(open, seen, painted, ns[..i + 1])
      ensures q' == q + Extensions(path, Admits(open, seen, painted, ns[..i + 1]))
      ensures PaintedCopy(work, painted')
      ensures Frontier(open, start, q', log', d, dist', |path|)
      ensures painted' == Elems(log') - {start} && painted <= painted' <= open
      ensures painted' == painted ==> q' == q
      ensures |log| <= |log'| && log'[d - 1] == log[d - 1] && seen == Elems(log'[..d])
      ensures forall p :: p in dist ==> p in dist' && dist'[p] == dist[p]
      ensures forall k :: 0 <= k < i + 1 && ns[k] in open ==> ns[k] in dist' && dist'[ns[k]] <= |path| + 1
    {
      ghost var admitted := Admits(open, seen, painted, ns[..i]);
      ghost var admit := ns[i] !in seen && ns[i] in open && ns[i] !in painted;
      EligibleIff(work, seen, paintedi, ns[i]);
      AdmitsMembers(open, seen, painted, ns[..i]);
      assert ns[i] !in admitted;
      assert ns[i] in paintedi <==> ns[i] in painted by {
        assert ns[i] in Elems(logi) <==> ns[i] in Elems(log) || ns[i] in admitted;
      }
      AdmitsStep(open, seen, painted, ns, i);
      q', log', dist', painted' := VisitNeighbour(work, path, ns[i], seen, qi, open, start, logi, d, disti, paintedi);
      if admit {
        ExtensionsAppend(q, log, path, admitted, ns[i]);
      } else {
        assert admitted + [] == admitted;
      }
    }

    /** The test of the neighbour loop of _bfs, on the copy: the neighbour
        is unseen, in bounds and white. */
    predicate Eligible(work: array2<Color>, seen: set<Pos>, n: Pos)
      reads work
    {
      n !in seen && InBounds(work.Length0, work.Length1, n) && IsWhite(work[n.x, n.y])
    }

    /** The positions of ns that pass the neighbour test on the copy as it
        is, in the order of ns. */
    ghost function Admitted(work: array2<Color>, seen: set<Pos>, ns: seq<Pos>): (cells: seq<Pos>)
      reads work
      ensures |cells| <= |ns|
    {
      if |ns| == 0 then []
      else
        var last := ns[|ns| - 1];
        Admitted(work, seen, ns[..|ns| - 1]) + (if Eligible(work, seen, last) then [last] else [])
    }

    /** On a copy painted at `painted`, the neighbour test admits exactly the
        unseen open positions not yet painted: the frontier colour is not
        white. */
    lemma EligibleIff(work: array2<Color>, seen: set<Pos>, painted: set<Pos>, m: Pos)
      requires PaintedCopy(work, painted)
      ensures Eligible(work, seen, m) <==> m !in seen && m in OpenCells() && m !in painted
    {
      IsWhiteExactly(FrontierColor);
      if InBounds(work.Length0, work.Length1, m) {
        assert work[m.x, m.y] == if m in painted then FrontierColor else pixels[m.x, m.y];
      }
    }

    lemma {:induction false} AdmittedIsAdmits(work: array2<Color>, seen: set<Pos>, painted: set<Pos>, ns: seq<Pos>)
      requires PaintedCopy(work, painted)
      ensures Admitted(work, seen, ns) == Admits(OpenCells(), seen, painted, ns)
    {
      if |ns| > 0 {
        AdmittedIsAdmits(work, seen, painted, ns[..|ns| - 1]);
        EligibleIff(work, seen, painted, ns[|ns| - 1]);
      }
    }

    /** One step of the neighbour loop of _bfs: a neighbour that passes the
        test is painted with the frontier colour and enqueued with the path
        extended by it; any other changes nothing. An open neighbour ends up
        reached with a path at most one longer than `path`. */
    method VisitNeighbour(work: array2<Color>, path: seq<Pos>, n: Pos, seen: set<Pos>, q: seq<seq<Pos>>,
                          ghost open: set<Pos>, ghost start: Pos, ghost log: seq<Pos>, ghost d: nat,
                          ghost dist: map<Pos, nat>, ghost painted: set<Pos>)
      returns (q': seq<seq<Pos>>, ghost log': seq<Pos>, ghost dist': map<Pos, nat>, ghost painted': set<Pos>)
      requires work != pixels && PaintedCopy(work, painted) && open == OpenCells()
      requires Frontier(open, start, q, log, d, dist, |path|)
      requires 1 <= d <= |log| && IsWalk(open, path, start, log[d - 1]) && Adjacent(path[|path| - 1], n)
      requires painted == Elems(log) - {start} && painted <= open
      requires seen == Elems(log[..d])
      modifies work
      ensures if old(Eligible(work, seen, n))
              then q' == q + [path + [n]] && log' == log + [n] && dist' == dist[n := |path| + 1] && painted' == painted + {n}
              else q' == q && log' == log && dist' == dist && painted' == painted
      ensures PaintedCopy(work, painted')
      ensures Frontier(open, start, q', log', d, dist', |path|)
      ensures painted' == Elems(log') - {start} && painted <= painted' <= open
      ensures painted' == painted ==> q' == q
      ensures |log| <= |log'| && log'[d - 1] == log[d - 1] && seen == Elems(log'[..d])
      ensures forall p :: p in dist ==> p in dist' && dist'[p] == dist[p]
      ensures n in open ==> n in dist' && dist'[n] <= |path| + 1
    {
      q', log', dist', painted' := q, log, dist, painted;
      if Eligible(work, seen, n) {
        work[n.x, n.y] := FrontierColor;
        assert log[0] in log[..d];
        FrontierEnqueue(open, start, q, log, d, dist, |path|, path, n);
        q' := q + [path + [n]];
        log' := log + [n];
        dist' := dist[n := |path| + 1];
        painted' := painted + {n};
        assert log'[..d] == log[..d];
      }
    }

    /** solve: paint a found path red on the grid; otherwise draw blue
        crosses at both anchors and end with exit status 1. */
    method Solve() returns (outcome: Outcome)
      requires Valid() && ((forall w :: !IsWalk(OpenCells(), w, start, end)) ==> CrossFits(start) && CrossFits(end))
      modifies this`iterations, pixels
      ensures outcome.Solved? ==> IsWalk(old(OpenCells()), outcome.path, start, end)
      ensures outcome.Solved? ==> forall w :: IsWalk(old(OpenCells()), w, start, end) ==> |outcome.path| <= |w|
      ensures outcome.Solved? ==> forall x, y {:trigger pixels[x, y]} :: 0 <= x < pixels.Length0 && 0 <= y < pixels.Length1 ==>
                pixels[x, y] == if Pos(x, y) in outcome.path then Red else old(pixels[x, y])
      ensures outcome.NoPathFound? ==> forall w :: !IsWalk(old(OpenCells()), w, start, end)
      ensures outcome.NoPathFound? ==> forall x, y {:trigger pixels[x, y]} :: 0 <= x < pixels.Length0 && 0 <= y < pixels.Length1 ==>
                pixels[x, y] == if InCross(start, x, y) || InCross(end, x, y) then Blue else old(pixels[x, y])
    {
      ghost var open := OpenCells();
      var path, log := Bfs(start, end);
      assert OpenCells() == open;
      if path.None? {
        DrawX(start, Blue);
        DrawX(end, Blue);
        return NoPathFound;
      }
      var p := path.value;
      // Draw solution path.
      WalkInBounds(p, start, end);
      PaintPath(pixels, p, Red);
      return Solved(p);
    }

    /** _draw_square: paint the 2x2 block whose bottom-right cell is pos. */
    method DrawSquare(pos: Pos, color: Color)
      requires SquareFits(pos)
      modifies pixels
      ensures forall x, y {:trigger pixels[x, y]} :: 0 <= x < pixels.Length0 && 0 <= y < pixels.Length1 ==>
                pixels[x, y] == if InSquare(pos, x, y) then color else old(pixels[x, y])
    {
      for i := -SquareHalf to SquareHalf
        invariant forall x, y {:trigger pixels[x, y]} :: 0 <= x < pixels.Length0 && 0 <= y < pixels.Length1 ==>
                    pixels[x, y] == if InSquare(pos, x, y) && x < pos.x + i then color else old(pixels[x, y])
      {
        for j := -SquareHalf to SquareHalf
          invariant forall x, y {:trigger pixels[x, y]} :: 0 <= x < pixels.Length0 && 0 <= y < pixels.Length1 ==>
                      pixels[x, y] == if InSquare(pos, x, y) && (x < pos.x + i || (x == pos.x + i && y < pos.y + j))
                                      then color else old(pixels[x, y])
        {
          pixels[pos.x + i, pos.y + j] := color;
        }
      }
    }

    /** _draw_x: paint the cross centred at pos. */
    method DrawX(pos: Pos, color: Color)
      requires CrossFits(pos)
      modifies pixels
      ensures forall x, y {:trigger pixels[x, y]} :: 0 <= x < pixels.Length0 && 0 <= y < pixels.Length1 ==>
                pixels[x, y] == if InCross(pos, x, y) then color else old(pixels[x, y])
    {
      for i := -CrossHalf to CrossHalf
        invariant forall x, y {:trigger pixels[x, y]} :: 0 <= x < pixels.Length0 && 0 <= y < pixels.Length1 ==>
                    pixels[x, y] == if y == pos.y && pos.x - CrossHalf <= x < pos.x + i then color else old(pixels[x, y])
      {
        pixels[pos.x + i, pos.y] := color;
      }
      for j := -CrossHalf to CrossHalf
        invariant forall x, y {:trigger pixels[x, y]} :: 0 <= x < pixels.Length0 && 0 <= y < pixels.Length1 ==>
                    pixels[x, y] == if (y == pos.y && pos.x - CrossHalf <= x < pos.x + CrossHalf) ||
                                       (x == pos.x && pos.y - CrossHalf <= y < pos.y + j)
                                    then color else old(pixels[x, y])
      {
        pixels[pos.x, pos.y + j] := color;
      }
    }

    /** _clean_image: every pixel but the two anchors becomes its cleaned
        colour. */
    method CleanImage()
      modifies pixels
      ensures forall x, y {:trigger pixels[x, y]} :: 0 <= x < pixels.Length0 && 0 <= y < pixels.Length1 ==>
                pixels[x, y] == CleanedAt(Pos(x, y), old(pixels[x, y]), start, end)
    {
      for i := 0 to pixels.Length0
        invariant forall x, y {:trigger pixels[x, y]} :: 0 <= x < pixels.Length0 && 0 <= y < pixels.Length1 ==>
                    pixels[x, y] == if x < i then CleanedAt(Pos(x, y), old(pixels[x, y]), start, end) else old(pixels[x, y])
      {
        for j := 0 to pixels.Length1
          invariant forall x, y {:trigger pixels[x, y]} :: 0 <= x < pixels.Length0 && 0 <= y < pixels.Length1 ==>
                      pixels[x, y] == if x < i || (x == i && y < j)
                                      then CleanedAt(Pos(x, y), old(pixels[x, y]), start, end) else old(pixels[x, y])
        {
          if Pos(i, j) == start {
            // the source compares the pixel with START_COLOR and moves on
            continue;
          }
          if Pos(i, j) == end {
            continue;
          }
          var closest := ClosestColor(pixels[i, j]);
          // for color in [WHITE, BLACK]
          if closest == White {
            pixels[i, j] := White;
          }
          if closest == Black {
            pixels[i, j] := Black;
          }
          // for color in [START_COLOR, END_COLOR]
          if closest == StartColor {
            pixels[i, j] := White;
          }
          if closest == EndColor {
            pixels[i, j] := White;
          }
        }
      }
    }
  }
}
