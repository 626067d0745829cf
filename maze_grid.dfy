/** Positions of the pixel grid and the pure helpers of the maze solver
    (maze_solve/solve.py): bounds, neighbours, walkability and mean. */
module MazeGrid {
  import opened MazeColors

  /** A pixel coordinate; pixels[x, y] is column x of row y. */
  datatype Pos = Pos(x: int, y: int)

  /** Two positions differ by one unit in exactly one axis. */
  predicate Adjacent(p: Pos, q: Pos)
  {
    (p.x == q.x && (p.y - q.y == 1 || q.y - p.y == 1)) ||
    (p.y == q.y && (p.x - q.x == 1 || q.x - p.x == 1))
  }

  /** _in_bounds for an image of the given width and height. */
  predicate InBounds(width: int, height: int, p: Pos)
  {
    !(p.x < 0 || p.y < 0 || p.x >= width || p.y >= height)
  }

  /** In bounds means a valid index of a width-by-height grid. */
  lemma InBoundsExactly(width: int, height: int, p: Pos)
    ensures InBounds(width, height, p) <==> 0 <= p.x < width && 0 <= p.y < height
  {
  }

  /** _get_neighbours: left, down, right, up (in image rows: left, up,
      right, down). Exactly the 4-connected neighbours, each once. */
  function Neighbours(p: Pos): (ns: seq<Pos>)
    ensures |ns| == 4
    ensures forall q :: q in ns <==> Adjacent(p, q)
    ensures forall i, j :: 0 <= i < j < |ns| ==> ns[i] != ns[j]
  {
    [Pos(p.x - 1, p.y), Pos(p.x, p.y - 1), Pos(p.x + 1, p.y), Pos(p.x, p.y + 1)]
  }

  /** Brightness threshold of _is_white. */
  const Threshold := 240

  /** _is_white on the colour of a pixel. The source also compares the pixel
      with the integer 0, which an RGB tuple never equals, so that disjunct
      is left out. */
  predicate IsWhite(c: Color)
  {
    c == White || (c.r > Threshold && c.g > Threshold && c.b > Threshold) || c == EndColor
  }

  /** Walkable means: the end colour, or all three channels above the
      threshold (which covers exact white). The frontier, start and wall
      colours are never walkable; neither is blue. */
  lemma IsWhiteExactly(c: Color)
    ensures IsWhite(c) <==> c == EndColor || (c.r > Threshold && c.g > Threshold && c.b > Threshold)
    ensures !IsWhite(FrontierColor) && !IsWhite(StartColor) && !IsWhite(Black) && !IsWhite(Blue)
    ensures IsWhite(White) && IsWhite(EndColor)
  {
  }

  function Sum(xs: seq<int>): int
  {
    if xs == [] then 0 else xs[0] + Sum(xs[1..])
  }

  /** mean: int(sum(numbers)) / max(len(numbers), 1) with Python's true
      division, so the result is exact and may be a half. */
  function Mean(xs: seq<int>): (m: real)
    ensures |xs| == 0 ==> m == 0.0
    ensures |xs| > 0 ==> m * (|xs| as real) == Sum(xs) as real
  {
    (Sum(xs) as real) / (if |xs| > 1 then |xs| else 1) as real
  }

  /** The mean of two coordinates lies between them. */
  lemma MeanOfTwoBetween(a: int, b: int)
    requires a <= b
    ensures a as real <= Mean([a, b]) <= b as real
    ensures Mean([a, b]) == (a + b) as real / 2.0
  {
    assert [a, b][1..] == [b] && [b][1..] == [];
    assert Sum([b]) == b + Sum([]);
    assert Sum([a, b]) == a + b;
  }
}
