/** Colours of the maze image and the classifier that snaps a pixel to the
    nearest colour of the fixed five-colour palette (maze_solve/solve.py). */
module MazeColors {

  /** One 8-bit channel of an RGB pixel. */
  type Channel = c: int | 0 <= c <= 255

  datatype Color = Color(r: Channel, g: Channel, b: Channel)

  const Green := Color(0, 255, 0)
  const Red := Color(255, 0, 0)
  const Blue := Color(0, 0, 255)
  const White := Color(255, 255, 255)
  const Black := Color(0, 0, 0)

  /** START_COLOR and FRONTIER_COLOR are both green, END_COLOR is red. */
  const StartColor := Green
  const EndColor := Red
  const FrontierColor := Green

  /** The keys of COLOR_MAP in declaration order; the order breaks ties. */
  const Palette: seq<Color> := [Green, Red, Blue, White, Black]

  /** The square of the Euclidean RGB distance. The source takes the square
      root; the root is monotone, so the nearest colour and the set of tied
      colours are the same. */
  function SquaredDistance(c1: Color, c2: Color): (d: nat)
    ensures d == 0 <==> c1 == c2
  {
    Square(c1.r - c2.r) + Square(c1.g - c2.g) + Square(c1.b - c2.b)
  }

  function Square(x: int): (s: nat)
    ensures s == 0 <==> x == 0
  {
    if x == 0 then 0 else assert x * x > 0; x * x
  }

  lemma SquaredDistanceSymmetric(c1: Color, c2: Color)
    ensures SquaredDistance(c1, c2) == SquaredDistance(c2, c1)
  {
  }

  /** The index, among the first n palette entries, of the first entry at
      minimum distance from c: what a stable sort by distance puts first. */
  function ClosestIndexAmong(c: Color, n: nat): (k: nat)
    requires 1 <= n <= |Palette|
    ensures k < n
  {
    if n == 1 then 0
    else
      var k := ClosestIndexAmong(c, n - 1);
      if SquaredDistance(Palette[n - 1], c) < SquaredDistance(Palette[k], c) then n - 1 else k
  }

  /** Palette entry k is at minimum distance from c among the first n
      entries, and every entry before k is strictly farther. */
  ghost predicate NearestFirstAmong(c: Color, k: nat, n: nat)
    requires k < n <= |Palette|
  {
    && (forall i :: 0 <= i < n ==> SquaredDistance(Palette[k], c) <= SquaredDistance(Palette[i], c))
    && (forall i :: 0 <= i < k ==> SquaredDistance(Palette[i], c) > SquaredDistance(Palette[k], c))
  }

  lemma {:induction false} ClosestIndexAmongIsNearestFirst(c: Color, n: nat)
    requires 1 <= n <= |Palette|
    ensures NearestFirstAmong(c, ClosestIndexAmong(c, n), n)
  {
    if n > 1 {
      ClosestIndexAmongIsNearestFirst(c, n - 1);
    }
  }

  /** _find_closest_color with memoize=False: the palette entry that
      sorted(colors, key=distance)[0] yields. */
  function ClosestColor(c: Color): (k: Color)
    ensures k in Palette
  {
    Palette[ClosestIndexAmong(c, |Palette|)]
  }

  /** The classifier returns a palette colour at minimum distance from c,
      and ties go to the colour declared first: no earlier palette entry is
      as near. */
  lemma ClosestColorIsNearest(c: Color)
    ensures forall p :: p in Palette ==> SquaredDistance(ClosestColor(c), c) <= SquaredDistance(p, c)
    ensures exists m :: 0 <= m < |Palette| && Palette[m] == ClosestColor(c) &&
              forall i :: 0 <= i < m ==> SquaredDistance(Palette[i], c) > SquaredDistance(ClosestColor(c), c)
  {
    ClosestIndexAmongIsNearestFirst(c, |Palette|);
  }

  /** Classifying a palette colour gives that colour back. */
  lemma ClosestColorOfPaletteColor(i: nat)
    requires i < |Palette|
    ensures ClosestColor(Palette[i]) == Palette[i]
  {
    ClosestColorIsNearest(Palette[i]);
    var k := ClosestColor(Palette[i]);
    assert SquaredDistance(k, Palette[i]) <= SquaredDistance(Palette[i], Palette[i]);
  }

  /** What _clean_image writes at a non-anchor pixel whose colour is c: white
      or black when that is the nearest palette colour, white when the nearest
      is green or red, and c itself when the nearest is blue. */
  function CleanedColor(c: Color): Color
  {
    var closest := ClosestColor(c);
    if closest == White || closest == Black then closest
    else if closest == StartColor || closest == EndColor then White
    else c
  }

  lemma CleanedColorCases(c: Color)
    ensures ClosestColor(c) == White ==> CleanedColor(c) == White
    ensures ClosestColor(c) == Black ==> CleanedColor(c) == Black
    ensures ClosestColor(c) == Green || ClosestColor(c) == Red ==> CleanedColor(c) == White
    ensures ClosestColor(c) == Blue ==> CleanedColor(c) == c
    ensures CleanedColor(c) == White || CleanedColor(c) == Black || CleanedColor(c) == c
  {
  }

  /** Cleaning a cleaned pixel changes nothing. */
  lemma CleanedColorIdempotent(c: Color)
    ensures CleanedColor(CleanedColor(c)) == CleanedColor(c)
  {
    var closest := ClosestColor(c);
    if closest == White || closest == Green || closest == Red {
      ClosestColorOfPaletteColor(3);
    } else if closest == Black {
      ClosestColorOfPaletteColor(4);
    }
  }
}
