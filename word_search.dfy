/** The word-search solver of word_search/solve.py: the puzzle text becomes
    a grid of characters (one row per non-empty line), every line of the
    word list is a word, and each word is looked for from every cell in the
    nine direction codes of get_around. Indexing follows Python: a negative
    index counts from the end, any other index out of range raises
    IndexError, which get_around turns into False. */
module WordSearch {
  import opened Wrappers

  type Grid = seq<seq<char>>

  /* ---------------- Parsing: str.split("\n") and the two read loops ---------------- */

  /** text.split("\n"): the pieces between newlines, an empty piece
      included wherever two newlines meet or the text starts or ends with
      one. */
  function SplitLines(text: string): (lines: seq<string>)
    ensures |lines| >= 1
    decreases |text|
  {
    if |text| == 0 then [""]
    else
      var rest := SplitLines(text[1..]);
      if text[0] == '\n' then [""] + rest
      else [[text[0]] + rest[0]] + rest[1..]
  }

  /** "\n".join(lines): the inverse of SplitLines. */
  function JoinLines(lines: seq<string>): string
    requires |lines| >= 1
  {
    if |lines| == 1 then lines[0] else lines[0] + "\n" + JoinLines(lines[1..])
  }

  predicate NoNewline(line: string)
  {
    forall i :: 0 <= i < |line| ==> line[i] != '\n'
  }

  /** Joining the pieces gives back the text, and no piece holds a newline. */
  lemma {:induction false} SplitThenJoin(text: string)
    ensures JoinLines(SplitLines(text)) == text
    ensures forall l :: 0 <= l < |SplitLines(text)| ==> NoNewline(SplitLines(text)[l])
    decreases |text|
  {
    if |text| > 0 {
      var rest := SplitLines(text[1..]);
      SplitThenJoin(text[1..]);
      if text[0] == '\n' {
        assert SplitLines(text) == [""] + rest;
        assert ([""] + rest)[1..] == rest;
        assert JoinLines([""] + rest) == "" + "\n" + JoinLines(rest);
        assert text == [text[0]] + text[1..];
      } else {
        var lines := [[text[0]] + rest[0]] + rest[1..];
        assert SplitLines(text) == lines;
        if |rest| == 1 {
          assert JoinLines(lines) == [text[0]] + rest[0];
        } else {
          assert lines[1..] == rest[1..];
          assert JoinLines(rest) == rest[0] + "\n" + JoinLines(rest[1..]);
        }
        assert text == [text[0]] + text[1..];
        forall l | 0 <= l < |lines|
          ensures NoNewline(lines[l])
        {
          if l == 0 {
            assert NoNewline(rest[0]);
          } else {
            assert lines[l] == rest[l];
          }
        }
      }
    }
  }

  /** Splitting the join of newline-free lines gives back the lines. */
  lemma {:induction false} JoinThenSplit(lines: seq<string>)
    requires |lines| >= 1
    requires forall l :: 0 <= l < |lines| ==> NoNewline(lines[l])
    ensures SplitLines(JoinLines(lines)) == lines
    decreases |lines|, |lines[0]|
  {
    if |lines[0]| == 0 {
      if |lines| > 1 {
        JoinThenSplit(lines[1..]);
        var text := JoinLines(lines);
        assert text == "\n" + JoinLines(lines[1..]);
        assert text[1..] == JoinLines(lines[1..]);
        assert lines == [""] + lines[1..];
      }
    } else {
      var c := lines[0][0];
      var shorter := [lines[0][1..]] + lines[1..];
      assert NoNewline(lines[0]);
      forall l | 0 <= l < |shorter|
        ensures NoNewline(shorter[l])
      {
        if l > 0 {
          assert shorter[l] == lines[l];
        }
      }
      JoinThenSplit(shorter);
      var text := JoinLines(lines);
      if |lines| == 1 {
        assert text == [c] + JoinLines(shorter);
      } else {
        assert shorter[1..] == lines[1..];
        assert text == [c] + JoinLines(shorter);
      }
      assert text[0] == c && text[1..] == JoinLines(shorter);
      assert lines[0] == [c] + lines[0][1..];
      assert [[c] + shorter[0]] + shorter[1..] == lines;
    }
  }

  /** The rows kept from the puzzle lines: the non-empty ones, in order. */
  function NonEmptyLines(lines: seq<string>): seq<string>
  {
    if |lines| == 0 then []
    else
      var kept := NonEmptyLines(lines[..|lines| - 1]);
      if |lines[|lines| - 1]| == 0 then kept else kept + [lines[|lines| - 1]]
  }

  /** The characters of the lines laid end to end. */
  function Flatten(lines: seq<string>): string
  {
    if |lines| == 0 then [] else lines[0] + Flatten(lines[1..])
  }

  /** The text with its newlines removed. */
  function WithoutNewlines(text: string): string
  {
    if |text| == 0 then []
    else if text[0] == '\n' then WithoutNewlines(text[1..])
    else [text[0]] + WithoutNewlines(text[1..])
  }

  lemma {:induction false} FlattenAppend(a: seq<string>, b: seq<string>)
    ensures Flatten(a + b) == Flatten(a) + Flatten(b)
    decreases |a|
  {
    if |a| > 0 {
      assert (a + b)[1..] == a[1..] + b;
      FlattenAppend(a[1..], b);
    } else {
      assert a + b == b;
    }
  }

  /** Dropping empty lines loses no character. */
  lemma {:induction false} FlattenNonEmpty(lines: seq<string>)
    ensures Flatten(NonEmptyLines(lines)) == Flatten(lines)
    decreases |lines|
  {
    if |lines| > 0 {
      var init, last := lines[..|lines| - 1], lines[|lines| - 1];
      FlattenNonEmpty(init);
      assert lines == init + [last];
      FlattenAppend(init, [last]);
      FlattenAppend(NonEmptyLines(init), [last]);
      assert Flatten([last]) == last + Flatten([]);
    }
  }

  lemma {:induction false} FlattenSplit(text: string)
    ensures Flatten(SplitLines(text)) == WithoutNewlines(text)
    decreases |text|
  {
    if |text| > 0 {
      var rest := SplitLines(text[1..]);
      FlattenSplit(text[1..]);
      if text[0] == '\n' {
        assert ([""] + rest)[1..] == rest;
      } else {
        var lines := [[text[0]] + rest[0]] + rest[1..];
        assert lines[1..] == rest[1..];
        assert Flatten(rest) == rest[0] + Flatten(rest[1..]);
      }
    }
  }

  /** Each row kept from the puzzle is non-empty and newline-free, and the
      rows laid end to end are the puzzle text without its newlines. */
  lemma PuzzleRows(text: string)
    ensures forall r :: 0 <= r < |NonEmptyLines(SplitLines(text))| ==>
              |NonEmptyLines(SplitLines(text))[r]| > 0 && NoNewline(NonEmptyLines(SplitLines(text))[r])
    ensures Flatten(NonEmptyLines(SplitLines(text))) == WithoutNewlines(text)
  {
    SplitThenJoin(text);
    NonEmptyLinesKeep(SplitLines(text));
    FlattenNonEmpty(SplitLines(text));
    FlattenSplit(text);
  }

  /** Every kept line is a non-empty line of the input. */
  lemma {:induction false} NonEmptyLinesKeep(lines: seq<string>)
    ensures forall r :: 0 <= r < |NonEmptyLines(lines)| ==>
              |NonEmptyLines(lines)[r]| > 0 && NonEmptyLines(lines)[r] in lines
    decreases |lines|
  {
    if |lines| > 0 {
      NonEmptyLinesKeep(lines[..|lines| - 1]);
    }
  }

  /** main's first loop (lines 9-14): each line of the puzzle is copied
      character by character and kept when non-empty. */
  method ParsePuzzle(text: string) returns (rows: Grid)
    ensures rows == NonEmptyLines(SplitLines(text))
  {
    var lines := SplitLines(text);
    rows := [];
    for n := 0 to |lines|
      invariant rows == NonEmptyLines(lines[..n])
    {
      var t := lines[n];
      var tmp: seq<char> := [];
      for m := 0 to |t|
        invariant tmp == t[..m]
      {
        tmp := tmp + [t[m]];
      }
      assert t[..|t|] == t;
      assert lines[..n + 1][..n] == lines[..n];
      if |tmp| > 0 {
        rows := rows + [tmp];
      }
    }
    assert lines[..|lines|] == lines;
  }

  /** main's second loop (lines 19-22): every line of the word list is a
      word, empty ones included. */
  method ParseWords(text: string) returns (words: seq<string>)
    ensures words == SplitLines(text)
    ensures JoinLines(words) == text
  {
    var lines := SplitLines(text);
    words := [];
    for n := 0 to |lines|
      invariant words == lines[..n]
    {
      words := words + [lines[n]];
    }
    assert lines[..|lines|] == lines;
    SplitThenJoin(text);
  }

  /* ---------------- Python indexing ---------------- */

  /** The element a Python index selects in a sequence of length len: an
      index in [-len, len) is valid and wraps modulo len; any other raises
      IndexError (None). */
  function PyIndex(len: nat, i: int): Option<nat>
  {
    if 0 <= i < len then Some(i)
    else if -(len as int) <= i < 0 then Some(len + i)
    else None
  }

  /** A Python index is valid exactly in [-len, len), and selects the
      element at its value modulo len. */
  lemma PyIndexWraps(len: nat, i: int)
    ensures PyIndex(len, i).Some? <==> -(len as int) <= i < len
    ensures PyIndex(len, i).Some? ==> PyIndex(len, i).value < len && PyIndex(len, i).value == i % len
  {
  }

  /** question_lines[x][y]: the row is chosen first and the column is
      checked against that row's own length. */
  function Cell(grid: Grid, x: int, y: int): Option<char>
  {
    match PyIndex(|grid|, x)
    case None => None
    case Some(row) =>
      match PyIndex(|grid[row]|, y)
      case None => None
      case Some(col) => Some(grid[row][col])
  }

  /** A cell exists exactly when the row index is valid for the grid and
      the column index for that row; both wrap modulo the length. */
  lemma CellWraps(grid: Grid, x: int, y: int)
    ensures Cell(grid, x, y).Some? <==>
      -|grid| <= x < |grid| && -|grid[x % |grid|]| <= y < |grid[x % |grid|]|
    ensures Cell(grid, x, y).Some? ==> Cell(grid, x, y).value == grid[x % |grid|][y % |grid[x % |grid|]|]
  {
    PyIndexWraps(|grid|, x);
    if PyIndex(|grid|, x).Some? {
      PyIndexWraps(|grid[x % |grid|]|, y);
    }
  }

  /** Walking off the top or the left wraps to the other side. */
  lemma WrapAround(grid: Grid, x: int, y: int)
    requires 0 <= x < |grid| && 0 <= y < |grid[x]|
    ensures Cell(grid, x - |grid|, y) == Some(grid[x][y])
    ensures Cell(grid, x, y - |grid[x]|) == Some(grid[x][y])
  {
    assert PyIndex(|grid|, x - |grid|) == Some(x);
    assert PyIndex(|grid[x]|, y - |grid[x]|) == Some(y);
  }

  /** Walking off the bottom, or past the end of the row, fails. */
  lemma OffTheEnd(grid: Grid, x: int, y: int)
    requires x >= |grid| || (0 <= x < |grid| && y >= |grid[x]|)
    ensures Cell(grid, x, y) == None
  {
  }

  /* ---------------- get_around ---------------- */

  /** The (row, column) step of each direction code, as the nine branches
      of get_around write it. */
  function Step(index: int): (int, int)
    requires 0 <= index <= 8
  {
    match index
    case 0 => (-1, -1)
    case 1 => (-1, 0)
    case 2 => (-1, 1)
    case 3 => (0, -1)
    case 4 => (0, 0)
    case 5 => (0, 1)
    case 6 => (1, -1)
    case 7 => (1, 0)
    case _ => (1, 1)
  }

  /** The step of code k is (k div 3 - 1, k mod 3 - 1). */
  lemma StepFormula(k: int)
    requires 0 <= k <= 8
    ensures Step(k) == (k / 3 - 1, k % 3 - 1)
    ensures -1 <= Step(k).0 <= 1 && -1 <= Step(k).1 <= 1
  {
  }

  /** get_around: the target is read from the cell one step away in the
      direction `index` onwards. An empty target matches; a code outside
      0..8 falls through every branch and yields None (false); an index
      error yields false. */
  function GetAround(grid: Grid, target: string, x: int, y: int, index: int): (b: bool)
    ensures |target| == 0 ==> b
    ensures b && |target| > 0 ==> 0 <= index <= 8
    decreases |target|
  {
    if |target| == 0 then true
    else if 0 <= index <= 8 then
      var (dx, dy) := Step(index);
      match Cell(grid, x + dx, y + dy)
      case None => false
      case Some(c) => target[0] == c && GetAround(grid, target[1..], x + dx, y + dy, index)
    else false
  }

  /** The coordinate n steps of d away from x. */
  function Ray(x: int, d: int, n: nat): int
  {
    x + n * d
  }

  lemma RayStep(x: int, d: int, n: nat)
    ensures Ray(x + d, d, n) == Ray(x, d, n + 1)
  {
  }

  /** Character n of the target sits n + 1 steps of (dx, dy) away from (x, y). */
  ghost predicate ReadsAlong(grid: Grid, target: string, x: int, y: int, dx: int, dy: int)
  {
    forall n :: 0 <= n < |target| ==> Cell(grid, Ray(x, dx, n + 1), Ray(y, dy, n + 1)) == Some(target[n])
  }

  /** get_around holds exactly when every character of the target is found,
      under Python indexing, at its place along the direction's ray. */
  lemma {:induction false} GetAroundReadsAlong(grid: Grid, target: string, x: int, y: int, k: int)
    requires 0 <= k <= 8
    ensures GetAround(grid, target, x, y, k) <==> ReadsAlong(grid, target, x, y, Step(k).0, Step(k).1)
    decreases |target|
  {
    if |target| > 0 {
      var dx, dy := Step(k).0, Step(k).1;
      var rest := target[1..];
      GetAroundReadsAlong(grid, rest, x + dx, y + dy, k);
      assert Ray(x, dx, 1) == x + dx && Ray(y, dy, 1) == y + dy;
      if GetAround(grid, target, x, y, k) {
        forall n | 0 <= n < |target|
          ensures Cell(grid, Ray(x, dx, n + 1), Ray(y, dy, n + 1)) == Some(target[n])
        {
          if n > 0 {
            RayStep(x, dx, n);
            RayStep(y, dy, n);
            assert rest[n - 1] == target[n];
          }
        }
      }
      if ReadsAlong(grid, target, x, y, dx, dy) {
        forall n | 0 <= n < |rest|
          ensures Cell(grid, Ray(x + dx, dx, n + 1), Ray(y + dy, dy, n + 1)) == Some(rest[n])
        {
          RayStep(x, dx, n + 1);
          RayStep(y, dy, n + 1);
          assert target[n + 1] == rest[n];
        }
        assert Cell(grid, Ray(x, dx, 0 + 1), Ray(y, dy, 0 + 1)) == Some(target[0]);
        assert GetAround(grid, rest, x + dx, y + dy, k);
      }
    }
  }

  /** Direction 4 never moves: it matches exactly when every character of
      the target equals the starting cell. */
  lemma DirectionFourStays(grid: Grid, target: string, x: int, y: int)
    requires |target| > 0
    ensures GetAround(grid, target, x, y, 4) <==>
              forall n :: 0 <= n < |target| ==> Cell(grid, x, y) == Some(target[n])
  {
    GetAroundReadsAlong(grid, target, x, y, 4);
    assert forall n: nat :: Ray(x, 0, n) == x && Ray(y, 0, n) == y;
  }

  /* ---------------- The scan of main (lines 24-32) ---------------- */

  /** One printed line: the word, the row, the column and the direction. */
  datatype Hit = Hit(word: string, i: nat, j: nat, k: nat)

  /** The hits of word w from cell (i, j) in directions 0..n-1. */
  function DirectionHits(grid: Grid, w: string, i: nat, j: nat, n: nat): seq<Hit>
    requires |w| > 0 && n <= 9
  {
    if n == 0 then []
    else
      DirectionHits(grid, w, i, j, n - 1)
        + (if GetAround(grid, w[1..], i, j, n - 1) then [Hit(w, i, j, n - 1)] else [])
  }

  /** The hits of word w from cell (i, j). */
  function CellHits(grid: Grid, w: string, i: nat, j: nat): seq<Hit>
    requires |w| > 0 && i < |grid| && j < |grid[i]|
  {
    if w[0] == grid[i][j] then DirectionHits(grid, w, i, j, 9) else []
  }

  /** The hits of word w from the first m cells of row i. */
  function RowHits(grid: Grid, w: string, i: nat, m: nat): seq<Hit>
    requires |w| > 0 && i < |grid| && m <= |grid[i]|
  {
    if m == 0 then [] else RowHits(grid, w, i, m - 1) + CellHits(grid, w, i, m - 1)
  }

  /** The hits of word w in the first m rows. */
  function GridHits(grid: Grid, w: string, m: nat): seq<Hit>
    requires |w| > 0 && m <= |grid|
  {
    if m == 0 then [] else GridHits(grid, w, m - 1) + RowHits(grid, w, m - 1, |grid[m - 1]|)
  }

  function WordHits(grid: Grid, w: string): seq<Hit>
    requires |w| > 0
  {
    GridHits(grid, w, |grid|)
  }

  /** The grid has at least one cell, so the scan reaches t[0]. */
  predicate HasCell(grid: Grid)
  {
    exists i :: 0 <= i < |grid| && |grid[i]| > 0
  }

  /** What main prints for the words, and whether it stops with an
      IndexError: the first empty word raises at t[0] once a cell exists. */
  function Output(grid: Grid, words: seq<string>): (seq<Hit>, bool)
  {
    if |words| == 0 then ([], false)
    else
      var prev := Output(grid, words[..|words| - 1]);
      var w := words[|words| - 1];
      if prev.1 then prev
      else if |w| == 0 then (prev.0, HasCell(grid))
      else (prev.0 + WordHits(grid, w), false)
  }

  /** The innermost loop of main: the direction codes 0..8 from one cell. */
  method ScanDirections(grid: Grid, t: string, i: nat, j: nat) returns (found: seq<Hit>)
    requires |t| > 0
    ensures found == DirectionHits(grid, t, i, j, 9)
  {
    found := [];
    for k := 0 to 9
      invariant found == DirectionHits(grid, t, i, j, k)
    {
      if GetAround(grid, t[1..], i, j, k) {
        found := found + [Hit(t, i, j, k)];
      }
    }
  }

  /** The column loop of main for one word and row. */
  method ScanRow(grid: Grid, t: string, i: nat) returns (found: seq<Hit>)
    requires |t| > 0 && i < |grid|
    ensures found == RowHits(grid, t, i, |grid[i]|)
  {
    found := [];
    for j := 0 to |grid[i]|
      invariant found == RowHits(grid, t, i, j)
    {
      if t[0] == grid[i][j] {
        var more := ScanDirections(grid, t, i, j);
        found := found + more;
      }
    }
  }

  /** The row and column loops of main for one word. An empty word raises
      IndexError at t[0] in the first cell, before anything is printed for
      it. */
  method ScanWord(grid: Grid, t: string) returns (found: seq<Hit>, crashed: bool)
    ensures |t| == 0 ==> found == [] && crashed == HasCell(grid)
    ensures |t| > 0 ==> found == WordHits(grid, t) && !crashed
  {
    found, crashed := [], false;
    for i := 0 to |grid|
      invariant |t| == 0 ==> found == [] && forall r :: 0 <= r < i ==> |grid[r]| == 0
      invariant |t| > 0 ==> found == GridHits(grid, t, i)
    {
      if |t| == 0 {
        if |grid[i]| > 0 {
          // t[0] raises IndexError in the row's first cell
          crashed := true;
          return;
        }
      } else {
        var more := ScanRow(grid, t, i);
        found := found + more;
      }
    }
  }

  /** The scan of main: each word in turn, stopping for good when one
      raises. */
  method Scan(grid: Grid, words: seq<string>) returns (hits: seq<Hit>, crashed: bool)
    ensures (hits, crashed) == Output(grid, words)
  {
    hits, crashed := [], false;
    for n := 0 to |words|
      invariant (hits, false) == Output(grid, words[..n])
    {
      assert words[..n + 1][..n] == words[..n];
      assert Output(grid, words[..n + 1]) ==
        if |words[n]| == 0 then (hits, HasCell(grid)) else (hits + WordHits(grid, words[n]), false);
      var found;
      found, crashed := ScanWord(grid, words[n]);
      if |words[n]| == 0 {
        assert hits + found == hits;
      }
      hits := hits + found;
      if crashed {
        CrashSticks(grid, words, n + 1);
        return;
      }
    }
    assert words[..|words|] == words;
  }

  /** Once the scan has stopped, later words change nothing. */
  lemma {:induction false} CrashSticks(grid: Grid, words: seq<string>, n: nat)
    requires n <= |words| && Output(grid, words[..n]).1
    ensures Output(grid, words) == Output(grid, words[..n])
    decreases |words| - n
  {
    if n < |words| {
      assert words[..n + 1][..n] == words[..n];
      CrashSticks(grid, words, n + 1);
    } else {
      assert words[..n] == words;
    }
  }

  /** main as a whole, from the contents of question.text and products.text. */
  method FindWords(puzzle: string, products: string) returns (hits: seq<Hit>, crashed: bool)
    ensures (hits, crashed) == Output(NonEmptyLines(SplitLines(puzzle)), SplitLines(products))
  {
    var grid := ParsePuzzle(puzzle);
    var words := ParseWords(products);
    hits, crashed := Scan(grid, words);
  }

  /* ---------------- What the scan prints ---------------- */

  /** The condition under which main prints h: the word's first letter is
      at (i, j) and get_around matches the rest in direction k. */
  predicate Emits(grid: Grid, h: Hit)
  {
    && |h.word| > 0 && h.i < |grid| && h.j < |grid[h.i]| && h.k < 9
    && h.word[0] == grid[h.i][h.j] && GetAround(grid, h.word[1..], h.i, h.j, h.k)
  }

  lemma {:induction false} DirectionHitsMembers(grid: Grid, w: string, i: nat, j: nat, n: nat)
    requires |w| > 0 && n <= 9
    ensures forall h {:trigger h in DirectionHits(grid, w, i, j, n)} :: h in DirectionHits(grid, w, i, j, n) <==>
              h.word == w && h.i == i && h.j == j && h.k < n && GetAround(grid, w[1..], i, j, h.k)
  {
    if n > 0 {
      DirectionHitsMembers(grid, w, i, j, n - 1);
    }
  }

  lemma {:induction false} RowHitsMembers(grid: Grid, w: string, i: nat, m: nat)
    requires |w| > 0 && i < |grid| && m <= |grid[i]|
    ensures forall h {:trigger h in RowHits(grid, w, i, m)} :: h in RowHits(grid, w, i, m) <==>
              h.word == w && h.i == i && h.j < m && Emits(grid, h)
  {
    if m > 0 {
      RowHitsMembers(grid, w, i, m - 1);
      DirectionHitsMembers(grid, w, i, m - 1, 9);
    }
  }

  lemma {:induction false} GridHitsMembers(grid: Grid, w: string, m: nat)
    requires |w| > 0 && m <= |grid|
    ensures forall h {:trigger h in GridHits(grid, w, m)} :: h in GridHits(grid, w, m) <==>
              h.word == w && h.i < m && Emits(grid, h)
  {
    if m > 0 {
      GridHitsMembers(grid, w, m - 1);
      RowHitsMembers(grid, w, m - 1, |grid[m - 1]|);
    }
  }

  /** The scan prints h for a non-empty word exactly when Emits holds. */
  lemma WordHitsMembers(grid: Grid, w: string)
    requires |w| > 0
    ensures forall h {:trigger h in WordHits(grid, w)} :: h in WordHits(grid, w) <==> h.word == w && Emits(grid, h)
  {
    GridHitsMembers(grid, w, |grid|);
  }

  /** main stops with IndexError exactly when the grid has a cell and some
      word is empty. */
  lemma {:induction false} OutputCrashes(grid: Grid, words: seq<string>)
    ensures Output(grid, words).1 <==> HasCell(grid) && exists e :: 0 <= e < |words| && |words[e]| == 0
  {
    if |words| > 0 {
      var init := words[..|words| - 1];
      OutputCrashes(grid, init);
      if HasCell(grid) && (exists e :: 0 <= e < |words| && |words[e]| == 0) {
        var e :| 0 <= e < |words| && |words[e]| == 0;
        if e < |words| - 1 {
          assert init[e] == words[e];
        }
      }
      if exists e :: 0 <= e < |init| && |init[e]| == 0 {
        var e :| 0 <= e < |init| && |init[e]| == 0;
        assert words[e] == init[e];
      }
    }
  }

  /** When main does not stop early, it prints exactly the tuples that
      Emits admits for the words of the list. */
  lemma {:induction false} OutputMembers(grid: Grid, words: seq<string>)
    requires !Output(grid, words).1
    ensures forall h {:trigger h in Output(grid, words).0} :: h in Output(grid, words).0 <==> h.word in words && Emits(grid, h)
  {
    if |words| > 0 {
      var init, w := words[..|words| - 1], words[|words| - 1];
      assert words == init + [w];
      OutputMembers(grid, init);
      if |w| > 0 {
        WordHitsMembers(grid, w);
      }
    }
  }

  /** When main stops early, everything printed for the words before the
      first empty one was printed, and nothing else. */
  lemma OutputStopsAtFirstEmpty(grid: Grid, words: seq<string>, e: nat)
    requires HasCell(grid) && e < |words| && |words[e]| == 0
    requires forall f :: 0 <= f < e ==> |words[f]| > 0
    ensures !Output(grid, words[..e]).1
    ensures Output(grid, words) == (Output(grid, words[..e]).0, true)
  {
    OutputCrashes(grid, words[..e]);
    assert words[..e + 1][..e] == words[..e];
    CrashSticks(grid, words, e + 1);
  }

  /** Each word's tuples follow the words before it. */
  lemma OutputAppends(grid: Grid, words: seq<string>, w: string)
    requires !Output(grid, words).1 && |w| > 0
    ensures Output(grid, words + [w]) == (Output(grid, words).0 + WordHits(grid, w), false)
  {
    assert (words + [w])[..|words|] == words;
  }

  /** A one-letter word is printed in all nine directions from every cell
      holding its letter. */
  lemma OneLetterWord(grid: Grid, w: string, i: nat, j: nat)
    requires |w| == 1 && i < |grid| && j < |grid[i]| && grid[i][j] == w[0]
    ensures forall k :: 0 <= k < 9 ==> Hit(w, i, j, k) in WordHits(grid, w)
  {
    WordHitsMembers(grid, w);
    forall k | 0 <= k < 9
      ensures Hit(w, i, j, k) in WordHits(grid, w)
    {
      assert Emits(grid, Hit(w, i, j, k));
    }
  }

  /** Direction 4 is printed for a word exactly at the cells from which
      every letter of the word equals that cell. */
  lemma DirectionFourHits(grid: Grid, w: string, i: nat, j: nat)
    requires |w| > 0 && i < |grid| && j < |grid[i]|
    ensures Hit(w, i, j, 4) in WordHits(grid, w) <==> forall n :: 0 <= n < |w| ==> w[n] == grid[i][j]
  {
    WordHitsMembers(grid, w);
    assert Cell(grid, i, j) == Some(grid[i][j]);
    if |w| > 1 {
      DirectionFourStays(grid, w[1..], i, j);
      if forall n :: 0 <= n < |w| ==> w[n] == grid[i][j] {
        forall n | 0 <= n < |w[1..]|
          ensures Cell(grid, i, j) == Some(w[1..][n])
        {
          assert w[1..][n] == w[n + 1];
        }
        assert Emits(grid, Hit(w, i, j, 4));
      }
      if Emits(grid, Hit(w, i, j, 4)) {
        forall n | 0 <= n < |w|
          ensures w[n] == grid[i][j]
        {
          if n > 0 {
            assert w[1..][n - 1] == w[n];
          }
        }
      }
    } else {
      assert Emits(grid, Hit(w, i, j, 4)) <==> w[0] == grid[i][j];
    }
  }

  /* ---------------- Scan order ---------------- */

  /** a is printed before b within one word: by row, then column, then
      direction code. */
  predicate Precedes(a: Hit, b: Hit)
  {
    a.i < b.i || (a.i == b.i && (a.j < b.j || (a.j == b.j && a.k < b.k)))
  }

  predicate InScanOrder(hits: seq<Hit>)
  {
    forall p, q :: 0 <= p < q < |hits| ==> Precedes(hits[p], hits[q])
  }

  lemma InScanOrderAppend(a: seq<Hit>, b: seq<Hit>)
    requires InScanOrder(a) && InScanOrder(b)
    requires forall x, y :: x in a && y in b ==> Precedes(x, y)
    ensures InScanOrder(a + b)
  {
    forall p, q | 0 <= p < q < |a + b|
      ensures Precedes((a + b)[p], (a + b)[q])
    {
      if p < |a| && q >= |a| {
        assert (a + b)[p] in a && (a + b)[q] in b;
      } else if p >= |a| {
        assert (a + b)[p] == b[p - |a|] && (a + b)[q] == b[q - |a|];
      }
    }
  }

  lemma {:induction false} DirectionHitsInOrder(grid: Grid, w: string, i: nat, j: nat, n: nat)
    requires |w| > 0 && n <= 9
    ensures InScanOrder(DirectionHits(grid, w, i, j, n))
  {
    if n > 0 {
      DirectionHitsInOrder(grid, w, i, j, n - 1);
      DirectionHitsMembers(grid, w, i, j, n - 1);
      var extra := if GetAround(grid, w[1..], i, j, n - 1) then [Hit(w, i, j, n - 1)] else [];
      InScanOrderAppend(DirectionHits(grid, w, i, j, n - 1), extra);
    }
  }

  lemma {:induction false} RowHitsInOrder(grid: Grid, w: string, i: nat, m: nat)
    requires |w| > 0 && i < |grid| && m <= |grid[i]|
    ensures InScanOrder(RowHits(grid, w, i, m))
  {
    if m > 0 {
      RowHitsInOrder(grid, w, i, m - 1);
      RowHitsMembers(grid, w, i, m - 1);
      DirectionHitsInOrder(grid, w, i, m - 1, 9);
      DirectionHitsMembers(grid, w, i, m - 1, 9);
      InScanOrderAppend(RowHits(grid, w, i, m - 1), CellHits(grid, w, i, m - 1));
    }
  }

  lemma {:induction false} GridHitsInOrder(grid: Grid, w: string, m: nat)
    requires |w| > 0 && m <= |grid|
    ensures InScanOrder(GridHits(grid, w, m))
  {
    if m > 0 {
      GridHitsInOrder(grid, w, m - 1);
      GridHitsMembers(grid, w, m - 1);
      RowHitsInOrder(grid, w, m - 1, |grid[m - 1]|);
      RowHitsMembers(grid, w, m - 1, |grid[m - 1]|);
      InScanOrderAppend(GridHits(grid, w, m - 1), RowHits(grid, w, m - 1, |grid[m - 1]|));
    }
  }

  /** The tuples of one word are printed by row, then column, then
      direction code, each at most once. */
  lemma WordHitsInOrder(grid: Grid, w: string)
    requires |w| > 0
    ensures InScanOrder(WordHits(grid, w))
  {
    GridHitsInOrder(grid, w, |grid|);
  }

  /* ---------------- A word list ending in a newline ---------------- */

  lemma {:induction false} SplitTrailingNewline(text: string)
    ensures SplitLines(text + "\n") == SplitLines(text) + [""]
    decreases |text|
  {
    if |text| == 0 {
      assert SplitLines("\n") == [""] + SplitLines("");
    } else {
      assert (text + "\n")[1..] == text[1..] + "\n";
      SplitTrailingNewline(text[1..]);
      var rest := SplitLines(text[1..]);
      if text[0] != '\n' {
        assert (rest + [""])[1..] == rest[1..] + [""];
      }
    }
  }

  /** A word list that ends in a newline has an empty last line, so main
      prints every tuple of the other words and then stops with
      IndexError. */
  lemma TrailingNewlineStops(grid: Grid, products: string)
    requires HasCell(grid)
    requires forall f :: 0 <= f < |SplitLines(products)| ==> |SplitLines(products)[f]| > 0
    ensures Output(grid, SplitLines(products + "\n")) == (Output(grid, SplitLines(products)).0, true)
  {
    var words := SplitLines(products);
    SplitTrailingNewline(products);
    assert (words + [""])[..|words|] == words;
    OutputStopsAtFirstEmpty(grid, words + [""], |words|);
  }
}
