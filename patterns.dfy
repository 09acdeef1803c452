/** The text picture of a grid: `makePattern` marks the cells where b has
    caught up with a, and `drawPattern` prints the marks row by row. */
module Patterns {
  import opened Concentrations
  import opened Grids
  import opened Integers

  /** The outcome of a JavaScript call that may throw. */
  datatype Result<T> = Ok(value: T) | TypeError

  /** The mark of one cell: 'X' when a <= b, a blank otherwise. */
  function Mark(c: CellState): (m: char)
    ensures m == 'X' <==> c.a <= c.b
    ensures m == 'X' || m == ' '
  {
    if c.a <= c.b then 'X' else ' '
  }

  /** How many cells row x of the grid has; none past the last row. */
  function RowLength(grid: Grid, x: nat): nat
  {
    if x < |grid| then |grid[x]| else 0
  }

  /** Some row at or past `width` has a cell, which `makePattern` would write
      into the row `pattern[x]` that does not exist. */
  predicate Overflows(grid: Grid, width: nat)
  {
    exists x :: width <= x < |grid| && |grid[x]| > 0
  }

  /** `makePattern(grid, width, height)`: a `width` by `height` pattern of
      blanks in which every cell of the grid writes its mark at its own
      position. A row grows when the grid's row is longer than `height`;
      a non-empty grid row at or past `width` makes the write throw. */
  method MakePattern(grid: Grid, width: nat, height: nat) returns (r: Result<seq<seq<char>>>)
    ensures r.TypeError? <==> Overflows(grid, width)
    ensures r.Ok? ==> |r.value| == width
    ensures r.Ok? ==> forall x :: 0 <= x < width ==> |r.value[x]| == Max(height, RowLength(grid, x))
    ensures r.Ok? ==> forall x, y :: 0 <= x < width && 0 <= y < |r.value[x]| ==>
      r.value[x][y] == (if x < |grid| && y < |grid[x]| then Mark(State(grid[x][y])) else ' ')
  {
    var blank := seq(height, _ => ' ');
    var pattern := seq(width, _ => blank);
    var x := 0;
    while x < |grid|
      invariant 0 <= x <= |grid| && |pattern| == width
      invariant forall i :: 0 <= i < x ==> i < width || |grid[i]| == 0
      invariant forall i :: 0 <= i < width ==> |pattern[i]| == (if i < x then Max(height, RowLength(grid, i)) else height)
      invariant forall i, j :: 0 <= i < width && 0 <= j < |pattern[i]| ==>
        pattern[i][j] == (if i < x && j < |grid[i]| then Mark(State(grid[i][j])) else ' ')
    {
      var y := 0;
      while y < |grid[x]|
        invariant 0 <= y <= |grid[x]| && |pattern| == width
        invariant y > 0 ==> x < width
        invariant forall i :: 0 <= i < width && i != x ==> |pattern[i]| == (if i < x then Max(height, RowLength(grid, i)) else height)
        invariant x < width ==> |pattern[x]| == Max(height, y)
        invariant forall i, j :: 0 <= i < width && 0 <= j < |pattern[i]| ==>
          pattern[i][j] == (if (i < x && j < |grid[i]|) || (i == x && j < y) then Mark(State(grid[i][j])) else ' ')
      {
        if x >= |pattern| {
          // `pattern[x]` is undefined, and assigning into it throws.
          assert Overflows(grid, width) by { assert width <= x < |grid| && |grid[x]| > 0; }
          return TypeError;
        }
        var cell := grid[x][y];
        var mark := if cell.a <= cell.b then 'X' else ' ';
        var row := pattern[x];
        if y < |row| {
          row := row[y := mark];
        } else {
          // An array grows when written one past its end.
          row := row + [mark];
        }
        pattern := pattern[x := row];
        y := y + 1;
      }
      x := x + 1;
    }
    r := Ok(pattern);
  }

  /** The text `drawPattern` produces: each row's characters followed by a
      line break. */
  function Render(pattern: seq<seq<char>>): string
  {
    if pattern == [] then "" else pattern[0] + "\n" + Render(pattern[1..])
  }

  /** Rendering one more row appends that row and its line break. */
  lemma {:induction false} RenderSnoc(pattern: seq<seq<char>>, row: seq<char>)
    ensures Render(pattern + [row]) == Render(pattern) + row + "\n"
    decreases |pattern|
  {
    if pattern == [] {
      assert [row][1..] == [];
    } else {
      assert (pattern + [row])[1..] == pattern[1..] + [row];
      RenderSnoc(pattern[1..], row);
    }
  }

  /** `drawPattern(pattern)`: appends the characters of each row in turn,
      then a line break after every row. */
  method DrawPattern(pattern: seq<seq<char>>) returns (str: string)
    ensures str == Render(pattern)
  {
    str := "";
    var i := 0;
    while i < |pattern|
      invariant 0 <= i <= |pattern|
      invariant str == Render(pattern[..i])
    {
      var row := pattern[i];
      var j := 0;
      while j < |row|
        invariant 0 <= j <= |row|
        invariant str == Render(pattern[..i]) + row[..j]
      {
        str := str + [row[j]];
        assert row[..j + 1] == row[..j] + [row[j]];
        j := j + 1;
      }
      str := str + "\n";
      assert row[..j] == row;
      RenderSnoc(pattern[..i], row);
      assert pattern[..i + 1] == pattern[..i] + [row];
      i := i + 1;
    }
    assert pattern[..i] == pattern;
  }

  /** How many times c occurs in s. */
  function Count(s: string, c: char): nat
  {
    if s == "" then 0 else (if s[0] == c then 1 else 0) + Count(s[1..], c)
  }

  lemma {:induction false} CountAppend(s: string, t: string, c: char)
    ensures Count(s + t, c) == Count(s, c) + Count(t, c)
    decreases |s|
  {
    if s == "" {
      assert s + t == t;
    } else {
      assert (s + t)[1..] == s[1..] + t;
      CountAppend(s[1..], t, c);
    }
  }

  /** No row of the pattern holds a line break. */
  predicate SingleLines(pattern: seq<seq<char>>)
  {
    forall i, j :: 0 <= i < |pattern| && 0 <= j < |pattern[i]| ==> pattern[i][j] != '\n'
  }

  /** Total length of the rows, each counted with its line break. */
  function TextLength(pattern: seq<seq<char>>): nat
  {
    if pattern == [] then 0 else |pattern[0]| + 1 + TextLength(pattern[1..])
  }

  /** The text is as long as the rows with one line break each. */
  lemma {:induction false} RenderLength(pattern: seq<seq<char>>)
    ensures |Render(pattern)| == TextLength(pattern)
    decreases |pattern|
  {
    if pattern != [] {
      RenderLength(pattern[1..]);
    }
  }

  lemma {:induction false} NoBreaks(row: seq<char>)
    requires forall j :: 0 <= j < |row| ==> row[j] != '\n'
    ensures Count(row, '\n') == 0
    decreases |row|
  {
    if row != [] {
      NoBreaks(row[1..]);
    }
  }

  /** A pattern whose rows hold no line break is printed with exactly one
      line break per row. */
  lemma {:induction false} RenderLineBreaks(pattern: seq<seq<char>>)
    requires SingleLines(pattern)
    ensures Count(Render(pattern), '\n') == |pattern|
    decreases |pattern|
  {
    if pattern != [] {
      NoBreaks(pattern[0]);
      CountAppend(pattern[0], "\n", '\n');
      CountAppend(pattern[0] + "\n", Render(pattern[1..]), '\n');
      RenderLineBreaks(pattern[1..]);
    }
  }

  /** The position of the first line break in s, or |s| when there is none. */
  function BreakAt(s: string): (k: nat)
    ensures k <= |s|
    ensures forall j :: 0 <= j < k ==> s[j] != '\n'
    ensures k < |s| ==> s[k] == '\n'
  {
    if s == "" then 0 else if s[0] == '\n' then 0 else 1 + BreakAt(s[1..])
  }

  /** The lines of a text, each ending at a line break; an unterminated
      last part counts as a line. */
  function Lines(s: string): seq<seq<char>>
    decreases |s|
  {
    if s == "" then []
    else
      var k := BreakAt(s);
      if k == |s| then [s] else [s[..k]] + Lines(s[k + 1..])
  }

  /** Reading the printed text back line by line gives the pattern again. */
  lemma {:induction false} LinesOfRender(pattern: seq<seq<char>>)
    requires SingleLines(pattern)
    ensures Lines(Render(pattern)) == pattern
    decreases |pattern|
  {
    if pattern != [] {
      var row := pattern[0];
      var s := Render(pattern);
      assert s == row + "\n" + Render(pattern[1..]);
      BreakOfRow(row, Render(pattern[1..]));
      assert s[..|row|] == row;
      assert s[|row| + 1..] == Render(pattern[1..]);
      LinesOfRender(pattern[1..]);
    }
  }

  lemma {:induction false} BreakOfRow(row: seq<char>, rest: string)
    requires forall j :: 0 <= j < |row| ==> row[j] != '\n'
    ensures BreakAt(row + "\n" + rest) == |row|
    decreases |row|
  {
    if row != [] {
      assert (row + "\n" + rest)[1..] == row[1..] + "\n" + rest;
      BreakOfRow(row[1..], rest);
    }
  }

  /** Every pattern `makePattern` returns holds only marks, so it prints as
      one line per row, and the lines read back as the pattern. */
  lemma MarksAreSingleLines(pattern: seq<seq<char>>)
    requires forall i, j :: 0 <= i < |pattern| && 0 <= j < |pattern[i]| ==> pattern[i][j] in {'X', ' '}
    ensures SingleLines(pattern)
    ensures Count(Render(pattern), '\n') == |pattern|
    ensures Lines(Render(pattern)) == pattern
  {
    RenderLineBreaks(pattern);
    LinesOfRender(pattern);
  }
}
