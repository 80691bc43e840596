/** The puzzle batch: parsing a line of digits into a puzzle, the initial
    candidate lists of a puzzle, and the manager object holding the batch
    with its cursor. Reading and writing files is not part of this module. */
module Puzzles {
  import opened Seqs
  import opened Grid

  predicate IsDigit(c: char) {
    '0' <= c <= '9'
  }

  /** int(c) on a one-character digit string. */
  function DigitValue(c: char): (v: int)
    requires IsDigit(c)
    ensures 0 <= v <= 9
  {
    c as int - '0' as int
  }

  function DigitChar(v: int): (c: char)
    requires 0 <= v <= 9
    ensures IsDigit(c) && DigitValue(c) == v
  {
    (v + '0' as int) as char
  }

  /** One line of the input text as a puzzle: the cell with key
      ROWS[i] + COLS[j] gets the digit at index 9 * i + j. A line shorter
      than 81 characters, or with a non-digit among its first 81, makes the
      comprehension raise; that is None here. Characters after the 81st are
      never read. */
  function ParseLine(line: string): (r: Option<Puzzle>)
    ensures r.Some? <==> |line| >= 81 && forall k :: 0 <= k < 81 ==> IsDigit(line[k])
    ensures r.Some? ==> IsGrid(r.value)
    ensures r.Some? ==> forall p: Pos :: r.value[p] == DigitValue(line[9 * p.row + p.col])
  {
    if |line| >= 81 && forall k :: 0 <= k < 81 ==> IsDigit(line[k]) then
      Some(map p | p in AllPositions() :: DigitValue(line[9 * p.row + p.col]))
    else
      None
  }

  /** The 81 digits of a puzzle in row-major order. */
  function RowMajorText(g: Puzzle): (line: string)
    requires IsGrid(g)
  {
    seq(81, k requires 0 <= k < 81 => DigitChar(g[Pos(k / 9, k % 9)]))
  }

  /** Parsing the row-major text of a puzzle gives the puzzle back. */
  lemma ParseRowMajor(g: Puzzle)
    requires IsGrid(g)
    ensures ParseLine(RowMajorText(g)) == Some(g)
  {
    var line := RowMajorText(g);
    forall k | 0 <= k < 81 ensures IsDigit(line[k]) { }
    var h := ParseLine(line).value;
    forall p: Pos ensures h[p] == g[p] {
      assert line[9 * p.row + p.col] == DigitChar(g[p]);
    }
    assert h == g;
  }

  /** Every parsed line is the row-major text of its puzzle (up to the
      ignored tail). */
  lemma RowMajorParse(line: string)
    requires ParseLine(line).Some?
    ensures RowMajorText(ParseLine(line).value) == line[..81]
  {
    var g := ParseLine(line).value;
    var text := RowMajorText(g);
    forall k | 0 <= k < 81 ensures text[k] == line[k] {
      var p := Pos(k / 9, k % 9);
      assert 9 * p.row + p.col == k;
    }
  }

  const FullDomain: seq<int> := [1, 2, 3, 4, 5, 6, 7, 8, 9]

  /** The candidate lists before any propagation: a blank cell may hold any
      digit 1..9, in increasing order; a given cell only its digit. */
  function InitialDomains(g: Puzzle): (d: Domains)
    requires IsGrid(g)
    ensures Complete(d) && AllDistinct(d)
    ensures forall p: Pos :: |d[p]| == (if g[p] == 0 then 9 else 1)
    ensures forall p: Pos, v :: v in d[p] <==> (if g[p] == 0 then 1 <= v <= 9 else v == g[p])
    ensures forall s :: Admits(g, s) ==> Covers(d, s)
  {
    map p | p in g :: if g[p] == 0 then FullDomain else [g[p]]
  }

  /** The batch of puzzles and the index of the one being solved. */
  class PuzzleManager {
    var puzzles: seq<Puzzle>
    var current: nat

    ghost predicate Valid()
      reads this
    {
      current < |puzzles| && forall i :: 0 <= i < |puzzles| ==> IsGrid(puzzles[i])
    }

    /** Builds the batch from the lines of the input text, one puzzle per
        line, cursor on the first. Splitting a text always yields at least
        one line, and a line that does not parse raises. */
    constructor (lines: seq<string>)
      requires |lines| > 0
      requires forall i :: 0 <= i < |lines| ==> ParseLine(lines[i]).Some?
      ensures Valid() && current == 0
      ensures |puzzles| == |lines|
      ensures forall i :: 0 <= i < |lines| ==> ParseLine(lines[i]) == Some(puzzles[i])
    {
      var parsed: seq<Puzzle> := [];
      for i := 0 to |lines|
        invariant |parsed| == i
        invariant forall j :: 0 <= j < i ==> ParseLine(lines[j]) == Some(parsed[j])
      {
        parsed := parsed + [ParseLine(lines[i]).value];
      }
      puzzles := parsed;
      current := 0;
    }

    /** The puzzle under the cursor. */
    function Current(): (g: Puzzle)
      reads this
      requires Valid()
      ensures IsGrid(g)
    {
      puzzles[current]
    }

    /** Fills a fresh map, cell by cell, with the initial candidates of the
        current puzzle; no other puzzle is read. */
    method InitDomains() returns (domains: Domains)
      requires Valid()
      ensures domains == InitialDomains(Current())
    {
      var g := puzzles[current];
      var spec := InitialDomains(g);
      domains := map[];
      var todo := g.Keys;
      while todo != {}
        invariant todo <= g.Keys
        invariant domains.Keys == g.Keys - todo
        invariant forall p :: p in domains ==> domains[p] == spec[p]
        decreases todo
      {
        var pos :| pos in todo;
        if g[pos] == 0 {
          domains := domains[pos := [1, 2, 3, 4, 5, 6, 7, 8, 9]];
        } else {
          domains := domains[pos := [g[pos]]];
        }
        todo := todo - {pos};
      }
    }

    /** The digit of the current puzzle at (row, col); 0 exactly where the
        cell starts with all nine candidates. */
    function GetValue(row: Coord, col: Coord): (v: int)
      reads this
      requires Valid()
      ensures 0 <= v <= 9
      ensures v == Current()[Pos(row, col)]
      ensures v == 0 <==> |InitialDomains(Current())[Pos(row, col)]| == 9
    {
      puzzles[current][Pos(row, col)]
    }

    /** Moves the cursor to the next puzzle when there is one. */
    method NextPuzzle() returns (advanced: bool)
      requires Valid()
      modifies this
      ensures Valid() && puzzles == old(puzzles)
      ensures advanced <==> old(current) + 1 < |puzzles|
      ensures current == if advanced then old(current) + 1 else old(current)
    {
      if |puzzles| > current + 1 {
        current := current + 1;
        advanced := true;
      } else {
        advanced := false;
      }
    }

    /** Replaces the current puzzle by sudoku; the other puzzles and the
        cursor stay as they are. */
    method SavePuzzle(sudoku: Puzzle)
      requires Valid() && IsGrid(sudoku)
      modifies this
      ensures Valid() && current == old(current)
      ensures puzzles == old(puzzles)[current := sudoku]
    {
      puzzles := puzzles[current := sudoku];
    }
  }
}
