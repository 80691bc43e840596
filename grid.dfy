/** Cells, the peer relation of the 9x9 board, candidate-domain maps and the
    notion of a solved board that both solvers are measured against. */
module Grid {
  import opened Seqs

  /** A row or column index. Row 0..8 stands for the letters A..I of the
      position keys, column 0..8 for the digits 1..9. */
  type Coord = i: int | 0 <= i < 9

  /** The cell whose key is ROWS[row] + COLS[col] ("A1" is Pos(0, 0)). */
  datatype Pos = Pos(row: Coord, col: Coord)

  /** A constraint (pos_1, pos_2): pos_1's candidates are constrained by pos_2's. */
  type Arc = (Pos, Pos)

  /** Candidate lists per cell; lists rather than sets, because the solvers
      depend on their order. */
  type Domains = map<Pos, seq<int>>

  /** A puzzle: a digit per cell, 0 for a blank. */
  type Puzzle = map<Pos, int>

  predicate SameBox(p: Pos, q: Pos) {
    p.row / 3 == q.row / 3 && p.col / 3 == q.col / 3
  }

  /** q constrains p: a different cell in the same row, column or 3x3 box. */
  predicate IsPeer(p: Pos, q: Pos) {
    p != q && (p.row == q.row || p.col == q.col || SameBox(p, q))
  }

  /** Every one of the 81 cells is a key. */
  ghost predicate Complete<V>(m: map<Pos, V>) {
    forall p: Pos :: p in m
  }

  /** A well-formed puzzle: every cell holds a digit 0..9. */
  ghost predicate IsGrid(g: Puzzle) {
    forall p: Pos :: p in g && 0 <= g[p] <= 9
  }

  /** Every candidate list is free of repetitions. */
  ghost predicate AllDistinct(d: Domains) {
    forall p :: p in d ==> Distinct(d[p])
  }

  /** Every candidate list of d is obtained from the one of e by deletions. */
  ghost predicate Narrows(d: Domains, e: Domains) {
    d.Keys == e.Keys && forall p :: p in d ==> SubSeq(d[p], e[p])
  }

  /** Every candidate list holds exactly one value. */
  predicate AllSingletons(d: Domains) {
    forall p :: p in d ==> |d[p]| == 1
  }

  /** A filled board that breaks no row, column or box rule. */
  ghost predicate IsSolution(s: Puzzle) {
    && (forall p: Pos :: p in s && 1 <= s[p] <= 9)
    && (forall p, q :: IsPeer(p, q) ==> s[p] != s[q])
  }

  /** s solves puzzle g: a solution that keeps every given digit of g. */
  ghost predicate Admits(g: Puzzle, s: Puzzle) {
    IsGrid(g) && IsSolution(s) && forall p: Pos :: g[p] != 0 ==> s[p] == g[p]
  }

  /** Each cell's value in s is still among its candidates in d. */
  ghost predicate Covers(d: Domains, s: Puzzle)
    requires Complete(d) && Complete(s)
  {
    forall p: Pos :: s[p] in d[p]
  }

  /** No two peers are given the same digit. */
  ghost predicate GivensConsistent(g: Puzzle)
    requires IsGrid(g)
  {
    forall p, q :: IsPeer(p, q) && g[p] != 0 && g[q] != 0 ==> g[p] != g[q]
  }

  /** The 81 cells in row-major order, the order of the puzzle text. */
  function AllPositions(): (ps: seq<Pos>)
    ensures |ps| == 81
    ensures forall p: Pos :: ps[9 * p.row + p.col] == p
    ensures forall p: Pos :: p in ps
  {
    var ps := seq(81, k requires 0 <= k < 81 => Pos(k / 9, k % 9));
    assert forall p: Pos :: ps[9 * p.row + p.col] == p && p in ps by {
      forall p: Pos ensures ps[9 * p.row + p.col] == p && p in ps {
        RowMajorIndex(p.row, p.col);
      }
    }
    ps
  }

  lemma RowMajorIndex(r: Coord, c: Coord)
    ensures (9 * r + c) / 9 == r && (9 * r + c) % 9 == c
  {
  }

  function SizeOf(d: Domains, ps: seq<Pos>): nat
    requires forall p :: p in ps ==> p in d
  {
    if ps == [] then 0 else |d[ps[0]]| + SizeOf(d, ps[1..])
  }

  /** Total number of candidates left on the board. */
  ghost function Size(d: Domains): nat
    requires Complete(d)
  {
    SizeOf(d, AllPositions())
  }

  /** Shrinking one listed cell strictly, and no cell growing, strictly
      lowers the candidate count over the list. */
  lemma {:induction false} SizeOfShrinks(d: Domains, e: Domains, ps: seq<Pos>, p: Pos)
    requires forall q :: q in ps ==> q in d && q in e && |e[q]| <= |d[q]|
    requires p in ps && |e[p]| < |d[p]|
    ensures SizeOf(e, ps) < SizeOf(d, ps)
  {
    if ps[0] == p {
      SizeOfNoGrowth(d, e, ps[1..]);
    } else {
      SizeOfShrinks(d, e, ps[1..], p);
    }
  }

  lemma {:induction false} SizeOfNoGrowth(d: Domains, e: Domains, ps: seq<Pos>)
    requires forall q :: q in ps ==> q in d && q in e && |e[q]| <= |d[q]|
    ensures SizeOf(e, ps) <= SizeOf(d, ps)
  {
    if ps != [] {
      SizeOfNoGrowth(d, e, ps[1..]);
    }
  }

  /** Replacing one cell's list by a shorter one lowers Size. */
  lemma SizeShrinks(d: Domains, p: Pos, t: seq<int>)
    requires Complete(d) && |t| < |d[p]|
    ensures Complete(d[p := t]) && Size(d[p := t]) < Size(d)
  {
    SizeOfShrinks(d, d[p := t], AllPositions(), p);
  }
}
