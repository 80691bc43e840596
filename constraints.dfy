/** The constraint graph: for a cell, the 20 arcs (cell, peer) in the order
    the solvers list them. The same listing appears in both solvers; it is
    defined once here. */
module Constraints {
  import opened Seqs
  import opened Grid

  /** The i-th (i = 0 or 1) coordinate of x's band of three other than x,
      in increasing order. */
  function BoxMate(x: Coord, i: int): (y: Coord)
    requires 0 <= i < 2
    ensures y / 3 == x / 3 && y != x
  {
    var base := x - x % 3;
    if i == 0 then (if x % 3 == 0 then base + 1 else base)
    else (if x % 3 == 2 then base + 1 else base + 2)
  }

  /** The other coordinates of a band are exactly the two box mates. */
  lemma BoxMateOnto(x: Coord, y: Coord)
    requires y / 3 == x / 3 && y != x
    ensures y == BoxMate(x, 0) || y == BoxMate(x, 1)
  {
  }

  /** The 8 other cells of p's column, top to bottom. */
  function ColumnPeers(p: Pos): (ps: seq<Pos>)
    ensures |ps| == 8 && Distinct(ps)
    ensures forall q :: q in ps <==> q.col == p.col && q.row != p.row
  {
    var ps := seq(8, k requires 0 <= k < 8 => Pos(if k < p.row then k else k + 1, p.col));
    forall q: Pos | q.col == p.col && q.row != p.row ensures q in ps {
      assert ps[if q.row < p.row then q.row else q.row - 1] == q;
    }
    ps
  }

  /** The 8 other cells of p's row, left to right. */
  function RowPeers(p: Pos): (ps: seq<Pos>)
    ensures |ps| == 8 && Distinct(ps)
    ensures forall q :: q in ps <==> q.row == p.row && q.col != p.col
  {
    var ps := seq(8, k requires 0 <= k < 8 => Pos(p.row, if k < p.col then k else k + 1));
    forall q: Pos | q.row == p.row && q.col != p.col ensures q in ps {
      assert ps[if q.col < p.col then q.col else q.col - 1] == q;
    }
    ps
  }

  /** The 4 cells of p's box sharing neither its row nor its column, column
      by column. */
  function BoxPeers(p: Pos): (ps: seq<Pos>)
    ensures |ps| == 4 && Distinct(ps)
    ensures forall q :: q in ps <==> q.row != p.row && q.col != p.col && SameBox(p, q)
  {
    var ps := seq(4, k requires 0 <= k < 4 => Pos(BoxMate(p.row, k % 2), BoxMate(p.col, k / 2)));
    forall q: Pos | q.row != p.row && q.col != p.col && SameBox(p, q) ensures q in ps {
      BoxMateOnto(p.row, q.row);
      BoxMateOnto(p.col, q.col);
      var a := if q.row == BoxMate(p.row, 0) then 0 else 1;
      var b := if q.col == BoxMate(p.col, 0) then 0 else 1;
      assert ps[2 * b + a] == q;
    }
    ps
  }

  /** Two duplicate-free lists with no common element concatenate to a
      duplicate-free list. */
  lemma DistinctConcat(a: seq<Pos>, b: seq<Pos>)
    requires Distinct(a) && Distinct(b) && forall x :: x in a ==> x !in b
    ensures Distinct(a + b)
  {
    var c := a + b;
    forall i, j | 0 <= i < j < |c| ensures c[i] != c[j] {
      if j >= |a| && i < |a| {
        assert c[i] in a && c[j] == b[j - |a|];
      }
    }
  }

  /** The peers of p in listing order: the column, then the row, then the
      rest of the box. */
  function Peers(p: Pos): (ps: seq<Pos>)
    ensures |ps| == 20 && Distinct(ps)
    ensures forall q :: q in ps <==> IsPeer(p, q)
  {
    DistinctConcat(ColumnPeers(p), RowPeers(p));
    DistinctConcat(ColumnPeers(p) + RowPeers(p), BoxPeers(p));
    ColumnPeers(p) + RowPeers(p) + BoxPeers(p)
  }

  /** Where each peer sits in the listing. */
  lemma PeerAt(p: Pos, k: int)
    requires 0 <= k < 20
    ensures k < 8 ==> Peers(p)[k] == Pos(if k < p.row then k else k + 1, p.col)
    ensures 8 <= k < 16 ==> Peers(p)[k] == Pos(p.row, if k - 8 < p.col then k - 8 else k - 7)
    ensures 16 <= k ==> Peers(p)[k] == Pos(BoxMate(p.row, (k - 16) % 2), BoxMate(p.col, (k - 16) / 2))
  {
    if k < 8 {
      assert Peers(p)[k] == ColumnPeers(p)[k];
    } else if k < 16 {
      assert Peers(p)[k] == RowPeers(p)[k - 8];
    } else {
      assert Peers(p)[k] == BoxPeers(p)[k - 16];
    }
  }

  /** The arcs (p, peer), in the order of Peers(p). */
  function Arcs(p: Pos): (arcs: seq<Arc>)
    ensures |arcs| == 20
  {
    seq(20, k requires 0 <= k < 20 => (p, Peers(p)[k]))
  }

  /** The listing has 20 arcs, all from p, one to each peer of p and to
      nothing else. */
  lemma ArcsSpec(p: Pos)
    ensures |Arcs(p)| == 20 && Distinct(Arcs(p))
    ensures forall a :: a in Arcs(p) ==> a.0 == p
    ensures forall q :: (p, q) in Arcs(p) <==> IsPeer(p, q)
  {
    var arcs := Arcs(p);
    var ps := Peers(p);
    forall q | IsPeer(p, q) ensures (p, q) in arcs {
      var k :| 0 <= k < 20 && ps[k] == q;
      assert arcs[k] == (p, q);
    }
  }

  /** get_constraints(row, col): three append loops over the column, the
      row and the box of the cell. */
  method GetConstraints(p: Pos) returns (arcs: seq<Arc>)
    ensures arcs == Arcs(p)
  {
    ghost var spec := Arcs(p);
    arcs := [];
    // Cells of the same column, every row but p's.
    for r := 0 to 9
      invariant |arcs| == (if r <= p.row then r else r - 1)
      invariant arcs == spec[..|arcs|]
    {
      if r != p.row {
        PeerAt(p, |arcs|);
        arcs := arcs + [(p, Pos(r, p.col))];
      }
    }
    // Cells of the same row, every column but p's.
    for c := 0 to 9
      invariant |arcs| == 8 + (if c <= p.col then c else c - 1)
      invariant arcs == spec[..|arcs|]
    {
      if c != p.col {
        PeerAt(p, |arcs|);
        arcs := arcs + [(p, Pos(p.row, c))];
      }
    }
    // The box: its columns in order, within each its rows in order,
    // skipping cells that share p's row or column.
    var boxRow := p.row - p.row % 3;
    var boxCol := p.col - p.col % 3;
    for bc := boxCol to boxCol + 3
      invariant |arcs| == 16 + 2 * Skipped(bc - boxCol, p.col % 3)
      invariant arcs == spec[..|arcs|]
    {
      ghost var start := |arcs|;
      for br := boxRow to boxRow + 3
        invariant |arcs| == start + (if bc == p.col then 0 else Skipped(br - boxRow, p.row % 3))
        invariant arcs == spec[..|arcs|]
      {
        if p.row != br && p.col != bc {
          BoxArc(p, bc - boxCol, br - boxRow);
          arcs := arcs + [(p, Pos(br, bc))];
        }
      }
    }
  }

  /** How many of the offsets 0..t-1 differ from the skipped offset x. */
  function Skipped(t: int, x: int): int {
    if t <= x then t else t - 1
  }

  /** The box arc listed for column offset a and row offset b (neither
      p's own) sits at index 16 + 2 * (column slot) + (row slot). */
  lemma BoxArc(p: Pos, a: int, b: int)
    requires 0 <= a < 3 && 0 <= b < 3 && a != p.col % 3 && b != p.row % 3
    ensures 16 + 2 * Skipped(a, p.col % 3) + Skipped(b, p.row % 3) < 20
    ensures Arcs(p)[16 + 2 * Skipped(a, p.col % 3) + Skipped(b, p.row % 3)]
         == (p, Pos(p.row - p.row % 3 + b, p.col - p.col % 3 + a))
  {
    var i := Skipped(b, p.row % 3);
    var j := Skipped(a, p.col % 3);
    SlotIndex(i, j);
    BoxMateSkipped(p.row, b);
    BoxMateSkipped(p.col, a);
    PeerAt(p, 16 + 2 * j + i);
  }

  lemma SlotIndex(i: int, j: int)
    requires 0 <= i < 2 && 0 <= j < 2
    ensures (2 * j + i) % 2 == i && (2 * j + i) / 2 == j
  {
  }

  /** The box mate in slot Skipped(t, x % 3) is the coordinate at offset t
      of x's band. */
  lemma BoxMateSkipped(x: Coord, t: int)
    requires 0 <= t < 3 && t != x % 3
    ensures 0 <= Skipped(t, x % 3) < 2
    ensures BoxMate(x, Skipped(t, x % 3)) == x - x % 3 + t
  {
  }
}
