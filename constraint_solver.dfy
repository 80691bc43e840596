/** The AC-3 propagator: arc revision, the worklist seeded from the blank
    cells, the propagation loop and the check for a unique solution. */
module ConstraintSolver {
  import opened Seqs
  import opened Grid
  import opened Constraints
  import opened Puzzles

  /** Some candidate of the constraining cell differs from x, so x can stay. */
  ghost predicate Supported(x: int, other: seq<int>) {
    exists y :: y in other && y != x
  }

  /** The constraining list holds two different values. */
  ghost predicate TwoValues(s: seq<int>) {
    exists i, j :: 0 <= i < |s| && 0 <= j < |s| && s[i] != s[j]
  }

  /** The elements at odd indices 1, 3, 5, ... */
  ghost function Odds(s: seq<int>): (r: seq<int>)
    ensures |r| == |s| / 2
  {
    seq(|s| / 2, k requires 0 <= k < |s| / 2 => s[2 * k + 1])
  }

  /** Support is witnessed by an index of the constraining list. */
  lemma SupportedAt(x: int, other: seq<int>)
    ensures Supported(x, other) <==> exists k :: 0 <= k < |other| && other[k] != x
  {
    if Supported(x, other) {
      var y :| y in other && y != x;
      var k :| 0 <= k < |other| && other[k] == y;
    } else {
      forall k | 0 <= k < |other| ensures other[k] == x {
        assert other[k] in other;
      }
    }
  }

  /** The loop of remove_inconsistent_values over the list cur, from
      iteration index i on. Python's list iterator reads cur[i] from the
      current list; an unsupported value is popped from the list being
      iterated, and the index still advances, so the element that slides
      into its place is never examined. */
  ghost function Sweep(cur: seq<int>, i: nat, other: seq<int>): seq<int>
    decreases |cur| - i
  {
    if i >= |cur| then cur
    else if Supported(cur[i], other) then Sweep(cur, i + 1, other)
    else Sweep(RemoveFirst(cur, cur[i]), i + 1, other)
  }

  /** The sweep only deletes, and it changes the list only by shortening it. */
  lemma {:induction false} SweepNarrows(cur: seq<int>, i: nat, other: seq<int>)
    ensures SubSeq(Sweep(cur, i, other), cur)
    ensures Sweep(cur, i, other) == cur || |Sweep(cur, i, other)| < |cur|
    decreases |cur| - i
  {
    if i >= |cur| {
      SubSeqRefl(cur);
    } else if Supported(cur[i], other) {
      SweepNarrows(cur, i + 1, other);
    } else {
      var next := RemoveFirst(cur, cur[i]);
      SweepNarrows(next, i + 1, other);
      SubSeqRemoveFirst(cur, cur[i]);
      SubSeqTrans(Sweep(next, i + 1, other), next, cur);
      SubSeqLength(Sweep(next, i + 1, other), next);
    }
  }

  /** A value with a differing candidate in the constraining list survives. */
  lemma {:induction false} SweepKeepsSupported(cur: seq<int>, i: nat, other: seq<int>, x: int)
    requires x in cur && Supported(x, other)
    ensures x in Sweep(cur, i, other)
    decreases |cur| - i
  {
    if i < |cur| {
      if Supported(cur[i], other) {
        SweepKeepsSupported(cur, i + 1, other, x);
      } else {
        assert cur[i] != x;
        assert multiset(RemoveFirst(cur, cur[i]))[x] == multiset(cur)[x];
        SweepKeepsSupported(RemoveFirst(cur, cur[i]), i + 1, other, x);
      }
    }
  }

  /** When the constraining list is non-empty and cur is duplicate-free, the
      sweep keeps exactly the supported values: the skipped element is never
      one that had to go. */
  lemma {:induction false} SweepExact(cur: seq<int>, i: nat, other: seq<int>)
    requires other != [] && Distinct(cur)
    requires forall j :: 0 <= j < i && j < |cur| ==> Supported(cur[j], other)
    ensures forall x :: x in Sweep(cur, i, other) <==> x in cur && Supported(x, other)
    decreases |cur| - i
  {
    if i >= |cur| {
      assert forall x :: x in cur ==> Supported(x, other);
    } else if Supported(cur[i], other) {
      SweepExact(cur, i + 1, other);
    } else {
      var v := cur[i];
      assert v !in cur[..i];
      RemoveFirstAt(cur, v, i);
      var next := RemoveFirst(cur, v);
      RemoveFirstDistinct(cur, v);
      forall j | 0 <= j < i + 1 && j < |next| ensures Supported(next[j], other) {
        if j < i {
          assert next[j] == cur[j];
        } else {
          assert next[j] == cur[i + 1] && cur[i + 1] != v;
          assert other[0] in other;
          assert other[0] == v;
        }
      }
      SweepExact(next, i + 1, other);
      forall x ensures x in next <==> x in cur && x != v {
        assert multiset(next)[x] == multiset(cur)[x] - (if x == v then 1 else 0);
      }
    }
  }

  /** Where no value lacks support, the sweep changes nothing. */
  lemma {:induction false} SweepAllSupported(cur: seq<int>, i: nat, other: seq<int>)
    requires forall x :: x in cur ==> Supported(x, other)
    ensures Sweep(cur, i, other) == cur
    decreases |cur| - i
  {
    if i < |cur| {
      SweepAllSupported(cur, i + 1, other);
    }
  }

  /** Against an empty constraining list every examined value is popped,
      and each pop makes the iteration skip the next one: a duplicate-free
      list keeps exactly its odd-indexed elements instead of being emptied. */
  lemma {:induction false} SweepEmptyFrom(s: seq<int>, i: nat)
    requires Distinct(s) && 2 * i <= |s|
    ensures Sweep(Odds(s[..2 * i]) + s[2 * i..], i, []) == Odds(s)
    decreases |s| - 2 * i
  {
    var cur := Odds(s[..2 * i]) + s[2 * i..];
    if 2 * i == |s| {
      assert s[..2 * i] == s;
    } else {
      var v := s[2 * i];
      OddsSkipAt(s, i);
      RemoveFirstAt(cur, v, i);
      if 2 * i + 1 == |s| {
        OddsLast(s, i);
      } else {
        OddsExtend(s, i);
        SweepEmptyFrom(s, i + 1);
      }
    }
  }

  /** Position i of the partly swept list holds s[2 * i], met for the first
      time there, and popping it leaves s[2 * i + 1..] behind the odds. */
  lemma OddsSkipAt(s: seq<int>, i: nat)
    requires Distinct(s) && 2 * i < |s|
    ensures (Odds(s[..2 * i]) + s[2 * i..])[i] == s[2 * i]
    ensures s[2 * i] !in (Odds(s[..2 * i]) + s[2 * i..])[..i]
    ensures (Odds(s[..2 * i]) + s[2 * i..])[..i] + (Odds(s[..2 * i]) + s[2 * i..])[i + 1..]
         == Odds(s[..2 * i]) + s[2 * i + 1..]
  {
    var cur := Odds(s[..2 * i]) + s[2 * i..];
    assert cur[..i] == Odds(s[..2 * i]);
    forall k | 0 <= k < i ensures cur[k] != s[2 * i] {
      assert cur[k] == s[2 * k + 1];
    }
    assert cur[i + 1..] == s[2 * i + 1..];
  }

  lemma OddsLast(s: seq<int>, i: nat)
    requires 2 * i + 1 == |s|
    ensures Odds(s[..2 * i]) + s[2 * i + 1..] == Odds(s)
  {
    assert s[2 * i + 1..] == [];
  }

  lemma OddsExtend(s: seq<int>, i: nat)
    requires 2 * i + 2 <= |s|
    ensures Odds(s[..2 * i]) + s[2 * i + 1..] == Odds(s[..2 * (i + 1)]) + s[2 * (i + 1)..]
  {
    assert Odds(s[..2 * (i + 1)]) == Odds(s[..2 * i]) + [s[2 * i + 1]];
    assert s[2 * i + 1..] == [s[2 * i + 1]] + s[2 * (i + 1)..];
  }

  /** remove_inconsistent_values(domain, pos_1, pos_2): walks pos_1's list by
      an index that always advances, pops every value that no candidate of
      pos_2 differs from, and reports whether anything was popped. The
      returned map is the dictionary after the in-place pops. */
  method RemoveInconsistentValues(domain: Domains, pos1: Pos, pos2: Pos)
    returns (reduced: Domains, removed: bool)
    requires pos1 in domain && pos2 in domain && pos1 != pos2
    ensures reduced == domain[pos1 := Sweep(domain[pos1], 0, domain[pos2])]
    ensures removed <==> |reduced[pos1]| < |domain[pos1]|
    ensures SubSeq(reduced[pos1], domain[pos1]) && (!removed ==> reduced == domain)
    ensures forall x :: x in domain[pos1] && Supported(x, domain[pos2]) ==> x in reduced[pos1]
    ensures domain[pos2] != [] && Distinct(domain[pos1]) ==>
              forall x :: x in reduced[pos1] <==> x in domain[pos1] && Supported(x, domain[pos2])
    ensures TwoValues(domain[pos2]) ==> reduced == domain
    ensures domain[pos2] == [] && Distinct(domain[pos1]) ==> reduced[pos1] == Odds(domain[pos1])
  {
    var cur := domain[pos1];
    var other := domain[pos2];
    removed := false;
    var i := 0;
    while i < |cur|
      invariant Sweep(cur, i, other) == Sweep(domain[pos1], 0, other)
      invariant |cur| <= |domain[pos1]|
      invariant removed <==> |cur| < |domain[pos1]|
      decreases |cur| - i
    {
      var val1 := cur[i];
      var found := false;
      for j := 0 to |other|
        invariant found <==> exists k :: 0 <= k < j && other[k] != val1
      {
        if val1 != other[j] {
          found := true;
        }
      }
      SupportedAt(val1, other);
      if !found {
        cur := RemoveFirst(cur, val1);
        removed := true;
      }
      i := i + 1;
    }
    reduced := domain[pos1 := cur];
    SweepFacts(domain[pos1], other);
  }

  /** The sweep from index 0, summed up: it deletes only, keeps what is
      supported, removes exactly the unsupported values when other is
      non-empty, keeps all when other has two values, and keeps the odd
      positions when other is empty. */
  lemma SweepFacts(s: seq<int>, other: seq<int>)
    ensures SubSeq(Sweep(s, 0, other), s)
    ensures Sweep(s, 0, other) == s || |Sweep(s, 0, other)| < |s|
    ensures forall x :: x in s && Supported(x, other) ==> x in Sweep(s, 0, other)
    ensures other != [] && Distinct(s) ==>
              forall x :: x in Sweep(s, 0, other) <==> x in s && Supported(x, other)
    ensures TwoValues(other) ==> Sweep(s, 0, other) == s
    ensures other == [] && Distinct(s) ==> Sweep(s, 0, other) == Odds(s)
  {
    SweepNarrows(s, 0, other);
    forall x | x in s && Supported(x, other) ensures x in Sweep(s, 0, other) {
      SweepKeepsSupported(s, 0, other, x);
    }
    if other != [] && Distinct(s) {
      SweepExact(s, 0, other);
    }
    if TwoValues(other) {
      forall x ensures Supported(x, other) {
        var a, b :| 0 <= a < |other| && 0 <= b < |other| && other[a] != other[b];
        assert other[a] in other && other[b] in other;
      }
      SweepAllSupported(s, 0, other);
    }
    if other == [] && Distinct(s) {
      assert s[..0] == [] && Odds([]) == [];
      assert Odds(s[..0]) + s[0..] == s;
      SweepEmptyFrom(s, 0);
    }
  }

  /** The worklist before the loop for the first n cells in row-major order:
      get_constraints of each blank cell, concatenated. */
  ghost function SeedArcs(g: Puzzle, n: nat): seq<Arc>
    requires IsGrid(g) && n <= 81
  {
    if n == 0 then []
    else
      var p := AllPositions()[n - 1];
      SeedArcs(g, n - 1) + (if g[p] == 0 then Arcs(p) else [])
  }

  /** The seeded worklist holds an arc exactly when it leaves a blank cell
      (among the first n) towards one of its peers. */
  lemma {:induction false} SeedArcsMembers(g: Puzzle, n: nat)
    requires IsGrid(g) && n <= 81
    ensures forall a :: a in SeedArcs(g, n) <==>
              9 * a.0.row + a.0.col < n && g[a.0] == 0 && IsPeer(a.0, a.1)
  {
    if n > 0 {
      SeedArcsMembers(g, n - 1);
      var p := AllPositions()[n - 1];
      ArcsSpec(p);
      forall a ensures a in SeedArcs(g, n) <==>
                9 * a.0.row + a.0.col < n && g[a.0] == 0 && IsPeer(a.0, a.1) {
        RowMajorIndex(a.0.row, a.0.col);
        if a.0 != p {
          assert 9 * a.0.row + a.0.col != n - 1;
        }
        if a.0 == p && IsPeer(p, a.1) {
          assert (p, a.1) == a;
        }
      }
    }
  }

  /** The seeding loops of ac3: for each cell in row-major order whose
      value is 0, append all its arcs. Arcs from given cells are not seeded. */
  method SeedQueue(pm: PuzzleManager) returns (queue: seq<Arc>)
    requires pm.Valid()
    ensures queue == SeedArcs(pm.Current(), 81)
    ensures forall a :: a in queue <==> pm.Current()[a.0] == 0 && IsPeer(a.0, a.1)
  {
    ghost var g := pm.Current();
    queue := [];
    for r := 0 to 9
      invariant queue == SeedArcs(g, 9 * r)
    {
      for c := 0 to 9
        invariant queue == SeedArcs(g, 9 * r + c)
      {
        SeedArcsNext(g, r, c);
        if pm.GetValue(r, c) == 0 {
          var arcs := GetConstraints(Pos(r, c));
          queue := queue + arcs;
        }
      }
    }
    SeedArcsAll(g);
  }

  /** Cell (r, c) is the (9 * r + c)-th of the row-major walk. */
  lemma SeedArcsNext(g: Puzzle, r: Coord, c: Coord)
    requires IsGrid(g)
    ensures g[Pos(r, c)] == 0 ==> SeedArcs(g, 9 * r + c + 1) == SeedArcs(g, 9 * r + c) + Arcs(Pos(r, c))
    ensures g[Pos(r, c)] != 0 ==> SeedArcs(g, 9 * r + c + 1) == SeedArcs(g, 9 * r + c)
  {
    RowMajorIndex(r, c);
    assert SeedArcs(g, 9 * r + c) + [] == SeedArcs(g, 9 * r + c);
  }

  /** The whole walk seeds exactly the arcs leaving blank cells. */
  lemma SeedArcsAll(g: Puzzle)
    requires IsGrid(g)
    ensures forall a :: a in SeedArcs(g, 81) <==> g[a.0] == 0 && IsPeer(a.0, a.1)
  {
    SeedArcsMembers(g, 81);
  }

  /** Every candidate of q has a differing candidate at p. */
  ghost predicate ArcSettled(d: Domains, q: Pos, p: Pos)
    requires q in d && p in d
  {
    forall x :: x in d[q] ==> Supported(x, d[p])
  }

  /** The worklist invariant: an arc (q, p) is still queued, or q is
      consistent with p, or p's list has run empty, or both cells were given
      (an arc between two given cells is never queued unless one changes). */
  ghost predicate Pending(g: Puzzle, d: Domains, queue: seq<Arc>)
    requires IsGrid(g) && Complete(d)
  {
    forall q, p :: IsPeer(q, p) ==>
      (q, p) in queue || ArcSettled(d, q, p) || d[p] == [] || (g[q] != 0 && g[p] != 0)
  }

  /** What the propagation loop leaves behind for puzzle g. */
  ghost predicate Propagated(g: Puzzle, d: Domains)
    requires IsGrid(g)
  {
    && Complete(d) && Narrows(d, InitialDomains(g)) && AllDistinct(d)
    && (forall s :: Admits(g, s) ==> Covers(d, s))
    && Pending(g, d, [])
  }

  /** The arcs (peer, p) pushed after p's list shrank. */
  ghost function Incoming(p: Pos): (arcs: seq<Arc>)
    ensures |arcs| == 20
    ensures forall a :: a in arcs <==> a.1 == p && IsPeer(p, a.0)
  {
    var arcs := seq(20, k requires 0 <= k < 20 => (Peers(p)[k], p));
    assert forall k :: 0 <= k < 20 ==> Peers(p)[k] in Peers(p);
    assert forall a: Arc :: a.1 == p && IsPeer(p, a.0) ==> a in arcs by {
      forall a: Arc | a.1 == p && IsPeer(p, a.0) ensures a in arcs {
        var k :| 0 <= k < 20 && Peers(p)[k] == a.0;
        assert arcs[k] == a;
      }
    }
    arcs
  }

  /** The seeded worklist satisfies the loop invariant. */
  lemma InitialPending(g: Puzzle, queue: seq<Arc>)
    requires IsGrid(g)
    requires forall a :: a in queue <==> g[a.0] == 0 && IsPeer(a.0, a.1)
    ensures Pending(g, InitialDomains(g), queue)
  {
    var d := InitialDomains(g);
    forall q, p | IsPeer(q, p) && (q, p) !in queue && !(g[q] != 0 && g[p] != 0)
      ensures ArcSettled(d, q, p)
    {
      assert g[q] != 0 && g[p] == 0;
      forall x | x in d[q] ensures Supported(x, d[p]) {
        var y := if x == 1 then 2 else 1;
        assert y in d[p] && y != x;
      }
    }
  }

  /** The invariant of the worklist loop of ac3 on puzzle g. */
  ghost predicate LoopInvariant(g: Puzzle, d: Domains, queue: seq<Arc>)
    requires IsGrid(g)
  {
    && Complete(d) && Narrows(d, InitialDomains(g)) && AllDistinct(d)
    && (forall a :: a in queue ==> IsPeer(a.0, a.1))
    && (forall s :: Admits(g, s) ==> Covers(d, s))
    && Pending(g, d, queue)
  }

  /** The initial domains with the seeded worklist satisfy the invariant. */
  lemma InitialInvariant(g: Puzzle, queue: seq<Arc>)
    requires IsGrid(g)
    requires forall a :: a in queue <==> g[a.0] == 0 && IsPeer(a.0, a.1)
    ensures LoopInvariant(g, InitialDomains(g), queue)
  {
    var d := InitialDomains(g);
    InitialPending(g, queue);
    forall p | p in d ensures SubSeq(d[p], d[p]) {
      SubSeqRefl(d[p]);
    }
  }

  /** One turn of the worklist loop keeps the invariant: the popped arc is
      settled (or points to an emptied cell), and when q's list shrank every
      arc into q is queued again. */
  lemma PendingStep(g: Puzzle, d: Domains, rest: seq<Arc>, a: Pos, b: Pos,
                    r: Domains, removed: bool, next: seq<Arc>)
    requires IsGrid(g) && Complete(d) && AllDistinct(d) && IsPeer(a, b)
    requires Pending(g, d, rest + [(a, b)])
    requires r == d[a := Sweep(d[a], 0, d[b])] && SubSeq(r[a], d[a])
    requires !removed ==> r == d
    requires d[b] != [] ==> forall x :: x in r[a] <==> x in d[a] && Supported(x, d[b])
    requires next == if removed then rest + Incoming(a) else rest
    ensures Complete(r) && Pending(g, r, next)
  {
    forall q, p | IsPeer(q, p)
      ensures (q, p) in next || ArcSettled(r, q, p) || r[p] == [] || (g[q] != 0 && g[p] != 0)
    {
      if (q, p) in rest {
        assert (q, p) in next;
      } else if (q, p) == (a, b) {
        if d[b] != [] {
          assert ArcSettled(r, q, p);
        }
      } else if p == a && removed {
        assert (q, p) in Incoming(a);
      } else if p != a {
        assert (q, p) in rest + [(a, b)] || ArcSettled(d, q, p) || d[p] == [] || (g[q] != 0 && g[p] != 0);
        if ArcSettled(d, q, p) {
          forall x | x in r[q] ensures Supported(x, r[p]) {
            if q == a {
              SubSeqMember(r[a], d[a], x);
            }
          }
        }
      }
    }
  }

  /** One turn of the loop: revising the popped arc (a, b) and queueing the
      arcs into a when a's list shrank keeps the invariant, and either the
      candidate count drops or nothing but the worklist changed. */
  lemma LoopStep(g: Puzzle, d: Domains, rest: seq<Arc>, a: Pos, b: Pos,
                 r: Domains, removed: bool, next: seq<Arc>)
    requires IsGrid(g) && LoopInvariant(g, d, rest + [(a, b)])
    requires r == d[a := Sweep(d[a], 0, d[b])]
    requires removed <==> |r[a]| < |d[a]|
    requires SubSeq(r[a], d[a]) && (!removed ==> r == d)
    requires forall x :: x in d[a] && Supported(x, d[b]) ==> x in r[a]
    requires d[b] != [] && Distinct(d[a]) ==> forall x :: x in r[a] <==> x in d[a] && Supported(x, d[b])
    requires next == if removed then rest + Incoming(a) else rest
    ensures LoopInvariant(g, r, next)
    ensures removed ==> Size(r) < Size(d)
  {
    assert (a, b) in rest + [(a, b)];
    PendingStep(g, d, rest, a, b, r, removed, next);
    NarrowsStep(d, InitialDomains(g), a, r[a]);
    CoversStep(g, d, a, b, r[a]);
    QueuedPeers(rest, a, b, removed, next);
    if removed {
      SizeShrinks(d, a, r[a]);
    }
  }

  /** Deleting candidates of one cell keeps the lists narrowed from e and
      free of repetitions. */
  lemma NarrowsStep(d: Domains, e: Domains, a: Pos, t: seq<int>)
    requires a in d && Narrows(d, e) && AllDistinct(d) && SubSeq(t, d[a])
    ensures Narrows(d[a := t], e) && AllDistinct(d[a := t])
  {
    SubSeqTrans(t, d[a], e[a]);
    SubSeqDistinct(t, d[a]);
  }

  /** Deleting from a only values no candidate of its peer b differs from
      keeps every solution's value. */
  lemma CoversStep(g: Puzzle, d: Domains, a: Pos, b: Pos, t: seq<int>)
    requires IsGrid(g) && Complete(d) && IsPeer(a, b)
    requires forall s :: Admits(g, s) ==> Covers(d, s)
    requires forall x :: x in d[a] && Supported(x, d[b]) ==> x in t
    ensures forall s :: Admits(g, s) ==> Covers(d[a := t], s)
  {
    forall s | Admits(g, s) ensures Covers(d[a := t], s) {
      assert s[a] != s[b] && s[b] in d[b];
    }
  }

  /** The worklist after a turn still holds only arcs between peers. */
  lemma QueuedPeers(rest: seq<Arc>, a: Pos, b: Pos, removed: bool, next: seq<Arc>)
    requires forall x :: x in rest + [(a, b)] ==> IsPeer(x.0, x.1)
    requires next == if removed then rest + Incoming(a) else rest
    ensures forall x :: x in next ==> IsPeer(x.0, x.1)
  {
    forall x | x in next ensures IsPeer(x.0, x.1) {
      if x !in rest {
        assert x in Incoming(a);
        assert IsPeer(x.1, x.0);
      } else {
        assert x in rest + [(a, b)];
      }
    }
  }

  lemma SplitLast(queue: seq<Arc>)
    requires queue != []
    ensures queue == queue[..|queue| - 1] + [queue[|queue| - 1]]
  {
  }

  /** The inner loop of ac3 after a revision changed pos's list: for each
      arc (pos, peer) of get_constraints, push (peer, pos). */
  method PushIncoming(queue: seq<Arc>, pos: Pos) returns (next: seq<Arc>)
    ensures next == queue + Incoming(pos)
  {
    next := queue;
    var arcs := GetConstraints(pos);
    for k := 0 to |arcs|
      invariant next == queue + Incoming(pos)[..k]
    {
      next := next + [(arcs[k].1, pos)];
    }
    assert Incoming(pos)[..20] == Incoming(pos);
  }

  /** Lines 51 to 67 of ac3: initial domains, the seeded worklist, and the
      loop that pops the last arc, revises it, and on a change pushes every
      arc into the changed cell. It terminates because each turn either
      removes a candidate or shortens the worklist. */
  method Propagate(pm: PuzzleManager) returns (domains: Domains)
    requires pm.Valid()
    ensures Propagated(pm.Current(), domains)
  {
    ghost var g := pm.Current();
    domains := pm.InitDomains();
    var queue := SeedQueue(pm);
    InitialInvariant(g, queue);
    while queue != []
      invariant LoopInvariant(g, domains, queue)
      decreases Size(domains), |queue|
    {
      var (pos1, pos2) := queue[|queue| - 1];
      ghost var rest := queue[..|queue| - 1];
      SplitLast(queue);
      queue := queue[..|queue| - 1];
      var reduced, removed := RemoveInconsistentValues(domains, pos1, pos2);
      if removed {
        queue := PushIncoming(queue, pos1);
      }
      LoopStep(g, domains, rest, pos1, pos2, reduced, removed, queue);
      domains := reduced;
    }
  }

  /** The singleton check of ac3 (and of backtracking): walk the cells, take
      each one's only candidate, give up at the first cell without exactly
      one. */
  method ExtractSolution(domains: Domains) returns (solution: Option<Puzzle>)
    ensures solution.Some? <==> AllSingletons(domains)
    ensures solution.Some? ==> solution.value.Keys == domains.Keys
    ensures solution.Some? ==> forall p :: p in domains ==> domains[p] == [solution.value[p]]
  {
    var sol: Puzzle := map[];
    var todo := domains.Keys;
    while todo != {}
      invariant todo <= domains.Keys && sol.Keys == domains.Keys - todo
      invariant forall p :: p in sol ==> domains[p] == [sol[p]]
      decreases todo
    {
      var pos :| pos in todo;
      if |domains[pos]| == 1 {
        sol := sol[pos := domains[pos][0]];
      } else {
        return None;
      }
      todo := todo - {pos};
    }
    return Some(sol);
  }

  /** Peers whose lists are both singletons hold different values, unless
      both cells were given. */
  lemma SingletonsSettled(g: Puzzle, d: Domains)
    requires IsGrid(g) && Propagated(g, d) && AllSingletons(d)
    ensures forall p, q :: IsPeer(p, q) && (g[p] == 0 || g[q] == 0) ==> d[p][0] != d[q][0]
  {
    forall p, q | IsPeer(p, q) && (g[p] == 0 || g[q] == 0) ensures d[p][0] != d[q][0] {
      assert ArcSettled(d, p, q);
      assert d[p][0] in d[p];
    }
  }

  /** A board read off singleton lists that AC-3 produced keeps every given
      digit, uses digits 1..9, and equals every solution of the puzzle. */
  lemma SingletonsSolve(g: Puzzle, d: Domains, sol: Puzzle)
    requires IsGrid(g) && Propagated(g, d)
    requires sol.Keys == d.Keys && forall p :: p in d ==> d[p] == [sol[p]]
    ensures Complete(sol) && forall p: Pos :: 1 <= sol[p] <= 9
    ensures forall p: Pos :: g[p] != 0 ==> sol[p] == g[p]
    ensures forall p, q :: IsPeer(p, q) && (g[p] == 0 || g[q] == 0) ==> sol[p] != sol[q]
    ensures forall s :: Admits(g, s) ==> s == sol
    ensures GivensConsistent(g) ==> Admits(g, sol)
  {
    SingletonValues(g, d, sol);
    SingletonsSettled(g, d);
    SingletonsUnique(g, d, sol);
  }

  /** The value read off a cell was one of its initial candidates. */
  lemma SingletonValues(g: Puzzle, d: Domains, sol: Puzzle)
    requires IsGrid(g) && Complete(d) && Narrows(d, InitialDomains(g))
    requires sol.Keys == d.Keys && forall p :: p in d ==> d[p] == [sol[p]]
    ensures Complete(sol) && forall p: Pos :: sol[p] in InitialDomains(g)[p]
  {
    var init := InitialDomains(g);
    forall p: Pos ensures sol[p] in init[p] {
      SubSeqMember(d[p], init[p], sol[p]);
    }
  }

  /** A solution keeps a candidate in every cell, so with one candidate
      per cell it is the board read off. */
  lemma SingletonsUnique(g: Puzzle, d: Domains, sol: Puzzle)
    requires Complete(d) && forall s :: Admits(g, s) ==> Covers(d, s)
    requires sol.Keys == d.Keys && forall p :: p in d ==> d[p] == [sol[p]]
    ensures forall s :: Admits(g, s) ==> s == sol
  {
    forall s | Admits(g, s) ensures s == sol {
      forall p: Pos ensures s[p] == sol[p] {
        assert s[p] in d[p];
      }
      assert s.Keys == sol.Keys;
    }
  }

  datatype Ac3Result = Reduced(domains: Domains) | Solved(solution: Puzzle) | NotUnique

  /** ac3(return_domain, input_pm) on the manager's current puzzle: the
      propagated domains when return_domain is set; otherwise, if every list
      is a singleton, the board, which is also saved over the current
      puzzle, and False (NotUnique) if not. The reduced domains are
      returned as a ghost companion to state what the result is made of. */
  method Ac3(pm: PuzzleManager, returnDomain: bool) returns (r: Ac3Result, ghost reduced: Domains)
    requires pm.Valid()
    modifies pm
    ensures pm.Valid() && pm.current == old(pm.current)
    ensures pm.puzzles == if r.Solved? then old(pm.puzzles)[old(pm.current) := r.solution] else old(pm.puzzles)
    ensures Propagated(old(pm.Current()), reduced)
    ensures r.Reduced? <==> returnDomain
    ensures r.Reduced? ==> r.domains == reduced
    ensures r.Solved? <==> !returnDomain && AllSingletons(reduced)
    ensures r.Solved? ==> Complete(r.solution)
    ensures r.Solved? ==> forall p: Pos :: reduced[p] == [r.solution[p]] && 1 <= r.solution[p] <= 9
    ensures r.Solved? ==> forall p, q ::
              IsPeer(p, q) && (old(pm.Current())[p] == 0 || old(pm.Current())[q] == 0) ==> r.solution[p] != r.solution[q]
    ensures r.Solved? ==> forall s :: Admits(old(pm.Current()), s) ==> s == r.solution
    ensures r.Solved? && GivensConsistent(old(pm.Current())) ==> Admits(old(pm.Current()), r.solution)
  {
    var domains := Propagate(pm);
    reduced := domains;
    if returnDomain {
      return Reduced(domains), reduced;
    }
    var solution := ExtractSolution(domains);
    if solution.Some? {
      SingletonsSolve(pm.Current(), domains, solution.value);
      pm.SavePuzzle(solution.value);
      r := Solved(solution.value);
    } else {
      r := NotUnique;
    }
  }
}
