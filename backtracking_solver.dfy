/** The depth-first search with forward checking that finishes what AC-3
    leaves open: pick the open cell with the fewest candidates, try its
    candidates in list order, prune each choice from the peers, recurse. */
module BacktrackingSolver {
  import opened Seqs
  import opened Grid
  import opened Constraints
  import opened Puzzles
  import opened ConstraintSolver

  /** The exceptions the search can raise. NoSelectableVariable: every open
      cell still has 9 candidates, so the minimum search yields "" and
      list.index("") raises ValueError. EmptyDomainIndex: the consistency
      check reads [0] of an empty list of a decided peer (IndexError).
      SearchFailed: the search returned False and backtracking iterates over
      it (TypeError). */
  datatype Crash = NoSelectableVariable | EmptyDomainIndex | SearchFailed

  datatype SearchOutcome = Found(domains: Domains) | Failed | Raised(error: Crash)

  /** The first position (in list order) whose candidate list is shorter
      than 9 and than every list before it, i.e. the first of the shortest
      lists; None when every list has 9 or more candidates. */
  method MinConstrainingValue(domains: Domains, positions: seq<Pos>) returns (smallest: Option<Pos>)
    requires forall p :: p in positions ==> p in domains
    ensures smallest.None? <==> forall p :: p in positions ==> |domains[p]| >= 9
    ensures smallest.Some? ==> smallest.value in positions && |domains[smallest.value]| < 9
    ensures smallest.Some? ==> forall p :: p in positions ==> |domains[smallest.value]| <= |domains[p]|
    ensures smallest.Some? ==>
              exists i :: 0 <= i < |positions| && positions[i] == smallest.value && (forall j :: 0 <= j < i ==> |domains[positions[j]]| > |domains[smallest.value]|)
    ensures smallest == MinChoice(domains, positions)
  {
    smallest := None;
    var smallestSize := 9;
    ghost var at := 0;
    for i := 0 to |positions|
      invariant (smallest, smallestSize) == MinUpTo(domains, positions, i)
      invariant smallestSize <= 9
      invariant forall j :: 0 <= j < i ==> smallestSize <= |domains[positions[j]]|
      invariant smallest.None? ==> smallestSize == 9
      invariant smallest.Some? ==> 0 <= at < i && positions[at] == smallest.value
      invariant smallest.Some? ==> smallestSize == |domains[smallest.value]| < 9
      invariant smallest.Some? ==> forall j :: 0 <= j < at ==> |domains[positions[j]]| > smallestSize
    {
      if |domains[positions[i]]| < smallestSize {
        smallest := Some(positions[i]);
        smallestSize := |domains[positions[i]]|;
        at := i;
      }
    }
  }

  /** The pair (smallest, smallest_size) after the first n turns of the
      selection loop. */
  ghost function MinUpTo(domains: Domains, positions: seq<Pos>, n: nat): (Option<Pos>, int)
    requires n <= |positions| && forall p :: p in positions ==> p in domains
  {
    if n == 0 then (None, 9)
    else
      var prev := MinUpTo(domains, positions, n - 1);
      var p := positions[n - 1];
      if |domains[p]| < prev.1 then (Some(p), |domains[p]|) else prev
  }

  /** The cell min_constraing_val selects, None standing for "". */
  ghost function MinChoice(domains: Domains, positions: seq<Pos>): Option<Pos>
    requires forall p :: p in positions ==> p in domains
  {
    MinUpTo(domains, positions, |positions|).0
  }

  /** Any two positions meeting the selection rule are the same: the rule
      names one cell. */
  lemma MinChoiceUnique(domains: Domains, positions: seq<Pos>, i: int, k: int)
    requires forall p :: p in positions ==> p in domains
    requires 0 <= i < |positions| && 0 <= k < |positions|
    requires forall p :: p in positions ==> |domains[positions[i]]| <= |domains[p]|
    requires forall p :: p in positions ==> |domains[positions[k]]| <= |domains[p]|
    requires forall j :: 0 <= j < i ==> |domains[positions[j]]| > |domains[positions[i]]|
    requires forall j :: 0 <= j < k ==> |domains[positions[j]]| > |domains[positions[k]]|
    ensures i == k
  {
    assert positions[i] in positions && positions[k] in positions;
  }

  /** e is d after forward checking value at cell v: value dropped (first
      occurrence) from every peer's list, every other list untouched. */
  ghost predicate IsPruned(d: Domains, v: Pos, value: int, e: Domains) {
    e.Keys == d.Keys && forall p :: p in d ==> e[p] == if IsPeer(v, p) then RemoveFirst(d[p], value) else d[p]
  }

  /** Forward checking only deletes, and in duplicate-free lists it deletes
      the value from every peer and keeps lists duplicate-free. */
  lemma PrunedFacts(d: Domains, v: Pos, value: int, e: Domains)
    requires IsPruned(d, v, value, e)
    ensures Narrows(e, d)
    ensures AllDistinct(d) ==> AllDistinct(e)
    ensures AllDistinct(d) ==> forall q :: q in d && IsPeer(v, q) ==> value !in e[q]
  {
    forall p | p in d ensures SubSeq(e[p], d[p]) {
      if IsPeer(v, p) {
        SubSeqRemoveFirst(d[p], value);
      } else {
        SubSeqRefl(d[p]);
      }
    }
    if AllDistinct(d) {
      forall p | p in d && IsPeer(v, p) ensures Distinct(e[p]) && value !in e[p] {
        RemoveFirstDistinct(d[p], value);
      }
    }
  }

  /** The loop of forward_checking from arc k on, over the current domains
      d: pop value from the peer's list if present, stop with None when the
      peer's list is empty. */
  ghost function CheckFrom<K>(d: map<K, seq<int>>, value: int, arcs: seq<(K, K)>, k: nat): Option<map<K, seq<int>>>
    decreases |arcs| - k
  {
    if k >= |arcs| then Some(d)
    else
      var q := arcs[k].1;
      if q !in d then None
      else
        var e := if value in d[q] then d[q := RemoveFirst(d[q], value)] else d;
        if |e[q]| < 1 then None else CheckFrom(e, value, arcs, k + 1)
  }

  /** The cells the arcs from index k on point to. */
  ghost function Targets<K>(arcs: seq<(K, K)>, k: nat): set<K> {
    set i | k <= i < |arcs| :: arcs[i].1
  }

  /** One arc of the run: pop value from the target (a no-op when it is
      absent) and stop if that empties it. */
  lemma CheckOne<K>(d: map<K, seq<int>>, value: int, arcs: seq<(K, K)>, k: nat)
    requires k < |arcs| && arcs[k].1 in d
    ensures CheckFrom(d, value, arcs, k)
         == if RemoveFirst(d[arcs[k].1], value) == [] then None
            else CheckFrom(d[arcs[k].1 := RemoveFirst(d[arcs[k].1], value)], value, arcs, k + 1)
  {
    var q := arcs[k].1;
    if value !in d[q] {
      assert d[q := RemoveFirst(d[q], value)] == d;
    }
  }

  /** Along arcs with distinct targets, the run fails exactly when popping
      value empties some target. */
  lemma {:induction false} CheckFromFails<K>(d: map<K, seq<int>>, value: int, arcs: seq<(K, K)>, k: nat)
    requires k <= |arcs| && forall i :: k <= i < |arcs| ==> arcs[i].1 in d
    requires forall i, j :: k <= i < j < |arcs| ==> arcs[i].1 != arcs[j].1
    ensures CheckFrom(d, value, arcs, k).None? <==>
              exists i :: k <= i < |arcs| && RemoveFirst(d[arcs[i].1], value) == []
    decreases |arcs| - k
  {
    if k < |arcs| {
      var q := arcs[k].1;
      CheckOne(d, value, arcs, k);
      if RemoveFirst(d[q], value) != [] {
        var e := d[q := RemoveFirst(d[q], value)];
        CheckFromFails(e, value, arcs, k + 1);
        assert forall i :: k < i < |arcs| ==> e[arcs[i].1] == d[arcs[i].1];
      }
    }
  }

  /** When the run succeeds, it has popped value from each target and left
      every other list as it was. */
  lemma {:induction false} CheckFromPrunes<K>(d: map<K, seq<int>>, value: int, arcs: seq<(K, K)>, k: nat)
    requires k <= |arcs| && forall i :: k <= i < |arcs| ==> arcs[i].1 in d
    requires forall i, j :: k <= i < j < |arcs| ==> arcs[i].1 != arcs[j].1
    requires CheckFrom(d, value, arcs, k).Some?
    ensures CheckFrom(d, value, arcs, k).value.Keys == d.Keys
    ensures forall p :: p in d ==>
              CheckFrom(d, value, arcs, k).value[p] == if p in Targets(arcs, k) then RemoveFirst(d[p], value) else d[p]
    decreases |arcs| - k
  {
    if k < |arcs| {
      var q := arcs[k].1;
      CheckOne(d, value, arcs, k);
      var e := d[q := RemoveFirst(d[q], value)];
      CheckFromPrunes(e, value, arcs, k + 1);
      PrunesStep(d, value, arcs, k, CheckFrom(e, value, arcs, k + 1).value);
    }
  }

  /** The step of the induction above: popping the k-th target first and
      the later ones after it pops every target from k on. */
  lemma PrunesStep<K>(d: map<K, seq<int>>, value: int, arcs: seq<(K, K)>, k: nat, r: map<K, seq<int>>)
    requires k < |arcs| && arcs[k].1 in d
    requires forall j :: k < j < |arcs| ==> arcs[k].1 != arcs[j].1
    requires r.Keys == d.Keys
    requires forall p :: p in d ==> r[p] == if p in Targets(arcs, k + 1)
               then RemoveFirst(d[arcs[k].1 := RemoveFirst(d[arcs[k].1], value)][p], value)
               else d[arcs[k].1 := RemoveFirst(d[arcs[k].1], value)][p]
    ensures forall p :: p in d ==> r[p] == if p in Targets(arcs, k) then RemoveFirst(d[p], value) else d[p]
  {
    var q := arcs[k].1;
    assert q !in Targets(arcs, k + 1);
    forall p | p in d
      ensures r[p] == if p in Targets(arcs, k) then RemoveFirst(d[p], value) else d[p]
    {
      if p == q {
        assert q in Targets(arcs, k);
      } else {
        assert p in Targets(arcs, k) <==> p in Targets(arcs, k + 1) by {
          if p in Targets(arcs, k) {
            var i :| k <= i < |arcs| && arcs[i].1 == p;
            assert i != k;
          }
        }
      }
    }
  }

  /** Forward checking value at cell v: the run over the arcs of v. */
  ghost function ForwardCheck(d: Domains, v: Pos, value: int): Option<Domains> {
    CheckFrom(d, value, Arcs(v), 0)
  }

  /** Forward checking fails exactly when some peer of v would lose its last
      candidate, and otherwise yields the pruned domains. */
  lemma ForwardCheckSpec(d: Domains, v: Pos, value: int)
    requires Complete(d)
    ensures ForwardCheck(d, v, value).None? <==> exists q :: IsPeer(v, q) && RemoveFirst(d[q], value) == []
    ensures ForwardCheck(d, v, value).Some? ==> IsPruned(d, v, value, ForwardCheck(d, v, value).value)
  {
    var arcs := Arcs(v);
    ArcTargets(v);
    CheckFromFails(d, value, arcs, 0);
    if ForwardCheck(d, v, value).Some? {
      CheckFromPrunes(d, value, arcs, 0);
    }
    if q :| IsPeer(v, q) && RemoveFirst(d[q], value) == [] {
      assert q in Targets(arcs, 0);
    }
    if i :| 0 <= i < 20 && RemoveFirst(d[arcs[i].1], value) == [] {
      assert arcs[i].1 in Targets(arcs, 0);
    }
  }

  /** The arcs of v point to distinct cells, and to exactly the peers of v. */
  lemma ArcTargets(v: Pos)
    ensures forall i, j :: 0 <= i < j < |Arcs(v)| ==> Arcs(v)[i].1 != Arcs(v)[j].1
    ensures forall p :: p in Targets(Arcs(v), 0) <==> IsPeer(v, p)
  {
    var arcs := Arcs(v);
    var peers := Peers(v);
    assert forall i :: 0 <= i < 20 ==> arcs[i].1 == peers[i];
    forall p | IsPeer(v, p) ensures p in Targets(arcs, 0) {
      var i :| 0 <= i < 20 && peers[i] == p;
      assert arcs[i].1 == p;
    }
  }

  /** forward_checking(domain, var, value): for each arc of var, pop value
      from the peer's list if present, and give up (False, None here) as soon
      as a peer's list is empty. */
  method ForwardChecking(domain: Domains, v: Pos, value: int) returns (r: Option<Domains>)
    requires Complete(domain)
    ensures r == ForwardCheck(domain, v, value)
    ensures r.None? <==> exists q :: IsPeer(v, q) && RemoveFirst(domain[q], value) == []
    ensures r.Some? ==> IsPruned(domain, v, value, r.value)
  {
    ForwardCheckSpec(domain, v, value);
    var cur := domain;
    var constraints := GetConstraints(v);
    for k := 0 to |constraints|
      invariant CheckFrom(cur, value, constraints, k) == ForwardCheck(domain, v, value)
      invariant cur.Keys == domain.Keys
    {
      var q := constraints[k].1;
      if value in cur[q] {
        cur := cur[q := RemoveFirst(cur[q], value)];
      }
      if |cur[q]| < 1 {
        return None;
      }
    }
    return Some(cur);
  }

  /** What a successful search guarantees about the domains r it returns for
      the variables vars and the domains d it started from: r only deletes,
      keeps non-empty lists non-empty, leaves every variable one value, and
      (for duplicate-free lists) that value is gone from all its peers. */
  ghost predicate Settles(d: Domains, vars: seq<Pos>, r: Domains) {
    && Narrows(r, d)
    && (forall p :: p in d && d[p] != [] ==> r[p] != [])
    && (forall v :: v in vars ==> v in r && |r[v]| == 1)
    && (AllDistinct(d) ==> AllDistinct(r) && forall v, q :: v in vars && IsPeer(v, q) && q in r ==> r[v][0] !in r[q])
  }

  /** With no variables left, the domains settle themselves. */
  lemma SettlesRefl(d: Domains)
    ensures Settles(d, [], d)
  {
    forall p | p in d ensures SubSeq(d[p], d[p]) {
      SubSeqRefl(d[p]);
    }
  }

  /** The domains handed to the recursive call: the pruned ones with x
      fixed to [value]. They narrow d, keep its non-empty lists non-empty,
      and (for duplicate-free lists) are duplicate-free without value at
      any peer of x. */
  lemma AssignNarrows(d: Domains, x: Pos, value: int, e: Domains)
    requires Complete(d) && value in d[x] && IsPruned(d, x, value, e)
    requires forall q :: IsPeer(x, q) ==> RemoveFirst(d[q], value) != []
    ensures Narrows(e[x := [value]], d)
    ensures forall p :: p in d && d[p] != [] ==> e[x := [value]][p] != []
    ensures AllDistinct(d) ==> AllDistinct(e[x := [value]])
    ensures AllDistinct(d) ==> forall q :: IsPeer(x, q) ==> value !in e[x := [value]][q]
  {
    var a := e[x := [value]];
    PrunedFacts(d, x, value, e);
    SubSeqSingleton(d[x], value);
    assert forall p :: p in d ==> SubSeq(a[p], d[p]);
  }

  /** Assigning value to x after forward checking succeeded, then settling
      the remaining variables, settles all of them. */
  lemma AssignSettles(d: Domains, vars: seq<Pos>, x: Pos, value: int, e: Domains, r: Domains)
    requires Complete(d) && x in vars && value in d[x] && IsPruned(d, x, value, e)
    requires forall q :: IsPeer(x, q) ==> RemoveFirst(d[q], value) != []
    requires Settles(e[x := [value]], RemoveFirst(vars, x), r)
    ensures Settles(d, vars, r)
  {
    var a := e[x := [value]];
    var rest := RemoveFirst(vars, x);
    AssignNarrows(d, x, value, e);
    forall p | p in d ensures SubSeq(r[p], d[p]) {
      SubSeqTrans(r[p], a[p], d[p]);
    }
    assert r[x] == [value] by {
      SubSeqOfSingleton(r[x], value);
    }
    forall v | v in vars && v != x ensures v in rest {
      assert multiset(rest)[v] == multiset(vars)[v];
    }
    if AllDistinct(d) {
      forall q | IsPeer(x, q) ensures value !in r[q] {
        if value in r[q] {
          SubSeqMember(r[q], a[q], value);
        }
      }
    }
  }

  /** The consistency loop of recursive_backtracking for one candidate,
      from arc k on, with the flag so far: an arc whose target is not among
      the remaining variables reads that target's first candidate, which
      raises (None) when its list is empty and sets the flag when it equals
      value. The loop does not stop early. */
  ghost function Consistency(domains: Domains, rest: seq<Pos>, arcs: seq<Arc>, value: int, k: nat, inconsistent: bool): Option<bool>
    requires Complete(domains)
    decreases |arcs| - k
  {
    if k >= |arcs| then Some(inconsistent)
    else
      var q := arcs[k].1;
      if q in rest then Consistency(domains, rest, arcs, value, k + 1, inconsistent)
      else if domains[q] == [] then None
      else Consistency(domains, rest, arcs, value, k + 1, inconsistent || domains[q][0] == value)
  }

  /** The check raises exactly when a target outside rest has an empty
      list, and otherwise flags value exactly when some target outside rest
      starts with it. */
  lemma {:induction false} ConsistencySpec(domains: Domains, rest: seq<Pos>, arcs: seq<Arc>, value: int, k: nat, inconsistent: bool)
    requires Complete(domains)
    ensures Consistency(domains, rest, arcs, value, k, inconsistent).None? <==>
              exists i :: k <= i < |arcs| && arcs[i].1 !in rest && domains[arcs[i].1] == []
    ensures Consistency(domains, rest, arcs, value, k, inconsistent) == Some(true) <==>
              (forall i :: k <= i < |arcs| && arcs[i].1 !in rest ==> domains[arcs[i].1] != []) &&
              (inconsistent || exists i :: k <= i < |arcs| && arcs[i].1 !in rest && domains[arcs[i].1][0] == value)
    decreases |arcs| - k
  {
    if k < |arcs| {
      var q := arcs[k].1;
      if q in rest {
        ConsistencySpec(domains, rest, arcs, value, k + 1, inconsistent);
      } else if domains[q] != [] {
        ConsistencySpec(domains, rest, arcs, value, k + 1, inconsistent || domains[q][0] == value);
      }
    }
  }

  /** What recursive_backtracking(variables, domains) returns. */
  ghost function Search(variables: seq<Pos>, domains: Domains): SearchOutcome
    requires Complete(domains)
    decreases |variables|, 1
  {
    if variables == [] then Found(domains)
    else
      var choice := MinChoice(domains, variables);
      if choice.None? then Raised(NoSelectableVariable)
      else
        MinUpToIn(domains, variables, |variables|);
        TryValues(variables, domains, choice.value, 0)
  }

  /** The value loop of recursive_backtracking for the selected cell v, from
      the i-th candidate on. */
  ghost function TryValues(variables: seq<Pos>, domains: Domains, v: Pos, i: nat): SearchOutcome
    requires Complete(domains) && v in variables
    decreases |variables|, 0, |domains[v]| - i
  {
    if i >= |domains[v]| then Failed
    else
      var value := domains[v][i];
      var rest := RemoveFirst(variables, v);
      var check := Consistency(domains, rest, Arcs(v), value, 0, false);
      if check.None? then Raised(EmptyDomainIndex)
      else if check.value then TryValues(variables, domains, v, i + 1)
      else
        var pruned := ForwardCheck(domains, v, value);
        ForwardCheckSpec(domains, v, value);
        if pruned.None? then Failed
        else
          var result := Search(rest, pruned.value[v := [value]]);
          if result.Found? || result.Raised? then result
          else TryValues(variables, domains, v, i + 1)
  }

  /** The selected cell is one of the positions. */
  lemma {:induction false} MinUpToIn(domains: Domains, positions: seq<Pos>, n: nat)
    requires n <= |positions| && forall p :: p in positions ==> p in domains
    ensures MinUpTo(domains, positions, n).0.Some? ==> MinUpTo(domains, positions, n).0.value in positions[..n]
  {
    if n > 0 {
      MinUpToIn(domains, positions, n - 1);
      assert positions[..n - 1] <= positions[..n];
    }
  }

  /** The quirk of line 94: once the first candidate that passes the
      consistency check fails forward checking, the search of this cell
      ends with Failed, whatever the later candidates would give. */
  lemma {:induction false} FirstForwardFailure(variables: seq<Pos>, domains: Domains, v: Pos, i: nat, j: nat)
    requires Complete(domains) && v in variables && j <= i < |domains[v]|
    requires forall t :: j <= t < i ==>
               Consistency(domains, RemoveFirst(variables, v), Arcs(v), domains[v][t], 0, false) == Some(true)
    requires Consistency(domains, RemoveFirst(variables, v), Arcs(v), domains[v][i], 0, false) == Some(false)
    requires ForwardCheck(domains, v, domains[v][i]).None?
    ensures TryValues(variables, domains, v, j) == Failed
    decreases i - j
  {
    if j < i {
      FirstForwardFailure(variables, domains, v, i, j + 1);
    }
  }

  /** A candidate that a decided peer (one not among the remaining
      variables) already starts with is never tried: the search moves on
      to the next candidate, unless a decided peer's list is empty, which
      raises. */
  lemma SkipsHeldValue(variables: seq<Pos>, domains: Domains, v: Pos, i: nat, q: Pos)
    requires Complete(domains) && v in variables && i < |domains[v]|
    requires IsPeer(v, q) && q !in RemoveFirst(variables, v)
    requires domains[q] != [] && domains[q][0] == domains[v][i]
    ensures TryValues(variables, domains, v, i) == TryValues(variables, domains, v, i + 1)
         || TryValues(variables, domains, v, i) == Raised(EmptyDomainIndex)
  {
    var rest := RemoveFirst(variables, v);
    ArcsSpec(v);
    var k :| 0 <= k < |Arcs(v)| && Arcs(v)[k] == (v, q);
    ConsistencySpec(domains, rest, Arcs(v), domains[v][i], 0, false);
  }

  /** recursive_backtracking(variables, domains): with no variables left
      the domains are the answer. Otherwise the minimum-remaining-values
      cell is popped from the variables, and its candidates are tried in
      order. A candidate equal to the first value of an undecided-out peer
      (one not among the remaining variables) is skipped. The first
      candidate that passes that check but fails forward checking ends the
      whole call with False, without trying the later candidates. A
      candidate that passes is assigned and the rest is searched
      recursively; a found answer is returned, an exception propagates. */
  method RecursiveBacktracking(variables: seq<Pos>, domains: Domains) returns (r: SearchOutcome)
    requires Complete(domains)
    ensures r == Search(variables, domains)
    ensures variables == [] ==> r == Found(domains)
    ensures variables != [] && (forall v :: v in variables ==> |domains[v]| >= 9) ==>
              r == Raised(NoSelectableVariable)
    ensures r.Found? ==> Settles(domains, variables, r.domains)
    decreases |variables|
  {
    if |variables| == 0 {
      SettlesRefl(domains);
      return Found(domains);
    }
    var choice := MinConstrainingValue(domains, variables);
    if choice.None? {
      return Raised(NoSelectableVariable);
    }
    var varPos := choice.value;
    var rest := RemoveFirst(variables, varPos);
    var constraints := GetConstraints(varPos);
    var values := domains[varPos];
    for i := 0 to |values|
      invariant TryValues(variables, domains, varPos, i) == Search(variables, domains)
    {
      var value := values[i];
      var inconsistent := false;
      for k := 0 to |constraints|
        invariant Consistency(domains, rest, constraints, value, k, inconsistent)
               == Consistency(domains, rest, constraints, value, 0, false)
      {
        var constraintPos := constraints[k].1;
        if constraintPos !in rest {
          if domains[constraintPos] == [] {
            return Raised(EmptyDomainIndex);
          }
          if domains[constraintPos][0] == value {
            inconsistent := true;
          }
        }
      }
      if !inconsistent {
        var tmpDomain := ForwardChecking(domains, varPos, value);
        if tmpDomain.None? {
          return Failed;
        }
        var chosen := tmpDomain.value[varPos := [value]];
        var result := RecursiveBacktracking(rest, chosen);
        if result.Found? {
          AssignSettles(domains, variables, varPos, value, tmpDomain.value, result.domains);
          return result;
        }
        if result.Raised? {
          return result;
        }
      }
    }
    return Failed;
  }

  /** The loop of backtracking that collects the cells with more than one
      candidate, in the dictionary's iteration order. */
  method OpenPositions(domains: Domains, order: seq<Pos>) returns (positions: seq<Pos>)
    requires Complete(domains) && Distinct(order)
    ensures SubSeq(positions, order) && Distinct(positions)
    ensures forall p :: p in positions <==> p in order && |domains[p]| > 1
  {
    positions := [];
    for i := 0 to |order|
      invariant SubSeq(positions, order[..i])
      invariant forall p :: p in positions <==> p in order[..i] && |domains[p]| > 1
    {
      assert order[..i + 1] == order[..i] + [order[i]];
      if |domains[order[i]]| > 1 {
        SubSeqAppend(positions, order[..i], order[i]);
        positions := positions + [order[i]];
      } else {
        SubSeqExtend(positions, order[..i], order[i]);
      }
    }
    assert order[..|order|] == order;
    SubSeqDistinct(positions, order);
  }

  /** The board read off a successful search over the open cells of
      AC-3-reduced domains keeps every given digit, uses digits 1..9, and
      puts different digits on peers unless both were given. */
  lemma SearchSolves(g: Puzzle, d: Domains, positions: seq<Pos>, r: Domains, sol: Puzzle)
    requires IsGrid(g) && Propagated(g, d)
    requires forall p :: p in positions <==> |d[p]| > 1
    requires Settles(d, positions, r)
    requires sol.Keys == r.Keys && forall p :: p in r ==> r[p] == [sol[p]]
    ensures Complete(sol) && forall p: Pos :: 1 <= sol[p] <= 9
    ensures forall p: Pos :: g[p] != 0 ==> sol[p] == g[p]
    ensures forall p, q :: IsPeer(p, q) && (g[p] == 0 || g[q] == 0) ==> sol[p] != sol[q]
    ensures GivensConsistent(g) ==> Admits(g, sol)
  {
    var init := InitialDomains(g);
    forall p: Pos ensures sol[p] in init[p] {
      SubSeqMember(r[p], d[p], sol[p]);
      SubSeqMember(d[p], init[p], sol[p]);
    }
    forall p, q | IsPeer(p, q) && (g[p] == 0 || g[q] == 0) ensures sol[p] != sol[q] {
      SearchSeparates(g, d, positions, r, sol, p, q);
    }
  }

  /** Two peers, not both given, end with different values: a searched cell
      was pruned from its peers' lists, and two cells AC-3 already settled
      to singletons were consistent with each other. */
  lemma SearchSeparates(g: Puzzle, d: Domains, positions: seq<Pos>, r: Domains, sol: Puzzle, p: Pos, q: Pos)
    requires IsGrid(g) && Propagated(g, d)
    requires forall p :: p in positions <==> |d[p]| > 1
    requires Settles(d, positions, r)
    requires sol.Keys == r.Keys && forall p :: p in r ==> r[p] == [sol[p]]
    requires IsPeer(p, q) && (g[p] == 0 || g[q] == 0)
    ensures sol[p] != sol[q]
  {
    if p in positions {
      assert r[p][0] !in r[q];
    } else if q in positions {
      assert IsPeer(q, p);
      assert r[q][0] !in r[p];
    } else {
      SubSeqOfSingletonSource(d[p], r[p]);
      SubSeqOfSingletonSource(d[q], r[q]);
      assert ArcSettled(d, p, q);
      assert sol[p] in d[p];
    }
  }

  /** A non-empty sub-sequence of a list of at most one element is that list. */
  lemma SubSeqOfSingletonSource(b: seq<int>, a: seq<int>)
    requires |b| <= 1 && a != [] && SubSeq(a, b)
    ensures a == b
  {
    SubSeqLength(a, b);
    assert b == [b[0]];
    SubSeqOfSingleton(a, b[0]);
  }

  /** A puzzle with every digit given and no clash leaves AC-3 nothing open:
      the search over no cells finds the reduced domains, all singletons. */
  lemma FilledBoardFound(g: Puzzle, d: Domains, positions: seq<Pos>)
    requires IsGrid(g) && (forall p: Pos :: g[p] != 0) && GivensConsistent(g)
    requires Propagated(g, d)
    requires forall p :: p in positions <==> |d[p]| > 1
    ensures positions == [] && AllSingletons(d) && Search(positions, d) == Found(d)
  {
    assert Admits(g, g);
    var init := InitialDomains(g);
    forall p | p in d ensures |d[p]| == 1 {
      assert g[p] in d[p];
      assert init[p] == [g[p]];
      SubSeqLength(d[p], init[p]);
    }
    NoMemberEmpty(positions);
  }

  datatype Answer = Board(solution: Puzzle) | Unfinished | Crashed(error: Crash)

  /** backtracking(): AC-3 on the manager's current puzzle with the domains
      returned (reduced), the open cells collected in the dictionary's
      iteration order (order lists every cell once), the search, then the
      singleton check. The outcome is decided by the search: a raise
      propagates; False makes the singleton loop iterate over False, which
      raises; found domains give a board, saved over the current puzzle,
      exactly when every list is a singleton, and False otherwise. */
  method Backtracking(pm: PuzzleManager, order: seq<Pos>) returns (r: Answer, ghost reduced: Domains, ghost positions: seq<Pos>)
    requires pm.Valid()
    requires Distinct(order) && forall p: Pos :: p in order
    modifies pm
    ensures pm.Valid() && pm.current == old(pm.current)
    ensures pm.puzzles == if r.Board? then old(pm.puzzles)[old(pm.current) := r.solution] else old(pm.puzzles)
    ensures Propagated(old(pm.Current()), reduced)
    ensures SubSeq(positions, order) && Distinct(positions)
    ensures forall p :: p in positions <==> |reduced[p]| > 1
    ensures Search(positions, reduced).Raised? ==> r == Crashed(Search(positions, reduced).error)
    ensures Search(positions, reduced).Failed? ==> r == Crashed(SearchFailed)
    ensures r.Crashed? <==> !Search(positions, reduced).Found?
    ensures r.Board? <==> Search(positions, reduced).Found? && AllSingletons(Search(positions, reduced).domains)
    ensures r.Board? ==> r.solution.Keys == Search(positions, reduced).domains.Keys
    ensures r.Board? ==> forall p :: p in r.solution ==> Search(positions, reduced).domains[p] == [r.solution[p]]
    ensures r.Board? ==> Complete(r.solution) && forall p: Pos :: 1 <= r.solution[p] <= 9
    ensures r.Board? ==> forall p: Pos :: old(pm.Current())[p] != 0 ==> r.solution[p] == old(pm.Current())[p]
    ensures r.Board? ==> forall p, q ::
              IsPeer(p, q) && (old(pm.Current())[p] == 0 || old(pm.Current())[q] == 0) ==> r.solution[p] != r.solution[q]
    ensures r.Board? && GivensConsistent(old(pm.Current())) ==> Admits(old(pm.Current()), r.solution)
  {
    ghost var g := pm.Current();
    var reducedResult;
    reducedResult, reduced := Ac3(pm, true);
    var domains := reducedResult.domains;
    var open := OpenPositions(domains, order);
    positions := open;
    var outcome := RecursiveBacktracking(open, domains);
    match outcome {
      case Raised(e) =>
        return Crashed(e), reduced, positions;
      case Failed =>
        return Crashed(SearchFailed), reduced, positions;
      case Found(result) =>
        var solution := ExtractSolution(result);
        if solution.None? {
          return Unfinished, reduced, positions;
        }
        SearchSolves(g, domains, positions, result, solution.value);
        pm.SavePuzzle(solution.value);
        return Board(solution.value), reduced, positions;
    }
  }
}
