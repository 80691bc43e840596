/** Sequence facts shared by the grid model and both solvers: the removal the
    solvers perform on candidate lists, duplicate-freedom, and the
    "obtained by deleting elements" order on lists. */
module Seqs {

  datatype Option<+T> = None | Some(value: T)

  /** `s.pop(s.index(x))` on a Python list: the first occurrence of x is
      dropped; the solvers only call it when x is present, and an absent x
      leaves the list as it is. */
  function RemoveFirst<T(==)>(s: seq<T>, x: T): (r: seq<T>)
    ensures x in s ==> |r| == |s| - 1
    ensures x !in s ==> r == s
    ensures multiset(r) == multiset(s) - multiset{x}
  {
    if s == [] then []
    else
      assert s == [s[0]] + s[1..];
      if s[0] == x then s[1..]
      else [s[0]] + RemoveFirst(s[1..], x)
  }

  /** No value occurs twice. */
  predicate Distinct<T(==)>(s: seq<T>) {
    forall i, j :: 0 <= i < j < |s| ==> s[i] != s[j]
  }

  /** a is obtained from b by deleting some elements, keeping the order of
      the rest. The greedy match below is the usual characterisation. */
  predicate SubSeq<T(==)>(a: seq<T>, b: seq<T>)
    decreases |b|
  {
    if a == [] then true
    else if b == [] then false
    else if a[0] == b[0] then SubSeq(a[1..], b[1..])
    else SubSeq(a, b[1..])
  }

  /** When the first occurrence of x is at index i, removing it splices the
      list around i. */
  lemma {:induction false} RemoveFirstAt<T>(s: seq<T>, x: T, i: nat)
    requires i < |s| && s[i] == x && x !in s[..i]
    ensures RemoveFirst(s, x) == s[..i] + s[i + 1..]
  {
    if i > 0 {
      assert s[0] in s[..i];
      assert s[1..][..i - 1] == s[..i][1..];
      RemoveFirstAt(s[1..], x, i - 1);
      assert s[..i] == [s[0]] + s[1..][..i - 1];
      assert s[i + 1..] == s[1..][i..];
    }
  }

  lemma {:induction false} DistinctTail<T>(s: seq<T>)
    requires s != [] && Distinct(s)
    ensures Distinct(s[1..]) && s[0] !in s[1..]
  {
  }

  lemma {:induction false} DistinctCons<T>(x: T, s: seq<T>)
    requires Distinct(s) && x !in s
    ensures Distinct([x] + s)
  {
    var t := [x] + s;
    forall i, j | 0 <= i < j < |t| ensures t[i] != t[j] {
      if i == 0 {
        assert t[j] == s[j - 1];
      } else {
        assert t[i] == s[i - 1] && t[j] == s[j - 1];
      }
    }
  }

  /** In a duplicate-free list, RemoveFirst removes x entirely. */
  lemma {:induction false} RemoveFirstDistinct<T>(s: seq<T>, x: T)
    requires Distinct(s)
    ensures x !in RemoveFirst(s, x)
    ensures Distinct(RemoveFirst(s, x))
  {
    if s != [] {
      DistinctTail(s);
      if s[0] != x {
        RemoveFirstDistinct(s[1..], x);
        SubSeqRemoveFirst(s[1..], x);
        if s[0] in RemoveFirst(s[1..], x) {
          SubSeqMember(RemoveFirst(s[1..], x), s[1..], s[0]);
        }
        DistinctCons(s[0], RemoveFirst(s[1..], x));
      }
    }
  }

  lemma {:induction false} SubSeqRefl<T>(s: seq<T>)
    ensures SubSeq(s, s)
  {
    if s != [] {
      SubSeqRefl(s[1..]);
    }
  }

  /** Skipping the head of b keeps a sub-sequence a sub-sequence. */
  lemma {:induction false} SubSeqSkip<T>(a: seq<T>, b: seq<T>)
    requires b != [] && SubSeq(a, b[1..])
    ensures SubSeq(a, b)
    decreases |b|, 0
  {
    if a != [] && a[0] == b[0] {
      SubSeqDropHead(a, b[1..]);
    }
  }

  /** Dropping the head of a keeps it a sub-sequence. */
  lemma {:induction false} SubSeqDropHead<T>(a: seq<T>, b: seq<T>)
    requires a != [] && SubSeq(a, b)
    ensures SubSeq(a[1..], b)
    decreases |b|, 1
  {
    if a[0] == b[0] {
      SubSeqSkip(a[1..], b);
    } else {
      SubSeqDropHead(a, b[1..]);
      SubSeqSkip(a[1..], b);
    }
  }

  lemma {:induction false} SubSeqTrans<T>(a: seq<T>, b: seq<T>, c: seq<T>)
    requires SubSeq(a, b) && SubSeq(b, c)
    ensures SubSeq(a, c)
    decreases |c|
  {
    if a != [] {
      assert b != [] && c != [];
      if b[0] == c[0] {
        if a[0] == b[0] {
          SubSeqTrans(a[1..], b[1..], c[1..]);
        } else {
          SubSeqTrans(a, b[1..], c[1..]);
        }
      } else {
        SubSeqTrans(a, b, c[1..]);
        SubSeqSkip(a, c);
      }
    }
  }

  lemma {:induction false} SubSeqMember<T>(a: seq<T>, b: seq<T>, x: T)
    requires SubSeq(a, b) && x in a
    ensures x in b
    decreases |b|
  {
    assert b != [];
    if a[0] == b[0] {
      if x != a[0] {
        assert x in a[1..];
        SubSeqMember(a[1..], b[1..], x);
      }
    } else {
      SubSeqMember(a, b[1..], x);
    }
  }

  lemma {:induction false} SubSeqLength<T>(a: seq<T>, b: seq<T>)
    requires SubSeq(a, b)
    ensures |a| <= |b|
    decreases |b|
  {
    if a != [] {
      if a[0] == b[0] {
        SubSeqLength(a[1..], b[1..]);
      } else {
        SubSeqLength(a, b[1..]);
      }
    }
  }

  lemma {:induction false} SubSeqDistinct<T>(a: seq<T>, b: seq<T>)
    requires SubSeq(a, b) && Distinct(b)
    ensures Distinct(a)
    decreases |b|
  {
    if a != [] {
      DistinctTail(b);
      if a[0] == b[0] {
        SubSeqDistinct(a[1..], b[1..]);
        if a[0] in a[1..] {
          SubSeqMember(a[1..], b[1..], a[0]);
        }
        assert a == [a[0]] + a[1..];
        DistinctCons(a[0], a[1..]);
      } else {
        SubSeqDistinct(a, b[1..]);
      }
    }
  }

  lemma {:induction false} SubSeqRemoveFirst<T>(s: seq<T>, x: T)
    ensures SubSeq(RemoveFirst(s, x), s)
  {
    if s != [] {
      if s[0] == x {
        SubSeqRefl(s[1..]);
        SubSeqSkip(s[1..], s);
      } else {
        SubSeqRemoveFirst(s[1..], x);
      }
    }
  }

  lemma {:induction false} SubSeqSingleton<T>(s: seq<T>, x: T)
    requires x in s
    ensures SubSeq([x], s)
  {
    if s[0] != x {
      assert x in s[1..];
      SubSeqSingleton(s[1..], x);
    }
  }

  /** Appending the same element to both sides keeps a sub-sequence. */
  lemma {:induction false} SubSeqAppend<T>(a: seq<T>, b: seq<T>, x: T)
    requires SubSeq(a, b)
    ensures SubSeq(a + [x], b + [x])
    decreases |b|
  {
    if a == [] {
      assert a + [x] == [x];
      SubSeqSingleton(b + [x], x);
    } else {
      assert (a + [x])[1..] == a[1..] + [x];
      assert (b + [x])[1..] == b[1..] + [x];
      if a[0] == b[0] {
        SubSeqAppend(a[1..], b[1..], x);
      } else {
        SubSeqAppend(a, b[1..], x);
      }
    }
  }

  /** Appending to the longer side keeps a sub-sequence. */
  lemma {:induction false} SubSeqExtend<T>(a: seq<T>, b: seq<T>, x: T)
    requires SubSeq(a, b)
    ensures SubSeq(a, b + [x])
    decreases |b|
  {
    if a != [] {
      assert (b + [x])[1..] == b[1..] + [x];
      if a[0] == b[0] {
        SubSeqExtend(a[1..], b[1..], x);
      } else {
        SubSeqExtend(a, b[1..], x);
      }
    }
  }

  /** The only sub-sequences of a one-element list are itself and []. */
  lemma SubSeqOfSingleton<T>(a: seq<T>, x: T)
    requires SubSeq(a, [x])
    ensures a == [] || a == [x]
  {
    if a != [] {
      assert a[0] == x && SubSeq(a[1..], []);
    }
  }

  /** A sequence with no members is empty. */
  lemma NoMemberEmpty<T>(s: seq<T>)
    requires forall x :: x !in s
    ensures s == []
  {
    forall x ensures multiset(s)[x] == 0 {
      assert x !in s;
    }
    assert multiset(s) == multiset{};
    assert |s| == |multiset(s)|;
  }
}
