/**
 * Descending multi-key ordering, as a document store applies it for a sort
 * specification such as `{ likesCount: -1, comments: -1, createdAt: -1 }`,
 * together with the sort and the skip/limit window that follow it.
 */
module Ranking {

  import opened Wrappers

  /** The sort keys of one record, most significant first. */
  datatype Rank = Rank(primary: int, secondary: int, tertiary: int)

  /** `a` may come before `b` in a sort that is descending on every key. */
  predicate AtLeast(a: Rank, b: Rank)
  {
    || a.primary > b.primary
    || (a.primary == b.primary && a.secondary > b.secondary)
    || (a.primary == b.primary && a.secondary == b.secondary && a.tertiary >= b.tertiary)
  }

  /** Every earlier element ranks at least as high as every later one. */
  ghost predicate SortedDesc<T>(s: seq<T>, rank: T -> Rank)
  {
    forall i, j :: 0 <= i < j < |s| ==> AtLeast(rank(s[i]), rank(s[j]))
  }

  /** No element occurs twice. */
  ghost predicate Distinct<T>(s: seq<T>)
  {
    forall i, j :: 0 <= i < j < |s| ==> s[i] != s[j]
  }

  /** Inserts `x` into a descending sequence, before the first element it ranks at least as high as. */
  function Insert<T>(x: T, s: seq<T>, rank: T -> Rank): (r: seq<T>)
    requires SortedDesc(s, rank)
    ensures SortedDesc(r, rank)
    ensures multiset(r) == multiset(s) + multiset{x}
    ensures |r| == |s| + 1
  {
    if s == [] then [x]
    else if AtLeast(rank(x), rank(s[0])) then [x] + s
    else
      var rest := Insert(x, s[1..], rank);
      assert s == [s[0]] + s[1..];
      assert forall i :: 0 <= i < |rest| ==> AtLeast(rank(s[0]), rank(rest[i])) by {
        forall i | 0 <= i < |rest|
          ensures AtLeast(rank(s[0]), rank(rest[i]))
        {
          assert rest[i] in multiset(rest);
          if rest[i] != x {
            assert rest[i] in multiset(s[1..]);
            var j :| 0 <= j < |s[1..]| && s[1..][j] == rest[i];
            assert s[j + 1] == rest[i];
          }
        }
      }
      [s[0]] + rest
  }

  /** Insertion sort into descending order; the result is a permutation of the input. */
  function SortDesc<T>(s: seq<T>, rank: T -> Rank): (r: seq<T>)
    ensures SortedDesc(r, rank)
    ensures multiset(r) == multiset(s)
    ensures |r| == |s|
  {
    if s == [] then []
    else
      assert s == [s[0]] + s[1..];
      Insert(s[0], SortDesc(s[1..], rank), rank)
  }

  /** A permutation holds the same elements. */
  lemma PermutationMembers<T>(a: seq<T>, b: seq<T>)
    requires multiset(a) == multiset(b)
    ensures forall i :: 0 <= i < |b| ==> b[i] in a
  {
    forall i | 0 <= i < |b| ensures b[i] in a {
      assert b[i] in multiset(b);
    }
  }

  /** A value that occurs at two positions occurs at least twice in the multiset. */
  lemma {:induction false} RepeatedCountsTwice<T>(s: seq<T>, i: nat, j: nat)
    requires i < j < |s| && s[i] == s[j]
    ensures multiset(s)[s[i]] >= 2
  {
    assert s == s[..i] + [s[i]] + s[i + 1..j] + [s[j]] + s[j + 1..];
  }

  /** A sequence without repetition holds every value at most once. */
  lemma {:induction false} DistinctCountsOnce<T>(s: seq<T>, x: T)
    requires Distinct(s)
    ensures multiset(s)[x] <= 1
  {
    if s != [] {
      assert s == [s[0]] + s[1..];
      assert Distinct(s[1..]) by {
        forall i, j | 0 <= i < j < |s[1..]| ensures s[1..][i] != s[1..][j] {
          assert s[1..][i] == s[i + 1] && s[1..][j] == s[j + 1];
        }
      }
      DistinctCountsOnce(s[1..], x);
      if s[0] == x {
        assert x !in s[1..] by {
          forall j | 0 <= j < |s[1..]| ensures s[1..][j] != x {
            assert s[1..][j] == s[j + 1];
          }
        }
      }
    }
  }

  /** A permutation of a sequence without repetition has no repetition either. */
  lemma PermutationKeepsDistinct<T>(a: seq<T>, b: seq<T>)
    requires multiset(a) == multiset(b) && Distinct(a)
    ensures Distinct(b)
  {
    forall i, j | 0 <= i < j < |b| ensures b[i] != b[j] {
      if b[i] == b[j] {
        RepeatedCountsTwice(b, i, j);
        DistinctCountsOnce(a, b[i]);
        assert false;
      }
    }
  }

  /**
   * The skip/limit window of a cursor: drop `skip` elements, then keep at most
   * `count` of the rest, or all of the rest when there is no limit.
   */
  function Window<T>(s: seq<T>, skip: nat, count: Option<nat>): (r: seq<T>)
    ensures count.Some? ==> |r| <= count.value
    ensures skip >= |s| ==> r == []
    ensures count.None? && skip <= |s| ==> |r| == |s| - skip
    ensures count.Some? && skip <= |s| ==> |r| == if count.value < |s| - skip then count.value else |s| - skip
    ensures forall i :: 0 <= i < |r| ==> skip + i < |s| && r[i] == s[skip + i]
  {
    if skip >= |s| then []
    else match count
      case None => s[skip..]
      case Some(n) => if n < |s| - skip then s[skip..skip + n] else s[skip..]
  }

  /** A window of a permutation of `s` holds only elements of `s`. */
  lemma WindowOfPermutation<T>(s: seq<T>, order: seq<T>, skip: nat, count: Option<nat>)
    requires multiset(order) == multiset(s)
    ensures var r := Window(order, skip, count);
      forall i :: 0 <= i < |r| ==> r[i] in s
  {
    var r := Window(order, skip, count);
    forall i | 0 <= i < |r| ensures r[i] in s {
      assert r[i] == order[skip + i];
      assert r[i] in multiset(order);
    }
  }

  /** A window of a descending sequence is descending. */
  lemma WindowOfSorted<T>(s: seq<T>, skip: nat, count: Option<nat>, rank: T -> Rank)
    requires SortedDesc(s, rank)
    ensures SortedDesc(Window(s, skip, count), rank)
  {
    var r := Window(s, skip, count);
    forall i, j | 0 <= i < j < |r| ensures AtLeast(rank(r[i]), rank(r[j])) {
      assert r[i] == s[skip + i] && r[j] == s[skip + j];
    }
  }

  /**
   * The first `n` elements of a descending sequence are its top `n`: an
   * element left out ranks no higher than the last one kept.
   */
  lemma WindowIsTop<T>(s: seq<T>, rank: T -> Rank, n: nat, x: T)
    requires SortedDesc(s, rank) && n > 0
    requires x in s && x !in Window(s, 0, Some(n))
    ensures var r := Window(s, 0, Some(n));
      |r| > 0 && AtLeast(rank(r[|r| - 1]), rank(x))
  {
    var r := Window(s, 0, Some(n));
    var j :| 0 <= j < |s| && s[j] == x;
    forall k | 0 <= k < |r| ensures s[k] != x {
      assert r[k] == s[k];
    }
    assert r[|r| - 1] == s[|r| - 1];
  }

  /** The first `n` elements of `s` in descending order: a sorted query with a limit. */
  function Top<T>(s: seq<T>, rank: T -> Rank, n: nat): (r: seq<T>)
    ensures |r| == if |s| <= n then |s| else n
    ensures SortedDesc(r, rank)
    ensures forall i :: 0 <= i < |r| ==> r[i] in s
  {
    var ranked := SortDesc(s, rank);
    WindowOfPermutation(s, ranked, 0, Some(n));
    WindowOfSorted(ranked, 0, Some(n), rank);
    Window(ranked, 0, Some(n))
  }

  /** The top `n` of a sequence without repetition has no repetition. */
  lemma TopDistinct<T>(s: seq<T>, rank: T -> Rank, n: nat)
    requires Distinct(s)
    ensures Distinct(Top(s, rank, n))
  {
    var ranked := SortDesc(s, rank);
    var r := Top(s, rank, n);
    PermutationKeepsDistinct(s, ranked);
    forall i, j | 0 <= i < j < |r| ensures r[i] != r[j] {
      assert r[i] == ranked[i] && r[j] == ranked[j];
    }
  }

  /** When `s` has at most `n` elements, its top `n` keeps every one. */
  lemma TopKeepsAll<T>(s: seq<T>, rank: T -> Rank, n: nat)
    requires |s| <= n
    ensures forall i :: 0 <= i < |s| ==> s[i] in Top(s, rank, n)
  {
    var ranked := SortDesc(s, rank);
    assert Top(s, rank, n) == ranked;
    PermutationMembers(ranked, s);
  }

  /** An element of `s` left out of its top `n` ranks no higher than the last element kept. */
  lemma TopIsTop<T>(s: seq<T>, rank: T -> Rank, n: nat, x: T)
    requires n > 0 && x in s && x !in Top(s, rank, n)
    ensures var r := Top(s, rank, n);
      |r| > 0 && AtLeast(rank(r[|r| - 1]), rank(x))
  {
    var ranked := SortDesc(s, rank);
    assert x in multiset(ranked);
    WindowIsTop(ranked, rank, n, x);
  }

  /** Dropping the first element keeps a sequence descending. */
  lemma SortedTail<T>(s: seq<T>, rank: T -> Rank)
    requires SortedDesc(s, rank) && s != []
    ensures SortedDesc(s[1..], rank)
  {
    forall i, j | 0 <= i < j < |s[1..]| ensures AtLeast(rank(s[1..][i]), rank(s[1..][j])) {
      assert s[1..][i] == s[i + 1] && s[1..][j] == s[j + 1];
    }
  }

  /** A sequence with the same multiset as the empty one is empty. */
  lemma EmptyMultiset<T>(a: seq<T>, b: seq<T>)
    requires a == [] && multiset(a) == multiset(b)
    ensures b == []
  {
    assert |b| == |multiset(b)|;
  }

  /** Two non-empty sequences that agree on the head and on the tail are equal. */
  lemma SameHeadSameTail<T>(a: seq<T>, b: seq<T>)
    requires a != [] && b != [] && a[0] == b[0] && a[1..] == b[1..]
    ensures a == b
  {
    assert a == [a[0]] + a[1..] && b == [b[0]] + b[1..];
  }

  /** The elements after the first are all elements but one copy of the first. */
  lemma TailMultiset<T>(s: seq<T>)
    requires s != []
    ensures multiset(s[1..]) == multiset(s) - multiset{s[0]}
  {
    assert s == [s[0]] + s[1..];
  }

  /** No two different elements of `s` rank alike. */
  ghost predicate NoTies<T>(s: seq<T>, rank: T -> Rank)
  {
    forall i, j :: 0 <= i < |s| && 0 <= j < |s| && s[i] != s[j] ==> rank(s[i]) != rank(s[j])
  }

  /** Dropping the first element keeps a sequence free of ties. */
  lemma NoTiesTail<T>(s: seq<T>, rank: T -> Rank)
    requires NoTies(s, rank) && s != []
    ensures NoTies(s[1..], rank)
  {
    forall i, j | 0 <= i < |s[1..]| && 0 <= j < |s[1..]| && s[1..][i] != s[1..][j]
      ensures rank(s[1..][i]) != rank(s[1..][j])
    {
      assert s[1..][i] == s[i + 1] && s[1..][j] == s[j + 1];
    }
  }

  /** Two descending orders of the same elements without ties start with the same element. */
  lemma HeadsAgree<T>(a: seq<T>, b: seq<T>, rank: T -> Rank)
    requires multiset(a) == multiset(b) && SortedDesc(a, rank) && SortedDesc(b, rank) && a != []
    requires NoTies(a, rank)
    ensures b != [] && a[0] == b[0]
  {
    assert a[0] in multiset(b);
    var k :| 0 <= k < |b| && b[k] == a[0];
    assert b[0] in multiset(a);
    var m :| 0 <= m < |a| && a[m] == b[0];
    if a[0] != b[0] {
      assert false;
    }
  }

  /**
   * Two descending orders of the same elements are one and the same when no
   * two different elements tie: the sort leaves nothing open.
   */
  lemma {:induction false} SortedPermutationUnique<T>(a: seq<T>, b: seq<T>, rank: T -> Rank)
    requires multiset(a) == multiset(b) && SortedDesc(a, rank) && SortedDesc(b, rank) && NoTies(a, rank)
    ensures a == b
    decreases |a|
  {
    if a == [] {
      EmptyMultiset(a, b);
    } else {
      HeadsAgree(a, b, rank);
      assert multiset(a[1..]) == multiset(b[1..]) by {
        TailMultiset(a);
        TailMultiset(b);
      }
      assert SortedDesc(a[1..], rank) && SortedDesc(b[1..], rank) by {
        SortedTail(a, rank);
        SortedTail(b, rank);
      }
      assert NoTies(a[1..], rank) by {
        NoTiesTail(a, rank);
      }
      SortedPermutationUnique(a[1..], b[1..], rank);
      SameHeadSameTail(a, b);
    }
  }

  /** In a descending sequence, an element that strictly outranks another comes before it. */
  lemma StrictlyHigherFirst<T>(s: seq<T>, rank: T -> Rank, i: nat, j: nat)
    requires SortedDesc(s, rank) && i < |s| && j < |s|
    requires !AtLeast(rank(s[j]), rank(s[i]))
    ensures i < j
  {
  }

  /** Windows of `n` elements that start at least `n` apart in a sequence without repetition share no element. */
  lemma WindowsDisjoint<T>(s: seq<T>, skip1: nat, skip2: nat, n: nat)
    requires Distinct(s) && skip1 + n <= skip2
    ensures var a, b := Window(s, skip1, Some(n)), Window(s, skip2, Some(n));
      forall i, j :: 0 <= i < |a| && 0 <= j < |b| ==> a[i] != b[j]
  {
    var a, b := Window(s, skip1, Some(n)), Window(s, skip2, Some(n));
    forall i, j | 0 <= i < |a| && 0 <= j < |b| ensures a[i] != b[j] {
      assert a[i] == s[skip1 + i] && b[j] == s[skip2 + j];
    }
  }
}
