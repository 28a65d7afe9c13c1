/**
 * `slice::sort_by`: a stable sort by a comparator, given here as insertion
 * sort over a "sorts strictly before" relation, both as a function on
 * sequences and as an in-place method on an array.
 */
module Sorting {
  /** `less` is a strict weak order: asymmetric, and "not less" is transitive. */
  ghost predicate StrictWeakOrder<T(!new)>(less: (T, T) -> bool) {
    (forall a, b :: less(a, b) ==> !less(b, a)) &&
    (forall a, b, c :: !less(a, b) && !less(b, c) ==> !less(a, c))
  }

  /** No element sorts strictly before an earlier one. */
  predicate Sorted<T>(less: (T, T) -> bool, s: seq<T>) {
    forall i, j :: 0 <= i < j < |s| ==> !less(s[j], s[i])
  }

  /** Dropping the last element keeps a list in order, and its last two elements are in order. */
  lemma SortedInit<T>(less: (T, T) -> bool, s: seq<T>)
    requires Sorted(less, s) && |s| >= 2
    ensures Sorted(less, s[..|s| - 1])
    ensures !less(s[|s| - 1], s[|s| - 2])
  {
  }

  /**
   * Insertion of `x` into `s` from the right: `x` passes only the elements it
   * sorts strictly before, so it stays behind the ones it ties with.
   */
  function Insert<T>(less: (T, T) -> bool, s: seq<T>, x: T): (r: seq<T>)
    ensures |r| == |s| + 1
  {
    if s == [] || !less(x, s[|s| - 1]) then s + [x]
    else Insert(less, s[..|s| - 1], x) + [s[|s| - 1]]
  }

  /** Insertion adds exactly the inserted element. */
  lemma {:induction false} InsertPermutes<T>(less: (T, T) -> bool, s: seq<T>, x: T)
    ensures multiset(Insert(less, s, x)) == multiset(s) + multiset{x}
  {
    if s != [] && less(x, s[|s| - 1]) {
      var init := s[..|s| - 1];
      assert s == init + [s[|s| - 1]];
      InsertPermutes(less, init, x);
    }
  }

  /** Every element of an insertion is the inserted one or an element of the list. */
  lemma InsertMembers<T>(less: (T, T) -> bool, s: seq<T>, x: T, k: nat)
    requires k < |Insert(less, s, x)|
    ensures Insert(less, s, x)[k] == x || Insert(less, s, x)[k] in s
  {
    InsertPermutes(less, s, x);
    var r := Insert(less, s, x);
    assert r[k] in multiset(r);
  }

  /** Appending an element that sorts before nothing in the list keeps it in order. */
  lemma SortedAppend<T>(less: (T, T) -> bool, s: seq<T>, y: T)
    requires Sorted(less, s)
    requires forall k :: 0 <= k < |s| ==> !less(y, s[k])
    ensures Sorted(less, s + [y])
  {
  }

  /** Inserting into a list in order keeps it in order. */
  lemma {:induction false} InsertSorted<T(!new)>(less: (T, T) -> bool, s: seq<T>, x: T)
    requires StrictWeakOrder(less)
    requires Sorted(less, s)
    ensures Sorted(less, Insert(less, s, x))
  {
    if s == [] {
    } else if !less(x, s[|s| - 1]) {
      SortedAppend(less, s, x);
    } else {
      var init, last := s[..|s| - 1], s[|s| - 1];
      assert Sorted(less, init);
      InsertSorted(less, init, x);
      var r := Insert(less, init, x);
      forall k | 0 <= k < |r|
        ensures !less(last, r[k])
      {
        InsertMembers(less, init, x, k);
        if r[k] != x {
          var i :| 0 <= i < |init| && init[i] == r[k];
        }
      }
      SortedAppend(less, r, last);
    }
  }

  /** `v.sort_by(cmp)` as a value: each element inserted in turn. */
  function SortBy<T>(less: (T, T) -> bool, s: seq<T>): (r: seq<T>)
    ensures |r| == |s|
  {
    if s == [] then [] else Insert(less, SortBy(less, s[..|s| - 1]), s[|s| - 1])
  }

  /** The sorted list is a permutation of the input, in order. */
  lemma {:induction false} SortBySpec<T(!new)>(less: (T, T) -> bool, s: seq<T>)
    requires StrictWeakOrder(less)
    ensures multiset(SortBy(less, s)) == multiset(s)
    ensures |SortBy(less, s)| == |s|
    ensures Sorted(less, SortBy(less, s))
  {
    if s != [] {
      var init := s[..|s| - 1];
      assert s == init + [s[|s| - 1]];
      SortBySpec(less, init);
      InsertPermutes(less, SortBy(less, init), s[|s| - 1]);
      InsertSorted(less, SortBy(less, init), s[|s| - 1]);
      assert |multiset(SortBy(less, s))| == |multiset(s)|;
    }
  }

  /** `a` and `b` tie: neither sorts strictly before the other. */
  predicate Tie<T>(less: (T, T) -> bool, a: T, b: T) {
    !less(a, b) && !less(b, a)
  }

  /** The elements of `s` that tie with `x`, in their order in `s`. */
  function Ties<T>(less: (T, T) -> bool, s: seq<T>, x: T): (r: seq<T>)
    ensures |r| <= |s|
  {
    if s == [] then []
    else Ties(less, s[..|s| - 1], x) + (if Tie(less, s[|s| - 1], x) then [s[|s| - 1]] else [])
  }

  /** Every element of `Ties(less, s, x)` comes from `s`. */
  lemma {:induction false} TiesFromList<T>(less: (T, T) -> bool, s: seq<T>, x: T)
    ensures forall y :: y in Ties(less, s, x) ==> y in s
  {
    if s != [] {
      var init := s[..|s| - 1];
      TiesFromList(less, init, x);
      assert forall y :: y in init ==> y in s;
    }
  }

  /** Inserting `y` puts it behind every element it ties with. */
  lemma {:induction false} InsertTies<T(!new)>(less: (T, T) -> bool, r: seq<T>, y: T, x: T)
    requires StrictWeakOrder(less)
    ensures Ties(less, Insert(less, r, y), x)
         == Ties(less, r, x) + (if Tie(less, y, x) then [y] else [])
  {
    if r == [] || !less(y, r[|r| - 1]) {
      assert (r + [y])[..|r|] == r;
    } else {
      var init, last := r[..|r| - 1], r[|r| - 1];
      var ins := Insert(less, init, y);
      InsertTies(less, init, y, x);
      assert (ins + [last])[..|ins|] == ins;
      // `y` sorts strictly before `last`, so the two cannot both tie with `x`.
      assert !(Tie(less, y, x) && Tie(less, last, x));
    }
  }

  /**
   * Stability: sorting keeps the elements that tie with any `x` in the order
   * they had in the input.
   */
  lemma {:induction false} SortByStable<T(!new)>(less: (T, T) -> bool, s: seq<T>, x: T)
    requires StrictWeakOrder(less)
    ensures Ties(less, SortBy(less, s), x) == Ties(less, s, x)
  {
    if s != [] {
      var init := s[..|s| - 1];
      SortByStable(less, init, x);
      InsertTies(less, SortBy(less, init), s[|s| - 1], x);
    }
  }

  /** The last element of a list ties with itself, so its class is not empty. */
  lemma TiesOfLast<T(!new)>(less: (T, T) -> bool, s: seq<T>)
    requires StrictWeakOrder(less)
    requires s != []
    ensures Ties(less, s, s[|s| - 1]) != []
  {
    assert Tie(less, s[|s| - 1], s[|s| - 1]);
  }

  /** Two lists in order that agree on every class of tied elements are equal. */
  lemma {:induction false} SortedTiesUnique<T(!new)>(less: (T, T) -> bool, a: seq<T>, b: seq<T>)
    requires StrictWeakOrder(less)
    requires Sorted(less, a) && Sorted(less, b)
    requires forall x :: Ties(less, a, x) == Ties(less, b, x)
    ensures a == b
    decreases |a|
  {
    // The last element of a non-empty list ties with itself, so the other
    // list cannot be empty.
    if a != [] {
      TiesOfLast(less, a);
    }
    if b != [] {
      TiesOfLast(less, b);
    }
    if a != [] && b != [] {
      var ia, ib := a[..|a| - 1], b[..|b| - 1];
      SortedTiesSameLast(less, a, b);
      TiesOfInits(less, a, b, ia, ib);
      assert Sorted(less, ia) && Sorted(less, ib);
      SortedTiesUnique(less, ia, ib);
    }
  }

  /** Lists that end alike and agree on every tie class agree on them without their last elements. */
  lemma {:induction false} TiesOfInits<T>(less: (T, T) -> bool, a: seq<T>, b: seq<T>, ia: seq<T>, ib: seq<T>)
    requires a != [] && b != [] && a[|a| - 1] == b[|b| - 1]
    requires ia == a[..|a| - 1] && ib == b[..|b| - 1]
    requires forall x :: Ties(less, a, x) == Ties(less, b, x)
    ensures forall x :: Ties(less, ia, x) == Ties(less, ib, x)
  {
    var p := a[|a| - 1];
    forall x
      ensures Ties(less, ia, x) == Ties(less, ib, x)
    {
      var t := if Tie(less, p, x) then [p] else [];
      var ta, tb := Ties(less, ia, x), Ties(less, ib, x);
      assert ta + t == tb + t by {
        assert Ties(less, a, x) == ta + t;
        assert Ties(less, b, x) == tb + t;
      }
      assert (ta + t)[..|ta|] == ta && (tb + t)[..|tb|] == tb;
    }
  }

  /** Two non-empty lists in order that agree on every class of tied elements end alike. */
  lemma {:induction false} SortedTiesSameLast<T(!new)>(less: (T, T) -> bool, a: seq<T>, b: seq<T>)
    requires StrictWeakOrder(less)
    requires Sorted(less, a) && Sorted(less, b) && a != [] && b != []
    requires forall x :: Ties(less, a, x) == Ties(less, b, x)
    ensures a[|a| - 1] == b[|b| - 1]
  {
    var p, q := a[|a| - 1], b[|b| - 1];
    assert Tie(less, p, p) && Tie(less, q, q);
    // `q` is in `a`, so it does not sort after `a`'s last element, and vice versa.
    assert q in Ties(less, a, q) by {
      assert Ties(less, b, q)[|Ties(less, b, q)| - 1] == q;
    }
    assert p in Ties(less, b, p) by {
      assert Ties(less, a, p)[|Ties(less, a, p)| - 1] == p;
    }
    TiesFromList(less, a, q);
    TiesFromList(less, b, p);
    assert !less(p, q) by {
      var i :| 0 <= i < |a| && a[i] == q;
    }
    assert !less(q, p) by {
      var j :| 0 <= j < |b| && b[j] == p;
    }
    var t := Ties(less, a, p);
    assert t == Ties(less, b, p);
    assert t[|t| - 1] == p by {
      assert t == Ties(less, a[..|a| - 1], p) + [p];
    }
    assert t[|t| - 1] == q by {
      assert Tie(less, q, p);
      assert t == Ties(less, b[..|b| - 1], p) + [q];
    }
  }

  /**
   * Any stable sort of `s` gives `SortBy(less, s)`: a list in order whose
   * tied elements keep their input order is exactly the insertion sort.
   */
  lemma {:induction false} StableSortUnique<T(!new)>(less: (T, T) -> bool, s: seq<T>, r: seq<T>)
    requires StrictWeakOrder(less)
    requires Sorted(less, r)
    requires forall x :: Ties(less, r, x) == Ties(less, s, x)
    ensures r == SortBy(less, s)
  {
    SortBySpec(less, s);
    forall x
      ensures Ties(less, r, x) == Ties(less, SortBy(less, s), x)
    {
      SortByStable(less, s, x);
    }
    SortedTiesUnique(less, r, SortBy(less, s));
  }

  /** Sorting a list that is already in order leaves it as it is. */
  lemma {:induction false} SortBySorted<T>(less: (T, T) -> bool, s: seq<T>)
    requires Sorted(less, s)
    ensures SortBy(less, s) == s
  {
    if s != [] {
      var init := s[..|s| - 1];
      assert Sorted(less, init);
      SortBySorted(less, init);
      assert init + [s[|s| - 1]] == s;
    }
  }

  /** Sorting is idempotent. */
  lemma SortByIdempotent<T(!new)>(less: (T, T) -> bool, s: seq<T>)
    requires StrictWeakOrder(less)
    ensures SortBy(less, SortBy(less, s)) == SortBy(less, s)
  {
    SortBySpec(less, s);
    SortBySorted(less, SortBy(less, s));
  }

  /** `v.sort_by(cmp)` on the vector itself: insertion sort in place. */
  method SortInPlace<T>(a: array<T>, less: (T, T) -> bool)
    modifies a
    ensures a[..] == SortBy(less, old(a[..]))
  {
    ghost var input := a[..];
    var i := 0;
    while i < a.Length
      invariant 0 <= i <= a.Length
      invariant a[..i] == SortBy(less, input[..i])
      invariant a[i..] == input[i..]
    {
      ghost var before := a[..];
      InsertInPlace(a, i, less);
      assert a[..i + 1] == SortBy(less, input[..i + 1]) by {
        assert before[..i] == SortBy(less, input[..i]);
        assert before[i] == input[i];
        assert input[..i + 1][..i] == input[..i];
      }
      assert a[i + 1..] == input[i + 1..] by {
        assert before[i + 1..] == input[i + 1..];
      }
      i := i + 1;
    }
    assert input[..a.Length] == input;
  }

  /** Moving the insertion point one place left, past an element `x` sorts before. */
  lemma InsertShift<T>(less: (T, T) -> bool, prefix: seq<T>, x: T, j: nat)
    requires 0 < j <= |prefix| && less(x, prefix[j - 1])
    ensures Insert(less, prefix[..j], x) + prefix[j..] == Insert(less, prefix[..j - 1], x) + prefix[j - 1..]
  {
    var p := prefix[..j];
    assert p[..|p| - 1] == prefix[..j - 1];
    assert Insert(less, p, x) == Insert(less, prefix[..j - 1], x) + [prefix[j - 1]];
    assert prefix[j - 1..] == [prefix[j - 1]] + prefix[j..];
  }

  /** Swapping `x` with its left neighbour moves it one place left. */
  lemma SwapLeft<T>(prefix: seq<T>, x: T, rest: seq<T>, j: nat)
    requires 0 < j <= |prefix|
    ensures (prefix[..j] + [x] + prefix[j..] + rest)[j - 1 := x][j := prefix[j - 1]]
         == prefix[..j - 1] + [x] + prefix[j - 1..] + rest
  {
    assert prefix[..j] == prefix[..j - 1] + [prefix[j - 1]];
    assert prefix[j - 1..] == [prefix[j - 1]] + prefix[j..];
  }

  /** One insertion step: swaps `a[i]` left past the elements of `a[..i]` it sorts before. */
  method InsertInPlace<T>(a: array<T>, i: nat, less: (T, T) -> bool)
    requires i < a.Length
    modifies a
    ensures a[..i + 1] == Insert(less, old(a[..i]), old(a[i]))
    ensures a[i + 1..] == old(a[i + 1..])
  {
    var x := a[i];
    ghost var prefix := a[..i];
    ghost var rest := a[i + 1..];
    ghost var goal := Insert(less, prefix, x);
    var j := i;
    assert prefix[..j] == prefix && prefix[j..] == [];
    assert a[..] == prefix[..j] + [x] + prefix[j..] + rest;
    while j > 0 && less(x, a[j - 1])
      invariant 0 <= j <= i
      invariant a[..] == prefix[..j] + [x] + prefix[j..] + rest
      invariant goal == Insert(less, prefix[..j], x) + prefix[j..]
    {
      InsertShift(less, prefix, x, j);
      SwapLeft(prefix, x, rest, j);
      ghost var cur := a[..];
      a[j - 1], a[j] := a[j], a[j - 1];
      assert a[..] == cur[j - 1 := x][j := prefix[j - 1]];
      j := j - 1;
    }
    assert !(j > 0 && less(x, prefix[j - 1])) by {
      if j > 0 {
        assert a[j - 1] == a[..][j - 1] == prefix[j - 1];
      }
    }
    InsertStop(less, prefix, x, j);
    assert a[..] == goal + rest;
    assert a[..i + 1] == (goal + rest)[..i + 1] == goal;
    assert a[i + 1..] == (goal + rest)[i + 1..] == rest;
  }

  /** Insertion stops in front of an element `x` does not sort before. */
  lemma InsertStop<T>(less: (T, T) -> bool, prefix: seq<T>, x: T, j: nat)
    requires j <= |prefix|
    requires !(j > 0 && less(x, prefix[j - 1]))
    ensures Insert(less, prefix[..j], x) == prefix[..j] + [x]
  {
  }
}
