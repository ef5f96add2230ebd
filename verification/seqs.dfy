/**
 * The table operations every handler is built from. A table is a sequence of
 * rows in insertion order; a SELECT with a WHERE clause is `Filter`, a
 * `COUNT(*)` is `Count`, `ORDER BY created_at DESC` is `Reverse`,
 * `LIMIT/OFFSET` is `Page`, a `fetch_assoc` of the first row is `First`, and
 * an `UPDATE ... WHERE` is `UpdateWhere`.
 */
module Seqs {
  import opened Common

  function Min(a: int, b: int): int {
    if a <= b then a else b
  }

  /** The elements of `xs` satisfying `p`, in table order. */
  function Filter<T(!new)>(xs: seq<T>, p: T -> bool): (r: seq<T>)
    ensures |r| <= |xs|
    ensures forall x :: x in r <==> x in xs && p(x)
    decreases |xs|
  {
    if xs == [] then []
    else
      var init, last := xs[..|xs| - 1], xs[|xs| - 1];
      SplitLast(xs);
      Filter(init, p) + (if p(last) then [last] else [])
  }

  /** A non-empty table is its rows but the last, then the last. */
  lemma SplitLast<T>(xs: seq<T>)
    requires xs != []
    ensures xs == xs[..|xs| - 1] + [xs[|xs| - 1]]
  {
  }

  /** Filtering a table that grew by one row filters the old rows and then the new one. */
  lemma FilterAppend<T(!new)>(xs: seq<T>, x: T, p: T -> bool)
    ensures Filter(xs + [x], p) == Filter(xs, p) + (if p(x) then [x] else [])
  {
    assert (xs + [x])[..|xs|] == xs;
  }

  /** A filter that rejects nothing gives the table back unchanged. */
  lemma {:induction false} FilterKeepsAll<T(!new)>(xs: seq<T>, p: T -> bool)
    requires forall i :: 0 <= i < |xs| ==> p(xs[i])
    ensures Filter(xs, p) == xs
    decreases |xs|
  {
    if xs != [] {
      var init, last := xs[..|xs| - 1], xs[|xs| - 1];
      assert forall i :: 0 <= i < |init| ==> p(init[i]) by {
        forall i | 0 <= i < |init| ensures p(init[i]) {
          assert init[i] == xs[i];
        }
      }
      FilterKeepsAll(init, p);
      SplitLast(xs);
      FilterAppend(init, last, p);
    }
  }

  /** Filtering the same table with two predicates that agree on it gives the same rows. */
  lemma {:induction false} FilterCongruent<T(!new)>(xs: seq<T>, p: T -> bool, q: T -> bool)
    requires forall i :: 0 <= i < |xs| ==> p(xs[i]) == q(xs[i])
    ensures Filter(xs, p) == Filter(xs, q)
    decreases |xs|
  {
    if xs != [] {
      FilterCongruent(xs[..|xs| - 1], p, q);
    }
  }

  /** `SELECT COUNT(*) ... WHERE p`. */
  function Count<T(!new)>(xs: seq<T>, p: T -> bool): nat {
    |Filter(xs, p)|
  }

  /** A count grows by one exactly when the appended row is selected. */
  lemma CountAppend<T(!new)>(xs: seq<T>, x: T, p: T -> bool)
    ensures Count(xs + [x], p) == Count(xs, p) + (if p(x) then 1 else 0)
  {
    FilterAppend(xs, x, p);
  }

  /** A count is zero exactly when no row is selected. */
  lemma CountZero<T(!new)>(xs: seq<T>, p: T -> bool)
    ensures Count(xs, p) == 0 <==> forall i :: 0 <= i < |xs| ==> !p(xs[i])
  {
    if Count(xs, p) != 0 {
      var x := Filter(xs, p)[0];
      assert x in Filter(xs, p);
    } else {
      forall i | 0 <= i < |xs|
        ensures !p(xs[i])
      {
        assert xs[i] in xs;
      }
    }
  }

  /** Counting with a stronger condition never counts more. */
  lemma {:induction false} CountMonotone<T(!new)>(xs: seq<T>, p: T -> bool, q: T -> bool)
    requires forall i :: 0 <= i < |xs| ==> p(xs[i]) ==> q(xs[i])
    ensures Count(xs, p) <= Count(xs, q)
    decreases |xs|
  {
    if xs != [] {
      CountMonotone(xs[..|xs| - 1], p, q);
    }
  }

  /** Two counts over disjoint conditions add up to at most the table size. */
  lemma {:induction false} CountDisjoint<T(!new)>(xs: seq<T>, p: T -> bool, q: T -> bool)
    requires forall i :: 0 <= i < |xs| ==> !(p(xs[i]) && q(xs[i]))
    ensures Count(xs, p) + Count(xs, q) <= |xs|
    decreases |xs|
  {
    if xs != [] {
      CountDisjoint(xs[..|xs| - 1], p, q);
    }
  }

  /**
   * Rewriting one row changes a count only by what that row contributes:
   * the count loses the old row if it was selected and gains the new one if
   * it is.
   */
  lemma {:induction false} CountReplaced<T(!new)>(xs: seq<T>, ys: seq<T>, k: nat, p: T -> bool)
    requires |xs| == |ys| && k < |xs|
    requires forall i :: 0 <= i < |xs| && i != k ==> ys[i] == xs[i]
    ensures Count(ys, p) + (if p(xs[k]) then 1 else 0) == Count(xs, p) + (if p(ys[k]) then 1 else 0)
    decreases |xs|
  {
    var n := |xs| - 1;
    var xi, yi := xs[..n], ys[..n];
    SplitLast(xs);
    SplitLast(ys);
    CountAppend(xi, xs[n], p);
    CountAppend(yi, ys[n], p);
    assert Count(xs, p) == Count(xi, p) + (if p(xs[n]) then 1 else 0);
    assert Count(ys, p) == Count(yi, p) + (if p(ys[n]) then 1 else 0);
    if k == n {
      assert xi == yi by {
        forall i | 0 <= i < n
          ensures xi[i] == yi[i]
        {
          assert ys[i] == xs[i];
        }
      }
    } else {
      assert ys[n] == xs[n];
      CountReplaced(xi, yi, k, p);
    }
  }

  /** The table read newest row first. */
  function Reverse<T(!new)>(xs: seq<T>): (r: seq<T>)
    ensures |r| == |xs|
    ensures forall i :: 0 <= i < |xs| ==> r[i] == xs[|xs| - 1 - i]
    ensures forall x :: x in r <==> x in xs
    decreases |xs|
  {
    if xs == [] then [] else [xs[|xs| - 1]] + Reverse(xs[..|xs| - 1])
  }

  // ---------------------------------------------------------------- order of a result

  /** `pos` places each row of `r` in `xs`: row `k` of `r` is row `pos[k]` of `xs`. */
  ghost predicate Placed<T>(r: seq<T>, xs: seq<T>, pos: seq<nat>) {
    |pos| == |r| && forall k :: 0 <= k < |r| ==> pos[k] < |xs| && r[k] == xs[pos[k]]
  }

  /** `r` lists rows of `xs` in table order: each row sits later in `xs` than the row before it. */
  ghost predicate InTableOrder<T>(r: seq<T>, xs: seq<T>) {
    exists pos :: Placed(r, xs, pos) && forall k, l :: 0 <= k < l < |pos| ==> pos[k] < pos[l]
  }

  /** `r` lists rows of `xs` newest first: each row sits earlier in `xs` than the row before it. */
  ghost predicate NewestFirst<T>(r: seq<T>, xs: seq<T>) {
    exists pos :: Placed(r, xs, pos) && forall k, l :: 0 <= k < l < |pos| ==> pos[k] > pos[l]
  }

  /** The positions in `xs` of the rows `Filter` keeps, which increase. */
  lemma {:induction false} FilterPositions<T(!new)>(xs: seq<T>, p: T -> bool) returns (pos: seq<nat>)
    ensures Placed(Filter(xs, p), xs, pos)
    ensures forall k, l :: 0 <= k < l < |pos| ==> pos[k] < pos[l]
    decreases |xs|
  {
    if xs == [] {
      pos := [];
    } else {
      var n := |xs| - 1;
      var init := xs[..n];
      SplitLast(xs);
      var before := FilterPositions(init, p);
      pos := before + (if p(xs[n]) then [n] else []);
      forall k | 0 <= k < |before|
        ensures before[k] < n && xs[before[k]] == init[before[k]]
      {
      }
    }
  }

  /** A WHERE clause keeps the rows in table order. */
  lemma FilterInTableOrder<T(!new)>(xs: seq<T>, p: T -> bool)
    ensures InTableOrder(Filter(xs, p), xs)
  {
    var pos := FilterPositions(xs, p);
  }

  /** A WHERE clause read with `ORDER BY created_at DESC` lists the selected rows newest first. */
  lemma SelectionNewestFirst<T(!new)>(xs: seq<T>, p: T -> bool)
    ensures NewestFirst(Reverse(Filter(xs, p)), xs)
  {
    var f := Filter(xs, p);
    var pos := FilterPositions(xs, p);
    var rev := seq(|pos|, k requires 0 <= k < |pos| => pos[|pos| - 1 - k]);
    assert Placed(Reverse(f), xs, rev);
  }

  /** Each row turned into what the API shows of it, in the same order. */
  function Map<A, B>(xs: seq<A>, f: A -> B): (r: seq<B>)
    ensures |r| == |xs|
    ensures forall i :: 0 <= i < |xs| ==> r[i] == f(xs[i])
  {
    seq(|xs|, i requires 0 <= i < |xs| => f(xs[i]))
  }

  /** SQL `LIMIT limit OFFSET offset` over an ordered result. */
  function Page<T>(rows: seq<T>, limit: nat, offset: nat): (r: seq<T>)
    ensures |r| <= limit
    ensures offset >= |rows| ==> r == []
    ensures offset < |rows| ==> |r| == Min(limit, |rows| - offset)
    ensures forall i :: 0 <= i < |r| ==> offset + i < |rows| && r[i] == rows[offset + i]
  {
    if offset >= |rows| then [] else rows[offset .. offset + Min(limit, |rows| - offset)]
  }

  /** The first page of the table read newest first holds its newest rows. */
  lemma NewestPage<T(!new)>(xs: seq<T>, limit: nat)
    ensures |Page(Reverse(xs), limit, 0)| == Min(limit, |xs|)
    ensures forall i :: 0 <= i < Min(limit, |xs|) ==> Page(Reverse(xs), limit, 0)[i] == xs[|xs| - 1 - i]
  {
  }

  /** Index of the first element satisfying `p`. */
  function FindIndex<T>(xs: seq<T>, p: T -> bool): (r: Option<nat>)
    ensures r.Some? ==> r.value < |xs| && p(xs[r.value])
    ensures r.Some? ==> forall j :: 0 <= j < r.value ==> !p(xs[j])
    ensures r.None? <==> forall j :: 0 <= j < |xs| ==> !p(xs[j])
    decreases |xs|
  {
    if xs == [] then None
    else if p(xs[0]) then Some(0)
    else
      match FindIndex(xs[1..], p)
      case None => None
      case Some(k) => Some(k + 1)
  }

  /** The row `fetch_assoc` returns: the first one satisfying `p`, if any. */
  function First<T(!new)>(xs: seq<T>, p: T -> bool): (r: Option<T>)
    ensures r.Some? ==> r.value in xs && p(r.value)
    ensures r.None? <==> forall x :: x in xs ==> !p(x)
  {
    match FindIndex(xs, p)
    case None => None
    case Some(i) => Some(xs[i])
  }

  /** `UPDATE ... SET f WHERE p`: every selected row is rewritten, the others are kept. */
  function UpdateWhere<T>(xs: seq<T>, p: T -> bool, f: T -> T): (r: seq<T>)
    ensures |r| == |xs|
    ensures forall i :: 0 <= i < |xs| ==> r[i] == (if p(xs[i]) then f(xs[i]) else xs[i])
  {
    seq(|xs|, i requires 0 <= i < |xs| => if p(xs[i]) then f(xs[i]) else xs[i])
  }

  /** `DELETE ... WHERE p`: the rows that do not satisfy `p`, in table order. */
  function DeleteWhere<T(!new)>(xs: seq<T>, p: T -> bool): (r: seq<T>)
    ensures |r| <= |xs|
    ensures forall x :: x in r <==> x in xs && !p(x)
  {
    Filter(xs, x => !p(x))
  }

  /** Deleting from a table that grew by one row deletes from the old rows and then tests the new one. */
  lemma DeleteWhereAppend<T(!new)>(xs: seq<T>, x: T, p: T -> bool)
    ensures DeleteWhere(xs + [x], p) == DeleteWhere(xs, p) + (if p(x) then [] else [x])
  {
    FilterAppend(xs, x, y => !p(y));
  }

  /** A delete that selects no row leaves the table as it was. */
  lemma DeleteWhereNone<T(!new)>(xs: seq<T>, p: T -> bool)
    requires forall i :: 0 <= i < |xs| ==> !p(xs[i])
    ensures DeleteWhere(xs, p) == xs
  {
    FilterKeepsAll(xs, y => !p(y));
  }
}
