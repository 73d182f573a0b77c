/** Order-preserving selection over sequences: the row masks `df[df[col] > 0]`
    and `df[df['genre'].str.lower() == g]`. */
module Sequences {

  /** The elements of `xs` that satisfy `keep`, in their original order. */
  function Filter<T(!new)>(xs: seq<T>, keep: T -> bool): (r: seq<T>)
    ensures |r| <= |xs|
    ensures forall x :: x in r <==> x in xs && keep(x)
  {
    if xs == [] then []
    else
      var n := |xs| - 1;
      assert xs == xs[..n] + [xs[n]];
      Filter(xs[..n], keep) + (if keep(xs[n]) then [xs[n]] else [])
  }

  /** Filtering respects table order: the kept rows of a concatenation are the
      kept rows of the first part followed by those of the second. */
  lemma {:induction false} FilterAppend<T(!new)>(xs: seq<T>, ys: seq<T>, keep: T -> bool)
    ensures Filter(xs + ys, keep) == Filter(xs, keep) + Filter(ys, keep)
  {
    if ys == [] {
      assert xs + ys == xs;
    } else {
      var n := |ys| - 1;
      var front, y := ys[..n], ys[n];
      var last := if keep(y) then [y] else [];
      var a, b := Filter(xs, keep), Filter(front, keep);
      assert Filter(xs + ys, keep) == (a + b) + last by {
        assert xs + ys == (xs + front) + [y];
        FilterSnoc(xs + front, y, keep);
        FilterAppend(xs, front, keep);
      }
      assert Filter(ys, keep) == b + last by {
        assert ys == front + [y];
        FilterSnoc(front, y, keep);
      }
      AppendAssoc(a, b, last);
    }
  }

  lemma AppendAssoc<T>(a: seq<T>, b: seq<T>, c: seq<T>)
    ensures (a + b) + c == a + (b + c)
  {
  }

  lemma FilterSnoc<T(!new)>(xs: seq<T>, x: T, keep: T -> bool)
    ensures Filter(xs + [x], keep) == Filter(xs, keep) + (if keep(x) then [x] else [])
  {
  }

  /** The mask that keeps what both `p` and `q` keep. */
  function Both<T>(p: T -> bool, q: T -> bool): T -> bool {
    x => p(x) && q(x)
  }

  /** Two masks applied one after the other select what their conjunction selects. */
  lemma {:induction false} FilterTwice<T(!new)>(xs: seq<T>, p: T -> bool, q: T -> bool)
    ensures Filter(Filter(xs, p), q) == Filter(xs, Both(p, q))
  {
    if xs != [] {
      var n := |xs| - 1;
      var inner := Filter(xs[..n], p);
      FilterTwice(xs[..n], p, q);
      assert Filter(inner, q) == Filter(xs[..n], Both(p, q));
      if p(xs[n]) {
        var ys := inner + [xs[n]];
        assert Filter(xs, p) == ys;
        assert ys[..|ys| - 1] == inner;
        assert Filter(ys, q) == Filter(inner, q) + (if q(xs[n]) then [xs[n]] else []);
      } else {
        assert Filter(xs, p) == inner;
      }
    }
  }

  /** A mask every element passes changes nothing. */
  lemma {:induction false} FilterKeepsAll<T(!new)>(xs: seq<T>, keep: T -> bool)
    requires forall x :: x in xs ==> keep(x)
    ensures Filter(xs, keep) == xs
  {
    if xs != [] {
      var n := |xs| - 1;
      var front := xs[..n];
      assert xs == front + [xs[n]];
      assert forall x :: x in front ==> x in xs;
      FilterKeepsAll(front, keep);
      assert xs[n] in xs;
    }
  }

  /** The mask selects nothing exactly when no element passes it. */
  lemma {:induction false} FilterIsEmpty<T(!new)>(xs: seq<T>, keep: T -> bool)
    ensures Filter(xs, keep) == [] <==> forall x :: x in xs ==> !keep(x)
  {
    if xs != [] {
      var n := |xs| - 1;
      FilterIsEmpty(xs[..n], keep);
      assert xs == xs[..n] + [xs[n]];
    }
  }
}
