/** Generic pieces shared by the passes of the format checker: an optional
    value, the result of one step that may fail, the state a fail-fast loop
    stops in, and an order-preserving filter. */
module Base {

  datatype Option<T> = None | Some(value: T)

  /** The outcome of one step of a pass: a value, or the exception it raises. */
  datatype Result<T, E> = Ok(value: T) | Err(error: E)

  /** What a fail-fast loop leaves behind: the items it finished, in order, and
      the error that stopped it when it did not reach the end of its input. */
  datatype Batch<T, E> = Completed(done: seq<T>) | Aborted(done: seq<T>, error: E)

  /** The elements of `xs` that satisfy `p`, in their original order. */
  function Filter<T(==, !new)>(p: T -> bool, xs: seq<T>): (r: seq<T>)
    ensures |r| <= |xs|
    ensures forall x :: x in r <==> x in xs && p(x)
    decreases |xs|
  {
    if |xs| == 0 then []
    else
      var init := xs[..|xs| - 1];
      assert xs == init + [xs[|xs| - 1]];
      Filter(p, init) + (if p(xs[|xs| - 1]) then [xs[|xs| - 1]] else [])
  }

  /** Filtering commutes with concatenation, so the filter keeps the order of
      its input: whatever comes from `xs` precedes whatever comes from `ys`. */
  lemma {:induction false} FilterConcat<T(!new)>(p: T -> bool, xs: seq<T>, ys: seq<T>)
    ensures Filter(p, xs + ys) == Filter(p, xs) + Filter(p, ys)
    decreases |ys|
  {
    if |ys| == 0 {
      assert xs + ys == xs;
    } else {
      var ys' := ys[..|ys| - 1];
      var y := ys[|ys| - 1];
      var last := if p(y) then [y] else [];
      assert (xs + ys)[..|xs + ys| - 1] == xs + ys';
      assert (xs + ys)[|xs + ys| - 1] == y;
      calc {
        Filter(p, xs + ys);
        Filter(p, xs + ys') + last;
        { FilterConcat(p, xs, ys'); }
        (Filter(p, xs) + Filter(p, ys')) + last;
        Filter(p, xs) + (Filter(p, ys') + last);
        Filter(p, xs) + Filter(p, ys);
      }
    }
  }

  /** Filtering one more element at the end extends the filtered prefix by that
      element exactly when it satisfies `p`. */
  lemma FilterSnoc<T(!new)>(p: T -> bool, xs: seq<T>, i: nat)
    requires i < |xs|
    ensures Filter(p, xs[..i + 1]) == Filter(p, xs[..i]) + (if p(xs[i]) then [xs[i]] else [])
  {
    assert xs[..i + 1][..i] == xs[..i];
  }

  /** Nothing is kept from a sequence none of whose elements satisfies `p`. */
  lemma {:induction false} FilterNone<T(!new)>(p: T -> bool, xs: seq<T>)
    requires forall i :: 0 <= i < |xs| ==> !p(xs[i])
    ensures Filter(p, xs) == []
    decreases |xs|
  {
    if |xs| > 0 {
      FilterNone(p, xs[..|xs| - 1]);
    }
  }

  /** A one-element sequence keeps its element exactly when it satisfies `p`. */
  lemma FilterSingleton<T(!new)>(p: T -> bool, x: T)
    ensures Filter(p, [x]) == if p(x) then [x] else []
  {
    assert [x][..0] == [];
  }
}
