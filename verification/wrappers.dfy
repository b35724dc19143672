/** Failure-compatible wrappers shared by every module of the model.
    A Ruby `nil` becomes `None`; a Ruby exception escaping a method becomes
    `Failure` carrying a short description of what raised. */
module Wrappers {

  datatype Option<+T> = None | Some(value: T) {

    /** The wrapped value, or `default` for `None` (Ruby's `x || default`). */
    function GetOr(default: T): T {
      match this
      case Some(v) => v
      case None => default
    }
  }

  datatype Result<+T> = Success(value: T) | Failure(error: string) {

    predicate IsFailure() {
      Failure?
    }

    function PropagateFailure<U>(): Result<U>
      requires Failure?
    {
      Failure(error)
    }

    function Extract(): T
      requires Success?
    {
      value
    }
  }

  /** Applies `f` to every element in order, stopping at the first
      failure (a Ruby `map` whose block may raise). */
  function MapAll<A, B>(f: A -> Result<B>, xs: seq<A>): (r: Result<seq<B>>)
    ensures r.Success? ==> |r.value| == |xs|
    ensures r.Success? ==> forall i :: 0 <= i < |xs| ==> f(xs[i]) == Success(r.value[i])
    ensures r.Failure? ==> exists i :: 0 <= i < |xs| && f(xs[i]).Failure?
    decreases |xs|
  {
    if |xs| == 0 then Success([])
    else
      match f(xs[0])
      case Failure(e) => Failure(e)
      case Success(y) =>
        match MapAll(f, xs[1..])
        case Failure(e) =>
          assert forall i :: 1 <= i < |xs| ==> xs[i] == xs[1..][i - 1];
          Failure(e)
        case Success(ys) =>
          assert forall i :: 1 <= i < |xs| ==> xs[i] == xs[1..][i - 1];
          Success([y] + ys)
  }

  /** The results of `f` that are present, in order (a Ruby `each` that
      appends only some elements, or `next`s past the others). */
  function FilterMap<A, B>(f: A -> Option<B>, xs: seq<A>): (r: seq<B>)
    ensures |r| <= |xs|
    decreases |xs|
  {
    if |xs| == 0 then []
    else (match f(xs[0]) case None => [] case Some(y) => [y]) + FilterMap(f, xs[1..])
  }

  /** Filtering a concatenation filters each part. */
  lemma {:induction false} FilterMapAppend<A, B>(f: A -> Option<B>, a: seq<A>, b: seq<A>)
    ensures FilterMap(f, a + b) == FilterMap(f, a) + FilterMap(f, b)
    decreases |a|
  {
    if |a| == 0 {
      assert a + b == b;
    } else {
      assert (a + b)[0] == a[0];
      assert (a + b)[1..] == a[1..] + b;
      FilterMapAppend(f, a[1..], b);
    }
  }

  /** One element's contribution to a filtered sequence. */
  lemma FilterMapMiddle<A, B>(f: A -> Option<B>, a: seq<A>, x: A, b: seq<A>)
    ensures f(x).None? ==> FilterMap(f, a + [x] + b) == FilterMap(f, a) + FilterMap(f, b)
    ensures f(x).Some? ==> FilterMap(f, a + [x] + b) == FilterMap(f, a) + [f(x).value] + FilterMap(f, b)
  {
    var ax := a + [x];
    assert a + [x] + b == ax + b;
    FilterMapAppend(f, ax, b);
    FilterMapAppend(f, a, [x]);
    FilterMapOne(f, x);
    if f(x).None? {
      assert FilterMap(f, a) + FilterMap(f, [x]) == FilterMap(f, a);
    }
  }

  lemma FilterMapOne<A, B>(f: A -> Option<B>, x: A)
    ensures FilterMap(f, [x]) == if f(x).Some? then [f(x).value] else []
  {
    assert [x][1..] == [];
    assert FilterMap(f, [x][1..]) == [];
  }
}
