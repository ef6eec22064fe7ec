/**
 * Mapping a sequence through a step that may fail, the way both parsers run
 * their line handler over the file: in order, stopping at the first element
 * whose step throws.
 */
module Collect {
  import opened Wrappers

  /** The results of `f` on `xs` in order, or the error of the first element `f` rejects. */
  function MapAll<T, U, E>(f: T -> Result<U, E>, xs: seq<T>): Result<seq<U>, E>
  {
    if xs == [] then Success([])
    else
      match MapAll(f, xs[..|xs| - 1])
      case Failure(e) => Failure(e)
      case Success(us) =>
        match f(xs[|xs| - 1])
        case Failure(e) => Failure(e)
        case Success(u) => Success(us + [u])
  }

  /** A successful run has one result per element. */
  lemma {:induction false} MapAllLength<T, U, E>(f: T -> Result<U, E>, xs: seq<T>)
    ensures MapAll(f, xs).Success? ==> |MapAll(f, xs).value| == |xs|
  {
    if xs != [] {
      MapAllLength(f, xs[..|xs| - 1]);
    }
  }

  /** In a successful run every element succeeds, and its result sits at its own index. */
  lemma {:induction false} MapAllAt<T, U, E>(f: T -> Result<U, E>, xs: seq<T>, i: nat)
    requires MapAll(f, xs).Success? && i < |xs|
    ensures |MapAll(f, xs).value| == |xs|
    ensures f(xs[i]).Success? && MapAll(f, xs).value[i] == f(xs[i]).value
  {
    var init := xs[..|xs| - 1];
    MapAllLength(f, xs);
    MapAllLength(f, init);
    if i < |init| {
      MapAllAt(f, init, i);
      assert init[i] == xs[i];
    }
  }

  /** A run in which every element succeeds succeeds. */
  lemma {:induction false} MapAllSucceeds<T, U, E>(f: T -> Result<U, E>, xs: seq<T>)
    requires forall i :: 0 <= i < |xs| ==> f(xs[i]).Success?
    ensures MapAll(f, xs).Success?
  {
    if xs != [] {
      var init := xs[..|xs| - 1];
      forall i | 0 <= i < |init| ensures f(init[i]).Success? {
        assert init[i] == xs[i];
      }
      MapAllSucceeds(f, init);
    }
  }

  /** A successful run over `a + b` is the run over `a` followed by the run over `b`. */
  lemma {:induction false} MapAllSplit<T, U, E>(f: T -> Result<U, E>, a: seq<T>, b: seq<T>)
    requires MapAll(f, a + b).Success?
    ensures MapAll(f, a).Success? && MapAll(f, b).Success?
    ensures MapAll(f, a + b).value == MapAll(f, a).value + MapAll(f, b).value
    decreases |b|
  {
    if b == [] {
      assert a + b == a;
    } else {
      var init := b[..|b| - 1];
      assert (a + b)[..|a + b| - 1] == a + init;
      assert (a + b)[|a + b| - 1] == b[|b| - 1];
      MapAllSplit(f, a, init);
    }
  }

  /** Once an element fails, the elements after it do not matter. */
  lemma {:induction false} FirstFailureSticks<T, U, E>(f: T -> Result<U, E>, xs: seq<T>, n: nat)
    requires n <= |xs| && MapAll(f, xs[..n]).Failure?
    ensures MapAll(f, xs) == MapAll(f, xs[..n])
    decreases |xs| - n
  {
    if n < |xs| {
      assert xs[..n + 1][..n] == xs[..n];
      FirstFailureSticks(f, xs, n + 1);
    } else {
      assert xs[..n] == xs;
    }
  }
}
