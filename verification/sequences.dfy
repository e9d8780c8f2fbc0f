/**
 * Concatenating the lists a function gives for each element of a sequence,
 * the shape of a Python loop that appends zero or more results per input.
 */
module Sequences {
  /** The lists `f` gives for the elements of `xs`, concatenated in order. */
  function ConcatMap<T, U>(xs: seq<T>, f: T -> seq<U>): seq<U> {
    if xs == [] then []
    else ConcatMap(xs[..|xs| - 1], f) + f(xs[|xs| - 1])
  }

  lemma {:induction false} ConcatMapAppend<T, U>(a: seq<T>, b: seq<T>, f: T -> seq<U>)
    ensures ConcatMap(a + b, f) == ConcatMap(a, f) + ConcatMap(b, f)
    decreases |b|
  {
    if b == [] {
      assert a + b == a;
    } else {
      var b' := b[..|b| - 1];
      ConcatMapAppend(a, b', f);
      assert (a + b)[..|a + b| - 1] == a + b';
      assert (a + b)[|a + b| - 1] == b[|b| - 1];
    }
  }

  lemma ConcatMapSingle<T, U>(x: T, f: T -> seq<U>)
    ensures ConcatMap([x], f) == f(x)
  {
    assert [x][..0] == [];
  }

  /** Nothing comes out exactly when every element gives nothing. */
  lemma {:induction false} ConcatMapEmpty<T, U>(xs: seq<T>, f: T -> seq<U>)
    ensures ConcatMap(xs, f) == [] <==> forall i :: 0 <= i < |xs| ==> f(xs[i]) == []
  {
    if xs != [] {
      var init := xs[..|xs| - 1];
      ConcatMapEmpty(init, f);
      assert forall i :: 0 <= i < |init| ==> init[i] == xs[i];
    }
  }

  /** Every element of the result is one of the lists' elements, so a
      property all of those have holds throughout. */
  lemma {:induction false} ConcatMapAll<T, U>(xs: seq<T>, f: T -> seq<U>, p: U -> bool)
    requires forall i, k :: 0 <= i < |xs| && 0 <= k < |f(xs[i])| ==> p(f(xs[i])[k])
    ensures forall k :: 0 <= k < |ConcatMap(xs, f)| ==> p(ConcatMap(xs, f)[k])
  {
    if xs != [] {
      var init, last := xs[..|xs| - 1], xs[|xs| - 1];
      assert forall i :: 0 <= i < |init| ==> init[i] == xs[i];
      ConcatMapAll(init, f, p);
      var a, b := ConcatMap(init, f), f(last);
      forall k | 0 <= k < |a + b| ensures p((a + b)[k]) {
        if k >= |a| {
          assert (a + b)[k] == b[k - |a|];
        } else {
          assert (a + b)[k] == a[k];
        }
      }
    }
  }

  /** When each element gives just itself, the result is the input. */
  lemma {:induction false} ConcatMapOfSingletons<T>(xs: seq<T>, f: T -> seq<T>)
    requires forall i :: 0 <= i < |xs| ==> f(xs[i]) == [xs[i]]
    ensures ConcatMap(xs, f) == xs
  {
    if xs != [] {
      var init := xs[..|xs| - 1];
      assert forall i :: 0 <= i < |init| ==> init[i] == xs[i];
      ConcatMapOfSingletons(init, f);
      assert init + [xs[|xs| - 1]] == xs;
    }
  }
}
