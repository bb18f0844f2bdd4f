/** Optional values, standing for Python's `None` results and for operations that can fail. */
module Wrappers {

  datatype Option<+T> = None | Some(value: T)

  /** The present values of a sequence of optional values, in order: the shape of
      `if result: synced_files.append(result)` over a loop. */
  function Somes<T>(xs: seq<Option<T>>): (r: seq<T>)
    ensures |r| <= |xs|
  {
    if xs == [] then []
    else (if xs[0].Some? then [xs[0].value] else []) + Somes(xs[1..])
  }

  /** Keeping the present values commutes with concatenation, so the order of the input is kept. */
  lemma {:induction false} SomesAppend<T>(xs: seq<Option<T>>, ys: seq<Option<T>>)
    ensures Somes(xs + ys) == Somes(xs) + Somes(ys)
  {
    if xs == [] {
      assert xs + ys == ys;
    } else {
      var head := if xs[0].Some? then [xs[0].value] else [];
      assert (xs + ys)[0] == xs[0];
      assert (xs + ys)[1..] == xs[1..] + ys;
      SomesAppend(xs[1..], ys);
      assert Somes(xs + ys) == head + (Somes(xs[1..]) + Somes(ys));
      assert Somes(xs) == head + Somes(xs[1..]);
    }
  }

  /** A value is kept exactly when it was present somewhere in the input. */
  lemma {:induction false} SomesMembership<T>(xs: seq<Option<T>>, x: T)
    ensures x in Somes(xs) <==> Some(x) in xs
  {
    if xs != [] {
      SomesMembership(xs[1..], x);
      assert xs == [xs[0]] + xs[1..];
    }
  }

  /** Nothing is dropped when every entry is present. */
  lemma {:induction false} SomesAllPresent<T>(xs: seq<Option<T>>)
    requires forall i :: 0 <= i < |xs| ==> xs[i].Some?
    ensures |Somes(xs)| == |xs|
  {
    if xs != [] {
      SomesAllPresent(xs[1..]);
    }
  }

  /** `f` applied to each element, in order. */
  function Map<A, B>(f: A -> B, xs: seq<A>): (ys: seq<B>)
    ensures |ys| == |xs|
    ensures forall i :: 0 <= i < |xs| ==> ys[i] == f(xs[i])
    decreases |xs|
  {
    if xs == [] then [] else Map(f, xs[..|xs| - 1]) + [f(xs[|xs| - 1])]
  }

  /** Mapping one more element adds its present value, if any, to the kept values. */
  lemma MapSomesStep<A, B>(f: A -> Option<B>, xs: seq<A>, i: nat)
    requires i < |xs|
    ensures Somes(Map(f, xs[..i + 1])) == Somes(Map(f, xs[..i])) + (if f(xs[i]).Some? then [f(xs[i]).value] else [])
  {
    assert xs[..i + 1][..i] == xs[..i];
    SomesAppend(Map(f, xs[..i]), [f(xs[i])]);
  }

  /** A loop that applies `f` to each element in turn and keeps the present values. */
  method CollectSomes<A, B>(f: A -> Option<B>, xs: seq<A>) returns (ys: seq<B>)
    ensures ys == Somes(Map(f, xs))
  {
    ys := [];
    for i := 0 to |xs|
      invariant ys == Somes(Map(f, xs[..i]))
    {
      var result := f(xs[i]);
      SomesLoopBody(f, xs, i, ys, result);
      if result.Some? {
        ys := ys + [result.value];
      }
    }
    assert xs[..|xs|] == xs;
  }

  /** The body of a loop collecting present values: from those of the first `i` elements,
      adding the value of element `i`, if present, gives those of the first `i + 1`. */
  lemma SomesLoopBody<A, B>(f: A -> Option<B>, xs: seq<A>, i: nat, kept: seq<B>, result: Option<B>)
    requires i < |xs| && kept == Somes(Map(f, xs[..i])) && result == f(xs[i])
    ensures (if result.Some? then kept + [result.value] else kept) == Somes(Map(f, xs[..i + 1]))
  {
    MapSomesStep(f, xs, i);
  }

  /** The elements `f` accepts, in order. */
  function Filter<T>(f: T -> bool, xs: seq<T>): (ys: seq<T>)
    ensures |ys| <= |xs|
    decreases |xs|
  {
    if xs == [] then [] else Filter(f, xs[..|xs| - 1]) + (if f(xs[|xs| - 1]) then [xs[|xs| - 1]] else [])
  }

  /** An element is kept exactly when it is in the input and accepted. */
  lemma {:induction false} FilterMembership<T>(f: T -> bool, xs: seq<T>, x: T)
    ensures x in Filter(f, xs) <==> x in xs && f(x)
    decreases |xs|
  {
    if xs != [] {
      var init := xs[..|xs| - 1];
      FilterMembership(f, init, x);
      assert xs == init + [xs[|xs| - 1]];
    }
  }

  /** Filtering one more element appends it when it is accepted. */
  lemma FilterStep<T>(f: T -> bool, xs: seq<T>, i: nat)
    requires i < |xs|
    ensures Filter(f, xs[..i + 1]) == Filter(f, xs[..i]) + (if f(xs[i]) then [xs[i]] else [])
  {
    assert xs[..i + 1][..i] == xs[..i];
  }

  /** The body of a filtering loop: from the elements kept among the first `i`, keeping
      element `i` when `f` accepts it gives those kept among the first `i + 1`. */
  lemma FilterLoopBody<T>(f: T -> bool, xs: seq<T>, i: nat, kept: seq<T>, keep: bool)
    requires i < |xs| && kept == Filter(f, xs[..i]) && keep == f(xs[i])
    ensures (if keep then kept + [xs[i]] else kept) == Filter(f, xs[..i + 1])
  {
    FilterStep(f, xs, i);
  }
}
