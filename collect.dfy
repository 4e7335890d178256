/**
 * The `filter_map(..).collect()` pattern that the service aggregation uses twice:
 * every element is turned into a Result, the failures are logged and dropped,
 * and the successes are collected in iteration order.
 */
module Collect {
  import opened Wrappers

  /** The success values of `rs`, in order (Rust's `filter_map(|r| r.ok()).collect()`). */
  function Successes<T, E>(rs: seq<Result<T, E>>): (kept: seq<T>)
    ensures |kept| <= |rs|
    ensures (forall i :: 0 <= i < |rs| ==> rs[i].Err?) ==> kept == []
    ensures (forall i :: 0 <= i < |rs| ==> rs[i].Ok?) ==> |kept| == |rs|
    decreases |rs|
  {
    if rs == [] then []
    else
      var init := Successes(rs[..|rs| - 1]);
      match rs[|rs| - 1]
      case Ok(v) => init + [v]
      case Err(_) => init
  }

  /** The positions of the successes of `rs`, in increasing order (see `SuccessPositionsSpec`). */
  ghost function SuccessPositions<T, E>(rs: seq<Result<T, E>>): (ps: seq<nat>)
    ensures forall k :: 0 <= k < |ps| ==> ps[k] < |rs|
    decreases |rs|
  {
    if rs == [] then []
    else
      var init := SuccessPositions(rs[..|rs| - 1]);
      if rs[|rs| - 1].Ok? then init + [|rs| - 1] else init
  }

  /**
   * The positions denote exactly the collected values: one per collected
   * value, each an `Ok` element holding that value, increasing, and
   * covering every `Ok` element.
   */
  lemma SuccessPositionsSpec<T, E>(rs: seq<Result<T, E>>)
    ensures var ps := SuccessPositions(rs);
      && |ps| == |Successes(rs)|
      && (forall k :: 0 <= k < |ps| ==> ps[k] < |rs| && rs[ps[k]].Ok? && rs[ps[k]].value == Successes(rs)[k])
      && (forall k, l :: 0 <= k < l < |ps| ==> ps[k] < ps[l])
      && (forall i :: 0 <= i < |rs| && rs[i].Ok? ==> i in ps)
  {
    PositionsValues(rs);
    PositionsIncreasing(rs);
    PositionsComplete(rs);
  }

  lemma {:induction false} PositionsValues<T, E>(rs: seq<Result<T, E>>)
    ensures var ps := SuccessPositions(rs);
      && |ps| == |Successes(rs)|
      && forall k :: 0 <= k < |ps| ==> rs[ps[k]].Ok? && rs[ps[k]].value == Successes(rs)[k]
    decreases |rs|
  {
    if rs != [] {
      var front := rs[..|rs| - 1];
      PositionsValues(front);
      var init := SuccessPositions(front);
      assert forall k :: 0 <= k < |init| ==> front[init[k]] == rs[init[k]];
    }
  }

  lemma {:induction false} PositionsIncreasing<T, E>(rs: seq<Result<T, E>>)
    ensures forall k, l :: 0 <= k < l < |SuccessPositions(rs)| ==> SuccessPositions(rs)[k] < SuccessPositions(rs)[l]
    decreases |rs|
  {
    if rs != [] {
      var init := SuccessPositions(rs[..|rs| - 1]);
      PositionsIncreasing(rs[..|rs| - 1]);
      if rs[|rs| - 1].Ok? {
        var ps := init + [|rs| - 1];
        assert forall k :: 0 <= k < |init| ==> ps[k] == init[k];
      }
    }
  }

  lemma {:induction false} PositionsComplete<T, E>(rs: seq<Result<T, E>>)
    ensures forall i :: 0 <= i < |rs| && rs[i].Ok? ==> i in SuccessPositions(rs)
    decreases |rs|
  {
    if rs != [] {
      var front := rs[..|rs| - 1];
      PositionsComplete(front);
      assert forall i :: 0 <= i < |front| ==> front[i] == rs[i];
    }
  }

  /** Every collected value is the success value of some element. */
  lemma {:induction false} SuccessesSound<T, E>(rs: seq<Result<T, E>>, x: T)
    requires x in Successes(rs)
    ensures exists i :: 0 <= i < |rs| && rs[i].Ok? && rs[i].value == x
  {
    SuccessPositionsSpec(rs);
    var ps := SuccessPositions(rs);
    var k :| 0 <= k < |Successes(rs)| && Successes(rs)[k] == x;
    assert rs[ps[k]].Ok? && rs[ps[k]].value == x;
  }

  /** Every success value is collected. */
  lemma {:induction false} SuccessesComplete<T, E>(rs: seq<Result<T, E>>, i: nat)
    requires i < |rs| && rs[i].Ok?
    ensures rs[i].value in Successes(rs)
  {
    SuccessPositionsSpec(rs);
    var ps := SuccessPositions(rs);
    var k :| 0 <= k < |ps| && ps[k] == i;
  }

  /** Collecting is done element by element: the result for a concatenation is the concatenation of the results. */
  lemma {:induction false} SuccessesAppend<T, E>(a: seq<Result<T, E>>, b: seq<Result<T, E>>)
    ensures Successes(a + b) == Successes(a) + Successes(b)
    decreases |b|
  {
    if b == [] {
      assert a + b == a;
    } else {
      var b' := b[..|b| - 1];
      assert (a + b)[..|a + b| - 1] == a + b';
      assert (a + b)[|a + b| - 1] == b[|b| - 1];
      SuccessesAppend(a, b');
    }
  }

  /** One failing element is dropped without affecting those before or after it. */
  lemma SuccessesSkipFailure<T, E>(a: seq<Result<T, E>>, e: E, b: seq<Result<T, E>>)
    ensures Successes(a + [Err(e)] + b) == Successes(a) + Successes(b)
  {
    SuccessesAppend(a + [Err(e)], b);
    SuccessesAppend(a, [Err(e)]);
    var one: seq<Result<T, E>> := [Err(e)];
    assert one[..0] == [];
  }

  /** One succeeding element contributes exactly its value, in its place. */
  lemma SuccessesKeepSuccess<T, E>(a: seq<Result<T, E>>, x: T, b: seq<Result<T, E>>)
    ensures Successes(a + [Ok(x)] + b) == Successes(a) + [x] + Successes(b)
  {
    SuccessesAppend(a + [Ok(x)], b);
    SuccessesAppend(a, [Ok(x)]);
    var one: seq<Result<T, E>> := [Ok(x)];
    assert one[..0] == [];
  }

  /** Which positions survive depends only on which elements succeed. */
  lemma {:induction false} SamePositions<T, E, U, F>(rs: seq<Result<T, E>>, qs: seq<Result<U, F>>)
    requires |rs| == |qs|
    requires forall i :: 0 <= i < |rs| ==> rs[i].Ok? == qs[i].Ok?
    ensures SuccessPositions(rs) == SuccessPositions(qs)
    decreases |rs|
  {
    if rs != [] {
      SamePositions(rs[..|rs| - 1], qs[..|qs| - 1]);
    }
  }
}
