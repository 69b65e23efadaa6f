/** Mapping a fallible step over a sequence and keeping the successes: the
    shape of the hook's `map` followed by `filter` of the failed records. */
module FilterMap {
  import opened Wrappers

  /** The successful results of `f`, in input order. */
  function KeepSuccesses<A, B, E>(xs: seq<A>, f: A -> Result<B, E>): (r: seq<B>)
    ensures |r| <= |xs|
  {
    if xs == [] then []
    else
      var rest := KeepSuccesses(xs[1..], f);
      match f(xs[0])
      case Success(y) => [y] + rest
      case Failure(_) => rest
  }

  /** Keeping successes distributes over concatenation, so the survivors
      keep their relative input order. */
  lemma {:induction false} KeepSuccessesAppend<A, B, E>(a: seq<A>, b: seq<A>, f: A -> Result<B, E>)
    ensures KeepSuccesses(a + b, f) == KeepSuccesses(a, f) + KeepSuccesses(b, f)
  {
    if a == [] {
      assert a + b == b;
    } else {
      assert (a + b)[0] == a[0];
      assert (a + b)[1..] == a[1..] + b;
      KeepSuccessesAppend(a[1..], b, f);
    }
  }

  /** A result is kept exactly when some input produced it. */
  lemma {:induction false} KeepSuccessesMembers<A, B, E>(xs: seq<A>, f: A -> Result<B, E>, y: B)
    ensures y in KeepSuccesses(xs, f) <==> exists i :: 0 <= i < |xs| && f(xs[i]) == Success(y)
  {
    if xs != [] {
      KeepSuccessesMembers(xs[1..], f, y);
      if exists i :: 0 <= i < |xs| && f(xs[i]) == Success(y) {
        var i :| 0 <= i < |xs| && f(xs[i]) == Success(y);
        if i > 0 {
          assert xs[1..][i - 1] == xs[i];
        }
      }
      if exists i :: 0 <= i < |xs[1..]| && f(xs[1..][i]) == Success(y) {
        var i :| 0 <= i < |xs[1..]| && f(xs[1..][i]) == Success(y);
        assert xs[i + 1] == xs[1..][i];
      }
    }
  }

  /** Every kept result satisfies what every successful result satisfies. */
  lemma {:induction false} KeepSuccessesAll<A, B, E>(xs: seq<A>, f: A -> Result<B, E>, p: B -> bool)
    requires forall i :: 0 <= i < |xs| && f(xs[i]).Success? ==> p(f(xs[i]).value)
    ensures forall j :: 0 <= j < |KeepSuccesses(xs, f)| ==> p(KeepSuccesses(xs, f)[j])
  {
    if xs != [] {
      assert forall i :: 0 <= i < |xs[1..]| ==> xs[1..][i] == xs[i + 1];
      KeepSuccessesAll(xs[1..], f, p);
    }
  }

  /** One more input adds its result, if it succeeds, at the end. */
  lemma KeepSuccessesStep<A, B, E>(xs: seq<A>, i: nat, f: A -> Result<B, E>)
    requires i < |xs|
    ensures f(xs[i]).Success? ==> KeepSuccesses(xs[..i + 1], f) == KeepSuccesses(xs[..i], f) + [f(xs[i]).value]
    ensures f(xs[i]).Failure? ==> KeepSuccesses(xs[..i + 1], f) == KeepSuccesses(xs[..i], f)
  {
    KeepSuccessesAppend(xs[..i], [xs[i]], f);
    assert xs[..i + 1] == xs[..i] + [xs[i]];
    assert [xs[i]][1..] == [];
  }

  /** Runs `f` on every input, reporting each failure with its position and
      going on with the next input; returns the successes and the reported
      failures in order. */
  method KeepSuccessesLogged<A, B, E>(xs: seq<A>, f: A -> Result<B, E>)
    returns (kept: seq<B>, failures: seq<(nat, E)>)
    ensures kept == KeepSuccesses(xs, f)
    ensures forall k :: 0 <= k < |failures| ==>
      failures[k].0 < |xs| && f(xs[failures[k].0]) == Failure(failures[k].1)
    ensures forall k, l :: 0 <= k < l < |failures| ==> failures[k].0 < failures[l].0
    ensures forall i :: 0 <= i < |xs| && f(xs[i]).Failure? ==>
      exists k :: 0 <= k < |failures| && failures[k].0 == i
    ensures |kept| + |failures| == |xs|
  {
    kept := [];
    failures := [];
    var i := 0;
    while i < |xs|
      invariant 0 <= i <= |xs|
      invariant kept == KeepSuccesses(xs[..i], f)
      invariant |kept| + |failures| == i
      invariant forall k :: 0 <= k < |failures| ==>
        failures[k].0 < i && f(xs[failures[k].0]) == Failure(failures[k].1)
      invariant forall k, l :: 0 <= k < l < |failures| ==> failures[k].0 < failures[l].0
      invariant forall j :: 0 <= j < i && f(xs[j]).Failure? ==>
        exists k :: 0 <= k < |failures| && failures[k].0 == j
    {
      KeepSuccessesStep(xs, i, f);
      match f(xs[i]) {
        case Success(y) =>
          kept := kept + [y];
        case Failure(e) =>
          var before := failures;
          failures := failures + [(i, e)];
          assert forall k :: 0 <= k < |before| ==> failures[k] == before[k];
          assert failures[|before|].0 == i;
      }
      i := i + 1;
    }
    assert xs[..i] == xs;
  }
}
