/** src/utils/results.ts: converting a callback's completion into a result, and
    partitioning a list of results into its successes and its failures. */
module Results {
  import opened Wrappers

  /** How a callback finished: it returned a value or threw. */
  datatype Completion<+T> = Normal(value: T) | Thrown(thrown: string)

  /** `tryCatch`: a returned value is `ok`, a throw is `err` of what was thrown. */
  function TryCatch<T>(c: Completion<T>): (r: Result<T, string>)
    ensures r.Ok? <==> c.Normal?
    ensures r.Ok? ==> r.value == c.value
    ensures r.Err? ==> r.error == c.thrown
  {
    match c
    case Normal(v) => Ok(v)
    case Thrown(e) => Err(e)
  }

  /** Reading a result back as a completion. */
  function AsCompletion<T>(r: Result<T, string>): Completion<T> {
    match r
    case Ok(v) => Normal(v)
    case Err(e) => Thrown(e)
  }

  /** `tryCatch` loses nothing: the completion can be read back from its result. */
  lemma TryCatchFaithful<T>(c: Completion<T>)
    ensures AsCompletion(TryCatch(c)) == c
  {
  }

  datatype Grouped<S, E> = Grouped(success: seq<S>, failure: seq<E>)

  /** The values of the `ok` results, in order. */
  function OkValues<S, E>(results: seq<Result<S, E>>): seq<S> {
    if results == [] then []
    else (if results[0].Ok? then [results[0].value] else []) + OkValues(results[1..])
  }

  /** The errors of the `err` results, in order. */
  function ErrValues<S, E>(results: seq<Result<S, E>>): seq<E> {
    if results == [] then []
    else (if results[0].Err? then [results[0].error] else []) + ErrValues(results[1..])
  }

  /** `groupResults`: the `reduce` from the left, appending each result's payload
      to the list its tag selects. */
  function GroupResults<S, E>(results: seq<Result<S, E>>): (g: Grouped<S, E>)
    ensures |g.success| + |g.failure| == |results|
  {
    if results == [] then Grouped([], [])
    else
      var acc := GroupResults(results[..|results| - 1]);
      var last := results[|results| - 1];
      if last.Err? then acc.(failure := acc.failure + [last.error])
      else acc.(success := acc.success + [last.value])
  }

  lemma {:induction false} OkValuesAppend<S, E>(results: seq<Result<S, E>>, x: Result<S, E>)
    ensures OkValues(results + [x]) == OkValues(results) + (if x.Ok? then [x.value] else [])
  {
    if results == [] {
      assert [] + [x] == [x];
    } else {
      var whole := results + [x];
      var first := if results[0].Ok? then [results[0].value] else [];
      assert whole[0] == results[0] && whole[1..] == results[1..] + [x];
      assert OkValues(whole) == first + OkValues(whole[1..]);
      OkValuesAppend(results[1..], x);
      assert OkValues(results) == first + OkValues(results[1..]);
    }
  }

  lemma {:induction false} ErrValuesAppend<S, E>(results: seq<Result<S, E>>, x: Result<S, E>)
    ensures ErrValues(results + [x]) == ErrValues(results) + (if x.Err? then [x.error] else [])
  {
    if results == [] {
      assert [] + [x] == [x];
    } else {
      var whole := results + [x];
      var first := if results[0].Err? then [results[0].error] else [];
      assert whole[0] == results[0] && whole[1..] == results[1..] + [x];
      assert ErrValues(whole) == first + ErrValues(whole[1..]);
      ErrValuesAppend(results[1..], x);
      assert ErrValues(results) == first + ErrValues(results[1..]);
    }
  }

  /** The successes are the `ok` values and the failures the `err` errors, each in
      input order. */
  lemma {:induction false} GroupResultsPartition<S, E>(results: seq<Result<S, E>>)
    ensures GroupResults(results).success == OkValues(results)
    ensures GroupResults(results).failure == ErrValues(results)
  {
    if results != [] {
      var init, last := results[..|results| - 1], results[|results| - 1];
      assert results == init + [last];
      GroupResultsPartition(init);
      OkValuesAppend(init, last);
      ErrValuesAppend(init, last);
    }
  }

  /** A value is among the successes exactly when some result is `ok` with it. */
  lemma {:induction false} OkValuesMembership<S, E>(results: seq<Result<S, E>>, v: S)
    ensures v in OkValues(results) <==> exists i :: 0 <= i < |results| && results[i] == Ok(v)
  {
    if results != [] {
      OkValuesMembership(results[1..], v);
      if exists i :: 0 <= i < |results[1..]| && results[1..][i] == Ok(v) {
        var i :| 0 <= i < |results[1..]| && results[1..][i] == Ok(v);
        assert results[i + 1] == Ok(v);
      }
      if exists i :: 0 <= i < |results| && results[i] == Ok(v) {
        var i :| 0 <= i < |results| && results[i] == Ok(v);
        if i > 0 { assert results[1..][i - 1] == Ok(v); }
      }
    }
  }

  /** Grouping distributes over concatenation. */
  lemma {:induction false} GroupResultsConcat<S, E>(a: seq<Result<S, E>>, b: seq<Result<S, E>>)
    ensures GroupResults(a + b) == Grouped(GroupResults(a).success + GroupResults(b).success,
                                           GroupResults(a).failure + GroupResults(b).failure)
  {
    GroupResultsPartition(a);
    GroupResultsPartition(b);
    GroupResultsPartition(a + b);
    OkValuesConcat(a, b);
    ErrValuesConcat(a, b);
  }

  lemma {:induction false} OkValuesConcat<S, E>(a: seq<Result<S, E>>, b: seq<Result<S, E>>)
    ensures OkValues(a + b) == OkValues(a) + OkValues(b)
  {
    if a == [] {
      assert a + b == b;
    } else {
      var whole := a + b;
      var first := if a[0].Ok? then [a[0].value] else [];
      assert whole[0] == a[0] && whole[1..] == a[1..] + b;
      assert OkValues(whole) == first + OkValues(whole[1..]);
      OkValuesConcat(a[1..], b);
      assert OkValues(a) == first + OkValues(a[1..]);
    }
  }

  lemma {:induction false} ErrValuesConcat<S, E>(a: seq<Result<S, E>>, b: seq<Result<S, E>>)
    ensures ErrValues(a + b) == ErrValues(a) + ErrValues(b)
  {
    if a == [] {
      assert a + b == b;
    } else {
      var whole := a + b;
      var first := if a[0].Err? then [a[0].error] else [];
      assert whole[0] == a[0] && whole[1..] == a[1..] + b;
      assert ErrValues(whole) == first + ErrValues(whole[1..]);
      ErrValuesConcat(a[1..], b);
      assert ErrValues(a) == first + ErrValues(a[1..]);
    }
  }
}
