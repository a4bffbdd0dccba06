/** src/utils/arrays.ts: `groupBy`, which walks a copy of the input array and builds
    a dictionary from each element's key (`String(element[key])`, an arbitrary
    function here) to the elements with that key. A group is created on the key's
    first element and appended to afterwards. The accumulator is a plain object, so
    a key that `Object.prototype` already provides is not `null` on first sight. */
module Arrays {
  import opened Wrappers
  import opened Records
  import opened Results

  /** The elements of `xs` whose key is `k`, in order. */
  function WithKey<T>(xs: seq<T>, keyOf: T -> string, k: string): seq<T> {
    if xs == [] then []
    else (if keyOf(xs[0]) == k then [xs[0]] else []) + WithKey(xs[1..], keyOf, k)
  }

  /** The number of elements held by all groups together. */
  function TotalSize<T>(groups: Record<seq<T>>): nat {
    if groups == [] then 0 else TotalSize(groups[..|groups| - 1]) + |groups[|groups| - 1].1|
  }

  lemma {:induction false} WithKeyAppend<T>(xs: seq<T>, x: T, keyOf: T -> string, k: string)
    ensures WithKey(xs + [x], keyOf, k) == WithKey(xs, keyOf, k) + (if keyOf(x) == k then [x] else [])
  {
    if xs == [] {
      assert [] + [x] == [x];
    } else {
      var whole := xs + [x];
      var first := if keyOf(xs[0]) == k then [xs[0]] else [];
      assert whole[0] == xs[0] && whole[1..] == xs[1..] + [x];
      assert WithKey(whole, keyOf, k) == first + WithKey(whole[1..], keyOf, k);
      WithKeyAppend(xs[1..], x, keyOf, k);
      assert WithKey(xs, keyOf, k) == first + WithKey(xs[1..], keyOf, k);
    }
  }

  lemma {:induction false} WithKeyNone<T>(xs: seq<T>, keyOf: T -> string, k: string)
    requires forall j :: 0 <= j < |xs| ==> keyOf(xs[j]) != k
    ensures WithKey(xs, keyOf, k) == []
  {
    if xs != [] {
      WithKeyNone(xs[1..], keyOf, k);
    }
  }

  lemma {:induction false} WithKeyMember<T>(xs: seq<T>, keyOf: T -> string, i: nat)
    requires i < |xs|
    ensures xs[i] in WithKey(xs, keyOf, keyOf(xs[i]))
  {
    if i > 0 {
      WithKeyMember(xs[1..], keyOf, i - 1);
    }
  }

  lemma {:induction false} TotalSizeUpdate<T>(groups: Record<seq<T>>, p: nat, e: (string, seq<T>))
    requires p < |groups|
    ensures TotalSize(groups[p := e]) + |groups[p].1| == TotalSize(groups) + |e.1|
    decreases |groups|
  {
    var n := |groups| - 1;
    if p < n {
      assert groups[p := e][..n] == groups[..n][p := e];
      TotalSizeUpdate(groups[..n], p, e);
    } else {
      assert groups[p := e][..n] == groups[..n];
    }
  }

  lemma TotalSizeAppend<T>(groups: Record<seq<T>>, e: (string, seq<T>))
    ensures TotalSize(groups + [e]) == TotalSize(groups) + |e.1|
  {
    assert (groups + [e])[..|groups|] == groups;
  }

  /** `groups` is the grouping of `xs`: one group per distinct key, each holding the
      elements with that key in order, none empty, all together holding `|xs|`. */
  ghost predicate GroupedBy<T>(groups: Record<seq<T>>, xs: seq<T>, keyOf: T -> string) {
    && KeysDistinct(groups)
    && (forall k :: k in Keys(groups) <==> exists j :: 0 <= j < |xs| && keyOf(xs[j]) == k)
    && (forall j :: 0 <= j < |groups| ==> groups[j].1 == WithKey(xs, keyOf, groups[j].0) && groups[j].1 != [])
    && TotalSize(groups) == |xs|
  }

  /** A key occurs in `xs + [x]` when it occurs in `xs` or is the key of `x`. */
  lemma OccursKeyAppend<T>(xs: seq<T>, x: T, keyOf: T -> string, key: string)
    ensures (exists j :: 0 <= j < |xs + [x]| && keyOf((xs + [x])[j]) == key)
        <==> (exists j :: 0 <= j < |xs| && keyOf(xs[j]) == key) || keyOf(x) == key
  {
    if keyOf(x) == key {
      assert (xs + [x])[|xs|] == x;
    }
    if exists j :: 0 <= j < |xs| && keyOf(xs[j]) == key {
      var j :| 0 <= j < |xs| && keyOf(xs[j]) == key;
      assert (xs + [x])[j] == xs[j];
    }
    if exists j :: 0 <= j < |xs + [x]| && keyOf((xs + [x])[j]) == key {
      var j :| 0 <= j < |xs + [x]| && keyOf((xs + [x])[j]) == key;
      if j < |xs| { assert (xs + [x])[j] == xs[j]; }
    }
  }

  /** The keys after adding `x` are the keys of the elements so far and `x`'s. */
  lemma KeysStep<T>(groups: Record<seq<T>>, next: Record<seq<T>>, xs: seq<T>, x: T, keyOf: T -> string)
    requires forall k :: k in Keys(groups) <==> exists j :: 0 <= j < |xs| && keyOf(xs[j]) == k
    requires forall k :: k in Keys(next) <==> k in Keys(groups) || k == keyOf(x)
    ensures forall k :: k in Keys(next) <==> exists j :: 0 <= j < |xs + [x]| && keyOf((xs + [x])[j]) == k
  {
    forall k ensures k in Keys(next) <==> exists j :: 0 <= j < |xs + [x]| && keyOf((xs + [x])[j]) == k {
      OccursKeyAppend(xs, x, keyOf, k);
    }
  }

  /** A group under a key other than `x`'s is unchanged by adding `x`. */
  lemma OtherGroupStays<T>(xs: seq<T>, x: T, keyOf: T -> string, e: (string, seq<T>))
    requires e.1 == WithKey(xs, keyOf, e.0) && e.1 != [] && e.0 != keyOf(x)
    ensures e.1 == WithKey(xs + [x], keyOf, e.0) && e.1 != []
  {
    WithKeyAppend(xs, x, keyOf, e.0);
  }

  lemma NewKeyContents<T>(groups: Record<seq<T>>, xs: seq<T>, x: T, keyOf: T -> string)
    requires forall j :: 0 <= j < |groups| ==> groups[j].1 == WithKey(xs, keyOf, groups[j].0) && groups[j].1 != []
    requires forall j :: 0 <= j < |xs| ==> keyOf(xs[j]) != keyOf(x)
    requires keyOf(x) !in Keys(groups)
    ensures var next := groups + [(keyOf(x), [x])];
      forall j :: 0 <= j < |next| ==> next[j].1 == WithKey(xs + [x], keyOf, next[j].0) && next[j].1 != []
  {
    var next := groups + [(keyOf(x), [x])];
    forall j | 0 <= j < |next| ensures next[j].1 == WithKey(xs + [x], keyOf, next[j].0) && next[j].1 != [] {
      if j < |groups| {
        assert Keys(groups)[j] == groups[j].0;
        OtherGroupStays(xs, x, keyOf, groups[j]);
      } else {
        WithKeyNone(xs, keyOf, keyOf(x));
        WithKeyAppend(xs, x, keyOf, keyOf(x));
      }
    }
  }

  lemma GroupNewKey<T>(groups: Record<seq<T>>, xs: seq<T>, x: T, keyOf: T -> string)
    requires GroupedBy(groups, xs, keyOf) && Get(groups, keyOf(x)).None?
    ensures GroupedBy(Set(groups, keyOf(x), [x]), xs + [x], keyOf)
  {
    var k := keyOf(x);
    var next := Set(groups, k, [x]);
    assert next == groups + [(k, [x])];
    SetPreservesDistinct(groups, k, [x]);
    TotalSizeAppend(groups, (k, [x]));
    KeysStep(groups, next, xs, x, keyOf);
    NewKeyContents(groups, xs, x, keyOf);
  }

  lemma ExistingKeyContents<T>(groups: Record<seq<T>>, xs: seq<T>, x: T, keyOf: T -> string, p: nat)
    requires KeysDistinct(groups) && p < |groups| && groups[p].0 == keyOf(x)
    requires forall j :: 0 <= j < |groups| ==> groups[j].1 == WithKey(xs, keyOf, groups[j].0) && groups[j].1 != []
    ensures var next := groups[p := (keyOf(x), groups[p].1 + [x])];
      forall j :: 0 <= j < |next| ==> next[j].1 == WithKey(xs + [x], keyOf, next[j].0) && next[j].1 != []
  {
    var next := groups[p := (keyOf(x), groups[p].1 + [x])];
    forall j | 0 <= j < |next| ensures next[j].1 == WithKey(xs + [x], keyOf, next[j].0) && next[j].1 != [] {
      if j != p {
        OtherGroupStays(xs, x, keyOf, groups[j]);
      } else {
        WithKeyAppend(xs, x, keyOf, keyOf(x));
      }
    }
  }

  lemma GroupExistingKey<T>(groups: Record<seq<T>>, xs: seq<T>, x: T, keyOf: T -> string, g: seq<T>)
    requires GroupedBy(groups, xs, keyOf) && Get(groups, keyOf(x)) == Some(g)
    ensures GroupedBy(Set(groups, keyOf(x), g + [x]), xs + [x], keyOf)
  {
    var k := keyOf(x);
    var p := FirstIndex(groups, k);
    var next := Set(groups, k, g + [x]);
    assert next == groups[p := (k, g + [x])];
    SetPreservesDistinct(groups, k, g + [x]);
    TotalSizeUpdate(groups, p, (k, g + [x]));
    KeysStep(groups, next, xs, x, keyOf);
    ExistingKeyContents(groups, xs, x, keyOf, p);
  }

  /** Every element sits in the group of its key. */
  lemma GroupedByHoldsEach<T>(groups: Record<seq<T>>, xs: seq<T>, keyOf: T -> string)
    requires GroupedBy(groups, xs, keyOf)
    ensures forall i :: 0 <= i < |xs| ==> Get(groups, keyOf(xs[i])).Some? && xs[i] in Get(groups, keyOf(xs[i])).value
  {
    forall i | 0 <= i < |xs| ensures Get(groups, keyOf(xs[i])).Some? && xs[i] in Get(groups, keyOf(xs[i])).value {
      var q := FirstIndex(groups, keyOf(xs[i]));
      WithKeyMember(xs, keyOf, i);
      assert Keys(groups)[q] == groups[q].0;
    }
  }

  /** Some element's key is inherited from `Object.prototype`. */
  ghost predicate AnyPrototypeKey<T>(xs: seq<T>, keyOf: T -> string) {
    exists j :: 0 <= j < |xs| && keyOf(xs[j]) in ObjectPrototypeNames
  }

  /** What `push` on an inherited, non-array value throws. */
  const PushNotAFunction := "acc[keyValue].push is not a function"

  /** `groupBy`: one group per distinct key, holding exactly the elements with that
      key in input order; no group is empty and the groups together hold every
      element once. A key inherited from `Object.prototype` reads as non-null, so
      `push` is called on it and throws. The input array is only read. */
  method GroupBy<T>(a: array<T>, keyOf: T -> string) returns (r: Completion<Record<seq<T>>>)
    ensures r.Thrown? <==> AnyPrototypeKey(a[..], keyOf)
    ensures r.Thrown? ==> r.thrown == PushNotAFunction
    ensures r.Normal? ==> KeysDistinct(r.value)
    ensures r.Normal? ==> forall k :: k in Keys(r.value) <==> exists i :: 0 <= i < a.Length && keyOf(a[i]) == k
    ensures r.Normal? ==> forall j :: 0 <= j < |r.value| ==> r.value[j].1 == WithKey(a[..], keyOf, r.value[j].0) && r.value[j].1 != []
    ensures r.Normal? ==> forall i :: 0 <= i < a.Length ==> Get(r.value, keyOf(a[i])).Some? && a[i] in Get(r.value, keyOf(a[i])).value
    ensures r.Normal? ==> TotalSize(r.value) == a.Length
  {
    var copy := a[..];
    r := GroupElements(copy, keyOf);
    if r.Normal? {
      GroupedByHoldsEach(r.value, copy, keyOf);
    }
  }

  /** The loop of `groupBy` over the copied elements: it stops at the first key
      inherited from `Object.prototype`. */
  method GroupElements<T>(xs: seq<T>, keyOf: T -> string) returns (r: Completion<Record<seq<T>>>)
    ensures r.Thrown? <==> AnyPrototypeKey(xs, keyOf)
    ensures r.Thrown? ==> r.thrown == PushNotAFunction
    ensures r.Normal? ==> GroupedBy(r.value, xs, keyOf)
  {
    var groups := [];
    for i := 0 to |xs|
      invariant GroupedBy(groups, xs[..i], keyOf)
      invariant forall j :: 0 <= j < i ==> keyOf(xs[j]) !in ObjectPrototypeNames
    {
      if keyOf(xs[i]) in ObjectPrototypeNames {
        return Thrown(PushNotAFunction);
      }
      groups := AddElement(groups, xs, i, keyOf);
    }
    assert xs[..|xs|] == xs;
    r := Normal(groups);
  }

  /** One step of the reduction: a new group for a new key, else a longer group. */
  method AddElement<T>(groups: Record<seq<T>>, xs: seq<T>, i: nat, keyOf: T -> string) returns (next: Record<seq<T>>)
    requires i < |xs| && GroupedBy(groups, xs[..i], keyOf)
    ensures GroupedBy(next, xs[..i + 1], keyOf)
  {
    var k := keyOf(xs[i]);
    assert xs[..i + 1] == xs[..i] + [xs[i]];
    match Get(groups, k)
    case None =>
      GroupNewKey(groups, xs[..i], xs[i], keyOf);
      next := Set(groups, k, [xs[i]]);
    case Some(g) =>
      GroupExistingKey(groups, xs[..i], xs[i], keyOf, g);
      next := Set(groups, k, g + [xs[i]]);
  }
}
