/** A JavaScript object used as a dictionary (`Record<string, V>`): its own
    properties in the order they were created. Assigning to a key that is already
    present replaces the value where it stands; assigning to a new key appends it.
    `Object.entries` does not list them in that order: array-index keys come first,
    in ascending numeric order, and the others follow in creation order (`Entries`).
    A `__proto__` assignment creates no property at all (`Assign`). */
module Records {
  import opened Wrappers

  type Record<V> = seq<(string, V)>

  /** The keys in the order their properties were created. */
  function Keys<V>(r: Record<V>): (ks: seq<string>)
    ensures |ks| == |r|
    ensures forall i :: 0 <= i < |r| ==> ks[i] == r[i].0
  {
    if r == [] then [] else [r[0].0] + Keys(r[1..])
  }

  predicate KeysDistinct<V>(r: Record<V>) {
    forall i, j :: 0 <= i < j < |r| ==> r[i].0 != r[j].0
  }

  /** The position of the first entry whose key is `k`. */
  function FirstIndex<V>(r: Record<V>, k: string): (i: nat)
    requires k in Keys(r)
    ensures i < |r| && r[i].0 == k
    ensures forall j :: 0 <= j < i ==> r[j].0 != k
  {
    if r[0].0 == k then 0
    else
      assert Keys(r) == [r[0].0] + Keys(r[1..]);
      FirstIndex(r[1..], k) + 1
  }

  /** `r[k]`, `None` for `undefined`. */
  function Get<V>(r: Record<V>, k: string): (v: Option<V>)
    ensures v.None? <==> k !in Keys(r)
  {
    if k in Keys(r) then Some(r[FirstIndex(r, k)].1) else None
  }

  /** `r[k] = v`. */
  function Set<V>(r: Record<V>, k: string, v: V): (r': Record<V>)
    ensures Keys(r') == if k in Keys(r) then Keys(r) else Keys(r) + [k]
  {
    if k in Keys(r) then
      var r' := r[FirstIndex(r, k) := (k, v)];
      assert Keys(r') == Keys(r);
      r'
    else
      var r' := r + [(k, v)];
      assert Keys(r') == Keys(r) + [k];
      r'
  }

  lemma SetPreservesDistinct<V>(r: Record<V>, k: string, v: V)
    requires KeysDistinct(r)
    ensures KeysDistinct(Set(r, k, v))
  {
    var r' := Set(r, k, v);
    forall i, j | 0 <= i < j < |r'| ensures r'[i].0 != r'[j].0 {
      assert Keys(r')[i] == r'[i].0 && Keys(r')[j] == r'[j].0;
      if k !in Keys(r) && j == |r| {
        assert Keys(r)[i] == r[i].0;
      } else {
        assert Keys(r)[i] == r[i].0 && Keys(r)[j] == r[j].0;
      }
    }
  }

  /** After `r[k] = v`, reading `k` gives `v`. */
  lemma SetGetSame<V>(r: Record<V>, k: string, v: V)
    ensures Get(Set(r, k, v), k) == Some(v)
  {
    var r' := Set(r, k, v);
    assert Keys(r')[|r'| - 1] == r'[|r'| - 1].0;
  }

  /** `r[k] = v` leaves every other key reading as before. */
  lemma SetGetOther<V>(r: Record<V>, k: string, v: V, k': string)
    requires k' != k
    ensures Get(Set(r, k, v), k') == Get(r, k')
  {
    var r' := Set(r, k, v);
    if k' in Keys(r) {
      var i := FirstIndex(r, k');
      assert r'[i] == r[i];
    }
  }

  /** `Object.fromEntries(entries)`: the entries assigned one after the other. */
  function FromEntries<V>(entries: seq<(string, V)>): Record<V> {
    if entries == [] then []
    else Set(FromEntries(entries[..|entries| - 1]), entries[|entries| - 1].0, entries[|entries| - 1].1)
  }

  /** With distinct keys, the object lists exactly the given entries, in order. */
  lemma {:induction false} FromEntriesDistinct<V>(entries: seq<(string, V)>)
    requires KeysDistinct(entries)
    ensures FromEntries(entries) == entries
  {
    if entries != [] {
      var init, last := entries[..|entries| - 1], entries[|entries| - 1];
      FromEntriesDistinct(init);
      assert last.0 !in Keys(init) by {
        forall i | 0 <= i < |init| ensures Keys(init)[i] != last.0 {
          assert init[i] == entries[i];
        }
      }
      assert entries == init + [last];
    }
  }

  /** With distinct keys, each entry is what its key reads. */
  lemma GetDistinct<V>(r: Record<V>, i: nat)
    requires KeysDistinct(r) && i < |r|
    ensures Get(r, r[i].0) == Some(r[i].1)
  {
    assert Keys(r)[i] == r[i].0;
    var j := FirstIndex(r, r[i].0);
    assert j == i;
  }

  // ---------------------------------------------------------------------------
  // Assignment on a plain object

  /** The property names a plain object inherits from `Object.prototype`. */
  const ObjectPrototypeNames: set<string> := {
    "constructor", "__defineGetter__", "__defineSetter__", "hasOwnProperty", "__lookupGetter__",
    "__lookupSetter__", "isPrototypeOf", "propertyIsEnumerable", "toString", "valueOf",
    "__proto__", "toLocaleString"
  }

  /** The key whose assignment goes to the inherited accessor of `Object.prototype`. */
  const ProtoKey: string := "__proto__"

  /** `r[k] = v` with an object `v`: under `__proto__` the inherited setter replaces
      the prototype and no property is created; any other key is an own property. */
  function Assign<V>(r: Record<V>, k: string, v: V): (r': Record<V>)
    ensures Keys(r') == if k == ProtoKey || k in Keys(r) then Keys(r) else Keys(r) + [k]
  {
    if k == ProtoKey then r else Set(r, k, v)
  }

  lemma AssignPreservesDistinct<V>(r: Record<V>, k: string, v: V)
    requires KeysDistinct(r)
    ensures KeysDistinct(Assign(r, k, v))
  {
    if k != ProtoKey {
      SetPreservesDistinct(r, k, v);
    }
  }

  /** After `r[k] = v`, reading `k` as an own property gives `v`, except under
      `__proto__`, which is left as it was. */
  lemma AssignGetSame<V>(r: Record<V>, k: string, v: V)
    ensures Get(Assign(r, k, v), k) == if k == ProtoKey then Get(r, k) else Some(v)
  {
    if k != ProtoKey {
      SetGetSame(r, k, v);
    }
  }

  /** `r[k] = v` leaves every other key reading as before. */
  lemma AssignGetOther<V>(r: Record<V>, k: string, v: V, k': string)
    requires k' != k
    ensures Get(Assign(r, k, v), k') == Get(r, k')
  {
    if k != ProtoKey {
      SetGetOther(r, k, v, k');
    }
  }

  // ---------------------------------------------------------------------------
  // The enumeration order of `Object.entries`

  predicate IsDigit(c: char) {
    '0' <= c <= '9'
  }

  /** The number a string of decimal digits denotes. */
  function NumericValue(s: string): int {
    if s == [] then 0 else NumericValue(s[..|s| - 1]) * 10 + (s[|s| - 1] as int - '0' as int)
  }

  /** A key that is an array index: the canonical decimal form of an integer below
      2^32 - 1 (no sign, no leading zero except `0` itself). */
  predicate IsArrayIndex(k: string) {
    && |k| > 0
    && (forall i :: 0 <= i < |k| ==> IsDigit(k[i]))
    && (k[0] != '0' || |k| == 1)
    && NumericValue(k) < 0xFFFF_FFFF
  }

  /** The entries whose keys are array indices, in creation order. */
  function IndexEntries<V>(r: Record<V>): (es: Record<V>)
    ensures forall i :: 0 <= i < |es| ==> IsArrayIndex(es[i].0)
  {
    if r == [] then []
    else (if IsArrayIndex(r[0].0) then [r[0]] else []) + IndexEntries(r[1..])
  }

  /** The other entries, in creation order. */
  function OtherEntries<V>(r: Record<V>): (es: Record<V>)
    ensures forall i :: 0 <= i < |es| ==> !IsArrayIndex(es[i].0)
  {
    if r == [] then []
    else (if IsArrayIndex(r[0].0) then [] else [r[0]]) + OtherEntries(r[1..])
  }

  predicate SortedByIndex<V>(es: Record<V>) {
    forall i, j :: 0 <= i < j < |es| ==> NumericValue(es[i].0) <= NumericValue(es[j].0)
  }

  /** `e` placed before the first entry of `sorted` with a larger index. */
  function InsertByIndex<V>(e: (string, V), sorted: Record<V>): (r: Record<V>)
    ensures |r| == |sorted| + 1
  {
    if sorted == [] || NumericValue(e.0) <= NumericValue(sorted[0].0) then [e] + sorted
    else [sorted[0]] + InsertByIndex(e, sorted[1..])
  }

  lemma {:induction false} InsertByIndexPermutes<V>(e: (string, V), sorted: Record<V>)
    ensures multiset(InsertByIndex(e, sorted)) == multiset{e} + multiset(sorted)
  {
    if !(sorted == [] || NumericValue(e.0) <= NumericValue(sorted[0].0)) {
      InsertByIndexPermutes(e, sorted[1..]);
      assert sorted == [sorted[0]] + sorted[1..];
    }
  }

  /** An entry below every entry of a sorted record can be put in front of it. */
  lemma ConsSorted<V>(x: (string, V), rest: Record<V>)
    requires SortedByIndex(rest)
    requires forall k :: 0 <= k < |rest| ==> NumericValue(x.0) <= NumericValue(rest[k].0)
    ensures SortedByIndex([x] + rest)
  {
    var r := [x] + rest;
    forall i, j | 0 <= i < j < |r| ensures NumericValue(r[i].0) <= NumericValue(r[j].0) {
      assert r[j] == rest[j - 1];
      if i > 0 {
        assert r[i] == rest[i - 1];
      }
    }
  }

  /** A bound below `e` and below every entry of `sorted` stays below after insertion. */
  lemma {:induction false} InsertByIndexAbove<V>(e: (string, V), sorted: Record<V>, b: int)
    requires b <= NumericValue(e.0)
    requires forall k :: 0 <= k < |sorted| ==> b <= NumericValue(sorted[k].0)
    ensures forall k :: 0 <= k < |InsertByIndex(e, sorted)| ==> b <= NumericValue(InsertByIndex(e, sorted)[k].0)
  {
    if !(sorted == [] || NumericValue(e.0) <= NumericValue(sorted[0].0)) {
      var tail := sorted[1..];
      assert forall k :: 0 <= k < |tail| ==> tail[k] == sorted[k + 1];
      InsertByIndexAbove(e, tail, b);
      var rest := InsertByIndex(e, tail);
      var r := [sorted[0]] + rest;
      forall k | 0 <= k < |r| ensures b <= NumericValue(r[k].0) {
        if k > 0 {
          assert r[k] == rest[k - 1];
          assert b <= NumericValue(rest[k - 1].0);
        } else {
          assert r[0] == sorted[0];
          assert b <= NumericValue(sorted[0].0);
        }
      }
    }
  }

  lemma {:induction false} InsertByIndexSorted<V>(e: (string, V), sorted: Record<V>)
    requires SortedByIndex(sorted)
    ensures SortedByIndex(InsertByIndex(e, sorted))
  {
    if sorted == [] || NumericValue(e.0) <= NumericValue(sorted[0].0) {
      ConsSorted(e, sorted);
    } else {
      var tail := sorted[1..];
      assert forall k :: 0 <= k < |tail| ==> tail[k] == sorted[k + 1];
      assert forall k :: 0 <= k < |tail| ==> NumericValue(sorted[0].0) <= NumericValue(tail[k].0);
      InsertByIndexSorted(e, tail);
      InsertByIndexAbove(e, tail, NumericValue(sorted[0].0));
      ConsSorted(sorted[0], InsertByIndex(e, tail));
    }
  }

  /** The entries ordered by their numeric index, by insertion. */
  function SortByIndex<V>(es: Record<V>): (r: Record<V>)
    ensures |r| == |es|
  {
    if es == [] then [] else InsertByIndex(es[0], SortByIndex(es[1..]))
  }

  /** Sorting by index permutes the entries and orders them. */
  lemma {:induction false} SortByIndexSpec<V>(es: Record<V>)
    ensures multiset(SortByIndex(es)) == multiset(es)
    ensures SortedByIndex(SortByIndex(es))
  {
    if es != [] {
      SortByIndexSpec(es[1..]);
      InsertByIndexPermutes(es[0], SortByIndex(es[1..]));
      InsertByIndexSorted(es[0], SortByIndex(es[1..]));
      assert es == [es[0]] + es[1..];
    }
  }

  /** `Object.entries(r)`: the array-index entries in ascending numeric order, then
      the others in creation order. */
  function Entries<V>(r: Record<V>): Record<V> {
    SortByIndex(IndexEntries(r)) + OtherEntries(r)
  }

  lemma {:induction false} SplitEntries<V>(r: Record<V>)
    ensures multiset(IndexEntries(r)) + multiset(OtherEntries(r)) == multiset(r)
  {
    if r != [] {
      SplitEntries(r[1..]);
      assert r == [r[0]] + r[1..];
      assert multiset(r) == multiset{r[0]} + multiset(r[1..]);
      if IsArrayIndex(r[0].0) {
        assert IndexEntries(r) == [r[0]] + IndexEntries(r[1..]);
        assert OtherEntries(r) == OtherEntries(r[1..]);
      } else {
        assert IndexEntries(r) == IndexEntries(r[1..]);
        assert OtherEntries(r) == [r[0]] + OtherEntries(r[1..]);
      }
    }
  }

  /** `Object.entries` lists every entry once: a permutation of the record. */
  lemma EntriesPermutation<V>(r: Record<V>)
    ensures multiset(Entries(r)) == multiset(r) && |Entries(r)| == |r|
  {
    SplitEntries(r);
    SortByIndexSpec(IndexEntries(r));
    assert |multiset(Entries(r))| == |Entries(r)| && |multiset(r)| == |r|;
  }

  /** The array-index entries come first, in ascending numeric order, and the others
      follow exactly as they were created. */
  lemma EntriesOrder<V>(r: Record<V>)
    ensures var n := |IndexEntries(r)|;
      && (forall i :: 0 <= i < n ==> IsArrayIndex(Entries(r)[i].0))
      && (forall i, j :: 0 <= i < j < n ==> NumericValue(Entries(r)[i].0) <= NumericValue(Entries(r)[j].0))
      && Entries(r)[n..] == OtherEntries(r)
  {
    var sorted := SortByIndex(IndexEntries(r));
    SortByIndexSpec(IndexEntries(r));
    forall i | 0 <= i < |sorted| ensures IsArrayIndex(sorted[i].0) {
      assert sorted[i] in multiset(IndexEntries(r));
    }
  }

  /** Without array-index keys, `Object.entries` lists the entries in creation order. */
  lemma {:induction false} EntriesWithoutIndexKeys<V>(r: Record<V>)
    requires forall i :: 0 <= i < |r| ==> !IsArrayIndex(r[i].0)
    ensures Entries(r) == r
  {
    NoIndexEntries(r);
  }

  lemma {:induction false} NoIndexEntries<V>(r: Record<V>)
    requires forall i :: 0 <= i < |r| ==> !IsArrayIndex(r[i].0)
    ensures IndexEntries(r) == [] && OtherEntries(r) == r
  {
    if r != [] {
      assert forall i :: 0 <= i < |r[1..]| ==> r[1..][i] == r[i + 1];
      NoIndexEntries(r[1..]);
    }
  }
}
