/** The two insertion-ordered JavaScript collections the combine engine
    uses: `[...new Set(xs)]` and a `Map` from string keys to row lists. */
module JsCollections {

  /** No element occurs twice. */
  predicate Distinct(s: seq<string>)
  {
    forall i, j :: 0 <= i < j < |s| ==> s[i] != s[j]
  }

  /** The index of the first occurrence of `x` in `s`. */
  function FirstIndex(s: seq<string>, x: string): (r: nat)
    requires x in s
    ensures r < |s| && s[r] == x
    ensures forall k :: 0 <= k < r ==> s[k] != x
  {
    if s[0] == x then 0 else 1 + FirstIndex(s[1..], x)
  }

  /** `[...new Set(s)]`: each element of `s` once, in the order in which the
      Set first saw it (a later repeat is not added again). */
  function Dedup(s: seq<string>): (r: seq<string>)
    ensures forall x :: x in r <==> x in s
    ensures Distinct(r)
    ensures |r| <= |s|
  {
    if |s| == 0 then []
    else
      var init, last := s[..|s| - 1], s[|s| - 1];
      assert s == init + [last];
      var d := Dedup(init);
      if last in d then d else d + [last]
  }

  /** Any index whose element is `x` bounds its first index from above. */
  lemma FirstIndexFirst(s: seq<string>, x: string, k: nat)
    requires k < |s| && s[k] == x
    ensures FirstIndex(s, x) <= k
  {
  }

  /** An element not seen before position `n` first occurs at `n`. */
  lemma FirstIndexOfNew(s: seq<string>, n: nat)
    requires n < |s| && s[n] !in s[..n]
    ensures FirstIndex(s, s[n]) == n
  {
    FirstIndexFirst(s, s[n], n);
  }

  /** Appending an element does not move the first occurrence of an
      element already present. */
  lemma FirstIndexInPrefix(s: seq<string>, n: nat, x: string)
    requires n <= |s| && x in s[..n]
    ensures FirstIndex(s, x) == FirstIndex(s[..n], x)
  {
    var f := FirstIndex(s[..n], x);
    assert s[f] == x;
    FirstIndexFirst(s, x, f);
    var g := FirstIndex(s, x);
    assert s[..g] == s[..n][..g];
  }

  /** Every element of `r` occurs in `s`, and the elements of `r` first
      occur in `s` in the order in which `r` lists them. */
  ghost predicate KeepsFirstOrder(s: seq<string>, r: seq<string>)
  {
    (forall x :: x in r ==> x in s)
    && forall i, j :: 0 <= i < j < |r| ==> FirstIndex(s, r[i]) < FirstIndex(s, r[j])
  }

  /** The Set keeps first occurrences in their original relative order. */
  lemma {:induction false} DedupKeepsFirstOccurrenceOrder(s: seq<string>)
    ensures KeepsFirstOrder(s, Dedup(s))
  {
    if |s| > 0 {
      var init := s[..|s| - 1];
      DedupKeepsFirstOccurrenceOrder(init);
      var r := Dedup(s);
      forall i, j | 0 <= i < j < |r| ensures FirstIndex(s, r[i]) < FirstIndex(s, r[j]) {
        DedupOrderStep(s, init, i, j);
      }
    }
  }

  /** One pair of positions in the inductive step of the lemma above. */
  lemma DedupOrderStep(s: seq<string>, init: seq<string>, i: nat, j: nat)
    requires |s| > 0 && init == s[..|s| - 1]
    requires KeepsFirstOrder(init, Dedup(init))
    requires i < j < |Dedup(s)|
    ensures FirstIndex(s, Dedup(s)[i]) < FirstIndex(s, Dedup(s)[j])
  {
    var n := |s| - 1;
    var last := s[n];
    var d, r := Dedup(init), Dedup(s);
    assert r == if last in d then d else d + [last];
    assert r[i] == d[i] && r[i] in init;
    FirstIndexInPrefix(s, n, r[i]);
    if j < |d| {
      assert r[j] == d[j] && r[j] in init;
      FirstIndexInPrefix(s, n, r[j]);
    } else {
      assert r[j] == last && last !in init;
      FirstIndexOfNew(s, n);
    }
  }

  /** A list that is already free of repeats passes through the Set unchanged. */
  lemma {:induction false} DedupOfDistinct(s: seq<string>)
    requires Distinct(s)
    ensures Dedup(s) == s
  {
    if |s| > 0 {
      var init, last := s[..|s| - 1], s[|s| - 1];
      assert s == init + [last];
      DedupOfDistinct(init);
      assert last !in init;
    }
  }

  /** A JavaScript `Map<string, string[]>`: the keys in insertion order and
      the list each key is bound to. */
  class InsertionMap {
    var keys: seq<string>
    var entries: map<string, seq<string>>

    ghost predicate Valid()
      reads this
    {
      Distinct(keys) && forall k :: k in entries <==> k in keys
    }

    /** `new Map()` */
    constructor ()
      ensures Valid() && keys == [] && entries == map[]
    {
      keys := [];
      entries := map[];
    }

    /** `map.has(k)` */
    method Has(k: string) returns (b: bool)
      requires Valid()
      ensures b <==> k in keys
    {
      b := k in entries;
    }

    /** `map.set(k, v)`: a new key goes last, an existing key keeps its place. */
    method Set(k: string, v: seq<string>)
      requires Valid()
      modifies this
      ensures Valid()
      ensures keys == if k in old(keys) then old(keys) else old(keys) + [k]
      ensures entries == old(entries)[k := v]
    {
      if k !in entries {
        keys := keys + [k];
      }
      entries := entries[k := v];
    }

    /** `map.get(k).push(x)`: the list bound to `k` grows by `x` in place. */
    method Push(k: string, x: string)
      requires Valid() && k in keys
      modifies this
      ensures Valid() && keys == old(keys)
      ensures entries == old(entries)[k := old(entries)[k] + [x]]
    {
      entries := entries[k := entries[k] + [x]];
    }
  }
}
