/** Request normalisation: the `_ids` and `_disabled` getters. */
module Normalize {
  import opened Domain

  predicate NoDuplicates(s: seq<Id>)
  {
    forall i, j :: 0 <= i < j < |s| ==> s[i] != s[j]
  }

  /** Position of the first occurrence of `x` in `s`. */
  function IndexOf(s: seq<Id>, x: Id): (k: nat)
    requires x in s
    ensures k < |s| && s[k] == x
    ensures x !in s[..k]
  {
    if s[0] == x then 0
    else
      var k' := IndexOf(s[1..], x);
      assert s[..1 + k'] == [s[0]] + s[1..][..k'];
      1 + k'
  }

  /** A first occurrence is determined by the element alone. */
  lemma IndexOfUnique(s: seq<Id>, x: Id, k: nat)
    requires k < |s| && s[k] == x && x !in s[..k]
    ensures IndexOf(s, x) == k
  {
    var m := IndexOf(s, x);
    assert forall j :: 0 <= j < k ==> s[..k][j] == s[j];
    assert forall j :: 0 <= j < m ==> s[..m][j] == s[j];
  }

  /** Extending a sequence does not move first occurrences already present. */
  lemma IndexOfPrefix(s: seq<Id>, n: nat, x: Id)
    requires n <= |s| && x in s[..n]
    ensures IndexOf(s, x) == IndexOf(s[..n], x)
  {
    var k := IndexOf(s[..n], x);
    assert s[..n][..k] == s[..k];
    IndexOfUnique(s, x, k);
  }

  /** `[...new Set(items)]`: the distinct elements of `items`, each at its
      first occurrence, in insertion order. */
  function Dedup(items: seq<Id>): (r: seq<Id>)
    ensures forall x :: x in r <==> x in items
    ensures NoDuplicates(r)
    ensures forall i, j :: 0 <= i < j < |r| ==> IndexOf(items, r[i]) < IndexOf(items, r[j])
  {
    if |items| == 0 then []
    else
      var n := |items| - 1;
      var kept := Dedup(items[..n]);
      var last := items[n];
      assert items == items[..n] + [last];
      DedupOrderExtends(items, n, kept);
      if last in kept then kept
      else
        IndexOfUnique(items, last, n);
        kept + [last]
  }

  /** The order of `Dedup(items[..n])` read against the prefix carries over to
      the whole of `items`. */
  lemma DedupOrderExtends(items: seq<Id>, n: nat, kept: seq<Id>)
    requires n <= |items|
    requires forall x :: x in kept <==> x in items[..n]
    ensures forall x :: x in kept ==> x in items && IndexOf(items, x) == IndexOf(items[..n], x) < n
  {
    forall x | x in kept
      ensures x in items && IndexOf(items, x) == IndexOf(items[..n], x) < n
    {
      var k := IndexOf(items[..n], x);
      assert items[k] == x;
      IndexOfPrefix(items, n, x);
    }
  }

  /** `a` lists elements of `s` in strictly increasing first-occurrence order. */
  predicate FirstOccurrenceOrdered(s: seq<Id>, a: seq<Id>)
  {
    && (forall x :: x in a ==> x in s)
    && (forall i, j :: 0 <= i < j < |a| ==> IndexOf(s, a[i]) < IndexOf(s, a[j]))
  }

  lemma OrderedTail(s: seq<Id>, a: seq<Id>)
    requires |a| > 0 && FirstOccurrenceOrdered(s, a)
    ensures FirstOccurrenceOrdered(s, a[1..])
    ensures a[0] !in a[1..]
    ensures forall x :: x in a[1..] ==> IndexOf(s, a[0]) < IndexOf(s, x)
  {
    forall x | x in a[1..]
      ensures IndexOf(s, a[0]) < IndexOf(s, x)
    {
      var i :| 1 <= i < |a| && a[i] == x;
    }
  }

  /** Two sequences with the same elements, both strictly ordered by first
      occurrence in `s`, are equal. */
  lemma {:induction false} OrderedByFirstOccurrenceUnique(s: seq<Id>, a: seq<Id>, b: seq<Id>)
    requires FirstOccurrenceOrdered(s, a) && FirstOccurrenceOrdered(s, b)
    requires forall x :: x in a <==> x in b
    ensures a == b
    decreases |a|
  {
    assert |a| > 0 ==> a[0] in a;
    assert |b| > 0 ==> b[0] in b;
    if |a| == 0 || |b| == 0 {
    } else {
      OrderedTail(s, a);
      OrderedTail(s, b);
      assert a[0] == b[0] by {
        assert s[IndexOf(s, a[0])] == a[0];
      }
      assert a == [a[0]] + a[1..];
      assert b == [b[0]] + b[1..];
      forall x
        ensures x in a[1..] <==> x in b[1..]
      {
        assert x in a <==> x == a[0] || x in a[1..];
        assert x in b <==> x == b[0] || x in b[1..];
      }
      OrderedByFirstOccurrenceUnique(s, a[1..], b[1..]);
    }
  }

  /** `Dedup` is the ONLY sequence with its three properties: the same
      elements as the input, and those in strict first-occurrence order. */
  lemma DedupCharacterized(items: seq<Id>, r: seq<Id>)
    requires forall x :: x in r <==> x in items
    requires forall i, j :: 0 <= i < j < |r| ==> IndexOf(items, r[i]) < IndexOf(items, r[j])
    ensures r == Dedup(items)
  {
    assert FirstOccurrenceOrdered(items, Dedup(items));
    OrderedByFirstOccurrenceUnique(items, r, Dedup(items));
  }

  /** Deduplicating a duplicate-free list leaves it as it is. */
  lemma DedupOfDistinct(s: seq<Id>)
    requires NoDuplicates(s)
    ensures Dedup(s) == s
  {
    forall i, j | 0 <= i < j < |s|
      ensures IndexOf(s, s[i]) < IndexOf(s, s[j])
    {
      IndexOfUnique(s, s[i], i);
      IndexOfUnique(s, s[j], j);
    }
    DedupCharacterized(s, s);
  }

  /** Deduplication is idempotent. */
  lemma DedupIdempotent(s: seq<Id>)
    ensures Dedup(Dedup(s)) == Dedup(s)
  {
    DedupOfDistinct(Dedup(s));
  }

  /** The `_ids` getter: a truthy non-array value becomes a one-element list,
      an array is deduplicated, a falsy value becomes the empty list (the
      empty string is falsy and `new Set("")` is empty). */
  function NormalizedIds(ids: IdsField): (r: seq<Id>)
    ensures NoDuplicates(r)
    ensures forall x :: x in r <==>
      (ids.List? && x in ids.items) || (ids.Scalar? && ids.value != "" && x == ids.value)
    ensures ids.Scalar? && ids.value != "" ==> r == [ids.value]
    ensures |r| == 0 <==> ids.Absent? || ids == Scalar("") || ids == List([])
    ensures ids.List? ==> r == Dedup(ids.items)
  {
    match ids
    case Scalar(v) => if v != "" then [v] else []
    case List(items) =>
      var r := Dedup(items);
      assert |items| > 0 ==> items[0] in r;
      r
    case Absent => []
  }

  /** The `_disabled` getter: `!!data.disabled`, so a missing flag means
      "enable". */
  function TargetDisabled(disabled: Option<bool>): (r: bool)
    ensures disabled.None? ==> !r
    ensures disabled == Some(false) ==> !r
    ensures disabled == Some(true) ==> r
  {
    disabled == Some(true)
  }
}
