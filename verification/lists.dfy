/** The list primitives both stores are built from.

    The service keeps each collection as a plain list and every endpoint is
    a linear scan over it: "the first record whose key equals k", "all
    records whose key equals k, in list order", "drop the record at
    position i".  They are stated here once, generically in the record type
    `T` and a key projection `key: T -> K`, and instantiated by the item
    store (key = id or category) and the order store (key = id or status).

    Identifiers are not assumed to be unique: the source never checks it,
    so every lookup is phrased in terms of the FIRST matching position.
 */
module Lists {
  import opened Results

  /** Some record of `s` has key `k`. */
  predicate Occurs<T, K(==)>(s: seq<T>, key: T -> K, k: K)
  {
    exists i :: 0 <= i < |s| && key(s[i]) == k
  }

  /** `i` is the first position of `s` whose record has key `k`. */
  predicate IsFirst<T, K(==)>(s: seq<T>, key: T -> K, k: K, i: int)
  {
    && 0 <= i < |s|
    && key(s[i]) == k
    && forall j :: 0 <= j < i ==> key(s[j]) != k
  }

  /** No two records of `s` share a key. */
  predicate Distinct<T, K(==)>(s: seq<T>, key: T -> K)
  {
    forall i, j :: 0 <= i < j < |s| ==> key(s[i]) != key(s[j])
  }

  /** The linear scan `for i, x in enumerate(s): if key(x) == k: ...`:
      the first matching position, or None when the scan runs off the end. */
  function IndexOf<T, K(==)>(s: seq<T>, key: T -> K, k: K): (r: Option<nat>)
    ensures r.Some? ==> IsFirst(s, key, k, r.value)
    ensures r.None? <==> !Occurs(s, key, k)
    decreases |s|
  {
    if |s| == 0 then None
    else if key(s[0]) == k then Some(0)
    else
      match IndexOf(s[1..], key, k)
      case None =>
        assert forall i :: 0 < i < |s| ==> s[i] == s[1..][i - 1];
        None
      case Some(i) =>
        assert s[1..][i] == s[i + 1];
        Some(i + 1)
  }

  /** There is at most one first match. */
  lemma FirstIsUnique<T, K>(s: seq<T>, key: T -> K, k: K, i: int, j: int)
    requires IsFirst(s, key, k, i) && IsFirst(s, key, k, j)
    ensures i == j
  {
  }

  /** A key that occurs has a first position, and it is the one the scan finds. */
  lemma OccursHasFirst<T, K>(s: seq<T>, key: T -> K, k: K) returns (i: nat)
    requires Occurs(s, key, k)
    ensures IsFirst(s, key, k, i)
    ensures IndexOf(s, key, k) == Some(i)
  {
    i := IndexOf(s, key, k).value;
  }

  /** The list comprehension `[x for x in s if key(x) == k]`. */
  function Select<T, K(==)>(s: seq<T>, key: T -> K, k: K): (r: seq<T>)
    ensures |r| <= |s|
    ensures forall x :: x in r ==> x in s && key(x) == k
    ensures forall i :: 0 <= i < |s| && key(s[i]) == k ==> s[i] in r
    decreases |s|
  {
    if |s| == 0 then []
    else
      var rest := Select(s[1..], key, k);
      assert forall i :: 1 <= i < |s| ==> s[i] == s[1..][i - 1];
      if key(s[0]) == k then [s[0]] + rest else rest
  }

  /** Selecting from a concatenation selects from each part, in order:
      the selection keeps the list's order. */
  lemma {:induction false} SelectAppend<T, K>(a: seq<T>, b: seq<T>, key: T -> K, k: K)
    ensures Select(a + b, key, k) == Select(a, key, k) + Select(b, key, k)
    decreases |a|
  {
    if |a| == 0 {
      assert a + b == b;
    } else {
      assert (a + b)[1..] == a[1..] + b;
      SelectAppend(a[1..], b, key, k);
    }
  }

  /** Every matching record is kept as many times as it occurs, and no
      other record is kept: the selection is exactly the matching part of
      the list, counted with multiplicity. */
  lemma {:induction false} SelectMultiplicity<T, K>(s: seq<T>, key: T -> K, k: K, x: T)
    ensures multiset(Select(s, key, k))[x] == if key(x) == k then multiset(s)[x] else 0
    decreases |s|
  {
    if |s| > 0 {
      SelectMultiplicity(s[1..], key, k, x);
      assert s == [s[0]] + s[1..];
    }
  }

  /** A list whose records all match selects to itself. */
  lemma {:induction false} SelectAll<T, K>(s: seq<T>, key: T -> K, k: K)
    requires forall i :: 0 <= i < |s| ==> key(s[i]) == k
    ensures Select(s, key, k) == s
    decreases |s|
  {
    if |s| > 0 {
      SelectAll(s[1..], key, k);
    }
  }

  /** A list with no matching record selects to nothing. */
  lemma {:induction false} SelectNone<T, K>(s: seq<T>, key: T -> K, k: K)
    requires forall i :: 0 <= i < |s| ==> key(s[i]) != k
    ensures Select(s, key, k) == []
    decreases |s|
  {
    if |s| > 0 {
      SelectNone(s[1..], key, k);
    }
  }

  /** Selecting twice with the same key is selecting once. */
  lemma SelectIdempotent<T, K>(s: seq<T>, key: T -> K, k: K)
    ensures Select(Select(s, key, k), key, k) == Select(s, key, k)
  {
    var r := Select(s, key, k);
    forall i | 0 <= i < |r|
      ensures key(r[i]) == k
    {
      assert r[i] in r;
    }
    SelectAll(r, key, k);
  }

  /** `s.pop(i)`: the list without position `i`, everything else in order. */
  function RemoveAt<T>(s: seq<T>, i: nat): (r: seq<T>)
    requires i < |s|
    ensures |r| == |s| - 1
    ensures forall j :: 0 <= j < i ==> r[j] == s[j]
    ensures forall j :: i <= j < |r| ==> r[j] == s[j + 1]
  {
    s[..i] + s[i + 1..]
  }

  /** Putting the removed record back where it was restores the list, so
      removal loses exactly that one record. */
  lemma RemoveAtRestores<T>(s: seq<T>, i: nat)
    requires i < |s|
    ensures RemoveAt(s, i)[..i] + [s[i]] + RemoveAt(s, i)[i..] == s
    ensures multiset(RemoveAt(s, i)) + multiset{s[i]} == multiset(s)
  {
    var r := RemoveAt(s, i);
    assert r[..i] == s[..i];
    assert r[i..] == s[i + 1..];
    assert s == s[..i] + [s[i]] + s[i + 1..];
  }

  /** Removing the last record undoes an append. */
  lemma RemoveLast<T>(s: seq<T>, x: T)
    ensures RemoveAt(s + [x], |s|) == s
  {
    assert (s + [x])[..|s|] == s;
  }

  /** A key not present in a distinct list may be appended without a clash. */
  lemma AppendFreshDistinct<T, K>(s: seq<T>, key: T -> K, x: T)
    requires Distinct(s, key)
    requires !Occurs(s, key, key(x))
    ensures Distinct(s + [x], key)
  {
    var t := s + [x];
    forall i, j | 0 <= i < j < |t|
      ensures key(t[i]) != key(t[j])
    {
      if j == |s| {
        assert t[i] == s[i];
      }
    }
  }

  /** Replacing a record by one with the same key keeps keys distinct. */
  lemma ReplaceSameKeyDistinct<T, K>(s: seq<T>, key: T -> K, i: nat, x: T)
    requires Distinct(s, key)
    requires i < |s| && key(x) == key(s[i])
    ensures Distinct(s[i := x], key)
  {
  }

  /** Dropping a record keeps keys distinct. */
  lemma RemoveDistinct<T, K>(s: seq<T>, key: T -> K, i: nat)
    requires Distinct(s, key)
    requires i < |s|
    ensures Distinct(RemoveAt(s, i), key)
  {
    var r := RemoveAt(s, i);
    forall a, b | 0 <= a < b < |r|
      ensures key(r[a]) != key(r[b])
    {
      var a' := if a < i then a else a + 1;
      var b' := if b < i then b else b + 1;
      assert r[a] == s[a'] && r[b] == s[b'];
    }
  }

  /** In a distinct list the removed record's key is gone afterwards. */
  lemma RemoveDistinctGone<T, K>(s: seq<T>, key: T -> K, i: nat)
    requires Distinct(s, key)
    requires i < |s|
    ensures !Occurs(RemoveAt(s, i), key, key(s[i]))
  {
    var r := RemoveAt(s, i);
    forall a | 0 <= a < |r|
      ensures key(r[a]) != key(s[i])
    {
      var a' := if a < i then a else a + 1;
      assert r[a] == s[a'];
    }
  }

  /** Appending a record does not move an existing first match; a key that
      was absent is found, if at all, at the appended position. */
  lemma IndexOfAppend<T, K>(s: seq<T>, key: T -> K, k: K, x: T)
    ensures IndexOf(s + [x], key, k) ==
      if Occurs(s, key, k) then IndexOf(s, key, k)
      else if key(x) == k then Some(|s|)
      else None
  {
    var t := s + [x];
    assert forall j :: 0 <= j < |s| ==> t[j] == s[j];
    if Occurs(s, key, k) {
      var i := OccursHasFirst(s, key, k);
      var r := IndexOf(t, key, k);
      assert IsFirst(t, key, k, i);
      assert r.Some?;
      FirstIsUnique(t, key, k, i, r.value);
    } else if key(x) == k {
      assert IsFirst(t, key, k, |s|);
      var r := IndexOf(t, key, k);
      FirstIsUnique(t, key, k, |s|, r.value);
    } else {
      forall j | 0 <= j < |t|
        ensures key(t[j]) != k
      {
      }
    }
  }

  /** Overwriting the first match with a record of the same key leaves it the first match. */
  lemma IndexOfReplace<T, K>(s: seq<T>, key: T -> K, k: K, i: nat, x: T)
    requires IsFirst(s, key, k, i)
    requires key(x) == k
    ensures IndexOf(s[i := x], key, k) == Some(i)
  {
    var t := s[i := x];
    assert IsFirst(t, key, k, i);
    var r := IndexOf(t, key, k);
    FirstIsUnique(t, key, k, i, r.value);
  }
}

