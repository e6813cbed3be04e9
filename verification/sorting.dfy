/**
 * JavaScript's `Array.prototype.sort` with a comparator is stable (ES2019).
 * Every comparator in the modelled code orders by an integer, or by an integer
 * and then a second integer, so the sort is modelled once: a stable sort
 * ascending by a two-component key compared lexicographically. A stable sort's
 * result is determined by the key order alone, so it is written here as a
 * selection sort that repeatedly takes the first element with the least key.
 */
module Sorting {

  /** A sort key: `major` decides, `minor` breaks ties. */
  datatype Key = Key(major: int, minor: int)

  predicate KeyLe(a: Key, b: Key)
  {
    a.major < b.major || (a.major == b.major && a.minor <= b.minor)
  }

  predicate SortedBy<T>(s: seq<T>, key: T -> Key)
  {
    forall i, j :: 0 <= i < j < |s| ==> KeyLe(key(s[i]), key(s[j]))
  }

  /** The elements of `s` whose key is `k`, in their order in `s`. */
  function WithKey<T>(s: seq<T>, key: T -> Key, k: Key): (r: seq<T>)
    ensures |r| <= |s|
  {
    if |s| == 0 then []
    else (if key(s[0]) == k then [s[0]] else []) + WithKey(s[1..], key, k)
  }

  lemma {:induction false} WithKeyConcat<T>(a: seq<T>, b: seq<T>, key: T -> Key, k: Key)
    ensures WithKey(a + b, key, k) == WithKey(a, key, k) + WithKey(b, key, k)
    decreases |a|
  {
    if |a| == 0 {
      assert a + b == b;
    } else {
      assert (a + b)[1..] == a[1..] + b;
      WithKeyConcat(a[1..], b, key, k);
    }
  }

  lemma {:induction false} WithKeyNone<T>(s: seq<T>, key: T -> Key, k: Key)
    requires forall j :: 0 <= j < |s| ==> key(s[j]) != k
    ensures WithKey(s, key, k) == []
    decreases |s|
  {
    if |s| > 0 {
      WithKeyNone(s[1..], key, k);
    }
  }

  /** `s` without the element at index `i`. */
  function RemoveAt<T>(s: seq<T>, i: nat): (r: seq<T>)
    requires i < |s|
    ensures |r| == |s| - 1
  {
    s[..i] + s[i + 1..]
  }

  lemma RemoveAtMultiset<T>(s: seq<T>, i: nat)
    requires i < |s|
    ensures multiset(RemoveAt(s, i)) + multiset{s[i]} == multiset(s)
  {
    assert s == s[..i] + [s[i]] + s[i + 1..];
  }

  /** The index of the first element whose key is least. */
  function FirstMin<T>(s: seq<T>, key: T -> Key): (b: nat)
    requires |s| > 0
    ensures b < |s|
    ensures forall j :: 0 <= j < |s| ==> KeyLe(key(s[b]), key(s[j]))
    ensures forall j :: 0 <= j < b ==> !KeyLe(key(s[j]), key(s[b]))
    decreases |s|
  {
    if |s| == 1 then 0
    else
      var b := FirstMin(s[1..], key);
      if KeyLe(key(s[0]), key(s[1..][b])) then 0 else b + 1
  }

  /** The stable sort: the first least element, then the sort of the rest. */
  function Sort<T>(s: seq<T>, key: T -> Key): (r: seq<T>)
    ensures |r| == |s|
    decreases |s|
  {
    if |s| == 0 then []
    else
      var b := FirstMin(s, key);
      [s[b]] + Sort(RemoveAt(s, b), key)
  }

  /** The sort keeps exactly the elements it is given. */
  lemma {:induction false} SortPermutes<T>(s: seq<T>, key: T -> Key)
    ensures multiset(Sort(s, key)) == multiset(s)
    decreases |s|
  {
    if |s| > 0 {
      var b := FirstMin(s, key);
      SortPermutes(RemoveAt(s, b), key);
      RemoveAtMultiset(s, b);
    }
  }

  /** The sorted result is ordered by key. */
  lemma {:induction false} SortOrders<T>(s: seq<T>, key: T -> Key)
    ensures SortedBy(Sort(s, key), key)
    decreases |s|
  {
    if |s| > 0 {
      var b := FirstMin(s, key);
      var u := RemoveAt(s, b);
      var rest := Sort(u, key);
      SortOrders(u, key);
      SortPermutes(u, key);
      RemoveAtMultiset(s, b);
      forall j | 0 <= j < |rest| ensures KeyLe(key(s[b]), key(rest[j])) {
        assert rest[j] in multiset(rest);
        assert rest[j] in multiset(s);
        assert rest[j] in s;
      }
      var r := Sort(s, key);
      assert r == [s[b]] + rest;
      forall i, j | 0 <= i < j < |r| ensures KeyLe(key(r[i]), key(r[j])) {
        if i > 0 {
          assert r[i] == rest[i - 1] && r[j] == rest[j - 1];
        } else {
          assert r[j] == rest[j - 1];
        }
      }
    }
  }

  /** Splitting `s` around index `b`, with and without its element. */
  lemma WithKeyAround<T>(s: seq<T>, b: nat, key: T -> Key, k: Key)
    requires b < |s|
    ensures WithKey(s, key, k)
            == WithKey(s[..b], key, k) + (if key(s[b]) == k then [s[b]] else []) + WithKey(s[b + 1..], key, k)
    ensures WithKey(RemoveAt(s, b), key, k) == WithKey(s[..b], key, k) + WithKey(s[b + 1..], key, k)
  {
    assert s == s[..b] + ([s[b]] + s[b + 1..]);
    WithKeyConcat(s[..b], [s[b]] + s[b + 1..], key, k);
    assert ([s[b]] + s[b + 1..])[1..] == s[b + 1..];
    WithKeyConcat(s[..b], s[b + 1..], key, k);
  }

  /** Stability: for every key, the elements carrying it appear in the sorted
      result in the same order as in the input. */
  lemma {:induction false} SortStable<T>(s: seq<T>, key: T -> Key, k: Key)
    ensures WithKey(Sort(s, key), key, k) == WithKey(s, key, k)
    decreases |s|
  {
    if |s| > 0 {
      var b := FirstMin(s, key);
      var u := RemoveAt(s, b);
      SortStable(u, key, k);
      SortUnfold(s, key);
      if key(s[b]) == k {
        // nothing in front of index b carries the least key
        assert forall j :: 0 <= j < b ==> s[..b][j] == s[j];
        WithKeyNone(s[..b], key, k);
      }
      StableStep(s, b, Sort(s, key), Sort(u, key), key, k);
    }
  }

  /** One step of the selection: the chosen element moved to the front keeps
      the order of its key's elements, since none of them came before it. */
  lemma StableStep<T>(s: seq<T>, b: nat, sorted: seq<T>, rest: seq<T>, key: T -> Key, k: Key)
    requires b < |s| && sorted == [s[b]] + rest
    requires WithKey(rest, key, k) == WithKey(RemoveAt(s, b), key, k)
    requires key(s[b]) == k ==> WithKey(s[..b], key, k) == []
    ensures WithKey(sorted, key, k) == WithKey(s, key, k)
  {
    var front, back := WithKey(s[..b], key, k), WithKey(s[b + 1..], key, k);
    var mid := if key(s[b]) == k then [s[b]] else [];
    var x := WithKey(sorted, key, k);
    var y := WithKey(s, key, k);
    WithKeySplit(s, b, key, k, front, mid, back);
    WithKeyCons(s[b], rest, key, k, mid);
    assert x == mid + (front + back);
    assert y == front + mid + back;
    MovedFirst(front, mid, back);
  }

  lemma WithKeySplit<T>(s: seq<T>, b: nat, key: T -> Key, k: Key, front: seq<T>, mid: seq<T>, back: seq<T>)
    requires b < |s| && front == WithKey(s[..b], key, k) && back == WithKey(s[b + 1..], key, k)
    requires mid == if key(s[b]) == k then [s[b]] else []
    ensures WithKey(s, key, k) == front + mid + back
    ensures WithKey(RemoveAt(s, b), key, k) == front + back
  {
    WithKeyAround(s, b, key, k);
  }

  lemma WithKeyCons<T>(x: T, rest: seq<T>, key: T -> Key, k: Key, mid: seq<T>)
    requires mid == if key(x) == k then [x] else []
    ensures WithKey([x] + rest, key, k) == mid + WithKey(rest, key, k)
  {
    assert ([x] + rest)[1..] == rest;
  }

  lemma MovedFirst<T>(a: seq<T>, m: seq<T>, c: seq<T>)
    requires a == [] || m == []
    ensures m + (a + c) == a + m + c
  {
  }

  lemma SortUnfold<T>(s: seq<T>, key: T -> Key)
    requires |s| > 0
    ensures Sort(s, key) == [s[FirstMin(s, key)]] + Sort(RemoveAt(s, FirstMin(s, key)), key)
  {
  }
}
