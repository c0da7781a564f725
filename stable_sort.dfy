/**
 * A stable sort by an integer key: the behaviour of Kotlin's `sortedWith(compareBy { key })`,
 * whose underlying sort is documented to be stable. It is defined here as an insertion sort;
 * `SortByUnique` shows that the ordering and stability properties alone determine the result,
 * so any stable sorting algorithm yields exactly the same sequence.
 */
module StableSort {

  /** Every element's key is at most the key of every later element. */
  ghost predicate SortedBy<T>(s: seq<T>, key: T -> int) {
    forall i, j | 0 <= i < j < |s| :: key(s[i]) <= key(s[j])
  }

  /** The elements of `s` whose key is `k`, in their order in `s`. */
  function WithKey<T>(s: seq<T>, key: T -> int, k: int): seq<T> {
    if s == [] then []
    else (if key(s[0]) == k then [s[0]] else []) + WithKey(s[1..], key, k)
  }

  /**
   * Inserts `x` in front of the first element whose key is not smaller than its own,
   * so that `x` precedes every element of equal key.
   */
  function Insert<T>(x: T, s: seq<T>, key: T -> int): (r: seq<T>)
    ensures |r| == |s| + 1
    ensures multiset(r) == multiset(s) + multiset{x}
    ensures r[0] == x || (s != [] && r[0] == s[0])
  {
    if s == [] || key(x) <= key(s[0]) then
      [x] + s
    else
      assert s == [s[0]] + s[1..];
      [s[0]] + Insert(x, s[1..], key)
  }

  /** Inserting into a sorted sequence keeps it sorted. */
  lemma {:induction false} InsertSorted<T>(x: T, s: seq<T>, key: T -> int)
    requires SortedBy(s, key)
    ensures SortedBy(Insert(x, s, key), key)
  {
    if s != [] && key(x) > key(s[0]) {
      var rest := Insert(x, s[1..], key);
      InsertSorted(x, s[1..], key);
      var r := [s[0]] + rest;
      assert key(s[0]) <= key(rest[0]);
      forall i, j | 0 <= i < j < |r| ensures key(r[i]) <= key(r[j]) {
        if i > 0 {
          assert r[i] == rest[i - 1] && r[j] == rest[j - 1];
        } else {
          assert r[j] == rest[j - 1];
        }
      }
    }
  }

  /**
   * Inserting `x` puts it first among the elements of its key and leaves the elements of
   * every other key where they were relative to each other.
   */
  lemma {:induction false} InsertWithKey<T>(x: T, s: seq<T>, key: T -> int, k: int)
    ensures WithKey(Insert(x, s, key), key, k) == (if key(x) == k then [x] else []) + WithKey(s, key, k)
  {
    if s == [] || key(x) <= key(s[0]) {
      WithKeyCons(x, s, key, k);
    } else {
      var rest := Insert(x, s[1..], key);
      InsertPastHead(x, s, key);
      WithKeyCons(s[0], rest, key, k);
      InsertWithKey(x, s[1..], key, k);
      assert s == [s[0]] + s[1..];
      WithKeyCons(s[0], s[1..], key, k);
      var hx, hs := (if key(x) == k then [x] else []), (if key(s[0]) == k then [s[0]] else []);
      SwapHeads(hs, hx, WithKey(s[1..], key, k));
    }
  }

  /** An element with a larger key than the head is inserted after the head. */
  lemma InsertPastHead<T>(x: T, s: seq<T>, key: T -> int)
    requires s != [] && key(x) > key(s[0])
    ensures Insert(x, s, key) == [s[0]] + Insert(x, s[1..], key)
  {
  }

  /** Two heads of which at least one is empty may be exchanged. */
  lemma SwapHeads<T>(p: seq<T>, q: seq<T>, w: seq<T>)
    requires p == [] || q == []
    ensures p + (q + w) == q + (p + w)
  {
    if p == [] {
      assert p + (q + w) == q + w == q + (p + w);
    } else {
      assert p + (q + w) == p + w == q + (p + w);
    }
  }

  /** Selecting by key from a sequence with a given first element. */
  lemma WithKeyCons<T>(y: T, t: seq<T>, key: T -> int, k: int)
    ensures WithKey([y] + t, key, k) == (if key(y) == k then [y] else []) + WithKey(t, key, k)
  {
    assert ([y] + t)[0] == y && ([y] + t)[1..] == t;
  }

  /** The elements of `s`, stably sorted by ascending key. */
  function SortBy<T>(s: seq<T>, key: T -> int): (r: seq<T>)
    ensures |r| == |s|
    ensures multiset(r) == multiset(s)
    ensures SortedBy(r, key)
    ensures forall k :: WithKey(r, key, k) == WithKey(s, key, k)
  {
    if s == [] then []
    else
      assert s == [s[0]] + s[1..];
      var sorted := SortBy(s[1..], key);
      InsertSorted(s[0], sorted, key);
      assert forall k :: WithKey(Insert(s[0], sorted, key), key, k) == WithKey(s, key, k) by {
        forall k ensures WithKey(Insert(s[0], sorted, key), key, k) == WithKey(s, key, k) {
          InsertWithKey(s[0], sorted, key, k);
        }
      }
      Insert(s[0], sorted, key)
  }

  /** In a sorted sequence that holds an element of key `k`, the first element's key is at most `k`. */
  lemma {:induction false} FirstKeyIsLeast<T>(s: seq<T>, key: T -> int, k: int)
    requires SortedBy(s, key)
    requires WithKey(s, key, k) != []
    ensures s != [] && key(s[0]) <= k
  {
    if key(s[0]) != k {
      FirstKeyIsLeast(s[1..], key, k);
    }
  }

  /**
   * Two sorted sequences that hold, for every key, the same elements with that key in the
   * same order are equal.
   */
  lemma {:induction false} SortedStableEqual<T>(t: seq<T>, u: seq<T>, key: T -> int)
    requires |t| == |u|
    requires SortedBy(t, key) && SortedBy(u, key)
    requires forall k :: WithKey(t, key, k) == WithKey(u, key, k)
    ensures t == u
    decreases |t|
  {
    if t != [] {
      assert WithKey(u, key, key(u[0])) == [u[0]] + WithKey(u[1..], key, key(u[0]));
      FirstKeyIsLeast(t, key, key(u[0]));
      assert WithKey(t, key, key(t[0])) == [t[0]] + WithKey(t[1..], key, key(t[0]));
      FirstKeyIsLeast(u, key, key(t[0]));
      var m := key(t[0]);
      assert t[0] == u[0] by {
        assert WithKey(t, key, m)[0] == WithKey(u, key, m)[0];
      }
      forall k ensures WithKey(t[1..], key, k) == WithKey(u[1..], key, k) {
        var head := if m == k then [t[0]] else [];
        assert WithKey(t, key, k) == head + WithKey(t[1..], key, k);
        assert WithKey(u, key, k) == head + WithKey(u[1..], key, k);
        assert WithKey(t[1..], key, k) == WithKey(t, key, k)[|head|..];
        assert WithKey(u[1..], key, k) == WithKey(u, key, k)[|head|..];
      }
      SortedStableEqual(t[1..], u[1..], key);
      assert t == [t[0]] + t[1..] && u == [u[0]] + u[1..];
    }
  }

  /**
   * `SortBy` is the only stable sort: any permutation of `s` that is sorted by the key and
   * keeps the input order among equal keys is the result of `SortBy`.
   */
  lemma SortByUnique<T>(s: seq<T>, t: seq<T>, key: T -> int)
    requires multiset(t) == multiset(s)
    requires SortedBy(t, key)
    requires forall k :: WithKey(t, key, k) == WithKey(s, key, k)
    ensures t == SortBy(s, key)
  {
    assert |t| == |multiset(t)| == |s|;
    SortedStableEqual(t, SortBy(s, key), key);
  }

  /** Selecting by key distributes over concatenation. */
  lemma {:induction false} WithKeyAppend<T>(a: seq<T>, b: seq<T>, key: T -> int, k: int)
    ensures WithKey(a + b, key, k) == WithKey(a, key, k) + WithKey(b, key, k)
  {
    if a != [] {
      assert (a + b)[0] == a[0] && (a + b)[1..] == a[1..] + b;
      WithKeyAppend(a[1..], b, key, k);
    } else {
      assert a + b == b;
    }
  }

  /**
   * The element at index `i` appears in the selection of its key at the position given by
   * the number of earlier elements with that key.
   */
  lemma WithKeyAt<T>(s: seq<T>, key: T -> int, i: nat)
    requires i < |s|
    ensures |WithKey(s[..i], key, key(s[i]))| < |WithKey(s, key, key(s[i]))|
    ensures WithKey(s, key, key(s[i]))[|WithKey(s[..i], key, key(s[i]))|] == s[i]
  {
    var k := key(s[i]);
    assert s == s[..i] + ([s[i]] + s[i + 1..]);
    WithKeyAppend(s[..i], [s[i]] + s[i + 1..], key, k);
    assert ([s[i]] + s[i + 1..])[0] == s[i] && ([s[i]] + s[i + 1..])[1..] == s[i + 1..];
  }

  /** Each position of the selection of key `k` comes from some element of `s` of that key. */
  lemma {:induction false} WithKeyOrigin<T>(s: seq<T>, key: T -> int, k: int, a: nat)
    requires a < |WithKey(s, key, k)|
    ensures exists p :: 0 <= p < |s| && key(s[p]) == k && |WithKey(s[..p], key, k)| == a
                        && s[p] == WithKey(s, key, k)[a]
  {
    if key(s[0]) == k && a == 0 {
      assert s[..0] == [];
      assert 0 < |s| && key(s[0]) == k && |WithKey(s[..0], key, k)| == a && s[0] == WithKey(s, key, k)[a];
    } else {
      var head := if key(s[0]) == k then [s[0]] else [];
      var a' := a - |head|;
      WithKeyOrigin(s[1..], key, k, a');
      var p' :| 0 <= p' < |s[1..]| && key(s[1..][p']) == k && |WithKey(s[1..][..p'], key, k)| == a'
                && s[1..][p'] == WithKey(s[1..], key, k)[a'];
      assert s[..p' + 1] == [s[0]] + s[1..][..p'];
      assert WithKey(s[..p' + 1], key, k) == head + WithKey(s[1..][..p'], key, k);
      assert s[p' + 1] == WithKey(s, key, k)[a];
    }
  }

  /** An earlier element of key `k` has fewer predecessors of key `k` than a later one. */
  lemma RankIncreases<T>(s: seq<T>, key: T -> int, i: nat, j: nat)
    requires i < j < |s| && key(s[i]) == key(s[j])
    ensures |WithKey(s[..i], key, key(s[i]))| < |WithKey(s[..j], key, key(s[j]))|
  {
    var k := key(s[i]);
    assert s[..j] == s[..i] + ([s[i]] + s[i + 1..j]);
    WithKeyAppend(s[..i], [s[i]] + s[i + 1..j], key, k);
    WithKeyAppend([s[i]], s[i + 1..j], key, k);
  }

  /**
   * Stability by positions: when `t` selects the same elements per key as `s`, two elements
   * of equal key at positions `i < j` of `t` stand at positions `p < q` of `s`.
   */
  lemma StableOrder<T>(s: seq<T>, t: seq<T>, key: T -> int, i: nat, j: nat)
    requires forall k :: WithKey(t, key, k) == WithKey(s, key, k)
    requires i < j < |t| && key(t[i]) == key(t[j])
    ensures exists p, q :: 0 <= p < q < |s| && s[p] == t[i] && s[q] == t[j]
  {
    var k := key(t[i]);
    WithKeyAt(t, key, i);
    WithKeyAt(t, key, j);
    RankIncreases(t, key, i, j);
    var a, b := |WithKey(t[..i], key, k)|, |WithKey(t[..j], key, k)|;
    WithKeyOrigin(s, key, k, a);
    WithKeyOrigin(s, key, k, b);
    var p :| 0 <= p < |s| && key(s[p]) == k && |WithKey(s[..p], key, k)| == a && s[p] == WithKey(s, key, k)[a];
    var q :| 0 <= q < |s| && key(s[q]) == k && |WithKey(s[..q], key, k)| == b && s[q] == WithKey(s, key, k)[b];
    if q < p {
      RankIncreases(s, key, q, p);
    }
    assert p < q;
  }
}
