/**
 * The insertion-ordered set of the `linked_hash_set` crate, for elements whose
 * identity is a key (a user's username, a group's name): a sequence with
 * pairwise distinct keys, oldest first. `insert` appends an element whose key
 * is absent; when an element with that key is already stored, that stored
 * element is kept (not replaced) and moved to the end, as the most recently
 * added.
 */
module LinkedSet {

  /** The keys of `s`, in order. */
  function Keys<T, K>(s: seq<T>, key: T -> K): (r: seq<K>)
    ensures |r| == |s|
    ensures forall i :: 0 <= i < |s| ==> r[i] == key(s[i])
  {
    if s == [] then [] else Keys(s[..|s| - 1], key) + [key(s[|s| - 1])]
  }

  lemma {:induction false} KeysAppend<T, K>(s: seq<T>, t: seq<T>, key: T -> K)
    ensures Keys(s + t, key) == Keys(s, key) + Keys(t, key)
  {
  }

  /** No two elements share a key: the invariant of the set. */
  predicate Unique<T, K(==,!new)>(s: seq<T>, key: T -> K) {
    forall i, j :: 0 <= i < j < |s| ==> key(s[i]) != key(s[j])
  }

  /** A key is among the keys exactly when some element has it. */
  lemma KeyIn<T, K>(s: seq<T>, k: K, key: T -> K)
    ensures k in Keys(s, key) <==> exists j :: 0 <= j < |s| && key(s[j]) == k
  {
    if k in Keys(s, key) {
      var j :| 0 <= j < |s| && Keys(s, key)[j] == k;
    }
  }

  /** The position of the first element with key `k`. */
  function FirstIndex<T, K(==)>(s: seq<T>, k: K, key: T -> K): (i: nat)
    requires k in Keys(s, key)
    ensures i < |s| && key(s[i]) == k
    ensures forall j :: 0 <= j < i ==> key(s[j]) != k
  {
    KeyIn(s, k, key);
    if key(s[0]) == k then 0
    else
      var j :| 0 <= j < |s| && key(s[j]) == k;
      assert s[1..][j - 1] == s[j];
      KeyIn(s[1..], k, key);
      1 + FirstIndex(s[1..], k, key)
  }

  /** `s` with its element at `i` taken out and put at the end. */
  function MoveToEnd<T>(s: seq<T>, i: nat): (r: seq<T>)
    requires i < |s|
    ensures |r| == |s| && r[|r| - 1] == s[i]
    ensures forall j :: 0 <= j < i ==> r[j] == s[j]
    ensures forall j :: i <= j < |s| - 1 ==> r[j] == s[j + 1]
  {
    s[..i] + s[i + 1..] + [s[i]]
  }

  /** Where the element at `j` of `MoveToEnd(s, i)` comes from in `s`, for `|s| == n`. */
  function Source(n: nat, i: nat, j: nat): nat {
    if j < i then j else if j < n - 1 then j + 1 else i
  }

  lemma MoveToEndSource<T>(s: seq<T>, i: nat, j: nat)
    requires i < |s| && j < |s|
    ensures Source(|s|, i, j) < |s| && MoveToEnd(s, i)[j] == s[Source(|s|, i, j)]
  {
  }

  /** Moving an element keeps the same elements. */
  lemma MoveToEndElements<T>(s: seq<T>, i: nat)
    requires i < |s|
    ensures forall y :: y in MoveToEnd(s, i) <==> y in s
  {
    var r := MoveToEnd(s, i);
    forall y | y in r ensures y in s {
      var m :| 0 <= m < |r| && r[m] == y;
      MoveToEndSource(s, i, m);
    }
    forall y | y in s ensures y in r {
      var m :| 0 <= m < |s| && s[m] == y;
      if m < i {
        assert r[m] == y;
      } else if m == i {
        assert r[|s| - 1] == y;
      } else {
        assert r[m - 1] == y;
      }
    }
  }

  /** Elements with the same membership have the same keys. */
  lemma SameElementsSameKeys<T, K>(r: seq<T>, s: seq<T>, key: T -> K)
    requires forall y :: y in r <==> y in s
    ensures forall k :: k in Keys(r, key) <==> k in Keys(s, key)
  {
    forall k ensures k in Keys(r, key) ==> k in Keys(s, key) {
      KeyIn(r, k, key);
      KeyIn(s, k, key);
      if k in Keys(r, key) {
        var m :| 0 <= m < |r| && key(r[m]) == k;
        assert r[m] in r;
        var m' :| 0 <= m' < |s| && s[m'] == r[m];
      }
    }
    forall k ensures k in Keys(s, key) ==> k in Keys(r, key) {
      KeyIn(r, k, key);
      KeyIn(s, k, key);
      if k in Keys(s, key) {
        var m :| 0 <= m < |s| && key(s[m]) == k;
        assert s[m] in s;
        var m' :| 0 <= m' < |r| && r[m'] == s[m];
      }
    }
  }

  /** Moving an element keeps keys distinct. */
  lemma MoveToEndUnique<T, K(!new)>(s: seq<T>, i: nat, key: T -> K)
    requires i < |s|
    ensures Unique(s, key) ==> Unique(MoveToEnd(s, i), key)
  {
    var r := MoveToEnd(s, i);
    var n := |s|;
    if Unique(s, key) {
      forall a, b | 0 <= a < b < n ensures key(r[a]) != key(r[b]) {
        MoveToEndSource(s, i, a);
        MoveToEndSource(s, i, b);
        var fa, fb := Source(n, i, a), Source(n, i, b);
        assert fa != fb;
        if fa < fb {
          assert key(s[fa]) != key(s[fb]);
        } else {
          assert key(s[fb]) != key(s[fa]);
        }
      }
    }
  }

  /**
   * `set.insert(x)`: appended when its key is absent; otherwise the element
   * already stored under that key moves to the end and `x` is dropped.
   */
  function Insert<T, K(==,!new)>(s: seq<T>, x: T, key: T -> K): (r: seq<T>)
    ensures key(x) !in Keys(s, key) ==> r == s + [x]
    ensures key(x) in Keys(s, key) ==>
              exists i :: 0 <= i < |s| && key(s[i]) == key(x) && r == s[..i] + s[i + 1..] + [s[i]]
    ensures |r| > 0 && key(r[|r| - 1]) == key(x)
    ensures key(x) in Keys(s, key) ==> |r| == |s|
    ensures forall k :: k in Keys(r, key) <==> k in Keys(s, key) || k == key(x)
    ensures forall y :: y in r ==> y in s || y == x
    ensures Unique(s, key) ==> Unique(r, key)
  {
    if key(x) in Keys(s, key) then
      var i := FirstIndex(s, key(x), key);
      MoveToEndElements(s, i);
      SameElementsSameKeys(MoveToEnd(s, i), s, key);
      MoveToEndUnique(s, i, key);
      MoveToEnd(s, i)
    else
      var r := s + [x];
      assert Keys(r, key) == Keys(s, key) + [key(x)] by {
        assert r[..|r| - 1] == s;
      }
      r
  }

  /** Inserting every element of `xs`, in order. */
  function InsertAll<T, K(==,!new)>(s: seq<T>, xs: seq<T>, key: T -> K): (r: seq<T>)
    ensures |s| <= |r| <= |s| + |xs|
    ensures |xs| > 0 ==> |r| >= 1
    ensures forall k :: k in Keys(r, key) <==> k in Keys(s, key) || k in Keys(xs, key)
    ensures forall y :: y in r ==> y in s || y in xs
    ensures Unique(s, key) ==> Unique(r, key)
  {
    if xs == [] then s
    else
      var r := Insert(InsertAll(s, xs[..|xs| - 1], key), xs[|xs| - 1], key);
      assert forall y :: y in xs[..|xs| - 1] ==> y in xs;
      r
  }

  /** Inserting one more element at the end of the input is one more insertion. */
  lemma InsertAllSnoc<T, K(!new)>(s: seq<T>, xs: seq<T>, x: T, key: T -> K)
    ensures InsertAll(s, xs + [x], key) == Insert(InsertAll(s, xs, key), x, key)
  {
    assert (xs + [x])[..|xs|] == xs;
  }

  /** A unique sequence keeps its last key out of the keys before it. */
  lemma LastKeyFresh<T, K(!new)>(ys: seq<T>, key: T -> K)
    requires |ys| > 0 && Unique(ys, key)
    ensures key(ys[|ys| - 1]) !in Keys(ys[..|ys| - 1], key)
  {
  }

  /** A prefix of a sequence with distinct keys has distinct keys. */
  lemma UniquePrefix<T, K(!new)>(ys: seq<T>, n: nat, key: T -> K)
    requires n <= |ys| && Unique(ys, key)
    ensures Unique(ys[..n], key)
  {
    forall i, j | 0 <= i < j < n ensures key(ys[..n][i]) != key(ys[..n][j]) {
      assert ys[..n][i] == ys[i] && ys[..n][j] == ys[j];
    }
  }

  /** When no key repeats, inserting everything is appending everything. */
  lemma {:induction false} InsertAllDistinct<T, K(!new)>(s: seq<T>, xs: seq<T>, key: T -> K)
    requires Unique(s + xs, key)
    ensures InsertAll(s, xs, key) == s + xs
  {
    if xs != [] {
      var n := |xs| - 1;
      var ys := s + xs;
      var prefix := s + xs[..n];
      assert prefix == ys[..|ys| - 1];
      UniquePrefix(ys, |ys| - 1, key);
      InsertAllDistinct(s, xs[..n], key);
      LastKeyFresh(ys, key);
      assert InsertAll(s, xs, key) == Insert(prefix, xs[n], key);
      assert prefix + [xs[n]] == ys;
    }
  }

  /** Uniqueness is a property of the keys alone. */
  lemma UniqueOfSameKeys<T, K(!new)>(s: seq<T>, t: seq<T>, key: T -> K)
    requires Keys(s, key) == Keys(t, key) && Unique(t, key)
    ensures Unique(s, key)
  {
    forall i, j | 0 <= i < j < |s| ensures key(s[i]) != key(s[j]) {
      assert key(s[i]) == Keys(t, key)[i] && key(s[j]) == Keys(t, key)[j];
    }
  }

  /** Inserting distinct elements into an empty set keeps them all, in order. */
  lemma InsertAllIntoEmpty<T, K(!new)>(xs: seq<T>, key: T -> K)
    requires Unique(xs, key)
    ensures InsertAll([], xs, key) == xs
  {
    assert [] + xs == xs;
    InsertAllDistinct([], xs, key);
  }

  /** Inserting two runs of elements is inserting the first run, then the second. */
  lemma {:induction false} InsertAllAppend<T, K(!new)>(s: seq<T>, xs: seq<T>, ys: seq<T>, key: T -> K)
    ensures InsertAll(s, xs + ys, key) == InsertAll(InsertAll(s, xs, key), ys, key)
  {
    if ys == [] {
      assert xs + ys == xs;
    } else {
      var zs := ys[..|ys| - 1];
      assert (xs + ys)[..|xs + ys| - 1] == xs + zs;
      assert (xs + ys)[|xs + ys| - 1] == ys[|ys| - 1];
      InsertAllAppend(s, xs, zs, key);
    }
  }

  /** After inserting a non-empty run, the element last in the set has the key inserted last. */
  lemma InsertAllLast<T, K(!new)>(s: seq<T>, xs: seq<T>, key: T -> K)
    requires xs != []
    ensures var r := InsertAll(s, xs, key); |r| > 0 && key(r[|r| - 1]) == key(xs[|xs| - 1])
  {
    var n := |xs| - 1;
    assert xs[..n] + [xs[n]] == xs;
    InsertAllSnoc(s, xs[..n], xs[n], key);
  }

  /** Inserting a key already stored at `i` moves that element to the end. */
  lemma InsertPresent<T, K(!new)>(s: seq<T>, x: T, key: T -> K, i: nat)
    requires Unique(s, key) && i < |s| && key(s[i]) == key(x)
    ensures Insert(s, x, key) == MoveToEnd(s, i)
  {
    KeyIn(s, key(x), key);
    var j := FirstIndex(s, key(x), key);
    assert key(s[j]) == key(s[i]);
    assert j == i;
  }

  /** Two elements with distinct keys are kept in their order. */
  lemma InsertAllTwo<T, K(!new)>(a: T, b: T, key: T -> K)
    requires key(a) != key(b)
    ensures InsertAll([], [a, b], key) == [a, b]
  {
    assert [] + [a] == [a] && [a] + [b] == [a, b];
    InsertAllSnoc([], [], a, key);
    InsertAllSnoc([], [a], b, key);
    assert Keys([a], key) == [key(a)];
  }

  lemma AppendThree<T>(a: T, b: T, c: T)
    ensures [a, b] + [c] == [a, b, c]
  {
  }

  /** Inserting a third element after two distinct ones is one `Insert` on the pair. */
  lemma InsertAllPair<T, K(!new)>(a: T, b: T, c: T, key: T -> K)
    requires key(a) != key(b)
    ensures InsertAll([], [a, b, c], key) == Insert([a, b], c, key)
  {
    AppendThree(a, b, c);
    InsertAllSnoc([], [a, b], c, key);
    InsertAllTwo(a, b, key);
  }

  /** Re-inserting the first key of a distinct pair swaps the pair. */
  lemma InsertPresentPair<T, K(!new)>(a: T, b: T, a2: T, key: T -> K)
    requires key(a) != key(b) && key(a2) == key(a)
    ensures Insert([a, b], a2, key) == [b, a]
  {
    var s := [a, b];
    InsertPresent(s, a2, key, 0);
    assert MoveToEnd(s, 0) == [b, a];
  }

  /**
   * Re-inserting a key moves the element stored first to the end: inserting
   * `a`, `b`, then `a2` with `a`'s key gives `b`, then `a` (not `a2`).
   */
  lemma ReinsertMovesToEnd<T, K(!new)>(a: T, b: T, a2: T, key: T -> K)
    requires key(a) != key(b) && key(a2) == key(a)
    ensures InsertAll([], [a, b, a2], key) == [b, a]
  {
    InsertAllPair(a, b, a2, key);
    InsertPresentPair(a, b, a2, key);
  }
}
