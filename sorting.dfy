/** Python's `list.sort(key=key, reverse=True)`: a stable sort, highest key
    first, in place. The key is computed from each element and compared as
    an integer; elements with equal keys keep their order. */
module StableSort {

  /** Non-increasing by key. */
  ghost predicate SortedDesc<T>(s: seq<T>, key: T -> int)
  {
    forall i, j :: 0 <= i < j < |s| ==> key(s[i]) >= key(s[j])
  }

  /** Put x into a sorted sequence, after every element whose key is at
      least x's (so after its equals, which came earlier). */
  function Insert<T>(t: seq<T>, x: T, key: T -> int): (r: seq<T>)
    ensures |r| == |t| + 1
  {
    if t == [] then [x]
    else if key(t[|t| - 1]) >= key(x) then t + [x]
    else
      assert t == t[..|t| - 1] + [t[|t| - 1]];
      Insert(t[..|t| - 1], x, key) + [t[|t| - 1]]
  }

  /** Insertion adds x and loses nothing. */
  lemma {:induction false} InsertPermutes<T>(t: seq<T>, x: T, key: T -> int)
    ensures multiset(Insert(t, x, key)) == multiset(t) + multiset{x}
    decreases |t|
  {
    if t != [] && key(t[|t| - 1]) < key(x) {
      var init := t[..|t| - 1];
      InsertPermutes(init, x, key);
      assert t == init + [t[|t| - 1]];
    }
  }

  /** Every element of s has a key of at least m. */
  ghost predicate AllAtLeast<T>(s: seq<T>, key: T -> int, m: int)
  {
    forall i :: 0 <= i < |s| ==> key(s[i]) >= m
  }

  lemma {:induction false} InsertAtLeast<T>(t: seq<T>, x: T, key: T -> int, m: int)
    requires AllAtLeast(t, key, m) && key(x) >= m
    ensures AllAtLeast(Insert(t, x, key), key, m)
    decreases |t|
  {
    if t != [] && key(t[|t| - 1]) < key(x) {
      InsertAtLeast(t[..|t| - 1], x, key, m);
    }
  }

  /** Inserting keeps a sequence sorted, and the result starts with the
      sequence's head unless x outranks it. */
  lemma {:induction false} InsertSorted<T>(t: seq<T>, x: T, key: T -> int)
    requires SortedDesc(t, key)
    ensures SortedDesc(Insert(t, x, key), key)
    ensures t != [] ==> Insert(t, x, key)[0] == if key(t[0]) >= key(x) then t[0] else x
    decreases |t|
  {
    if t != [] && key(t[|t| - 1]) < key(x) {
      var init, last := t[..|t| - 1], t[|t| - 1];
      InsertSorted(init, x, key);
      InsertAtLeast(init, x, key, key(last));
      assert Insert(t, x, key) == Insert(init, x, key) + [last];
      if init != [] { assert init[0] == t[0]; }
    }
  }

  /** The stable sort, highest key first: each element in turn inserted into
      the sorted prefix. It is sorted and a permutation of its input. */
  function SortDesc<T>(s: seq<T>, key: T -> int): (r: seq<T>)
    ensures SortedDesc(r, key)
    ensures |r| == |s|
  {
    if s == [] then []
    else
      var t := SortDesc(s[..|s| - 1], key);
      InsertSorted(t, s[|s| - 1], key);
      Insert(t, s[|s| - 1], key)
  }

  /** The sort is a permutation of its input. */
  lemma {:induction false} SortDescPermutes<T>(s: seq<T>, key: T -> int)
    ensures multiset(SortDesc(s, key)) == multiset(s)
    decreases |s|
  {
    if s != [] {
      var init, last := s[..|s| - 1], s[|s| - 1];
      SortDescPermutes(init, key);
      assert s == init + [last];
      InsertKeepsPermutation(SortDesc(init, key), init, last, key);
    }
  }

  lemma InsertKeepsPermutation<T>(u: seq<T>, s: seq<T>, x: T, key: T -> int)
    requires multiset(u) == multiset(s)
    ensures multiset(Insert(u, x, key)) == multiset(s + [x])
  {
    InsertPermutes(u, x, key);
  }

  // ---------------------------------------------------------------------
  // Stability

  /** The elements of s whose key is k, in their order in s. */
  function WithKey<T>(s: seq<T>, key: T -> int, k: int): seq<T>
  {
    if s == [] then []
    else WithKey(s[..|s| - 1], key, k) + (if key(s[|s| - 1]) == k then [s[|s| - 1]] else [])
  }

  lemma {:induction false} WithKeyInsert<T>(t: seq<T>, x: T, key: T -> int, k: int)
    requires SortedDesc(t, key)
    ensures WithKey(Insert(t, x, key), key, k) == WithKey(t, key, k) + (if key(x) == k then [x] else [])
    decreases |t|
  {
    if t == [] {
      assert WithKey([x], key, k) == WithKey([], key, k) + (if key(x) == k then [x] else []);
    } else if key(t[|t| - 1]) >= key(x) {
      assert (t + [x])[..|t|] == t;
    } else {
      var init, last := t[..|t| - 1], t[|t| - 1];
      WithKeyInsert(init, x, key, k);
      var r := Insert(init, x, key);
      assert (r + [last])[..|r|] == r;
    }
  }

  /** The sort is stable: the elements with any one key come out in the order
      they went in. */
  lemma {:induction false} SortDescStable<T>(s: seq<T>, key: T -> int, k: int)
    ensures WithKey(SortDesc(s, key), key, k) == WithKey(s, key, k)
    decreases |s|
  {
    if s != [] {
      SortDescStable(s[..|s| - 1], key, k);
      WithKeyInsert(SortDesc(s[..|s| - 1], key), s[|s| - 1], key, k);
    }
  }

  lemma {:induction false} WithKeyNone<T>(s: seq<T>, key: T -> int, k: int)
    requires forall i :: 0 <= i < |s| ==> key(s[i]) != k
    ensures WithKey(s, key, k) == []
    decreases |s|
  {
    if s != [] {
      var init := s[..|s| - 1];
      assert forall i :: 0 <= i < |init| ==> s[i] == init[i];
      WithKeyNone(init, key, k);
    }
  }

  lemma WithKeyLast<T>(s: seq<T>, key: T -> int)
    requires s != []
    ensures WithKey(s, key, key(s[|s| - 1])) == WithKey(s[..|s| - 1], key, key(s[|s| - 1])) + [s[|s| - 1]]
  {
  }

  /** Two sorted sequences with the same elements, key by key, in the same
      order are the same sequence: any stable sort by descending key returns
      SortDesc's result. */
  lemma {:induction false} SortedByKeyUnique<T>(u: seq<T>, v: seq<T>, key: T -> int)
    requires SortedDesc(u, key) && SortedDesc(v, key)
    requires forall k :: WithKey(u, key, k) == WithKey(v, key, k)
    ensures u == v
    decreases |u|
  {
    if u == [] || v == [] {
      // The last element of a non-empty side would need a partner with its
      // key on the empty side.
      if u != [] { WithKeyLast(u, key); }
      if v != [] { WithKeyLast(v, key); }
    } else {
      var ui, ul := u[..|u| - 1], u[|u| - 1];
      var vi, vl := v[..|v| - 1], v[|v| - 1];
      assert WithKey(u, key, key(ul)) == WithKey(ui, key, key(ul)) + [ul];
      assert WithKey(v, key, key(vl)) == WithKey(vi, key, key(vl)) + [vl];
      // The last element of each side carries its smallest key; the other
      // side must hold an element with that key, so the two keys agree.
      if key(ul) < key(vl) {
        WithKeyNone(v, key, key(ul));
        assert false;
      } else if key(vl) < key(ul) {
        WithKeyNone(u, key, key(vl));
        assert false;
      }
      var w := WithKey(u, key, key(ul));
      assert w == WithKey(v, key, key(vl));
      assert w[|w| - 1] == ul && w[|w| - 1] == vl;
      forall k ensures WithKey(ui, key, k) == WithKey(vi, key, k) {
        var tail := if key(ul) == k then [ul] else [];
        assert WithKey(u, key, k) == WithKey(ui, key, k) + tail;
        assert WithKey(v, key, k) == WithKey(vi, key, k) + tail;
        assert (WithKey(ui, key, k) + tail)[..|WithKey(ui, key, k)|] == WithKey(ui, key, k);
        assert (WithKey(vi, key, k) + tail)[..|WithKey(vi, key, k)|] == WithKey(vi, key, k);
      }
      SortedByKeyUnique(ui, vi, key);
      assert u == ui + [ul] && v == vi + [vl];
    }
  }

  // ---------------------------------------------------------------------
  // The first element

  /** i is the first index holding the highest key. */
  ghost predicate IsFirstMax<T>(s: seq<T>, key: T -> int, i: int)
  {
    && 0 <= i < |s|
    && (forall j :: 0 <= j < |s| ==> key(s[j]) <= key(s[i]))
    && (forall j :: 0 <= j < i ==> key(s[j]) < key(s[i]))
  }

  /** The first index holding the highest key, found by a scan that only
      moves on to a strictly higher key. */
  function FirstMax<T>(s: seq<T>, key: T -> int): (i: nat)
    requires s != []
    ensures IsFirstMax(s, key, i)
  {
    if |s| == 1 then 0
    else
      var init := s[..|s| - 1];
      var b := FirstMax(init, key);
      assert forall j :: 0 <= j < |init| ==> s[j] == init[j];
      if key(init[b]) >= key(s[|s| - 1]) then b else |s| - 1
  }

  /** The sorted sequence starts with the first element holding the highest
      key. */
  lemma {:induction false} SortDescHead<T>(s: seq<T>, key: T -> int)
    requires s != []
    ensures SortDesc(s, key)[0] == s[FirstMax(s, key)]
    decreases |s|
  {
    var init := s[..|s| - 1];
    if init != [] {
      SortDescHead(init, key);
      InsertSorted(SortDesc(init, key), s[|s| - 1], key);
    }
  }

  // ---------------------------------------------------------------------
  // In place

  /** Where the insertion lands: x goes at j when every element from j on has
      a lower key and the one before j, if any, does not. */
  lemma {:induction false} InsertAt<T>(t: seq<T>, x: T, key: T -> int, j: nat)
    requires j <= |t|
    requires forall k :: j <= k < |t| ==> key(t[k]) < key(x)
    requires j == 0 || key(t[j - 1]) >= key(x)
    ensures Insert(t, x, key) == t[..j] + [x] + t[j..]
    decreases |t|
  {
    if j == |t| {
      assert t[..j] == t && t[j..] == [];
      if t != [] { assert key(t[|t| - 1]) >= key(x); }
    } else {
      var init := t[..|t| - 1];
      assert key(t[|t| - 1]) < key(x);
      assert forall k :: j <= k < |init| ==> init[k] == t[k];
      if j > 0 { assert init[j - 1] == t[j - 1]; }
      InsertAt(init, x, key, j);
      SplitBeforeLast(t, x, j);
    }
  }

  /** Putting x at j < |t| commutes with taking off t's last element. */
  lemma SplitBeforeLast<T>(t: seq<T>, x: T, j: nat)
    requires j < |t|
    ensures t[..j] + [x] + t[j..] == t[..|t| - 1][..j] + [x] + t[..|t| - 1][j..] + [t[|t| - 1]]
  {
    var init := t[..|t| - 1];
    assert t[..j] == init[..j];
    assert t[j..] == init[j..] + [t[|t| - 1]];
  }

  /** Sorting one more element inserts it into the sorted prefix. */
  lemma SortDescPrefix<T>(s: seq<T>, key: T -> int, i: nat)
    requires i < |s|
    ensures SortDesc(s[..i + 1], key) == Insert(SortDesc(s[..i], key), s[i], key)
  {
    assert s[..i + 1][..i] == s[..i];
  }

  /** One pass of the insertion sort: a[i] moves left past the elements of
      the prefix a[..i] that have a strictly lower key. */
  method InsertInPlace<T>(a: array<T>, i: nat, key: T -> int)
    requires i < a.Length
    modifies a
    ensures a[..] == Insert(old(a[..i]), old(a[i]), key) + old(a[i + 1..])
  {
    var x := a[i];
    ghost var pre := a[..i];
    var j := i;
    while j > 0 && key(a[j - 1]) < key(x)
      invariant 0 <= j <= i
      invariant forall k :: 0 <= k < j ==> a[k] == pre[k]
      invariant forall k :: j < k <= i ==> a[k] == pre[k - 1]
      invariant forall k :: i < k < a.Length ==> a[k] == old(a[k])
      invariant forall k :: j <= k < i ==> key(pre[k]) < key(x)
    {
      a[j] := a[j - 1];
      j := j - 1;
    }
    a[j] := x;
    InsertAt(pre, x, key, j);
    ghost var r := pre[..j] + [x] + pre[j..] + old(a[i + 1..]);
    assert |r| == a.Length;
    assert forall k :: 0 <= k < a.Length ==> a[k] == r[k];
  }

  /** `a.sort(key=key, reverse=True)`: the array ends up holding the stable
      descending sort of what it held. */
  method SortInPlace<T>(a: array<T>, key: T -> int)
    modifies a
    ensures a[..] == SortDesc(old(a[..]), key)
  {
    ghost var orig := a[..];
    var i := 0;
    while i < a.Length
      invariant 0 <= i <= a.Length
      invariant a[..i] == SortDesc(orig[..i], key)
      invariant a[i..] == orig[i..]
    {
      ghost var sorted, x, rest := a[..i], a[i], a[i + 1..];
      assert x == orig[i] && rest == orig[i + 1..] by {
        assert a[i..][0] == orig[i..][0] && a[i..][1..] == orig[i..][1..];
      }
      InsertInPlace(a, i, key);
      ghost var r := Insert(sorted, x, key);
      assert a[..i + 1] == r && a[i + 1..] == rest by {
        assert a[..] == r + rest;
      }
      SortDescPrefix(orig, key, i);
      i := i + 1;
    }
    assert orig[..a.Length] == orig;
  }
}
