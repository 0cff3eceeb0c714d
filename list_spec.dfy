/** Sequence-level specification of the singly linked list in BouncingBalls/src/list.c:
    where a value first occurs, what taking out its first occurrence leaves behind, and
    why an iterator whose cursor is already past a node may have that node removed. */
module ListSpec {

  /** No two positions of `s` hold the same value (for references: the same object),
      stated from the front: the first value does not occur again, and so on. */
  ghost predicate Distinct<T>(s: seq<T>) {
    s == [] || (s[0] !in s[1..] && Distinct(s[1..]))
  }

  /** Distinct means that any two positions hold different values. */
  lemma {:induction false} DistinctAt<T>(s: seq<T>, i: nat, j: nat)
    requires Distinct(s) && i < j < |s|
    ensures s[i] != s[j]
  {
    if i == 0 {
      assert s[j] == s[1..][j - 1];
    } else {
      DistinctAt(s[1..], i - 1, j - 1);
    }
  }

  /** ... and any two different positions holding different values is enough. */
  lemma {:induction false} DistinctFromPairs<T>(s: seq<T>)
    requires forall i, j | 0 <= i < j < |s| :: s[i] != s[j]
    ensures Distinct(s)
  {
    if s != [] {
      var t := s[1..];
      forall i, j | 0 <= i < j < |t|
        ensures t[i] != t[j]
      {
        assert t[i] == s[i + 1] && t[j] == s[j + 1];
      }
      DistinctFromPairs(t);
      forall j | 0 <= j < |t|
        ensures t[j] != s[0]
      {
        assert t[j] == s[j + 1];
      }
    }
  }

  /** A value that does not occur yet can be appended without a repetition. */
  lemma {:induction false} DistinctSnoc<T>(s: seq<T>, x: T)
    requires Distinct(s) && x !in s
    ensures Distinct(s + [x])
  {
    if s != [] {
      assert (s + [x])[1..] == s[1..] + [x];
      assert x !in s[1..];
      DistinctSnoc(s[1..], x);
    }
  }

  /** The first n values of a sequence without repetitions have none either, and the
      value at position n is not among them. */
  lemma DistinctPrefix<T>(s: seq<T>, n: nat)
    requires Distinct(s) && n < |s|
    ensures Distinct(s[..n]) && s[n] !in s[..n]
  {
    forall i, j | 0 <= i < j < n
      ensures s[..n][i] != s[..n][j]
    {
      DistinctAt(s, i, j);
    }
    DistinctFromPairs(s[..n]);
    forall j | 0 <= j < n
      ensures s[..n][j] != s[n]
    {
      DistinctAt(s, j, n);
    }
  }

  /** The position of the first occurrence of `x` in `s`, or |s| when `x` does not occur. */
  function FirstIndex<T(==)>(s: seq<T>, x: T): (r: nat)
    ensures r <= |s|
    ensures r < |s| ==> s[r] == x
    ensures forall j | 0 <= j < r :: s[j] != x
    ensures r == |s| <==> x !in s
  {
    if s == [] then 0
    else if s[0] == x then 0
    else 1 + FirstIndex(s[1..], x)
  }

  /** `s` with position `k` taken out; `s` itself when `k` is past the end. */
  function Without<T>(s: seq<T>, k: nat): (r: seq<T>)
    ensures |s| <= k ==> r == s
    ensures k < |s| ==> |r| == |s| - 1
  {
    if k < |s| then s[..k] + s[k + 1..] else s
  }

  /** The reference definition of removal by identity: `s` with the first occurrence of
      `x` taken out, and `s` unchanged when `x` does not occur. */
  function RemoveFirst<T(==)>(s: seq<T>, x: T): (r: seq<T>)
    ensures |r| == if x in s then |s| - 1 else |s|
  {
    if s == [] then []
    else if s[0] == x then s[1..]
    else [s[0]] + RemoveFirst(s[1..], x)
  }

  /** Removing the first occurrence is taking out the position FirstIndex names: every
      element before it and every element after it stays, in the same order. */
  lemma {:induction false} RemoveFirstIsWithout<T>(s: seq<T>, x: T)
    ensures RemoveFirst(s, x) == Without(s, FirstIndex(s, x))
  {
    if s != [] && s[0] != x {
      var t := s[1..];
      assert s == [s[0]] + t;
      RemoveFirstIsWithout(t, x);
      ConsWithout(s[0], t, FirstIndex(t, x));
    }
  }

  /** Taking out a position commutes with putting an element in front. */
  lemma ConsWithout<T>(a: T, t: seq<T>, k: nat)
    ensures [a] + Without(t, k) == Without([a] + t, k + 1)
  {
    if k < |t| {
      var u := [a] + t;
      assert u[..k + 1] == [a] + t[..k];
      assert u[k + 2..] == t[k + 1..];
      assert [a] + (t[..k] + t[k + 1..]) == ([a] + t[..k]) + t[k + 1..];
    }
  }

  /** Removing a value that does not occur changes nothing. */
  lemma {:induction false} RemoveFirstAbsent<T>(s: seq<T>, x: T)
    requires x !in s
    ensures RemoveFirst(s, x) == s
  {
    if s != [] {
      assert s[0] != x;
      assert x !in s[1..];
      RemoveFirstAbsent(s[1..], x);
      assert [s[0]] + s[1..] == s;
    }
  }

  /** Exactly one copy of `x` goes, and only when there is one: the other values,
      duplicates of `x` included, all stay. */
  lemma {:induction false} RemoveFirstMultiset<T>(s: seq<T>, x: T)
    ensures multiset(RemoveFirst(s, x)) == multiset(s) - multiset{x}
  {
    if s == [] {
    } else if s[0] == x {
      assert s == [s[0]] + s[1..];
    } else {
      RemoveFirstMultiset(s[1..], x);
      assert s == [s[0]] + s[1..];
    }
  }

  /** A removal that does not find `x` in the front part `a` happens in the back part. */
  lemma {:induction false} RemoveFirstAppend<T>(a: seq<T>, b: seq<T>, x: T)
    requires x !in a
    ensures RemoveFirst(a + b, x) == a + RemoveFirst(b, x)
  {
    if a != [] {
      var ab := a + b;
      assert ab[0] == a[0] != x;
      assert ab[1..] == a[1..] + b;
      assert x !in a[1..];
      RemoveFirstAppend(a[1..], b, x);
      assert RemoveFirst(ab, x) == [a[0]] + RemoveFirst(a[1..] + b, x);
      var r := RemoveFirst(b, x);
      assert [a[0]] + (a[1..] + r) == ([a[0]] + a[1..]) + r;
      assert a == [a[0]] + a[1..];
    } else {
      assert a + b == b;
    }
  }

  /** Removing a value whose first occurrence sits between `a` and `b` leaves exactly
      `a` followed by `b`. */
  lemma RemoveFirstSplit<T>(a: seq<T>, x: T, b: seq<T>)
    requires x !in a
    ensures RemoveFirst(a + [x] + b, x) == a + b
  {
    assert a + [x] + b == a + ([x] + b);
    RemoveFirstAppend(a, [x] + b, x);
    assert ([x] + b)[1..] == b;
  }

  /** In a sequence without repetitions every element is its own first occurrence. */
  lemma FirstIndexOfDistinct<T>(s: seq<T>, i: nat)
    requires Distinct(s) && i < |s|
    ensures FirstIndex(s, s[i]) == i
  {
    forall j | 0 <= j < i
      ensures s[j] != s[i]
    {
      DistinctAt(s, j, i);
    }
  }

  /** Taking out one position keeps a sequence free of repetitions. */
  lemma DistinctWithout<T>(s: seq<T>, k: nat)
    requires Distinct(s)
    ensures Distinct(Without(s, k))
  {
    var r := Without(s, k);
    forall i, j | 0 <= i < j < |r|
      ensures r[i] != r[j]
    {
      var i' := if i < k then i else i + 1;
      var j' := if j < k then j else j + 1;
      assert r[i] == s[i'] && r[j] == s[j'] && i' < j';
      DistinctAt(s, i', j');
    }
    DistinctFromPairs(r);
  }

  /** The iterator's safety argument on values: when the caller removes the value it has
      just been handed (position c - 1, the cursor having moved on to c), the removal
      hits a position before the cursor, and what is left from the new cursor position
      c - 1 on is exactly what was left from c before. */
  lemma RemoveBehindCursor<T>(s: seq<T>, c: nat, x: T)
    requires 0 < c <= |s| && s[c - 1] == x
    ensures FirstIndex(s, x) < c
    ensures |RemoveFirst(s, x)| == |s| - 1
    ensures RemoveFirst(s, x)[c - 1..] == s[c..]
  {
    RemoveFirstIsWithout(s, x);
  }

  /** The iterator's safety argument on nodes: a node that sits after the removed
      position is still linked and has moved one place towards the head. */
  lemma CursorAfterRemove<T>(ns: seq<T>, k: nat, n: T)
    requires Distinct(ns) && n in ns && k < FirstIndex(ns, n)
    ensures n in Without(ns, k)
    ensures FirstIndex(Without(ns, k), n) == FirstIndex(ns, n) - 1
  {
    var c := FirstIndex(ns, n);
    var r := Without(ns, k);
    assert r[c - 1] == n;
    DistinctWithout(ns, k);
    FirstIndexOfDistinct(r, c - 1);
  }
}
