/**
 * Ranking of release candidates: Python's comparison of int lists and
 * `list.sort(key=..., reverse=True)`, which is stable.
 */
module Ranking {

  /** One element of the resolver's list: {"image_version_list": ..., "image_tag_name": ...}. */
  datatype Candidate = Candidate(versionList: seq<nat>, tagName: string)

  /** Python's `a < b` on lists of ints: lexicographic, a proper prefix is smaller. */
  predicate KeyLess(a: seq<int>, b: seq<int>)
    ensures KeyLess(a, b) ==> a != b
    decreases |a|
  {
    if a == [] then b != []
    else if b == [] then false
    else a[0] < b[0] || (a[0] == b[0] && KeyLess(a[1..], b[1..]))
  }

  lemma {:induction false} KeyLessTransitive(a: seq<int>, b: seq<int>, c: seq<int>)
    requires KeyLess(a, b) && KeyLess(b, c)
    ensures KeyLess(a, c)
    decreases |a|
  {
    if a != [] && b != [] && c != [] && a[0] == b[0] == c[0] {
      KeyLessTransitive(a[1..], b[1..], c[1..]);
    }
  }

  lemma {:induction false} KeyLessTotal(a: seq<int>, b: seq<int>)
    ensures a == b || KeyLess(a, b) || KeyLess(b, a)
    decreases |a|
  {
    if a != [] && b != [] && a[0] == b[0] {
      KeyLessTotal(a[1..], b[1..]);
      if a[1..] == b[1..] {
        assert a == [a[0]] + a[1..] && b == [b[0]] + b[1..];
      }
    }
  }

  lemma KeyLessAsymmetric(a: seq<int>, b: seq<int>)
    requires KeyLess(a, b)
    ensures !KeyLess(b, a)
  {
    if KeyLess(b, a) {
      KeyLessTransitive(a, b, a);
    }
  }

  /** "Not smaller" (>=) is transitive. */
  lemma NotLessTransitive(a: seq<int>, b: seq<int>, c: seq<int>)
    requires !KeyLess(a, b) && !KeyLess(b, c)
    ensures !KeyLess(a, c)
  {
    KeyLessTotal(a, b);
    KeyLessTotal(b, c);
    if a != b && b != c {
      KeyLessTransitive(c, b, a);
      KeyLessAsymmetric(c, a);
    }
  }

  /** Non-increasing by key: no later element has a greater key than an earlier one. */
  predicate SortedDescending(s: seq<Candidate>) {
    forall i, j :: 0 <= i < j < |s| ==> !KeyLess(s[i].versionList, s[j].versionList)
  }

  /** The candidates whose key is exactly k, in their order in s. */
  function WithKey(s: seq<Candidate>, k: seq<nat>): seq<Candidate> {
    if s == [] then []
    else (if s[0].versionList == k then [s[0]] else []) + WithKey(s[1..], k)
  }

  /**
   * Inserts x, which comes before every element of s in the input, ahead of
   * the first element whose key is not greater than its own.
   */
  function Insert(x: Candidate, s: seq<Candidate>): seq<Candidate> {
    if s == [] then [x]
    else if KeyLess(x.versionList, s[0].versionList) then [s[0]] + Insert(x, s[1..])
    else [x] + s
  }

  /**
   * `list.sort(key=lambda c: c["image_version_list"], reverse=True)`, by
   * insertion; the result is a permutation of the input.
   */
  function SortDescending(s: seq<Candidate>): (r: seq<Candidate>)
    ensures multiset(r) == multiset(s)
  {
    if s == [] then []
    else
      InsertMultiset(s[0], SortDescending(s[1..]));
      assert s == [s[0]] + s[1..];
      Insert(s[0], SortDescending(s[1..]))
  }

  lemma {:induction false} InsertMultiset(x: Candidate, s: seq<Candidate>)
    ensures multiset(Insert(x, s)) == multiset(s) + multiset{x}
  {
    if s != [] && KeyLess(x.versionList, s[0].versionList) {
      InsertMultiset(x, s[1..]);
      assert s == [s[0]] + s[1..];
    }
  }

  lemma {:induction false} InsertSorted(x: Candidate, s: seq<Candidate>)
    requires SortedDescending(s)
    ensures SortedDescending(Insert(x, s))
  {
    if s == [] {
    } else if KeyLess(x.versionList, s[0].versionList) {
      var rest := Insert(x, s[1..]);
      InsertSorted(x, s[1..]);
      InsertMultiset(x, s[1..]);
      forall j | 0 <= j < |rest|
        ensures !KeyLess(s[0].versionList, rest[j].versionList)
      {
        assert rest[j] in multiset(rest);
        if rest[j] == x {
          KeyLessAsymmetric(x.versionList, s[0].versionList);
        } else {
          assert rest[j] in s[1..];
        }
      }
    } else {
      forall j | 0 <= j < |s|
        ensures !KeyLess(x.versionList, s[j].versionList)
      {
        if j > 0 {
          NotLessTransitive(x.versionList, s[0].versionList, s[j].versionList);
        }
      }
    }
  }

  lemma {:induction false} InsertWithKey(x: Candidate, s: seq<Candidate>, k: seq<nat>)
    ensures WithKey(Insert(x, s), k) == WithKey([x] + s, k)
  {
    if s != [] && KeyLess(x.versionList, s[0].versionList) {
      InsertWithKey(x, s[1..], k);
      assert !KeyLess(x.versionList, x.versionList);
      assert ([x] + s)[1..] == s;
      assert ([s[0]] + Insert(x, s[1..]))[1..] == Insert(x, s[1..]);
      assert ([x] + s[1..])[1..] == s[1..];
    }
  }

  /** The sort orders the candidates from the greatest key to the smallest. */
  lemma {:induction false} SortIsSorted(s: seq<Candidate>)
    ensures SortedDescending(SortDescending(s))
  {
    if s != [] {
      SortIsSorted(s[1..]);
      InsertSorted(s[0], SortDescending(s[1..]));
    }
  }

  /** The sort is stable: candidates with equal keys keep their relative order. */
  lemma {:induction false} SortIsStable(s: seq<Candidate>, k: seq<nat>)
    ensures WithKey(SortDescending(s), k) == WithKey(s, k)
  {
    if s != [] {
      SortIsStable(s[1..], k);
      InsertWithKey(s[0], SortDescending(s[1..]), k);
      assert ([s[0]] + SortDescending(s[1..]))[1..] == SortDescending(s[1..]);
    }
  }

  lemma {:induction false} WithKeyEmpty(s: seq<Candidate>, i: nat)
    requires i < |s|
    ensures WithKey(s, s[i].versionList) != []
  {
    if i > 0 {
      WithKeyEmpty(s[1..], i - 1);
    }
  }

  lemma {:induction false} WithKeyMember(s: seq<Candidate>, k: seq<nat>, c: Candidate)
    requires c in WithKey(s, k)
    ensures c in s && c.versionList == k
  {
    if s != [] && c !in (if s[0].versionList == k then [s[0]] else []) {
      WithKeyMember(s[1..], k, c);
    }
  }

  /** Two descending arrangements with the same candidates per key are equal. */
  lemma {:induction false} SortedArrangementUnique(t: seq<Candidate>, u: seq<Candidate>)
    requires SortedDescending(t) && SortedDescending(u)
    requires forall k :: WithKey(t, k) == WithKey(u, k)
    ensures t == u
    decreases |t|
  {
    if t != [] {
      WithKeyEmpty(t, 0);
    }
    if u != [] {
      WithKeyEmpty(u, 0);
    }
    if t != [] && u != [] {
      var k0, k1 := t[0].versionList, u[0].versionList;
      var c1 := WithKey(t, k1)[0];
      WithKeyMember(t, k1, c1);
      var c0 := WithKey(u, k0)[0];
      WithKeyMember(u, k0, c0);
      assert !KeyLess(k0, k1) by {
        var i :| 0 <= i < |t| && t[i] == c1;
        if i > 0 {
          assert !KeyLess(t[0].versionList, t[i].versionList);
        } else {
          assert !KeyLess(k0, k0);
        }
      }
      assert !KeyLess(k1, k0) by {
        var i :| 0 <= i < |u| && u[i] == c0;
        if i > 0 {
          assert !KeyLess(u[0].versionList, u[i].versionList);
        } else {
          assert !KeyLess(k1, k1);
        }
      }
      KeyLessTotal(k0, k1);
      assert WithKey(t, k0) == [t[0]] + WithKey(t[1..], k0);
      assert WithKey(u, k0) == [u[0]] + WithKey(u[1..], k0);
      assert t[0] == WithKey(t, k0)[0] == WithKey(u, k0)[0] == u[0];
      forall k
        ensures WithKey(t[1..], k) == WithKey(u[1..], k)
      {
        assert WithKey(t, k) == WithKey(u, k);
        if k == k0 {
          assert WithKey(t[1..], k) == WithKey(t, k)[1..];
          assert WithKey(u[1..], k) == WithKey(u, k)[1..];
        } else {
          assert WithKey(t[1..], k) == WithKey(t, k);
          assert WithKey(u[1..], k) == WithKey(u, k);
        }
      }
      SortedArrangementUnique(t[1..], u[1..]);
      assert t == [t[0]] + t[1..] && u == [u[0]] + u[1..];
    }
  }

  /**
   * The sort's result is the only descending, stable arrangement of its input:
   * any stable descending sort (Python's Timsort included) returns exactly it.
   */
  lemma SortIsOnlyStableOrder(s: seq<Candidate>, t: seq<Candidate>)
    requires SortedDescending(t)
    requires forall k :: WithKey(t, k) == WithKey(s, k)
    ensures t == SortDescending(s)
  {
    SortIsSorted(s);
    forall k
      ensures WithKey(t, k) == WithKey(SortDescending(s), k)
    {
      SortIsStable(s, k);
    }
    SortedArrangementUnique(t, SortDescending(s));
  }
}
