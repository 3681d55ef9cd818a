/**
  A stable sort by an integer key, standing for Python's `list.sort(key=...)`
  and `sorted(..., key=...)`. It is defined as an insertion sort; the lemmas
  show that the result is ordered by the key, is a permutation of the input,
  keeps the input order among elements with equal keys, and is the only
  sequence with those three properties, so any stable sort gives the same
  result.
 */
module Sorting {

  /** `s` is non-decreasing in `key`. */
  ghost predicate SortedBy<T>(s: seq<T>, key: T -> int)
  {
    forall i, j :: 0 <= i < j < |s| ==> key(s[i]) <= key(s[j])
  }

  /** The elements of `s` whose key is `t`, in their order in `s`. */
  function WithKey<T>(s: seq<T>, key: T -> int, t: int): (r: seq<T>)
    ensures |r| <= |s|
  {
    if s == [] then []
    else WithKey(s[..|s| - 1], key, t) + (if key(s[|s| - 1]) == t then [s[|s| - 1]] else [])
  }

  /** Inserts `x` after every element of `s` whose key is at most `key(x)`. */
  function Insert<T>(x: T, s: seq<T>, key: T -> int): (r: seq<T>)
    ensures |r| == |s| + 1
    ensures multiset(r) == multiset(s) + multiset{x}
  {
    if s == [] || key(s[|s| - 1]) <= key(x) then
      s + [x]
    else
      var init, last := s[..|s| - 1], s[|s| - 1];
      assert s == init + [last];
      Insert(x, init, key) + [last]
  }

  /** Inserting into a sorted sequence keeps it sorted. */
  lemma {:induction false} InsertSorted<T>(x: T, s: seq<T>, key: T -> int)
    requires SortedBy(s, key)
    ensures SortedBy(Insert(x, s, key), key)
  {
    if s != [] && key(s[|s| - 1]) > key(x) {
      var init, last := s[..|s| - 1], s[|s| - 1];
      assert s == init + [last];
      InsertSorted(x, init, key);
      var r0 := Insert(x, init, key);
      forall y | y in r0 ensures key(y) <= key(last) {
        assert y in multiset(init) + multiset{x};
      }
      AppendMaximal(r0, last, key);
    }
  }

  /** Appending an element with a key no smaller than any other keeps a sequence sorted. */
  lemma AppendMaximal<T>(s: seq<T>, x: T, key: T -> int)
    requires SortedBy(s, key)
    requires forall y :: y in s ==> key(y) <= key(x)
    ensures SortedBy(s + [x], key)
  {
    var r := s + [x];
    forall i, j | 0 <= i < j < |r| ensures key(r[i]) <= key(r[j]) {
      if j < |s| {
        assert r[i] == s[i] && r[j] == s[j];
      } else {
        assert r[i] in s;
      }
    }
  }

  /** The stable sort of `s` by `key`. */
  function SortBy<T>(s: seq<T>, key: T -> int): (r: seq<T>)
    ensures |r| == |s|
    ensures multiset(r) == multiset(s)
    ensures SortedBy(r, key)
  {
    if s == [] then []
    else
      assert s == s[..|s| - 1] + [s[|s| - 1]];
      InsertSorted(s[|s| - 1], SortBy(s[..|s| - 1], key), key);
      Insert(s[|s| - 1], SortBy(s[..|s| - 1], key), key)
  }

  lemma WithKeyAppend<T>(s: seq<T>, x: T, key: T -> int, t: int)
    ensures WithKey(s + [x], key, t) == WithKey(s, key, t) + (if key(x) == t then [x] else [])
  {
    assert (s + [x])[..|s|] == s;
  }

  /** Inserting into a sorted sequence adds `x` at the end of the elements with
      its key and changes nothing else about any key's elements. */
  lemma {:induction false} WithKeyInsert<T>(x: T, s: seq<T>, key: T -> int, t: int)
    ensures WithKey(Insert(x, s, key), key, t) == WithKey(s, key, t) + (if key(x) == t then [x] else [])
  {
    if s == [] || key(s[|s| - 1]) <= key(x) {
      WithKeyAppend(s, x, key, t);
    } else {
      var init, last := s[..|s| - 1], s[|s| - 1];
      assert s == init + [last];
      WithKeyInsert(x, init, key, t);
      WithKeyAppend(Insert(x, init, key), last, key, t);
      WithKeyAppend(init, last, key, t);
    }
  }

  /** Stability: for every key, the elements with that key appear in the sorted
      sequence in the same order as in the input. */
  lemma {:induction false} SortByStable<T>(s: seq<T>, key: T -> int, t: int)
    ensures WithKey(SortBy(s, key), key, t) == WithKey(s, key, t)
  {
    if s != [] {
      var init, last := s[..|s| - 1], s[|s| - 1];
      assert s == init + [last];
      SortByStable(init, key, t);
      WithKeyInsert(last, SortBy(init, key), key, t);
      WithKeyAppend(init, last, key, t);
    }
  }

  /** The elements with key `t` are exactly the members of `s` whose key is `t`. */
  lemma {:induction false} WithKeyMembers<T>(s: seq<T>, key: T -> int, t: int, x: T)
    ensures x in WithKey(s, key, t) <==> x in s && key(x) == t
  {
    if s != [] {
      var init, last := s[..|s| - 1], s[|s| - 1];
      assert s == init + [last];
      WithKeyMembers(init, key, t, x);
    }
  }

  /** In a sorted sequence no element has a key above the last one's. */
  lemma LastIsMaximal<T>(s: seq<T>, key: T -> int, x: T)
    requires SortedBy(s, key) && x in s
    ensures key(x) <= key(s[|s| - 1])
  {
    var i :| 0 <= i < |s| && s[i] == x;
    if i < |s| - 1 {
      assert key(s[i]) <= key(s[|s| - 1]);
    }
  }

  /** Two sorted sequences that agree on every key's elements have last elements
      with the same key. */
  lemma SameLastKey<T>(a: seq<T>, b: seq<T>, key: T -> int)
    requires a != [] && b != []
    requires SortedBy(a, key) && SortedBy(b, key)
    requires forall t :: WithKey(a, key, t) == WithKey(b, key, t)
    ensures key(a[|a| - 1]) == key(b[|b| - 1])
  {
    var la, lb := a[|a| - 1], b[|b| - 1];
    WithKeyMembers(a, key, key(la), la);
    WithKeyMembers(b, key, key(la), la);
    LastIsMaximal(b, key, la);
    WithKeyMembers(b, key, key(lb), lb);
    WithKeyMembers(a, key, key(lb), lb);
    LastIsMaximal(a, key, lb);
  }

  /** Dropping last elements with the same key from two sequences that agree on
      every key's elements leaves them equal last elements and prefixes that
      again agree on every key's elements. */
  lemma SameLast<T>(a': seq<T>, la: T, b': seq<T>, lb: T, key: T -> int)
    requires key(la) == key(lb)
    requires forall t :: WithKey(a' + [la], key, t) == WithKey(b' + [lb], key, t)
    ensures la == lb
    ensures forall t :: WithKey(a', key, t) == WithKey(b', key, t)
  {
    var m := key(la);
    WithKeyAppend(a', la, key, m);
    WithKeyAppend(b', lb, key, m);
    var x, y := WithKey(a', key, m), WithKey(b', key, m);
    assert x + [la] == y + [lb];
    assert x == (x + [la])[..|x|] && y == (y + [lb])[..|y|];
    forall t ensures WithKey(a', key, t) == WithKey(b', key, t) {
      if t != m {
        WithKeyAppend(a', la, key, t);
        WithKeyAppend(b', lb, key, t);
        assert WithKey(a', key, t) == WithKey(a' + [la], key, t);
        assert WithKey(b', key, t) == WithKey(b' + [lb], key, t);
      }
    }
  }

  /** A sorted sequence is determined by its elements of each key, in order: two
      sorted sequences that agree on every key's elements are equal. */
  lemma {:induction false} SortedUnique<T>(a: seq<T>, b: seq<T>, key: T -> int)
    requires SortedBy(a, key) && SortedBy(b, key)
    requires forall t :: WithKey(a, key, t) == WithKey(b, key, t)
    ensures a == b
  {
    if a == [] && b != [] {
      WithKeyMembers(b, key, key(b[0]), b[0]);
    } else if a != [] && b == [] {
      WithKeyMembers(a, key, key(a[0]), a[0]);
    } else if a != [] {
      var a', b' := a[..|a| - 1], b[..|b| - 1];
      assert a == a' + [a[|a| - 1]] && b == b' + [b[|b| - 1]];
      SameLastKey(a, b, key);
      SameLast(a', a[|a| - 1], b', b[|b| - 1], key);
      SortedUnique(a', b', key);
    }
  }

  /** Any sequence that is sorted by `key` and keeps, for every key, the input's
      order of the elements with that key is `SortBy(s, key)`. */
  lemma StableSortIsSortBy<T>(s: seq<T>, r: seq<T>, key: T -> int)
    requires SortedBy(r, key)
    requires forall t :: WithKey(r, key, t) == WithKey(s, key, t)
    ensures r == SortBy(s, key)
  {
    forall t ensures WithKey(r, key, t) == WithKey(SortBy(s, key), key, t) {
      SortByStable(s, key, t);
    }
    SortedUnique(r, SortBy(s, key), key);
  }

  /** No element occurs twice in `s`. */
  ghost predicate Distinct<T>(s: seq<T>)
  {
    forall a, b :: 0 <= a < b < |s| ==> s[a] != s[b]
  }

  lemma {:induction false} DistinctCount<T>(s: seq<T>, x: T)
    requires Distinct(s)
    ensures multiset(s)[x] <= 1
  {
    if s != [] {
      var init := s[..|s| - 1];
      assert s == init + [s[|s| - 1]];
      assert Distinct(init);
      DistinctCount(init, x);
      assert s[|s| - 1] == x ==> x !in init;
    }
  }

  lemma RepeatCount<T>(s: seq<T>, a: nat, b: nat)
    requires a < b < |s|
    ensures s[a] == s[b] ==> multiset(s)[s[a]] >= 2
  {
    var x := s[a];
    assert s == s[..a] + [x] + s[a + 1..b] + [s[b]] + s[b + 1..];
  }

  /** A permutation of a sequence without repetitions has none either. */
  lemma PermutationDistinct<T>(s: seq<T>, r: seq<T>)
    requires multiset(r) == multiset(s) && Distinct(s)
    ensures Distinct(r)
  {
    forall a, b | 0 <= a < b < |r| ensures r[a] != r[b] {
      DistinctCount(s, r[a]);
      RepeatCount(r, a, b);
    }
  }
}
