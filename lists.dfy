/**
 * The array operations the in-memory repositories are built from:
 * `Array.prototype.filter`, `find` and `findIndex` over records identified by
 * a string key, and the keyed upsert that both `save` methods perform.
 * Everything is generic in the record type; `key` extracts the identifier.
 */
module Lists {
  import opened Wrappers

  // ---------------------------------------------------------------------------
  // filter
  // ---------------------------------------------------------------------------

  /** `s.filter(p)`: the elements of `s` that satisfy `p`, in their order in `s`. */
  function Filter<T>(s: seq<T>, p: T -> bool): (r: seq<T>)
    ensures |r| <= |s|
    ensures forall i :: 0 <= i < |r| ==> r[i] in s && p(r[i])
    ensures forall i :: 0 <= i < |s| && p(s[i]) ==> s[i] in r
  {
    if s == [] then []
    else
      assert s == [s[0]] + s[1..];
      (if p(s[0]) then [s[0]] else []) + Filter(s[1..], p)
  }

  /** `r` is obtained from `s` by deleting elements: same order, nothing invented. */
  ghost predicate SubsequenceOf<T>(r: seq<T>, s: seq<T>)
    decreases |s|
  {
    if r == [] then true
    else if s == [] then false
    else (r[0] == s[0] && SubsequenceOf(r[1..], s[1..])) || SubsequenceOf(r, s[1..])
  }

  /** Filtering never reorders and never invents: the result is a subsequence. */
  lemma {:induction false} FilterIsSubsequence<T>(s: seq<T>, p: T -> bool)
    ensures SubsequenceOf(Filter(s, p), s)
  {
    if s != [] {
      FilterIsSubsequence(s[1..], p);
      var r := Filter(s, p);
      if p(s[0]) {
        assert r[0] == s[0] && r[1..] == Filter(s[1..], p);
      } else {
        assert r == Filter(s[1..], p);
        if r != [] {
          assert SubsequenceOf(r, s[1..]);
        }
      }
    }
  }

  /** Every occurrence of a kept value is kept, every other value is dropped. */
  lemma {:induction false} FilterKeepsEveryOccurrence<T>(s: seq<T>, p: T -> bool, x: T)
    ensures multiset(Filter(s, p))[x] == if p(x) then multiset(s)[x] else 0
  {
    if s != [] {
      FilterKeepsEveryOccurrence(s[1..], p, x);
      assert s == [s[0]] + s[1..];
      assert multiset(s) == multiset([s[0]]) + multiset(s[1..]);
      var head := if p(s[0]) then [s[0]] else [];
      assert Filter(s, p) == head + Filter(s[1..], p);
      assert multiset(Filter(s, p)) == multiset(head) + multiset(Filter(s[1..], p));
    }
  }

  /** Filtering distributes over concatenation, so relative order is kept. */
  lemma {:induction false} FilterAppend<T>(a: seq<T>, b: seq<T>, p: T -> bool)
    ensures Filter(a + b, p) == Filter(a, p) + Filter(b, p)
  {
    if a == [] {
      assert a + b == b;
    } else {
      assert (a + b)[0] == a[0];
      assert (a + b)[1..] == a[1..] + b;
      FilterAppend(a[1..], b, p);
    }
  }

  /** Two tests that agree on every element of `s` filter it identically. */
  lemma {:induction false} FilterCongruence<T>(s: seq<T>, p: T -> bool, q: T -> bool)
    requires forall x :: x in s ==> p(x) == q(x)
    ensures Filter(s, p) == Filter(s, q)
  {
    if s != [] {
      assert s[0] in s;
      forall x | x in s[1..] ensures p(x) == q(x) {
        assert x in s;
      }
      FilterCongruence(s[1..], p, q);
    }
  }

  // ---------------------------------------------------------------------------
  // keys
  // ---------------------------------------------------------------------------

  /** Some element of `s` has key `k`. */
  predicate HasKey<T>(s: seq<T>, key: T -> string, k: string)
  {
    exists i :: 0 <= i < |s| && key(s[i]) == k
  }

  /** No two positions of `s` carry the same key. */
  predicate KeysDistinct<T>(s: seq<T>, key: T -> string)
  {
    forall i, j :: 0 <= i < j < |s| ==> key(s[i]) != key(s[j])
  }

  /** Keeping a subset of the elements, in order, keeps the keys distinct. */
  lemma {:induction false} FilterKeepsKeysDistinct<T>(s: seq<T>, p: T -> bool, key: T -> string)
    requires KeysDistinct(s, key)
    ensures KeysDistinct(Filter(s, p), key)
  {
    if s != [] {
      var rest := s[1..];
      assert KeysDistinct(rest, key) by {
        forall i, j | 0 <= i < j < |rest| ensures key(rest[i]) != key(rest[j]) {
          assert rest[i] == s[i + 1] && rest[j] == s[j + 1];
        }
      }
      FilterKeepsKeysDistinct(rest, p, key);
      var tail := Filter(rest, p);
      if p(s[0]) {
        var r := Filter(s, p);
        assert r == [s[0]] + tail;
        forall i, j | 0 <= i < j < |r| ensures key(r[i]) != key(r[j]) {
          if i == 0 {
            assert r[j] == tail[j - 1];
            assert tail[j - 1] in rest;
            var k :| 0 <= k < |rest| && rest[k] == tail[j - 1];
            assert rest[k] == s[k + 1];
          } else {
            assert r[i] == tail[i - 1] && r[j] == tail[j - 1];
          }
        }
      }
    }
  }

  // ---------------------------------------------------------------------------
  // findIndex and find
  // ---------------------------------------------------------------------------

  /** `s.findIndex(x => key(x) === k)`: the first position with key `k`, or -1. */
  function IndexOf<T>(s: seq<T>, key: T -> string, k: string): (i: int)
    ensures -1 <= i < |s|
    ensures i == -1 <==> !HasKey(s, key, k)
    ensures 0 <= i ==> key(s[i]) == k && forall j :: 0 <= j < i ==> key(s[j]) != k
  {
    if s == [] then -1
    else if key(s[0]) == k then 0
    else
      var j := IndexOf(s[1..], key, k);
      assert forall m :: 0 < m < |s| ==> s[m] == s[1..][m - 1];
      if j == -1 then -1 else j + 1
  }

  /** `s.find(x => key(x) === k) || null`: the first element with key `k`, if any. */
  function Find<T>(s: seq<T>, key: T -> string, k: string): (r: Option<T>)
    ensures r.None? <==> !HasKey(s, key, k)
    ensures r.Some? ==> r.value in s && key(r.value) == k
  {
    if s == [] then None
    else if key(s[0]) == k then Some(s[0])
    else
      assert forall m :: 0 < m < |s| ==> s[m] == s[1..][m - 1];
      Find(s[1..], key, k)
  }

  /** `find` and `findIndex` pick the same element: the first match. */
  lemma {:induction false} FindIsFirst<T>(s: seq<T>, key: T -> string, k: string)
    ensures Find(s, key, k) == if IndexOf(s, key, k) == -1 then None else Some(s[IndexOf(s, key, k)])
  {
    if s != [] && key(s[0]) != k {
      FindIsFirst(s[1..], key, k);
    }
  }

  /** Elements appended after a match do not change which element is first. */
  lemma {:induction false} IndexOfAppend<T>(s: seq<T>, t: seq<T>, key: T -> string, k: string)
    requires HasKey(s, key, k)
    ensures IndexOf(s + t, key, k) == IndexOf(s, key, k)
  {
    assert (s + t)[0] == s[0];
    if key(s[0]) != k {
      assert (s + t)[1..] == s[1..] + t;
      var i :| 0 <= i < |s| && key(s[i]) == k;
      assert s[1..][i - 1] == s[i];
      IndexOfAppend(s[1..], t, key, k);
    }
  }

  // ---------------------------------------------------------------------------
  // save: upsert by key
  // ---------------------------------------------------------------------------

  /**
   * The store after saving `x`: the first element with `x`'s key is replaced
   * in place, or `x` is appended when no element has that key.
   */
  function Upsert<T>(s: seq<T>, x: T, key: T -> string): (r: seq<T>)
    ensures |s| <= |r| <= |s| + 1
    ensures forall j :: 0 <= j < |s| ==> r[j] == s[j] || (r[j] == x && key(s[j]) == key(x))
    ensures |r| == |s| + 1 ==> r[|s|] == x && !HasKey(s, key, key(x))
  {
    var i := IndexOf(s, key, key(x));
    if i == -1 then s + [x] else s[i := x]
  }

  /** After the upsert, the first element with `x`'s key is `x` itself. */
  lemma {:induction false} UpsertIndex<T>(s: seq<T>, x: T, key: T -> string)
    ensures var i := IndexOf(s, key, key(x));
            var n := IndexOf(Upsert(s, x, key), key, key(x));
            n == (if i == -1 then |s| else i) && Upsert(s, x, key)[n] == x
  {
    var k := key(x);
    var i := IndexOf(s, key, k);
    var r := Upsert(s, x, key);
    if i == -1 {
      assert r == s + [x];
      assert key(r[|s|]) == k;
      assert HasKey(r, key, k);
    } else {
      assert r == s[i := x];
      assert key(r[i]) == k;
      assert HasKey(r, key, k);
    }
  }

  /** Replace or append: the length grows by one exactly when the key was new. */
  lemma {:induction false} UpsertShape<T>(s: seq<T>, x: T, key: T -> string)
    ensures var r := Upsert(s, x, key);
            && |r| == (if HasKey(s, key, key(x)) then |s| else |s| + 1)
            && (forall j :: 0 <= j < |s| && j != IndexOf(s, key, key(x)) ==> r[j] == s[j])
            && x in r
  {
    var r := Upsert(s, x, key);
    var i := IndexOf(s, key, key(x));
    if i == -1 {
      assert r[|s|] == x;
    } else {
      assert r[i] == x;
    }
  }

  /** `findById(r.id)` right after `save` returns `r` returns `r` itself. */
  lemma {:induction false} UpsertThenFind<T>(s: seq<T>, x: T, key: T -> string)
    ensures Find(Upsert(s, x, key), key, key(x)) == Some(x)
  {
    UpsertIndex(s, x, key);
    FindIsFirst(Upsert(s, x, key), key, key(x));
  }

  /** Saving the same record twice leaves the store as the first save left it. */
  lemma {:induction false} UpsertIdempotent<T>(s: seq<T>, x: T, key: T -> string)
    ensures Upsert(Upsert(s, x, key), x, key) == Upsert(s, x, key)
  {
    var r := Upsert(s, x, key);
    UpsertIndex(s, x, key);
    var n := IndexOf(r, key, key(x));
    assert r[n := x] == r;
  }

  /** Distinct keys stay distinct: a replace keeps the key, an append brings a new one. */
  lemma UpsertKeepsKeysDistinct<T>(s: seq<T>, x: T, key: T -> string)
    requires KeysDistinct(s, key)
    ensures KeysDistinct(Upsert(s, x, key), key)
  {
  }

  /** The stored keys after the upsert are the old keys plus `x`'s key. */
  lemma {:induction false} UpsertKeys<T>(s: seq<T>, x: T, key: T -> string, k: string)
    ensures HasKey(Upsert(s, x, key), key, k) <==> HasKey(s, key, k) || k == key(x)
  {
    var r := Upsert(s, x, key);
    var i := IndexOf(s, key, key(x));
    assert forall j :: 0 <= j < |s| ==> key(r[j]) == key(s[j]);
    if i == -1 {
      assert key(r[|s|]) == key(x);
    } else {
      assert key(r[i]) == key(x);
    }
  }
}
