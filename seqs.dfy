/** `Array.prototype.filter` and the facts about it the grid relies on. */
module Seqs {
  import opened Types

  /** The elements of `s` satisfying `p`, in their original order. */
  function Filter<T>(s: seq<T>, p: T -> bool): (r: seq<T>)
    ensures |r| <= |s|
    ensures forall x | x in r :: x in s && p(x)
    ensures forall x | x in s && p(x) :: x in r
  {
    if s == [] then []
    else (if p(s[0]) then [s[0]] else []) + Filter(s[1..], p)
  }

  /** `Array.prototype.find`: the first element satisfying `p`, if any. */
  function FindFirst<T>(s: seq<T>, p: T -> bool): (r: Option<T>)
    ensures r.Some? <==> exists i :: 0 <= i < |s| && p(s[i])
    ensures r.Some? ==> exists i | 0 <= i < |s| :: s[i] == r.value && p(s[i]) && forall j | 0 <= j < i :: !p(s[j])
  {
    if s == [] then None
    else if p(s[0]) then Some(s[0])
    else
      var r := FindFirst(s[1..], p);
      assert r.Some? ==> exists i | 0 <= i < |s| :: s[i] == r.value && p(s[i]) && forall j | 0 <= j < i :: !p(s[j]) by {
        if r.Some? {
          var i :| 0 <= i < |s[1..]| && s[1..][i] == r.value && p(s[1..][i]) && forall j | 0 <= j < i :: !p(s[1..][j]);
          assert forall j | 0 <= j < i + 1 :: !p(s[j]) by {
            forall j | 0 <= j < i + 1 ensures !p(s[j]) {
              if j > 0 {
                assert s[j] == s[1..][j - 1];
              }
            }
          }
          assert s[i + 1] == r.value;
        }
      }
      assert (exists i :: 0 <= i < |s[1..]| && p(s[1..][i])) ==> (exists i :: 0 <= i < |s| && p(s[i])) by {
        if exists i :: 0 <= i < |s[1..]| && p(s[1..][i]) {
          var i :| 0 <= i < |s[1..]| && p(s[1..][i]);
          assert s[i + 1] == s[1..][i];
        }
      }
      assert (exists i :: 0 <= i < |s| && p(s[i])) ==> (exists i :: 0 <= i < |s[1..]| && p(s[1..][i])) by {
        if exists i :: 0 <= i < |s| && p(s[i]) {
          var i :| 0 <= i < |s| && p(s[i]);
          assert i > 0 && s[1..][i - 1] == s[i];
        }
      }
      r
  }

  /** `a` can be obtained from `b` by deleting elements, keeping the order. */
  predicate Subsequence<T(==)>(a: seq<T>, b: seq<T>)
    decreases |b|
  {
    if a == [] then true
    else if b == [] then false
    else (a[0] == b[0] && Subsequence(a[1..], b[1..])) || Subsequence(a, b[1..])
  }

  /** Filtering never reorders: the result is a subsequence of the input. */
  lemma {:induction false} FilterIsSubsequence<T>(s: seq<T>, p: T -> bool)
    ensures Subsequence(Filter(s, p), s)
  {
    if s != [] {
      FilterIsSubsequence(s[1..], p);
      var rest := Filter(s[1..], p);
      if p(s[0]) {
        assert Filter(s, p) == [s[0]] + rest;
        assert ([s[0]] + rest)[1..] == rest;
      } else {
        assert Filter(s, p) == rest;
        if rest != [] {
          assert Subsequence(rest, s[1..]);
        }
      }
    }
  }

  /** Filtering with a predicate that holds everywhere changes nothing. */
  lemma {:induction false} FilterAll<T>(s: seq<T>, p: T -> bool)
    requires forall x :: x in s ==> p(x)
    ensures Filter(s, p) == s
  {
    if s != [] {
      assert forall x :: x in s[1..] ==> x in s;
      FilterAll(s[1..], p);
    }
  }

  /** Keys extracted by `key` are pairwise distinct along `s`. */
  ghost predicate DistinctBy<T, K>(s: seq<T>, key: T -> K) {
    forall i, j :: 0 <= i < j < |s| ==> key(s[i]) != key(s[j])
  }

  /** Dropping the head keeps keys distinct. */
  lemma DistinctTail<T, K>(s: seq<T>, key: T -> K)
    requires s != [] && DistinctBy(s, key)
    ensures DistinctBy(s[1..], key)
    ensures forall x | x in s[1..] :: key(x) != key(s[0])
  {
    var tail := s[1..];
    forall i, j | 0 <= i < j < |tail| ensures key(tail[i]) != key(tail[j]) {
      assert tail[i] == s[i + 1] && tail[j] == s[j + 1];
    }
    forall x | x in tail ensures key(x) != key(s[0]) {
      var j :| 0 <= j < |tail| && tail[j] == x;
      assert s[j + 1] == x;
    }
  }

  /** Putting an element with a fresh key in front keeps keys distinct. */
  lemma DistinctCons<T, K>(h: T, rest: seq<T>, key: T -> K)
    requires DistinctBy(rest, key)
    requires forall x | x in rest :: key(x) != key(h)
    ensures DistinctBy([h] + rest, key)
  {
    var r := [h] + rest;
    forall i, j | 0 <= i < j < |r| ensures key(r[i]) != key(r[j]) {
      assert r[j] == rest[j - 1] && r[j] in rest;
      if i > 0 {
        assert r[i] == rest[i - 1];
      }
    }
  }

  /** Filtering keeps keys distinct. */
  lemma {:induction false} FilterDistinct<T, K>(s: seq<T>, key: T -> K, p: T -> bool)
    requires DistinctBy(s, key)
    ensures DistinctBy(Filter(s, p), key)
  {
    if s != [] {
      DistinctTail(s, key);
      FilterDistinct(s[1..], key, p);
      if p(s[0]) {
        DistinctCons(s[0], Filter(s[1..], p), key);
      }
    }
  }

  /** Some element of `s` has key `k`. */
  ghost predicate HasKey<T, K>(s: seq<T>, key: T -> K, k: K) {
    exists i :: 0 <= i < |s| && key(s[i]) == k
  }

  /** Removing the elements whose key is `k` from a sequence with distinct keys drops at most one. */
  lemma {:induction false} FilterOutDistinct<T, K>(s: seq<T>, key: T -> K, k: K, p: T -> bool)
    requires DistinctBy(s, key)
    requires forall x :: p(x) == (key(x) != k)
    ensures DistinctBy(Filter(s, p), key)
    ensures |Filter(s, p)| == if HasKey(s, key, k) then |s| - 1 else |s|
  {
    FilterDistinct(s, key, p);
    if s != [] {
      var tail := s[1..];
      DistinctTail(s, key);
      FilterOutDistinct(tail, key, k, p);
      if p(s[0]) {
        assert |Filter(s, p)| == 1 + |Filter(tail, p)|;
        assert HasKey(s, key, k) == HasKey(tail, key, k) by {
          if HasKey(s, key, k) {
            var i :| 0 <= i < |s| && key(s[i]) == k;
            assert key(tail[i - 1]) == k;
          }
          if HasKey(tail, key, k) {
            var i :| 0 <= i < |tail| && key(tail[i]) == k;
            assert key(s[i + 1]) == k;
          }
        }
      } else {
        assert Filter(s, p) == Filter(tail, p);
        assert key(s[0]) == k;
        assert HasKey(s, key, k);
        assert !HasKey(tail, key, k) by {
          forall i | 0 <= i < |tail| ensures key(tail[i]) != k {
            assert tail[i] in tail;
          }
        }
      }
    }
  }

  /** Every sequence is a subsequence of itself. */
  lemma {:induction false} SubsequenceRefl<T>(s: seq<T>)
    ensures Subsequence(s, s)
  {
    if s != [] {
      SubsequenceRefl(s[1..]);
    }
  }

  /** What a filter keeps and what the complementary filter keeps add up to the whole. */
  lemma {:induction false} FilterComplement<T>(s: seq<T>, p: T -> bool, q: T -> bool)
    requires forall x :: q(x) == !p(x)
    ensures |Filter(s, p)| + |Filter(s, q)| == |s|
  {
    if s != [] {
      FilterComplement(s[1..], p, q);
    }
  }
}
