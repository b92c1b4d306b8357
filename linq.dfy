/**
 * The LINQ operators the handlers run against the store: `FirstOrDefault`
 * (as the index of the first match), `Where` and `Select`.
 */
module Linq {
  import opened Wrappers

  /** `FirstOrDefault(p)`: the position of the first element satisfying `p`, if any. */
  function FirstIndex<T>(s: seq<T>, p: T -> bool): (r: Option<nat>)
    ensures r.Some? ==> r.value < |s| && p(s[r.value])
    ensures r.Some? ==> forall j :: 0 <= j < r.value ==> !p(s[j])
    ensures r.None? <==> forall j :: 0 <= j < |s| ==> !p(s[j])
  {
    if s == [] then None
    else if p(s[0]) then Some(0)
    else match FirstIndex(s[1..], p)
      case None => None
      case Some(k) => Some(k + 1)
  }

  /** `FirstOrDefault` depends only on which positions match. */
  lemma {:induction false} FirstIndexAgree<T>(s: seq<T>, s': seq<T>, p: T -> bool, q: T -> bool)
    requires |s| == |s'| && forall j :: 0 <= j < |s| ==> (p(s[j]) <==> q(s'[j]))
    ensures FirstIndex(s, p) == FirstIndex(s', q)
  {
    if s != [] && !p(s[0]) {
      FirstIndexAgree(s[1..], s'[1..], p, q);
    }
  }

  /** The number of elements satisfying `p`. */
  function Count<T>(s: seq<T>, p: T -> bool): (n: nat)
    ensures n <= |s|
  {
    if s == [] then 0 else (if p(s[0]) then 1 else 0) + Count(s[1..], p)
  }

  /**
   * `Where(p)`: the elements satisfying `p`; `WhereCount` and `WhereMultiset`
   * show that each is kept as often as it occurs in `s`, and `WhereAppend` that
   * they keep the order of `s`.
   */
  function Where<T>(s: seq<T>, p: T -> bool): (r: seq<T>)
    ensures |r| <= |s|
    ensures forall i :: 0 <= i < |r| ==> r[i] in s && p(r[i])
    ensures forall j :: 0 <= j < |s| && p(s[j]) ==> s[j] in r
  {
    if s == [] then []
    else if p(s[0]) then [s[0]] + Where(s[1..], p)
    else Where(s[1..], p)
  }

  /** `Where(p)` has one element per element of `s` that satisfies `p`. */
  lemma {:induction false} WhereCount<T>(s: seq<T>, p: T -> bool)
    ensures |Where(s, p)| == Count(s, p)
  {
    if s != [] {
      WhereCount(s[1..], p);
    }
  }

  /** `Where(p)` keeps every element that satisfies `p` as many times as `s` holds it, and drops the rest. */
  lemma {:induction false} WhereMultiset<T>(s: seq<T>, p: T -> bool)
    ensures forall x :: multiset(Where(s, p))[x] == if p(x) then multiset(s)[x] else 0
  {
    if s != [] {
      WhereMultiset(s[1..], p);
      assert s == [s[0]] + s[1..];
    }
  }

  /** `Select(f)`: `f` applied to every element, in order. */
  function Select<T, U>(s: seq<T>, f: T -> U): (r: seq<U>)
    ensures |r| == |s|
    ensures forall i :: 0 <= i < |s| ==> r[i] == f(s[i])
  {
    if s == [] then [] else [f(s[0])] + Select(s[1..], f)
  }

  /**
   * `Where(p).Select(f)`: every result is the image of an element that passes,
   * and the image of every element that passes is among the results.
   */
  lemma SelectWhere<T, U>(s: seq<T>, p: T -> bool, f: T -> U)
    ensures var r := Select(Where(s, p), f);
            && (forall i :: 0 <= i < |r| ==> exists j :: 0 <= j < |s| && p(s[j]) && r[i] == f(s[j]))
            && (forall j :: 0 <= j < |s| && p(s[j]) ==> f(s[j]) in r)
  {
    var kept := Where(s, p);
    var r := Select(kept, f);
    forall j | 0 <= j < |s| && p(s[j]) ensures f(s[j]) in r {
      var k :| 0 <= k < |kept| && kept[k] == s[j];
      assert r[k] == f(s[j]);
    }
    forall i | 0 <= i < |r| ensures exists j :: 0 <= j < |s| && p(s[j]) && r[i] == f(s[j]) {
      var j :| 0 <= j < |s| && s[j] == kept[i];
      assert p(s[j]) && r[i] == f(s[j]);
    }
  }

  /** When every element passes, `Where` keeps the whole sequence. */
  lemma {:induction false} WhereAll<T>(s: seq<T>, p: T -> bool)
    requires forall j :: 0 <= j < |s| ==> p(s[j])
    ensures Where(s, p) == s
  {
    if s != [] {
      WhereAll(s[1..], p);
    }
  }

  /** When no element passes, `Where` yields nothing. */
  lemma {:induction false} WhereNone<T>(s: seq<T>, p: T -> bool)
    requires forall j :: 0 <= j < |s| ==> !p(s[j])
    ensures Where(s, p) == []
  {
    if s != [] {
      WhereNone(s[1..], p);
    }
  }

  /** Removing the one element that fails `p` is the same as filtering by `p`. */
  lemma {:induction false} WhereDropsOne<T>(s: seq<T>, p: T -> bool, i: nat)
    requires i < |s| && !p(s[i])
    requires forall j :: 0 <= j < |s| && j != i ==> p(s[j])
    ensures Where(s, p) == s[..i] + s[i + 1..]
  {
    var tail := s[1..];
    if i == 0 {
      WhereAll(tail, p);
      assert s[..0] + s[1..] == tail;
    } else {
      assert forall j :: 0 <= j < |tail| && j != i - 1 ==> p(tail[j]) by {
        forall j | 0 <= j < |tail| && j != i - 1 ensures p(tail[j]) {
          assert tail[j] == s[j + 1];
        }
      }
      WhereDropsOne(tail, p, i - 1);
      calc {
        Where(s, p);
        [s[0]] + Where(tail, p);
        [s[0]] + (tail[..i - 1] + tail[i..]);
        { assert tail[..i - 1] == s[1..i] && tail[i..] == s[i + 1..]; }
        [s[0]] + (s[1..i] + s[i + 1..]);
        { assert s[..i] == [s[0]] + s[1..i]; }
        s[..i] + s[i + 1..];
      }
    }
  }

  /** Filtering distributes over concatenation, so appending one element extends the filter by at most it. */
  lemma {:induction false} WhereAppend<T>(s: seq<T>, x: T, p: T -> bool)
    ensures Where(s + [x], p) == Where(s, p) + (if p(x) then [x] else [])
  {
    if s == [] {
      assert [x][1..] == [];
    } else {
      assert (s + [x])[1..] == s[1..] + [x];
      WhereAppend(s[1..], x, p);
    }
  }

  /** No two elements of `s` share a key. */
  predicate KeysDistinct<T, K(==)>(s: seq<T>, key: T -> K) {
    forall i, j :: 0 <= i < j < |s| ==> key(s[i]) != key(s[j])
  }

  /** A filter of a sequence whose keys are pairwise distinct has pairwise distinct keys too. */
  lemma {:induction false} WhereKeepsKeysDistinct<T, K>(s: seq<T>, p: T -> bool, key: T -> K)
    requires KeysDistinct(s, key)
    ensures KeysDistinct(Where(s, p), key)
  {
    if s != [] {
      assert KeysDistinct(s[1..], key) by {
        forall i, j | 0 <= i < j < |s[1..]| ensures key(s[1..][i]) != key(s[1..][j]) {
          assert s[1..][i] == s[i + 1] && s[1..][j] == s[j + 1];
        }
      }
      WhereKeepsKeysDistinct(s[1..], p, key);
      var rest := Where(s[1..], p);
      forall i | 0 <= i < |rest| ensures key(rest[i]) != key(s[0]) {
        var j :| 0 <= j < |s[1..]| && s[1..][j] == rest[i];
        assert s[j + 1] == rest[i];
      }
      if p(s[0]) {
        var w := [s[0]] + rest;
        assert Where(s, p) == w;
        forall i, j | 0 <= i < j < |w| ensures key(w[i]) != key(w[j]) {
          if i == 0 {
            assert w[j] == rest[j - 1];
          } else {
            assert w[i] == rest[i - 1] && w[j] == rest[j - 1];
          }
        }
      }
    }
  }
}
