/**
 * Generic sequence facts shared by the table queries and the search filter:
 * an order-preserving filter (SQL `WHERE`, JavaScript `Array.prototype.filter`),
 * occurrence counts and the subsequence relation.
 */
module Seqs {

  /** The elements of `s` that satisfy `p`, in their original order. */
  function Filter<T>(s: seq<T>, p: T -> bool): (r: seq<T>)
    ensures |r| <= |s|
    ensures forall k :: 0 <= k < |r| ==> p(r[k])
    ensures forall x :: x in r ==> x in s
    decreases |s|
  {
    if s == [] then []
    else if p(s[0]) then [s[0]] + Filter(s[1..], p)
    else Filter(s[1..], p)
  }

  /** Number of positions of `s` holding `x`. */
  function Count<T(==)>(s: seq<T>, x: T): nat
    decreases |s|
  {
    if s == [] then 0 else (if s[0] == x then 1 else 0) + Count(s[1..], x)
  }

  /** Number of elements of `s` that satisfy `p`. */
  function CountIf<T>(s: seq<T>, p: T -> bool): nat
    decreases |s|
  {
    if s == [] then 0 else (if p(s[0]) then 1 else 0) + CountIf(s[1..], p)
  }

  /** `sub` is obtained from `s` by deleting some elements. */
  predicate IsSubsequence<T(==)>(sub: seq<T>, s: seq<T>)
    decreases |s|
  {
    if sub == [] then true
    else if s == [] then false
    else if sub[0] == s[0] then IsSubsequence(sub[1..], s[1..])
    else IsSubsequence(sub, s[1..])
  }

  /** Completeness of Filter: every element that satisfies `p` is kept. */
  lemma {:induction false} FilterComplete<T>(s: seq<T>, p: T -> bool, x: T)
    requires x in s && p(x)
    ensures x in Filter(s, p)
    decreases |s|
  {
    if s[0] != x {
      FilterComplete(s[1..], p, x);
    }
  }

  /** Filter keeps exactly the elements satisfying `p`, each as often as it occurs. */
  lemma {:induction false} FilterCount<T>(s: seq<T>, p: T -> bool, x: T)
    ensures Count(Filter(s, p), x) == if p(x) then Count(s, x) else 0
    decreases |s|
  {
    if s != [] {
      FilterCount(s[1..], p, x);
      if p(s[0]) {
        assert Filter(s, p)[1..] == Filter(s[1..], p);
      }
    }
  }

  /** Filter keeps as many elements as satisfy `p`. */
  lemma {:induction false} FilterSize<T>(s: seq<T>, p: T -> bool)
    ensures |Filter(s, p)| == CountIf(s, p)
    decreases |s|
  {
    if s != [] {
      FilterSize(s[1..], p);
    }
  }

  /** Filter preserves order: its result is a subsequence of its input. */
  lemma {:induction false} FilterSubsequence<T>(s: seq<T>, p: T -> bool)
    ensures IsSubsequence(Filter(s, p), s)
    decreases |s|
  {
    if s != [] {
      FilterSubsequence(s[1..], p);
      if p(s[0]) {
        assert Filter(s, p)[1..] == Filter(s[1..], p);
      } else {
        var r := Filter(s, p);
        if r != [] && r[0] == s[0] {
          // s[0] fails p but every element of r satisfies p
          assert false;
        }
      }
    }
  }

  /** Filter distributes over concatenation. */
  lemma {:induction false} FilterAppend<T>(s: seq<T>, t: seq<T>, p: T -> bool)
    ensures Filter(s + t, p) == Filter(s, p) + Filter(t, p)
    decreases |s|
  {
    if s != [] {
      assert (s + t)[1..] == s[1..] + t;
      FilterAppend(s[1..], t, p);
    } else {
      assert s + t == t;
    }
  }

  /** Filtering with a stronger predicate keeps a subsequence of the weaker filter. */
  lemma {:induction false} FilterStronger<T>(s: seq<T>, p: T -> bool, q: T -> bool)
    requires forall x :: q(x) ==> p(x)
    ensures IsSubsequence(Filter(s, q), Filter(s, p))
    decreases |s|
  {
    if s != [] {
      FilterStronger(s[1..], p, q);
      var rq, rp := Filter(s, q), Filter(s, p);
      if q(s[0]) {
        assert rq[0] == rp[0] && rq[1..] == Filter(s[1..], q) && rp[1..] == Filter(s[1..], p);
      } else if p(s[0]) {
        assert rp[1..] == Filter(s[1..], p);
        SubsequenceDropHead(rq, rp);
      }
    }
  }

  /** A subsequence of the tail is a subsequence of the whole. */
  lemma {:induction false} SubsequenceDropHead<T>(sub: seq<T>, s: seq<T>)
    requires s != [] && IsSubsequence(sub, s[1..])
    ensures IsSubsequence(sub, s)
    decreases |s|, 0
  {
    if sub != [] && sub[0] == s[0] {
      SubsequenceTail(sub, s[1..]);
    }
  }

  /** Removing the head of a subsequence keeps it a subsequence. */
  lemma {:induction false} SubsequenceTail<T>(sub: seq<T>, s: seq<T>)
    requires sub != [] && IsSubsequence(sub, s)
    ensures IsSubsequence(sub[1..], s)
    decreases |s|, 1
  {
    if sub[1..] != [] {
      if sub[0] != s[0] {
        SubsequenceTail(sub, s[1..]);
      }
      SubsequenceDropHead(sub[1..], s);
    }
  }
  /**
   * Filter is empty exactly when nothing satisfies `p`; otherwise its head is
   * the first element of `s` that does.
   */
  lemma {:induction false} FilterHead<T>(s: seq<T>, p: T -> bool)
    ensures Filter(s, p) == [] <==> forall k :: 0 <= k < |s| ==> !p(s[k])
    ensures Filter(s, p) != [] ==>
      exists k :: 0 <= k < |s| && s[k] == Filter(s, p)[0] && p(s[k]) &&
        forall j :: 0 <= j < k ==> !p(s[j])
    decreases |s|
  {
    if s != [] && !p(s[0]) {
      FilterHead(s[1..], p);
      var t := s[1..];
      if Filter(t, p) != [] {
        var k :| 0 <= k < |t| && t[k] == Filter(t, p)[0] && p(t[k]) &&
          forall j :: 0 <= j < k ==> !p(t[j]);
        assert s[k + 1] == t[k];
        assert forall j :: 0 <= j < k + 1 ==> !p(s[j]) by {
          forall j | 0 <= j < k + 1 ensures !p(s[j]) {
            if j > 0 { assert s[j] == t[j - 1]; }
          }
        }
      } else {
        assert forall k :: 0 <= k < |s| ==> !p(s[k]) by {
          forall k | 0 <= k < |s| ensures !p(s[k]) {
            if k > 0 { assert s[k] == t[k - 1]; }
          }
        }
      }
    }
  }

  /** Filter keeps the whole sequence exactly when every element satisfies `p`. */
  lemma {:induction false} FilterKeepsAll<T>(s: seq<T>, p: T -> bool)
    ensures (Filter(s, p) == s) <==> forall k :: 0 <= k < |s| ==> p(s[k])
    ensures |Filter(s, p)| == |s| <==> forall k :: 0 <= k < |s| ==> p(s[k])
    decreases |s|
  {
    if s != [] {
      FilterKeepsAll(s[1..], p);
      if p(s[0]) {
        assert forall k :: 1 <= k < |s| ==> s[k] == s[1..][k - 1];
        assert (forall k :: 0 <= k < |s| ==> p(s[k])) <==> (forall k :: 0 <= k < |s| - 1 ==> p(s[1..][k]));
      }
    }
  }

  /** Occurrence counts add up over concatenation. */
  lemma {:induction false} CountAppend<T>(s: seq<T>, t: seq<T>, x: T)
    ensures Count(s + t, x) == Count(s, x) + Count(t, x)
    decreases |s|
  {
    if s == [] {
      assert s + t == t;
    } else {
      assert (s + t)[1..] == s[1..] + t;
      CountAppend(s[1..], t, x);
    }
  }

  /** An element occurs in `s` exactly when its count is positive. */
  lemma {:induction false} CountPositive<T>(s: seq<T>, x: T)
    ensures Count(s, x) > 0 <==> x in s
    decreases |s|
  {
    if s != [] {
      CountPositive(s[1..], x);
    }
  }
}
