/**
 * Generic facts about sequences used by the dashboard model: the element-wise
 * `map` of JavaScript arrays, counting the elements that satisfy a predicate,
 * and the fact that both only depend on the multiset of the elements.
 */
module Seqs {

  /** `arr.map(f)`: one result per element, in the same order. */
  function Map<A, B>(s: seq<A>, f: A -> B): (r: seq<B>)
    ensures |r| == |s|
    ensures forall i :: 0 <= i < |s| ==> r[i] == f(s[i])
  {
    seq(|s|, i requires 0 <= i < |s| => f(s[i]))
  }

  lemma MapConcat<A, B>(a: seq<A>, b: seq<A>, f: A -> B)
    ensures Map(a + b, f) == Map(a, f) + Map(b, f)
  {
  }

  /** Any element of a sequence can be cut out of it, leaving the rest of the multiset. */
  lemma RemoveOne<T>(t: seq<T>, x: T) returns (k: nat)
    requires x in multiset(t)
    ensures k < |t| && t[k] == x
    ensures t == t[..k] + [x] + t[k + 1..]
    ensures multiset(t[..k] + t[k + 1..]) == multiset(t) - multiset{x}
  {
    k :| 0 <= k < |t| && t[k] == x;
    assert t == t[..k] + [x] + t[k + 1..];
  }

  /** The elements of a non-empty sequence are its first element and the elements of the rest. */
  lemma MultisetFirstRest<T>(s: seq<T>)
    requires |s| > 0
    ensures multiset(s) == multiset{s[0]} + multiset(s[1..])
  {
    assert s == [s[0]] + s[1..];
  }

  /** Mapping a permutation gives a permutation of the mapped sequence. */
  lemma {:induction false} MapPermutation<A, B>(s: seq<A>, t: seq<A>, f: A -> B)
    requires multiset(s) == multiset(t)
    ensures multiset(Map(s, f)) == multiset(Map(t, f))
    decreases |s|
  {
    if |s| == 0 {
      assert |t| == |multiset(t)| == 0;
    } else {
      var x := s[0];
      assert s == [x] + s[1..];
      var k := RemoveOne(t, x);
      var rest := t[..k] + t[k + 1..];
      MapPermutation(s[1..], rest, f);
      MapConcat([x], s[1..], f);
      MapConcat(t[..k], [x], f);
      MapConcat(t[..k] + [x], t[k + 1..], f);
      MapConcat(t[..k], t[k + 1..], f);
    }
  }

  /** Number of elements of `s` that satisfy `p`. */
  function Count<T>(s: seq<T>, p: T -> bool): (n: nat)
    ensures n <= |s|
  {
    if |s| == 0 then 0 else (if p(s[0]) then 1 else 0) + Count(s[1..], p)
  }

  lemma {:induction false} CountConcat<T>(a: seq<T>, b: seq<T>, p: T -> bool)
    ensures Count(a + b, p) == Count(a, p) + Count(b, p)
    decreases |a|
  {
    if |a| == 0 {
      assert a + b == b;
    } else {
      assert (a + b)[0] == a[0];
      assert (a + b)[1..] == a[1..] + b;
      CountConcat(a[1..], b, p);
    }
  }

  lemma {:induction false} CountNone<T>(s: seq<T>, p: T -> bool)
    requires forall i :: 0 <= i < |s| ==> !p(s[i])
    ensures Count(s, p) == 0
    decreases |s|
  {
    if |s| > 0 {
      CountNone(s[1..], p);
    }
  }

  /** The count only depends on the multiset of the elements. */
  lemma {:induction false} CountPermutation<T>(s: seq<T>, t: seq<T>, p: T -> bool)
    requires multiset(s) == multiset(t)
    ensures Count(s, p) == Count(t, p)
    decreases |s|
  {
    if |s| == 0 {
      assert |t| == |multiset(t)| == 0;
    } else {
      var x := s[0];
      var k := RemoveOne(t, x);
      assert multiset(s[1..]) == multiset(s) - multiset{x} by {
        assert s == [x] + s[1..];
      }
      CountPermutation(s[1..], t[..k] + t[k + 1..], p);
      CountRemove(t, k, p);
    }
  }

  /** A sequence is the part before position `k`, the element at `k`, and the part after it. */
  lemma CutAt<T>(t: seq<T>, k: nat)
    requires k < |t|
    ensures t == t[..k] + ([t[k]] + t[k + 1..])
  {
  }

  /** Counting over a sequence with a given first element. */
  lemma CountCons<T>(x: T, r: seq<T>, p: T -> bool)
    ensures Count([x] + r, p) == (if p(x) then 1 else 0) + Count(r, p)
  {
    assert ([x] + r)[0] == x;
    assert ([x] + r)[1..] == r;
  }

  /** Taking one element out of a sequence takes it out of the count. */
  lemma CountRemove<T>(t: seq<T>, k: nat, p: T -> bool)
    requires k < |t|
    ensures Count(t, p) == Count(t[..k] + t[k + 1..], p) + (if p(t[k]) then 1 else 0)
  {
    var x, front, back := t[k], t[..k], t[k + 1..];
    CutAt(t, k);
    calc {
      Count(t, p);
      { CountConcat(front, [x] + back, p); }
      Count(front, p) + Count([x] + back, p);
      { CountCons(x, back, p); }
      Count(front, p) + Count(back, p) + (if p(x) then 1 else 0);
      { CountConcat(front, back, p); }
      Count(front + back, p) + (if p(x) then 1 else 0);
    }
  }
}
