/** Sequence helpers for the strip transform: reversal, flattening a
    sequence of segments, and the facts about their contents. */
module SeqUtil {

  /** The elements of `s` in the opposite order. */
  function Reverse<T>(s: seq<T>): seq<T>
  {
    if s == [] then [] else [s[|s| - 1]] + Reverse(s[..|s| - 1])
  }

  lemma {:induction false} ReverseAt<T>(s: seq<T>, k: nat)
    requires k < |s|
    ensures |Reverse(s)| == |s|
    ensures Reverse(s)[k] == s[|s| - 1 - k]
  {
    ReverseLength(s[..|s| - 1]);
    if k > 0 {
      ReverseAt(s[..|s| - 1], k - 1);
    }
  }

  lemma {:induction false} ReverseLength<T>(s: seq<T>)
    ensures |Reverse(s)| == |s|
  {
    if s != [] {
      ReverseLength(s[..|s| - 1]);
    }
  }

  /** Reversing does not change which elements a sequence holds. */
  lemma {:induction false} ReverseMultiset<T>(s: seq<T>)
    ensures multiset(Reverse(s)) == multiset(s)
  {
    if s != [] {
      ReverseMultiset(s[..|s| - 1]);
      assert s == s[..|s| - 1] + [s[|s| - 1]];
    }
  }

  /** The concatenation of all segments, in order. */
  function Flatten<T>(ss: seq<seq<T>>): seq<T>
  {
    if ss == [] then [] else ss[0] + Flatten(ss[1..])
  }

  lemma {:induction false} FlattenAppend<T>(a: seq<seq<T>>, b: seq<seq<T>>)
    ensures Flatten(a + b) == Flatten(a) + Flatten(b)
  {
    if a == [] {
      assert a + b == b;
    } else {
      assert (a + b)[1..] == a[1..] + b;
      FlattenAppend(a[1..], b);
    }
  }

  /** Segments that all have length `l` flatten to `|ss| * l` elements. */
  lemma {:induction false} FlattenLength<T>(ss: seq<seq<T>>, l: nat)
    requires forall x :: 0 <= x < |ss| ==> |ss[x]| == l
    ensures |Flatten(ss)| == |ss| * l
  {
    if ss != [] {
      FlattenLength(ss[1..], l);
    }
  }

  /** Where segment `x` starts when every segment has `l` elements. */
  function Offset(l: nat, x: nat): nat
  {
    l * x
  }

  /** Element `k` of segment `x` lands at position `l * x + k` of the
      flattened sequence when every segment has length `l`. */
  lemma {:induction false} FlattenAt<T>(ss: seq<seq<T>>, l: nat, x: nat, k: nat)
    requires forall i :: 0 <= i < |ss| ==> |ss[i]| == l
    requires x < |ss| && k < l
    ensures Offset(l, x) + k < |Flatten(ss)|
    ensures Flatten(ss)[Offset(l, x) + k] == ss[x][k]
  {
    FlattenLength(ss, l);
    assert l * x + k < |ss| * l by {
      assert l * x + k < l * x + l == l * (x + 1);
      MulMono(l, x + 1, |ss|);
    }
    if x > 0 {
      FlattenAt(ss[1..], l, x - 1, k);
      assert l * x + k == l + (l * (x - 1) + k);
    }
  }

  /** Segment `x` of length `l` ends within `n` such segments. */
  lemma SegmentBound(l: nat, x: nat, n: nat)
    requires x < n
    ensures Offset(l, x) + l <= l * n
    ensures l * n == n * l
  {
    MulMono(l, x + 1, n);
    assert l * (x + 1) == l * x + l;
  }

  /** A slice equals `b` when each of its elements does. */
  lemma SliceEq<T>(a: seq<T>, lo: nat, b: seq<T>)
    requires lo + |b| <= |a|
    requires forall k :: 0 <= k < |b| ==> a[lo + k] == b[k]
    ensures a[lo .. lo + |b|] == b
  {
  }

  lemma MulMono(l: nat, a: nat, b: nat)
    requires a <= b
    ensures l * a <= l * b
  {
  }

  /** Replacing each segment by one with the same elements keeps the
      elements of the concatenation. */
  lemma {:induction false} FlattenMultisetPointwise<T>(ss1: seq<seq<T>>, ss2: seq<seq<T>>)
    requires |ss1| == |ss2|
    requires forall i :: 0 <= i < |ss1| ==> multiset(ss1[i]) == multiset(ss2[i])
    ensures multiset(Flatten(ss1)) == multiset(Flatten(ss2))
  {
    if ss1 != [] {
      FlattenMultisetPointwise(ss1[1..], ss2[1..]);
    }
  }

  /** Removing the element at `k` removes one occurrence of it. */
  lemma MultisetRemove<T>(s: seq<T>, k: nat)
    requires k < |s|
    ensures multiset(s[..k] + s[k + 1..]) == multiset(s) - multiset{s[k]}
    ensures multiset(s) == multiset(s[..k] + s[k + 1..]) + multiset{s[k]}
  {
    assert s == s[..k] + [s[k]] + s[k + 1..];
    assert multiset(s) == multiset(s[..k]) + multiset{s[k]} + multiset(s[k + 1..]);
  }

  /** Taking segment `k` out of the concatenation takes out its elements. */
  lemma FlattenRemove<T>(ss: seq<seq<T>>, k: nat)
    requires k < |ss|
    ensures multiset(Flatten(ss)) == multiset(Flatten(ss[..k] + ss[k + 1..])) + multiset(ss[k])
  {
    var a, x, b := ss[..k], ss[k], ss[k + 1..];
    SplitAt(ss, k);
    FlattenSplit(a, x, b);
    FlattenAppend(a, b);
    MultisetMiddle(Flatten(a), x, Flatten(b));
  }

  lemma SplitAt<T>(s: seq<T>, k: nat)
    requires k < |s|
    ensures s == s[..k] + [s[k]] + s[k + 1..]
  {
  }

  lemma FlattenSplit<T>(a: seq<seq<T>>, x: seq<T>, b: seq<seq<T>>)
    ensures Flatten(a + [x] + b) == Flatten(a) + x + Flatten(b)
  {
    FlattenAppend(a + [x], b);
    FlattenAppend(a, [x]);
    FlattenSingle(x);
  }

  lemma MultisetMiddle<T>(p: seq<T>, q: seq<T>, r: seq<T>)
    ensures multiset(p + q + r) == multiset(p + r) + multiset(q)
  {
    calc {
      multiset(p + q + r);
      multiset(p) + multiset(q) + multiset(r);
      multiset(p + r) + multiset(q);
    }
  }

  lemma FlattenSingle<T>(x: seq<T>)
    ensures Flatten([x]) == x
  {
    assert [x][1..] == [];
  }

  /** Concatenating the same segments in any order gives the same elements. */
  lemma {:induction false} FlattenMultisetReorder<T>(ss1: seq<seq<T>>, ss2: seq<seq<T>>)
    requires multiset(ss1) == multiset(ss2)
    ensures multiset(Flatten(ss1)) == multiset(Flatten(ss2))
    decreases |ss1|
  {
    if ss1 == [] {
      assert |ss2| == |multiset(ss2)| == 0;
    } else {
      var k := MatchHead(ss1, ss2);
      var rest := ss2[..k] + ss2[k + 1..];
      FlattenMultisetReorder(ss1[1..], rest);
      FlattenRemove(ss2, k);
      FlattenHead(ss1);
    }
  }

  /** An index of `s2` holding the head of `s1`, when both hold the same
      elements; the rest of `s1` then matches `s2` without that index. */
  lemma MatchHead<T>(s1: seq<T>, s2: seq<T>) returns (k: nat)
    requires s1 != [] && multiset(s1) == multiset(s2)
    ensures k < |s2| && s2[k] == s1[0]
    ensures multiset(s1[1..]) == multiset(s2[..k] + s2[k + 1..])
  {
    assert s1[0] in multiset(s2);
    k :| 0 <= k < |s2| && s2[k] == s1[0];
    MultisetRemove(s2, k);
    assert s1 == [s1[0]] + s1[1..];
  }

  lemma FlattenHead<T>(ss: seq<seq<T>>)
    requires ss != []
    ensures multiset(Flatten(ss)) == multiset(ss[0]) + multiset(Flatten(ss[1..]))
  {
  }

  /** The sequence 0, 1, ..., n-1. */
  function Range(n: nat): (r: seq<nat>)
    ensures |r| == n
    ensures forall i :: 0 <= i < n ==> r[i] == i
  {
    if n == 0 then [] else Range(n - 1) + [n - 1]
  }

  /** `m` holds each of 0 .. n-1 exactly once. */
  predicate IsPermutation(m: seq<nat>, n: nat)
  {
    multiset(m) == multiset(Range(n))
  }

  lemma PermutationBounded(m: seq<nat>, n: nat)
    requires IsPermutation(m, n)
    ensures |m| == n
    ensures forall i :: 0 <= i < |m| ==> m[i] < n
  {
    assert |m| == |multiset(m)| == |multiset(Range(n))| == n;
    forall i | 0 <= i < |m|
      ensures m[i] < n
    {
      assert m[i] in multiset(Range(n));
    }
  }
}
