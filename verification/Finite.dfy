/** Distinct elements, and counting distinct numbers below a bound. */
module Finite {

  ghost predicate Distinct<K>(keys: seq<K>)
  {
    forall i, j :: 0 <= i < j < |keys| ==> keys[i] != keys[j]
  }

  /** All but the element at `k`. */
  function Without<T>(s: seq<T>, k: nat): seq<T>
    requires k < |s|
  {
    s[..k] + s[k + 1..]
  }

  lemma WithoutAt<T>(s: seq<T>, k: nat)
    requires k < |s|
    ensures |Without(s, k)| == |s| - 1
    ensures forall i :: 0 <= i < k ==> Without(s, k)[i] == s[i]
    ensures forall i :: k <= i < |s| - 1 ==> Without(s, k)[i] == s[i + 1]
  {
  }

  function Below(count: nat): (s: set<int>)
    ensures forall e :: e in s <==> 0 <= e < count
    ensures |s| == count
  {
    if count == 0 then {} else Below(count - 1) + {count - 1}
  }

  lemma {:induction false} DistinctSize(s: seq<int>) returns (used: set<int>)
    requires Distinct(s)
    ensures forall e :: e in used <==> e in s
    ensures |used| == |s|
  {
    if s == [] {
      used := {};
    } else {
      var last := |s| - 1;
      var rest := s[..last];
      var some := DistinctSize(rest);
      assert s[last] !in rest by {
        assert forall i :: 0 <= i < last ==> rest[i] == s[i] != s[last];
      }
      used := some + {s[last]};
      assert s == rest + [s[last]];
      assert forall e :: e in s <==> e in rest || e == s[last];
    }
  }

  lemma SubsetSize(a: set<int>, b: set<int>)
    requires a <= b
    ensures |a| <= |b|
    ensures |a| == |b| ==> a == b
  {
    assert b == a + (b - a);
    assert |b| == |a| + |b - a|;
  }

  /** There are at most `count` distinct numbers below `count`, and `count` of them are all of them. */
  lemma PigeonHole(s: seq<int>, count: nat)
    requires Distinct(s)
    requires forall i :: 0 <= i < |s| ==> 0 <= s[i] < count
    ensures |s| <= count
    ensures |s| == count ==> forall e :: 0 <= e < count ==> e in s
  {
    var used := DistinctSize(s);
    SubsetSize(used, Below(count));
  }
}
