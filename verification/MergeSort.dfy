/** The stable bottom-up merge sort of stdlib/sort.kod. */
module MergeSort {
  import opened Kod
  import opened Finite

  // ----- Orders -----

  /** What `less` must be: irreflexive and transitive, with "neither goes first" transitive too. */
  ghost predicate StrictWeak<T(!new)>(less: (T, T) -> bool)
  {
    && (forall a :: !less(a, a))
    && (forall a, b, c :: less(a, b) && less(b, c) ==> less(a, c))
    && (forall a, b, c :: !less(a, b) && !less(b, c) ==> !less(a, c))
  }

  /** Where element `i` of `xs` belongs relative to element `j`: by `less`, and ties by position. */
  predicate Before<T>(less: (T, T) -> bool, xs: seq<T>, i: nat, j: nat)
    requires i < |xs| && j < |xs|
  {
    less(xs[i], xs[j]) || (!less(xs[j], xs[i]) && i < j)
  }

  lemma BeforeIsTotal<T(!new)>(less: (T, T) -> bool, xs: seq<T>, i: nat, j: nat, k: nat)
    requires StrictWeak(less) && i < |xs| && j < |xs| && k < |xs|
    ensures Before(less, xs, i, j) && Before(less, xs, j, k) ==> Before(less, xs, i, k)
    ensures !(Before(less, xs, i, j) && Before(less, xs, j, i))
  {
  }

  /** Positions `p` of `xs`, in order. */
  ghost predicate Ordered<T>(less: (T, T) -> bool, xs: seq<T>, p: seq<nat>)
  {
    && (forall a :: 0 <= a < |p| ==> p[a] < |xs|)
    && (forall a, b :: 0 <= a < b < |p| ==> Before(less, xs, p[a], p[b]))
  }

  ghost predicate Picks<T>(xs: seq<T>, p: seq<nat>, out: seq<T>)
  {
    |out| == |p| && forall a :: 0 <= a < |p| ==> p[a] < |xs| && out[a] == xs[p[a]]
  }

  /** `out` is `xs` in order, every element once, ties in their original order. */
  ghost predicate StableSort<T>(less: (T, T) -> bool, xs: seq<T>, out: seq<T>, p: seq<nat>)
  {
    |p| == |xs| && Ordered(less, xs, p) && Picks(xs, p, out)
  }

  // ----- What a stable sort promises -----

  lemma OrderedIsDistinct<T(!new)>(less: (T, T) -> bool, xs: seq<T>, p: seq<nat>)
    requires StrictWeak(less) && Ordered(less, xs, p)
    ensures Distinct(p)
  {
    forall a, b | 0 <= a < b < |p|
      ensures p[a] != p[b]
    {
      assert Before(less, xs, p[a], p[b]);
    }
  }

  lemma WithoutCounts<T>(s: seq<T>, k: nat)
    requires k < |s|
    ensures multiset(s) == multiset(Without(s, k)) + multiset{s[k]}
  {
    assert s == s[..k] + [s[k]] + s[k + 1..];
  }

  lemma WithoutPicks<T>(xs: seq<T>, p: seq<nat>, out: seq<T>, k: nat)
    requires |p| == |xs| && Picks(xs, p, out) && Distinct(p)
    requires k < |p| && p[k] == |xs| - 1
    ensures Picks(xs[..|xs| - 1], Without(p, k), Without(out, k)) && Distinct(Without(p, k))
  {
    var n, p' := |xs| - 1, Without(p, k);
    forall a | 0 <= a < n
      ensures p'[a] < n && Without(out, k)[a] == xs[..n][p'[a]]
    {
      var b := if a < k then a else a + 1;
      assert p'[a] == p[b] && p[b] != p[k];
    }
  }

  lemma {:induction false} PicksPermutes<T>(xs: seq<T>, p: seq<nat>, out: seq<T>)
    requires |p| == |xs| && Picks(xs, p, out) && Distinct(p)
    ensures multiset(out) == multiset(xs)
    decreases |xs|
  {
    if xs != [] {
      hide Without, Distinct;
      var n := |xs| - 1;
      PigeonHole(p, |xs|);
      assert n in p;
      var k :| 0 <= k < |p| && p[k] == n;
      WithoutPicks(xs, p, out, k);
      PicksPermutes(xs[..n], Without(p, k), Without(out, k));
      WithoutCounts(out, k);
      assert xs == xs[..n] + [xs[n]];
    }
  }

  /** A sorted permutation in which equivalent elements keep their order. */
  lemma StableSortPromises<T(!new)>(less: (T, T) -> bool, xs: seq<T>, out: seq<T>, p: seq<nat>)
    requires StrictWeak(less) && StableSort(less, xs, out, p)
    ensures multiset(out) == multiset(xs)
    ensures forall a, b :: 0 <= a < b < |out| ==> !less(out[b], out[a])
    ensures forall a, b :: 0 <= a < b < |out| && !less(out[a], out[b]) ==> p[a] < p[b]
  {
    OrderedIsDistinct(less, xs, p);
    PicksPermutes(xs, p, out);
    forall a, b | 0 <= a < b < |out|
      ensures !less(out[b], out[a]) && (!less(out[a], out[b]) ==> p[a] < p[b])
    {
      assert Before(less, xs, p[a], p[b]);
    }
  }

  lemma {:induction false} SamePrefix<T(!new)>(less: (T, T) -> bool, xs: seq<T>, p: seq<nat>, q: seq<nat>, k: nat)
    requires StrictWeak(less) && |p| == |q| == |xs| && k <= |xs|
    requires Ordered(less, xs, p) && Ordered(less, xs, q)
    ensures p[..k] == q[..k]
  {
    if k > 0 {
      var m := k - 1;
      SamePrefix(less, xs, p, q, m);
      OrderedIsDistinct(less, xs, p);
      OrderedIsDistinct(less, xs, q);
      PigeonHole(p, |xs|);
      PigeonHole(q, |xs|);
      assert q[m] in p && p[m] in q;
      var i :| 0 <= i < |p| && p[i] == q[m];
      var j :| 0 <= j < |q| && q[j] == p[m];
      assert forall a :: 0 <= a < m ==> p[a] == p[..m][a] == q[a];
      BeforeIsTotal(less, xs, p[m], p[i], p[m]);
      assert p[m] == q[m];
      assert p[..k] == p[..m] + [p[m]] && q[..k] == q[..m] + [q[m]];
    }
  }

  /** There is only one stable sort of a sequence. */
  lemma StableSortIsUnique<T(!new)>(less: (T, T) -> bool, xs: seq<T>, a: seq<T>, p: seq<nat>, b: seq<T>, q: seq<nat>)
    requires StrictWeak(less) && StableSort(less, xs, a, p) && StableSort(less, xs, b, q)
    ensures a == b
  {
    SamePrefix(less, xs, p, q, |xs|);
    assert p[..|xs|] == p && q[..|xs|] == q;
  }

  // ----- Runs -----

  /** Positions `lo..hi` of `p` hold exactly positions `lo..hi` of `xs`, in order. */
  ghost predicate Run<T>(less: (T, T) -> bool, xs: seq<T>, p: seq<nat>, lo: nat, hi: nat)
  {
    && lo <= hi <= |p| == |xs|
    && (forall a :: lo <= a < hi ==> lo <= p[a] < hi)
    && (forall a, b :: lo <= a < b < hi ==> p[a] < |xs| && p[b] < |xs| && Before(less, xs, p[a], p[b]))
  }

  function Smaller(a: int, b: int): int
  {
    if a < b then a else b
  }

  /** Block `m` of length `run` is a run. */
  ghost predicate Block<T>(less: (T, T) -> bool, xs: seq<T>, p: seq<nat>, run: nat, m: nat)
  {
    |p| == |xs| && (m * run < |xs| ==> Run(less, xs, p, m * run, Smaller(m * run + run, |xs|)))
  }

  ghost predicate Blocks<T>(less: (T, T) -> bool, xs: seq<T>, p: seq<nat>, run: nat)
  {
    forall m: nat :: Block(less, xs, p, run, m)
  }

  /** What goes before the first of a run, or ties with it from an earlier place, goes before all of it. */
  lemma FirstOfRun<T(!new)>(less: (T, T) -> bool, xs: seq<T>, p: seq<nat>, i: nat, j: nat, hi: nat)
    requires StrictWeak(less) && i < |p| && j < hi <= |p|
    requires p[i] < |xs| && forall a :: j <= a < hi ==> p[a] < |xs|
    requires forall a :: j < a < hi ==> Before(less, xs, p[j], p[a])
    requires less(xs[p[i]], xs[p[j]]) || (!less(xs[p[j]], xs[p[i]]) && p[i] < p[j])
    ensures forall a :: j <= a < hi ==> Before(less, xs, p[i], p[a])
  {
    forall a | j <= a < hi
      ensures Before(less, xs, p[i], p[a])
    {
      BeforeIsTotal(less, xs, p[i], p[j], p[a]);
    }
  }

  /** The caller's `less`: every call answers as its order does, and is counted. */
  class Comparator<T(!new)> {
    const order: (T, T) -> bool
    ghost var calls: nat

    constructor (order: (T, T) -> bool)
      ensures this.order == order && calls == 0
    {
      this.order, calls := order, 0;
    }

    method Less(a: T, b: T) returns (r: bool)
      modifies this
      ensures r == order(a, b) && calls == old(calls) + 1
    {
      calls := calls + 1;
      r := order(a, b);
    }
  }

  /** Two neighbouring runs become one; `less` is called at most once for each element placed. */
  method Merge<T(!new)>(cmp: Comparator<T>, cur: seq<T>, lo: nat, mid: nat, hi: nat, ghost xs: seq<T>, ghost p: seq<nat>)
    returns (part: seq<T>, ghost q: seq<nat>)
    requires StrictWeak(cmp.order) && Picks(xs, p, cur)
    requires Run(cmp.order, xs, p, lo, mid) && Run(cmp.order, xs, p, mid, hi)
    modifies cmp
    ensures Picks(xs, q, part) && |q| == hi - lo
    ensures Ordered(cmp.order, xs, q) && forall k :: 0 <= k < |q| ==> lo <= q[k] < hi
    ensures cmp.calls <= old(cmp.calls) + (hi - lo)
  {
    hide StrictWeak, Before;
    ghost var less := cmp.order;
    part, q := [], [];
    var i, j := lo, mid;
    while i < mid || j < hi
      invariant lo <= i <= mid <= j <= hi
      invariant Picks(xs, q, part) && |q| == (i - lo) + (j - mid)
      invariant Ordered(less, xs, q) && forall k :: 0 <= k < |q| ==> lo <= q[k] < hi
      invariant forall k, a :: 0 <= k < |q| && i <= a < mid ==> Before(less, xs, q[k], p[a])
      invariant forall k, a :: 0 <= k < |q| && j <= a < hi ==> Before(less, xs, q[k], p[a])
      invariant cmp.calls <= old(cmp.calls) + |q|
      decreases (mid - i) + (hi - j)
    {
      var left := j >= hi;
      if !left && i < mid {
        var right := cmp.Less(cur[j], cur[i]);
        left := !right;
      }
      if left {
        if j < hi {
          FirstOfRun(less, xs, p, i, j, hi);
        }
        part := part + [cur[i]];
        q := q + [p[i]];
        i := i + 1;
      } else {
        if i < mid {
          FirstOfRun(less, xs, p, j, i, mid);
        }
        part := part + [cur[j]];
        q := q + [p[j]];
        j := j + 1;
      }
    }
  }

  /** One pass: runs of length `run` become runs of twice the length, with at most `n` calls of `less`. */
  method Pass<T(!new)>(cmp: Comparator<T>, cur: seq<T>, run: nat, ghost xs: seq<T>, ghost p: seq<nat>)
    returns (next: seq<T>, ghost q: seq<nat>)
    requires StrictWeak(cmp.order) && run > 0
    requires Picks(xs, p, cur) && Blocks(cmp.order, xs, p, run) && |p| == |xs|
    modifies cmp
    ensures Picks(xs, q, next) && |q| == |xs| && Blocks(cmp.order, xs, q, 2 * run)
    ensures cmp.calls <= old(cmp.calls) + |xs|
  {
    hide StrictWeak, Before, Ordered, Run, Blocks, Done;
    ghost var less := cmp.order;
    var n := |cur|;
    next, q := [], [];
    var lo := 0;
    ghost var m := 0;
    while lo < n
      invariant 0 <= lo <= n && lo == Smaller(m * (2 * run), n)
      invariant Picks(xs, q, next) && |q| == lo
      invariant forall k: nat :: k < m ==> Done(less, xs, q, 2 * run, k)
      invariant cmp.calls <= old(cmp.calls) + lo
      decreases n - lo
    {
      var mid := Smaller(lo + run, n);
      var hi := Smaller(lo + run + run, n);
      TwoBlocks(less, xs, p, run, m, lo, mid, hi);
      var part, r := Merge(cmp, cur, lo, mid, hi, xs, p);
      MergedIsDone(less, xs, q, r, 2 * run, m, lo, hi);
      next := next + part;
      q := q + r;
      assert (m + 1) * (2 * run) == m * (2 * run) + 2 * run;
      m := m + 1;
      lo := hi;
    }
    AllDone(less, xs, q, 2 * run, m);
  }

  /** Block `k` is a run of the part written so far. */
  ghost predicate Done<T>(less: (T, T) -> bool, xs: seq<T>, q: seq<nat>, run: nat, k: nat)
  {
    var lo, hi := k * run, Smaller(k * run + run, |xs|);
    && lo <= hi <= |q| <= |xs|
    && (forall a :: lo <= a < hi ==> lo <= q[a] < hi)
    && (forall a, b :: lo <= a < b < hi ==> q[a] < |xs| && q[b] < |xs| && Before(less, xs, q[a], q[b]))
  }

  lemma MergedIsDone<T>(less: (T, T) -> bool, xs: seq<T>, q: seq<nat>, r: seq<nat>, run: nat, m: nat, lo: nat, hi: nat)
    requires forall k: nat :: k < m ==> Done(less, xs, q, run, k)
    requires lo == m * run == |q| && hi == Smaller(lo + run, |xs|) == lo + |r|
    requires Ordered(less, xs, r) && forall k :: 0 <= k < |r| ==> lo <= r[k] < hi
    ensures forall k: nat :: k < m + 1 ==> Done(less, xs, q + r, run, k)
  {
    hide Before;
    var all := q + r;
    assert forall a :: lo <= a < hi ==> all[a] == r[a - lo];
    forall k: nat | k < m
      ensures Done(less, xs, all, run, k)
    {
      DoneStays(less, xs, q, r, run, k);
    }
    assert Done(less, xs, all, run, m);
  }

  lemma LaterBlock(k: nat, m: nat, run: nat)
    requires k >= m
    ensures k * run >= m * run
  {
    assert (k - m) * run >= 0;
  }

  lemma AllDone<T>(less: (T, T) -> bool, xs: seq<T>, q: seq<nat>, run: nat, m: nat)
    requires |q| == |xs| <= m * run
    requires forall k: nat :: k < m ==> Done(less, xs, q, run, k)
    ensures Blocks(less, xs, q, run)
  {
    hide Before;
    forall k: nat
      ensures Block(less, xs, q, run, k)
    {
      if k >= m {
        LaterBlock(k, m, run);
      } else {
        assert Done(less, xs, q, run, k);
      }
    }
  }

  lemma DoneStays<T>(less: (T, T) -> bool, xs: seq<T>, q: seq<nat>, r: seq<nat>, run: nat, k: nat)
    requires Done(less, xs, q, run, k) && |q| + |r| <= |xs|
    ensures Done(less, xs, q + r, run, k)
  {
    assert forall a :: 0 <= a < |q| ==> (q + r)[a] == q[a];
  }

  lemma TwoBlocks<T>(less: (T, T) -> bool, xs: seq<T>, p: seq<nat>, run: nat, m: nat, lo: nat, mid: nat, hi: nat)
    requires Blocks(less, xs, p, run) && run > 0 && |p| == |xs|
    requires lo < |xs| && lo == m * (2 * run)
    requires mid == Smaller(lo + run, |xs|) && hi == Smaller(lo + run + run, |xs|)
    ensures Run(less, xs, p, lo, mid) && Run(less, xs, p, mid, hi)
  {
    assert (2 * m) * run == lo && (2 * m + 1) * run == lo + run;
    assert Block(less, xs, p, run, 2 * m) && Block(less, xs, p, run, 2 * m + 1);
  }

  // ----- The whole sort -----

  /** The least `k` with `n <= 2^k`. */
  function CeilLog2(n: nat): nat
  {
    if n <= 1 then 0 else 1 + CeilLog2((n + 1) / 2)
  }

  lemma {:induction false} CeilLog2Spec(n: nat)
    ensures n <= Pow2(CeilLog2(n))
    ensures n > 1 ==> Pow2(CeilLog2(n) - 1) < n
  {
    if n > 1 {
      CeilLog2Spec((n + 1) / 2);
    }
  }

  lemma {:induction false} FewPasses(n: nat, passes: nat)
    requires passes > 0 ==> Pow2(passes - 1) < n
    ensures passes <= CeilLog2(n)
  {
    CeilLog2Spec(n);
    if passes > CeilLog2(n) {
      Pow2Grows(CeilLog2(n), passes - 1);
    }
  }

  lemma MoreIsMore(n: nat, a: nat, b: nat)
    requires a <= b
    ensures n * a <= n * b
  {
    assert n * (b - a) >= 0;
  }

  lemma OneMorePass(n: nat, passes: nat)
    ensures n * (passes + 1) == n * passes + n
  {
  }

  /** Before the first pass every element is a run of its own. */
  lemma SingleRuns<T>(less: (T, T) -> bool, xs: seq<T>) returns (p: seq<nat>)
    ensures |p| == |xs| && Picks(xs, p, xs) && Blocks(less, xs, p, 1)
  {
    p := seq(|xs|, a => a);
    forall m: nat
      ensures Block(less, xs, p, 1, m)
    {
      assert m * 1 == m;
    }
  }

  /** When one run is as long as everything, it is everything. */
  lemma OneRun<T>(less: (T, T) -> bool, xs: seq<T>, p: seq<nat>, run: nat)
    requires Blocks(less, xs, p, run) && |p| == |xs| && |xs| <= run
    ensures Ordered(less, xs, p)
  {
    assert Block(less, xs, p, run, 0);
    assert 0 * run == 0;
  }

  /** `sorted_by`: the stable sort, with at most `n * ceil(log2 n)` calls of `less`. */
  method SortedBy<T(!new)>(xs: seq<T>, cmp: Comparator<T>) returns (out: seq<T>, ghost p: seq<nat>)
    requires StrictWeak(cmp.order)
    modifies cmp
    ensures StableSort(cmp.order, xs, out, p)
    ensures multiset(out) == multiset(xs)
    ensures forall a, b :: 0 <= a < b < |out| ==> !cmp.order(out[b], out[a])
    ensures cmp.calls <= old(cmp.calls) + |xs| * CeilLog2(|xs|)
  {
    hide StrictWeak, Before, Ordered, Blocks, CeilLog2;
    ghost var less := cmp.order;
    var n := |xs|;
    var cur: seq<T> := [];
    for k := 0 to n
      invariant cur == xs[..k]
    {
      cur := cur + [xs[k]];
    }
    p := SingleRuns(less, xs);
    var run := 1;
    ghost var passes := 0;
    while run < n
      invariant run == Pow2(passes) && (passes > 0 ==> Pow2(passes - 1) < n)
      invariant |p| == n && Picks(xs, p, cur) && Blocks(less, xs, p, run)
      invariant cmp.calls <= old(cmp.calls) + n * passes
      decreases n - run
    {
      var next, q := Pass(cmp, cur, run, xs, p);
      cur, p := next, q;
      OneMorePass(n, passes);
      passes := passes + 1;
      run := run + run;
    }
    OneRun(less, xs, p, run);
    FewPasses(n, passes);
    MoreIsMore(n, passes, CeilLog2(n));
    out := cur;
    StableSortPromises(less, xs, out, p);
  }
}
