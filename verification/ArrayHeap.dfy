/** Growable arrays of stdlib/runtime.c: headers that share, grow and copy their buffers. */
module ArrayHeap {

  /** A `KodArray` header: `ptr` has room for `cap` slots, of which `len` are in use. */
  class KodArray {
    var ptr: array<int>
    var len: nat
    var cap: nat

    ghost predicate Valid()
      reads this
    {
      len <= cap <= ptr.Length
    }

    ghost function Contents(): seq<int>
      requires Valid()
      reads this, ptr
    {
      ptr[..len]
    }

    constructor (ptr: array<int>, len: nat)
      requires len <= ptr.Length
      ensures this.ptr == ptr && this.len == len && cap == len
    {
      this.ptr, this.len, this.cap := ptr, len, len;
    }
  }

  predicate Within(i: int, from: int, end: int)
  {
    from <= i < end
  }

  /** `clamp_slice`: the start and the length of what is really taken. */
  function Clamp(len: nat, start: int, end: int): (r: (nat, nat))
    ensures r.0 + r.1 <= len
    ensures forall i :: 0 <= i < len ==> (Within(i, r.0, r.0 + r.1) <==> Within(i, start, end))
  {
    var s := if start < 0 then 0 else start;
    var s := if s > len then len else s;
    var e := if end > len then len else end;
    (s, if e > s then e - s else 0)
  }

  /** `part` is what `xs` has at the places from `start` to before `end`, as far as there are such places. */
  ghost predicate IsSlice(part: seq<int>, xs: seq<int>, start: int, end: int)
  {
    var first := if start < 0 then 0 else start;
    && (forall i :: 0 <= i < |xs| && start <= i < end ==> i - first < |part| && part[i - first] == xs[i])
    && (forall j :: 0 <= j < |part| ==> first + j < |xs| && first + j < end && part[j] == xs[first + j])
  }

  lemma ClampedIsSlice(xs: seq<int>, start: int, end: int)
    ensures var (s, n) := Clamp(|xs|, start, end); IsSlice(xs[s..s + n], xs, start, end)
  {
    var (s, n) := Clamp(|xs|, start, end);
    if n > 0 {
      assert Within(s, start, end) && Within(s + n - 1, start, end);
      assert s > 0 ==> !Within(s - 1, s, s + n);
    }
  }

  /** `memcpy` of `n` slots, within one buffer only to a later place. */
  method CopySlots(src: array<int>, from: nat, n: nat, dst: array<int>, at: nat)
    requires from + n <= src.Length && at + n <= dst.Length
    requires src != dst || from + n <= at
    modifies dst
    ensures dst[at..at + n] == old(src[from..from + n])
    ensures dst[..at] == old(dst[..at])
  {
    ghost var was := src[..];
    for i := 0 to n
      invariant dst[at..at + i] == was[from..from + i] && dst[..at] == old(dst[..at])
      invariant forall k :: from <= k < from + n ==> src[k] == was[k]
    {
      dst[at + i] := src[from + i];
      assert dst[at..at + i + 1] == dst[at..at + i] + [was[from + i]];
      assert was[from..from + i + 1] == was[from..from + i] + [was[from + i]];
    }
  }

  /** A fresh buffer of `size` slots that starts with `n` slots of another one. */
  method CopyOut(src: array<int>, from: nat, n: nat, size: nat) returns (buf: array<int>)
    requires from + n <= src.Length && n <= size
    ensures fresh(buf) && buf.Length == size && buf[..n] == src[from..from + n]
  {
    buf := new int[size];
    CopySlots(src, from, n, buf, 0);
    assert buf[..n] == buf[0..0 + n];
  }

  /** At least one slot, so that even an empty array has an address. */
  function Room(total: nat): nat
  {
    if total > 0 then total else 1
  }

  /** A fresh buffer with the contents of two. */
  method Joined(a: array<int>, m: nat, b: array<int>, n: nat) returns (buf: array<int>)
    requires m <= a.Length && n <= b.Length
    ensures fresh(buf) && buf.Length == Room(m + n) && buf[..m + n] == a[..m] + b[..n]
  {
    buf := CopyOut(a, 0, m, Room(m + n));
    CopySlots(b, 0, n, buf, m);
    assert buf[..m + n] == buf[..m] + buf[m..m + n];
  }

  class ArrayHeap {
    /** Every header there is. */
    ghost var headers: set<KodArray>

    ghost function Buffers(): set<object>
      reads this, headers
    {
      set h <- headers :: h.ptr
    }

    /** Headers are well-formed, and no two of them have the same buffer. */
    ghost predicate Valid()
      reads this, headers
    {
      && (forall h <- headers :: h.Valid())
      && (forall g, h :: g in headers && h in headers && g != h ==> g.ptr != h.ptr)
    }

    /** The abstract heap: each array value by itself. */
    ghost function Model(): map<KodArray, seq<int>>
      requires Valid()
      reads this, headers, Buffers()
    {
      map h | h in headers :: h.Contents()
    }

    constructor ()
      ensures Valid() && headers == {}
    {
      headers := {};
    }

    /** Puts a header over a fresh buffer on the heap; no other array notices. */
    method Register(buf: array<int>, len: nat) returns (out: KodArray)
      requires Valid() && len <= buf.Length
      requires forall h <- headers :: h.ptr != buf
      modifies this
      ensures fresh(out) && headers == old(headers) + {out} && Valid()
      ensures out.ptr == buf && out.len == len
      ensures Model() == old(Model())[out := buf[..len]]
    {
      out := new KodArray(buf, len);
      headers := headers + {out};
    }

    /** `kod_array_slice`: an independent copy of the clamped range. */
    method Slice(src: KodArray, start: int, end: int) returns (out: KodArray)
      requires Valid() && src in headers
      modifies this
      ensures fresh(out) && headers == old(headers) + {out} && Valid()
      ensures IsSlice(Model()[out], old(src.Contents()), start, end)
      ensures Model() == old(Model())[out := Model()[out]]
    {
      hide IsSlice;
      var (s, n) := Clamp(src.len, start, end);
      var buf := CopyOut(src.ptr, s, n, Room(n));
      assert src.ptr[..src.len][s..s + n] == src.ptr[s..s + n];
      ClampedIsSlice(src.Contents(), start, end);
      out := Register(buf, n);
    }

    /** `kod_array_copy`. */
    method Copy(src: KodArray) returns (out: KodArray)
      requires Valid() && src in headers
      modifies this
      ensures fresh(out) && headers == old(headers) + {out} && Valid()
      ensures Model() == old(Model())[out := old(src.Contents())]
    {
      var buf := CopyOut(src.ptr, 0, src.len, Room(src.len));
      assert buf[..src.len] == src.Contents();
      out := Register(buf, src.len);
    }

    /** `kod_array_concat_new`, the operator `+`. */
    method Plus(lhs: KodArray, rhs: KodArray) returns (out: KodArray)
      requires Valid() && lhs in headers && rhs in headers
      modifies this
      ensures fresh(out) && headers == old(headers) + {out} && Valid()
      ensures Model() == old(Model())[out := old(lhs.Contents()) + old(rhs.Contents())]
    {
      var buf := Joined(lhs.ptr, lhs.len, rhs.ptr, rhs.len);
      out := Register(buf, lhs.len + rhs.len);
    }

    /** The growth step of `kod_array_concat`: room for `total`, with the contents kept. */
    method Grow(lhs: KodArray, total: nat)
      requires Valid() && lhs in headers
      modifies lhs
      ensures Valid() && total <= lhs.cap && lhs.len == old(lhs.len)
      ensures Model() == old(Model())
      ensures lhs.ptr == old(lhs.ptr) || fresh(lhs.ptr)
    {
      if lhs.cap < total {
        var cap := if lhs.cap > 0 then lhs.cap else 4;
        while cap < total
          invariant cap > 0 && cap >= lhs.cap
          decreases total - cap
        {
          cap := cap * 2;
        }
        var buf := CopyOut(lhs.ptr, 0, lhs.len, cap);
        assert buf[..lhs.len] == lhs.Contents();
        lhs.ptr := buf;
        lhs.cap := cap;
      }
    }

    /** The copy step of `kod_array_concat`, never past `cap`. */
    method Fill(lhs: KodArray, rhs: KodArray)
      requires Valid() && lhs in headers && rhs in headers && lhs.len + rhs.len <= lhs.cap
      modifies lhs`len, lhs.ptr
      ensures Valid()
      ensures lhs.Contents() == old(lhs.Contents()) + old(rhs.Contents())
      ensures forall h :: h in headers && h != lhs ==> h.Contents() == old(h.Contents())
    {
      var dst, len, n := lhs.ptr, lhs.len, rhs.len;
      CopySlots(rhs.ptr, 0, n, dst, len);
      assert dst[..len + n] == dst[..len] + dst[len..len + n];
      lhs.len := len + n;
    }

    /**
     `kod_array_concat`, the operator `+=`: `lhs` becomes both contents one after the other, also
     when `lhs` and `rhs` are the same array, and no other array changes.
     */
    method Append(lhs: KodArray, rhs: KodArray) returns (r: KodArray)
      requires Valid() && lhs in headers && rhs in headers
      modifies lhs, lhs.ptr
      ensures Valid() && r == lhs
      ensures Model() == old(Model())[lhs := old(lhs.Contents()) + old(rhs.Contents())]
    {
      var total := lhs.len + rhs.len;
      ghost var before := Model();
      Grow(lhs, total);
      assert lhs.Contents() == before[lhs] && rhs.Contents() == before[rhs];
      label grown:
      Fill(lhs, rhs);
      assert forall h :: h in headers && h != lhs ==> Model()[h] == old@grown(h.Contents()) == before[h];
      return lhs;
    }
  }
}
