/** The builtin `Map[K, V]` (stdlib/builtins.kod): dense entries plus a sparse probe table. */
module HashMap {
  import opened Kod
  import opened Finite
  import opened ProbeCycle

  ghost predicate IsPow2(size: nat)
  {
    exists k: nat :: Pow2(k) == size
  }

  /** The slot a probe for hash `h` looks at in round `n`. */
  function SlotAt(h: int64, indices: seq<int>, n: nat): (s: nat)
    requires |indices| > 0
    ensures s < |indices|
  {
    SlotInRange(h, |indices|, n);
    Slot(h, |indices|, n)
  }

  /** Every slot a probe for `h` looks at before round `n` is taken. */
  ghost predicate TakenBefore(h: int64, indices: seq<int>, n: nat)
    requires |indices| > 0
  {
    forall m: nat :: m < n ==> indices[SlotAt(h, indices, m)] != -1
  }

  /** Entry `e`, with hash `h`, is met in round `n` of its own probe, with no empty slot before it. */
  ghost predicate FiledAt(h: int64, indices: seq<int>, e: int, n: nat)
    requires |indices| > 0
  {
    indices[SlotAt(h, indices, n)] == e && TakenBefore(h, indices, n)
  }

  ghost predicate Filed(h: int64, indices: seq<int>, e: int)
    requires |indices| > 0
  {
    exists n: nat :: FiledAt(h, indices, e, n)
  }

  ghost predicate InOneSlot(indices: seq<int>)
  {
    forall s, t :: 0 <= s < |indices| && 0 <= t < |indices| && indices[s] == indices[t] != -1 ==> s == t
  }

  /** `indices` files exactly the first `count` of `keys`: what holds while `resize` is half way. */
  ghost predicate Indexes<K(!new)>(hash: K -> int64, keys: seq<K>, indices: seq<int>, count: nat)
  {
    && count <= |keys|
    && |indices| > 0 && IsPow2(|indices|)
    && (forall s :: 0 <= s < |indices| ==> -1 <= indices[s] < count)
    && InOneSlot(indices)
    && (forall e :: 0 <= e < count ==> Filed(hash(keys[e]), indices, e))
  }

  // ----- Every probe ends -----

  /** The round in which a probe for `h` is certain to have met an empty slot. */
  lemma ProbeEnds(h: int64, indices: seq<int>, count: nat) returns (n: nat)
    requires |indices| > 0 && IsPow2(|indices|) && InOneSlot(indices)
    requires forall s :: 0 <= s < |indices| ==> -1 <= indices[s] < count
    requires count < |indices|
    ensures n < PERTURB_ROUNDS + |indices|
    ensures indices[SlotAt(h, indices, n)] == -1
  {
    if forall s :: 0 <= s < |indices| ==> indices[s] != -1 {
      PigeonHole(indices, count);
      assert false;
    }
    var free :| 0 <= free < |indices| && indices[free] == -1;
    var k: nat :| Pow2(k) == |indices|;
    n := ProbeMeetsEverySlot(h, k, free);
  }

  // ----- Filing one more entry -----

  lemma FilingKeeps(h: int64, indices: seq<int>, slot: nat, e: int, f: int)
    requires slot < |indices| && indices[slot] == -1 && e >= 0 && f >= 0
    requires Filed(h, indices, f)
    ensures Filed(h, indices[slot := e], f)
  {
    var n: nat :| FiledAt(h, indices, f, n);
    var after := indices[slot := e];
    assert forall m: nat :: SlotAt(h, after, m) == SlotAt(h, indices, m);
    assert FiledAt(h, after, f, n);
  }

  lemma FilingExtends<K(!new)>(hash: K -> int64, keys: seq<K>, indices: seq<int>, e: nat, n: nat)
    requires Indexes(hash, keys, indices, e) && e < |keys|
    requires indices[SlotAt(hash(keys[e]), indices, n)] == -1
    requires TakenBefore(hash(keys[e]), indices, n)
    ensures Indexes(hash, keys, indices[SlotAt(hash(keys[e]), indices, n) := e], e + 1)
  {
    var h := hash(keys[e]);
    var slot := SlotAt(h, indices, n);
    var after := indices[slot := e];
    forall f | 0 <= f < e + 1
      ensures Filed(hash(keys[f]), after, f)
    {
      if f < e {
        FilingKeeps(hash(keys[f]), indices, slot, e, f);
      } else {
        assert forall m: nat :: SlotAt(h, after, m) == SlotAt(h, indices, m);
        assert FiledAt(h, after, e, n);
      }
    }
  }

  lemma IndexesMoreKeys<K(!new)>(hash: K -> int64, keys: seq<K>, more: seq<K>, indices: seq<int>, count: nat)
    requires Indexes(hash, keys, indices, count)
    ensures Indexes(hash, keys + more, indices, count)
  {
    forall e | 0 <= e < count
      ensures Filed(hash((keys + more)[e]), indices, e)
    {
      assert (keys + more)[e] == keys[e];
    }
  }

  lemma EmptyTableIndexes<K(!new)>(hash: K -> int64, keys: seq<K>, indices: seq<int>)
    requires |indices| > 0 && IsPow2(|indices|)
    requires forall s :: 0 <= s < |indices| ==> indices[s] == -1
    ensures Indexes(hash, keys, indices, 0)
  {
  }

  lemma DoubleIsPow2(size: nat)
    requires IsPow2(size)
    ensures IsPow2(size * 2)
  {
    var k: nat :| Pow2(k) == size;
    assert Pow2(k + 1) == size * 2;
  }

  // ----- The abstract map -----

  /** The finite map that two parallel arrays with distinct keys stand for. */
  ghost function Zip<K, V>(keys: seq<K>, values: seq<V>): (m: map<K, V>)
    requires |keys| == |values| && Distinct(keys)
  {
    map i | 0 <= i < |keys| :: keys[i] := values[i]
  }

  lemma ZipUpdate<K, V>(keys: seq<K>, values: seq<V>, i: nat, v: V)
    requires |keys| == |values| && Distinct(keys) && i < |keys|
    ensures Zip(keys, values[i := v]) == Zip(keys, values)[keys[i] := v]
  {
    var after, expected := Zip(keys, values[i := v]), Zip(keys, values)[keys[i] := v];
    assert forall j :: 0 <= j < |keys| ==> keys[j] in after && keys[j] in expected && after[keys[j]] == expected[keys[j]];
  }

  lemma ZipAppend<K, V>(keys: seq<K>, values: seq<V>, k: K, v: V)
    requires |keys| == |values| && Distinct(keys) && k !in keys
    ensures Distinct(keys + [k])
    ensures Zip(keys + [k], values + [v]) == Zip(keys, values)[k := v]
  {
    var all, more := keys + [k], values + [v];
    var after, expected := Zip(all, more), Zip(keys, values)[k := v];
    assert all[|keys|] == k && more[|keys|] == v;
    assert forall j :: 0 <= j < |keys| ==> all[j] == keys[j] && more[j] == values[j];
    assert forall j :: 0 <= j < |all| ==> all[j] in after && all[j] in expected && after[all[j]] == expected[all[j]];
  }

  lemma {:induction false} ZipSize<K, V>(keys: seq<K>, values: seq<V>)
    requires |keys| == |values| && Distinct(keys)
    ensures |Zip(keys, values)| == |keys|
  {
    if keys != [] {
      var n := |keys| - 1;
      ZipSize(keys[..n], values[..n]);
      ZipAppend(keys[..n], values[..n], keys[n], values[n]);
      assert keys == keys[..n] + [keys[n]] && values == values[..n] + [values[n]];
    }
  }

  class Map<K(==, !new), V> {
    const hash: K -> int64
    var keys: seq<K>
    var values: seq<V>
    var indices: seq<int>

    ghost predicate Valid()
      reads this
    {
      && |keys| == |values|
      && Distinct(keys)
      && (|indices| == 0 ==> keys == [])
      && (|indices| > 0 ==>
            && |indices| >= 8
            && Indexes(hash, keys, indices, |keys|)
            && 3 * |keys| <= 2 * |indices|)
    }

    /** The finite map this object stands for. */
    ghost function Model(): map<K, V>
      requires Valid()
      reads this
    {
      Zip(keys, values)
    }

    constructor (hash: K -> int64)
      ensures Valid() && keys == [] && Model() == map[]
      ensures this.hash == hash
    {
      this.hash := hash;
      keys, values, indices := [], [], [];
    }

    method EmptyIndices(size: nat) returns (arr: seq<int>)
      ensures |arr| == size
      ensures forall s :: 0 <= s < size ==> arr[s] == -1
    {
      arr := [];
      var i := 0;
      while i < size
        invariant i <= size && |arr| == i
        invariant forall s :: 0 <= s < i ==> arr[s] == -1
      {
        arr := arr + [-1];
        i := i + 1;
      }
    }

    /**
     Finds `key`'s slot, or the empty slot where it belongs, within `13 + |indices|` rounds.
     `count` is how many entries `indices` files: all of them, except inside `Resize`.
     */
    method Probe(key: K, ghost count: nat) returns (slot: nat, ghost n: nat)
      requires Distinct(keys) && Indexes(hash, keys, indices, count) && count < |indices|
      ensures slot < |indices|
      ensures indices[slot] == -1 <==> key !in keys[..count]
      ensures indices[slot] != -1 ==> 0 <= indices[slot] < count && keys[indices[slot]] == key
      ensures slot == SlotAt(hash(key), indices, n) && TakenBefore(hash(key), indices, n)
      ensures n < PERTURB_ROUNDS + |indices|
    {
      var size := |indices|;
      var h := hash(key);
      var perturb: int := h;
      n := 0;
      SlotInRange(h, size, 0);
      slot := WrapSlot(h, size);
      ghost var stop := ProbeEnds(h, indices, count);
      while true
        invariant slot == SlotAt(h, indices, n) && perturb == Perturb(h, n)
        invariant n <= stop
        invariant MissedBefore(key, n)
        decreases stop - n
      {
        var entry := indices[slot];
        if entry == -1 {
          MissMeansAbsent(key, count, n);
          return;
        }
        if keys[entry] == key {
          assert keys[..count][entry] == key;
          return;
        }
        perturb := TruncDiv(perturb, 32);
        slot := NextSlot(h, slot, perturb, n);
        n := n + 1;
      }
    }

    function NextSlot(h: int64, slot: nat, perturb: int, ghost n: nat): (next: nat)
      requires |indices| > 0 && slot == SlotAt(h, indices, n) && perturb == Perturb(h, n + 1)
      reads this
      ensures next == SlotAt(h, indices, n + 1)
    {
      SlotInRange(h, |indices|, n + 1);
      WrapSlot(5 * slot + 1 + perturb, |indices|)
    }

    ghost predicate MissedBefore(key: K, n: nat)
      requires |indices| > 0
      requires forall s :: 0 <= s < |indices| ==> -1 <= indices[s] < |keys|
      reads this
    {
      forall m: nat :: m < n ==>
        var e := indices[SlotAt(hash(key), indices, m)];
        e != -1 && keys[e] != key
    }

    lemma MissMeansAbsent(key: K, count: nat, n: nat)
      requires Indexes(hash, keys, indices, count)
      requires indices[SlotAt(hash(key), indices, n)] == -1
      requires MissedBefore(key, n)
      ensures key !in keys[..count]
    {
      forall e | 0 <= e < count
        ensures keys[e] != key
      {
        var m: nat :| FiledAt(hash(keys[e]), indices, e, m);
        assert hash(keys[e]) == hash(key) ==> m != n;
      }
    }

    /** Rebuilds the table with `newSize` slots; the entries and the map they stand for stay. */
    method Resize(newSize: nat)
      requires Distinct(keys) && |keys| < newSize && IsPow2(newSize)
      modifies this`indices
      ensures |indices| == newSize
      ensures Indexes(hash, keys, indices, |keys|)
    {
      indices := EmptyIndices(newSize);
      EmptyTableIndexes(hash, keys, indices);
      var i := 0;
      while i < |keys|
        invariant i <= |keys|
        invariant |indices| == newSize
        invariant Indexes(hash, keys, indices, i)
      {
        var slot, n := Probe(keys[i], i);
        FilingExtends(hash, keys, indices, i, n) by {
          assert keys[i] !in keys[..i];
        }
        indices := indices[slot := i];
        i := i + 1;
      }
    }

    method Get(key: K) returns (value: Option<V>)
      requires Valid()
      ensures value == if key in Model() then Some(Model()[key]) else None
    {
      if |indices| == 0 {
        return None;
      }
      var slot, _ := Probe(key, |keys|);
      assert keys[..|keys|] == keys;
      var entry := indices[slot];
      if entry == -1 {
        return None;
      }
      return Some(values[entry]);
    }

    method Contains(key: K) returns (found: bool)
      requires Valid()
      ensures found == (key in Model())
    {
      if |indices| == 0 {
        return false;
      }
      var slot, _ := Probe(key, |keys|);
      assert keys[..|keys|] == keys;
      return indices[slot] != -1;
    }

    /** Inserts or overwrites: a new key goes last, an old one keeps its place. */
    method Set(key: K, value: V)
      requires Valid()
      modifies this
      ensures Valid()
      ensures Model() == old(Model())[key := value]
      ensures keys == if key in old(keys) then old(keys) else old(keys) + [key]
    {
      if |indices| == 0 {
        indices := EmptyIndices(8);
        assert Pow2(3) == 8;
        EmptyTableIndexes(hash, keys, indices);
      }
      var slot, n := Probe(key, |keys|);
      assert keys[..|keys|] == keys;
      var entry := indices[slot];
      if entry != -1 {
        ZipUpdate(keys, values, entry, value);
        values := values[entry := value];
        return;
      }
      Insert(key, value, slot, n);
    }

    /** The second half of `set`: a new entry at the empty slot, then the load rule. */
    method Insert(key: K, value: V, slot: nat, ghost n: nat)
      requires Valid() && |indices| > 0 && key !in keys
      requires slot == SlotAt(hash(key), indices, n) && indices[slot] == -1
      requires TakenBefore(hash(key), indices, n)
      modifies this
      ensures Valid()
      ensures Model() == old(Model())[key := value]
      ensures keys == old(keys) + [key]
    {
      ZipAppend(keys, values, key, value);
      IndexesMoreKeys(hash, keys, [key], indices, |keys|);
      keys := keys + [key];
      values := values + [value];
      FilingExtends(hash, keys, indices, |keys| - 1, n);
      indices := indices[slot := |keys| - 1];
      if |keys| * 3 > |indices| * 2 {
        DoubleIsPow2(|indices|);
        Resize(|indices| * 2);
      }
    }

    method Len() returns (n: nat)
      requires Valid()
      ensures n == |Model()|
    {
      ZipSize(keys, values);
      n := |keys|;
    }
  }

  // ----- Whole runs -----

  datatype Op<K, V> = Set(key: K, value: V) | Get(key: K) | Contains(key: K) | Len

  datatype Answer<V> = Done | Got(value: Option<V>) | Has(found: bool) | Size(n: nat)

  /** What a finite map answers to one operation, and what the operation makes of it. */
  function Reply<K, V>(m: map<K, V>, op: Op<K, V>): Answer<V>
  {
    match op
    case Set(_, _) => Done
    case Get(k) => Got(if k in m then Some(m[k]) else None)
    case Contains(k) => Has(k in m)
    case Len => Size(|m|)
  }

  function Effect<K, V>(m: map<K, V>, op: Op<K, V>): map<K, V>
  {
    if op.Set? then m[op.key := op.value] else m
  }

  /** Only the first `set` of a key gives it a place. */
  function Place<K(==), V>(order: seq<K>, op: Op<K, V>): seq<K>
  {
    if op.Set? && op.key !in order then order + [op.key] else order
  }

  /** The finite map after a run: the last value written to each key. */
  function Written<K, V>(ops: seq<Op<K, V>>): map<K, V>
  {
    if ops == [] then map[] else Effect(Written(ops[..|ops| - 1]), ops[|ops| - 1])
  }

  /** The keys of a run in the order of their first `set`. */
  function FirstWrites<K(==), V>(ops: seq<Op<K, V>>): seq<K>
  {
    if ops == [] then [] else Place(FirstWrites(ops[..|ops| - 1]), ops[|ops| - 1])
  }

  method Apply<K(==, !new), V>(m: Map<K, V>, op: Op<K, V>) returns (answer: Answer<V>)
    requires m.Valid()
    modifies m
    ensures m.Valid()
    ensures answer == Reply(old(m.Model()), op)
    ensures m.Model() == Effect(old(m.Model()), op)
    ensures m.keys == Place(old(m.keys), op)
  {
    match op
    case Set(k, v) =>
      m.Set(k, v);
      answer := Done;
    case Get(k) =>
      var value := m.Get(k);
      answer := Got(value);
    case Contains(k) =>
      var found := m.Contains(k);
      answer := Has(found);
    case Len =>
      var n := m.Len();
      answer := Size(n);
  }

  lemma RunStart<K, V>()
    ensures Written<K, V>([]) == map[] && FirstWrites<K, V>([]) == []
  {
  }

  lemma RunStep<K, V>(ops: seq<Op<K, V>>, i: nat)
    requires i < |ops|
    ensures Written(ops[..i + 1]) == Effect(Written(ops[..i]), ops[i])
    ensures FirstWrites(ops[..i + 1]) == Place(FirstWrites(ops[..i]), ops[i])
  {
    assert ops[..i + 1][..i] == ops[..i];
  }

  /**
   Every run from the empty map answers like a finite map, whatever the hash function, and
   leaves the keys in first-insertion order.
   */
  method Run<K(==, !new), V>(hash: K -> int64, ops: seq<Op<K, V>>) returns (answers: seq<Answer<V>>, order: seq<K>)
    ensures |answers| == |ops|
    ensures forall i :: 0 <= i < |ops| ==> answers[i] == Reply(Written(ops[..i]), ops[i])
    ensures order == FirstWrites(ops)
  {
    hide Written, FirstWrites, Effect, Place, Reply, Map.Valid, Map.Model;
    RunStart<K, V>();
    var m := new Map<K, V>(hash);
    answers := [];
    for i := 0 to |ops|
      invariant fresh(m) && m.Valid()
      invariant m.Model() == Written(ops[..i]) && m.keys == FirstWrites(ops[..i])
      invariant |answers| == i
      invariant forall j :: 0 <= j < i ==> answers[j] == Reply(Written(ops[..j]), ops[j])
    {
      RunStep(ops, i);
      var answer := Apply(m, ops[i]);
      answers := answers + [answer];
    }
    assert ops[..|ops|] == ops;
    order := m.keys;
  }
}
