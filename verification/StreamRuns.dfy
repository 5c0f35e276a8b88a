/** Whole runs of a `BufReader` (stdlib/stream.kod): any interleaving of its operations. */
module StreamRuns {
  import opened Kod
  import opened Streams

  datatype Op = Read(max: int) | Exact(n: int) | Until(delim: int) | Line

  /** What a caller sees: bytes, the end of the stream, or an error. */
  datatype Seen = Bytes(data: bytes) | End | Failed(error: IoError)

  function SeenOf(r: Result<bytes, IoError>): Seen
  {
    match r
    case Ok(data) => Bytes(data)
    case Err(e) => Failed(e)
  }

  function SeenLine(r: Result<Option<bytes>, IoError>): Seen
  {
    match r
    case Ok(Some(data)) => Bytes(data)
    case Ok(None) => End
    case Err(e) => Failed(e)
  }

  /** What `read_until` does to all that is left: without a positive `chunk` it gets at nothing. */
  ghost predicate UntilStep(fills: bool, delim: int, limit: int, all: bytes, r: Result<Option<bytes>, IoError>, left: bytes)
  {
    if fills then UntilOutcome(all, delim, limit, r, left)
    else UntilOutcome([], delim, limit, r, []) && left == all
  }

  ghost predicate LineStep(fills: bool, limit: int, all: bytes, r: Result<Option<bytes>, IoError>, left: bytes)
  {
    if fills then LineOutcome(all, limit, r, left)
    else LineOutcome([], limit, r, []) && left == all
  }

  /** One operation on the bytes `all` that are left: what it shows and what it leaves. */
  ghost predicate Step(op: Op, fills: bool, limit: int, all: bytes, seen: Seen, left: bytes)
  {
    match op
    case Read(max) =>
      if seen.Bytes? then
        && all == seen.data + left
        && (if max > 0 && all != [] then 1 <= |seen.data| <= max else seen.data == [])
      else seen == Failed(Broken) && left == all
    case Exact(n) =>
      && !seen.End?
      && (seen.Bytes? ==> all == seen.data + left && |seen.data| == if n < 0 then 0 else n)
      && (seen.Failed? && seen.error != Broken ==>
            seen.error == UnexpectedEof(|all|, n) && |all| < n && left == [])
    case Until(delim) => exists r :: UntilStep(fills, delim, limit, all, r, left) && seen == SeenLine(r)
    case Line => exists r :: LineStep(fills, limit, all, r, left) && seen == SeenLine(r)
  }

  /** A run: what is left before each operation and after the last. */
  ghost predicate Trace(ops: seq<Op>, fills: bool, limit: int, data: bytes, seen: seq<Seen>, left: seq<bytes>)
  {
    && |seen| == |ops| && |left| == |ops| + 1 && left[0] == data
    && forall i :: 0 <= i < |ops| ==> Step(ops[i], fills, limit, left[i], seen[i], left[i + 1])
  }

  /** How many operations were told of a failure. */
  function Breaks(seen: seq<Seen>): nat
  {
    if seen == [] then 0 else Breaks(seen[..|seen| - 1]) + if seen[|seen| - 1] == Failed(Broken) then 1 else 0
  }

  lemma {:induction false} NoBreaks(seen: seq<Seen>)
    ensures Breaks(seen) == 0 <==> forall i :: 0 <= i < |seen| ==> seen[i] != Failed(Broken)
  {
    if seen != [] {
      var n := |seen| - 1;
      NoBreaks(seen[..n]);
      assert forall i :: 0 <= i < n ==> seen[..n][i] == seen[i];
    }
  }

  /** The bytes an operation used up: those it shows, and the delimiter and carriage return it hides. */
  ghost predicate UsedUp(op: Op, seen: Seen, used: bytes)
  {
    match seen
    case End => used == []
    case Failed(_) => false
    case Bytes(data) =>
      match op
      case Until(delim) => Lacks(data, delim) && (used == data || ThenDelim(used, data, delim))
      case Line => IsLine(used, data)
      case _ => used == data
  }

  predicate ThenDelim(used: bytes, data: bytes, delim: int)
  {
    |used| == |data| + 1 && used[..|data|] == data && used[|data|] == delim
  }

  /** `data` is the line `used`: without its line feed, if it has one, and without the one carriage return before that. */
  ghost predicate IsLine(used: bytes, data: bytes)
  {
    && used != [] && Lacks(used[..|used| - 1], 10)
    && var n := if used[|used| - 1] == 10 then |used| - 1 else |used|;
       data == if n > 0 && used[n - 1] == 13 then used[..n - 1] else used[..n]
  }

  function Flatten(pieces: seq<bytes>): bytes
  {
    if pieces == [] then [] else Flatten(pieces[..|pieces| - 1]) + pieces[|pieces| - 1]
  }

  lemma StepUses(op: Op, fills: bool, limit: int, all: bytes, seen: Seen, left: bytes) returns (used: bytes)
    requires Step(op, fills, limit, all, seen, left) && !seen.Failed?
    ensures all == used + left && UsedUp(op, seen, used)
  {
    match op
    case Read(_) => used := seen.data;
    case Exact(_) => used := seen.data;
    case Until(delim) =>
      var r :| UntilStep(fills, delim, limit, all, r, left) && seen == SeenLine(r);
      if fills {
        used := LineUses(all, delim, limit, r, left);
      } else {
        used := [];
      }
    case Line =>
      var r :| LineStep(fills, limit, all, r, left) && seen == SeenLine(r);
      if fills {
        used := LineIsUsed(all, limit, r, left);
      } else {
        used := [];
      }
  }

  lemma LineIsUsed(all: bytes, limit: int, r: Result<Option<bytes>, IoError>, left: bytes) returns (used: bytes)
    requires LineOutcome(all, limit, r, left) && r.Ok?
    ensures all == used + left && (if r.value.None? then used == [] else IsLine(used, r.value.value))
  {
    var k := FirstOf(all, 10);
    used := if r.value.None? then [] else if k < |all| then all[..k + 1] else all;
    if r.value.Some? {
      var n := if used[|used| - 1] == 10 then |used| - 1 else |used|;
      assert n == k && used[..n] == all[..k];
      assert n > 0 ==> used[..n - 1] == all[..k - 1];
    }
  }

  lemma LineUses(all: bytes, delim: int, limit: int, r: Result<Option<bytes>, IoError>, left: bytes) returns (used: bytes)
    requires UntilOutcome(all, delim, limit, r, left) && r.Ok?
    ensures all == used + left
    ensures r.value.Some? ==> Lacks(r.value.value, delim) && (used == r.value.value || ThenDelim(used, r.value.value, delim))
    ensures r.value.None? ==> used == []
  {
    var k := FirstOf(all, delim);
    if r.value.None? {
      used := [];
    } else if k < |all| {
      used := all[..k + 1];
    } else {
      used := all[..k];
    }
  }

  /**
   Every byte once and in order: the pieces used up, one for each operation, and what is left
   make up the data, whatever the operations and however the inner stream was cut.
   */
  lemma {:induction false} DeliversOnce(ops: seq<Op>, fills: bool, limit: int, data: bytes, seen: seq<Seen>, left: seq<bytes>, n: nat)
    returns (used: seq<bytes>)
    requires Trace(ops, fills, limit, data, seen, left) && n <= |ops|
    requires forall i :: 0 <= i < n ==> !seen[i].Failed?
    ensures |used| == n && data == Flatten(used) + left[n]
    ensures forall i :: 0 <= i < n ==> UsedUp(ops[i], seen[i], used[i])
  {
    hide Step, UsedUp;
    if n == 0 {
      used := [];
    } else {
      var before := DeliversOnce(ops, fills, limit, data, seen, left, n - 1);
      var last := StepUses(ops[n - 1], fills, limit, left[n - 1], seen[n - 1], left[n]);
      used := before + [last];
      assert used[..n - 1] == before;
    }
  }

  predicate Sized(op: Op) { !op.Read? }

  /** Apart from plain `read`s, one operation shows the same whatever pieces it was served. */
  lemma StepIsDetermined(op: Op, fills: bool, limit: int, all: bytes, a: Seen, left: bytes, b: Seen, right: bytes)
    requires Sized(op) && Step(op, fills, limit, all, a, left) && Step(op, fills, limit, all, b, right)
    requires a != Failed(Broken) && b != Failed(Broken)
    ensures a == b && (!a.Failed? ==> left == right)
  {
    match op
    case Exact(n) =>
      if a.Bytes? && b.Bytes? {
        assert a.data == all[..|a.data|] && b.data == all[..|b.data|];
        assert left == all[|a.data|..] && right == all[|b.data|..];
      }
    case Until(_) =>
    case Line =>
  }

  /** Two runs over the same data agree, operation by operation, up to and including the first error. */
  lemma {:induction false} TracesAgree(ops: seq<Op>, fills: bool, limit: int, data: bytes,
                                       a: seq<Seen>, left: seq<bytes>, b: seq<Seen>, right: seq<bytes>, n: nat)
    requires Trace(ops, fills, limit, data, a, left) && Trace(ops, fills, limit, data, b, right) && n <= |ops|
    requires forall i :: 0 <= i < n ==> Sized(ops[i]) && a[i] != Failed(Broken) && b[i] != Failed(Broken)
    requires forall i :: 0 <= i < n - 1 ==> !a[i].Failed?
    ensures a[..n] == b[..n]
    ensures (n > 0 && a[n - 1].Failed?) || left[n] == right[n]
  {
    hide Step;
    if n > 0 {
      TracesAgree(ops, fills, limit, data, a, left, b, right, n - 1);
      StepIsDetermined(ops[n - 1], fills, limit, left[n - 1], a[n - 1], left[n], b[n - 1], right[n]);
      assert a[..n] == a[..n - 1] + [a[n - 1]] && b[..n] == b[..n - 1] + [b[n - 1]];
    }
  }

  // ----- The runs there are -----

  /** One operation of a `BufReader`: it shows a failure exactly when the inner stream fails. */
  method Perform(r: BufReader, op: Op) returns (seen: Seen)
    requires r.Valid()
    modifies r, r.inner
    ensures r.Valid() && Step(op, r.chunk > 0, r.limit, old(r.Left()), seen, r.Left())
    ensures r.Told(seen == Failed(Broken), old(r.inner.faults))
  {
    hide UntilStep, LineStep;
    match op
    case Read(max) =>
      var x := r.Read(max);
      seen := SeenOf(x);
    case Exact(n) =>
      var x := r.ReadExact(n);
      seen := SeenOf(x);
    case Until(delim) =>
      seen := PerformUntil(r, delim);
    case Line =>
      seen := PerformLine(r);
  }

  method PerformUntil(r: BufReader, delim: int) returns (seen: Seen)
    requires r.Valid()
    modifies r, r.inner
    ensures r.Valid() && Step(Until(delim), r.chunk > 0, r.limit, old(r.Left()), seen, r.Left())
    ensures r.Told(seen == Failed(Broken), old(r.inner.faults))
  {
    hide UntilOutcome, FirstOf;
    r.NothingInReach();
    var x := r.ReadUntil(delim);
    r.NothingInReach();
    assert UntilStep(r.chunk > 0, delim, r.limit, old(r.Left()), x, r.Left());
    seen := SeenLine(x);
  }

  method PerformLine(r: BufReader) returns (seen: Seen)
    requires r.Valid()
    modifies r, r.inner
    ensures r.Valid() && Step(Line, r.chunk > 0, r.limit, old(r.Left()), seen, r.Left())
    ensures r.Told(seen == Failed(Broken), old(r.inner.faults))
  {
    hide LineOutcome, FirstOf;
    r.NothingInReach();
    var x := r.ReadLine();
    r.NothingInReach();
    assert LineStep(r.chunk > 0, r.limit, old(r.Left()), x, r.Left());
    seen := SeenLine(x);
  }

  /**
   Every run of a `BufReader` over every reader of `data` is a trace, and as many operations show a
   failure as there were failures of the inner reader: over a reliable one, none.
   */
  method Run(data: bytes, reliable: bool, limit: int, chunk: int, ops: seq<Op>)
    returns (seen: seq<Seen>, ghost left: seq<bytes>, ghost faults: nat)
    ensures Trace(ops, chunk > 0, limit, data, seen, left)
    ensures Breaks(seen) == faults && (reliable ==> faults == 0)
    ensures reliable ==> forall i :: 0 <= i < |ops| ==> seen[i] != Failed(Broken)
  {
    hide Step;
    var source := new Source(data, reliable);
    var r := new BufReader(source, limit, chunk);
    seen, left := [], [data];
    for i := 0 to |ops|
      invariant r.Valid() && fresh(r) && r.inner == source && fresh(source) && r.limit == limit && r.chunk == chunk
      invariant |seen| == i && |left| == i + 1 && left[0] == data && left[i] == r.Left()
      invariant forall j :: 0 <= j < i ==> Step(ops[j], chunk > 0, limit, left[j], seen[j], left[j + 1])
      invariant Breaks(seen) == source.faults && (reliable ==> source.faults == 0)
    {
      var one := Perform(r, ops[i]);
      assert (seen + [one])[..i] == seen;
      seen := seen + [one];
      left := left + [r.Left()];
    }
    faults := source.faults;
    NoBreaks(seen);
  }

  /** The first `n` operations are sized, and none of them but the last has shown an error. */
  predicate Smooth(ops: seq<Op>, seen: seq<Seen>, n: nat)
    requires n <= |ops| == |seen|
  {
    (forall i :: 0 <= i < n ==> Sized(ops[i])) && (forall i :: 0 <= i < n - 1 ==> !seen[i].Failed?)
  }

  /**
   How a reader that does not fail cuts the data, and how large the buffer is, cannot be seen: two
   runs of the same operations show the same, up to and including the first error.
   */
  method ChunkingIsInvisible(data: bytes, limit: int, chunkA: int, chunkB: int, ops: seq<Op>) returns (a: seq<Seen>, b: seq<Seen>)
    requires chunkA > 0 <==> chunkB > 0
    ensures |a| == |b| == |ops|
    ensures forall n :: 0 <= n <= |ops| && Smooth(ops, a, n) ==> a[..n] == b[..n]
  {
    ghost var left, right, faults;
    a, left, faults := Run(data, true, limit, chunkA, ops);
    b, right, faults := Run(data, true, limit, chunkB, ops);
    forall n | 0 <= n <= |ops| && Smooth(ops, a, n)
      ensures a[..n] == b[..n]
    {
      TracesAgree(ops, chunkA > 0, limit, data, a, left, b, right, n);
    }
  }

  /** Over a reliable reader every byte comes once and in order, for as long as there is no error of the caller's making. */
  method DeliversAll(data: bytes, limit: int, chunk: int, ops: seq<Op>) returns (seen: seq<Seen>, ghost used: seq<bytes>, ghost left: bytes)
    ensures |seen| == |ops| && |used| <= |ops|
    ensures data == Flatten(used) + left
    ensures forall i :: 0 <= i < |used| ==> UsedUp(ops[i], seen[i], used[i])
    ensures |used| < |ops| ==> seen[|used|].Failed? && seen[|used|].error != Broken
  {
    ghost var lefts, faults;
    seen, lefts, faults := Run(data, true, limit, chunk, ops);
    ghost var n := FirstError(seen);
    used := DeliversOnce(ops, chunk > 0, limit, data, seen, lefts, n);
    left := lefts[n];
  }

  function FirstError(seen: seq<Seen>): (n: nat)
    ensures n <= |seen| && (forall i :: 0 <= i < n ==> !seen[i].Failed?) && (n < |seen| ==> seen[n].Failed?)
  {
    if seen == [] || seen[0].Failed? then 0 else 1 + FirstError(seen[1..])
  }
}
