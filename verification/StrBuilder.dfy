/** The growable byte buffer of stdlib/runtime.c (`kod_sb_*`), with the cost of its growth. */
module StrBuilder {
  import opened Kod

  const FIRST_CAP: nat := 32
  const MAX_LEN: nat := INT64_MAX / 4

  /** The capacity after doubling `cap` until it holds `need`. */
  function Doubled(cap: nat, need: nat): (r: nat)
    requires cap > 0
    ensures cap <= r && need <= r
    ensures r > cap ==> 2 * cap <= r < 2 * need
    decreases if cap < need then need - cap else 0
  {
    if cap < need then Doubled(2 * cap, need) else cap
  }

  /** A builder's sizes, the bytes copied when growing so far, and the size of the buffers left behind. */
  datatype Books = Books(len: nat, cap: nat, copied: nat, abandoned: nat)

  /** Making room for `extra` bytes more: doubling copies the content and abandons the buffer. */
  function Reserved(b: Books, extra: nat): Books
    requires b.cap > 0
  {
    if b.len + extra <= b.cap then b
    else b.(cap := Doubled(b.cap, b.len + extra), copied := b.copied + b.len, abandoned := b.abandoned + b.cap)
  }

  function Booked(b: Books, size: nat): (r: Books)
    requires b.cap > 0
    ensures r.cap > 0
  {
    Reserved(b, size).(len := b.len + size)
  }

  class Builder {
    var buf: array<byte>
    var len: nat
    var cap: nat
    ghost var copied: nat
    ghost var abandoned: nat

    ghost predicate Valid()
      reads this
    {
      len <= cap == buf.Length && FIRST_CAP <= cap <= INT64_MAX && len <= MAX_LEN
    }

    ghost function Content(): bytes
      requires Valid()
      reads this, buf
    {
      buf[..len]
    }

    ghost function Ledger(): Books
      reads this
    {
      Books(len, cap, copied, abandoned)
    }

    constructor ()
      ensures Valid() && fresh(buf) && Content() == [] && Ledger() == Books(0, FIRST_CAP, 0, 0)
    {
      buf := new byte[FIRST_CAP];
      len, cap := 0, FIRST_CAP;
      copied, abandoned := 0, 0;
    }

    /**
     Room for `extra` bytes more, or a panic. Doubling never passes the largest int64, and the
     content stays.
     */
    method Reserve(extra: nat) returns (ok: bool)
      requires Valid()
      modifies this
      ensures ok == (extra <= MAX_LEN - len) && Valid() && len == old(len)
      ensures Ledger() == if ok then Reserved(old(Ledger()), extra) else old(Ledger())
      ensures ok ==> len + extra <= cap
      ensures buf == old(buf) || fresh(buf)
      ensures buf[..len] == old(buf[..len])
    {
      if extra > MAX_LEN - len {
        return false;
      }
      var need := len + extra;
      if need <= cap {
        return true;
      }
      var newCap := cap;
      while newCap < need
        invariant cap <= newCap && newCap < 2 * need && newCap <= INT64_MAX
        invariant Doubled(newCap, need) == Doubled(cap, need)
        decreases need - newCap
      {
        newCap := newCap * 2;
      }
      var newBuf := new byte[newCap];
      for i := 0 to len
        invariant unchanged(this) && unchanged(buf)
        invariant forall j :: 0 <= j < i ==> newBuf[j] == buf[j]
      {
        newBuf[i] := buf[i];
      }
      assert newBuf[..len] == buf[..len];
      copied, abandoned := copied + len, abandoned + cap;
      buf := newBuf;
      cap := newCap;
      return true;
    }

    /** Appends all of `s`, or panics when the content would pass a quarter of the int64 range. */
    method Append(s: bytes) returns (ok: bool)
      requires Valid()
      modifies this, buf
      ensures Valid() && ok == (|s| <= MAX_LEN - |old(Content())|)
      ensures Content() == if ok then old(Content()) + s else old(Content())
      ensures Ledger() == if ok then Booked(old(Ledger()), |s|) else old(Ledger())
      ensures buf == old(buf) || fresh(buf)
    {
      ok := Reserve(|s|);
      if !ok {
        return;
      }
      Put(s);
    }

    /** The `memcpy` of the appended bytes into the reserved room. */
    method Put(s: bytes)
      requires len + |s| <= cap == buf.Length
      modifies this`len, buf
      ensures len == old(len) + |s|
      ensures len <= buf.Length && buf[..len] == old(buf[..len]) + s
    {
      var at := len;
      for i := 0 to |s|
        invariant len == at
        invariant buf[..at] == old(buf[..at]) && buf[at..at + i] == s[..i]
      {
        buf[at + i] := s[i];
        assert buf[at..at + i + 1] == buf[at..at + i] + [s[i]];
      }
      assert buf[..at + |s|] == buf[..at] + buf[at..at + |s|];
      len := len + |s|;
    }

    /** `kod_sb_append_byte`: the low 8 bits of `b`. */
    method AppendByte(b: int) returns (ok: bool)
      requires Valid()
      modifies this, buf
      ensures Valid() && ok == (1 <= MAX_LEN - |old(Content())|)
      ensures Content() == if ok then old(Content()) + [b % 256] else old(Content())
      ensures Ledger() == if ok then Booked(old(Ledger()), 1) else old(Ledger())
      ensures buf == old(buf) || fresh(buf)
    {
      ok := Append([b % 256]);
    }

    /** Empties the builder and keeps its buffer. */
    method Clear()
      requires Valid()
      modifies this`len
      ensures Valid() && Content() == [] && Ledger() == old(Ledger()).(len := 0)
    {
      len := 0;
    }

    method ToStr() returns (s: bytes)
      requires Valid()
      ensures s == Content()
    {
      s := buf[..len];
    }
  }

  // ----- Whole runs -----

  datatype Op = Append(s: bytes) | AppendByte(b: int) | Clear

  function After(content: bytes, op: Op): bytes
  {
    match op
    case Append(s) => content + s
    case AppendByte(b) => content + [b % 256]
    case Clear => []
  }

  function Size(op: Op): nat
  {
    match op
    case Append(s) => |s|
    case AppendByte(_) => 1
    case Clear => 0
  }

  /** What was appended since the last `clear`. */
  function SinceClear(ops: seq<Op>): bytes
  {
    if ops == [] then [] else After(SinceClear(ops[..|ops| - 1]), ops[|ops| - 1])
  }

  /** How much was appended in all. */
  function Total(ops: seq<Op>): nat
  {
    if ops == [] then 0 else Total(ops[..|ops| - 1]) + Size(ops[|ops| - 1])
  }

  lemma RunStep(ops: seq<Op>, k: nat)
    requires k < |ops|
    ensures SinceClear(ops[..k + 1]) == After(SinceClear(ops[..k]), ops[k])
    ensures BooksOf(ops[..k + 1]) == BooksAfter(BooksOf(ops[..k]), ops[k])
    ensures Runs(ops[..k + 1]) <==> Runs(ops[..k]) && |SinceClear(ops[..k + 1])| <= MAX_LEN
  {
    assert ops[..k + 1] == ops[..k] + [ops[k]];
    LastStep(ops[..k], ops[k]);
  }

  function BooksAfter(b: Books, op: Op): (r: Books)
    requires b.cap > 0
    ensures r.cap > 0
  {
    if op.Clear? then b.(len := 0) else Booked(b, Size(op))
  }

  /** The books of a whole run. */
  function BooksOf(ops: seq<Op>): (b: Books)
    ensures b.cap > 0
  {
    if ops == [] then Books(0, FIRST_CAP, 0, 0) else BooksAfter(BooksOf(ops[..|ops| - 1]), ops[|ops| - 1])
  }

  function Cost(ops: seq<Op>): nat
  {
    BooksOf(ops).copied + BooksOf(ops).abandoned
  }

  /** No operation of the run panics. */
  predicate Runs(ops: seq<Op>)
  {
    ops == [] || (Runs(ops[..|ops| - 1]) && |SinceClear(ops)| <= MAX_LEN)
  }

  // ----- Doubling -----

  lemma {:induction false} DoubledTwice(cap: nat, a: nat, b: nat)
    requires cap > 0
    ensures Doubled(Doubled(cap, a), b) == Doubled(cap, if a < b then b else a)
    decreases if cap < a then a - cap else 0
  {
    if cap < a {
      DoubledTwice(2 * cap, a, b);
    }
  }

  lemma DoubledGrows(cap: nat, a: nat, b: nat)
    requires cap > 0 && a <= b
    ensures Doubled(cap, a) <= Doubled(cap, b)
  {
    DoubledTwice(cap, a, b);
  }

  lemma {:induction false} DoubledAtMost(j: nat, k: nat, need: nat)
    requires j <= k && need <= Pow2(k)
    ensures Doubled(Pow2(j), need) <= Pow2(k)
    decreases k - j
  {
    Pow2Grows(j, k);
    if Pow2(j) < need {
      DoubledAtMost(j + 1, k, need);
    }
  }

  // ----- What a run costs -----

  /** The longest the content ever was. */
  function Peak(ops: seq<Op>): nat
  {
    if ops == [] then 0
    else
      var before := Peak(ops[..|ops| - 1]);
      var now := |SinceClear(ops)|;
      if before < now then now else before
  }

  /** The capacity is the doubling that holds the peak, and all that growing cost is less than it. */
  lemma {:induction false} BooksAre(ops: seq<Op>)
    ensures var b := BooksOf(ops);
            && b.len == |SinceClear(ops)| <= Peak(ops) <= Total(ops)
            && b.len <= b.cap == Doubled(FIRST_CAP, Peak(ops))
            && b.copied <= b.abandoned <= b.cap - FIRST_CAP
    ensures |SinceClear(ops)| <= Total(ops)
  {
    if ops != [] {
      var n := |ops| - 1;
      BooksAre(ops[..n]);
      DoubledTwice(FIRST_CAP, Peak(ops[..n]), |SinceClear(ops)|);
    }
  }

  lemma {:induction false} PeakIsLimited(ops: seq<Op>)
    requires Runs(ops)
    ensures Peak(ops) <= MAX_LEN
  {
    if ops != [] {
      PeakIsLimited(ops[..|ops| - 1]);
    }
  }

  /** The most that appending `n` bytes can hold at once. */
  function Most(n: nat): nat
  {
    if n < MAX_LEN then n else MAX_LEN
  }

  /** What growing can cost at most: both the copying and the buffers left behind. */
  function Ceiling(n: nat): nat
  {
    2 * (Doubled(FIRST_CAP, Most(n)) - FIRST_CAP)
  }

  /** No run costs more; and each of the two costs stays under twice the bytes appended. */
  lemma CostIsBounded(ops: seq<Op>)
    requires Runs(ops)
    ensures Cost(ops) <= Ceiling(Total(ops))
    ensures var n, b := Total(ops), BooksOf(ops); n > 0 ==> b.copied < 2 * n && b.abandoned < 2 * n && Cost(ops) < 4 * n
  {
    BooksAre(ops);
    PeakIsLimited(ops);
    DoubledGrows(FIRST_CAP, Peak(ops), Most(Total(ops)));
  }

  /** `n` single bytes. */
  function Singles(n: nat): (ops: seq<Op>)
    ensures |ops| == n
  {
    if n == 0 then [] else Singles(n - 1) + [AppendByte(0)]
  }

  /** The books of `n` single bytes: every buffer is full when it is abandoned. */
  function SinglesBooks(n: nat): Books
  {
    var cap := Doubled(FIRST_CAP, n);
    Books(n, cap, cap - FIRST_CAP, cap - FIRST_CAP)
  }

  lemma OneMoreSingle(n: nat)
    requires n > 0
    ensures Booked(SinglesBooks(n - 1), 1) == SinglesBooks(n)
  {
    var cap := Doubled(FIRST_CAP, n - 1);
    DoubledTwice(FIRST_CAP, n - 1, n);
    assert n > cap ==> n - 1 == cap && Doubled(cap, n) == Doubled(2 * cap, n) == 2 * cap;
  }

  /** Appending byte by byte costs the most there can be. */
  lemma {:induction false} SinglesCostMost(n: nat)
    requires n <= MAX_LEN
    ensures Runs(Singles(n)) && Total(Singles(n)) == n && |SinceClear(Singles(n))| == n
    ensures BooksOf(Singles(n)) == SinglesBooks(n)
    ensures Cost(Singles(n)) == Ceiling(n)
  {
    hide Booked, Doubled, BooksOf, SinceClear, Total, Runs;
    RunStart();
    if n == 0 {
      NoSingles();
    } else {
      SinglesCostMost(n - 1);
      LastStep(Singles(n - 1), AppendByte(0));
      OneMoreSingle(n);
    }
  }

  lemma NoSingles()
    ensures SinglesBooks(0) == Books(0, FIRST_CAP, 0, 0)
  {
  }

  lemma LastStep(ops: seq<Op>, op: Op)
    ensures SinceClear(ops + [op]) == After(SinceClear(ops), op)
    ensures Total(ops + [op]) == Total(ops) + Size(op)
    ensures BooksOf(ops + [op]) == BooksAfter(BooksOf(ops), op)
    ensures Runs(ops + [op]) <==> Runs(ops) && |SinceClear(ops + [op])| <= MAX_LEN
  {
    assert (ops + [op])[..|ops|] == ops;
  }

  /** Whether every run that appends `n` bytes in all costs less than `2n`, copies and abandoned buffers together. */
  ghost predicate JointlyLinear(n: nat)
  {
    forall ops :: Runs(ops) && Total(ops) == n ==> Cost(ops) < 2 * n
  }

  /** Exactly when the last doubling is less than 32 bytes beyond what was appended. */
  lemma JointlyLinearIff(n: nat)
    requires n > 0
    ensures JointlyLinear(n) <==> Doubled(FIRST_CAP, Most(n)) < n + FIRST_CAP
  {
    if Doubled(FIRST_CAP, Most(n)) < n + FIRST_CAP {
      forall ops | Runs(ops) && Total(ops) == n
        ensures Cost(ops) < 2 * n
      {
        CostIsBounded(ops);
      }
    } else if n <= MAX_LEN {
      SinglesCostMost(n);
    } else {
      LargestBuffer();
    }
  }

  lemma LargestBuffer()
    ensures Doubled(FIRST_CAP, MAX_LEN) <= MAX_LEN + 1
  {
    Pow2Values();
    assert Pow2(5) == 4 * Pow2(3) && Pow2(63) == 4 * Pow2(61);
    DoubledAtMost(5, 61, MAX_LEN);
  }

  /** 65 bytes are the fewest that can cost more than twice their number. */
  lemma SixtyFive(n: nat)
    ensures !JointlyLinear(65)
    ensures 0 < n < 65 ==> JointlyLinear(n)
  {
    JointlyLinearIff(65);
    assert Doubled(32, 65) == Doubled(64, 65) == Doubled(128, 65) == 128;
    if 0 < n < 65 {
      JointlyLinearIff(n);
      assert Doubled(32, n) == if n <= 32 then 32 else Doubled(64, n);
    }
  }

  // ----- Whole runs of a builder -----

  method Perform(sb: Builder, op: Op) returns (ok: bool)
    requires sb.Valid()
    modifies sb, sb.buf
    ensures sb.Valid() && (sb.buf == old(sb.buf) || fresh(sb.buf))
    ensures ok == (|After(old(sb.Content()), op)| <= MAX_LEN)
    ensures sb.Content() == if ok then After(old(sb.Content()), op) else old(sb.Content())
    ensures sb.Ledger() == if ok then BooksAfter(old(sb.Ledger()), op) else old(sb.Ledger())
  {
    ok := true;
    match op
    case Append(s) => ok := sb.Append(s);
    case AppendByte(b) => ok := sb.AppendByte(b);
    case Clear => sb.Clear();
  }

  /**
   Every run, up to the first append that panics because the content would grow past the limit:
   the content is what was appended since the last clear, and growing costs what the books say.
   */
  method Run(ops: seq<Op>) returns (done: nat, content: bytes, ghost copied: nat, ghost abandoned: nat)
    ensures done <= |ops| && Runs(ops[..done]) && (done < |ops| ==> !Runs(ops[..done + 1]))
    ensures content == SinceClear(ops[..done])
    ensures copied == BooksOf(ops[..done]).copied && abandoned == BooksOf(ops[..done]).abandoned
    ensures var n := Total(ops[..done]);
            && copied + abandoned <= Ceiling(n)
            && (n > 0 ==> copied < 2 * n && abandoned < 2 * n)
  {
    hide SinceClear, Total, After, Size, BooksOf, BooksAfter, Doubled, Runs;
    RunStart();
    var sb := new Builder();
    done := 0;
    while done < |ops|
      invariant done <= |ops| && fresh(sb) && fresh(sb.buf) && sb.Valid()
      invariant sb.Content() == SinceClear(ops[..done]) && sb.Ledger() == BooksOf(ops[..done])
      invariant Runs(ops[..done])
    {
      RunStep(ops, done);
      var ok := Perform(sb, ops[done]);
      if !ok {
        break;
      }
      done := done + 1;
    }
    content := sb.ToStr();
    copied, abandoned := sb.copied, sb.abandoned;
    CostIsBounded(ops[..done]);
  }

  lemma RunStart()
    ensures SinceClear([]) == [] && Total([]) == 0 && BooksOf([]) == Books(0, FIRST_CAP, 0, 0) && Runs([])
  {
  }
}
