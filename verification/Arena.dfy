/** The bump allocator of stdlib/arena.c, over a `malloc` that may return any free memory. */
module Arena {
  import opened Finite

  const BLOCK_SIZE: nat := 4 * 1024 * 1024
  const HEADER: nat := 24

  /** Memory `malloc` has given out. */
  datatype Extent = Extent(base: nat, end: nat)

  /** A block by value: its header at `base`, then space handed out up to `current`. */
  datatype Span = Span(base: nat, current: nat, end: nat)

  /** An allocation: its address, the bytes asked for, and the place of its block, oldest first. */
  datatype Piece = Piece(ptr: nat, size: nat, home: nat)

  predicate Apart(a: nat, aEnd: nat, b: nat, bEnd: nat)
  {
    aEnd <= b || bEnd <= a
  }

  /** `(size + 7) & ~7`. */
  function RoundUp(size: nat): (r: nat)
    ensures size <= r < size + 8 && r % 8 == 0
  {
    (size + 7) / 8 * 8
  }

  // ----- malloc and free -----

  predicate ClearOf(taken: seq<Extent>, base: nat, end: nat)
  {
    forall i :: 0 <= i < |taken| ==> Apart(base, end, taken[i].base, taken[i].end)
  }

  /** An aligned address beyond all that is taken. */
  function Beyond(taken: seq<Extent>): (base: nat)
    ensures base % 8 == 0 && forall i :: 0 <= i < |taken| ==> taken[i].end <= base
  {
    if taken == [] then 0
    else
      var n := |taken| - 1;
      var before := Beyond(taken[..n]);
      assert forall i :: 0 <= i < n ==> taken[..n][i] == taken[i];
      if before < taken[n].end then RoundUp(taken[n].end) else before
  }

  ghost predicate GoodExtents(taken: seq<Extent>)
  {
    && (forall i :: 0 <= i < |taken| ==> taken[i].base % 8 == 0 && taken[i].base < taken[i].end)
    && (forall i, j :: 0 <= i < j < |taken| ==> Apart(taken[i].base, taken[i].end, taken[j].base, taken[j].end))
  }

  lemma OneBase(taken: seq<Extent>, j: nat, k: nat)
    requires GoodExtents(taken) && j < |taken| && k < |taken| && taken[j].base == taken[k].base
    ensures j == k
  {
  }

  lemma StillGood(taken: seq<Extent>, k: nat)
    requires GoodExtents(taken) && k < |taken|
    ensures GoodExtents(Without(taken, k))
  {
  }

  class Malloc {
    /** What has been given and not freed. */
    var taken: seq<Extent>

    ghost predicate Valid()
      reads this
    {
      GoodExtents(taken)
    }

    constructor ()
      ensures Valid() && taken == []
    {
      taken := [];
    }

    /** Any aligned memory apart from what is taken. */
    method Give(size: nat) returns (base: nat)
      requires Valid() && size > 0
      modifies this
      ensures Valid() && base % 8 == 0 && ClearOf(old(taken), base, base + size)
      ensures taken == old(taken) + [Extent(base, base + size)]
    {
      var any: int := *;
      base := Beyond(taken);
      if any >= 0 && any % 8 == 0 && ClearOf(taken, any, any + size) {
        base := any;
      }
      taken := taken + [Extent(base, base + size)];
    }

    /** Only what was given and not freed since may be freed. */
    method Free(base: nat, ghost k: nat)
      requires Valid() && k < |taken| && taken[k].base == base
      modifies this
      ensures Valid() && taken == Without(old(taken), k)
    {
      var j :| 0 <= j < |taken| && taken[j].base == base;
      OneBase(taken, j, k);
      StillGood(taken, k);
      taken := Without(taken, j);
    }
  }

  // ----- Blocks and pieces by value -----

  predicate ValidSpan(b: Span)
  {
    b.base % 8 == 0 && b.current % 8 == 0 && b.base + HEADER <= b.current <= b.end
  }

  ghost predicate SpansApart(spans: seq<Span>)
  {
    forall i, j :: 0 <= i < j < |spans| ==> Apart(spans[i].base, spans[i].end, spans[j].base, spans[j].end)
  }

  /** Inside the space of an unfreed block that has been handed out, past its header. */
  predicate Inside(spans: seq<Span>, p: Piece)
  {
    && p.home < |spans| && p.ptr % 8 == 0
    && spans[p.home].base + HEADER <= p.ptr && p.ptr + p.size <= spans[p.home].current
  }

  ghost predicate PiecesApart(live: seq<Piece>)
  {
    forall i, j :: 0 <= i < j < |live| ==> Apart(live[i].ptr, live[i].ptr + live[i].size, live[j].ptr, live[j].ptr + live[j].size)
  }

  /** Aligned blocks that do not overlap, and allocations inside them that do not either. */
  ghost predicate Sound(spans: seq<Span>, live: seq<Piece>)
  {
    && (forall i :: 0 <= i < |spans| ==> ValidSpan(spans[i])) && SpansApart(spans)
    && (forall i :: 0 <= i < |live| ==> Inside(spans, live[i])) && PiecesApart(live)
  }

  /** No live allocation touches any block's header. */
  lemma HeadersAreClear(spans: seq<Span>, live: seq<Piece>, i: nat, k: nat)
    requires Sound(spans, live) && i < |live| && k < |spans|
    ensures Apart(live[i].ptr, live[i].ptr + live[i].size, spans[k].base, spans[k].base + HEADER)
  {
    var p := live[i];
    assert Inside(spans, p) && ValidSpan(spans[k]) && ValidSpan(spans[p.home]);
    if k != p.home {
      var a, b := if k < p.home then k else p.home, if k < p.home then p.home else k;
      assert Apart(spans[a].base, spans[a].end, spans[b].base, spans[b].end);
    }
  }

  lemma NewSpanIsSound(spans: seq<Span>, live: seq<Piece>, b: Span)
    requires Sound(spans, live) && ValidSpan(b)
    requires forall i :: 0 <= i < |spans| ==> Apart(b.base, b.end, spans[i].base, spans[i].end)
    ensures Sound(spans + [b], live)
  {
    forall i | 0 <= i < |live|
      ensures Inside(spans + [b], live[i])
    {
      assert Inside(spans, live[i]);
    }
  }

  /** The newest block with `size` bytes more handed out. */
  function Bumped(spans: seq<Span>, size: nat): seq<Span>
    requires spans != []
  {
    var k := |spans| - 1;
    spans[k := spans[k].(current := spans[k].current + RoundUp(size))]
  }

  lemma NewPieceIsSound(spans: seq<Span>, live: seq<Piece>, size: nat)
    requires Sound(spans, live) && spans != []
    requires spans[|spans| - 1].current + RoundUp(size) <= spans[|spans| - 1].end
    ensures Sound(Bumped(spans, size), live + [Piece(spans[|spans| - 1].current, size, |spans| - 1)])
    ensures forall i :: 0 <= i < |live| ==> NewIsApart(live[i], spans[|spans| - 1].current, size)
  {
    var k := |spans| - 1;
    var ptr := spans[k].current;
    forall i | 0 <= i < |live|
      ensures Inside(Bumped(spans, size), live[i]) && NewIsApart(live[i], ptr, size)
    {
      assert Inside(spans, live[i]);
      if live[i].home < k {
        assert Apart(spans[live[i].home].base, spans[live[i].home].end, spans[k].base, spans[k].end);
      }
    }
  }

  predicate NewIsApart(p: Piece, ptr: nat, size: nat)
  {
    Apart(p.ptr, p.ptr + p.size, ptr, ptr + size)
  }

  // ----- The chain of blocks -----

  class Block {
    const base: nat
    const end: nat
    var current: nat
    var next: Block?
    ghost var freed: bool

    constructor (base: nat, end: nat)
      ensures this.base == base && this.end == end && current == base + HEADER && next == null && !freed
    {
      this.base, this.end := base, end;
      current, next, freed := base + HEADER, null, false;
    }

    /** `b->next`, which is gone once the block is freed. */
    function Next(): Block?
      requires !freed
      reads this
    {
      next
    }
  }

  class Arena {
    const malloc: Malloc
    var head: Block?
    /** The blocks oldest first, so that `current_block` is the last, with their values and the live allocations. */
    ghost var chain: seq<Block>
    ghost var spans: seq<Span>
    ghost var live: seq<Piece>

    ghost function Before(i: nat): Block?
      requires i <= |chain|
      reads this`chain
    {
      if i == 0 then null else chain[i - 1]
    }

    ghost predicate Chained()
      reads this`head, this`chain, chain`next, chain`freed
    {
      && head == Before(|chain|) && Distinct(chain)
      && forall i :: 0 <= i < |chain| ==> chain[i].next == Before(i) && !chain[i].freed
    }

    /** The nodes hold the values, and exactly their memory is taken. */
    ghost predicate Filled()
      reads this`chain, this`spans, chain`current, malloc
    {
      && |chain| == |spans| == |malloc.taken|
      && (forall i :: 0 <= i < |chain| ==> Span(chain[i].base, chain[i].current, chain[i].end) == spans[i])
      && (forall i :: 0 <= i < |spans| ==> malloc.taken[i] == Extent(spans[i].base, spans[i].end))
    }

    ghost predicate Valid()
      reads this, chain, malloc
    {
      Chained() && malloc.Valid() && Filled() && Sound(spans, live)
    }

    lemma IsSound()
      requires Valid()
      ensures Sound(spans, live)
    {
    }

    constructor ()
      ensures Valid() && chain == [] && live == [] && fresh(malloc)
    {
      malloc := new Malloc();
      head, chain, spans, live := null, [], [], [];
    }

    predicate NeedsBlock(size: nat)
      reads this`head, head
    {
      head == null || head.current + RoundUp(size) > head.end
    }

    function BlockSpace(size: nat): nat
    {
      if BLOCK_SIZE > RoundUp(size) then BLOCK_SIZE else RoundUp(size)
    }

    method Link(b: Block)
      requires Chained() && b !in chain && b.next == head && !b.freed
      modifies this`head, this`chain
      ensures Chained() && chain == old(chain) + [b] && head == b
    {
      FreshIsDistinct(chain, b);
      hide Distinct;
      ghost var was := chain;
      head := b;
      chain := chain + [b];
      forall i | 0 <= i < |chain|
        ensures chain[i].next == Before(i) && !chain[i].freed
      {
        assert i < |was| ==> chain[i] == was[i];
      }
    }

    /** A new block before the others, with room for the request. */
    method NewBlock(size: nat)
      requires Valid()
      modifies this`head, this`chain, this`spans, malloc
      ensures Valid() && !NeedsBlock(size) && head != null && fresh(head)
      ensures chain == old(chain) + [head]
    {
      hide Sound, Distinct, GoodExtents, Arena.Chained;
      var space := BlockSpace(size);
      var base := malloc.Give(HEADER + space);
      var b := new Block(base, base + HEADER + space);
      b.next := head;
      ghost var span := Span(base, base + HEADER, base + HEADER + space);
      ClearOfSpans(spans, old(malloc.taken), span);
      NewSpanIsSound(spans, live, span);
      Link(b);
      spans := spans + [span];
    }

    lemma HeadIsInChain()
      requires Chained()
      ensures head != null ==> head in chain
    {
    }

    lemma Newest()
      requires Chained() && Filled() && head != null
      ensures spans != [] && chain[|chain| - 1] == head
      ensures spans[|spans| - 1] == Span(head.base, head.current, head.end)
      ensures forall i :: 0 <= i < |chain| - 1 ==> chain[i] != head
    {
    }

    /** The bump: the next `size` bytes of the current block. */
    method Bump(size: nat) returns (ptr: nat)
      requires Valid() && !NeedsBlock(size)
      modifies head`current, this`spans, this`live
      ensures Valid() && ptr % 8 == 0 && spans != []
      ensures live == old(live) + [Piece(ptr, size, |spans| - 1)]
      ensures forall i :: 0 <= i < |old(live)| ==> NewIsApart(old(live)[i], ptr, size)
    {
      hide Sound, GoodExtents, Arena.Chained;
      ptr := head.current;
      Newest();
      SpanIsValid(spans, live, |spans| - 1);
      NewPieceIsSound(spans, live, size);
      head.current := head.current + RoundUp(size);
      live := live + [Piece(ptr, size, |spans| - 1)];
      spans := Bumped(spans, size);
    }

    /** Fresh memory: 8-aligned, as long as asked for, inside a block and apart from everything live. */
    method Alloc(size: nat) returns (ptr: nat)
      requires Valid()
      modifies this, chain, malloc
      ensures Valid() && ptr % 8 == 0 && spans != []
      ensures live == old(live) + [Piece(ptr, size, |spans| - 1)]
      ensures forall i :: 0 <= i < |old(live)| ==> NewIsApart(old(live)[i], ptr, size)
      ensures |chain| == |old(chain)| + if old(NeedsBlock(size)) then 1 else 0
      ensures |old(chain)| <= |chain| && chain[..|old(chain)|] == old(chain)
      ensures forall i :: |old(chain)| <= i < |chain| ==> fresh(chain[i])
    {
      hide Sound, GoodExtents, Arena.Chained, Arena.Filled;
      HeadIsInChain();
      if NeedsBlock(size) {
        NewBlock(size);
      }
      ptr := Bump(size);
    }

    /** In the middle of a reset: the `k` oldest blocks are left, from `b` on, and the others freed. */
    ghost predicate Left(all: seq<Block>, k: nat, b: Block?)
      reads all`next, all`freed, malloc
    {
      && k <= |all| && |malloc.taken| == k && b == (if k == 0 then null else all[k - 1])
      && (forall i :: 0 <= i < k ==> all[i].next == (if i == 0 then null else all[i - 1]) && !all[i].freed)
      && (forall i :: 0 <= i < k ==> all[i].base == malloc.taken[i].base)
      && (forall i :: k <= i < |all| ==> all[i].freed)
    }

    /** One block: the way on is read from it before it is freed. */
    method FreeOne(b: Block, ghost all: seq<Block>, ghost k: nat) returns (next: Block?)
      requires Left(all, k, b) && Distinct(all) && malloc.Valid()
      modifies b`freed, malloc
      ensures k > 0 && Left(all, k - 1, next) && malloc.Valid()
    {
      hide GoodExtents;
      OnlyOnce(all, k - 1);
      hide Distinct;
      ghost var taken := malloc.taken;
      next := b.Next();
      malloc.Free(b.base, k - 1);
      b.freed := true;
      forall i | 0 <= i < k - 1
        ensures all[i].base == malloc.taken[i].base && !all[i].freed
      {
        assert malloc.taken[i] == taken[i] && all[i] != b;
      }
      forall i | k - 1 <= i < |all|
        ensures all[i].freed
      {
        assert i == k - 1 || all[i] != b;
      }
    }

    /** Frees every block exactly once, newest first, and leaves nothing behind. */
    method Reset()
      requires Valid()
      modifies this, chain, malloc
      ensures Valid() && chain == [] && live == [] && malloc.taken == []
      ensures forall i :: 0 <= i < |old(chain)| ==> old(chain)[i].freed
    {
      hide GoodExtents, Sound, Distinct;
      var b := head;
      ghost var k: nat, all := |chain|, chain;
      while b != null
        invariant Left(all, k, b) && malloc.Valid()
        decreases k
      {
        b := FreeOne(b, all, k);
        k := k - 1;
      }
      Clear();
    }

    method Clear()
      requires malloc.Valid() && malloc.taken == []
      modifies this
      ensures Valid() && chain == [] && live == []
    {
      head, chain, spans, live := null, [], [], [];
    }
  }

  lemma OnlyOnce(chain: seq<Block>, k: nat)
    requires Distinct(chain) && k < |chain|
    ensures forall i :: 0 <= i < |chain| && i != k ==> chain[i] != chain[k]
  {
  }

  lemma ClearOfSpans(spans: seq<Span>, taken: seq<Extent>, b: Span)
    requires |spans| == |taken| && ClearOf(taken, b.base, b.end)
    requires forall i :: 0 <= i < |spans| ==> taken[i] == Extent(spans[i].base, spans[i].end)
    ensures forall i :: 0 <= i < |spans| ==> Apart(b.base, b.end, spans[i].base, spans[i].end)
  {
  }

  lemma FreshIsDistinct(chain: seq<Block>, b: Block)
    requires Distinct(chain) && b !in chain
    ensures Distinct(chain + [b])
  {
  }

  lemma SpanIsValid(spans: seq<Span>, live: seq<Piece>, k: nat)
    requires Sound(spans, live) && k < |spans|
    ensures ValidSpan(spans[k])
  {
  }

  // ----- Whole runs -----

  datatype Op = Alloc(size: nat) | Reset

  /** The sizes asked for since the last reset. */
  function Asked(ops: seq<Op>): seq<nat>
  {
    if ops == [] then []
    else
      match ops[|ops| - 1]
      case Alloc(size) => Asked(ops[..|ops| - 1]) + [size]
      case Reset => []
  }

  ghost predicate Describes(live: seq<Piece>, ptrs: seq<nat>, sizes: seq<nat>)
  {
    && |live| == |ptrs| == |sizes|
    && forall i :: 0 <= i < |live| ==> live[i].ptr == ptrs[i] && live[i].size == sizes[i]
  }

  /**
   Every run: the pointers returned since the last reset stand for live allocations, each as long
   as asked for, aligned, inside an unfreed block, clear of all headers and apart from one another.
   */
  method Run(ops: seq<Op>) returns (ptrs: seq<nat>, ghost spans: seq<Span>, ghost live: seq<Piece>)
    ensures Sound(spans, live) && Describes(live, ptrs, Asked(ops))
  {
    hide Sound, Describes, Asked, Arena.Valid;
    NothingAsked();
    var arena := new Arena();
    var k := 0;
    ptrs := [];
    while k < |ops|
      invariant 0 <= k <= |ops| && fresh(arena) && fresh(arena.malloc) && arena.Valid()
      invariant forall i :: 0 <= i < |arena.chain| ==> fresh(arena.chain[i])
      invariant Describes(arena.live, ptrs, Asked(ops[..k]))
    {
      AskedStep(ops, k);
      match ops[k] {
        case Alloc(size) =>
          ghost var was := arena.live;
          var ptr := arena.Alloc(size);
          OneMoreAsked(was, ptrs, Asked(ops[..k]), Piece(ptr, size, |arena.spans| - 1));
          ptrs := ptrs + [ptr];
        case Reset =>
          arena.Reset();
          ptrs := [];
      }
      k := k + 1;
    }
    assert ops[..k] == ops;
    arena.IsSound();
    spans, live := arena.spans, arena.live;
  }

  lemma NothingAsked()
    ensures Asked([]) == [] && Describes([], [], [])
  {
  }

  lemma AskedStep(ops: seq<Op>, k: nat)
    requires k < |ops|
    ensures Asked(ops[..k + 1]) == match ops[k] case Alloc(size) => Asked(ops[..k]) + [size] case Reset => []
  {
    assert ops[..k + 1][..k] == ops[..k];
  }

  lemma OneMoreAsked(live: seq<Piece>, ptrs: seq<nat>, sizes: seq<nat>, p: Piece)
    requires Describes(live, ptrs, sizes)
    ensures Describes(live + [p], ptrs + [p.ptr], sizes + [p.size])
  {
  }
}
