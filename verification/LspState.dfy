/**
 What the calls on the language server's state in stdlib/runtime.c mean: open documents, the active
 URI and the cached compile, which outlive `arena_reset`; and what holds over every run of them.
 */
module LspState {
  import opened Kod

  /** A pointer into the arena, and how many resets came before it was made. */
  datatype Pointer = Pointer(address: int, born: nat)

  // ----- The calls, on values -----

  datatype State = State(docs: map<bytes, bytes>, active: bytes, pending: bool,
                         cg: Option<Pointer>, cachedUri: bytes, cachedText: bytes, resets: nat)

  datatype Op =
    | SetDoc(uri: bytes, text: bytes) | GetDoc(uri: bytes) | RemoveDoc(uri: bytes)
    | SetActive(uri: bytes) | GetActive
    | SetPending(v: int) | GetPending
    | Lookup(uri: bytes, text: bytes) | GetCg | Store(uri: bytes, text: bytes, cg: Option<Pointer>) | Invalidate
    | ArenaReset

  datatype Reply = Nothing | Text(text: bytes) | Number(n: int) | Cg(cg: Option<Pointer>)

  const START := State(map[], [], false, None, [], [], 0)

  function Next(s: State, op: Op): State
  {
    match op
    case SetDoc(uri, text) => s.(docs := s.docs[uri := text])
    case RemoveDoc(uri) => s.(docs := s.docs - {uri})
    case SetActive(uri) => s.(active := uri)
    case SetPending(v) => s.(pending := v != 0)
    case Store(uri, text, cg) => s.(cg := cg, cachedUri := uri, cachedText := text)
    case Invalidate => s.(cg := None)
    case ArenaReset => s.(resets := s.resets + 1)
    case _ => s
  }

  predicate Hit(s: State, uri: bytes, text: bytes)
  {
    s.cg.Some? && s.cachedUri == uri && s.cachedText == text
  }

  function Says(s: State, op: Op): Reply
  {
    match op
    case GetDoc(uri) => Text(if uri in s.docs then s.docs[uri] else [])
    case GetActive => Text(s.active)
    case GetPending => Number(if s.pending then 1 else 0)
    case Lookup(uri, text) => Number(if Hit(s, uri, text) then 1 else 0)
    case GetCg => Cg(s.cg)
    case _ => Nothing
  }

  function After(ops: seq<Op>): State
  {
    if ops == [] then START else Next(After(ops[..|ops| - 1]), ops[|ops| - 1])
  }

  /** The answers of a whole run from the start. */
  function Replies(ops: seq<Op>): seq<Reply>
  {
    if ops == [] then [] else Replies(ops[..|ops| - 1]) + [Says(After(ops[..|ops| - 1]), ops[|ops| - 1])]
  }

  // ----- The cache over whole runs -----

  function Resets(ops: seq<Op>): nat
  {
    if ops == [] then 0
    else Resets(ops[..|ops| - 1]) + if ops[|ops| - 1].ArenaReset? then 1 else 0
  }

  /** The call at `k` stored a pointer, and nothing since has replaced or invalidated it. */
  ghost predicate Standing(ops: seq<Op>, k: nat)
  {
    && k < |ops| && ops[k].Store? && ops[k].cg.Some?
    && forall i :: k < i < |ops| ==> !ops[i].Store? && !ops[i].Invalidate?
  }

  ghost predicate SomeStanding(ops: seq<Op>)
  {
    exists k :: Standing(ops, k)
  }

  lemma StandingPrefix(ops: seq<Op>, op: Op, k: nat)
    requires k < |ops|
    ensures Standing(ops + [op], k) <==> Standing(ops, k) && !op.Store? && !op.Invalidate?
  {
    assert (ops + [op])[|ops|] == op;
    assert forall i :: 0 <= i < |ops| ==> (ops + [op])[i] == ops[i];
  }

  /** The cache is as the store at `k` left it. */
  ghost predicate Holds(s: State, ops: seq<Op>, k: nat)
    requires Standing(ops, k)
  {
    s.cg == ops[k].cg && s.cachedUri == ops[k].uri && s.cachedText == ops[k].text
  }

  /** The cache holds a pointer exactly when a store still stands, and then it is that one's. */
  lemma {:induction false} CacheIsStanding(ops: seq<Op>)
    ensures After(ops).resets == Resets(ops)
    ensures After(ops).cg.Some? <==> SomeStanding(ops)
    ensures forall k: nat :: Standing(ops, k) ==> Holds(After(ops), ops, k)
    decreases |ops|
  {
    if ops != [] {
      var n := |ops| - 1;
      var was, op := ops[..n], ops[n];
      assert ops == was + [op];
      CacheIsStanding(was);
      forall k: nat | k < n
        ensures Standing(ops, k) <==> Standing(was, k) && !op.Store? && !op.Invalidate?
      {
        StandingPrefix(was, op, k);
      }
      forall k: nat | Standing(ops, k)
        ensures Holds(After(ops), ops, k)
      {
        if k < n {
          assert ops[..k] == was[..k] && ops[k] == was[k];
          assert Holds(After(was), was, k);
        }
      }
      assert Standing(ops, n) <==> op.Store? && op.cg.Some?;
      if SomeStanding(was) {
        var k :| Standing(was, k);
        assert Standing(ops, k) <==> !op.Store? && !op.Invalidate?;
      }
    }
  }

  /** A pointer made before the last reset. */
  predicate Dangling(s: State)
  {
    s.cg.Some? && s.cg.value.born < s.resets
  }

  /** Never, at any point of the run, does the cache hold one. */
  ghost predicate NeverDangling(ops: seq<Op>)
  {
    forall n :: 0 <= n <= |ops| ==> !Dangling(After(ops[..n]))
  }

  /** Every reset comes when no store stands: one `lsp_cache_invalidate` since the last is enough. */
  ghost predicate ResetsAreGuarded(ops: seq<Op>)
  {
    forall n :: 0 <= n < |ops| && ops[n].ArenaReset? ==> !SomeStanding(ops[..n])
  }

  predicate StoresPointer(op: Op)
  {
    op.Store? && op.cg.Some?
  }

  /** A pointer that is stored has been made: there were at least as many resets by then. */
  ghost predicate PointersExist(ops: seq<Op>)
  {
    forall n :: 0 <= n < |ops| && StoresPointer(ops[n]) ==> ops[n].cg.value.born <= Resets(ops[..n])
  }

  /** Every pointer is stored before the reset that would free it: it was made after the last one. */
  ghost predicate StoresAreFresh(ops: seq<Op>)
  {
    forall n :: 0 <= n < |ops| && StoresPointer(ops[n]) ==> ops[n].cg.value.born == Resets(ops[..n])
  }

  lemma {:induction false} ResetsGrow(ops: seq<Op>, k: nat)
    requires k <= |ops|
    ensures Resets(ops[..k]) <= Resets(ops)
    decreases |ops|
  {
    if k < |ops| {
      assert ops[..|ops| - 1][..k] == ops[..k];
      ResetsGrow(ops[..|ops| - 1], k);
    } else {
      assert ops[..k] == ops;
    }
  }

  /** A pointer held was made before as many resets as there have been. */
  lemma BornBefore(ops: seq<Op>)
    requires PointersExist(ops)
    ensures After(ops).cg.Some? ==> After(ops).cg.value.born <= After(ops).resets
  {
    CacheIsStanding(ops);
    if k: nat :| Standing(ops, k) {
      assert Holds(After(ops), ops, k) && StoresPointer(ops[k]);
      ResetsGrow(ops, k);
    }
  }

  lemma {:induction false} GuardedIsFresh(ops: seq<Op>)
    requires ResetsAreGuarded(ops) && StoresAreFresh(ops)
    ensures !Dangling(After(ops))
    decreases |ops|
  {
    if ops != [] {
      var n := |ops| - 1;
      FewerOps(ops, n);
      GuardedIsFresh(ops[..n]);
      CacheIsStanding(ops[..n]);
    }
  }

  lemma FewerOps(ops: seq<Op>, n: nat)
    requires n <= |ops|
    ensures PointersExist(ops) ==> PointersExist(ops[..n])
    ensures StoresAreFresh(ops) ==> StoresAreFresh(ops[..n])
    ensures ResetsAreGuarded(ops) ==> ResetsAreGuarded(ops[..n])
  {
    assert forall m :: 0 <= m < n ==> ops[..n][..m] == ops[..m];
  }

  lemma AfterNext(ops: seq<Op>, n: nat)
    requires n < |ops|
    ensures After(ops[..n + 1]) == Next(After(ops[..n]), ops[n])
  {
    assert ops[..n + 1][..n] == ops[..n];
  }

  /**
   No hit can ever give a pointer older than the last reset, exactly when every pointer stored was
   made since the last reset and every reset comes when no store stands.
   */
  lemma FreshIffGuarded(ops: seq<Op>)
    requires PointersExist(ops)
    ensures NeverDangling(ops) <==> StoresAreFresh(ops) && ResetsAreGuarded(ops)
  {
    if ResetsAreGuarded(ops) && StoresAreFresh(ops) {
      forall n | 0 <= n <= |ops|
        ensures !Dangling(After(ops[..n]))
      {
        FewerOps(ops, n);
        GuardedIsFresh(ops[..n]);
      }
    }
    if NeverDangling(ops) {
      forall n | 0 <= n < |ops|
        ensures StoresPointer(ops[n]) ==> ops[n].cg.value.born == Resets(ops[..n])
        ensures ops[n].ArenaReset? ==> !SomeStanding(ops[..n])
      {
        CacheIsStanding(ops[..n]);
        FewerOps(ops, n);
        BornBefore(ops[..n]);
        AfterNext(ops, n);
        assert !Dangling(After(ops[..n + 1]));
      }
    }
  }

  /** What a caller does who invalidates right before each reset. */
  predicate InvalidatesFirst(ops: seq<Op>)
  {
    forall n :: 0 <= n < |ops| && ops[n].ArenaReset? ==> n > 0 && ops[n - 1].Invalidate?
  }

  /**
   Such a caller, storing what it has just made, gets a hit for that exact URI and text only, with
   the pointer then stored, and no reset has come since.
   */
  lemma HitIsFresh(ops: seq<Op>, uri: bytes, text: bytes) returns (k: nat)
    requires InvalidatesFirst(ops) && StoresAreFresh(ops) && Hit(After(ops), uri, text)
    ensures k < |ops| && StoresPointer(ops[k]) && ops[k].uri == uri && ops[k].text == text && After(ops).cg == ops[k].cg
    ensures ops[k].cg.value.born == Resets(ops[..k]) == Resets(ops)
  {
    CacheIsStanding(ops);
    k :| Standing(ops, k);
    assert Holds(After(ops), ops, k) && StoresPointer(ops[k]);
    forall n | 0 <= n < |ops| && ops[n].ArenaReset?
      ensures !SomeStanding(ops[..n])
    {
      assert ops[..n][n - 1].Invalidate?;
    }
    GuardedIsFresh(ops);
    ResetsGrow(ops, k);
  }

  // ----- The documents over whole runs -----

  /** The text of the last `set` for the URI, unless a `remove` came after it. */
  function LastText(ops: seq<Op>, uri: bytes): Option<bytes>
  {
    if ops == [] then None
    else
      var op := ops[|ops| - 1];
      if op.SetDoc? && op.uri == uri then Some(op.text)
      else if op.RemoveDoc? && op.uri == uri then None
      else LastText(ops[..|ops| - 1], uri)
  }

  lemma {:induction false} DocsAreLastTexts(ops: seq<Op>, uri: bytes)
    ensures LastText(ops, uri) == if uri in After(ops).docs then Some(After(ops).docs[uri]) else None
    ensures Says(After(ops), GetDoc(uri)) == Text(if LastText(ops, uri).Some? then LastText(ops, uri).value else [])
    decreases |ops|
  {
    if ops != [] {
      DocsAreLastTexts(ops[..|ops| - 1], uri);
    }
  }
}
