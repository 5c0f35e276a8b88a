/** Byte streams of stdlib/stream.kod: `BufReader` over a reader that hands out pieces of any size. */
module Streams {
  import opened Kod

  datatype IoError = LineTooLong | UnexpectedEof(got: nat, wanted: int) | WroteNothing | Broken

  predicate IsSuffix(s: bytes, whole: bytes)
  {
    |s| <= |whole| && s == whole[|whole| - |s|..]
  }

  lemma RestIsSuffix(out: bytes, left: bytes)
    ensures IsSuffix(left, out + left)
    ensures left == [] ==> out + left == out
  {
  }

  /**
   Any `Reader`: between 1 and `max` bytes of what is left, as it pleases, or a failure. A reliable
   one never fails; `faults` counts the failures there have been.
   */
  class Source {
    const reliable: bool
    var rest: bytes
    ghost var faults: nat

    constructor (data: bytes, reliable: bool)
      ensures rest == data && this.reliable == reliable && faults == 0
    {
      rest, this.reliable, faults := data, reliable, 0;
    }

    method Read(max: int) returns (r: Result<bytes, IoError>)
      modifies this
      ensures faults == old(faults) + if r.Err? then 1 else 0
      ensures reliable ==> r.Ok?
      ensures r.Err? ==> r.error == Broken && rest == old(rest)
      ensures r.Ok? ==> old(rest) == r.value + rest
      ensures r.Ok? ==> if max > 0 && old(rest) != [] then 1 <= |r.value| <= max else r.value == []
    {
      var broken: bool := *;
      if broken && !reliable {
        faults := faults + 1;
        return Err(Broken);
      }
      if max <= 0 || rest == [] {
        return Ok([]);
      }
      var k: nat :| 1 <= k <= max && k <= |rest|;
      r := Ok(rest[..k]);
      rest := rest[k..];
    }
  }

  /** The first place of `delim`, or the end. */
  function FirstOf(s: bytes, delim: int): (k: nat)
    ensures k <= |s| && (k < |s| ==> s[k] == delim) && forall i :: 0 <= i < k ==> s[i] != delim
  {
    if s == [] || s[0] == delim then 0 else 1 + FirstOf(s[1..], delim)
  }

  lemma {:induction false} FirstOfUnique(s: bytes, delim: int, k: nat)
    requires k <= |s| && (k < |s| ==> s[k] == delim) && forall i :: 0 <= i < k ==> s[i] != delim
    ensures FirstOf(s, delim) == k
  {
    if k > 0 {
      FirstOfUnique(s[1..], delim, k - 1);
    }
  }

  lemma {:induction false} FirstOfIsLater(s: bytes, delim: int, out: bytes)
    requires out <= s && Lacks(out, delim)
    ensures FirstOf(s, delim) >= |out|
  {
    if out != [] {
      assert s[0] == out[0];
      FirstOfIsLater(s[1..], delim, out[1..]);
    }
  }

  ghost predicate Lacks(s: bytes, delim: int)
  {
    forall i :: 0 <= i < |s| ==> s[i] != delim
  }

  lemma NothingLacks(delim: int)
    ensures Lacks([], delim)
  {
  }

  /**
   What `read_until` makes of the bytes `s` in reach, and what it leaves of them: none exactly
   when there is nothing, "line too long" exactly when the piece is longer than the limit, the
   piece before the first delimiter otherwise. A failure may lose at most `limit` bytes, and
   invents none.
   */
  ghost predicate UntilOutcome(s: bytes, delim: int, limit: int, r: Result<Option<bytes>, IoError>, left: bytes)
  {
    var k := FirstOf(s, delim);
    match r
    case Ok(None) => s == [] && left == []
    case Ok(Some(piece)) =>
      s != [] && k <= limit && piece == s[..k] && left == s[if k < |s| then k + 1 else k..]
    case Err(e) =>
      && (e == LineTooLong || e == Broken)
      && (e == LineTooLong ==> s != [] && k > limit)
      && IsSuffix(left, s) && |s| - |left| <= if limit < 0 then 0 else limit
  }

  /** A line of `s`: the bytes before its line feed or the end, and not the carriage return before that. */
  ghost predicate LineOutcome(s: bytes, limit: int, r: Result<Option<bytes>, IoError>, left: bytes)
  {
    var k := FirstOf(s, 10);
    match r
    case Ok(None) => s == [] && left == []
    case Ok(Some(line)) =>
      && s != [] && k <= limit && left == s[if k < |s| then k + 1 else k..]
      && line == if k > 0 && s[k - 1] == 13 then s[..k - 1] else s[..k]
    case Err(e) => UntilOutcome(s, 10, limit, r, left)
  }

  lemma BrokenOutcome(s: bytes, delim: int, limit: int, out: bytes, left: bytes)
    requires s == out + left && (out != [] ==> |out| <= limit)
    ensures UntilOutcome(s, delim, limit, Err(Broken), left)
  {
  }

  lemma LastOutcome(s: bytes, delim: int, limit: int, out: bytes)
    requires s == out + [] && Lacks(out, delim) && (out != [] ==> |out| <= limit)
    ensures UntilOutcome(s, delim, limit, if out == [] then Ok(None) else Ok(Some(out)), [])
    ensures FirstOf(s, delim) == |s|
  {
    assert s == out;
    FirstOfUnique(s, delim, |s|);
    assert s[..|s|] == s;
  }

  lemma LongOutcome(s: bytes, delim: int, limit: int, out: bytes, piece: bytes, rest: bytes)
    requires s == out + (piece + rest) && piece + rest != []
    requires Lacks(out, delim) && Lacks(piece, delim)
    requires |out + piece| > limit && (out != [] ==> |out| <= limit)
    ensures UntilOutcome(s, delim, limit, Err(LineTooLong), piece + rest)
  {
    assert s == (out + piece) + rest;
    FirstOfIsLater(s, delim, out + piece);
  }

  lemma DelimOutcome(s: bytes, delim: int, limit: int, out: bytes, c: byte, rest: bytes)
    requires s == out + ([c] + rest) && Lacks(out, delim) && c == delim && |out| <= limit
    ensures UntilOutcome(s, delim, limit, Ok(Some(out)), rest)
    ensures FirstOf(s, delim) < |s|
  {
    FirstOfUnique(s, delim, |out|);
    assert s[..|out|] == out && s[|out| + 1..] == rest;
  }

  class BufReader {
    const inner: Source
    const limit: int
    const chunk: int
    var buf: bytes
    var pos: nat
    var ended: bool

    ghost predicate Valid()
      reads this
    {
      pos <= |buf| && (chunk <= 0 ==> buf == [])
    }

    /** Every byte not delivered yet, in order. */
    ghost function Left(): bytes
      requires Valid()
      reads this, inner
    {
      buf[pos..] + inner.rest
    }

    /** What `read_until` can get at from place `i` of the buffer: a `chunk` below 1 reads nothing more. */
    ghost function ReachFrom(i: nat): bytes
      requires i <= |buf|
      reads this`buf, inner
    {
      buf[i..] + if chunk > 0 then inner.rest else []
    }

    ghost function InReach(): bytes
      requires Valid()
      reads this, inner
    {
      ReachFrom(pos)
    }

    /** What is out of its reach. */
    ghost function Hidden(): bytes
      reads this, inner
    {
      if chunk > 0 then [] else inner.rest
    }

    /** The error "broken" is told exactly when the inner stream has failed, which a reliable one never does. */
    ghost predicate Told(broken: bool, faultsBefore: nat)
      reads inner
    {
      inner.faults == faultsBefore + (if broken then 1 else 0) && (inner.reliable ==> !broken)
    }

    /** A buffer that is never filled has nothing to scan. */
    lemma NothingInReach()
      requires Valid()
      ensures chunk <= 0 ==> InReach() == [] && Hidden() == Left()
      ensures chunk > 0 ==> InReach() == Left()
    {
    }

    lemma ReachSplit(i: nat)
      requires Valid() && pos <= i <= |buf|
      ensures InReach() == buf[pos..i] + ReachFrom(i)
      ensures i < |buf| ==> ReachFrom(i) == [buf[i]] + ReachFrom(i + 1)
    {
      assert buf[pos..] == buf[pos..i] + buf[i..];
      assert i < |buf| ==> buf[i..] == [buf[i]] + buf[i + 1..];
    }

    constructor (inner: Source, limit: int, chunk: int)
      ensures Valid() && this.inner == inner && this.limit == limit && this.chunk == chunk
      ensures Left() == inner.rest && !ended
    {
      this.inner, this.limit, this.chunk := inner, limit, chunk;
      buf, pos, ended := [], 0, false;
    }

    /** Buffered bytes first, else one read of the inner stream: a `Reader` in its own right. */
    method Read(max: int) returns (r: Result<bytes, IoError>)
      requires Valid()
      modifies this, inner
      ensures Valid() && ended == old(ended) && Told(r == Err(Broken), old(inner.faults))
      ensures r.Err? ==> r.error == Broken && Left() == old(Left())
      ensures r.Ok? ==> old(Left()) == r.value + Left()
      ensures r.Ok? ==> if max > 0 && old(Left()) != [] then 1 <= |r.value| <= max else r.value == []
    {
      if max <= 0 {
        return Ok([]);
      }
      if pos < |buf| {
        var end := pos + max;
        if end > |buf| {
          end := |buf|;
        }
        var piece := buf[pos..end];
        assert buf[pos..] == piece + buf[end..];
        pos := end;
        return Ok(piece);
      }
      r := inner.Read(max);
    }

    /** Exactly `n` bytes, however the inner stream cuts them; or all that is left and an error. */
    method ReadExact(n: int) returns (r: Result<bytes, IoError>)
      requires Valid()
      modifies this, inner
      ensures Valid() && Told(r == Err(Broken), old(inner.faults))
      ensures r.Ok? ==> |r.value| == (if n < 0 then 0 else n) && old(Left()) == r.value + Left()
      ensures r.Err? && r.error != Broken ==>
                r.error == UnexpectedEof(|old(Left())|, n) && |old(Left())| < n && Left() == []
      ensures r.Err? ==> IsSuffix(Left(), old(Left()))
    {
      hide BufReader.Left, IsSuffix;
      var out: bytes := [];
      while |out| < n
        invariant Valid() && old(Left()) == out + Left() && inner.faults == old(inner.faults)
        invariant |out| <= if n < 0 then 0 else n
        decreases n - |out|
      {
        RestIsSuffix(out, Left());
        ghost var all := Left();
        var piece := Read(n - |out|);
        if piece.Err? {
          return piece;
        }
        if |piece.value| == 0 {
          return Err(UnexpectedEof(|out|, n));
        }
        assert out + all == (out + piece.value) + Left();
        out := out + piece.value;
      }
      return Ok(out);
    }

    /** Puts the next piece of the inner stream in the emptied buffer; false at the end. */
    method Refill() returns (r: Result<bool, IoError>)
      requires Valid() && pos == |buf|
      modifies this, inner
      ensures Valid() && ended == old(ended) && Told(r == Err(Broken), old(inner.faults))
      ensures Hidden() == old(Hidden()) && InReach() == old(InReach())
      ensures r.Err? ==> r.error == Broken
      ensures r.Ok? ==> (r.value <==> pos < |buf|) && (r.value <==> old(InReach()) != [])
    {
      var more := inner.Read(chunk);
      if more.Err? {
        return Err(more.error);
      }
      if |more.value| == 0 {
        return Ok(false);
      }
      buf := more.value;
      pos := 0;
      return Ok(true);
    }

    /** The scan of one buffer: the place of the delimiter, or the buffer's end. */
    method ScanBuffer(delim: int) returns (i: nat)
      requires Valid()
      ensures pos <= i <= |buf|
      ensures i < |buf| ==> buf[i] == delim
      ensures Lacks(buf[pos..i], delim)
    {
      i := pos;
      while i < |buf| && buf[i] != delim
        invariant pos <= i <= |buf|
        invariant forall j :: pos <= j < i ==> buf[j] != delim
      {
        i := i + 1;
      }
    }

    /** `out` is what `read_until` has gathered of the bytes `s` that were in its reach. */
    ghost predicate Gathered(s: bytes, out: bytes, delim: int)
      requires Valid()
      reads this, inner
    {
      s == out + InReach() && Lacks(out, delim) && (out != [] ==> |out| <= limit)
    }

    /** The first half of a round: with an empty buffer, more bytes, or the outcome at the end of the stream. */
    method UntilFill(ghost s: bytes, out: bytes, delim: int) returns (done: Option<Result<Option<bytes>, IoError>>)
      requires Valid() && Gathered(s, out, delim)
      modifies this, inner
      ensures Valid() && Hidden() == old(Hidden()) && InReach() == old(InReach())
      ensures done.None? ==> pos < |buf| && ended == old(ended) && inner.faults == old(inner.faults)
      ensures done.Some? ==> Told(done.value == Err(Broken), old(inner.faults))
      ensures done.Some? ==> UntilOutcome(s, delim, limit, done.value, InReach())
      ensures done.Some? ==>
                ended == (old(ended) || (done.value.Ok? && done.value.value.Some?)) && (done.value.Ok? ==> FirstOf(s, delim) == |s|)
    {
      hide UntilOutcome, FirstOf, Lacks, BufReader.ReachFrom;
      if pos >= |buf| {
        var more := Refill();
        if more.Err? {
          BrokenOutcome(s, delim, limit, out, InReach());
          return Some(Err(more.error));
        }
        if !more.value {
          LastOutcome(s, delim, limit, out);
          if |out| == 0 {
            return Some(Ok(None));
          }
          ended := true;
          return Some(Ok(Some(out)));
        }
      }
      return None;
    }

    /** The second half: the buffer up to the delimiter or its end. */
    method UntilScan(ghost s: bytes, out: bytes, delim: int) returns (next: bytes, done: Option<Result<Option<bytes>, IoError>>)
      requires Valid() && Gathered(s, out, delim) && pos < |buf|
      modifies this`pos
      ensures Valid()
      ensures done.None? ==> Gathered(s, next, delim) && |InReach()| < |old(InReach())|
      ensures done.Some? ==> UntilOutcome(s, delim, limit, done.value, InReach())
      ensures done.Some? && done.value.Ok? ==> FirstOf(s, delim) < |s|
      ensures done.Some? ==> done.value != Err(Broken)
    {
      hide UntilOutcome, FirstOf, Lacks, BufReader.ReachFrom;
      var n := |buf|;
      var i := ScanBuffer(delim);
      ReachSplit(i);
      var piece := buf[pos..i];
      next := out + piece;
      if |next| > limit {
        LongOutcome(s, delim, limit, out, piece, ReachFrom(i));
        return next, Some(Err(LineTooLong));
      }
      Regroup(s, out, piece, ReachFrom(i), delim);
      if i < n {
        DelimOutcome(s, delim, limit, next, buf[i], ReachFrom(i + 1));
        pos := i + 1;
        return next, Some(Ok(Some(next)));
      }
      pos := n;
      return next, None;
    }

    /**
     The bytes before the next delimiter, which is consumed, or before the end; none if nothing
     is left. The pieces the inner stream comes in make no difference.
     */
    method ReadUntil(delim: int) returns (r: Result<Option<bytes>, IoError>)
      requires Valid()
      modifies this, inner
      ensures Valid() && Hidden() == old(Hidden()) && Told(r == Err(Broken), old(inner.faults))
      ensures UntilOutcome(old(InReach()), delim, limit, r, InReach())
      ensures ended == (old(ended) || (r.Ok? && r.value.Some? && FirstOf(old(InReach()), delim) == |old(InReach())|))
    {
      hide UntilOutcome, FirstOf, Lacks, BufReader.ReachFrom;
      NothingLacks(delim);
      var out: bytes := [];
      ghost var s := InReach();
      while true
        invariant Valid() && ended == old(ended) && Hidden() == old(Hidden()) && inner.faults == old(inner.faults)
        invariant Gathered(s, out, delim)
        decreases |InReach()|
      {
        var done := UntilFill(s, out, delim);
        if done.Some? {
          return done.value;
        }
        out, done := UntilScan(s, out, delim);
        if done.Some? {
          return done.value;
        }
      }
    }

    /** A line without its line feed and one carriage return before that. */
    method ReadLine() returns (r: Result<Option<bytes>, IoError>)
      requires Valid()
      modifies this, inner
      ensures Valid() && Hidden() == old(Hidden()) && Told(r == Err(Broken), old(inner.faults))
      ensures ended == (old(ended) || (r.Ok? && r.value.Some? && FirstOf(old(InReach()), 10) == |old(InReach())|))
      ensures LineOutcome(old(InReach()), limit, r, InReach())
    {
      hide FirstOf, BufReader.ReachFrom;
      var raw := ReadUntil(10);
      if raw.Err? || raw.value.None? {
        return raw;
      }
      var text := raw.value.value;
      var n := |text|;
      if n > 0 && text[n - 1] == 13 {
        return Ok(Some(text[0..n - 1]));
      }
      return Ok(Some(text));
    }
  }

  lemma Regroup(s: bytes, out: bytes, piece: bytes, rest: bytes, delim: int)
    requires s == out + (piece + rest) && Lacks(out, delim) && Lacks(piece, delim)
    ensures s == (out + piece) + rest && Lacks(out + piece, delim)
  {
  }

  // ----- read_all and write_all -----

  /** Everything that is left, in one piece. */
  method ReadAll(r: Source) returns (data: Result<bytes, IoError>)
    modifies r
    ensures data.Ok? ==> data.value == old(r.rest) && r.rest == []
    ensures data.Err? ==> data.error == Broken && IsSuffix(r.rest, old(r.rest))
    ensures r.faults == old(r.faults) + if data.Err? then 1 else 0
    ensures r.reliable ==> data.Ok?
  {
    var out: bytes := [];
    while true
      invariant old(r.rest) == out + r.rest && r.faults == old(r.faults)
      decreases |r.rest|
    {
      var piece := r.Read(65536);
      if piece.Err? {
        return piece;
      }
      if |piece.value| == 0 {
        return Ok(out);
      }
      out := out + piece.value;
    }
  }

  /**
   Any `Writer`: it takes as much as it pleases, or fails. `faults` counts the failures, and
   `refusals` the writes that took nothing of something.
   */
  class Sink {
    var taken: bytes
    ghost var faults: nat
    ghost var refusals: nat

    method Write(data: bytes) returns (r: Result<nat, IoError>)
      modifies this
      ensures r.Ok? ==> r.value <= |data| && taken == old(taken) + data[..r.value]
      ensures r.Err? ==> r.error == Broken && taken == old(taken)
      ensures faults == old(faults) + if r.Err? then 1 else 0
      ensures refusals == old(refusals) + if r == Ok(0) && data != [] then 1 else 0
    {
      var broken: bool := *;
      if broken {
        faults := faults + 1;
        return Err(Broken);
      }
      var k: nat :| k <= |data|;
      taken := taken + data[..k];
      if k == 0 && data != [] {
        refusals := refusals + 1;
      }
      r := Ok(k);
    }
  }

  /** All of `data`, in order and once, unless a write fails or takes nothing: then a proper prefix of it. */
  method WriteAll(w: Sink, data: bytes) returns (r: Result<(), IoError>)
    modifies w
    ensures r.Ok? ==> w.taken == old(w.taken) + data
    ensures r.Err? ==> r.error in {Broken, WroteNothing}
    ensures r.Err? ==> exists k :: 0 <= k < |data| && w.taken == old(w.taken) + data[..k]
    ensures w.faults == old(w.faults) + if r == Err(Broken) then 1 else 0
    ensures w.refusals == old(w.refusals) + if r == Err(WroteNothing) then 1 else 0
  {
    var total := |data|;
    var done: nat := 0;
    assert data[..0] == [];
    while done < total
      invariant done <= total && w.taken == old(w.taken) + data[..done]
      invariant w.faults == old(w.faults) && w.refusals == old(w.refusals)
      decreases total - done
    {
      var n := w.Write(data[done..total]);
      if n.Err? {
        return Err(n.error);
      }
      if n.value <= 0 {
        return Err(WroteNothing);
      }
      assert data[..done + n.value] == data[..done] + data[done..total][..n.value];
      done := done + n.value;
    }
    assert data[..total] == data;
    return Ok(());
  }
}
