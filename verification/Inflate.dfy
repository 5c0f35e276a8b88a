/**
 The bounded output loop of stdlib/compress/inflate.c. What zlib makes of a compressed member is a
 parameter; how it hands the output out, call by call, is left entirely to it.
 */
module Inflate {
  import opened Kod

  const START_CAP: nat := 4096
  const UINT: nat := 0x1_0000_0000
  const MAX_STEP: nat := 0x4000_0000

  /** How a member ends: properly, by running out of input, or by a fault in the data. */
  datatype Fate = Ended | Truncated | Corrupt(message: string)

  /** What zlib makes of input that starts at a member: all it puts out, and how much it takes. */
  datatype Member = Member(output: bytes, used: nat, fate: Fate)

  type Decoder = bytes -> Member

  ghost predicate Lawful(decode: Decoder)
  {
    forall s :: IsLawful(s, decode(s))
  }

  predicate IsLawful(s: bytes, m: Member)
  {
    && m.used <= |s|
    && (m.fate.Ended? ==> m.used > 0)
    && (m.fate.Truncated? ==> m.used == |s|)
  }

  lemma LawAt(decode: Decoder, s: bytes)
    requires Lawful(decode)
    ensures IsLawful(s, decode(s))
  {
  }

  // ----- What an input means, limits aside -----

  predicate GoesOn(decode: Decoder, s: bytes, gzip: bool)
  {
    var m := decode(s);
    gzip && m.fate.Ended? && 0 < m.used < |s|
  }

  /** Everything put out, member after member in gzip mode, to the end or the fault. */
  function Produced(decode: Decoder, s: bytes, gzip: bool): bytes
    decreases |s|
  {
    decode(s).output + if GoesOn(decode, s, gzip) then Produced(decode, s[decode(s).used..], gzip) else []
  }

  function FinalFate(decode: Decoder, s: bytes, gzip: bool): Fate
    decreases |s|
  {
    if GoesOn(decode, s, gzip) then FinalFate(decode, s[decode(s).used..], gzip) else decode(s).fate
  }

  /** `Failed` carries the status that `kod_inflate_status` reports. */
  datatype Outcome = Done(text: bytes) | Failed(status: nat, message: string)

  const OUT_OF_MEMORY := Failed(3, "out of memory")
  const TOO_LARGE := Failed(2, "output too large")

  /** The answer with a limit: too large exactly when more than that is put out. */
  function Answer(decode: Decoder, s: bytes, gzip: bool, limit: nat): Outcome
  {
    var all := Produced(decode, s, gzip);
    if |all| > limit then TOO_LARGE
    else
      match FinalFate(decode, s, gzip)
      case Ended => Done(all)
      case Truncated => Failed(1, "truncated")
      case Corrupt(message) => Failed(1, message)
  }

  /** What `(uInt)input->len` leaves of the input. */
  function Seen(input: bytes): bytes
  {
    input[..|input| % UINT]
  }

  // ----- Members one after another -----

  /** `g` is one whole member with that output, whatever follows it. */
  ghost predicate IsMember(decode: Decoder, g: bytes, output: bytes)
  {
    g != [] && forall t :: decode(g + t) == Member(output, |g|, Ended)
  }

  function Flat(parts: seq<bytes>): bytes
  {
    if parts == [] then [] else parts[0] + Flat(parts[1..])
  }

  lemma FirstMember(decode: Decoder, g: bytes, output: bytes, tail: bytes)
    requires IsMember(decode, g, output)
    ensures Produced(decode, g + tail, true) == output + if tail == [] then [] else Produced(decode, tail, true)
    ensures FinalFate(decode, g + tail, true) == if tail == [] then Ended else FinalFate(decode, tail, true)
  {
    assert decode(g + tail) == Member(output, |g|, Ended);
    assert (g + tail)[|g|..] == tail;
  }

  /**
   A gzip file of several members stands for their outputs joined. Anything after the last member
   counts as a member too: it is never passed over.
   */
  lemma {:induction false} MembersJoin(decode: Decoder, gs: seq<bytes>, outs: seq<bytes>, t: bytes)
    requires |gs| == |outs| && forall i :: 0 <= i < |gs| ==> IsMember(decode, gs[i], outs[i])
    requires gs != [] || t != []
    ensures Produced(decode, Flat(gs) + t, true) == Flat(outs) + if t == [] then [] else Produced(decode, t, true)
    ensures FinalFate(decode, Flat(gs) + t, true) == if t == [] then Ended else FinalFate(decode, t, true)
    decreases |gs|
  {
    hide Produced, FinalFate, IsMember;
    if gs == [] {
      assert Flat(gs) + t == t;
    } else {
      var tail := Flat(gs[1..]) + t;
      assert IsMember(decode, gs[0], outs[0]);
      assert Flat(gs) + t == gs[0] + tail;
      FirstMember(decode, gs[0], outs[0], tail);
      if gs[1..] != [] || t != [] {
        MembersJoin(decode, gs[1..], outs[1..], t);
        if gs[1..] != [] {
          NotEmpty(decode, gs[1], outs[1]);
        }
      }
    }
  }

  lemma NotEmpty(decode: Decoder, g: bytes, output: bytes)
    requires IsMember(decode, g, output)
    ensures g != []
  {
  }

  /** With the outputs at most `limit` long together the answer is all of them, and not otherwise. */
  lemma MembersAnswer(decode: Decoder, gs: seq<bytes>, outs: seq<bytes>, limit: nat)
    requires |gs| == |outs| > 0 && forall i :: 0 <= i < |gs| ==> IsMember(decode, gs[i], outs[i])
    ensures Answer(decode, Flat(gs), true, limit) == if |Flat(outs)| <= limit then Done(Flat(outs)) else TOO_LARGE
  {
    MembersJoin(decode, gs, outs, []);
    assert Flat(gs) + [] == Flat(gs);
  }

  /** A zlib or raw stream is decoded to its end, and whatever stands behind it is passed over. */
  lemma OneStreamAnswer(decode: Decoder, g: bytes, output: bytes, t: bytes, limit: nat)
    requires IsMember(decode, g, output)
    ensures Answer(decode, g + t, false, limit) == if |output| <= limit then Done(output) else TOO_LARGE
  {
    assert decode(g + t) == Member(output, |g|, Ended);
    assert output + [] == output;
  }

  // ----- The length of the input in 32 bits -----

  /** Of an input of 4 GiB or a multiple the loop sees nothing, so it never succeeds on one. */
  lemma WholeMultiplesFail(decode: Decoder, input: bytes, gzip: bool, limit: nat)
    requires Lawful(decode) && |input| % UINT == 0
    ensures !Answer(decode, Seen(input), gzip, limit).Done?
  {
    assert Seen(input) == [];
    assert IsLawful([], decode([]));
  }

  ghost predicate AnswersForWhole(input: bytes)
  {
    forall decode: Decoder, gzip, limit ::
      Lawful(decode) ==> Answer(decode, Seen(input), gzip, limit) == Answer(decode, input, gzip, limit)
  }

  /** The answer is about the whole input exactly when its length fits 32 bits. */
  lemma WholeInputIffShort(input: bytes)
    ensures AnswersForWhole(input) <==> |input| < UINT
  {
    if |input| < UINT {
      assert Seen(input) == input;
    } else {
      var n := |input|;
      var decode: Decoder := (s: bytes) => Member([], |s|, if |s| == n then Ended else Truncated);
      assert Lawful(decode);
      assert Answer(decode, input, false, 0).Done?;
      assert !Answer(decode, Seen(input), false, 0).Done?;
    }
  }

  // ----- Memory and zlib -----

  /** What `malloc`, `realloc` and zlib get their memory from: `shortages` counts the requests it turned down. */
  class Memory {
    const ample: bool
    ghost var shortages: nat

    constructor (ample: bool)
      ensures this.ample == ample && shortages == 0
    {
      this.ample, shortages := ample, 0;
    }

    method Ask() returns (ok: bool)
      modifies this
      ensures shortages == old(shortages) + if ok then 0 else 1
      ensures ample ==> ok
    {
      ok := *;
      if ample {
        ok := true;
      }
      if !ok {
        shortages := shortages + 1;
      }
    }
  }

  datatype Code = ZOk | ZStreamEnd | ZBufError | ZMemError | ZOther

  class ZStream {
    const memory: Memory
    const decode: Decoder
    /** The input from the current member on, and how much of that member has been taken and put out. */
    var rest: bytes
    var eaten: nat
    var given: nat

    ghost predicate Valid()
      reads this
    {
      Lawful(decode) && eaten <= decode(rest).used && given <= |decode(rest).output|
    }

    function AvailIn(): int
      reads this
    {
      |rest| - eaten
    }

    ghost function Work(): int
      reads this
    {
      decode(rest).used - eaten + (|decode(rest).output| - given)
    }

    constructor (memory: Memory, decode: Decoder, input: bytes)
      requires Lawful(decode)
      ensures Valid() && this.memory == memory && this.decode == decode && rest == input && eaten == 0 && given == 0
    {
      this.memory, this.decode, rest, eaten, given := memory, decode, input, 0, 0;
    }

    /**
     One call: any number of the bytes still due that fit, at any cost in input. Without progress
     there is nothing to be done; the end and the fault are told when all before them is out.
     */
    method Inflate(out: array<byte>, at: nat, room: nat) returns (rc: Code, wrote: nat)
      requires Valid() && room > 0 && at + room <= out.Length
      modifies this, memory, out
      ensures memory.shortages == old(memory.shortages) + (if rc == ZMemError then 1 else 0)
      ensures memory.ample ==> rc != ZMemError
      ensures Valid() && rest == old(rest) && eaten >= old(eaten)
      ensures wrote <= room && given == old(given) + wrote
      ensures forall i :: 0 <= i < out.Length ==>
                            out[i] == if at <= i < at + wrote then decode(rest).output[old(given) + i - at] else old(out[i])
      ensures rc == ZOk ==> Work() < old(Work())
      ensures rc in {ZStreamEnd, ZBufError, ZOther} ==> Work() == 0
      ensures rc == ZStreamEnd ==> decode(rest).fate.Ended?
      ensures rc == ZBufError ==> decode(rest).fate.Truncated?
      ensures rc == ZOther ==> decode(rest).fate.Corrupt?
    {
      var m := decode(rest);
      var taken: nat :| eaten <= taken <= m.used;
      wrote :| 0 <= wrote <= room && wrote <= |m.output| - given;
      if taken == eaten && wrote == 0 {
        if given < |m.output| {
          wrote := 1;
        } else if eaten < m.used {
          taken := eaten + 1;
        }
      }
      var moved := taken > eaten || wrote > 0;
      forall i | at <= i < at + wrote {
        out[i] := m.output[given + i - at];
      }
      eaten, given := taken, given + wrote;
      var later: bool := *;
      var ok := memory.Ask();
      if !ok {
        return ZMemError, wrote;
      }
      if moved && (later || eaten < m.used || given < |m.output|) {
        return ZOk, wrote;
      }
      rc := match m.fate case Ended => ZStreamEnd case Truncated => ZBufError case Corrupt(_) => ZOther;
    }

    /** `inflateReset`, after the end of a member. */
    method Reset()
      requires Valid() && decode(rest).fate.Ended? && eaten == decode(rest).used
      modifies this
      ensures Valid() && rest == old(rest)[old(eaten)..] && eaten == 0 && given == 0
    {
      rest, eaten, given := rest[eaten..], 0, 0;
    }
  }

  // ----- kod_inflate -----

  /** A buffer of `cap` bytes with the first `len` of `buf`, or none: `realloc`. */
  method Realloc(memory: Memory, buf: array<byte>, len: nat, cap: nat) returns (r: Option<array<byte>>)
    requires len <= buf.Length && len <= cap
    modifies memory
    ensures memory.shortages == old(memory.shortages) + if r.Some? then 0 else 1
    ensures memory.ample ==> r.Some?
    ensures r.Some? ==> fresh(r.value) && r.value.Length == cap && r.value[..len] == buf[..len]
  {
    var ok := memory.Ask();
    if !ok {
      return None;
    }
    var wide := new byte[cap];
    forall i | 0 <= i < len {
      wide[i] := buf[i];
    }
    r := Some(wide);
  }

  /** A larger buffer in place of a full one: twice the size, up to one byte more than the limit. */
  method Grown(memory: Memory, out: array<byte>, limit: nat) returns (bigger: Option<array<byte>>)
    requires 0 < out.Length <= limit <= INT64_MAX
    modifies memory
    ensures memory.shortages == old(memory.shortages) + if bigger.Some? then 0 else 1
    ensures memory.ample ==> bigger.Some?
    ensures bigger.Some? ==> fresh(bigger.value) && out.Length < bigger.value.Length <= limit + 1
    ensures bigger.Some? ==> bigger.value[..out.Length] == out[..]
  {
    var cap := out.Length;
    var grown := cap * 2;
    assert grown < 0x1_0000_0000_0000_0000;
    if grown > limit + 1 {
      grown := limit + 1;
    }
    if grown <= cap {
      assert false;
    }
    bigger := Realloc(memory, out, cap, grown);
    assert out[..cap] == out[..];
  }

  /** What the members after the current one put out. */
  ghost function Beyond(zs: ZStream, gzip: bool): bytes
    reads zs`rest
  {
    if GoesOn(zs.decode, zs.rest, gzip) then Produced(zs.decode, zs.rest[zs.decode(zs.rest).used..], gzip) else []
  }

  /** What is still to come of the whole output. */
  ghost function Due(zs: ZStream, gzip: bool): bytes
    requires zs.Valid()
    reads zs
  {
    zs.decode(zs.rest).output[zs.given..] + Beyond(zs, gzip)
  }

  lemma AllIsDue(zs: ZStream, gzip: bool)
    requires zs.Valid() && zs.given == 0
    ensures Due(zs, gzip) == Produced(zs.decode, zs.rest, gzip)
  {
  }

  lemma DueAtEnd(zs: ZStream, gzip: bool)
    requires zs.Valid() && zs.Work() == 0
    ensures Due(zs, gzip) == Beyond(zs, gzip)
    ensures !GoesOn(zs.decode, zs.rest, gzip) ==> Due(zs, gzip) == [] && FinalFate(zs.decode, zs.rest, gzip) == zs.decode(zs.rest).fate
  {
  }

  /** At the end of the last member everything is held, and its fate decides. */
  lemma AtTheEnd(zs: ZStream, gzip: bool, held: bytes, s: bytes, limit: nat)
    requires zs.Valid() && zs.Work() == 0 && !GoesOn(zs.decode, zs.rest, gzip)
    requires held + Due(zs, gzip) == Produced(zs.decode, s, gzip) && |held| <= limit
    requires FinalFate(zs.decode, zs.rest, gzip) == FinalFate(zs.decode, s, gzip)
    ensures Answer(zs.decode, s, gzip, limit) ==
            match zs.decode(zs.rest).fate
            case Ended => Done(held)
            case Truncated => Failed(1, "truncated")
            case Corrupt(message) => Failed(1, message)
  {
    hide Produced, FinalFate, Due, Beyond;
    DueAtEnd(zs, gzip);
    assert held + [] == held;
  }

  /** More than the limit is held: more than the limit is put out. */
  lemma OverTheLimit(zs: ZStream, gzip: bool, held: bytes, s: bytes, limit: nat)
    requires zs.Valid() && |held| > limit
    requires held + Due(zs, gzip) == Produced(zs.decode, s, gzip)
    ensures Answer(zs.decode, s, gzip, limit) == TOO_LARGE
  {
  }

  /** One call of zlib moves bytes from what is due to the end of what is held. */
  method Pump(zs: ZStream, out: array<byte>, len: nat, room: nat, gzip: bool) returns (rc: Code, now: nat)
    requires zs.Valid() && room > 0 && len + room <= out.Length
    modifies zs, zs.memory, out
    ensures zs.memory.shortages == old(zs.memory.shortages) + (if rc == ZMemError then 1 else 0)
    ensures zs.memory.ample ==> rc != ZMemError
    ensures zs.Valid() && zs.rest == old(zs.rest) && len <= now <= len + room
    ensures out[..now] + Due(zs, gzip) == old(out[..len] + Due(zs, gzip))
    ensures rc == ZOk ==> zs.Work() < old(zs.Work())
    ensures rc in {ZStreamEnd, ZBufError, ZOther} ==> zs.Work() == 0
    ensures rc == ZStreamEnd ==> zs.decode(zs.rest).fate.Ended?
    ensures rc == ZBufError ==> zs.decode(zs.rest).fate.Truncated?
    ensures rc == ZOther ==> zs.decode(zs.rest).fate.Corrupt?
  {
    hide Produced, Beyond, Lawful;
    ghost var held, all, was := out[..len], zs.decode(zs.rest).output, zs.given;
    var wrote;
    rc, wrote := zs.Inflate(out, len, room);
    now := len + wrote;
    assert out[..now] == held + all[was..zs.given];
    assert all[was..] == all[was..zs.given] + all[zs.given..];
  }

  /** The next member, when there is one. */
  method Advance(zs: ZStream, gzip: bool)
    requires zs.Valid() && zs.decode(zs.rest).fate.Ended? && zs.Work() == 0
    requires gzip && zs.AvailIn() > 0
    modifies zs
    ensures zs.Valid() && |zs.rest| < |old(zs.rest)|
    ensures Due(zs, gzip) == old(Due(zs, gzip))
    ensures FinalFate(zs.decode, zs.rest, gzip) == old(FinalFate(zs.decode, zs.rest, gzip))
  {
    assert IsLawful(zs.rest, zs.decode(zs.rest));
    DueAtEnd(zs, gzip);
    zs.Reset();
    AllIsDue(zs, gzip);
  }

  /** What is held and what is due make up the whole output, and the end is still the same. */
  ghost predicate Intact(zs: ZStream, out: array<byte>, len: nat, s: bytes, gzip: bool, limit: nat)
    reads zs, out
  {
    && zs.Valid() && len <= out.Length && len <= limit
    && out[..len] + Due(zs, gzip) == Produced(zs.decode, s, gzip)
    && FinalFate(zs.decode, zs.rest, gzip) == FinalFate(zs.decode, s, gzip)
  }

  /** One round with room in the buffer: a call of zlib, and what comes of it. */
  method Round(zs: ZStream, out: array<byte>, len: nat, ghost s: bytes, gzip: bool, limit: nat) returns (now: nat, done: Option<Outcome>)
    requires Intact(zs, out, len, s, gzip, limit) && len < out.Length
    modifies zs, zs.memory, out
    ensures done.None? ==>
              && Intact(zs, out, now, s, gzip, limit) && zs.memory.shortages == old(zs.memory.shortages)
              && (|zs.rest| < |old(zs.rest)| || (|zs.rest| == |old(zs.rest)| && zs.Work() < old(zs.Work())))
    ensures done.Some? && done.value != Answer(zs.decode, s, gzip, limit) ==>
              done.value == OUT_OF_MEMORY && zs.memory.shortages > old(zs.memory.shortages) && !zs.memory.ample
  {
    hide Produced, FinalFate, Due, Lawful, Answer;
    var room := out.Length - len;
    if room > MAX_STEP {
      room := MAX_STEP;
    }
    var rc;
    rc, now := Pump(zs, out, len, room, gzip);
    if now > limit {
      OverTheLimit(zs, gzip, out[..now], s, limit);
      return now, Some(TOO_LARGE);
    }
    LawAt(zs.decode, zs.rest);
    if rc == ZStreamEnd {
      if gzip && zs.AvailIn() > 0 {
        Advance(zs, gzip);
        return now, None;
      }
      AtTheEnd(zs, gzip, out[..now], s, limit);
      return now, Some(Done(out[..now]));
    }
    if rc == ZBufError && zs.AvailIn() == 0 {
      AtTheEnd(zs, gzip, out[..now], s, limit);
      return now, Some(Failed(1, "truncated"));
    }
    if rc != ZOk && rc != ZBufError {
      if rc == ZMemError {
        return now, Some(OUT_OF_MEMORY);
      }
      AtTheEnd(zs, gzip, out[..now], s, limit);
      var m := zs.decode(zs.rest);
      return now, Some(Failed(1, m.fate.message));
    }
    return now, None;
  }

  /**
   Unless a request for memory was turned down during the call, the answer is that of the input, the
   mode and the limit, whatever zlib is free to choose; with ample memory it always is. The buffer,
   whose largest size is `held`, never passes one byte more than the limit; the branch for a full
   buffer that cannot grow is dead, and doubling it stays within 64 bits.
   */
  method KodInflate(memory: Memory, decode: Decoder, input: bytes, gzip: bool, limit: nat) returns (r: Outcome, ghost held: nat)
    requires Lawful(decode) && limit <= INT64_MAX
    modifies memory
    ensures r == Answer(decode, Seen(input), gzip, limit) ||
            (r == OUT_OF_MEMORY && memory.shortages > old(memory.shortages) && !memory.ample)
    ensures held <= limit + 1
  {
    hide Produced, FinalFate, Due, Lawful, Answer;
    held := 0;
    var init := memory.Ask();
    if !init {
      return OUT_OF_MEMORY, held;
    }
    var cap := if limit < START_CAP then limit + 1 else START_CAP;
    var ok := memory.Ask();
    if !ok {
      return OUT_OF_MEMORY, held;
    }
    held := cap;
    var len: nat := 0;
    var out := new byte[cap];
    var zs := new ZStream(memory, decode, input[..|input| % UINT]);
    AllIsDue(zs, gzip);
    assert out[..0] == [];
    while true
      invariant fresh(zs) && fresh(out) && zs.memory == memory && zs.decode == decode
      invariant Intact(zs, out, len, Seen(input), gzip, limit)
      invariant 0 < cap == out.Length == held <= limit + 1 && memory.shortages == old(memory.shortages)
      decreases |zs.rest|, zs.Work()
    {
      if len == cap {
        var bigger := Grown(memory, out, limit);
        if bigger.None? {
          return OUT_OF_MEMORY, held;
        }
        assert bigger.value[..len] == out[..len];
        out := bigger.value;
        cap, held := out.Length, out.Length;
      }
      var done;
      len, done := Round(zs, out, len, Seen(input), gzip, limit);
      if done.Some? {
        return done.value, held;
      }
    }
  }
}
