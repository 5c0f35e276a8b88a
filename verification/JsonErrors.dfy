/**
 Where `json.parse` says a text goes wrong, and why, in terms of the grammar alone: what could still
 become a JSON text, and what could not.
 */
module JsonErrors {
  import opened Kod
  import opened ByteText
  import opened DecimalText
  import opened JsonGrammar
  import opened JsonParse
  import opened JsonComplete
  import opened JsonSound
  import opened JsonFaults
  import opened JsonLocal
  import opened JsonPrefix

  /** A JSON text, however deep. */
  ghost predicate IsJson(src: bytes)
  {
    exists d: Document :: d.Valid() && d.Text() == src
  }

  /** The beginning of a JSON text. */
  ghost predicate Viable(start: bytes)
  {
    exists rest: bytes :: Completes(start, rest)
  }

  ghost predicate Completes(start: bytes, rest: bytes)
  {
    IsJson(start + rest)
  }

  ghost predicate IsJsonWithin(src: bytes, maxDepth: int)
  {
    exists d: Document :: d.Valid() && d.Text() == src && Fits(TreeDepth(d.t), 0, maxDepth)
  }

  /** The beginning of a JSON text nested no deeper than the limit. */
  ghost predicate ViableWithin(start: bytes, maxDepth: int)
  {
    exists rest: bytes :: CompletesWithin(start, rest, maxDepth)
  }

  ghost predicate CompletesWithin(start: bytes, rest: bytes, maxDepth: int)
  {
    IsJsonWithin(start + rest, maxDepth)
  }

  // ----- Parsing and the grammar -----

  lemma JsonIsParsed(src: bytes, maxDepth: int)
    ensures IsJsonWithin(src, maxDepth) <==> ParseText(src, maxDepth).Good?
  {
    hide ParseText, Document.Text, ValidTree, TreeDepth;
    if ParseText(src, maxDepth).Good? {
      var d := TextSound(src, maxDepth);
    }
    if IsJsonWithin(src, maxDepth) {
      var d: Document :| d.Valid() && d.Text() == src && Fits(TreeDepth(d.t), 0, maxDepth);
      DocumentParses(d, maxDepth);
    }
  }

  /** A JSON text parses under some limit, however large it has to be. */
  lemma JsonIsWithin(src: bytes, maxDepth: int) returns (larger: int)
    requires IsJson(src)
    ensures maxDepth <= larger && ParseText(src, larger).Good?
  {
    hide ParseText, Document.Text, ValidTree, TreeDepth;
    var d: Document :| d.Valid() && d.Text() == src;
    larger := if TreeDepth(d.t) <= maxDepth then maxDepth else TreeDepth(d.t);
    assert Fits(TreeDepth(d.t), 0, larger);
    DocumentParses(d, larger);
  }

  function MarkEnd(src: bytes): nat
  {
    if At(src, 0, BOM) then 3 else 0
  }

  lemma MarkFits(src: bytes)
    ensures MarkEnd(src) <= |src|
  {
  }

  // ----- What comes before the fault -----

  /** The text up to the cut can be continued. */
  lemma BeforeFault(src: bytes, maxDepth: int, deep: bool) returns (rest: bytes)
    requires MarkEnd(src) <= |src| && ParseValue(src, MarkEnd(src), 0, maxDepth).Bad?
    ensures var r := ParseValue(src, MarkEnd(src), 0, maxDepth);
            var spot := ValueSpot(src, MarkEnd(src), 0, maxDepth);
            && Known(src, r.message, r.offset, spot)
            && var cut := CutOf(src, r.message, r.offset, spot, deep);
               && MarkEnd(src) <= cut <= |src| && Completes(src[..cut], rest)
               && (!(deep && r.message == TOO_DEEP) ==> CompletesWithin(src[..cut], rest, maxDepth))
  {
    hide ParseValue, ValueSpot, TreeText, TreeDepth, ValidTree, Known, CutOf;
    var start := MarkEnd(src);
    var pre, t;
    pre, t, rest := ValueFails(src, start, 0, maxDepth, deep);
    var r := ParseValue(src, start, 0, maxDepth);
    var cut := CutOf(src, r.message, r.offset, ValueSpot(src, start, 0, maxDepth), deep);
    var d := Document(start == 3, pre, t, []);
    MarkText(src);
    assert src[..cut] == src[..start] + src[start..cut];
    assert src[..cut] + rest == src[..start] + (src[start..cut] + rest);
    assert pre + (TreeText(t) + []) == pre + TreeText(t);
    assert d.Valid() by { assert AllWs([]); }
    assert d.Text() == src[..cut] + rest;
  }

  lemma MarkText(src: bytes)
    ensures MarkEnd(src) <= |src| && src[..MarkEnd(src)] == if MarkEnd(src) == 3 then BOM else []
  {
    if At(src, 0, BOM) {
      AtSlice(src, 0, BOM);
    }
  }

  // ----- What the fault rules out -----

  /** A text that starts like a broken byte order mark, which is reported at its first byte. */
  predicate BrokenMark(src: bytes)
  {
    |src| > 0 && src[0] == 239 && !At(src, 0, BOM)
  }

  /** The mark is the same in a text that shows the fault. */
  lemma SameMark(a: bytes, b: bytes, n: nat)
    requires Agree(a, b, n) && (n >= 3 || (n > 0 && !BrokenMark(a)) || |b| == n) && (MarkEnd(a) == 3 ==> n >= 3)
    ensures MarkEnd(b) == MarkEnd(a)
  {
    if MarkEnd(a) == 3 {
      AgreeAt(a, b, n, 0, BOM);
    } else if MarkEnd(b) == 3 {
      AtHead(b, 0, BOM);
      if n >= 3 || |b| == n {
        AgreeSwap(a, b, n);
        AgreeAt(b, a, n, 0, BOM);
      } else {
        AgreeByte(a, b, n, 0);
      }
    }
  }

  lemma AgreeSwap(a: bytes, b: bytes, n: nat)
    requires Agree(a, b, n)
    ensures Agree(b, a, n)
  {
  }

  /** Whatever shows the fault of a value fails too. */
  lemma FaultStays(a: bytes, b: bytes, maxDepth: int, larger: int)
    requires MarkEnd(a) <= |a| && ParseValue(a, MarkEnd(a), 0, maxDepth).Bad? && MarkEnd(b) == MarkEnd(a)
    requires var r := ParseValue(a, MarkEnd(a), 0, maxDepth);
             Looks(a, b, r.message, r.offset, ValueSpot(a, MarkEnd(a), 0, maxDepth)) && Limits(r.message, r.offset, b, maxDepth, larger)
    ensures ParseText(b, larger).Bad?
  {
    hide ParseValue, ValueSpot, Looks;
    ValueStillBad(a, b, MarkEnd(a), 0, maxDepth, larger);
  }

  lemma ReachIsPast(src: bytes, message: string, o: nat)
    ensures Reach(src, message, o) > o
  {
  }

  lemma BrokenMarkFails(src: bytes, maxDepth: int)
    requires BrokenMark(src)
    ensures ParseText(src, maxDepth).Bad? && ParseText(src, maxDepth).offset == 0
    ensures ParseValue(src, 0, 0, maxDepth) == ParseText(src, maxDepth)
  {
    SkipWsOver(src, 0, []);
  }

  /** The bytes that settle a fault are no beginning of a JSON text. */
  lemma ReachRulesOut(src: bytes, maxDepth: int)
    requires MarkEnd(src) <= |src| && ParseValue(src, MarkEnd(src), 0, maxDepth).Bad? && !BrokenMark(src)
    requires var r := ParseValue(src, MarkEnd(src), 0, maxDepth); r.message != TOO_DEEP && Reach(src, r.message, r.offset) <= |src|
    ensures var r := ParseValue(src, MarkEnd(src), 0, maxDepth); !Viable(src[..Reach(src, r.message, r.offset)])
  {
    hide ParseValue, ValueSpot, ParseText, Reach, IsJson, Doomed;
    var r := ParseValue(src, MarkEnd(src), 0, maxDepth);
    var n := Reach(src, r.message, r.offset);
    ReachIsPast(src, r.message, r.offset);
    forall rest: bytes
      ensures !Completes(src[..n], rest)
    {
      var b := src[..n] + rest;
      if IsJson(b) {
        var larger := JsonIsWithin(b, maxDepth);
        PrefixAgrees(src, n, rest);
        AgreeLess(src, b, n, r.offset);
        SameMark(src, b, n);
        FaultStays(src, b, maxDepth, larger);
      }
    }
  }

  lemma PrefixAgrees(src: bytes, n: nat, rest: bytes)
    requires n <= |src|
    ensures Agree(src, src[..n] + rest, n)
  {
    assert (src[..n] + rest)[..n] == src[..n];
  }

  /** An escape that was doomed before the fault could not be continued there either. */
  lemma DoomRulesOut(src: bytes, maxDepth: int)
    requires MarkEnd(src) <= |src| && ParseValue(src, MarkEnd(src), 0, maxDepth).Bad?
    requires var r := ParseValue(src, MarkEnd(src), 0, maxDepth);
             var spot := ValueSpot(src, MarkEnd(src), 0, maxDepth);
             r.message == BAD_ESCAPE && MarkEnd(src) <= spot <= r.offset && 3 <= r.offset && Doomed(src[spot..r.offset])
    ensures var r := ParseValue(src, MarkEnd(src), 0, maxDepth); !Viable(src[..r.offset])
  {
    hide ParseValue, ValueSpot, ParseText, IsJson, Doomed;
    Messages();
    var r := ParseValue(src, MarkEnd(src), 0, maxDepth);
    var o := r.offset;
    forall rest: bytes
      ensures !Completes(src[..o], rest)
    {
      var b := src[..o] + rest;
      if IsJson(b) {
        var larger := JsonIsWithin(b, maxDepth);
        PrefixAgrees(src, o, rest);
        SameMark(src, b, o);
        FaultStays(src, b, maxDepth, larger);
      }
    }
  }

  /** A bracket that is too deep cannot be continued within the limit. */
  lemma DepthRulesOut(src: bytes, maxDepth: int)
    requires MarkEnd(src) <= |src| && ParseValue(src, MarkEnd(src), 0, maxDepth).Bad? && !BrokenMark(src)
    requires var r := ParseValue(src, MarkEnd(src), 0, maxDepth); r.message == TOO_DEEP && r.offset < |src|
    ensures var r := ParseValue(src, MarkEnd(src), 0, maxDepth); !ViableWithin(src[..r.offset + 1], maxDepth)
  {
    hide ParseValue, ValueSpot, ParseText, IsJsonWithin, Doomed;
    Messages();
    var o := ParseValue(src, MarkEnd(src), 0, maxDepth).offset;
    var start := src[..o + 1];
    forall rest: bytes
      ensures !CompletesWithin(start, rest, maxDepth)
    {
      var b := start + rest;
      JsonIsParsed(b, maxDepth);
      PrefixAgrees(src, o + 1, rest);
      AgreeLess(src, b, o + 1, o);
      SameMark(src, b, o + 1);
      FaultStays(src, b, maxDepth, maxDepth);
    }
  }

  /** What stands before a fault of the value is not a whole JSON text. */
  lemma FaultIsNotAfter(src: bytes, maxDepth: int)
    requires MarkEnd(src) <= |src| && ParseValue(src, MarkEnd(src), 0, maxDepth).Bad?
    ensures !IsJson(src[..ParseValue(src, MarkEnd(src), 0, maxDepth).offset])
  {
    hide ParseValue, ValueSpot, ParseText, IsJson, Doomed;
    var o := ParseValue(src, MarkEnd(src), 0, maxDepth).offset;
    var b := src[..o];
    if IsJson(b) {
      var larger := JsonIsWithin(b, maxDepth);
      assert Agree(src, b, o);
      SameMark(src, b, o);
      FaultStays(src, b, maxDepth, larger);
    }
  }

  predicate TrailsAt(src: bytes, maxDepth: int, o: nat)
    requires MarkEnd(src) <= |src|
  {
    var r := ParseValue(src, MarkEnd(src), 0, maxDepth);
    r.Good? && SkipWs(src, r.pos) == o < |src|
  }

  /** Text after the value: what comes before it is a whole JSON text. */
  lemma BeforeTrailing(src: bytes, maxDepth: int, o: nat)
    requires MarkEnd(src) <= |src| && TrailsAt(src, maxDepth, o)
    ensures IsJsonWithin(src[..o], maxDepth)
  {
    hide ParseValue, IsJsonWithin, SkipWs;
    var r := ParseValue(src, MarkEnd(src), 0, maxDepth);
    var b := src[..o];
    assert Agree(src, b, o);
    AgreeLess(src, b, o, r.pos);
    SameMark(src, b, o);
    ValueSame(src, b, MarkEnd(src), 0, maxDepth, maxDepth);
    WsSame(src, b, r.pos);
    JsonIsParsed(b, maxDepth);
  }

  /** And with the byte that trails it is the beginning of none. */
  lemma TrailingRulesOut(src: bytes, maxDepth: int, o: nat)
    requires MarkEnd(src) <= |src| && TrailsAt(src, maxDepth, o) && !BrokenMark(src)
    ensures !Viable(src[..o + 1])
  {
    hide ParseValue, IsJson, SkipWs;
    var r := ParseValue(src, MarkEnd(src), 0, maxDepth);
    var start := src[..o + 1];
    forall rest: bytes
      ensures !Completes(start, rest)
    {
      var b := start + rest;
      if IsJson(b) {
        var larger := JsonIsWithin(b, maxDepth);
        PrefixAgrees(src, o + 1, rest);
        AgreeLess(src, b, o + 1, o);
        AgreeLess(src, b, o + 1, r.pos);
        SameMark(src, b, o + 1);
        ValueSame(src, b, MarkEnd(src), 0, maxDepth, larger);
        WsSame(src, b, r.pos);
      }
    }
  }

  // ----- The errors -----

  /** How `parse` comes to fail: in the value, or after it. */
  lemma FaultOrTrailing(src: bytes, maxDepth: int)
    requires ParseText(src, maxDepth).Bad?
    ensures MarkEnd(src) <= |src|
    ensures var r := ParseText(src, maxDepth);
            if r.message == TRAILING then TrailsAt(src, maxDepth, r.offset) && !BrokenMark(src)
            else ParseValue(src, MarkEnd(src), 0, maxDepth) == Bad(r.message, r.offset)
  {
    hide ParseValue, SkipWs;
    MarkFits(src);
    if ParseValue(src, MarkEnd(src), 0, maxDepth).Bad? {
      var rest := BeforeFault(src, maxDepth, false);
    } else if BrokenMark(src) {
      BrokenMarkFails(src, maxDepth);
    }
  }

  /**
   "unexpected text after the value" is said if and only if what stands before the offset is a JSON
   text; then it keeps the limit, no longer beginning is one, and what trails it is not white space.
   */
  lemma TrailingIff(src: bytes, maxDepth: int)
    requires ParseText(src, maxDepth).Bad?
    ensures var r := ParseText(src, maxDepth);
            && (r.message == TRAILING <==> IsJson(src[..r.offset]))
            && (r.message == TRAILING ==>
                  && r.offset < |src| && !IsWs(src[r.offset])
                  && IsJsonWithin(src[..r.offset], maxDepth) && !Viable(src[..r.offset + 1]))
  {
    hide ParseText, ParseValue, Viable, IsJson, IsJsonWithin;
    var r := ParseText(src, maxDepth);
    FaultOrTrailing(src, maxDepth);
    if r.message == TRAILING {
      BeforeTrailing(src, maxDepth, r.offset);
      TrailingRulesOut(src, maxDepth, r.offset);
      WithinIsJson(src[..r.offset], maxDepth);
    } else {
      FaultIsNotAfter(src, maxDepth);
    }
  }

  lemma WithinIsJson(src: bytes, maxDepth: int)
    requires IsJsonWithin(src, maxDepth)
    ensures IsJson(src)
  {
  }

  /**
   "nesting too deep" is said if and only if there is an opening bracket at the offset that could
   still be part of a JSON text; then none that contains it keeps the limit, while what stands before
   it can be continued within the limit.
   */
  lemma TooDeepIff(src: bytes, maxDepth: int)
    requires ParseText(src, maxDepth).Bad?
    ensures var r := ParseText(src, maxDepth);
            && (r.message == TOO_DEEP <==> r.offset < |src| && IsOpening(src[r.offset]) && Viable(src[..r.offset + 1]))
            && (r.message == TOO_DEEP ==> ViableWithin(src[..r.offset], maxDepth) && !ViableWithin(src[..r.offset + 1], maxDepth))
  {
    hide ParseText, ParseValue, ValueSpot, IsJson, IsJsonWithin, Doomed, Begun, BrokenMark;
    Messages();
    var r := ParseText(src, maxDepth);
    var o := r.offset;
    FaultOrTrailing(src, maxDepth);
    if r.message == TRAILING {
      TrailingRulesOut(src, maxDepth, o);
    } else {
      var before := BeforeFault(src, maxDepth, false);
      if r.message == TOO_DEEP {
        var after := BeforeFault(src, maxDepth, true);
        NoBrokenMark(src, maxDepth);
        DepthRulesOut(src, maxDepth);
      } else if o < |src| && IsOpening(src[o]) {
        NoBrokenMark(src, maxDepth);
        ReachRulesOut(src, maxDepth);
      }
    }
  }

  lemma NoBrokenMark(src: bytes, maxDepth: int)
    requires ParseText(src, maxDepth).Bad? && ParseText(src, maxDepth).offset < |src| && IsOpening(src[ParseText(src, maxDepth).offset])
    ensures !BrokenMark(src)
  {
    if BrokenMark(src) {
      BrokenMarkFails(src, maxDepth);
    }
  }

  /**
   Whatever the message, what stands before the offset can be continued to a JSON text within the
   limit, with one exception. An escape whose digits already made it a surrogate out of place is
   reported at the first byte that is no digit: then the text can be continued up to the escape,
   and up to the offset if and only if its digits have not done so.
   */
  lemma BeforeTheError(src: bytes, maxDepth: int) returns (spot: nat)
    requires ParseText(src, maxDepth).Bad?
    ensures var r := ParseText(src, maxDepth);
            && (r.message != BAD_ESCAPE ==> ViableWithin(src[..r.offset], maxDepth))
            && (r.message == BAD_ESCAPE ==>
                  && spot <= r.offset <= |src| && Begun(src[spot..r.offset]) && ViableWithin(src[..spot], maxDepth)
                  && (Viable(src[..r.offset]) <==> !Doomed(src[spot..r.offset]))
                  && (Viable(src[..r.offset]) ==> ViableWithin(src[..r.offset], maxDepth)))
  {
    hide ParseText, ParseValue, ValueSpot, IsJson, IsJsonWithin, Doomed, Begun, BrokenMark, SkipWs;
    Messages();
    var r := ParseText(src, maxDepth);
    var o := r.offset;
    FaultOrTrailing(src, maxDepth);
    spot := 0;
    if r.message == TRAILING {
      BeforeTrailing(src, maxDepth, o);
      assert src[..o] + [] == src[..o];
      assert CompletesWithin(src[..o], [], maxDepth);
    } else {
      spot := ValueSpot(src, MarkEnd(src), 0, maxDepth);
      var rest := BeforeFault(src, maxDepth, false);
      if r.message == BAD_ESCAPE {
        if Doomed(src[spot..o]) {
          DoomTakesDigits(src[spot..o]);
          DoomRulesOut(src, maxDepth);
        } else {
          ShorterIsViable(src, spot, o, rest, maxDepth);
        }
      }
    }
  }

  lemma DoomTakesDigits(e: bytes)
    requires Doomed(e)
    ensures |e| >= 4
  {
  }

  lemma ShorterIsViable(src: bytes, n: nat, o: nat, rest: bytes, maxDepth: int)
    requires n <= o <= |src| && CompletesWithin(src[..o], rest, maxDepth)
    ensures ViableWithin(src[..n], maxDepth) && ViableWithin(src[..o], maxDepth) && Viable(src[..o])
  {
    assert src[..n] + (src[n..o] + rest) == src[..o] + rest;
    assert CompletesWithin(src[..n], src[n..o] + rest, maxDepth);
    WithinIsJson(src[..o] + rest, maxDepth);
    assert Completes(src[..o], rest);
  }

  /** What a message says of the byte it points at. */
  predicate PointsAt(src: bytes, message: string, o: nat)
  {
    && (message == INVALID_LITERAL ==> Peek(src, o) == 116 || Peek(src, o) == 102 || Peek(src, o) == 110)
    && (message == INVALID_ESCAPE || message == UNPAIRED ==> Peek(src, o) == BACKSLASH)
  }

  /**
   With the bytes that settle it, the text can no longer be continued to any JSON text: for most
   faults the one byte at the offset; for a literal, an escape and a surrogate, which are reported at
   their first byte, the whole of them; for a byte order mark its three bytes. Where that is more than
   there are, the input ends inside of them.
   */
  lemma AtTheError(src: bytes, maxDepth: int)
    requires ParseText(src, maxDepth).Bad?
    ensures var r := ParseText(src, maxDepth);
            && PointsAt(src, r.message, r.offset)
            && (BrokenMark(src) ==> r.offset == 0 && (|src| >= 3 ==> !Viable(src[..3])))
            && (!BrokenMark(src) && r.message != TOO_DEEP && Reach(src, r.message, r.offset) <= |src| ==>
                  !Viable(src[..Reach(src, r.message, r.offset)]))
  {
    hide ParseText, ParseValue, ValueSpot, IsJson, Doomed, Begun, SkipWs, PairReach, BrokenMark;
    Messages();
    var r := ParseText(src, maxDepth);
    FaultOrTrailing(src, maxDepth);
    if BrokenMark(src) {
      BrokenMarkFails(src, maxDepth);
      BrokenMarkRulesOut(src);
    }
    if r.message == TRAILING {
      TrailingRulesOut(src, maxDepth, r.offset);
    } else {
      var rest := BeforeFault(src, maxDepth, false);
      if !BrokenMark(src) && r.message != TOO_DEEP && Reach(src, r.message, r.offset) <= |src| {
        ReachRulesOut(src, maxDepth);
      }
    }
  }

  lemma BrokenMarkRulesOut(src: bytes)
    requires BrokenMark(src)
    ensures |src| >= 3 ==> !Viable(src[..3])
  {
    hide IsJson, ParseText;
    if |src| >= 3 {
      forall rest: bytes
        ensures !Completes(src[..3], rest)
      {
        var b := src[..3] + rest;
        if IsJson(b) {
          var larger := JsonIsWithin(b, 0);
          PrefixAgrees(src, 3, rest);
          SameMark(src, b, 3);
          AgreeByte(src, b, 3, 0);
          BrokenMarkFails(b, larger);
        }
      }
    }
  }

  // ----- The exception -----

  /** `"\uDCx0"`: the fault is told at the `x`, but no JSON text starts with what stands before it. */
  lemma DoomedExample()
    ensures var src := [QUOTE, BACKSLASH, LETTER_U, 68, 67, 120, 48, QUOTE];
            ParseText(src, 512) == Bad(BAD_ESCAPE, 5) && !Viable(src[..5])
  {
    var src := [QUOTE, BACKSLASH, LETTER_U, 68, 67, 120, 48, QUOTE];
    var e := src[1..5];
    assert e == [BACKSLASH, LETTER_U, 68, 67] && e[..2] == MARK && e[2..] == [68, 67];
    assert BOM[0] == 239 && MarkEnd(src) == 0 && SkipWs(src, 0) == 0;
    assert ParseHex4(src, 3) == Bad(BAD_ESCAPE, 5);
    assert ParseChars(src, 1) == Bad(BAD_ESCAPE, 5) && CharsSpot(src, 1) == 1;
    assert ParseValue(src, 0, 0, 512) == Bad(BAD_ESCAPE, 5) && ValueSpot(src, 0, 0, 512) == 1;
    DoomRulesOut(src, 512);
  }
}
