/** Reading a byte string at a position. */
module ByteText {
  import opened Kod

  /** The byte at `pos`, or -1 at the end. */
  function Peek(src: bytes, pos: nat): int
  {
    if pos >= |src| then -1 else src[pos]
  }

  /** `text` is what stands in the source at `pos`. */
  predicate At(src: bytes, pos: nat, text: bytes)
  {
    pos + |text| <= |src| && forall i :: 0 <= i < |text| ==> src[pos + i] == text[i]
  }

  lemma AtSplit(src: bytes, pos: nat, a: bytes, b: bytes)
    requires At(src, pos, a + b)
    ensures At(src, pos, a) && At(src, pos + |a|, b)
  {
    assert forall i :: 0 <= i < |a| ==> (a + b)[i] == a[i];
    assert forall i :: 0 <= i < |b| ==> (a + b)[|a| + i] == b[i];
  }

  lemma AtJoin(src: bytes, pos: nat, a: bytes, b: bytes)
    requires At(src, pos, a) && At(src, pos + |a|, b)
    ensures At(src, pos, a + b)
  {
    assert forall i :: |a| <= i < |a + b| ==> (a + b)[i] == b[i - |a|] == src[pos + |a| + (i - |a|)];
  }

  lemma AtHead(src: bytes, pos: nat, text: bytes)
    requires At(src, pos, text) && text != []
    ensures Peek(src, pos) == text[0]
  {
  }

  lemma AtSlice(src: bytes, pos: nat, text: bytes)
    requires At(src, pos, text)
    ensures src[pos..pos + |text|] == text
  {
  }

  lemma AtByte(src: bytes, pos: nat)
    requires pos < |src|
    ensures At(src, pos, [src[pos]])
  {
  }

  lemma AtAll(src: bytes, text: bytes)
    requires At(src, 0, text) && |text| == |src|
    ensures text == src
  {
  }

  lemma AtWhole(s: bytes)
    ensures At(s, 0, s)
  {
  }
}
