/** Printing and parsing undo each other, in both orders, for compact and indented text alike. */
module JsonRoundTrip {
  import opened Kod
  import opened DecimalText
  import opened JsonGrammar
  import opened JsonParse
  import opened JsonComplete
  import opened JsonSound
  import opened JsonEmit

  // ----- What printing keeps of a value -----

  /** How many members of an object are written. */
  function Count(keys: seq<bytes>, values: seq<Value>): nat
  {
    if |keys| <= |values| then |keys| else |values|
  }

  /**
   The value that comes back: a hand-made `Decimal` may turn out to be no number, or an int64, and
   values without a key are lost.
   */
  ghost function Canon(v: Value): Value
    decreases v, 1
  {
    match v
    case Decimal(text) => if !IsNumber(text) then Null else NumberValue(text, true)
    case Array(items) => Array(CanonAll(items, |items|))
    case Object(keys, values) => Object(keys, CanonAll(values, Count(keys, values)))
    case _ => v
  }

  ghost function CanonAll(vs: seq<Value>, n: nat): (cs: seq<Value>)
    requires n <= |vs|
    ensures |cs| == n
    decreases vs, 0
  {
    if n == 0 then [] else [Canon(vs[0])] + CanonAll(vs[1..], n - 1)
  }

  /** Every `Decimal` holds a number text that `parse_int` would refuse, and every value has a key. */
  ghost predicate Canonical(v: Value)
  {
    match v
    case Decimal(text) => IsNumber(text) && ParsedInt(text).None?
    case Array(items) => forall i :: 0 <= i < |items| ==> Canonical(items[i])
    case Object(keys, values) => |values| <= |keys| && forall i :: 0 <= i < |values| ==> Canonical(values[i])
    case _ => true
  }

  /** Exactly the canonical values come back unchanged. */
  lemma {:induction false} CanonFixes(v: Value)
    ensures Canon(v) == v <==> Canonical(v)
    decreases v, 1
  {
    match v {
      case Array(items) =>
        CanonAllFixes(items, |items|);
        assert items[..|items|] == items;
      case Object(keys, values) =>
        var n := Count(keys, values);
        CanonAllFixes(values, n);
        assert n == |values| ==> values[..n] == values;
      case _ =>
    }
  }

  lemma {:induction false} CanonAllFixes(vs: seq<Value>, n: nat)
    requires n <= |vs|
    ensures CanonAll(vs, n) == vs[..n] <==> forall i :: 0 <= i < n ==> Canonical(vs[i])
    decreases vs, 0
  {
    if n > 0 {
      CanonFixes(vs[0]);
      CanonAllFixes(vs[1..], n - 1);
      assert vs[..n] == [vs[0]] + vs[1..][..n - 1];
      assert CanonAll(vs, n)[1..] == CanonAll(vs[1..], n - 1) && vs[..n][1..] == vs[1..][..n - 1];
      assert (forall i :: 0 <= i < n ==> Canonical(vs[i])) <==>
             Canonical(vs[0]) && forall i :: 0 <= i < n - 1 ==> Canonical(vs[1..][i]);
    }
  }

  /** The arrays and objects around the innermost value that is written. */
  function ValueDepth(v: Value): nat
    decreases v, 1
  {
    match v
    case Array(items) => 1 + DeepestOf(items, |items|)
    case Object(keys, values) => 1 + DeepestOf(values, Count(keys, values))
    case _ => 0
  }

  function DeepestOf(vs: seq<Value>, n: nat): nat
    requires n <= |vs|
    decreases vs, 0
  {
    if n == 0 then 0 else Max(ValueDepth(vs[0]), DeepestOf(vs[1..], n - 1))
  }

  // ----- Numbers -----

  /** A number with a fraction or an exponent is never an integer to `parse_int`. */
  lemma FractionIsNoInteger(num: NumberTree)
    requires num.Valid() && (num.frac.Some? || num.exp.Some?)
    ensures ParsedInt(num.Text()) == None
  {
    var text := num.Text();
    var k := |num.SignText()| + |num.whole|;
    assert text == num.SignText() + num.whole + (num.FracText() + num.ExpText());
    assert text[k] == (num.FracText() + num.ExpText())[0];
    assert !IsDigit(text[k]);
    assert Signed(text) ==> text[1..][k - 1] == text[k];
  }

  /** Whether a number text is an integer in range can be read off the text alone. */
  lemma MeaningOfText(num: NumberTree)
    requires num.Valid()
    ensures num.Meaning() == NumberValue(num.Text(), true)
  {
    hide NumberTree.Text, NumberTree.Meaning, ParsedInt;
    NumberMeans(num);
    if num.frac.Some? || num.exp.Some? {
      FractionIsNoInteger(num);
    }
  }

  // ----- The tree of a value -----

  ghost predicate Rendered(t: Tree, v: Value)
  {
    ValidTree(t) && TreeMeaning(t) == Canon(v) && TreeDepth(t) == ValueDepth(v)
  }

  lemma ScalarRendered(v: Value, indent: int, level: nat)
    requires !v.Array? && !v.Object?
    ensures Rendered(TreeOf(v, indent, level), v)
  {
    hide NumberTree.Text, NumberTree.Meaning, PiecesMeaning, PiecesOf, NumberValue;
    match v {
      case Number(n) => IntTreeMeans(n);
      case Decimal(text) =>
        if IsNumber(text) {
          MeaningOfText(NumberOf(text));
        }
      case Str(s) => PiecesOfMean(s);
      case _ =>
    }
  }

  lemma {:induction false} TreeRendered(v: Value, indent: int, level: nat)
    requires Paired(v)
    ensures Rendered(TreeOf(v, indent, level), v)
    decreases v, 1
  {
    hide Rendered, TreeOf, ElemsOf, MembersOf;
    match v {
      case Array(items) =>
        if items == [] {
          EmptyRendered(indent, level);
        } else {
          ElemsRendered(items, indent, level);
          ArrayRendered(items, indent, level);
        }
      case Object(keys, values) =>
        if keys == [] {
          NoMembersRendered(values, indent, level);
        } else {
          MembersRendered(keys, values, indent, level);
          ObjectRendered(keys, values, indent, level);
        }
      case _ => ScalarRendered(v, indent, level);
    }
  }

  lemma ArrayRendered(items: seq<Value>, indent: int, level: nat)
    requires Paired(Array(items)) && items != []
    requires var es := ElemsOf(items, indent, level);
             ValidElems(es) && ElemsMeaning(es) == CanonAll(items, |items|) && ElemsDepth(es) == DeepestOf(items, |items|)
    ensures Rendered(TreeOf(Array(items), indent, level), Array(items))
  {
    hide ElemsOf, ElemsMeaning, ElemsDepth, ValidElems, CanonAll, DeepestOf;
  }

  lemma EmptyRendered(indent: int, level: nat)
    ensures Rendered(TreeOf(Array([]), indent, level), Array([]))
  {
  }

  lemma NoMembersRendered(values: seq<Value>, indent: int, level: nat)
    ensures Rendered(TreeOf(Object([], values), indent, level), Object([], values))
  {
  }

  lemma ObjectRendered(keys: seq<bytes>, values: seq<Value>, indent: int, level: nat)
    requires Paired(Object(keys, values)) && keys != []
    requires var ms := MembersOf(keys, values, indent, level);
             && ValidMembers(ms) && MembersKeys(ms) == keys
             && MembersValues(ms) == CanonAll(values, |keys|) && MembersDepth(ms) == DeepestOf(values, |keys|)
    ensures Rendered(TreeOf(Object(keys, values), indent, level), Object(keys, values))
  {
    hide MembersOf, MembersKeys, MembersValues, MembersDepth, ValidMembers, CanonAll, DeepestOf;
  }

  lemma {:induction false} ElemsRendered(items: seq<Value>, indent: int, level: nat)
    requires items != [] && forall i :: 0 <= i < |items| ==> Paired(items[i])
    ensures var es := ElemsOf(items, indent, level);
            ValidElems(es) && ElemsMeaning(es) == CanonAll(items, |items|) && ElemsDepth(es) == DeepestOf(items, |items|)
    decreases items, 0
  {
    hide TreeOf, Canon, TreeMeaning, TreeDepth, ValidTree, ValueDepth, Break;
    BreakIsWs(indent, level);
    BreakIsWs(indent, level + 1);
    TreeRendered(items[0], indent, level + 1);
    if |items| > 1 {
      ElemsRendered(items[1..], indent, level);
    } else {
      assert items[1..] == [];
    }
  }

  lemma {:induction false} MembersRendered(keys: seq<bytes>, values: seq<Value>, indent: int, level: nat)
    requires keys != [] && |keys| <= |values| && forall i :: 0 <= i < |keys| ==> Paired(values[i])
    ensures var ms := MembersOf(keys, values, indent, level);
            && ValidMembers(ms) && MembersKeys(ms) == keys
            && MembersValues(ms) == CanonAll(values, |keys|) && MembersDepth(ms) == DeepestOf(values, |keys|)
    decreases values, 0
  {
    hide TreeOf, Canon, TreeMeaning, TreeDepth, ValidTree, ValueDepth, Break, PiecesMeaning, PiecesOf;
    BreakIsWs(indent, level);
    BreakIsWs(indent, level + 1);
    PiecesOfMean(keys[0]);
    TreeRendered(values[0], indent, level + 1);
    assert AllWs(KeyGap(indent));
    if |keys| > 1 {
      MembersRendered(keys[1..], values[1..], indent, level);
      assert keys == [keys[0]] + keys[1..];
    } else {
      assert keys == [keys[0]];
    }
  }

  // ----- The round trips -----

  /**
   Parsing an emitted text gives the value back, in its canonical form, if its depth is
   within the limit, and fails with "nesting too deep" otherwise; for every indentation.
   */
  lemma ParseOfEmit(v: Value, indent: int, maxDepth: int)
    requires Paired(v)
    ensures var text := EmitText(v, indent);
            var r := ParseText(text, maxDepth);
            if Fits(ValueDepth(v), 0, maxDepth) then r == Good(Canon(v), |text|) else TooDeep(r)
    ensures Canon(v) == v <==> Canonical(v)
  {
    hide ParseText, TreeText, TreeMeaning, TreeDepth, ValidTree, TreeOf, Canon, Canonical, ValueDepth;
    TreeRendered(v, indent, 0);
    CanonFixes(v);
    var d := Document(false, [], TreeOf(v, indent, 0), []);
    assert d.Text() == EmitText(v, indent);
    DocumentParses(d, maxDepth);
  }

  lemma {:induction false} MeaningIsCanonical(t: Tree)
    requires ValidTree(t)
    ensures Paired(TreeMeaning(t)) && Canonical(TreeMeaning(t)) && ValueDepth(TreeMeaning(t)) == TreeDepth(t)
    decreases t, 0
  {
    match t {
      case NumberLeaf(num) => NumberIsCanonical(num);
      case ArrayTree(es) => ElemsCanonical(es);
      case ObjectTree(ms) => MembersCanonical(ms);
      case _ =>
    }
  }

  lemma NumberIsCanonical(num: NumberTree)
    requires num.Valid()
    ensures Canonical(num.Meaning()) && ValueDepth(num.Meaning()) == 0 && Paired(num.Meaning())
  {
    hide NumberTree.Text, NumberTree.Meaning, ParsedInt;
    MeaningOfText(num);
  }

  lemma {:induction false} ElemsCanonical(es: Elems)
    requires ValidElems(es)
    ensures var vs := ElemsMeaning(es);
            && DeepestOf(vs, |vs|) == ElemsDepth(es)
            && forall i :: 0 <= i < |vs| ==> Paired(vs[i]) && Canonical(vs[i])
    decreases es, 0
  {
    hide Paired, Canonical, TreeMeaning, ValidTree, ValueDepth, TreeDepth;
    MeaningIsCanonical(es.t);
    if es.MoreElems? {
      ElemsCanonical(es.rest);
      assert ElemsMeaning(es)[1..] == ElemsMeaning(es.rest);
    } else {
      assert ElemsMeaning(es)[1..] == [];
    }
  }

  lemma {:induction false} MembersCanonical(ms: Members)
    requires ValidMembers(ms)
    ensures var vs := MembersValues(ms);
            && |MembersKeys(ms)| == |vs|
            && DeepestOf(vs, |vs|) == MembersDepth(ms)
            && forall i :: 0 <= i < |vs| ==> Paired(vs[i]) && Canonical(vs[i])
    decreases ms, 0
  {
    hide Paired, Canonical, TreeMeaning, ValidTree, ValueDepth, TreeDepth, PiecesMeaning;
    MeaningIsCanonical(ms.t);
    if ms.MoreMembers? {
      MembersCanonical(ms.more);
      assert MembersValues(ms)[1..] == MembersValues(ms.more);
    } else {
      assert MembersValues(ms)[1..] == [];
    }
  }

  /** Whatever `parse` accepts, emitting the value and parsing it again gives the same value. */
  lemma ParseEmitParse(src: bytes, indent: int, maxDepth: int)
    requires ParseText(src, maxDepth).Good?
    ensures var v := ParseText(src, maxDepth).value;
            && Paired(v) && Canonical(v)
            && ParseText(EmitText(v, indent), maxDepth) == Good(v, |EmitText(v, indent)|)
  {
    hide ParseText, TreeText, TreeMeaning, TreeDepth, ValidTree, TreeOf, Canon, Canonical, ValueDepth, Paired, Document.Text;
    var d := TextSound(src, maxDepth);
    MeaningIsCanonical(d.t);
    ParseOfEmit(TreeMeaning(d.t), indent, maxDepth);
  }
}
