/** StyledWriter: indentation, one-line and multi-line arrays, and no change of meaning. */
module JsonStyledWriter {
  import opened Bytes
  import opened JsonNumbers
  import opened JsonStrings
  import opened JsonTokens
  import opened JsonValue
  import opened JsonReader
  import opened JsonText
  import opened JsonRoundTrip
  import opened JsonWriters

  /** after is before with a text appended that spells toks. */
  predicate Extends(before: bytes, after: bytes, toks: seq<bytes>) {
    before <= after && Spelled(after[|before|..], 0, toks)
  }

  lemma ExtendsNothing(a: bytes)
    ensures Extends(a, a, [])
  {
    assert a[|a|..] == [];
  }

  lemma ExtendsText(a: bytes, text: bytes, toks: seq<bytes>)
    requires Spelled(text, 0, toks)
    ensures Extends(a, a + text, toks)
  {
    assert (a + text)[|a|..] == text;
  }

  lemma ExtendsMore(a: bytes, b: bytes, ts: seq<bytes>, c: bytes, us: seq<bytes>)
    requires Extends(a, b, ts) && Extends(b, c, us) && NoneEmpty(ts) && MayFollow(ts, c[|b|..])
    ensures Extends(a, c, ts + us)
  {
    assert c[|a|..] == b[|a|..] + c[|b|..];
    SpelledAppend(b[|a|..], 0, ts, c[|b|..], us);
  }

  /** ExtendsMore for one appended text. */
  lemma ExtendsBy(a: bytes, b: bytes, ts: seq<bytes>, text: bytes, us: seq<bytes>)
    requires Extends(a, b, ts) && Spelled(text, 0, us) && NoneEmpty(ts) && MayFollow(ts, text)
    ensures Extends(a, b + text, ts + us)
  {
    ExtendsText(b, text, us);
    assert (b + text)[|b|..] == text;
    ExtendsMore(a, b, ts, b + text, us);
  }

  /** A punctuation mark with spaces around it spells that mark. */
  lemma Mark(text: bytes, t: bytes)
    requires |t| == 1 && Classify(t) != ErrorToken && !IsNumberText(t)
    requires text == t || text == t + [0x20] || text == [0x20] + t || text == [0x20] + t + [0x20]
    ensures Spelled(text, 0, [t])
  {
    var k := if text[0] == 0x20 then 1 else 0;
    assert !IsSpace(t[0]);
    assert text[k] == t[0];
    assert SkipSpaces(text, 0) == k;
    assert text[k..k + 1] == t;
    assert [t][1..] == [];
    assert SkipSpaces(text, k + 1) == |text|;
  }

  /** The values isMultilineArray writes into childValues_: scalars and empty containers. */
  predicate Flat(v: Value) {
    match v
    case Array(m) => Size(m) == 0
    case Object(m) => m == []
    case _ => true
  }

  /** childValues_ holds one entry per element, each spelling that element. */
  predicate OnePerElement(children: seq<bytes>, vs: seq<Value>) {
    |children| == |vs| && forall k :: 0 <= k < |vs| ==> Spelled(children[k], 0, Tokens(vs[k]))
  }

  function Spaces(n: nat): (s: bytes)
    ensures |s| == n && forall k :: 0 <= k < n ==> s[k] == 0x20
  {
    seq(n, _ => 0x20)
  }

  predicate Blank(s: bytes) {
    forall k :: 0 <= k < |s| ==> IsSpace(s[k])
  }

  class StyledWriter {
    var childValues_: seq<bytes>
    var document_: bytes
    var indentString_: bytes
    var addChildValues_: bool
    const rightMargin_ := 74
    const indentSize_ := 3

    constructor ()
    {
      childValues_, document_, indentString_, addChildValues_ := [], [], [], false;
    }

    /** The whole text spells exactly the tokens of the value. */
    method Write(root: Value) returns (text: bytes)
      requires Valid(root) && RealFree(root)
      modifies this
      ensures Spelled(text, 0, Tokens(root))
      ensures indentString_ == []
    {
      document_ := [];
      addChildValues_ := false;
      indentString_ := [];
      WriteValue(root);
      assert document_[0..] == document_;
      TokensProper(root);
      ProperNoneEmpty(Tokens(root));
      SpelledBlank([0x0A]);
      SpelledAppend(document_, 0, Tokens(root), [0x0A], []);
      assert Tokens(root) + [] == Tokens(root);
      document_ := document_ + [0x0A];
      text := document_;
    }

    method WriteValue(value: Value)
      requires Valid(value) && RealFree(value) && Blank(indentString_)
      requires addChildValues_ ==> Flat(value)
      modifies this
      ensures indentString_ == old(indentString_) && addChildValues_ == old(addChildValues_)
      ensures !addChildValues_ ==> Extends(old(document_), document_, Tokens(value))
      ensures addChildValues_ ==>
        && document_ == old(document_) && |childValues_| == |old(childValues_)| + 1
        && childValues_[..|old(childValues_)|] == old(childValues_)
        && Spelled(childValues_[|old(childValues_)|], 0, Tokens(value))
      decreases Depth(value), 3
    {
      TokensProper(value);
      match value
      case Null => PushValue(NULL_TEXT);
      case Int(i) =>
        var text := SignedToString(i as int64);
        PushValue(text);
      case UInt(u) =>
        var text := UnsignedToString(u as uint64);
        PushValue(text);
      case String(s) =>
        var text := ValueToQuotedStringN(s);
        PushValue(text);
      case Bool(b) => PushValue(if b then TRUE_TEXT else FALSE_TEXT);
      case Array(m) => WriteArrayValue(value);
      case Object(m) => WriteObjectValue(value);
    }

    /** pushValue with a text that is a single token. */
    method PushValue(value: bytes)
      requires Classify(value) != ErrorToken
      modifies this`document_, this`childValues_
      ensures !addChildValues_ ==> Extends(old(document_), document_, [value])
      ensures addChildValues_ ==>
        && document_ == old(document_) && |childValues_| == |old(childValues_)| + 1
        && childValues_[..|old(childValues_)|] == old(childValues_)
        && Spelled(childValues_[|old(childValues_)|], 0, [value])
    {
      SpelledToken(value);
      PushText(value, [value]);
    }

    method PushText(value: bytes, ghost toks: seq<bytes>)
      requires Spelled(value, 0, toks)
      modifies this`document_, this`childValues_
      ensures !addChildValues_ ==> Extends(old(document_), document_, toks)
      ensures addChildValues_ ==>
        && document_ == old(document_) && |childValues_| == |old(childValues_)| + 1
        && childValues_[..|old(childValues_)|] == old(childValues_)
        && Spelled(childValues_[|old(childValues_)|], 0, toks)
    {
      if addChildValues_ {
        childValues_ := childValues_ + [value];
      } else {
        ExtendsText(document_, value, toks);
        document_ := document_ + value;
      }
    }

    /** writeIndent appends white space only. */
    method WriteIndent()
      requires Blank(indentString_)
      modifies this`document_
      ensures Extends(old(document_), document_, [])
    {
      ghost var before, added := document_, [];
      if document_ != [] {
        var last := document_[|document_| - 1];
        if last == 0x20 {
          ExtendsNothing(document_);
          return;
        }
        if last != 0x0A {
          document_ := document_ + [0x0A];
          added := [0x0A];
        }
      }
      document_ := document_ + indentString_;
      assert document_ == before + (added + indentString_);
      SpelledBlank(added + indentString_);
      ExtendsText(before, added + indentString_, []);
    }

    /** writeWithIndent: what is appended starts with white space or with the text itself. */
    method WriteWithIndent(value: bytes, ghost toks: seq<bytes>)
      requires Blank(indentString_) && value != [] && Spelled(value, 0, toks)
      modifies this`document_
      ensures Extends(old(document_), document_, toks)
      ensures |old(document_)| < |document_|
      ensures var c := document_[|old(document_)|]; IsSpace(c) || c == value[0]
    {
      ghost var before := document_;
      WriteIndent();
      ghost var spaces := document_[|before|..];
      SpelledBlankInverse(spaces);
      ExtendsBy(before, document_, [], value, toks);
      assert [] + toks == toks;
      document_ := document_ + value;
    }

    method Indent()
      requires Blank(indentString_)
      modifies this`indentString_
      ensures indentString_ == old(indentString_) + Spaces(indentSize_) && Blank(indentString_)
    {
      indentString_ := indentString_ + Spaces(indentSize_);
    }

    method Unindent()
      requires |indentString_| >= indentSize_
      modifies this`indentString_
      ensures indentString_ == old(indentString_)[..|old(indentString_)| - indentSize_]
    {
      indentString_ := indentString_[..|indentString_| - indentSize_];
    }

    /** isMultilineArray: the choice between one line and several, with the children written out on the way. */
    method IsMultilineArray(value: Value) returns (isMultiLine: bool)
      requires value.Array? && Valid(value) && RealFree(value) && Size(value.map_) > 0
      requires !addChildValues_ && Blank(indentString_)
      modifies this
      ensures document_ == old(document_) && indentString_ == old(indentString_) && !addChildValues_
      ensures childValues_ == [] || OnePerElement(childValues_, Fill(value.map_))
      ensures !isMultiLine ==> OnePerElement(childValues_, Fill(value.map_))
      decreases Depth(value), 1
    {
      hide Fill, Valid, RealFree, Lookup, Flat, Spelled, Tokens, Depth, Blank;
      var size := Size(value.map_);
      ghost var vs := Fill(value.map_);
      ArrayChildren(value);
      isMultiLine := (size * 3) % 0x1_0000_0000 >= rightMargin_;
      childValues_ := [];
      var index := 0;
      while index < size && !isMultiLine
        invariant 0 <= index <= size
        invariant !isMultiLine ==> forall k :: 0 <= k < index ==> Flat(vs[k])
      {
        var childValue := Lookup(value.map_, Index(index));
        isMultiLine := !Flat(childValue);
        index := index + 1;
      }
      if !isMultiLine {
        addChildValues_ := true;
        var lineLength := (4 + (size - 1) * 2) % 0x1_0000_0000;
        index := 0;
        while index < size
          invariant 0 <= index <= size
          invariant addChildValues_ && document_ == old(document_) && indentString_ == old(indentString_)
          invariant |childValues_| == index
          invariant forall k :: 0 <= k < index ==> Spelled(childValues_[k], 0, Tokens(vs[k]))
        {
          ghost var before := childValues_;
          WriteValue(Lookup(value.map_, Index(index)));
          assert forall k :: 0 <= k < index ==> childValues_[k] == before[k];
          lineLength := (lineLength + |childValues_[index]|) % 0x1_0000_0000;
          index := index + 1;
        }
        addChildValues_ := false;
        isMultiLine := lineLength >= rightMargin_;
      }
    }

    method WriteArrayValue(value: Value)
      requires value.Array? && Valid(value) && RealFree(value) && Blank(indentString_)
      requires addChildValues_ ==> Flat(value)
      modifies this
      ensures indentString_ == old(indentString_) && addChildValues_ == old(addChildValues_)
      ensures !addChildValues_ ==> Extends(old(document_), document_, Tokens(value))
      ensures addChildValues_ ==>
        && document_ == old(document_) && |childValues_| == |old(childValues_)| + 1
        && childValues_[..|old(childValues_)|] == old(childValues_)
        && Spelled(childValues_[|old(childValues_)|], 0, Tokens(value))
      decreases Depth(value), 2
    {
      if Size(value.map_) == 0 {
        EmptyBrackets(value);
        PushText([0x5B, 0x5D], Tokens(value));
      } else {
        var isArrayMultiLine := IsMultilineArray(value);
        if isArrayMultiLine {
          WriteLines(value);
        } else {
          WriteOneLine(value);
        }
      }
    }

    /** The multi-line branch of writeArrayValue. */
    method WriteLines(value: Value)
      requires value.Array? && Valid(value) && RealFree(value) && Size(value.map_) > 0
      requires !addChildValues_ && Blank(indentString_)
      requires childValues_ == [] || OnePerElement(childValues_, Fill(value.map_))
      modifies this
      ensures indentString_ == old(indentString_) && !addChildValues_
      ensures Extends(old(document_), document_, Tokens(value))
      decreases Depth(value), 1
    {
      hide Fill, Valid, RealFree, Lookup, Tokens, ElementsRest, Extends, Spelled, Classify, OnePerElement, Progress, Ready;
      var size := Size(value.map_);
      ghost var vs, start, goal := Fill(value.map_), document_, Tokens(value);
      ghost var written := [LEFT_BRACKET];
      ArrayChildren(value);
      ArrayStart(value);
      Marks();
      WriteWithIndent([0x5B], [LEFT_BRACKET]);
      Begin(start, document_, LEFT_BRACKET, Tokens(vs[0]) + ElementsRest(vs, 1), goal);
      Indent();
      var hasChildValue := childValues_ != [];
      var index := 0;
      while true
        invariant 0 <= index < size && !addChildValues_
        invariant indentString_ == old(indentString_) + Spaces(indentSize_) && Blank(indentString_)
        invariant hasChildValue ==> OnePerElement(childValues_, vs)
        invariant Ready(written) && Progress(start, document_, written, Tokens(vs[index]) + ElementsRest(vs, index + 1), goal)
        decreases size - index
      {
        ghost var before := document_;
        TokensNoneEmpty(vs[index]);
        if hasChildValue {
          ChildAt(childValues_, vs, index);
          WriteWithIndent(childValues_[index], Tokens(vs[index]));
        } else {
          WriteIndent();
          ghost var indented := document_;
          WriteValue(Lookup(value.map_, Index(index)));
          ExtendsBlank(before, indented, document_, Tokens(vs[index]));
        }
        Advance(start, before, written, document_, Tokens(vs[index]), ElementsRest(vs, index + 1), goal);
        written := written + Tokens(vs[index]);
        index := index + 1;
        if index == size {
          break;
        }
        ElementsRestStep(vs, index);
        AdvanceMark(start, document_, written, [0x2C], COMMA, Tokens(vs[index]) + ElementsRest(vs, index + 1), goal);
        document_ := document_ + [0x2C];
        written := written + [COMMA];
      }
      ElementsRestEnd(vs);
      Unindent();
      ghost var last := document_;
      WriteWithIndent([0x5D], [RIGHT_BRACKET]);
      Finish(start, last, written, document_, RIGHT_BRACKET, goal);
    }

    /** The single-line branch of writeArrayValue. */
    method WriteOneLine(value: Value)
      requires value.Array? && Valid(value) && RealFree(value) && Size(value.map_) > 0
      requires OnePerElement(childValues_, Fill(value.map_))
      modifies this`document_
      ensures Extends(old(document_), document_, Tokens(value))
    {
      hide Fill, Valid, RealFree, Tokens, ElementsRest, Extends, Spelled, Classify, Progress, Ready;
      var size := |childValues_|;
      ghost var vs, start, goal := Fill(value.map_), document_, Tokens(value);
      ghost var written := [LEFT_BRACKET];
      ArrayChildren(value);
      ArrayStart(value);
      Marks();
      ExtendsText(document_, [0x5B, 0x20], [LEFT_BRACKET]);
      document_ := document_ + [0x5B, 0x20];
      Begin(start, document_, LEFT_BRACKET, Tokens(vs[0]) + ElementsRest(vs, 1), goal);
      var index := 0;
      while index < size
        invariant 0 <= index <= size
        invariant index == 0 ==> Ready(written) && Progress(start, document_, written, Tokens(vs[0]) + ElementsRest(vs, 1), goal)
        invariant index > 0 ==> Progress(start, document_, written, ElementsRest(vs, index), goal)
      {
        if index > 0 {
          ElementsRestStep(vs, index);
          AdvanceMark(start, document_, written, [0x2C, 0x20], COMMA, Tokens(vs[index]) + ElementsRest(vs, index + 1), goal);
          document_ := document_ + [0x2C, 0x20];
          written := written + [COMMA];
        }
        TokensNoneEmpty(vs[index]);
        AdvanceText(start, document_, written, childValues_[index], Tokens(vs[index]), ElementsRest(vs, index + 1), goal);
        document_ := document_ + childValues_[index];
        written := written + Tokens(vs[index]);
        index := index + 1;
      }
      ElementsRestEnd(vs);
      ghost var last := document_;
      ExtendsText(last, [0x20, 0x5D], [RIGHT_BRACKET]);
      document_ := document_ + [0x20, 0x5D];
      Finish(start, last, written, document_, RIGHT_BRACKET, goal);
    }

    /** The object case of writeValue. */
    method WriteObjectValue(value: Value)
      requires value.Object? && Valid(value) && RealFree(value) && Blank(indentString_)
      requires addChildValues_ ==> Flat(value)
      modifies this
      ensures indentString_ == old(indentString_) && addChildValues_ == old(addChildValues_)
      ensures !addChildValues_ ==> Extends(old(document_), document_, Tokens(value))
      ensures addChildValues_ ==>
        && document_ == old(document_) && |childValues_| == |old(childValues_)| + 1
        && childValues_[..|old(childValues_)|] == old(childValues_)
        && Spelled(childValues_[|old(childValues_)|], 0, Tokens(value))
      decreases Depth(value), 2
    {
      if value.map_ == [] {
        EmptyBraces(value);
        PushText([0x7B, 0x7D], Tokens(value));
      } else {
        WriteMembers(value);
      }
    }

    method WriteMembers(value: Value)
      requires value.Object? && Valid(value) && RealFree(value) && value.map_ != []
      requires !addChildValues_ && Blank(indentString_)
      modifies this
      ensures indentString_ == old(indentString_) && !addChildValues_
      ensures Extends(old(document_), document_, Tokens(value))
      decreases Depth(value), 1
    {
      hide Valid, RealFree, Tokens, MembersRest, Extends, Spelled, Classify, Progress, Ready, Quote, KeysOk;
      var members := value.map_;
      ghost var start, goal := document_, Tokens(value);
      ghost var written := [LEFT_BRACE];
      ObjectChildren(value);
      ObjectStart(value);
      Marks();
      WriteWithIndent([0x7B], [LEFT_BRACE]);
      Begin(start, document_, LEFT_BRACE, MemberAndRest(members, 0), goal);
      Indent();
      var it := 0;
      while true
        invariant 0 <= it < |members| && !addChildValues_
        invariant indentString_ == old(indentString_) + Spaces(indentSize_) && Blank(indentString_)
        invariant Ready(written) && Progress(start, document_, written, MemberAndRest(members, it), goal)
        decreases |members| - it
      {
        var name, childValue := members[it].key.name, members[it].value;
        ghost var before := document_;
        var quoted := ValueToQuotedStringN(name);
        QuotedName(name);
        WriteWithIndent(quoted, [Quote(name)]);
        Advance(start, before, written, document_, [Quote(name)], [COLON] + (Tokens(childValue) + MembersRest(members, it + 1)), goal);
        written := written + [Quote(name)];
        AdvanceMark(start, document_, written, [0x20, 0x3A, 0x20], COLON, Tokens(childValue) + MembersRest(members, it + 1), goal);
        document_ := document_ + [0x20, 0x3A, 0x20];
        written := written + [COLON];
        before := document_;
        TokensNoneEmpty(childValue);
        WriteValue(childValue);
        Advance(start, before, written, document_, Tokens(childValue), MembersRest(members, it + 1), goal);
        written := written + Tokens(childValue);
        it := it + 1;
        if it == |members| {
          break;
        }
        NextMember(members, it);
        AdvanceMark(start, document_, written, [0x2C], COMMA, MemberAndRest(members, it), goal);
        document_ := document_ + [0x2C];
        written := written + [COMMA];
      }
      MembersRestEnd(members);
      Unindent();
      ghost var last := document_;
      WriteWithIndent([0x7D], [RIGHT_BRACE]);
      Finish(start, last, written, document_, RIGHT_BRACE, goal);
    }
  }

  // ----- The tokens written so far and those still to come -----

  /** From start, the tokens `written` are out; with `rest` they make up the goal. */
  predicate Progress(start: bytes, doc: bytes, written: seq<bytes>, rest: seq<bytes>, goal: seq<bytes>) {
    Extends(start, doc, written) && NoneEmpty(written) && written + rest == goal
  }

  /** The last token is not a number, so anything may follow. */
  predicate Ready(toks: seq<bytes>) {
    toks != [] && !IsNumberText(toks[|toks| - 1])
  }

  lemma Begin(start: bytes, doc: bytes, mark: bytes, rest: seq<bytes>, goal: seq<bytes>)
    requires Extends(start, doc, [mark]) && mark != [] && !IsNumberText(mark) && [mark] + rest == goal
    ensures Ready([mark]) && Progress(start, doc, [mark], rest, goal)
  {
  }

  lemma Advance(start: bytes, b: bytes, written: seq<bytes>, c: bytes, us: seq<bytes>, rest: seq<bytes>, goal: seq<bytes>)
    requires Progress(start, b, written, us + rest, goal) && Extends(b, c, us) && NoneEmpty(us)
    requires Ready(written) || (|b| < |c| && StopsNumber(c[|b|]))
    ensures Progress(start, c, written + us, rest, goal)
    ensures us != [] && Ready(us) ==> Ready(written + us)
  {
    ExtendsMore(start, b, written, c, us);
    Associative(written, us, rest);
  }

  lemma AdvanceText(start: bytes, b: bytes, written: seq<bytes>, text: bytes, us: seq<bytes>, rest: seq<bytes>, goal: seq<bytes>)
    requires Progress(start, b, written, us + rest, goal) && Spelled(text, 0, us) && NoneEmpty(us)
    requires Ready(written) || (text != [] && StopsNumber(text[0]))
    ensures Progress(start, b + text, written + us, rest, goal)
  {
    ExtendsText(b, text, us);
    if text != [] {
      assert (b + text)[|b|] == text[0];
    }
    Advance(start, b, written, b + text, us, rest, goal);
  }

  /** A comma or colon, which may follow a number and after which anything may follow. */
  lemma AdvanceMark(start: bytes, b: bytes, written: seq<bytes>, text: bytes, mark: bytes, rest: seq<bytes>, goal: seq<bytes>)
    requires Progress(start, b, written, [mark] + rest, goal) && Spelled(text, 0, [mark])
    requires mark != [] && !IsNumberText(mark) && text != [] && StopsNumber(text[0])
    ensures Progress(start, b + text, written + [mark], rest, goal) && Ready(written + [mark])
  {
    AdvanceText(start, b, written, text, [mark], rest, goal);
  }

  lemma Finish(start: bytes, b: bytes, written: seq<bytes>, c: bytes, mark: bytes, goal: seq<bytes>)
    requires Progress(start, b, written, [mark], goal) && Extends(b, c, [mark]) && mark != []
    requires |b| < |c| && StopsNumber(c[|b|])
    ensures Extends(start, c, goal)
  {
    assert [mark] + [] == [mark];
    Advance(start, b, written, c, [mark], [], goal);
    assert written + [mark] + [] == written + [mark];
  }

  lemma ExtendsBlank(a: bytes, b: bytes, c: bytes, toks: seq<bytes>)
    requires Extends(a, b, []) && Extends(b, c, toks)
    ensures Extends(a, c, toks)
  {
    ExtendsMore(a, b, [], c, toks);
    assert [] + toks == toks;
  }

  lemma TokensNoneEmpty(v: Value)
    requires Valid(v) && RealFree(v)
    ensures NoneEmpty(Tokens(v))
  {
    TokensProper(v);
    ProperNoneEmpty(Tokens(v));
  }

  lemma ChildAt(children: seq<bytes>, vs: seq<Value>, index: nat)
    requires OnePerElement(children, vs) && index < |vs| && Valid(vs[index]) && RealFree(vs[index])
    ensures index < |children| && children[index] != [] && Spelled(children[index], 0, Tokens(vs[index]))
  {
    TokensNoneEmpty(vs[index]);
    SpelledNotEmpty(children[index], Tokens(vs[index]));
  }

  lemma SpelledNotEmpty(text: bytes, toks: seq<bytes>)
    requires Spelled(text, 0, toks) && toks != [] && toks[0] != []
    ensures text != []
  {
  }

  lemma QuotedName(name: bytes)
    ensures Quote(name) != [] && Spelled(Quote(name), 0, [Quote(name)]) && Ready([Quote(name)]) && NoneEmpty([Quote(name)])
  {
    QuoteIsString(name);
    SpelledToken(Quote(name));
  }

  lemma ArrayStart(value: Value)
    requires value.Array? && Fill(value.map_) != []
    ensures var vs := Fill(value.map_); Tokens(value) == [LEFT_BRACKET] + (Tokens(vs[0]) + ElementsRest(vs, 1))
  {
    hide Tokens, ElementsRest;
    ArrayRest(value);
    ElementsRestStep(Fill(value.map_), 0);
    assert [] + (Tokens(Fill(value.map_)[0]) + ElementsRest(Fill(value.map_), 1)) == Tokens(Fill(value.map_)[0]) + ElementsRest(Fill(value.map_), 1);
  }

  /** The tokens of one member and of what follows it. */
  function MemberAndRest(m: seq<Slot>, it: nat): seq<bytes>
    requires it < |m|
  {
    [Quote(NameOf(m[it].key))] + ([COLON] + (Tokens(m[it].value) + MembersRest(m, it + 1)))
  }

  lemma NextMember(m: seq<Slot>, it: nat)
    requires 0 < it < |m|
    ensures MembersRest(m, it) == [COMMA] + MemberAndRest(m, it)
  {
    hide Tokens, MembersRest, Quote;
    MembersRestStep(m, it);
    SplitPair(Quote(NameOf(m[it].key)), COLON, Tokens(m[it].value) + MembersRest(m, it + 1));
  }

  lemma SplitPair(a: bytes, b: bytes, c: seq<bytes>)
    ensures [a, b] + c == [a] + ([b] + c)
  {
  }

  lemma ObjectStart(value: Value)
    requires value.Object? && value.map_ != []
    ensures Tokens(value) == [LEFT_BRACE] + MemberAndRest(value.map_, 0)
  {
    var m := value.map_;
    hide Tokens, MembersRest, Quote;
    ObjectRest(value);
    MembersRestStep(m, 0);
    SplitPair(Quote(NameOf(m[0].key)), COLON, Tokens(m[0].value) + MembersRest(m, 1));
    assert [] + MemberAndRest(m, 0) == MemberAndRest(m, 0);
  }

  lemma EmptyBrackets(value: Value)
    requires value.Array? && Size(value.map_) == 0
    ensures Spelled([0x5B, 0x5D], 0, Tokens(value))
  {
    Marks();
    NoElements();
    SpelledAppend([0x5B], 0, [LEFT_BRACKET], [0x5D], [RIGHT_BRACKET]);
    assert Tokens(value) == [LEFT_BRACKET] + [RIGHT_BRACKET];
    assert [0x5B] + [0x5D] == [0x5B, 0x5D];
  }

  lemma EmptyBraces(value: Value)
    requires value.Object? && value.map_ == []
    ensures Spelled([0x7B, 0x7D], 0, Tokens(value))
  {
    Marks();
    NoMembers();
    SpelledAppend([0x7B], 0, [LEFT_BRACE], [0x7D], [RIGHT_BRACE]);
    assert Tokens(value) == [LEFT_BRACE] + [RIGHT_BRACE];
    assert [0x7B] + [0x7D] == [0x7B, 0x7D];
  }

  lemma SpelledBlankInverse(text: bytes)
    requires Spelled(text, 0, [])
    ensures Blank(text)
  {
  }

  lemma Marks()
    ensures Spelled([0x5B], 0, [LEFT_BRACKET]) && Spelled([0x5D], 0, [RIGHT_BRACKET]) && Spelled([0x2C], 0, [COMMA])
    ensures Spelled([0x7B], 0, [LEFT_BRACE]) && Spelled([0x7D], 0, [RIGHT_BRACE]) && Spelled([0x20, 0x3A, 0x20], 0, [COLON])
    ensures Spelled([0x5B, 0x20], 0, [LEFT_BRACKET]) && Spelled([0x20, 0x5D], 0, [RIGHT_BRACKET]) && Spelled([0x2C, 0x20], 0, [COMMA])
  {
    Punctuation();
    Mark([0x5B], LEFT_BRACKET);
    Mark([0x5D], RIGHT_BRACKET);
    Mark([0x2C], COMMA);
    Mark([0x7B], LEFT_BRACE);
    Mark([0x7D], RIGHT_BRACE);
    Mark([0x20, 0x3A, 0x20], COLON);
    Mark([0x5B, 0x20], LEFT_BRACKET);
    Mark([0x20, 0x5D], RIGHT_BRACKET);
    Mark([0x2C, 0x20], COMMA);
  }

  lemma ProperNoneEmpty(toks: seq<bytes>)
    requires Proper(toks)
    ensures NoneEmpty(toks)
  {
  }
}
