/** FastWriter and StyledWriter: both write the same tokens, and both outputs read back alike. */
module JsonWriters {
  import opened Bytes
  import opened JsonNumbers
  import opened JsonStrings
  import opened JsonTokens
  import opened JsonValue
  import opened JsonReader
  import opened JsonText
  import opened JsonRoundTrip

  // ----- Putting spelled texts together -----

  lemma {:induction false} SkipShift(a: bytes, b: bytes, j: nat)
    requires j <= |b|
    ensures SkipSpaces(a + b, |a| + j) == |a| + SkipSpaces(b, j)
    decreases |b| - j
  {
    if j < |b| {
      assert (a + b)[|a| + j] == b[j];
      SkipShift(a, b, j + 1);
    }
  }

  lemma AtShift(a: bytes, b: bytes, j: nat, t: bytes)
    requires At(b, j, t)
    ensures At(a + b, |a| + j, t)
  {
    assert (a + b)[|a| + j..|a| + j + |t|] == b[j..j + |t|];
  }

  predicate Closed(doc: bytes, end: nat, t: bytes) {
    IsNumberText(t) && end < |doc| ==> StopsNumber(doc[end])
  }

  lemma SpelledCons(doc: bytes, i: nat, toks: seq<bytes>)
    requires toks != [] && i <= |doc|
    ensures var k := SkipSpaces(doc, i);
      Spelled(doc, i, toks) <==> At(doc, k, toks[0]) && Closed(doc, k + |toks[0]|, toks[0]) && Spelled(doc, k + |toks[0]|, toks[1..])
  {
  }

  lemma {:induction false} SpelledShift(a: bytes, b: bytes, j: nat, toks: seq<bytes>)
    requires j <= |b| && Spelled(b, j, toks)
    ensures Spelled(a + b, |a| + j, toks)
    decreases |toks|
  {
    hide *;
    SkipShift(a, b, j);
    ConcatLength(a, b);
    if toks == [] {
      SpelledNone(b, j);
      SpelledNone(a + b, |a| + j);
    } else {
      var k := SkipSpaces(b, j);
      var end := k + |toks[0]|;
      SpelledCons(b, j, toks);
      AtShift(a, b, k, toks[0]);
      AtEnd(b, k, toks[0]);
      ClosedShift(a, b, end, toks[0]);
      SpelledShift(a, b, end, toks[1..]);
      assert |a| + end == |a| + k + |toks[0]|;
      SpelledCons(a + b, |a| + j, toks);
    }
  }

  lemma ConcatLength(a: bytes, b: bytes)
    ensures |a + b| == |a| + |b|
  {
  }

  lemma SpelledNone(doc: bytes, i: nat)
    requires i <= |doc|
    ensures Spelled(doc, i, []) <==> SkipSpaces(doc, i) == |doc|
  {
  }

  lemma ClosedShift(a: bytes, b: bytes, end: nat, t: bytes)
    requires Closed(b, end, t)
    ensures Closed(a + b, |a| + end, t)
  {
  }

  lemma AtEnd(doc: bytes, k: nat, t: bytes)
    requires At(doc, k, t)
    ensures k + |t| <= |doc|
  {
  }

  lemma {:induction false} SkipPrefix(a: bytes, b: bytes, i: nat)
    requires i <= |a|
    ensures SkipSpaces(a, i) < |a| ==> SkipSpaces(a + b, i) == SkipSpaces(a, i)
    ensures SkipSpaces(a, i) == |a| ==> SkipSpaces(a + b, i) == SkipSpaces(a + b, |a|)
    decreases |a| - i
  {
    if i < |a| {
      assert (a + b)[i] == a[i];
      SkipPrefix(a, b, i + 1);
    }
  }

  /** What may follow a text that ends with `last`: anything, unless the last token is a number. */
  predicate MayFollow(toks: seq<bytes>, b: bytes) {
    b == [] || toks == [] || !IsNumberText(toks[|toks| - 1]) || StopsNumber(b[0])
  }

  predicate NoneEmpty(toks: seq<bytes>) {
    forall k :: 0 <= k < |toks| ==> toks[k] != []
  }

  lemma LessMayFollow(ts: seq<bytes>, b: bytes)
    requires ts != [] && MayFollow(ts, b) && NoneEmpty(ts)
    ensures MayFollow(ts[1..], b) && NoneEmpty(ts[1..]) && ts[0] != []
  {
  }

  lemma {:induction false} SpelledAppend(a: bytes, i: nat, ts: seq<bytes>, b: bytes, us: seq<bytes>)
    requires Spelled(a, i, ts) && Spelled(b, 0, us) && MayFollow(ts, b) && NoneEmpty(ts)
    ensures Spelled(a + b, i, ts + us)
    decreases |ts|
  {
    hide *;
    SpelledIn(a, i, ts);
    ConcatLength(a, b);
    if ts == [] {
      SpelledAfterBlank(a, i, b, us);
      assert ts + us == us;
    } else {
      var k := SkipSpaces(a, i);
      var next := k + |ts[0]|;
      SpelledCons(a, i, ts);
      AtPrefix(a, b, k, ts[0]);
      AtEnd(a, k, ts[0]);
      SkipPrefix(a, b, i);
      NumberStaysClosed(a, next, ts, b);
      LessMayFollow(ts, b);
      ConcatTail(ts, us);
      SpelledAppend(a, next, ts[1..], b, us);
      SpelledCons(a + b, i, ts + us);
    }
  }

  lemma SpelledIn(doc: bytes, i: nat, toks: seq<bytes>)
    requires Spelled(doc, i, toks)
    ensures i <= |doc|
  {
  }

  lemma ConcatTail(ts: seq<bytes>, us: seq<bytes>)
    requires ts != []
    ensures (ts + us)[0] == ts[0] && (ts + us)[1..] == ts[1..] + us
  {
  }

  lemma SpelledAfterBlank(a: bytes, i: nat, b: bytes, us: seq<bytes>)
    requires Spelled(a, i, []) && Spelled(b, 0, us)
    ensures Spelled(a + b, i, us)
  {
    SkipPrefix(a, b, i);
    SpelledShift(a, b, 0, us);
    SkipShift(a, b, 0);
    SpelledSkip(a + b, i, |a|, us);
  }

  lemma AtPrefix(a: bytes, b: bytes, k: nat, t: bytes)
    requires At(a, k, t)
    ensures At(a + b, k, t)
    ensures k + |t| <= |a|
  {
    assert (a + b)[k..k + |t|] == a[k..k + |t|];
  }

  /** Appending b does not turn the end of the first token, at `next`, into the middle of a longer number. */
  lemma NumberStaysClosed(a: bytes, next: nat, ts: seq<bytes>, b: bytes)
    requires ts != [] && next <= |a| && MayFollow(ts, b) && NoneEmpty(ts) && Spelled(a, next, ts[1..])
    requires Closed(a, next, ts[0])
    ensures Closed(a + b, next, ts[0])
  {
    if next == |a| && |ts| > 1 {
      assert At(a, SkipSpaces(a, next), ts[1]);
      assert false;
    }
  }

  lemma SpelledSkip(doc: bytes, i: nat, j: nat, toks: seq<bytes>)
    requires i <= |doc| && Spelled(doc, j, toks) && SkipSpaces(doc, i) == SkipSpaces(doc, j)
    ensures Spelled(doc, i, toks)
  {
  }

  lemma SpelledToken(t: bytes)
    requires Classify(t) != ErrorToken
    ensures t != [] && Spelled(t, 0, [t])
  {
    assert !IsSpace(t[0]);
    assert SkipSpaces(t, 0) == 0;
    assert t[0..|t|] == t;
  }

  /** Every token of a value stands for itself. */
  predicate Proper(toks: seq<bytes>) {
    forall k :: 0 <= k < |toks| ==> Classify(toks[k]) != ErrorToken
  }

  lemma {:induction false} TokensProper(v: Value)
    requires Valid(v) && RealFree(v)
    ensures Proper(Tokens(v))
    decreases Depth(v), 0, 0
  {
    hide Classify, Quote, PrintInteger, Fill, ElementTokens, MemberTokens, SkipSpaces;
    Punctuation();
    match v
    case Int(n) => IntegerIsNumber(n);
    case UInt(n) => IntegerIsNumber(n);
    case String(s) => QuoteIsString(s);
    case Array(m) =>
      FillValid(v);
      ElementTokensProper(Fill(m));
    case Object(m) => MemberTokensProper(m);
    case _ =>
  }

  lemma {:induction false} ElementTokensProper(vs: seq<Value>)
    requires forall k :: 0 <= k < |vs| ==> Valid(vs[k]) && RealFree(vs[k])
    ensures Proper(ElementTokens(vs))
    decreases MaxDepth(vs), 1, |vs|
  {
    hide Classify;
    Punctuation();
    if vs != [] {
      TokensProper(vs[0]);
      ElementTokensProper(vs[1..]);
    }
  }

  lemma {:induction false} MemberTokensProper(m: seq<Slot>)
    requires Members(m)
    ensures Proper(MemberTokens(m))
    decreases SlotsDepth(m), 1, |m|
  {
    hide Classify;
    Punctuation();
    if m != [] {
      QuoteIsString(m[0].key.name);
      TokensProper(m[0].value);
      MemberTokensProper(m[1..]);
    }
  }

  /** The tokens of a text, as the reader's own tokeniser finds them. */
  function Lex(doc: bytes, i: nat): seq<(TokenType, bytes)>
    requires i <= |doc|
    decreases |doc| - i
  {
    var t := NextToken(doc, i);
    if t.type_ == EndOfStream then [] else [(t.type_, doc[t.start..t.end])] + Lex(doc, t.end)
  }

  function Typed(toks: seq<bytes>): seq<(TokenType, bytes)> {
    if toks == [] then [] else [(Classify(toks[0]), toks[0])] + Typed(toks[1..])
  }

  lemma {:induction false} LexSpelled(doc: bytes, i: nat, toks: seq<bytes>)
    requires Spelled(doc, i, toks) && Proper(toks)
    ensures Lex(doc, i) == Typed(toks)
    decreases |toks|
  {
    hide Classify, Spelled;
    if toks == [] {
      NothingSpelled(doc, i);
    } else {
      assert toks == [toks[0]] + toks[1..];
      ReadsToken(doc, i, toks[0], toks[1..]);
      LexSpelled(doc, NextToken(doc, i).end, toks[1..]);
      NeverEnd(toks[0]);
    }
  }

  lemma NothingSpelled(doc: bytes, i: nat)
    requires Spelled(doc, i, [])
    ensures NextToken(doc, i).type_ == EndOfStream
  {
  }

  lemma NeverEnd(t: bytes)
    ensures Classify(t) != EndOfStream
  {
  }

  /** Two texts of one value: the reader sees the same tokens in both, and both parse to the same outcome. */
  lemma SameTokensSameValue(a: bytes, b: bytes, v: Value, root: Value, doubles: bytes -> bool)
    requires Valid(v) && RealFree(v) && Spelled(a, 0, Tokens(v)) && Spelled(b, 0, Tokens(v))
    ensures Lex(a, 0) == Lex(b, 0)
    ensures var ra, rb := Parse(a, root, doubles), Parse(b, root, doubles);
      (ra.Thrown? <==> rb.Thrown?) && (ra.Done? ==> ra.ok && rb.ok && ra.value == rb.value)
  {
    TokensProper(v);
    LexSpelled(a, 0, Tokens(v));
    LexSpelled(b, 0, Tokens(v));
    ParseSpelled(a, v, root, doubles);
    ParseSpelled(b, v, root, doubles);
  }

  // ----- FastWriter -----

  /** The tokens one after the other; with YAML compatibility a space follows each colon. */
  function Compact(toks: seq<bytes>, yaml: bool): bytes {
    if toks == [] then [] else Printed(toks[0], yaml) + Compact(toks[1..], yaml)
  }

  function Printed(t: bytes, yaml: bool): bytes {
    if t == COLON && yaml then [0x3A, 0x20] else t
  }

  lemma {:induction false} CompactConcat(a: seq<bytes>, b: seq<bytes>, yaml: bool)
    ensures Compact(a + b, yaml) == Compact(a, yaml) + Compact(b, yaml)
  {
    if a == [] {
      assert a + b == b;
    } else {
      assert (a + b)[1..] == a[1..] + b;
      CompactConcat(a[1..], b, yaml);
    }
  }

  /** Tokens in which a number is never directly followed by something that would continue it. */
  predicate Separated(toks: seq<bytes>) {
    forall k :: 0 <= k < |toks| - 1 && IsNumberText(toks[k]) ==> toks[k + 1] != [] && StopsNumber(toks[k + 1][0])
  }

  lemma SeparatedConcat(a: seq<bytes>, b: seq<bytes>)
    requires Separated(a) && Separated(b)
    requires a == [] || b == [] || !IsNumberText(a[|a| - 1]) || (b[0] != [] && StopsNumber(b[0][0]))
    ensures Separated(a + b)
  {
  }

  lemma {:induction false} TokensSeparated(v: Value)
    ensures RealFree(v) ==> Separated(Tokens(v))
    decreases Depth(v), 0, 0
  {
    match v
    case Array(m) =>
      if RealFree(v) {
        forall k | 0 <= k < |Fill(m)| ensures RealFree(Fill(m)[k]) {
          LookupRealFree(m, Index(k));
        }
        ElementTokensSeparated(Fill(m));
        SeparatedConcat([LEFT_BRACKET], ElementTokens(Fill(m)));
        SeparatedConcat([LEFT_BRACKET] + ElementTokens(Fill(m)), [RIGHT_BRACKET]);
      }
    case Object(m) =>
      if RealFree(v) {
        MemberTokensSeparated(m);
        SeparatedConcat([LEFT_BRACE], MemberTokens(m));
        SeparatedConcat([LEFT_BRACE] + MemberTokens(m), [RIGHT_BRACE]);
      }
    case _ =>
  }

  lemma {:induction false} LookupRealFree(m: seq<Slot>, key: Key)
    requires forall k :: 0 <= k < |m| ==> RealFree(m[k].value)
    ensures RealFree(Lookup(m, key))
  {
    if m != [] {
      LookupRealFree(m[1..], key);
    }
  }

  lemma {:induction false} ElementTokensSeparated(vs: seq<Value>)
    requires forall k :: 0 <= k < |vs| ==> RealFree(vs[k])
    ensures Separated(ElementTokens(vs))
    decreases MaxDepth(vs), 1, |vs|
  {
    if vs != [] {
      TokensSeparated(vs[0]);
      if |vs| > 1 {
        ElementTokensSeparated(vs[1..]);
        SeparatedConcat(Tokens(vs[0]), [COMMA]);
        SeparatedConcat(Tokens(vs[0]) + [COMMA], ElementTokens(vs[1..]));
      }
    }
  }

  lemma {:induction false} MemberTokensSeparated(m: seq<Slot>)
    requires forall k :: 0 <= k < |m| ==> RealFree(m[k].value)
    ensures Separated(MemberTokens(m))
    decreases SlotsDepth(m), 1, |m|
  {
    if m != [] {
      var name, value := [Quote(NameOf(m[0].key)), COLON], Tokens(m[0].value);
      TokensSeparated(m[0].value);
      SeparatedConcat(name, value);
      if |m| > 1 {
        MemberTokensSeparated(m[1..]);
        SeparatedConcat(name + value, [COMMA]);
        SeparatedConcat(name + value + [COMMA], MemberTokens(m[1..]));
      }
    }
  }

  lemma {:induction false} CompactSpelled(toks: seq<bytes>, yaml: bool, end: bytes)
    requires Proper(toks) && Separated(toks)
    requires end == [] || end == [0x0A]
    ensures Spelled(Compact(toks, yaml) + end, 0, toks)
  {
    hide Classify, Spelled;
    if toks == [] {
      SpelledBlank(end);
      assert Compact(toks, yaml) + end == end;
    } else {
      var t, rest := toks[0], Compact(toks[1..], yaml) + end;
      CompactSpelled(toks[1..], yaml, end);
      SpelledToken(t);
      PrintedSpelled(t, yaml);
      assert MayFollow([t], rest) by {
        if |toks| > 1 {
          SpelledToken(toks[1]);
          assert rest[0] == toks[1][0];
        }
      }
      SpelledAppend(Printed(t, yaml), 0, [t], rest, toks[1..]);
      assert [t] + toks[1..] == toks;
      assert Compact(toks, yaml) + end == Printed(t, yaml) + rest;
    }
  }

  lemma PrintedSpelled(t: bytes, yaml: bool)
    requires Classify(t) != ErrorToken
    ensures Spelled(Printed(t, yaml), 0, [t])
  {
    SpelledToken(t);
    if t == COLON && yaml {
      var doc := Printed(t, yaml);
      assert SkipSpaces(doc, 0) == 0 && doc[0..1] == COLON;
      assert [t][1..] == [];
    }
  }

  lemma SpelledBlank(text: bytes)
    requires forall k :: 0 <= k < |text| ==> IsSpace(text[k])
    ensures Spelled(text, 0, [])
  {
  }

  /** FastWriter::write */
  function FastText(v: Value, yaml: bool, omitEndingLineFeed: bool): bytes {
    Compact(Tokens(v), yaml) + if omitEndingLineFeed then [] else [0x0A]
  }

  /**
    * Print, then parse. Every tree without reals comes back as Norm of itself, and the parser stops at the end of
    * the text; a tree nested more deeply than the stack limit makes the parser throw.
    */
  lemma FastWriterRoundTrip(v: Value, yaml: bool, omitEndingLineFeed: bool, root: Value, doubles: bytes -> bool)
    requires Valid(v) && RealFree(v)
    ensures var doc := FastText(v, yaml, omitEndingLineFeed); var r := Parse(doc, root, doubles);
      if Nesting(v) <= STACK_LIMIT then r.Done? && r.ok && r.value == Norm(v) && SkipSpaces(doc, r.end) == |doc| else r.Thrown?
  {
    FastTextSpelled(v, yaml, omitEndingLineFeed);
    ParseSpelled(FastText(v, yaml, omitEndingLineFeed), v, root, doubles);
  }

  lemma FastTextSpelled(v: Value, yaml: bool, omitEndingLineFeed: bool)
    requires Valid(v) && RealFree(v)
    ensures Spelled(FastText(v, yaml, omitEndingLineFeed), 0, Tokens(v))
  {
    TokensProper(v);
    TokensSeparated(v);
    CompactSpelled(Tokens(v), yaml, if omitEndingLineFeed then [] else [0x0A]);
  }

  class FastWriter {
    var document_: bytes
    var yamlCompatibilityEnabled_: bool
    var omitEndingLineFeed_: bool

    constructor ()
      ensures document_ == [] && !yamlCompatibilityEnabled_ && !omitEndingLineFeed_
    {
      document_ := [];
      yamlCompatibilityEnabled_, omitEndingLineFeed_ := false, false;
    }

    method Write(root: Value) returns (text: bytes)
      requires Valid(root) && RealFree(root)
      modifies this
      ensures text == document_ == FastText(root, yamlCompatibilityEnabled_, omitEndingLineFeed_)
      ensures yamlCompatibilityEnabled_ == old(yamlCompatibilityEnabled_) && omitEndingLineFeed_ == old(omitEndingLineFeed_)
    {
      document_ := [];
      WriteValue(root);
      if !omitEndingLineFeed_ {
        document_ := document_ + [0x0A];
      }
      text := document_;
    }

    method WriteValue(value: Value)
      requires Valid(value) && RealFree(value)
      modifies this`document_
      ensures document_ == old(document_) + Compact(Tokens(value), yamlCompatibilityEnabled_)
      decreases Depth(value)
    {
      ghost var yaml := yamlCompatibilityEnabled_;
      match value
      case Null => Emit(NULL_TEXT);
      case Int(i) =>
        var text := SignedToString(i as int64);
        IntegerIsNumber(i);
        Emit(text);
      case UInt(u) =>
        var text := UnsignedToString(u as uint64);
        IntegerIsNumber(u);
        Emit(text);
      case String(s) =>
        var text := ValueToQuotedStringN(s);
        Emit(text);
      case Bool(b) => Emit(if b then TRUE_TEXT else FALSE_TEXT);
      case Array(m) =>
        WriteElements(value);
      case Object(m) =>
        WriteMembers(value);
    }

    /** Appends one token that is not a colon. */
    method Emit(text: bytes)
      requires text != COLON
      modifies this`document_
      ensures document_ == old(document_) + Compact([text], yamlCompatibilityEnabled_)
    {
      document_ := document_ + text;
      assert Compact([text], yamlCompatibilityEnabled_) == text + Compact([], yamlCompatibilityEnabled_);
    }

    /** The array case of writeValue. */
    method WriteElements(value: Value)
      requires value.Array? && Valid(value) && RealFree(value)
      modifies this`document_
      ensures document_ == old(document_) + Compact(Tokens(value), yamlCompatibilityEnabled_)
      decreases Depth(value), 0
    {
      hide Tokens, ElementTokens, ElementsRest, Fill, Valid, RealFree, Lookup, Printed, Compact;
      ghost var yaml, vs := yamlCompatibilityEnabled_, Fill(value.map_);
      ghost var goal := document_ + Compact(Tokens(value), yaml);
      var size := Size(value.map_);
      ArrayChildren(value);
      OpeningText(document_, value, yaml);
      document_ := document_ + [0x5B];
      var index := 0;
      while index < size
        invariant 0 <= index <= size
        invariant document_ + Compact(ElementsRest(vs, index), yaml) == goal
      {
        ElementText(document_, vs, index, yaml);
        AppendNone(document_);
        if index > 0 {
          document_ := document_ + [0x2C];
        }
        WriteValue(Lookup(value.map_, Index(index)));
        index := index + 1;
      }
      ElementsRestEnd(vs);
      PunctuationText(yaml);
      document_ := document_ + [0x5D];
    }

    /** The object case of writeValue. */
    method WriteMembers(value: Value)
      requires value.Object? && Valid(value) && RealFree(value)
      modifies this`document_
      ensures document_ == old(document_) + Compact(Tokens(value), yamlCompatibilityEnabled_)
      decreases Depth(value), 0
    {
      hide Tokens, MemberTokens, MembersRest, Valid, RealFree, Printed, Compact, Quote, KeysOk, Depth, SlotsDepth;
      ghost var yaml := yamlCompatibilityEnabled_;
      ghost var goal := document_ + Compact(Tokens(value), yaml);
      var members := value.map_;
      ObjectChildren(value);
      OpeningText(document_, value, yaml);
      document_ := document_ + [0x7B];
      var it := 0;
      while it < |members|
        invariant 0 <= it <= |members|
        invariant document_ + Compact(MembersRest(members, it), yaml) == goal
      {
        var name, child := members[it].key.name, members[it].value;
        var colon := if yamlCompatibilityEnabled_ then [0x3A, 0x20] else [0x3A];
        MemberText(document_, members, it, yaml);
        AppendNone(document_);
        if it > 0 {
          document_ := document_ + [0x2C];
        }
        var quoted := ValueToQuotedStringN(name);
        document_ := document_ + quoted;
        document_ := document_ + colon;
        WriteValue(child);
        it := it + 1;
      }
      MembersRestEnd(members);
      PunctuationText(yaml);
      document_ := document_ + [0x7D];
    }
  }

  lemma AppendNone(a: bytes)
    ensures a + [] == a
  {
  }

  lemma AppendTwo(doc: bytes, a: bytes, b: bytes, rest: bytes)
    ensures ((doc + a) + b) + rest == doc + (a + (b + rest))
  {
  }

  lemma AppendFour(doc: bytes, a: bytes, b: bytes, c: bytes, d: bytes, rest: bytes)
    ensures ((((doc + a) + b) + c) + d) + rest == doc + (a + ((b + c) + (d + rest)))
  {
    AppendTwo(doc, a, b, c + (d + rest));
    AppendTwo((doc + a) + b, c, d, rest);
    AppendTwo([], b, c, d + rest);
    assert [] + b == b && [] + (b + (c + (d + rest))) == b + (c + (d + rest));
  }

  // ----- The tokens still to be written -----

  lemma PunctuationText(yaml: bool)
    ensures Compact([], yaml) == [] && Compact([COMMA], yaml) == [0x2C]
    ensures Compact([LEFT_BRACKET], yaml) == [0x5B] && Compact([RIGHT_BRACKET], yaml) == [0x5D]
    ensures Compact([LEFT_BRACE], yaml) == [0x7B] && Compact([RIGHT_BRACE], yaml) == [0x7D]
  {
    assert Compact([COMMA], yaml) == COMMA + Compact([], yaml);
    assert Compact([LEFT_BRACKET], yaml) == LEFT_BRACKET + Compact([], yaml);
    assert Compact([RIGHT_BRACKET], yaml) == RIGHT_BRACKET + Compact([], yaml);
    assert Compact([LEFT_BRACE], yaml) == LEFT_BRACE + Compact([], yaml);
    assert Compact([RIGHT_BRACE], yaml) == RIGHT_BRACE + Compact([], yaml);
  }

  /** What follows once `index` elements are out: a comma unless this is the first or the last place, the elements left, the bracket. */
  function ElementsRest(vs: seq<Value>, index: nat): seq<bytes>
    requires index <= |vs|
  {
    (if index == 0 || index == |vs| then [] else [COMMA]) + (ElementTokens(vs[index..]) + [RIGHT_BRACKET])
  }

  lemma ArrayRest(value: Value)
    requires value.Array?
    ensures Tokens(value) == [LEFT_BRACKET] + ElementsRest(Fill(value.map_), 0)
  {
    var vs := Fill(value.map_);
    assert vs[0..] == vs;
  }

  lemma ElementsRestEnd(vs: seq<Value>)
    ensures ElementsRest(vs, |vs|) == [RIGHT_BRACKET]
  {
  }

  lemma ElementsRestStep(vs: seq<Value>, index: nat)
    requires index < |vs|
    ensures ElementsRest(vs, index) == (if index == 0 then [] else [COMMA]) + (Tokens(vs[index]) + ElementsRest(vs, index + 1))
  {
    var rest := vs[index..];
    assert rest[0] == vs[index] && rest[1..] == vs[index + 1..];
    if |rest| == 1 {
      assert ElementTokens(vs[index + 1..]) == [];
      assert ElementTokens(rest) == Tokens(vs[index]);
    } else {
      ElementTokensMore(rest);
      Regroup3(Tokens(vs[index]), [COMMA], ElementTokens(vs[index + 1..]), [RIGHT_BRACKET]);
    }
  }

  lemma ElementTokensMore(vs: seq<Value>)
    requires |vs| > 1
    ensures ElementTokens(vs) == Tokens(vs[0]) + [COMMA] + ElementTokens(vs[1..])
  {
  }

  lemma Regroup3(a: seq<bytes>, b: seq<bytes>, c: seq<bytes>, d: seq<bytes>)
    ensures (a + b + c) + d == a + (b + (c + d))
  {
  }

  function MembersRest(m: seq<Slot>, it: nat): seq<bytes>
    requires it <= |m|
  {
    (if it == 0 || it == |m| then [] else [COMMA]) + (MemberTokens(m[it..]) + [RIGHT_BRACE])
  }

  lemma ObjectRest(value: Value)
    requires value.Object?
    ensures Tokens(value) == [LEFT_BRACE] + MembersRest(value.map_, 0)
  {
    assert value.map_[0..] == value.map_;
  }

  lemma MembersRestEnd(m: seq<Slot>)
    ensures MembersRest(m, |m|) == [RIGHT_BRACE]
  {
    NoMembers();
  }

  lemma MembersRestStep(m: seq<Slot>, it: nat)
    requires it < |m|
    ensures MembersRest(m, it)
         == (if it == 0 then [] else [COMMA]) + ([Quote(NameOf(m[it].key)), COLON] + (Tokens(m[it].value) + MembersRest(m, it + 1)))
  {
    var rest := m[it..];
    var name, value := [Quote(NameOf(m[it].key)), COLON], Tokens(m[it].value);
    assert rest[0] == m[it] && rest[1..] == m[it + 1..];
    NoMembers();
    hide MemberTokens, Tokens, Quote;
    if |rest| == 1 {
      OneMember(rest);
      Associative(name, value, [RIGHT_BRACE]);
    } else {
      MoreMembers(rest);
      Regroup3(name + value, [COMMA], MemberTokens(m[it + 1..]), [RIGHT_BRACE]);
      Associative(name, value, [COMMA] + (MemberTokens(m[it + 1..]) + [RIGHT_BRACE]));
    }
  }

  lemma OpeningText(doc: bytes, value: Value, yaml: bool)
    ensures value.Array? ==>
      (doc + [0x5B]) + Compact(ElementsRest(Fill(value.map_), 0), yaml) == doc + Compact(Tokens(value), yaml)
    ensures value.Object? ==>
      (doc + [0x7B]) + Compact(MembersRest(value.map_, 0), yaml) == doc + Compact(Tokens(value), yaml)
  {
    hide Compact;
    PunctuationText(yaml);
    if value.Array? {
      ArrayRest(value);
      CompactConcat([LEFT_BRACKET], ElementsRest(Fill(value.map_), 0), yaml);
    } else if value.Object? {
      ObjectRest(value);
      CompactConcat([LEFT_BRACE], MembersRest(value.map_, 0), yaml);
    }
  }

  lemma ElementText(doc: bytes, vs: seq<Value>, index: nat, yaml: bool)
    requires index < |vs|
    ensures ((doc + if index == 0 then [] else [0x2C]) + Compact(Tokens(vs[index]), yaml)) + Compact(ElementsRest(vs, index + 1), yaml)
         == doc + Compact(ElementsRest(vs, index), yaml)
  {
    hide Compact, Tokens, ElementsRest;
    var head, first, rest := if index == 0 then [] else [COMMA], Tokens(vs[index]), ElementsRest(vs, index + 1);
    ElementsRestStep(vs, index);
    PunctuationText(yaml);
    CompactConcat(head, first + rest, yaml);
    CompactConcat(first, rest, yaml);
    AppendTwo(doc, Compact(head, yaml), Compact(first, yaml), Compact(rest, yaml));
  }

  lemma MemberText(doc: bytes, m: seq<Slot>, it: nat, yaml: bool)
    requires it < |m|
    ensures ((((doc + if it == 0 then [] else [0x2C]) + Quote(NameOf(m[it].key))) + if yaml then [0x3A, 0x20] else [0x3A])
             + Compact(Tokens(m[it].value), yaml)) + Compact(MembersRest(m, it + 1), yaml)
         == doc + Compact(MembersRest(m, it), yaml)
  {
    hide Compact, Tokens, MembersRest, Quote;
    var head, quoted := if it == 0 then [] else [COMMA], Quote(NameOf(m[it].key));
    var first, rest := Tokens(m[it].value), MembersRest(m, it + 1);
    MembersRestStep(m, it);
    PunctuationText(yaml);
    NamePrinted(NameOf(m[it].key), yaml);
    CompactConcat(head, [quoted, COLON] + (first + rest), yaml);
    CompactConcat([quoted, COLON], first + rest, yaml);
    CompactConcat(first, rest, yaml);
    AppendFour(doc, Compact(head, yaml), quoted, if yaml then [0x3A, 0x20] else [0x3A], Compact(first, yaml), Compact(rest, yaml));
  }

  /** The elements of a valid array are valid, and less deep than the array. */
  lemma ArrayChildren(value: Value)
    requires value.Array? && Valid(value) && RealFree(value)
    ensures var vs := Fill(value.map_);
      forall k :: 0 <= k < |vs| ==> vs[k] == Lookup(value.map_, Index(k)) && Valid(vs[k]) && RealFree(vs[k]) && Depth(vs[k]) < Depth(value)
  {
    FillValid(value);
    forall k | 0 <= k < |Fill(value.map_)| ensures Depth(Fill(value.map_)[k]) < Depth(value) {
      LookupDepth(value.map_, Index(k));
    }
  }

  lemma ObjectChildren(value: Value)
    requires value.Object? && Valid(value) && RealFree(value)
    ensures forall k :: 0 <= k < |value.map_| ==>
      var slot := value.map_[k]; slot.key.Name? && Valid(slot.value) && RealFree(slot.value) && Depth(slot.value) < Depth(value)
  {
    forall k | 0 <= k < |value.map_| ensures Depth(value.map_[k].value) < Depth(value) {
      SlotDepthBound(value.map_, k);
    }
  }

  lemma NamePrinted(name: bytes, yaml: bool)
    ensures Compact([Quote(name), COLON], yaml) == Quote(name) + if yaml then [0x3A, 0x20] else [0x3A]
  {
    assert Quote(name) != COLON;
    assert Compact([Quote(name), COLON][1..], yaml) == Printed(COLON, yaml) + Compact([], yaml);
  }

  lemma {:induction false} SlotDepthBound(m: seq<Slot>, k: nat)
    requires k < |m|
    ensures Depth(m[k].value) <= SlotsDepth(m)
  {
    if k > 0 {
      SlotDepthBound(m[1..], k - 1);
    }
  }
}
