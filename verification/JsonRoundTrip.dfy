/** Reading a text that spells the tokens of a value gives that value back. */
module JsonRoundTrip {
  import opened Bytes
  import opened JsonNumbers
  import opened JsonStrings
  import opened JsonTokens
  import opened JsonValue
  import opened JsonReader
  import opened JsonText

  // ----- One token -----

  /** The type readToken gives to a token text that stands alone. */
  function Classify(t: bytes): TokenType {
    if t == LEFT_BRACE then ObjectBegin
    else if t == RIGHT_BRACE then ObjectEnd
    else if t == LEFT_BRACKET then ArrayBegin
    else if t == RIGHT_BRACKET then ArrayEnd
    else if t == COMMA then ArraySeparator
    else if t == COLON then MemberSeparator
    else if t == TRUE_TEXT then TrueToken
    else if t == FALSE_TEXT then FalseToken
    else if t == NULL_TEXT then NullToken
    else if IsNumberText(t) && Magnitude(t) != [] && AllDigits(Magnitude(t)) then NumberToken
    else if |t| >= 2 && t[0] == QUOTE && StringEnd(t, 1) == Some(|t|) then StringToken
    else ErrorToken
  }

  lemma {:induction false} StringEndAt(doc: bytes, k: nat, t: bytes, j: nat)
    requires At(doc, k, t) && StringEnd(t, j).Some?
    ensures StringEnd(doc, k + j) == Some(k + StringEnd(t, j).value)
    decreases |t| - j
  {
    assert doc[k + j] == t[j] by {
      assert doc[k..k + |t|][j] == doc[k + j];
    }
    if t[j] == BACKSLASH {
      StringEndAt(doc, k, t, j + 2);
    } else if t[j] != QUOTE {
      StringEndAt(doc, k, t, j + 1);
    }
  }

  lemma {:induction false} DigitsEndAt(doc: bytes, i: nat, j: nat)
    requires i <= j <= |doc|
    requires forall k :: i <= k < j ==> IsDigit(doc[k])
    requires j < |doc| ==> !IsDigit(doc[j])
    ensures DigitsEnd(doc, i) == j
    decreases j - i
  {
    if i < j {
      DigitsEndAt(doc, i + 1, j);
    }
  }

  lemma ElementAt(doc: bytes, k: nat, t: bytes, j: nat)
    requires At(doc, k, t) && j < |t|
    ensures doc[k + j] == t[j]
  {
    assert doc[k..k + |t|][j] == doc[k + j];
  }

  lemma NumberEndAt(doc: bytes, k: nat, t: bytes)
    requires At(doc, k, t) && Classify(t) == NumberToken
    requires k + |t| < |doc| ==> StopsNumber(doc[k + |t|])
    ensures NumberEnd(doc, k + 1) == k + |t|
  {
    forall m | k + 1 <= m < k + |t| ensures IsDigit(doc[m]) {
      ElementAt(doc, k, t, m - k);
      assert Negative(t) ==> t[m - k] == Magnitude(t)[m - k - 1];
    }
    DigitsEndAt(doc, k + 1, k + |t|);
  }

  lemma KeywordAt(doc: bytes, k: nat, t: bytes, rest: bytes, type_: TokenType)
    requires t != [] && At(doc, k, t) && t == [t[0]] + rest
    ensures k < |doc| && Keyword(doc, k, rest, type_) == Token(type_, k, k + |t|)
  {
    assert doc[k + 1..k + 1 + |rest|] == doc[k..k + |t|][1..];
  }

  /** readToken at a place where a token stands. */
  lemma TokenAt(doc: bytes, i: nat, t: bytes)
    requires i <= |doc| && Classify(t) != ErrorToken && At(doc, SkipSpaces(doc, i), t)
    requires var e := SkipSpaces(doc, i) + |t|; Classify(t) == NumberToken && e < |doc| ==> StopsNumber(doc[e])
    ensures ReadToken(doc, i) == Token(Classify(t), SkipSpaces(doc, i), SkipSpaces(doc, i) + |t|)
  {
    hide *;
    match Classify(t)
    case NumberToken => NumberTokenAt(doc, i, t);
    case StringToken => StringTokenAt(doc, i, t);
    case _ => FixedTokenAt(doc, i, t);
  }

  lemma NumberTokenAt(doc: bytes, i: nat, t: bytes)
    requires i <= |doc| && Classify(t) == NumberToken && At(doc, SkipSpaces(doc, i), t)
    requires var e := SkipSpaces(doc, i) + |t|; e < |doc| ==> StopsNumber(doc[e])
    ensures ReadToken(doc, i) == Token(NumberToken, SkipSpaces(doc, i), SkipSpaces(doc, i) + |t|)
  {
    var k := SkipSpaces(doc, i);
    ElementAt(doc, k, t, 0);
    NumberEndAt(doc, k, t);
    hide SkipSpaces, NumberEnd, StringEnd, Keyword, CommentEnd, At, StopsNumber;
  }

  lemma StringTokenAt(doc: bytes, i: nat, t: bytes)
    requires i <= |doc| && Classify(t) == StringToken && At(doc, SkipSpaces(doc, i), t)
    ensures ReadToken(doc, i) == Token(StringToken, SkipSpaces(doc, i), SkipSpaces(doc, i) + |t|)
  {
    var k := SkipSpaces(doc, i);
    ElementAt(doc, k, t, 0);
    StringEndAt(doc, k, t, 1);
    hide SkipSpaces, NumberEnd, StringEnd, Keyword, CommentEnd, At;
  }

  /** The tokens with only one spelling. */
  lemma FixedTokenAt(doc: bytes, i: nat, t: bytes)
    requires i <= |doc| && Classify(t) !in {ErrorToken, NumberToken, StringToken} && At(doc, SkipSpaces(doc, i), t)
    ensures ReadToken(doc, i) == Token(Classify(t), SkipSpaces(doc, i), SkipSpaces(doc, i) + |t|)
  {
    hide SkipSpaces, NumberEnd, StringEnd, Keyword, CommentEnd;
    var k := SkipSpaces(doc, i);
    ElementAt(doc, k, t, 0);
    match Classify(t)
    case TrueToken => KeywordAt(doc, k, t, RUE, TrueToken);
    case FalseToken => KeywordAt(doc, k, t, ALSE, FalseToken);
    case NullToken => KeywordAt(doc, k, t, ULL, NullToken);
    case _ =>
  }

  /** readToken on a spelled text returns its first token and leaves the others spelled. */
  lemma ReadsToken(doc: bytes, i: nat, t: bytes, rest: seq<bytes>)
    requires Classify(t) != ErrorToken && Spelled(doc, i, [t] + rest)
    ensures var r := ReadToken(doc, i); r.type_ == Classify(t) && doc[r.start..r.end] == t && Spelled(doc, r.end, rest)
    ensures NextToken(doc, i) == ReadToken(doc, i)
  {
    hide *;
    SpelledFirst(doc, i, t, rest);
    NotComment(t);
    TokenAt(doc, i, t);
    NextIsRead(doc, i);
  }

  lemma SpelledFirst(doc: bytes, i: nat, t: bytes, rest: seq<bytes>)
    requires Spelled(doc, i, [t] + rest)
    ensures i <= |doc|
    ensures var k := SkipSpaces(doc, i);
      && At(doc, k, t) && k + |t| <= |doc| && doc[k..k + |t|] == t
      && (IsNumberText(t) && k + |t| < |doc| ==> StopsNumber(doc[k + |t|]))
      && Spelled(doc, k + |t|, rest)
  {
    assert ([t] + rest)[0] == t && ([t] + rest)[1..] == rest;
    hide IsNumberText, StopsNumber;
  }

  lemma NextIsRead(doc: bytes, i: nat)
    requires i <= |doc|
    ensures ReadToken(doc, i).type_ != CommentToken ==> NextToken(doc, i) == ReadToken(doc, i)
  {
    hide ReadToken;
  }

  lemma NotComment(t: bytes)
    ensures Classify(t) != CommentToken
    ensures Classify(t) == NumberToken ==> IsNumberText(t)
  {
  }

  lemma Punctuation()
    ensures Classify(LEFT_BRACE) == ObjectBegin && Classify(RIGHT_BRACE) == ObjectEnd
    ensures Classify(LEFT_BRACKET) == ArrayBegin && Classify(RIGHT_BRACKET) == ArrayEnd
    ensures Classify(COMMA) == ArraySeparator && Classify(COLON) == MemberSeparator
    ensures Classify(TRUE_TEXT) == TrueToken && Classify(FALSE_TEXT) == FalseToken && Classify(NULL_TEXT) == NullToken
  {
    assert |LEFT_BRACE| == |RIGHT_BRACE| == |LEFT_BRACKET| == |RIGHT_BRACKET| == |COMMA| == |COLON| == 1;
    assert TRUE_TEXT[0] == 0x74 && FALSE_TEXT[0] == 0x66 && NULL_TEXT[0] == 0x6E;
    assert |TRUE_TEXT| == 4 && |FALSE_TEXT| == 5 && |NULL_TEXT| == 4;
  }

  // ----- The token texts -----

  lemma {:induction false} ClosingQuote(cps: seq<int>)
    requires forall i :: 0 <= i < |cps| ==> IsEmittable(cps[i])
    ensures StringEnd(EscapeAll(cps) + [QUOTE], 0) == Some(|EscapeAll(cps)| + 1)
  {
    hide Escape, IsEmittable, StringEnd;
    if cps == [] {
      LoneQuote();
      assert EscapeAll(cps) + [QUOTE] == [QUOTE];
    } else {
      ClosingQuote(cps[1..]);
      QuoteBehind(cps[0], EscapeAll(cps[1..]) + [QUOTE]);
      Associative(Escape(cps[0]), EscapeAll(cps[1..]), [QUOTE]);
    }
  }

  lemma LoneQuote()
    ensures StringEnd([QUOTE], 0) == Some(1)
  {
  }

  lemma QuoteBehind(cp: int, tail: bytes)
    requires IsEmittable(cp) && StringEnd(tail, 0).Some?
    ensures StringEnd(Escape(cp) + tail, 0) == Some(|Escape(cp)| + StringEnd(tail, 0).value)
  {
    hide *;
    Behind(Escape(cp), tail);
    StringEndAt(Escape(cp) + tail, |Escape(cp)|, tail, 0);
    EscapeHasNoQuote(cp, tail);
  }

  lemma Behind(text: bytes, tail: bytes)
    ensures At(text + tail, |text|, tail)
  {
  }

  /** readString steps over an escaped code point. */
  lemma EscapeHasNoQuote(cp: int, tail: bytes)
    requires IsEmittable(cp)
    ensures StringEnd(Escape(cp) + tail, 0) == StringEnd(Escape(cp) + tail, |Escape(cp)|)
  {
    var text := Escape(cp) + tail;
    if ShortEscape(cp) == 0 && !(0x20 <= cp < 0x80) {
      HexEscapeHasNoQuote(text, 0);
      if cp >= 0x1_0000 {
        HexEscapeHasNoQuote(text, 6);
      }
    }
  }

  lemma HexEscapeHasNoQuote(text: bytes, i: nat)
    requires i + 6 <= |text| && text[i] == BACKSLASH
    requires forall k :: i + 2 <= k < i + 6 ==> text[k] != QUOTE && text[k] != BACKSLASH
    ensures StringEnd(text, i) == StringEnd(text, i + 6)
  {
    assert StringEnd(text, i) == StringEnd(text, i + 2);
    assert StringEnd(text, i + 2) == StringEnd(text, i + 3);
    assert StringEnd(text, i + 3) == StringEnd(text, i + 4);
    assert StringEnd(text, i + 4) == StringEnd(text, i + 5);
  }

  lemma QuoteIsString(s: bytes)
    ensures Classify(Quote(s)) == StringToken
  {
    var body := EscapeAll(CodePoints(s)) + [QUOTE];
    ClosingQuote(CodePoints(s));
    hide *;
    QuoteParts(s, body);
    StringEndAt(Quote(s), 1, body, 0);
    StringClass(Quote(s));
  }

  lemma QuoteParts(s: bytes, body: bytes)
    requires body == EscapeAll(CodePoints(s)) + [QUOTE]
    ensures Quote(s) == [QUOTE] + body && At(Quote(s), 1, body)
  {
    assert Quote(s) == [QUOTE] + body;
    hide Quote, EscapeAll, CodePoints;
  }

  lemma StringClass(t: bytes)
    requires |t| >= 2 && t[0] == QUOTE && StringEnd(t, 1) == Some(|t|)
    ensures Classify(t) == StringToken
  {
    hide StringEnd;
  }

  lemma IntegerIsNumber(i: int)
    ensures Classify(PrintInteger(i)) == NumberToken
  {
    var t := PrintInteger(i);
    if i < 0 {
      assert t[1..] == Digits(-i);
    } else {
      assert IsDigit(t[0]);
    }
  }

  // ----- Values -----

  /**
    * Reading where the tokens of v and then `rest` are spelled yields Norm(v) and stops exactly before `rest`,
    * unless the nesting exceeds the stack limit: then it throws.
    */
  ghost predicate ReadsAs(r: Outcome, doc: bytes, fits: bool, value: Value, rest: seq<bytes>) {
    if fits then r.Done? && r.ok && r.value == value && Spelled(doc, r.end, rest) else r.Thrown?
  }

  lemma {:induction false} ReadsValue(doc: bytes, i: nat, v: Value, rest: seq<bytes>, depth: nat, held: Value, doubles: bytes -> bool)
    requires Valid(v) && RealFree(v) && Spelled(doc, i, Tokens(v) + rest)
    requires depth >= 1
    ensures ReadsAs(ReadValue(doc, i, depth, held, doubles), doc, depth + Nesting(v) - 1 <= STACK_LIMIT, Norm(v), rest)
    decreases Depth(v), 0, 0
  {
    hide Spelled, ReadToken, Classify, StringEnd, ReadMembers, ReadElements, Recover, Decode, NumberValue, MemberTokens, NormMembers;
    Punctuation();
    if depth <= STACK_LIMIT {
      match v
      case Array(m) => ReadsArray(doc, i, v, rest, depth, held, doubles);
      case Object(m) =>
        assert Tokens(v) + rest == [LEFT_BRACE] + (MemberTokens(m) + ([RIGHT_BRACE] + rest));
        ReadsToken(doc, i, LEFT_BRACE, MemberTokens(m) + ([RIGHT_BRACE] + rest));
        ReadsMembers(doc, NextToken(doc, i).end, m, rest, depth, [], [], doubles);
      case _ => ReadsScalar(doc, i, v, rest, depth, held, doubles);
    }
  }

  lemma ReadsScalar(doc: bytes, i: nat, v: Value, rest: seq<bytes>, depth: nat, held: Value, doubles: bytes -> bool)
    requires Valid(v) && RealFree(v) && !v.Array? && !v.Object? && Spelled(doc, i, Tokens(v) + rest)
    requires depth <= STACK_LIMIT
    ensures ReadsAs(ReadValue(doc, i, depth, held, doubles), doc, true, Norm(v), rest)
  {
    hide Spelled, ReadToken, Classify, StringEnd, Decode, NumberOf, Quote, PrintInteger, Digits, Canon, NextToken;
    Punctuation();
    match v
    case Int(n) => ReadsInteger(doc, i, n, rest, doubles);
    case UInt(n) => ReadsInteger(doc, i, n, rest, doubles);
    case String(s) => ReadsName(doc, i, s, rest);
    case Bool(b) => ReadsToken(doc, i, if b then TRUE_TEXT else FALSE_TEXT, rest);
    case Null => ReadsToken(doc, i, NULL_TEXT, rest);
  }

  lemma ReadsInteger(doc: bytes, i: nat, n: int, rest: seq<bytes>, doubles: bytes -> bool)
    requires MIN_LARGEST_INT as int <= n <= MAX_LARGEST_UINT as int && Spelled(doc, i, [PrintInteger(n)] + rest)
    ensures var t := NextToken(doc, i);
      t.type_ == NumberToken && NumberOf(doc[t.start..t.end]) == Retag(n) && Spelled(doc, t.end, rest)
  {
    hide Spelled, ReadToken, Classify, NextToken;
    IntegerIsNumber(n);
    ReadsToken(doc, i, PrintInteger(n), rest);
    IntegerRoundTrip(n);
  }

  lemma {:induction false} ReadsArray(doc: bytes, i: nat, v: Value, rest: seq<bytes>, depth: nat, held: Value, doubles: bytes -> bool)
    requires v.Array? && Valid(v) && RealFree(v) && Spelled(doc, i, Tokens(v) + rest)
    requires 1 <= depth <= STACK_LIMIT
    ensures ReadsAs(ReadValue(doc, i, depth, held, doubles), doc, depth + Nesting(v) - 1 <= STACK_LIMIT, Norm(v), rest)
    decreases SlotsDepth(v.map_), 3, 0
  {
    var vs := Fill(v.map_);
    ArrayHead(doc, i, v, rest);
    OpensArray(doc, i, depth, held, doubles);
    var j := SkipSpaces(doc, NextToken(doc, i).end);
    hide Spelled, ReadToken, Classify, Fill, ReadElements, Recover, NormElements, ElementTokens, Tokens, NextToken, SkipSpaces, ReadValue, Valid, RealFree;
    Punctuation();
    if vs == [] {
      NoElements();
      ReadsToken(doc, j, RIGHT_BRACKET, rest);
    } else {
      FillValid(v);
      ReadsElements(doc, j, vs, rest, depth, [], 0, doubles);
    }
  }

  /** The opening bracket is read, and what stands after it is the first element or the closing bracket. */
  lemma ArrayHead(doc: bytes, i: nat, v: Value, rest: seq<bytes>)
    requires v.Array? && Valid(v) && RealFree(v) && Spelled(doc, i, Tokens(v) + rest)
    ensures NextToken(doc, i).type_ == ArrayBegin
    ensures var vs, j := Fill(v.map_), SkipSpaces(doc, NextToken(doc, i).end);
      && Spelled(doc, j, if vs == [] then [RIGHT_BRACKET] + rest else ElementTokens(vs) + ([RIGHT_BRACKET] + rest))
      && (Sees(doc, j, 0x5D) <==> vs == [])
  {
    var vs := Fill(v.map_);
    var inner := ElementTokens(vs) + ([RIGHT_BRACKET] + rest);
    ArrayTokens(v, rest);
    FillValid(v);
    hide Spelled, ReadToken, Classify, Fill, ElementTokens, Tokens, NextToken, SkipSpaces, Valid, RealFree;
    Punctuation();
    ReadsToken(doc, i, LEFT_BRACKET, inner);
    SpelledAfterSpaces(doc, NextToken(doc, i).end, inner);
    if vs == [] {
      NoElements();
      assert inner == [RIGHT_BRACKET] + rest;
    } else {
      ElementTokensFirst(vs);
      assert inner[0] == Tokens(vs[0])[0];
      FirstToken(vs[0]);
    }
  }

  lemma OpensArray(doc: bytes, i: nat, depth: nat, held: Value, doubles: bytes -> bool)
    requires i <= |doc| && depth <= STACK_LIMIT && NextToken(doc, i).type_ == ArrayBegin
    ensures var j := SkipSpaces(doc, NextToken(doc, i).end);
      ReadValue(doc, i, depth, held, doubles)
      == if Sees(doc, j, 0x5D) then Done(true, ReadToken(doc, j).end, Array([])) else ReadElements(doc, j, depth, [], 0, doubles)
  {
  }

  lemma ArrayTokens(v: Value, rest: seq<bytes>)
    requires v.Array?
    ensures Tokens(v) + rest == [LEFT_BRACKET] + (ElementTokens(Fill(v.map_)) + ([RIGHT_BRACKET] + rest))
  {
  }

  lemma NoElements()
    ensures ElementTokens([]) == [] && NormElements([], [], 0) == []
  {
  }

  lemma ElementTokensFirst(vs: seq<Value>)
    requires vs != []
    ensures ElementTokens(vs) != [] && ElementTokens(vs)[0] == Tokens(vs[0])[0]
  {
  }

  lemma {:induction false} ReadsElements(doc: bytes, i: nat, vs: seq<Value>, rest: seq<bytes>, depth: nat, done: seq<Slot>, index: nat, doubles: bytes -> bool)
    requires vs != [] && (forall k :: 0 <= k < |vs| ==> Valid(vs[k]) && RealFree(vs[k]))
    requires Spelled(doc, i, ElementTokens(vs) + ([RIGHT_BRACKET] + rest))
    requires 1 <= depth <= STACK_LIMIT
    ensures ReadsAs(ReadElements(doc, i, depth, done, index, doubles), doc, depth + ElementsNesting(vs) <= STACK_LIMIT,
                    Array(NormElements(done, vs, index)), rest)
    decreases MaxDepth(vs), 2, |vs|
  {
    hide Spelled, ReadToken, Classify, StringEnd, NextToken, ReadValue, Recover, Put, Lookup, Valid, RealFree, Tokens, Norm;
    Punctuation();
    var after := if |vs| == 1 then [RIGHT_BRACKET] + rest else [COMMA] + (ElementTokens(vs[1..]) + ([RIGHT_BRACKET] + rest));
    assert ElementTokens(vs) + ([RIGHT_BRACKET] + rest) == Tokens(vs[0]) + after;
    ReadsValue(doc, i, vs[0], after, depth + 1, Lookup(done, Index(index)), doubles);
    if depth + Nesting(vs[0]) <= STACK_LIMIT {
      var p := ReadValue(doc, i, depth + 1, Lookup(done, Index(index)), doubles).end;
      var done' := Put(done, Index(index), Norm(vs[0]));
      if |vs| == 1 {
        ReadsToken(doc, p, RIGHT_BRACKET, rest);
        assert ElementsNesting(vs[1..]) == 0;
        assert NormElements(done', vs[1..], index + 1) == done';
      } else {
        ReadsToken(doc, p, COMMA, ElementTokens(vs[1..]) + ([RIGHT_BRACKET] + rest));
        ReadsElements(doc, NextToken(doc, p).end, vs[1..], rest, depth, done', index + 1, doubles);
      }
    }
  }

  /** What follows the first member, up to and including `rest`. */
  function AfterMember(m: seq<Slot>, rest: seq<bytes>): seq<bytes>
    requires m != []
  {
    if |m| == 1 then [RIGHT_BRACE] + rest else [COMMA] + (MemberTokens(m[1..]) + ([RIGHT_BRACE] + rest))
  }

  lemma MemberTokensSplit(m: seq<Slot>, rest: seq<bytes>)
    requires m != []
    ensures MemberTokens(m) + ([RIGHT_BRACE] + rest)
         == [Quote(NameOf(m[0].key))] + ([COLON] + (Tokens(m[0].value) + AfterMember(m, rest)))
  {
    hide Quote, Tokens, MemberTokens, SlotsDepth;
    var quoted, value := Quote(NameOf(m[0].key)), Tokens(m[0].value);
    if |m| == 1 {
      OneMember(m);
      RegroupOne(quoted, COLON, value, [RIGHT_BRACE] + rest);
    } else {
      MoreMembers(m);
      RegroupMore(quoted, COLON, value, COMMA, MemberTokens(m[1..]), [RIGHT_BRACE] + rest);
    }
  }

  lemma RegroupOne(a: bytes, b: bytes, c: seq<bytes>, e: seq<bytes>)
    ensures ([a, b] + c) + e == [a] + ([b] + (c + e))
  {
  }

  lemma RegroupMore(a: bytes, b: bytes, c: seq<bytes>, d: bytes, m: seq<bytes>, e: seq<bytes>)
    ensures ([a, b] + c + [d] + m) + e == [a] + ([b] + (c + ([d] + (m + e))))
  {
    assert [a, b] + c + [d] + m == [a, b] + c + ([d] + m);
    assert ([d] + m) + e == [d] + (m + e);
    RegroupOne(a, b, c + ([d] + m), e);
    assert (c + ([d] + m)) + e == c + ([d] + (m + e));
  }

  lemma NoMembers()
    ensures MemberTokens([]) == []
  {
  }

  lemma OneMember(m: seq<Slot>)
    requires |m| == 1
    ensures MemberTokens(m) == [Quote(NameOf(m[0].key)), COLON] + Tokens(m[0].value)
  {
  }

  lemma MoreMembers(m: seq<Slot>)
    requires |m| > 1
    ensures MemberTokens(m) == [Quote(NameOf(m[0].key)), COLON] + Tokens(m[0].value) + [COMMA] + MemberTokens(m[1..])
  {
  }

  predicate Members(m: seq<Slot>) {
    forall k :: 0 <= k < |m| ==> m[k].key.Name? && Valid(m[k].value) && RealFree(m[k].value)
  }

  lemma {:induction false} ReadsMembers(doc: bytes, i: nat, m: seq<Slot>, rest: seq<bytes>, depth: nat, done: seq<Slot>, name: bytes, doubles: bytes -> bool)
    requires Members(m) && (m == [] ==> name == [])
    requires Spelled(doc, i, MemberTokens(m) + ([RIGHT_BRACE] + rest))
    requires 1 <= depth <= STACK_LIMIT
    ensures ReadsAs(ReadMembers(doc, i, depth, done, name, doubles), doc, depth + MembersNesting(m) <= STACK_LIMIT,
                    Object(NormMembers(done, m)), rest)
    decreases SlotsDepth(m), 2, 2 * |m|
  {
    hide Spelled, ReadToken, Classify, StringEnd, Quote, Canon, Decode, Put, Lookup, Recover, ReadValue, NextToken, Tokens, Norm, Nesting, Valid, RealFree, AfterMember, MemberTokens;
    Punctuation();
    if m == [] {
      NoMembers();
      assert MemberTokens(m) + ([RIGHT_BRACE] + rest) == [RIGHT_BRACE] + rest;
      ReadsToken(doc, i, RIGHT_BRACE, rest);
    } else {
      var v, after := m[0].value, AfterMember(m, rest);
      MemberTokensSplit(m, rest);
      ReadsName(doc, i, m[0].key.name, [COLON] + (Tokens(v) + after));
      var t := NextToken(doc, i);
      ReadsToken(doc, t.end, COLON, Tokens(v) + after);
      var colon := ReadToken(doc, t.end);
      var key := Name(Canon(m[0].key.name));
      ReadsValue(doc, colon.end, v, after, depth + 1, Lookup(done, key), doubles);
      if depth + Nesting(v) <= STACK_LIMIT {
        ReadsAfterMember(doc, ReadValue(doc, colon.end, depth + 1, Lookup(done, key), doubles).end, m, rest, depth, Put(done, key, Norm(v)), key.name, doubles);
      }
    }
  }

  /** The comma or closing brace after a member, and the members that follow. */
  lemma {:induction false} ReadsAfterMember(doc: bytes, p: nat, m: seq<Slot>, rest: seq<bytes>, depth: nat, done: seq<Slot>, name: bytes, doubles: bytes -> bool)
    requires m != [] && Members(m) && Spelled(doc, p, AfterMember(m, rest))
    requires 1 <= depth <= STACK_LIMIT
    ensures var comma := NextToken(doc, p);
      if |m| == 1 then comma.type_ == ObjectEnd && Spelled(doc, comma.end, rest) && MembersNesting(m[1..]) == 0 && NormMembers(done, m[1..]) == done
      else
        && comma.type_ == ArraySeparator
        && ReadsAs(ReadMembers(doc, comma.end, depth, done, name, doubles), doc, depth + MembersNesting(m[1..]) <= STACK_LIMIT,
                   Object(NormMembers(done, m[1..])), rest)
    decreases SlotsDepth(m), 2, 2 * |m| - 1
  {
    hide Spelled, ReadToken, Classify, StringEnd, NextToken, ReadMembers, MemberTokens, Valid, RealFree;
    Punctuation();
    if |m| == 1 {
      ReadsToken(doc, p, RIGHT_BRACE, rest);
    } else {
      ReadsToken(doc, p, COMMA, MemberTokens(m[1..]) + ([RIGHT_BRACE] + rest));
      ReadsMembers(doc, NextToken(doc, p).end, m[1..], rest, depth, done, name, doubles);
    }
  }

  lemma ReadsName(doc: bytes, i: nat, name: bytes, rest: seq<bytes>)
    requires Spelled(doc, i, [Quote(name)] + rest)
    ensures var t := NextToken(doc, i);
      t.type_ == StringToken && Decode(doc[t.start + 1..t.end - 1]) == Some(Canon(name)) && Spelled(doc, t.end, rest)
  {
    hide Spelled, ReadToken, Classify, StringEnd, Quote, Decode;
    QuoteIsString(name);
    ReadsToken(doc, i, Quote(name), rest);
    StringRoundTrip(name);
    var t := NextToken(doc, i);
    Inside(doc, t.start, t.end, Quote(name));
  }

  lemma Inside(doc: bytes, a: nat, b: nat, text: bytes)
    requires a <= b <= |doc| && doc[a..b] == text && |text| >= 2
    ensures doc[a + 1..b - 1] == text[1..|text| - 1]
  {
    assert |doc[a..b]| == b - a;
    var inner, body := doc[a + 1..b - 1], text[1..|text| - 1];
    forall k | 0 <= k < |inner| ensures inner[k] == body[k] {
      assert doc[a..b][k + 1] == doc[a + 1 + k];
    }
  }

  lemma SpelledAfterSpaces(doc: bytes, i: nat, toks: seq<bytes>)
    requires Spelled(doc, i, toks)
    ensures Spelled(doc, SkipSpaces(doc, i), toks)
    ensures toks != [] && toks[0] != [] ==> Sees(doc, SkipSpaces(doc, i), toks[0][0])
  {
    var k := SkipSpaces(doc, i);
    assert SkipSpaces(doc, k) == k;
    if toks != [] && toks[0] != [] {
      ElementAt(doc, k, toks[0], 0);
    }
  }

  lemma FirstToken(v: Value)
    requires RealFree(v)
    ensures Tokens(v)[0] != [] && Tokens(v)[0][0] != 0x5D
  {
    match v
    case Int(i) => IntegerIsNumber(i);
    case UInt(u) => IntegerIsNumber(u);
    case Array(m) => assert Tokens(v)[0] == LEFT_BRACKET;
    case Object(m) => assert Tokens(v)[0] == LEFT_BRACE;
    case _ =>
  }

  lemma {:induction false} LookupValid(m: seq<Slot>, key: Key)
    requires forall k :: 0 <= k < |m| ==> Valid(m[k].value) && RealFree(m[k].value)
    ensures Valid(Lookup(m, key)) && RealFree(Lookup(m, key))
  {
    if m != [] {
      LookupValid(m[1..], key);
    }
  }

  lemma FillValid(v: Value)
    requires v.Array? && Valid(v) && RealFree(v)
    ensures forall k :: 0 <= k < |Fill(v.map_)| ==> Valid(Fill(v.map_)[k]) && RealFree(Fill(v.map_)[k])
  {
    forall k | 0 <= k < |Fill(v.map_)| ensures Valid(Fill(v.map_)[k]) && RealFree(Fill(v.map_)[k]) {
      LookupValid(v.map_, Index(k));
    }
  }

  /** Parsing any text that spells the tokens of v: the value comes back normalised, or the nesting is too deep and it throws. */
  lemma ParseSpelled(doc: bytes, v: Value, root: Value, doubles: bytes -> bool)
    requires Valid(v) && RealFree(v) && Spelled(doc, 0, Tokens(v))
    ensures var r := Parse(doc, root, doubles);
      if Nesting(v) <= STACK_LIMIT then r.Done? && r.ok && r.value == Norm(v) && SkipSpaces(doc, r.end) == |doc| else r.Thrown?
  {
    assert Tokens(v) + [] == Tokens(v);
    ReadsValue(doc, 0, v, [], 1, root, doubles);
  }
}
