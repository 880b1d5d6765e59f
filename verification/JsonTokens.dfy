/**
  * The tokeniser of Json::Reader as functions of the document and a position. Every function returns a
  * position that is not behind the one it was given and not past the end.
  */
module JsonTokens {
  import opened Bytes
  import opened JsonNumbers
  import opened JsonStrings

  datatype TokenType =
    | EndOfStream | ObjectBegin | ObjectEnd | ArrayBegin | ArrayEnd | StringToken | NumberToken
    | TrueToken | FalseToken | NullToken | ArraySeparator | MemberSeparator | CommentToken | ErrorToken

  datatype Token = Token(type_: TokenType, start: nat, end: nat)

  const RUE: bytes := [0x72, 0x75, 0x65]
  const ALSE: bytes := [0x61, 0x6C, 0x73, 0x65]
  const ULL: bytes := [0x75, 0x6C, 0x6C]

  predicate IsSpace(c: byte) {
    c == 0x20 || c == 0x09 || c == 0x0D || c == 0x0A
  }

  function SkipSpaces(doc: bytes, i: nat): (j: nat)
    requires i <= |doc|
    ensures i <= j <= |doc|
    ensures j < |doc| ==> !IsSpace(doc[j])
    ensures forall k :: i <= k < j ==> IsSpace(doc[k])
    decreases |doc| - i
  {
    if i < |doc| && IsSpace(doc[i]) then SkipSpaces(doc, i + 1) else i
  }

  /** text occurs in doc at position i. */
  predicate At(doc: bytes, i: nat, text: bytes) {
    i + |text| <= |doc| && doc[i..i + |text|] == text
  }

  function DigitsEnd(doc: bytes, i: nat): (j: nat)
    requires i <= |doc|
    ensures i <= j <= |doc|
    decreases |doc| - i
  {
    if i < |doc| && IsDigit(doc[i]) then DigitsEnd(doc, i + 1) else i
  }

  predicate Sees(doc: bytes, i: nat, c: byte) {
    i < |doc| && doc[i] == c
  }

  /** Where the fraction of a number ends, if there is one at a. */
  function FractionEnd(doc: bytes, a: nat): (j: nat)
    requires a <= |doc|
    ensures a <= j <= |doc|
  {
    if Sees(doc, a, 0x2E) then DigitsEnd(doc, a + 1) else a
  }

  /** Where the exponent of a number ends, if there is one at b. */
  function ExponentEnd(doc: bytes, b: nat): (j: nat)
    requires b <= |doc|
    ensures b <= j <= |doc|
  {
    if Sees(doc, b, 0x65) || Sees(doc, b, 0x45) then
      DigitsEnd(doc, if Sees(doc, b + 1, 0x2B) || Sees(doc, b + 1, 0x2D) then b + 2 else b + 1)
    else b
  }

  /** readNumber, after the first character. */
  function NumberEnd(doc: bytes, i: nat): (j: nat)
    requires i <= |doc|
    ensures i <= j <= |doc|
  {
    ExponentEnd(doc, FractionEnd(doc, DigitsEnd(doc, i)))
  }

  /** The position after the closing quote; None when the document ends first. */
  function StringEnd(doc: bytes, i: nat): (r: Option<nat>)
    ensures r.Some? ==> i < r.value <= |doc|
    decreases |doc| - i
  {
    if i >= |doc| then None
    else if doc[i] == BACKSLASH then StringEnd(doc, i + 2)
    else if doc[i] == QUOTE then Some(i + 1)
    else StringEnd(doc, i + 1)
  }

  /** The loop of readCStyleComment. */
  function CommentBody(doc: bytes, i: nat): (j: nat)
    requires i <= |doc|
    ensures i <= j <= |doc|
    decreases |doc| - i
  {
    if i + 1 < |doc| then if doc[i] == 0x2A && doc[i + 1] == 0x2F then i + 1 else CommentBody(doc, i + 1)
    else i
  }

  /** readCppStyleComment: up to and including the line end. */
  function LineEnd(doc: bytes, i: nat): (j: nat)
    requires i <= |doc|
    ensures i <= j <= |doc|
    decreases |doc| - i
  {
    if i == |doc| then i
    else if doc[i] == 0x0A then i + 1
    else if doc[i] == 0x0D then if Sees(doc, i + 1, 0x0A) then i + 2 else i + 1
    else LineEnd(doc, i + 1)
  }

  /** readComment, after the slash: whether it succeeds and where it stops. */
  function CommentEnd(doc: bytes, i: nat): (r: (bool, nat))
    requires i <= |doc|
    ensures i <= r.1 <= |doc|
  {
    if i == |doc| then (false, i)
    else if doc[i] == 0x2A then
      var j := CommentBody(doc, i + 1);
      if j == |doc| then (false, j) else (doc[j] == 0x2F, j + 1)
    else if doc[i] == 0x2F then (true, LineEnd(doc, i + 1))
    else (false, i + 1)
  }

  /** A keyword whose first letter has been read: `match` consumes the rest only when all of it is there. */
  function Keyword(doc: bytes, start: nat, rest: bytes, type_: TokenType): (t: Token)
    requires start < |doc|
    ensures t.start == start < t.end <= |doc|
  {
    if At(doc, start + 1, rest) then Token(type_, start, start + 1 + |rest|) else Token(ErrorToken, start, start + 1)
  }

  /** readToken; it returns false exactly when the type is ErrorToken. */
  function ReadToken(doc: bytes, i: nat): (t: Token)
    requires i <= |doc|
    ensures i <= t.start <= t.end <= |doc|
    ensures t.end == i ==> t.type_ == EndOfStream && i == |doc|
    ensures t.type_ == StringToken ==> t.end - t.start >= 2
    ensures t.type_ == NumberToken ==> t.end - t.start >= 1
  {
    var s := SkipSpaces(doc, i);
    if s == |doc| then Token(EndOfStream, s, s)
    else
      var c := doc[s];
      if c == 0x7B then Token(ObjectBegin, s, s + 1)
      else if c == 0x7D then Token(ObjectEnd, s, s + 1)
      else if c == 0x5B then Token(ArrayBegin, s, s + 1)
      else if c == 0x5D then Token(ArrayEnd, s, s + 1)
      else if c == QUOTE then
        match StringEnd(doc, s + 1)
        case Some(e) => Token(StringToken, s, e)
        case None => Token(ErrorToken, s, |doc|)
      else if c == 0x2F then
        var (ok, e) := CommentEnd(doc, s + 1);
        Token(if ok then CommentToken else ErrorToken, s, e)
      else if IsDigit(c) || c == MINUS then Token(NumberToken, s, NumberEnd(doc, s + 1))
      else if c == 0x74 then Keyword(doc, s, RUE, TrueToken)
      else if c == 0x66 then Keyword(doc, s, ALSE, FalseToken)
      else if c == 0x6E then Keyword(doc, s, ULL, NullToken)
      else if c == 0x2C then Token(ArraySeparator, s, s + 1)
      else if c == 0x3A then Token(MemberSeparator, s, s + 1)
      else if c == 0 then Token(EndOfStream, s, s + 1)
      else Token(ErrorToken, s, s + 1)
  }

  /** readTokenSkippingComments */
  function NextToken(doc: bytes, i: nat): (t: Token)
    requires i <= |doc|
    ensures i <= t.start <= t.end <= |doc|
    ensures t.end == i ==> t.type_ == EndOfStream && i == |doc|
    ensures t.type_ == StringToken ==> t.end - t.start >= 2
    ensures t.type_ == NumberToken ==> t.end - t.start >= 1
    ensures t.type_ != CommentToken
    decreases |doc| - i
  {
    var t := ReadToken(doc, i);
    if t.type_ == CommentToken then NextToken(doc, t.end) else t
  }

  /** recoverFromError: the position after the next token of the wanted type, or at the end of the stream. */
  function Recover(doc: bytes, i: nat, until: TokenType): (j: nat)
    requires i <= |doc|
    ensures i <= j <= |doc|
    decreases |doc| - i
  {
    var t := ReadToken(doc, i);
    if t.type_ == until || t.type_ == EndOfStream then t.end else Recover(doc, t.end, until)
  }
}
