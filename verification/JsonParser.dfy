/** The Json::Reader class: a cursor, a stack of values under construction and an error count, changed in place. */
module JsonParser {
  import opened Bytes
  import opened JsonNumbers
  import opened JsonStrings
  import opened JsonValue
  import Lexer = JsonTokens
  import Spec = JsonReader

  type Token = Lexer.Token
  type TokenType = Lexer.TokenType

  class Reader {
    /** Whether decodeDouble accepts a text; the conversion itself is not modelled. */
    const doubles: bytes -> bool
    var document_: bytes
    var current_: nat
    var nodes_: seq<Value>
    var errors_: nat

    constructor (doubles: bytes -> bool)
      ensures this.doubles == doubles
    {
      this.doubles := doubles;
      document_, current_, nodes_, errors_ := [], 0, [], 0;
    }

    predicate Valid()
      reads this
    {
      current_ <= |document_|
    }

    // ----- Characters -----

    method GetNextChar() returns (c: byte)
      requires Valid()
      modifies this`current_
      ensures if old(current_) == |document_| then c == 0 && current_ == old(current_)
              else c == document_[old(current_)] && current_ == old(current_) + 1
    {
      if current_ == |document_| {
        return 0;
      }
      c := document_[current_];
      current_ := current_ + 1;
    }

    method SkipSpaces()
      requires Valid()
      modifies this`current_
      ensures current_ == Lexer.SkipSpaces(document_, old(current_))
    {
      while current_ != |document_|
        invariant Valid()
        invariant Lexer.SkipSpaces(document_, current_) == Lexer.SkipSpaces(document_, old(current_))
        decreases |document_| - current_
      {
        if Lexer.IsSpace(document_[current_]) {
          current_ := current_ + 1;
        } else {
          break;
        }
      }
    }

    /** match: compares from the back, and consumes the pattern only when all of it is there. */
    method Match(pattern: bytes) returns (ok: bool)
      requires Valid()
      modifies this`current_
      ensures ok <==> Lexer.At(document_, old(current_), pattern)
      ensures current_ == if ok then old(current_) + |pattern| else old(current_)
    {
      if |document_| - current_ < |pattern| {
        return false;
      }
      ghost var there := document_[current_..current_ + |pattern|];
      var index := |pattern|;
      while index > 0
        invariant 0 <= index <= |pattern|
        invariant forall k :: index <= k < |pattern| ==> there[k] == pattern[k]
      {
        index := index - 1;
        if document_[current_ + index] != pattern[index] {
          assert there[index] != pattern[index];
          return false;
        }
      }
      assert there == pattern;
      current_ := current_ + |pattern|;
      ok := true;
    }

    method ReadCStyleComment() returns (ok: bool)
      requires Valid()
      modifies this`current_
      ensures var j := Lexer.CommentBody(document_, old(current_));
        if j == |document_| then !ok && current_ == j else (ok <==> document_[j] == 0x2F) && current_ == j + 1
    {
      while current_ + 1 < |document_|
        invariant Valid()
        invariant Lexer.CommentBody(document_, current_) == Lexer.CommentBody(document_, old(current_))
        decreases |document_| - current_
      {
        ghost var before := current_;
        var c := GetNextChar();
        if c == 0x2A && document_[current_] == 0x2F {
          assert Lexer.CommentBody(document_, before) == current_;
          break;
        }
      }
      var c := GetNextChar();
      ok := c == 0x2F;
    }

    method ReadCppStyleComment()
      requires Valid()
      modifies this`current_
      ensures current_ == Lexer.LineEnd(document_, old(current_))
    {
      while current_ != |document_|
        invariant Valid()
        invariant Lexer.LineEnd(document_, current_) == Lexer.LineEnd(document_, old(current_))
        decreases |document_| - current_
      {
        var c := GetNextChar();
        if c == 0x0A {
          return;
        }
        if c == 0x0D {
          if current_ != |document_| && document_[current_] == 0x0A {
            c := GetNextChar();
          }
          return;
        }
      }
    }

    method ReadComment() returns (ok: bool)
      requires Valid()
      modifies this`current_
      ensures (ok, current_) == Lexer.CommentEnd(document_, old(current_))
    {
      var c := GetNextChar();
      ok := false;
      if c == 0x2A {
        ok := ReadCStyleComment();
      } else if c == 0x2F {
        ReadCppStyleComment();
        ok := true;
      }
    }

    /** One step of readNumber: current_ catches up with p, and p looks one character ahead. */
    method Advance(p: nat) returns (c: byte, p': nat)
      requires p <= |document_|
      modifies this`current_
      ensures current_ == p
      ensures if p < |document_| then c == document_[p] && p' == p + 1 else c == 0 && p' == p
    {
      current_ := p;
      if current_ < |document_| {
        c, p' := document_[p], p + 1;
      } else {
        c, p' := 0, p;
      }
    }

    /** The loop over digits, entered with c already read at current_. */
    method ReadDigits(c: byte, p: nat) returns (c': byte, p': nat)
      requires Valid()
      requires if current_ < |document_| then c == document_[current_] && p == current_ + 1 else c == 0 && p == current_
      modifies this`current_
      ensures Valid() && current_ == Lexer.DigitsEnd(document_, old(current_))
      ensures if current_ < |document_| then c' == document_[current_] && p' == current_ + 1 else c' == 0 && p' == current_
    {
      c', p' := c, p;
      while 0x30 <= c' <= 0x39
        invariant Valid()
        invariant if current_ < |document_| then c' == document_[current_] && p' == current_ + 1 else c' == 0 && p' == current_
        invariant Lexer.DigitsEnd(document_, current_) == Lexer.DigitsEnd(document_, old(current_))
        decreases |document_| - current_
      {
        c', p' := Advance(p');
      }
    }

    method ReadNumber()
      requires Valid()
      modifies this`current_
      ensures current_ == Lexer.NumberEnd(document_, old(current_))
    {
      hide Lexer.DigitsEnd;
      var c, p := Advance(current_);
      c, p := ReadDigits(c, p);
      if c == 0x2E {
        c, p := Advance(p);
        c, p := ReadDigits(c, p);
      }
      if c == 0x65 || c == 0x45 {
        c, p := Advance(p);
        if c == 0x2B || c == 0x2D {
          c, p := Advance(p);
        }
        c, p := ReadDigits(c, p);
      }
    }

    method ReadString() returns (ok: bool)
      requires Valid()
      modifies this`current_
      ensures Valid()
      ensures ok <==> Lexer.StringEnd(document_, old(current_)).Some?
      ensures current_ == if ok then Lexer.StringEnd(document_, old(current_)).value else |document_|
    {
      var c: byte := 0;
      while current_ != |document_|
        invariant Valid() && c != QUOTE
        invariant Lexer.StringEnd(document_, current_) == Lexer.StringEnd(document_, old(current_))
        decreases |document_| - current_
      {
        c := GetNextChar();
        if c == BACKSLASH {
          var _ := GetNextChar();
        } else if c == QUOTE {
          break;
        }
      }
      ok := c == QUOTE;
    }

    // ----- Tokens -----

    method ReadToken() returns (ok: bool, token: Token)
      requires Valid()
      modifies this`current_
      ensures token == Lexer.ReadToken(document_, old(current_))
      ensures ok <==> token.type_ != Lexer.ErrorToken
      ensures current_ == token.end
    {
      hide Lexer.SkipSpaces, Lexer.StringEnd, Lexer.NumberEnd, Lexer.CommentEnd, Lexer.At;
      SkipSpaces();
      var start := current_;
      var c := GetNextChar();
      ok := true;
      var type_ := Lexer.ErrorToken;
      match c {
        case 0x7B => type_ := Lexer.ObjectBegin;
        case 0x7D => type_ := Lexer.ObjectEnd;
        case 0x5B => type_ := Lexer.ArrayBegin;
        case 0x5D => type_ := Lexer.ArrayEnd;
        case 0x22 => type_ := Lexer.StringToken; ok := ReadString();
        case 0x2F => type_ := Lexer.CommentToken; ok := ReadComment();
        case 0x74 => type_ := Lexer.TrueToken; ok := Match(Lexer.RUE);
        case 0x66 => type_ := Lexer.FalseToken; ok := Match(Lexer.ALSE);
        case 0x6E => type_ := Lexer.NullToken; ok := Match(Lexer.ULL);
        case 0x2C => type_ := Lexer.ArraySeparator;
        case 0x3A => type_ := Lexer.MemberSeparator;
        case 0 => type_ := Lexer.EndOfStream;
        case _ =>
          if 0x30 <= c <= 0x39 || c == MINUS {
            type_ := Lexer.NumberToken;
            ReadNumber();
          } else {
            ok := false;
          }
      }
      if !ok {
        type_ := Lexer.ErrorToken;
      }
      token := Lexer.Token(type_, start, current_);
    }

    method ReadTokenSkippingComments() returns (ok: bool, token: Token)
      requires Valid()
      modifies this`current_
      ensures token == Lexer.NextToken(document_, old(current_))
      ensures ok <==> token.type_ != Lexer.ErrorToken
      ensures current_ == token.end
    {
      ok, token := ReadToken();
      while ok && token.type_ == Lexer.CommentToken
        invariant Valid() && current_ == token.end
        invariant ok <==> token.type_ != Lexer.ErrorToken
        invariant Lexer.NextToken(document_, old(current_))
               == if token.type_ == Lexer.CommentToken then Lexer.NextToken(document_, current_) else token
        decreases |document_| - current_, ok && token.type_ == Lexer.CommentToken
      {
        ok, token := ReadToken();
      }
    }

    /** recoverFromError: reading tokens never adds an error, so the count is as it was. */
    method RecoverFromError(skipUntil: TokenType) returns (ok: bool)
      requires Valid()
      modifies this`current_
      ensures !ok && current_ == Lexer.Recover(document_, old(current_), skipUntil)
    {
      while true
        invariant Valid()
        invariant Lexer.Recover(document_, current_, skipUntil) == Lexer.Recover(document_, old(current_), skipUntil)
        decreases |document_| - current_
      {
        var _, skip := ReadToken();
        if skip.type_ == skipUntil || skip.type_ == Lexer.EndOfStream {
          break;
        }
      }
      ok := false;
    }

    method AddErrorAndRecover(skipUntil: TokenType) returns (ok: bool)
      requires Valid()
      modifies this`current_, this`errors_
      ensures !ok && current_ == Lexer.Recover(document_, old(current_), skipUntil)
      ensures errors_ == old(errors_) + 1
    {
      errors_ := errors_ + 1;
      ok := RecoverFromError(skipUntil);
    }

    // ----- Values -----

    /** currentValue().swapPayload(v) */
    method SetCurrentValue(v: Value)
      requires nodes_ != []
      modifies this`nodes_
      ensures nodes_ == old(nodes_)[..|old(nodes_)| - 1] + [v]
    {
      nodes_ := nodes_[..|nodes_| - 1] + [v];
    }

    /** decodeString on a token: the text between its quotes. */
    method TokenString(token: Token) returns (ok: bool, decoded: bytes)
      requires token.end <= |document_| && token.start + 2 <= token.end
      modifies this`errors_
      ensures ok <==> Decode(document_[token.start + 1..token.end - 1]).Some?
      ensures ok ==> Decode(document_[token.start + 1..token.end - 1]) == Some(decoded)
      ensures errors_ == if ok then old(errors_) else old(errors_) + 1
    {
      ok, decoded := DecodeString(document_[token.start + 1..token.end - 1]);
      if !ok {
        errors_ := errors_ + 1;
      }
    }

    /** decodeNumber on a token, with decodeDouble as its fallback. */
    method TokenNumber(token: Token) returns (ok: bool, decoded: Value)
      requires token.start < token.end <= |document_|
      modifies this`errors_
      ensures ok <==> Spec.NumberValue(document_[token.start..token.end], doubles).Some?
      ensures ok ==> Spec.NumberValue(document_[token.start..token.end], doubles) == Some(decoded)
      ensures errors_ == if ok then old(errors_) else old(errors_) + 1
    {
      var text := document_[token.start..token.end];
      var number := DecodeNumber(text);
      ok := true;
      match number
      case Signed(i) => decoded := Int(i);
      case Unsigned(u) => decoded := UInt(u);
      case Double =>
        decoded := Real(text);
        if !doubles(text) {
          ok := false;
          errors_ := errors_ + 1;
        }
    }

    /**
      * readValue agrees with its specification, leaves every other node on the stack alone,
      * and fails exactly when it reports an error.
      */
    method ReadValue() returns (ok: bool, thrown: bool)
      requires Valid() && nodes_ != []
      modifies this`current_, this`nodes_, this`errors_
      ensures var n := |old(nodes_)|; var r := Spec.ReadValue(document_, old(current_), n, old(nodes_)[n - 1], doubles);
        Agrees(r, ok, thrown, old(nodes_)[..n - 1], old(errors_))
      decreases |document_| - current_, 0
    {
      hide Lexer.NextToken, Lexer.ReadToken, Lexer.SkipSpaces, Lexer.Sees, Spec.NumberValue, Spec.ReadMembers, Spec.ReadElements, Decode;
      if |nodes_| > Spec.STACK_LIMIT {
        return false, true;
      }
      ghost var base := nodes_[..|nodes_| - 1];
      ok, thrown := true, false;
      var _, token := ReadTokenSkippingComments();
      if token.type_.ObjectBegin? {
        ok, thrown := ReadObject();
      } else if token.type_.ArrayBegin? {
        ok, thrown := ReadArray();
      } else if token.type_.NumberToken? {
        var decoded;
        ok, decoded := TokenNumber(token);
        if ok {
          SetCurrentValue(decoded);
        } else {
          assert nodes_ == base + [nodes_[|nodes_| - 1]];
        }
      } else if token.type_.StringToken? {
        var decoded;
        ok, decoded := TokenString(token);
        if ok {
          SetCurrentValue(String(decoded));
        } else {
          assert nodes_ == base + [nodes_[|nodes_| - 1]];
        }
      } else if token.type_.TrueToken? {
        SetCurrentValue(Bool(true));
      } else if token.type_.FalseToken? {
        SetCurrentValue(Bool(false));
      } else if token.type_.NullToken? {
        SetCurrentValue(Null);
      } else {
        errors_ := errors_ + 1;
        ok := false;
        assert nodes_ == base + [nodes_[|nodes_| - 1]];
      }
    }

    /** The state matches the outcome r: position, the value on top of the stack, and whether errors were added. */
    ghost predicate Agrees(r: Spec.Outcome, ok: bool, thrown: bool, base: seq<Value>, errors: nat)
      reads this
    {
      match r
      case Thrown => thrown
      case Done(ok', end, value) =>
        !thrown && ok == ok' && current_ == end && nodes_ == base + [value] && (if ok then errors_ == errors else errors_ > errors)
    }

    method ReadObject() returns (ok: bool, thrown: bool)
      requires Valid() && nodes_ != []
      modifies this`current_, this`nodes_, this`errors_
      ensures var n := |old(nodes_)|; var r := Spec.ReadMembers(document_, old(current_), n, [], [], doubles);
        Agrees(r, ok, thrown, old(nodes_)[..n - 1], old(errors_))
      decreases |document_| - current_, 2
    {
      hide Lexer.NextToken, Lexer.ReadToken, Spec.ReadAfterName, Spec.ReadMembers, Decode, Lexer.Recover, Lexer.SkipSpaces;
      ok, thrown := false, false;
      SetCurrentValue(Object([]));
      var name: bytes := [];
      ghost var n, base := |nodes_|, nodes_[..|nodes_| - 1];
      ghost var goal := Spec.ReadMembers(document_, current_, n, [], [], doubles);
      var members: seq<Slot> := [];
      while true
        invariant Valid() && current_ >= old(current_) && n == |base| + 1
        invariant errors_ == old(errors_) && !thrown && nodes_ == base + [Object(members)]
        invariant goal == Spec.ReadMembers(document_, current_, n, members, name, doubles)
        decreases |document_| - current_
      {
        var more;
        more, ok, name := ReadName(name, members);
        if !more {
          return;
        }
        assert nodes_[..n - 1] == base;
        ok, thrown, more, members := ReadMember(name, members);
        if !more {
          return;
        }
      }
    }

    /** The part of readObject's loop up to the member name; without one it is over, with the closing brace or with an error. */
    method ReadName(name: bytes, ghost members: seq<Slot>) returns (more: bool, ok: bool, name': bytes)
      requires Valid() && nodes_ != [] && nodes_[|nodes_| - 1] == Object(members)
      modifies this`current_, this`errors_
      ensures var n := |nodes_|; var r := Spec.ReadMembers(document_, old(current_), n, members, name, doubles);
        if more then
          Valid() && current_ > old(current_) && errors_ == old(errors_) && r == Spec.ReadAfterName(document_, current_, n, members, name', doubles)
        else Agrees(r, ok, false, nodes_[..n - 1], old(errors_))
    {
      hide Lexer.NextToken, Lexer.ReadToken, Spec.ReadAfterName, Spec.ReadMembers, Decode, Lexer.Recover, Lexer.SkipSpaces;
      MembersStep(current_, |nodes_|, members, name);
      assert nodes_ == nodes_[..|nodes_| - 1] + [Object(members)];
      more, ok, name' := false, false, [];
      var tokenOk, tokenName := ReadTokenSkippingComments();
      if tokenOk {
        if tokenName.type_ == Lexer.ObjectEnd && name == [] {
          return false, true, name;
        }
        if tokenName.type_ == Lexer.StringToken {
          more, name' := TokenString(tokenName);
          if !more {
            ok := RecoverFromError(Lexer.ObjectEnd);
          }
          return;
        }
      }
      ok := AddErrorAndRecover(Lexer.ObjectEnd);
    }

    lemma MembersStep(i: nat, n: nat, members: seq<Slot>, name: bytes)
      requires i <= |document_|
      ensures var t := Lexer.NextToken(document_, i);
        Spec.ReadMembers(document_, i, n, members, name, doubles)
        == if t.type_ == Lexer.ObjectEnd && name == [] then Spec.Done(true, t.end, Object(members))
           else if t.type_ != Lexer.StringToken || Decode(document_[t.start + 1..t.end - 1]).None? then
             Spec.Done(false, Lexer.Recover(document_, t.end, Lexer.ObjectEnd), Object(members))
           else Spec.ReadAfterName(document_, t.end, n, members, Decode(document_[t.start + 1..t.end - 1]).value, doubles)
    {
      hide Lexer.NextToken, Decode, Lexer.Recover, Spec.ReadAfterName;
    }

    /**
      * The part of readObject's loop after a member name: the colon, the value and the comma or brace.
      * `more` says that another member is to be read.
      */
    method ReadMember(name: bytes, members: seq<Slot>) returns (ok: bool, thrown: bool, more: bool, members': seq<Slot>)
      requires Valid() && nodes_ != [] && nodes_[|nodes_| - 1] == Object(members)
      modifies this`current_, this`nodes_, this`errors_
      ensures var n := |old(nodes_)|; var r := Spec.ReadAfterName(document_, old(current_), n, members, name, doubles);
        if more then
          && !thrown && Valid() && current_ > old(current_) && errors_ == old(errors_) && nodes_ == old(nodes_)[..n - 1] + [Object(members')]
          && r == Spec.ReadMembers(document_, current_, n, members', name, doubles)
        else Agrees(r, ok, thrown, old(nodes_)[..n - 1], old(errors_))
      decreases |document_| - current_, 1
    {
      hide Lexer.NextToken, Lexer.ReadToken, Spec.ReadValue, Spec.ReadMembers, Lexer.Recover, Spec.Put, Spec.Lookup;
      ok, thrown, more, members' := false, false, false, members;
      ghost var n, base := |nodes_|, nodes_[..|nodes_| - 1];
      assert nodes_ == base + [Object(members)];
      var colonOk, colon := ReadToken();
      if !colonOk || colon.type_ != Lexer.MemberSeparator {
        ok := AddErrorAndRecover(Lexer.ObjectEnd);
        return;
      }
      nodes_ := nodes_ + [Spec.Lookup(members, Name(name))];
      assert nodes_[..n] == base + [Object(members)];
      var valueOk;
      valueOk, thrown := ReadValue();
      if thrown {
        return;
      }
      var value := nodes_[|nodes_| - 1];
      nodes_ := nodes_[..|nodes_| - 1];
      members' := Spec.Put(members, Name(name), value);
      assert nodes_[..n - 1] == base;
      SetCurrentValue(Object(members'));
      if !valueOk {
        ok := RecoverFromError(Lexer.ObjectEnd);
        return;
      }
      var commaOk, comma := ReadTokenSkippingComments();
      if !commaOk || (comma.type_ != Lexer.ObjectEnd && comma.type_ != Lexer.ArraySeparator) {
        ok := AddErrorAndRecover(Lexer.ObjectEnd);
        return;
      }
      ok := true;
      more := comma.type_ == Lexer.ArraySeparator;
    }

    method ReadArray() returns (ok: bool, thrown: bool)
      requires Valid() && nodes_ != []
      modifies this`current_, this`nodes_, this`errors_
      ensures var n, j := |old(nodes_)|, Lexer.SkipSpaces(document_, old(current_));
        var r := if Lexer.Sees(document_, j, 0x5D) then Spec.Done(true, Lexer.ReadToken(document_, j).end, Array([]))
                 else Spec.ReadElements(document_, j, n, [], 0, doubles);
        Agrees(r, ok, thrown, old(nodes_)[..n - 1], old(errors_))
      decreases |document_| - current_, 2
    {
      hide Spec.ReadElements;
      ok, thrown := false, false;
      SetCurrentValue(Array([]));
      SkipSpaces();
      if current_ != |document_| && document_[current_] == 0x5D {
        var _, _ := ReadToken();
        return true, false;
      }
      var index := 0;
      ghost var n, base := |nodes_|, nodes_[..|nodes_| - 1];
      ghost var goal := Spec.ReadElements(document_, current_, n, [], 0, doubles);
      var elements: seq<Slot> := [];
      while true
        invariant Valid() && current_ >= old(current_) && n >= 1 && |nodes_| == n && |base| == n - 1
        invariant errors_ == old(errors_) && !thrown
        invariant nodes_ == base + [Array(elements)]
        invariant goal == Spec.ReadElements(document_, current_, n, elements, index, doubles)
        decreases |document_| - current_
      {
        var more;
        assert nodes_[..n - 1] == base;
        ok, thrown, more, elements := ReadElement(index, elements);
        if !more {
          return;
        }
        index := index + 1;
      }
    }

    /** One round of readArray's loop; `more` says that another element is to be read. */
    method ReadElement(index: nat, elements: seq<Slot>) returns (ok: bool, thrown: bool, more: bool, elements': seq<Slot>)
      requires Valid() && nodes_ != [] && nodes_[|nodes_| - 1] == Array(elements)
      modifies this`current_, this`nodes_, this`errors_
      ensures var n := |old(nodes_)|; var r := Spec.ReadElements(document_, old(current_), n, elements, index, doubles);
        if more then
          && !thrown && Valid() && current_ > old(current_) && errors_ == old(errors_) && nodes_ == old(nodes_)[..n - 1] + [Array(elements')]
          && r == Spec.ReadElements(document_, current_, n, elements', index + 1, doubles)
        else Agrees(r, ok, thrown, old(nodes_)[..n - 1], old(errors_))
      decreases |document_| - current_, 1
    {
      hide Lexer.NextToken, Lexer.ReadToken, Spec.ReadValue, Lexer.Recover, Spec.Put, Spec.Lookup;
      ok, thrown, more, elements' := false, false, false, elements;
      ghost var n, base := |nodes_|, nodes_[..|nodes_| - 1];
      assert nodes_ == base + [Array(elements)];
      nodes_ := nodes_ + [Spec.Lookup(elements, Index(index))];
      assert nodes_[..n] == base + [Array(elements)];
      var valueOk;
      valueOk, thrown := ReadValue();
      if thrown {
        return;
      }
      var value := nodes_[|nodes_| - 1];
      nodes_ := nodes_[..|nodes_| - 1];
      elements' := Spec.Put(elements, Index(index), value);
      assert nodes_[..n - 1] == base;
      SetCurrentValue(Array(elements'));
      if !valueOk {
        ok := RecoverFromError(Lexer.ArrayEnd);
        return;
      }
      var tokenOk, token := ReadTokenSkippingComments();
      if !tokenOk || (token.type_ != Lexer.ArraySeparator && token.type_ != Lexer.ArrayEnd) {
        ok := AddErrorAndRecover(Lexer.ArrayEnd);
        return;
      }
      ok := true;
      more := token.type_ == Lexer.ArraySeparator;
    }

    /** parse without comment collection: every document is accepted, refused with an error, or makes it throw. */
    method Parse(document: bytes, root: Value) returns (ok: bool, thrown: bool)
      modifies this
      ensures document_ == document
      ensures var r := Spec.Parse(document, root, doubles);
        if r.Thrown? then thrown
        else !thrown && ok == r.ok && nodes_ == [r.value] && r.end <= current_ <= |document| && (ok <==> errors_ == 0)
    {
      document_ := document;
      current_ := 0;
      errors_ := 0;
      nodes_ := [root];
      assert nodes_[..0] == [];
      ok, thrown := ReadValue();
      if !thrown {
        var _, _ := ReadTokenSkippingComments();
      }
    }
  }
}
