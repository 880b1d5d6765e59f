/** The tokens a value is written as, what it means for a text to spell them, and the value they denote. */
module JsonText {
  import opened Bytes
  import opened JsonNumbers
  import opened JsonStrings
  import opened JsonTokens
  import opened JsonValue
  import opened JsonReader

  const LEFT_BRACKET: bytes := [0x5B]
  const RIGHT_BRACKET: bytes := [0x5D]
  const LEFT_BRACE: bytes := [0x7B]
  const RIGHT_BRACE: bytes := [0x7D]
  const COMMA: bytes := [0x2C]
  const COLON: bytes := [0x3A]
  const NULL_TEXT: bytes := [0x6E] + ULL
  const TRUE_TEXT: bytes := [0x74] + RUE
  const FALSE_TEXT: bytes := [0x66] + ALSE

  // ----- Arrays as lists -----

  /** Value::size of an array: the highest index plus one, in 32 bits. */
  function Size(m: seq<Slot>): nat {
    if m == [] || m[|m| - 1].key.Name? then 0 else (m[|m| - 1].key.index + 1) % 0x1_0000_0000
  }

  /** The size is the highest index plus one, exactly unless that index is 2^32 - 1; then it wraps to zero. */
  lemma HighestIndexWraps(m: seq<Slot>)
    requires m != [] && KeysOk(m, false) && forall k :: 0 <= k < |m| ==> m[k].key.index < 0x1_0000_0000
    ensures var top := m[|m| - 1].key.index;
      && (forall k :: 0 <= k < |m| ==> m[k].key.index <= top)
      && (Size(m) == top + 1 <==> top < 0xFFFF_FFFF) && (top == 0xFFFF_FFFF ==> Size(m) == 0)
  {
    forall k | 0 <= k < |m| ensures m[k].key.index <= m[|m| - 1].key.index {
      if k < |m| - 1 {
        assert KeyLess(m[k].key, m[|m| - 1].key);
      }
    }
  }

  function MaxDepth(vs: seq<Value>): nat {
    if vs == [] then 0 else Max(Depth(vs[0]), MaxDepth(vs[1..]))
  }

  lemma {:induction false} MaxDepthBound(vs: seq<Value>, d: nat)
    requires forall i :: 0 <= i < |vs| ==> Depth(vs[i]) <= d
    ensures MaxDepth(vs) <= d
  {
    if vs != [] {
      MaxDepthBound(vs[1..], d);
    }
  }

  lemma {:induction false} LookupDepth(m: seq<Slot>, key: Key)
    requires m != []
    ensures Depth(Lookup(m, key)) <= SlotsDepth(m)
  {
    if m[0].key != key && |m| > 1 {
      LookupDepth(m[1..], key);
    }
  }

  /** The elements in order; an index without an entry reads as null. */
  function Fill(m: seq<Slot>): (vs: seq<Value>)
    ensures |vs| == Size(m)
    ensures MaxDepth(vs) <= SlotsDepth(m)
  {
    var vs := seq(Size(m), i requires 0 <= i < Size(m) => Lookup(m, Index(i)));
    assert MaxDepth(vs) <= SlotsDepth(m) by {
      if m != [] {
        forall i | 0 <= i < |vs| ensures Depth(vs[i]) <= SlotsDepth(m) {
          LookupDepth(m, Index(i));
        }
        MaxDepthBound(vs, SlotsDepth(m));
      }
    }
    vs
  }

  // ----- The tokens of a value -----

  function NameOf(key: Key): bytes {
    if key.Name? then key.name else []
  }

  function Tokens(v: Value): (toks: seq<bytes>)
    ensures toks != []
    decreases Depth(v), 0, 0
  {
    match v
    case Null => [NULL_TEXT]
    case Int(i) => [PrintInteger(i)]
    case UInt(u) => [PrintInteger(u)]
    case Real(text) => [text]
    case String(s) => [Quote(s)]
    case Bool(b) => [if b then TRUE_TEXT else FALSE_TEXT]
    case Array(m) => [LEFT_BRACKET] + ElementTokens(Fill(m)) + [RIGHT_BRACKET]
    case Object(m) => [LEFT_BRACE] + MemberTokens(m) + [RIGHT_BRACE]
  }

  function ElementTokens(vs: seq<Value>): seq<bytes>
    decreases MaxDepth(vs), 1, |vs|
  {
    if vs == [] then []
    else if |vs| == 1 then Tokens(vs[0])
    else Tokens(vs[0]) + [COMMA] + ElementTokens(vs[1..])
  }

  function MemberTokens(m: seq<Slot>): seq<bytes>
    decreases SlotsDepth(m), 1, |m|
  {
    if m == [] then []
    else
      var first := [Quote(NameOf(m[0].key)), COLON] + Tokens(m[0].value);
      if |m| == 1 then first else first + [COMMA] + MemberTokens(m[1..])
  }

  // ----- Texts that spell tokens -----

  /** A character that cannot continue a number. */
  predicate StopsNumber(c: byte) {
    !IsDigit(c) && c != 0x2E && c != 0x65 && c != 0x45
  }

  predicate IsNumberText(t: bytes) {
    t != [] && (IsDigit(t[0]) || t[0] == MINUS)
  }

  /** From position i on, doc is exactly the given tokens with white space around them. */
  predicate Spelled(doc: bytes, i: nat, toks: seq<bytes>)
    decreases |toks|
  {
    i <= |doc| &&
    var k := SkipSpaces(doc, i);
    if toks == [] then k == |doc|
    else
      && At(doc, k, toks[0])
      && (IsNumberText(toks[0]) && k + |toks[0]| < |doc| ==> StopsNumber(doc[k + |toks[0]|]))
      && Spelled(doc, k + |toks[0]|, toks[1..])
  }

  // ----- The value that comes back -----

  function FromNumber(n: Number): Value
    requires n.IsInteger()
  {
    if n.Signed? then Int(n.i) else UInt(n.u)
  }

  /**
    * What a value reads back as: integers retagged, strings and names made well-formed,
    * arrays without holes, and members put back one by one under their new names.
    */
  function Norm(v: Value): Value
    decreases Depth(v), 0, 0
  {
    match v
    case Int(i) => FromNumber(Retag(i))
    case UInt(u) => FromNumber(Retag(u))
    case String(s) => String(Canon(s))
    case Array(m) => Array(NormElements([], Fill(m), 0))
    case Object(m) => Object(NormMembers([], m))
    case _ => v
  }

  function NormElements(done: seq<Slot>, vs: seq<Value>, index: nat): seq<Slot>
    decreases MaxDepth(vs), 1, |vs|
  {
    if vs == [] then done
    else NormElements(Put(done, Index(index), Norm(vs[0])), vs[1..], index + 1)
  }

  function NormMembers(done: seq<Slot>, m: seq<Slot>): seq<Slot>
    decreases SlotsDepth(m), 1, |m|
  {
    if m == [] then done
    else NormMembers(Put(done, Name(Canon(NameOf(m[0].key))), Norm(m[0].value)), m[1..])
  }

  /** The nesting of the text; it differs from Depth only when the size of an array wraps to zero. */
  function Nesting(v: Value): (d: nat)
    ensures 1 <= d <= Depth(v)
    decreases Depth(v), 0, 0
  {
    match v
    case Array(m) => 1 + ElementsNesting(Fill(m))
    case Object(m) => 1 + MembersNesting(m)
    case _ => 1
  }

  function ElementsNesting(vs: seq<Value>): (d: nat)
    ensures d <= MaxDepth(vs)
    decreases MaxDepth(vs), 1, |vs|
  {
    if vs == [] then 0 else Max(Nesting(vs[0]), ElementsNesting(vs[1..]))
  }

  function MembersNesting(m: seq<Slot>): (d: nat)
    ensures d <= SlotsDepth(m)
    decreases SlotsDepth(m), 1, |m|
  {
    if m == [] then 0 else Max(Nesting(m[0].value), MembersNesting(m[1..]))
  }
}
