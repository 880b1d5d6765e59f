/** Json::Reader: the recursive-descent parser with error recovery. */
module JsonReader {
  import opened Bytes
  import opened JsonNumbers
  import opened JsonStrings
  import opened JsonTokens
  import opened JsonValue

  const STACK_LIMIT := 1000

  // ----- The entries of arrays and objects -----

  /** ObjectValues with the entry for key set: replaced in place, or inserted at its sorted position. */
  function Put(m: seq<Slot>, key: Key, value: Value): seq<Slot> {
    if m == [] then [Slot(key, value)]
    else if m[0].key == key then [Slot(key, value)] + m[1..]
    else if KeyLess(key, m[0].key) then [Slot(key, value)] + m
    else [m[0]] + Put(m[1..], key, value)
  }

  /** The value stored under key; null when there is none. */
  function Lookup(m: seq<Slot>, key: Key): Value {
    if m == [] then Null
    else if m[0].key == key then m[0].value
    else Lookup(m[1..], key)
  }

  // ----- The parser as a function -----

  /** What readValue does: it returns, or throws because the nesting is too deep. */
  datatype Outcome = Done(ok: bool, end: nat, value: Value) | Thrown

  /** decodeNumber on a token; the double path succeeds as `doubles` says. */
  function NumberValue(text: bytes, doubles: bytes -> bool): Option<Value> {
    match NumberOf(text)
    case Signed(i) => Some(Int(i))
    case Unsigned(u) => Some(UInt(u))
    case Double => if doubles(text) then Some(Real(text)) else None
  }

  /** readValue, called with `depth` nodes on the stack, the top one holding `held`. */
  function ReadValue(doc: bytes, i: nat, depth: nat, held: Value, doubles: bytes -> bool): (r: Outcome)
    requires i <= |doc|
    ensures r.Done? ==> i <= r.end <= |doc|
    decreases |doc| - i, 0
  {
    if depth > STACK_LIMIT then Thrown
    else
      var t := NextToken(doc, i);
      match t.type_
      case ObjectBegin => ReadMembers(doc, t.end, depth, [], [], doubles)
      case ArrayBegin =>
        var j := SkipSpaces(doc, t.end);
        if Sees(doc, j, 0x5D) then Done(true, ReadToken(doc, j).end, Array([]))
        else ReadElements(doc, j, depth, [], 0, doubles)
      case NumberToken =>
        (match NumberValue(doc[t.start..t.end], doubles)
         case Some(v) => Done(true, t.end, v)
         case None => Done(false, t.end, held))
      case StringToken =>
        (match Decode(doc[t.start + 1..t.end - 1])
         case Some(s) => Done(true, t.end, String(s))
         case None => Done(false, t.end, held))
      case TrueToken => Done(true, t.end, Bool(true))
      case FalseToken => Done(true, t.end, Bool(false))
      case NullToken => Done(true, t.end, Null)
      case _ => Done(false, t.end, held)
  }

  /** One round of readArray's loop, and the rest of them. */
  function ReadElements(doc: bytes, i: nat, depth: nat, elements: seq<Slot>, index: nat, doubles: bytes -> bool): (r: Outcome)
    requires i <= |doc|
    ensures r.Done? ==> i <= r.end <= |doc|
    decreases |doc| - i, 1
  {
    match ReadValue(doc, i, depth + 1, Lookup(elements, Index(index)), doubles)
    case Thrown => Thrown
    case Done(ok, p, v) =>
      var elements' := Put(elements, Index(index), v);
      if !ok then Done(false, Recover(doc, p, ArrayEnd), Array(elements'))
      else
        var t := NextToken(doc, p);
        if t.type_ == ArrayEnd then Done(true, t.end, Array(elements'))
        else if t.type_ == ArraySeparator then ReadElements(doc, t.end, depth, elements', index + 1, doubles)
        else Done(false, Recover(doc, t.end, ArrayEnd), Array(elements'))
  }

  /** One round of readObject's loop, and the rest of them; `name` is the name of the previous member. */
  function ReadMembers(doc: bytes, i: nat, depth: nat, members: seq<Slot>, name: bytes, doubles: bytes -> bool): (r: Outcome)
    requires i <= |doc|
    ensures r.Done? ==> i <= r.end <= |doc|
    decreases |doc| - i, 1
  {
    var t := NextToken(doc, i);
    if t.type_ == ObjectEnd && name == [] then Done(true, t.end, Object(members))
    else if t.type_ != StringToken then Done(false, Recover(doc, t.end, ObjectEnd), Object(members))
    else
      match Decode(doc[t.start + 1..t.end - 1])
      case None => Done(false, Recover(doc, t.end, ObjectEnd), Object(members))
      case Some(name') => ReadAfterName(doc, t.end, depth, members, name', doubles)
  }

  /** The rest of a round, after the name: colon, value, and the comma or brace. */
  function ReadAfterName(doc: bytes, i: nat, depth: nat, members: seq<Slot>, name: bytes, doubles: bytes -> bool): (r: Outcome)
    requires i <= |doc|
    ensures r.Done? ==> i <= r.end <= |doc|
    decreases |doc| - i, 2
  {
    var colon := ReadToken(doc, i);
    if colon.type_ != MemberSeparator then Done(false, Recover(doc, colon.end, ObjectEnd), Object(members))
    else
      match ReadValue(doc, colon.end, depth + 1, Lookup(members, Name(name)), doubles)
      case Thrown => Thrown
      case Done(ok, p, v) =>
        var members' := Put(members, Name(name), v);
        if !ok then Done(false, Recover(doc, p, ObjectEnd), Object(members'))
        else
          var comma := NextToken(doc, p);
          if comma.type_ == ObjectEnd then Done(true, comma.end, Object(members'))
          else if comma.type_ == ArraySeparator then ReadMembers(doc, comma.end, depth, members', name, doubles)
          else Done(false, Recover(doc, comma.end, ObjectEnd), Object(members'))
  }

  /** Reader::parse without comment collection: the token after the value is read and ignored. */
  function Parse(doc: bytes, root: Value, doubles: bytes -> bool): Outcome {
    ReadValue(doc, 0, 1, root, doubles)
  }
}
