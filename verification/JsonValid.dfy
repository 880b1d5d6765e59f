/** Every value the reader returns is one the library can hold, so that all results about printing apply to it. */
module JsonValid {
  import opened Bytes
  import opened JsonStrings
  import opened JsonTokens
  import opened JsonValue
  import opened JsonReader
  import opened JsonText
  import opened JsonWriters
  import opened JsonNorm
  import opened JsonFaithful

  /** All array indices fit in a signed 32-bit integer. */
  predicate IntIndices(v: Value)
    decreases v
  {
    match v
    case Array(m) => forall k :: 0 <= k < |m| ==> m[k].key.Index? && m[k].key.index < 0x8000_0000 && IntIndices(m[k].value)
    case Object(m) => forall k :: 0 <= k < |m| ==> IntIndices(m[k].value)
    case _ => true
  }

  /** All strings and member names are shorter than that. */
  predicate TextsBelow(v: Value, limit: nat)
    decreases v
  {
    match v
    case String(s) => |s| < limit
    case Array(m) => forall k :: 0 <= k < |m| ==> TextsBelow(m[k].value, limit)
    case Object(m) => forall k :: 0 <= k < |m| ==> (m[k].key.Name? ==> |m[k].key.name| < limit) && TextsBelow(m[k].value, limit)
    case _ => true
  }

  predicate Good(v: Value, limit: nat) {
    Valid(v) && IntIndices(v) && TextsBelow(v, limit)
  }

  /** A container under construction, with at most `bound` entries and, in an array, indices below `bound`. */
  predicate Filling(m: seq<Slot>, names: bool, bound: nat, limit: nat) {
    && KeysOk(m, names) && |m| <= bound
    && (forall k :: 0 <= k < |m| ==> Good(m[k].value, limit) && (m[k].key.Index? ==> m[k].key.index < bound))
    && (forall k :: 0 <= k < |m| ==> m[k].key.Name? ==> |m[k].key.name| < limit)
  }

  lemma {:induction false} PutKeys(m: seq<Slot>, key: Key, value: Value, names: bool)
    requires KeysOk(m, names) && key.Name? == names
    ensures KeysOk(Put(m, key, value), names) && |Put(m, key, value)| <= |m| + 1
    ensures forall s :: s in Put(m, key, value) ==> s in m || s == Slot(key, value)
  {
    if m != [] {
      KeyTotal(m[0].key, key);
      PutKeys(m[1..], key, value, names);
      if m[0].key != key && KeyLess(key, m[0].key) {
        forall j | 0 <= j < |m| ensures KeyLess(key, m[j].key) {
          if j > 0 {
            KeyTransitive(key, m[0].key, m[j].key);
          }
        }
      } else if m[0].key != key {
        var rest := Put(m[1..], key, value);
        forall j | 0 <= j < |rest| ensures KeyLess(m[0].key, rest[j].key) {
          assert rest[j] in rest;
        }
      }
    }
  }

  lemma PutFilling(m: seq<Slot>, key: Key, value: Value, names: bool, bound: nat, limit: nat)
    requires Filling(m, names, bound, limit) && key.Name? == names && Good(value, limit) && (key.Index? ==> key.index < bound + 1) && (key.Name? ==> |key.name| < limit)
    ensures Filling(Put(m, key, value), names, bound + 1, limit)
  {
    hide Put, KeysOk, Good;
    PutKeys(m, key, value, names);
    var r := Put(m, key, value);
    forall k | 0 <= k < |r|
      ensures Good(r[k].value, limit) && (r[k].key.Index? ==> r[k].key.index < bound + 1) && (r[k].key.Name? ==> |r[k].key.name| < limit)
    {
      assert r[k] in r;
    }
  }

  lemma {:induction false} LookupGood(m: seq<Slot>, key: Key, limit: nat)
    requires forall k :: 0 <= k < |m| ==> Good(m[k].value, limit)
    ensures Good(Lookup(m, key), limit)
  {
    if m != [] {
      LookupGood(m[1..], key, limit);
    }
  }

  lemma FilledArray(m: seq<Slot>, bound: nat, limit: nat)
    requires Filling(m, false, bound, limit) && bound <= 0x8000_0000
    ensures Good(Array(m), limit) && Depth(Array(m)) == SlotsDepth(m) + 1
  {
  }

  lemma FilledObject(m: seq<Slot>, bound: nat, limit: nat)
    requires Filling(m, true, bound, limit) && bound < 0x1_0000_0000
    ensures Good(Object(m), limit) && Depth(Object(m)) == SlotsDepth(m) + 1
  {
  }

  lemma NumberGood(text: bytes, doubles: bytes -> bool, limit: nat)
    requires NumberValue(text, doubles).Some?
    ensures Good(NumberValue(text, doubles).value, limit) && Depth(NumberValue(text, doubles).value) == 1
  {
  }

  lemma {:induction false} PutDepth(m: seq<Slot>, key: Key, value: Value)
    ensures SlotsDepth(Put(m, key, value)) <= Max(SlotsDepth(m), Depth(value))
  {
    hide Depth;
    if m != [] {
      PutDepth(m[1..], key, value);
    }
  }

  lemma {:induction false} HeldDepth(m: seq<Slot>, key: Key)
    ensures Depth(Lookup(m, key)) <= Max(SlotsDepth(m), 1)
  {
    if m != [] {
      LookupDepth(m, key);
    }
  }

  /** The value can be held, and it fits under the stack limit at the given depth. */
  predicate GoodAt(v: Value, depth: nat, limit: nat) {
    Good(v, limit) && Depth(v) + depth <= STACK_LIMIT + 1
  }

  predicate GoodOutcome(r: Outcome, i: nat, depth: nat, limit: nat) {
    r.Done? ==> GoodAt(r.value, depth, limit) && (r.ok ==> r.end > i)
  }

  /** The entries fit under the stack limit inside a container at the given depth. */
  predicate Shallow(m: seq<Slot>, depth: nat) {
    SlotsDepth(m) + depth <= STACK_LIMIT
  }

  lemma ShallowHeld(m: seq<Slot>, key: Key, depth: nat, names: bool, bound: nat, limit: nat)
    requires Shallow(m, depth) && Filling(m, names, bound, limit) && depth + 1 <= STACK_LIMIT
    ensures GoodAt(Lookup(m, key), depth + 1, limit)
  {
    LookupGood(m, key, limit);
    HeldDepth(m, key);
  }

  lemma ShallowPut(m: seq<Slot>, key: Key, value: Value, depth: nat, limit: nat)
    requires Shallow(m, depth) && GoodAt(value, depth + 1, limit)
    ensures Shallow(Put(m, key, value), depth)
  {
    PutDepth(m, key, value);
  }

  lemma {:induction false} ReadsGoodValue(doc: bytes, i: nat, depth: nat, held: Value, doubles: bytes -> bool, limit: nat)
    requires i <= |doc| < 0x1_0000_0000 && |doc| <= limit && (depth <= STACK_LIMIT ==> GoodAt(held, depth, limit))
    ensures GoodOutcome(ReadValue(doc, i, depth, held, doubles), i, depth, limit)
    decreases |doc| - i, 0
  {
    hide ReadMembers, ReadElements, NextToken, ReadToken, SkipSpaces, NumberValue, Decode;
    if depth <= STACK_LIMIT {
      var t := NextToken(doc, i);
      match t.type_
      case ObjectBegin => ReadsGoodMembers(doc, t.end, depth, [], [], doubles, limit);
      case ArrayBegin =>
        var j := SkipSpaces(doc, t.end);
        if !Sees(doc, j, 0x5D) {
          ReadsGoodElements(doc, j, depth, [], 0, doubles, limit);
        }
      case NumberToken =>
        if NumberValue(doc[t.start..t.end], doubles).Some? {
          NumberGood(doc[t.start..t.end], doubles, limit);
        }
      case StringToken => DecodeIsShorter(doc[t.start + 1..t.end - 1]);
      case _ =>
    }
  }

  /** The index of an element is less than half the position, since every element and every comma takes a byte. */
  lemma {:induction false} ReadsGoodElements(doc: bytes, i: nat, depth: nat, elements: seq<Slot>, index: nat, doubles: bytes -> bool, limit: nat)
    requires i <= |doc| < 0x1_0000_0000 && |doc| <= limit && Filling(elements, false, index, limit) && Shallow(elements, depth) && 2 * index < i
    ensures GoodOutcome(ReadElements(doc, i, depth, elements, index, doubles), i, depth, limit)
    decreases |doc| - i, 1
  {
    hide ReadValue, NextToken, Recover, Put, Lookup, Filling, Good;
    if depth + 1 <= STACK_LIMIT {
      ShallowHeld(elements, Index(index), depth, false, index, limit);
    }
    var held := Lookup(elements, Index(index));
    ReadsGoodValue(doc, i, depth + 1, held, doubles, limit);
    var r := ReadValue(doc, i, depth + 1, held, doubles);
    if r.Done? {
      var elements' := Put(elements, Index(index), r.value);
      PutFilling(elements, Index(index), r.value, false, index, limit);
      ShallowPut(elements, Index(index), r.value, depth, limit);
      FilledArray(elements', index + 1, limit);
      if r.ok && NextToken(doc, r.end).type_ == ArraySeparator {
        ReadsGoodElements(doc, NextToken(doc, r.end).end, depth, elements', index + 1, doubles, limit);
      }
    }
  }

  lemma {:induction false} ReadsGoodMembers(doc: bytes, i: nat, depth: nat, members: seq<Slot>, name: bytes, doubles: bytes -> bool, limit: nat)
    requires i <= |doc| < 0x1_0000_0000 && |doc| <= limit && Filling(members, true, i, limit) && Shallow(members, depth)
    ensures GoodOutcome(ReadMembers(doc, i, depth, members, name, doubles), i, depth, limit)
    decreases |doc| - i, 1
  {
    hide ReadAfterName, NextToken, Recover, Decode, Filling, Good;
    FilledObject(members, i, limit);
    var t := NextToken(doc, i);
    if t.type_ == StringToken && Decode(doc[t.start + 1..t.end - 1]).Some? {
      FillingMore(members, i, t.end - 1, limit);
      DecodeIsShorter(doc[t.start + 1..t.end - 1]);
      ReadsGoodAfterName(doc, t.end, depth, members, Decode(doc[t.start + 1..t.end - 1]).value, doubles, limit);
    }
  }

  lemma FillingMore(m: seq<Slot>, bound: nat, more: nat, limit: nat)
    requires Filling(m, true, bound, limit) && bound <= more
    ensures Filling(m, true, more, limit)
  {
  }

  lemma {:induction false} ReadsGoodAfterName(doc: bytes, i: nat, depth: nat, members: seq<Slot>, name: bytes, doubles: bytes -> bool, limit: nat)
    requires 0 < i <= |doc| < 0x1_0000_0000 && |doc| <= limit && Filling(members, true, i - 1, limit) && Shallow(members, depth)
    requires |name| < limit
    ensures GoodOutcome(ReadAfterName(doc, i, depth, members, name, doubles), i, depth, limit)
    decreases |doc| - i, 2
  {
    hide ReadValue, ReadMembers, NextToken, ReadToken, Recover, Put, Lookup, Filling, Good;
    FilledObject(members, i - 1, limit);
    if depth + 1 <= STACK_LIMIT {
      ShallowHeld(members, Name(name), depth, true, i - 1, limit);
    }
    var colon, held := ReadToken(doc, i), Lookup(members, Name(name));
    if colon.type_ == MemberSeparator {
      ReadsGoodValue(doc, colon.end, depth + 1, held, doubles, limit);
      var r := ReadValue(doc, colon.end, depth + 1, held, doubles);
      if r.Done? {
        var members' := Put(members, Name(name), r.value);
        PutFilling(members, Name(name), r.value, true, i - 1, limit);
        ShallowPut(members, Name(name), r.value, depth, limit);
        FilledObject(members', i, limit);
        if r.ok && NextToken(doc, r.end).type_ == ArraySeparator {
          FillingMore(members', i, NextToken(doc, r.end).end, limit);
          ReadsGoodMembers(doc, NextToken(doc, r.end).end, depth, members', name, doubles, limit);
        }
      }
    }
  }

  lemma {:induction false} NoTopBelow(v: Value, limit: nat)
    requires Good(v, limit)
    ensures NoTopIndex(v)
    decreases v
  {
    match v
    case Array(m) => forall k | 0 <= k < |m| ensures NoTopIndex(m[k].value) { NoTopBelow(m[k].value, limit); }
    case Object(m) => forall k | 0 <= k < |m| ensures NoTopIndex(m[k].value) { NoTopBelow(m[k].value, limit); }
    case _ =>
  }

  lemma {:induction false} LimitMayRise(v: Value, limit: nat, more: nat)
    requires TextsBelow(v, limit) && limit <= more
    ensures TextsBelow(v, more)
    decreases v
  {
    match v
    case Array(m) => forall k | 0 <= k < |m| ensures TextsBelow(m[k].value, more) { LimitMayRise(m[k].value, limit, more); }
    case Object(m) => forall k | 0 <= k < |m| ensures TextsBelow(m[k].value, more) { LimitMayRise(m[k].value, limit, more); }
    case _ =>
  }

  /** Every value has some limit on its strings and names. */
  lemma {:induction false} SomeLimit(v: Value, least: nat) returns (limit: nat)
    ensures limit >= least && TextsBelow(v, limit)
    decreases Depth(v), 0, 0
  {
    match v
    case String(s) => limit := Max(least, |s| + 1);
    case Array(m) => limit := SlotsLimit(m, least);
    case Object(m) => limit := SlotsLimit(m, least);
    case _ => limit := least;
  }

  lemma {:induction false} SlotsLimit(m: seq<Slot>, least: nat) returns (limit: nat)
    ensures limit >= least
    ensures forall k :: 0 <= k < |m| ==> (m[k].key.Name? ==> |m[k].key.name| < limit) && TextsBelow(m[k].value, limit)
    decreases SlotsDepth(m), 1, |m|
  {
    limit := least;
    if m != [] {
      var first := SomeLimit(m[0].value, if m[0].key.Name? then Max(least, |m[0].key.name| + 1) else least);
      limit := SlotsLimit(m[1..], first);
      LimitMayRise(m[0].value, first, limit);
      assert m == [m[0]] + m[1..];
    }
  }

  /** What the caller hands in for the root: a null value, or what an earlier document left there. */
  predicate GoodRoot(root: Value) {
    Valid(root) && IntIndices(root) && Depth(root) <= STACK_LIMIT
  }

  /**
    * Whatever a document shorter than 2^32 bytes is, the value the reader leaves behind, with or without an error, is
    * one the library can hold, its array indices fit in the int that counts them, and it is not too deep to be read again.
    */
  lemma ParsedIsValid(doc: bytes, root: Value, doubles: bytes -> bool)
    requires |doc| < 0x1_0000_0000 && GoodRoot(root)
    ensures var r := Parse(doc, root, doubles);
      r.Done? ==> GoodRoot(r.value) && NoTopIndex(r.value) && Nesting(r.value) <= STACK_LIMIT
  {
    hide ReadValue;
    var limit := SomeLimit(root, |doc|);
    ReadsGoodValue(doc, 0, 1, root, doubles, limit);
    var r := Parse(doc, root, doubles);
    if r.Done? {
      NoTopBelow(r.value, limit);
      DepthSuffices(r.value);
    }
  }

  /**
    * No string or name is as long as the document. Up to 2^30 bytes, therefore, no name is cut to the 30 bits of its
    * length field, and no string is too long for its length prefix.
    */
  lemma ParsedTexts(doc: bytes, root: Value, doubles: bytes -> bool, limit: nat)
    requires |doc| < 0x1_0000_0000 && |doc| <= limit && GoodRoot(root) && TextsBelow(root, limit)
    ensures var r := Parse(doc, root, doubles); r.Done? ==> TextsBelow(r.value, limit)
  {
    hide ReadValue;
    ReadsGoodValue(doc, 0, 1, root, doubles, limit);
  }

  lemma RootMeans(r: Outcome)
    ensures r.Done? && GoodRoot(r.value) ==> Valid(r.value)
  {
  }

  /** Printing and parsing a parsed real-free value gives its normal form, and itself exactly for well-formed strings. */
  lemma ParsedRoundTrip(doc: bytes, root: Value, doubles: bytes -> bool)
    requires |doc| < 0x1_0000_0000 && GoodRoot(root)
    ensures var r := Parse(doc, root, doubles);
      r.Done? && RealFree(r.value) ==>
      var again := Parse(FastText(r.value, false, false), root, doubles);
      again.Done? && again.ok && again.value == Norm(r.value) && (Same(r.value, again.value) <==> WellFormedTree(r.value))
  {
    hide *;
    ParsedIsValid(doc, root, doubles);
    RootMeans(Parse(doc, root, doubles));
    var r := Parse(doc, root, doubles);
    if r.Done? && RealFree(r.value) {
      FastWriterRoundTrip(r.value, false, false, root, doubles);
      NormIsFaithful(r.value);
    }
  }
}
