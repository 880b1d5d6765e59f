/** The JSON value tree (Json::Value) and its ordering. */
module JsonValue {
  import opened Bytes
  import opened JsonNumbers

  /** CZString: the key of an array element or of an object member. */
  datatype Key = Index(index: nat) | Name(name: bytes)

  /** One entry of ObjectValues. */
  datatype Slot = Slot(key: Key, value: Value)

  /**
    * Arrays and objects both hold an ObjectValues map. std::map iterates in ascending key order,
    * so the map is the sequence of its entries in that order. Real keeps only its text.
    */
  datatype Value =
    | Null
    | Int(i: int)
    | UInt(u: nat)
    | Real(text: bytes)
    | String(s: bytes)
    | Bool(b: bool)
    | Array(map_: seq<Slot>)
    | Object(map_: seq<Slot>)

  // ----- Keys -----

  /** memcmp over the common length, then the shorter first. */
  predicate BytesLess(a: bytes, b: bytes) {
    if b == [] then false
    else if a == [] then true
    else a[0] < b[0] || (a[0] == b[0] && BytesLess(a[1..], b[1..]))
  }

  /** CZString::operator< */
  predicate KeyLess(a: Key, b: Key) {
    if a.Index? && b.Index? then a.index < b.index
    else if a.Name? && b.Name? then BytesLess(a.name, b.name)
    else a.Index? && b.Name?
  }

  lemma {:induction false} BytesTotal(a: bytes, b: bytes)
    ensures BytesLess(a, b) ==> !BytesLess(b, a) && a != b
    ensures !BytesLess(a, b) && !BytesLess(b, a) ==> a == b
  {
    if a != [] && b != [] {
      BytesTotal(a[1..], b[1..]);
      assert a == [a[0]] + a[1..] && b == [b[0]] + b[1..];
    }
  }

  lemma {:induction false} BytesTransitive(a: bytes, b: bytes, c: bytes)
    requires BytesLess(a, b) && BytesLess(b, c)
    ensures BytesLess(a, c)
  {
    if a != [] && a[0] == b[0] && b[0] == c[0] {
      BytesTransitive(a[1..], b[1..], c[1..]);
    }
  }

  lemma KeyTotal(a: Key, b: Key)
    ensures KeyLess(a, b) ==> !KeyLess(b, a) && a != b
    ensures !KeyLess(a, b) && !KeyLess(b, a) ==> a == b
  {
    if a.Name? && b.Name? {
      BytesTotal(a.name, b.name);
    }
  }

  lemma KeyTransitive(a: Key, b: Key, c: Key)
    requires KeyLess(a, b) && KeyLess(b, c)
    ensures KeyLess(a, c)
  {
    if a.Name? && b.Name? && c.Name? {
      BytesTransitive(a.name, b.name, c.name);
    }
  }

  // ----- Well-formed trees -----

  /** The keys are ascending and of the given kind, as a std::map keeps them. */
  predicate KeysOk(m: seq<Slot>, names: bool) {
    && (forall i :: 0 <= i < |m| ==> m[i].key.Name? == names)
    && (forall i, j :: 0 <= i < j < |m| ==> KeyLess(m[i].key, m[j].key))
  }

  /** A tree the library can hold: 64-bit numbers, 32-bit array indices, ascending keys. */
  predicate Valid(v: Value)
    decreases v
  {
    match v
    case Int(i) => MIN_LARGEST_INT as int <= i <= MAX_LARGEST_INT as int
    case UInt(u) => u <= MAX_LARGEST_UINT as int
    case Array(m) =>
      && KeysOk(m, false)
      && (forall i :: 0 <= i < |m| ==> m[i].key.index < 0x1_0000_0000)
      && (forall i :: 0 <= i < |m| ==> Valid(m[i].value))
    case Object(m) => |m| < 0x1_0000_0000 && KeysOk(m, true) && (forall i :: 0 <= i < |m| ==> Valid(m[i].value))
    case _ => true
  }

  predicate RealFree(v: Value)
    decreases v
  {
    match v
    case Real(_) => false
    case Array(m) => forall i :: 0 <= i < |m| ==> RealFree(m[i].value)
    case Object(m) => forall i :: 0 <= i < |m| ==> RealFree(m[i].value)
    case _ => true
  }

  // ----- Depth -----

  function Max(a: nat, b: nat): nat {
    if a < b then b else a
  }

  function Depth(v: Value): (d: nat)
    ensures d >= 1
    decreases v
  {
    match v
    case Array(m) => 1 + SlotsDepth(m)
    case Object(m) => 1 + SlotsDepth(m)
    case _ => 1
  }

  function SlotDepth(slot: Slot): (d: nat)
    ensures d == Depth(slot.value)
    decreases slot
  {
    Depth(slot.value)
  }

  function SlotsDepth(m: seq<Slot>): nat
    decreases m
  {
    if m == [] then 0 else Max(SlotDepth(m[0]), SlotsDepth(m[1..]))
  }

  // ----- operator< and operator== -----

  /** The position of the type in the ValueType enumeration. */
  function TypeRank(v: Value): nat {
    match v
    case Null => 0
    case Int(_) => 1
    case UInt(_) => 2
    case Real(_) => 3
    case String(_) => 4
    case Bool(_) => 5
    case Array(_) => 6
    case Object(_) => 7
  }

  /** Value::operator<; two reals are not compared here. */
  predicate Less(a: Value, b: Value)
    decreases Depth(a) + Depth(b), 0, 0
  {
    if TypeRank(a) != TypeRank(b) then TypeRank(a) < TypeRank(b)
    else
      match a
      case Null => false
      case Int(i) => i < b.i
      case UInt(u) => u < b.u
      case Real(_) => false
      case String(s) => BytesLess(s, b.s)
      case Bool(x) => !x && b.b
      case Array(m) => if |m| != |b.map_| then |m| < |b.map_| else MapLess(m, b.map_)
      case Object(m) => if |m| != |b.map_| then |m| < |b.map_| else MapLess(m, b.map_)
  }

  /** operator< on ObjectValues of one size: lexicographic, each entry compared both ways. */
  predicate MapLess(a: seq<Slot>, b: seq<Slot>)
    requires |a| == |b|
    decreases SlotsDepth(a) + SlotsDepth(b), 2, |a|
  {
    if a == [] then false
    else if EntryLess(a, b) then true
    else if EntryLess(b, a) then false
    else MapLess(a[1..], b[1..])
  }

  /** std::pair's operator< on the first entries. */
  predicate EntryLess(a: seq<Slot>, b: seq<Slot>)
    requires |a| == |b| > 0
    decreases SlotsDepth(a) + SlotsDepth(b), 1, 0
  {
    || KeyLess(a[0].key, b[0].key)
    || (!KeyLess(b[0].key, a[0].key) && Less(a[0].value, b[0].value))
  }

  /** Value::operator== */
  predicate Equal(a: Value, b: Value)
    decreases Depth(a), 0, 0
  {
    TypeRank(a) == TypeRank(b) &&
    match a
    case Null => true
    case Int(i) => i == b.i
    case UInt(u) => u == b.u
    case Real(text) => text == b.text
    case String(s) => s == b.s
    case Bool(x) => x == b.b
    case Array(m) => |m| == |b.map_| && MapEqual(m, b.map_)
    case Object(m) => |m| == |b.map_| && MapEqual(m, b.map_)
  }

  predicate MapEqual(a: seq<Slot>, b: seq<Slot>)
    requires |a| == |b|
    decreases SlotsDepth(a), 1, |a|
  {
    a == [] || (a[0].key == b[0].key && Equal(a[0].value, b[0].value) && MapEqual(a[1..], b[1..]))
  }

  lemma {:induction false} EqualIsIdentity(a: Value, b: Value)
    ensures Equal(a, b) <==> a == b
    decreases Depth(a), 0, 0
  {
    if a.Array? && b.Array? && |a.map_| == |b.map_| {
      MapEqualIsIdentity(a.map_, b.map_);
    } else if a.Object? && b.Object? && |a.map_| == |b.map_| {
      MapEqualIsIdentity(a.map_, b.map_);
    }
  }

  lemma {:induction false} MapEqualIsIdentity(a: seq<Slot>, b: seq<Slot>)
    requires |a| == |b|
    ensures MapEqual(a, b) <==> a == b
    decreases SlotsDepth(a), 1, |a|
  {
    if a != [] {
      EqualIsIdentity(a[0].value, b[0].value);
      MapEqualIsIdentity(a[1..], b[1..]);
      assert a == [a[0]] + a[1..] && b == [b[0]] + b[1..];
    }
  }

  predicate SlotsRealFree(m: seq<Slot>) {
    forall i :: 0 <= i < |m| ==> RealFree(m[i].value)
  }

  /** Exactly one of a < b, b < a and a == b. */
  lemma {:induction false} Trichotomy(a: Value, b: Value)
    requires RealFree(a) && RealFree(b)
    ensures Less(a, b) ==> !Less(b, a) && a != b
    ensures !Less(a, b) && !Less(b, a) ==> a == b
    decreases Depth(a) + Depth(b), 0, 0
  {
    if a.String? && b.String? {
      BytesTotal(a.s, b.s);
    } else if a.Array? && b.Array? && |a.map_| == |b.map_| {
      MapTrichotomy(a.map_, b.map_);
    } else if a.Object? && b.Object? && |a.map_| == |b.map_| {
      MapTrichotomy(a.map_, b.map_);
    }
  }

  lemma {:induction false} MapTrichotomy(a: seq<Slot>, b: seq<Slot>)
    requires |a| == |b| && SlotsRealFree(a) && SlotsRealFree(b)
    ensures MapLess(a, b) ==> !MapLess(b, a) && a != b
    ensures !MapLess(a, b) && !MapLess(b, a) ==> a == b
    decreases SlotsDepth(a) + SlotsDepth(b), 2, |a|
  {
    if a != [] {
      EntryTrichotomy(a, b);
      MapTrichotomy(a[1..], b[1..]);
      assert a == [a[0]] + a[1..] && b == [b[0]] + b[1..];
    }
  }

  lemma {:induction false} EntryTrichotomy(a: seq<Slot>, b: seq<Slot>)
    requires |a| == |b| > 0 && SlotsRealFree(a) && SlotsRealFree(b)
    ensures EntryLess(a, b) ==> !EntryLess(b, a) && a[0] != b[0]
    ensures !EntryLess(a, b) && !EntryLess(b, a) ==> a[0] == b[0]
    decreases SlotsDepth(a) + SlotsDepth(b), 1, 0
  {
    KeyTotal(a[0].key, b[0].key);
    Trichotomy(a[0].value, b[0].value);
  }

  lemma {:induction false} LessTransitive(a: Value, b: Value, c: Value)
    requires RealFree(a) && RealFree(b) && RealFree(c)
    requires Less(a, b) && Less(b, c)
    ensures Less(a, c)
    decreases Depth(a) + Depth(b) + Depth(c), 0, 0
  {
    if TypeRank(a) == TypeRank(b) == TypeRank(c) {
      if a.String? {
        BytesTransitive(a.s, b.s, c.s);
      } else if (a.Array? || a.Object?) && |a.map_| == |b.map_| == |c.map_| {
        MapTransitive(a.map_, b.map_, c.map_);
      }
    }
  }

  lemma {:induction false} MapTransitive(a: seq<Slot>, b: seq<Slot>, c: seq<Slot>)
    requires |a| == |b| == |c| && SlotsRealFree(a) && SlotsRealFree(b) && SlotsRealFree(c)
    requires MapLess(a, b) && MapLess(b, c)
    ensures MapLess(a, c)
    decreases SlotsDepth(a) + SlotsDepth(b) + SlotsDepth(c), 2, |a|
  {
    EntryTrichotomy(a, b);
    EntryTrichotomy(b, c);
    EntryTrichotomy(a, c);
    if EntryLess(a, b) && EntryLess(b, c) {
      EntryTransitive(a, b, c);
    } else if a[0] == b[0] == c[0] {
      MapTransitive(a[1..], b[1..], c[1..]);
    }
  }

  lemma {:induction false} EntryTransitive(a: seq<Slot>, b: seq<Slot>, c: seq<Slot>)
    requires |a| == |b| == |c| > 0 && SlotsRealFree(a) && SlotsRealFree(b) && SlotsRealFree(c)
    requires EntryLess(a, b) && EntryLess(b, c)
    ensures EntryLess(a, c)
    decreases SlotsDepth(a) + SlotsDepth(b) + SlotsDepth(c), 1, 0
  {
    KeyTotal(a[0].key, b[0].key);
    KeyTotal(b[0].key, c[0].key);
    KeyTotal(a[0].key, c[0].key);
    if KeyLess(a[0].key, b[0].key) && KeyLess(b[0].key, c[0].key) {
      KeyTransitive(a[0].key, b[0].key, c[0].key);
    } else if a[0].key == b[0].key == c[0].key {
      LessTransitive(a[0].value, b[0].value, c[0].value);
    }
  }

  /** Value::operator< is a strict total order on trees without reals, and operator== is its equality. */
  lemma StrictTotalOrder(a: Value, b: Value, c: Value)
    requires RealFree(a) && RealFree(b) && RealFree(c)
    ensures (if Less(a, b) then 1 else 0) + (if Less(b, a) then 1 else 0) + (if Equal(a, b) then 1 else 0) == 1
    ensures Less(a, b) && Less(b, c) ==> Less(a, c)
  {
    Trichotomy(a, b);
    EqualIsIdentity(a, b);
    if Less(a, b) && Less(b, c) {
      LessTransitive(a, b, c);
    }
  }

  /** The tag takes part in the comparison: one signed and one unsigned are different values. */
  lemma TagsDiffer()
    ensures !Equal(Int(1), UInt(1)) && Less(Int(2), UInt(1))
  {
  }
}
