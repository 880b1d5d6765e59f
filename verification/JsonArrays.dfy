/** The array operations of Json::Value: a map keyed by index that behaves as a list as long as it has no holes. */
module JsonArrays {
  import opened JsonValue
  import opened JsonReader
  import opened JsonText

  /** The keys are exactly 0 up to the number of entries. */
  predicate Dense(m: seq<Slot>) {
    forall k :: 0 <= k < |m| ==> m[k].key == Index(k)
  }

  /** The entries of a list. */
  function Entries(vs: seq<Value>): (m: seq<Slot>)
    ensures Dense(m) && |m| == |vs|
  {
    seq(|vs|, k requires 0 <= k < |vs| => Slot(Index(k), vs[k]))
  }

  /** ObjectValues::erase */
  function Erase(m: seq<Slot>, key: Key): seq<Slot> {
    if m == [] then [] else if m[0].key == key then m[1..] else [m[0]] + Erase(m[1..], key)
  }

  /** ObjectValues::find */
  predicate Holds(m: seq<Slot>, key: Key) {
    m != [] && (m[0].key == key || Holds(m[1..], key))
  }

  lemma {:induction false} HoldsFrom(m: seq<Slot>, base: nat, index: nat)
    requires forall k :: 0 <= k < |m| ==> m[k].key == Index(base + k)
    ensures Holds(m, Index(index)) <==> base <= index < base + |m|
    decreases |m|
  {
    if m != [] {
      HoldsFrom(m[1..], base + 1, index);
    }
  }

  lemma {:induction false} PutFrom(m: seq<Slot>, base: nat, index: nat, value: Value)
    requires forall k :: 0 <= k < |m| ==> m[k].key == Index(base + k)
    requires base <= index <= base + |m|
    ensures Put(m, Index(index), value)
         == if index == base + |m| then m + [Slot(Index(index), value)] else m[index - base := Slot(Index(index), value)]
  {
    if m != [] && index > base {
      PutFrom(m[1..], base + 1, index, value);
    }
  }

  lemma {:induction false} LookupFrom(m: seq<Slot>, base: nat, index: nat)
    requires forall k :: 0 <= k < |m| ==> m[k].key == Index(base + k)
    requires base <= index <= base + |m|
    ensures Lookup(m, Index(index)) == if index == base + |m| then Null else m[index - base].value
  {
    if m != [] && index > base {
      LookupFrom(m[1..], base + 1, index);
    }
  }

  lemma {:induction false} EraseFrom(m: seq<Slot>, base: nat, index: nat)
    requires forall k :: 0 <= k < |m| ==> m[k].key == Index(base + k)
    requires base <= index < base + |m|
    ensures Erase(m, Index(index)) == m[..index - base] + m[index - base + 1..]
  {
    if index > base {
      EraseFrom(m[1..], base + 1, index);
      assert m[1..][..index - base - 1] == m[1..index - base];
      assert m[1..][index - base..] == m[index - base + 1..];
      assert [m[0]] + m[1..index - base] == m[..index - base];
    }
  }

  /** A list with one element replaced or added at its end. */
  function Stored(vs: seq<Value>, index: nat, value: Value): (r: seq<Value>)
    requires index <= |vs|
  {
    if index == |vs| then vs + [value] else vs[index := value]
  }

  lemma PutEntries(vs: seq<Value>, index: nat, value: Value)
    requires index <= |vs|
    ensures Put(Entries(vs), Index(index), value) == Entries(Stored(vs, index, value))
  {
    hide Put;
    PutFrom(Entries(vs), 0, index, value);
    StoredEntries(vs, index, value);
  }

  lemma StoredEntries(vs: seq<Value>, index: nat, value: Value)
    requires index <= |vs|
    ensures index == |vs| ==> Entries(Stored(vs, index, value)) == Entries(vs) + [Slot(Index(index), value)]
    ensures index < |vs| ==> Entries(Stored(vs, index, value)) == Entries(vs)[index := Slot(Index(index), value)]
  {
  }

  lemma LookupEntries(vs: seq<Value>, index: nat)
    requires index <= |vs|
    ensures Lookup(Entries(vs), Index(index)) == if index == |vs| then Null else vs[index]
  {
    hide Lookup;
    LookupFrom(Entries(vs), 0, index);
  }

  lemma HoldsEntries(vs: seq<Value>, index: nat)
    ensures Holds(Entries(vs), Index(index)) <==> index < |vs|
  {
    HoldsFrom(Entries(vs), 0, index);
  }

  lemma EraseEntries(vs: seq<Value>)
    requires vs != []
    ensures Erase(Entries(vs), Index(|vs| - 1)) == Entries(vs[..|vs| - 1])
  {
    EraseFrom(Entries(vs), 0, |vs| - 1);
  }

  lemma SizeEntries(vs: seq<Value>)
    requires |vs| < 0x1_0000_0000
    ensures Size(Entries(vs)) == |vs|
  {
  }

  /** An array value, or a null value that becomes an array when it is written to. */
  class ArrayValue {
    var value: Value
    ghost var list: seq<Value>

    /** Without holes, and small enough that its size fits in 32 bits. */
    ghost predicate Valid()
      reads this
    {
      && (value == Array(Entries(list)) || (value == Null && list == []))
      && |list| < 0x1_0000_0000
    }

    constructor ()
      ensures Valid() && list == []
    {
      value := Null;
      list := [];
    }

    method MakeArray()
      requires Valid()
      modifies this
      ensures Valid() && list == old(list) && value == Array(Entries(list))
    {
      if value.Null? {
        value := Array([]);
      }
    }

    /** operator[](index) followed by an assignment through the reference it returns. */
    method Set(index: nat, newValue: Value)
      requires Valid() && index <= |list| && index + 1 < 0x1_0000_0000
      modifies this
      ensures Valid() && value.Array?
      ensures list == Stored(old(list), index, newValue)
    {
      hide Put, Entries;
      MakeArray();
      PutEntries(list, index, newValue);
      value := Array(Put(value.map_, Index(index), newValue));
      list := Stored(list, index, newValue);
    }

    method Append(newValue: Value)
      requires Valid() && |list| + 1 < 0x1_0000_0000
      modifies this
      ensures Valid() && list == old(list) + [newValue]
    {
      MakeArray();
      SizeEntries(list);
      Set(Size(value.map_), newValue);
    }

    /** insert shifts the elements from index on one place to the right, last first. */
    method Insert(index: nat, newValue: Value) returns (ok: bool)
      requires Valid() && |list| + 1 < 0x1_0000_0000
      modifies this
      ensures Valid() && (ok <==> index <= |old(list)|)
      ensures list == if ok then old(list)[..index] + [newValue] + old(list)[index..] else old(list)
    {
      hide Put, Entries, Lookup, Size;
      SizeEntries(list);
      var length := if value.Null? then 0 else Size(value.map_);
      if index > length {
        return false;
      }
      var i := length;
      while i > index
        invariant Valid() && index <= i <= length == |old(list)|
        invariant list == if i == length then old(list) else old(list)[..i + 1] + old(list)[i..]
        invariant i < length ==> value.Array?
      {
        LookupEntries(list, i - 1);
        Set(i, Lookup(value.map_, Index(i - 1)));
        i := i - 1;
      }
      Set(index, newValue);
      ok := true;
    }

    /** removeIndex shifts the elements after index one place to the left and erases the last. */
    method RemoveIndex(index: nat) returns (ok: bool, removed: Value)
      requires Valid()
      modifies this
      ensures Valid() && (ok <==> index < |old(list)|)
      ensures ok ==> removed == old(list)[index] && list == old(list)[..index] + old(list)[index + 1..]
      ensures !ok ==> list == old(list)
    {
      hide Put, Entries, Lookup, Size, Erase, Holds;
      removed := Null;
      SizeEntries(list);
      HoldsEntries(list, index);
      if !value.Array? || !Holds(value.map_, Index(index)) {
        return false, removed;
      }
      LookupEntries(list, index);
      removed := Lookup(value.map_, Index(index));
      var oldSize := Size(value.map_);
      ShiftLeft(index);
      EraseEntries(list);
      value := Array(Erase(value.map_, Index(oldSize - 1)));
      list := list[..oldSize - 1];
      ok := true;
    }

    /** The loop of removeIndex; the last element is left twice. */
    method ShiftLeft(index: nat)
      requires Valid() && value.Array? && index < |list|
      modifies this
      ensures Valid() && value.Array? && |list| == |old(list)|
      ensures list[..|list| - 1] == old(list)[..index] + old(list)[index + 1..]
    {
      hide Put, Entries, Lookup, Size;
      SizeEntries(list);
      var oldSize := Size(value.map_);
      ghost var was := list;
      var i := index;
      while i < oldSize - 1
        invariant Valid() && value.Array? && |list| == |was| == oldSize && index <= i < oldSize
        invariant forall k :: 0 <= k < index ==> list[k] == was[k]
        invariant forall k :: index <= k < i ==> list[k] == was[k + 1]
        invariant forall k :: i <= k < oldSize ==> list[k] == was[k]
      {
        LookupEntries(list, i + 1);
        Set(i, Lookup(value.map_, Index(i + 1)));
        i := i + 1;
      }
    }

    /** resize pads with null, or erases from the end of the new size on. */
    method Resize(newSize: nat)
      requires Valid() && newSize < 0x1_0000_0000
      modifies this
      ensures Valid()
      ensures list == if newSize <= |old(list)| then old(list)[..newSize]
                      else old(list) + seq(newSize - |old(list)|, _ => Null)
    {
      MakeArray();
      SizeEntries(list);
      var oldSize := Size(value.map_);
      if newSize == 0 {
        value := Array([]);
        list := [];
        assert Entries([]) == [];
      } else if newSize > oldSize {
        var i := oldSize;
        while i < newSize
          invariant Valid() && oldSize <= i <= newSize
          invariant list == old(list) + seq(i - oldSize, _ => Null)
        {
          Set(i, Null);
          i := i + 1;
        }
      } else {
        TruncateFrom(newSize);
      }
    }

    /** The erasing loop of resize; the keys go from the lowest up, so there are holes until it ends. */
    method TruncateFrom(newSize: nat)
      requires Valid() && value.Array? && newSize <= |list|
      modifies this
      ensures Valid() && list == old(list)[..newSize]
    {
      hide Entries, Erase, Size, Dense;
      SizeEntries(list);
      EraseBegins(list, newSize);
      ghost var entries := value.map_;
      var oldSize := Size(value.map_);
      var m := value.map_;
      var index := newSize;
      while index < oldSize
        invariant newSize <= index <= oldSize == |entries| && list == old(list)
        invariant m == entries[..newSize] + entries[index..]
      {
        EraseHole(entries, newSize, index);
        m := Erase(m, Index(index));
        index := index + 1;
      }
      EraseEnds(list, newSize);
      value := Array(m);
      list := list[..newSize];
    }
  }

  lemma EraseBegins(vs: seq<Value>, n: nat)
    requires n <= |vs|
    ensures Dense(Entries(vs)) && Entries(vs) == Entries(vs)[..n] + Entries(vs)[n..]
  {
    hide Entries, Dense;
  }

  lemma EraseEnds(vs: seq<Value>, n: nat)
    requires n <= |vs|
    ensures Entries(vs)[..n] + Entries(vs)[|vs|..] == Entries(vs[..n])
  {
  }

  lemma {:induction false} EraseHole(m: seq<Slot>, low: nat, index: nat)
    requires Dense(m) && low <= index < |m|
    ensures Erase(m[..low] + m[index..], Index(index)) == m[..low] + m[index + 1..]
  {
    EraseSkips(m[..low], m[index..], Index(index));
    assert m[index..][1..] == m[index + 1..];
  }

  lemma {:induction false} EraseSkips(a: seq<Slot>, b: seq<Slot>, key: Key)
    requires forall k :: 0 <= k < |a| ==> a[k].key != key
    ensures Erase(a + b, key) == a + Erase(b, key)
  {
    if a == [] {
      assert a + b == b;
    } else {
      assert (a + b)[1..] == a[1..] + b;
      EraseSkips(a[1..], b, key);
    }
  }
}
