/** When printing and parsing gives a value back: exactly for well-formed strings and array indices below 2^32 - 1. */
module JsonFaithful {
  import opened Bytes
  import opened JsonStrings
  import opened JsonValue
  import opened JsonReader
  import opened JsonText
  import opened JsonWriters
  import opened JsonNorm

  /** w is v, except that integers may have the other tag and that holes of arrays are filled with null. */
  predicate Same(v: Value, w: Value)
    decreases v
  {
    match v
    case Int(i) => (w.Int? && w.i == i) || (w.UInt? && w.u == i)
    case UInt(u) => (w.Int? && w.i == u) || (w.UInt? && w.u == u)
    case Array(m) =>
      && w.Array? && KeysOk(m, false)
      && (forall j :: 0 <= j < |w.map_| ==> w.map_[j].key == Index(j))
      && |w.map_| == (if m == [] then 0 else m[|m| - 1].key.index + 1)
      && (forall k :: 0 <= k < |m| ==> m[k].key.index < |w.map_| && Same(m[k].value, w.map_[m[k].key.index].value))
      && (forall j :: 0 <= j < |w.map_| && Hole(m, j) ==> w.map_[j].value == Null)
    case Object(m) =>
      && w.Object? && |w.map_| == |m|
      && (forall k :: 0 <= k < |m| ==> w.map_[k].key == m[k].key && Same(m[k].value, w.map_[k].value))
    case _ => w == v
  }

  predicate Hole(m: seq<Slot>, j: nat) {
    forall k :: 0 <= k < |m| ==> m[k].key != Index(j)
  }

  /** No array holds an element at the highest 32-bit index. */
  predicate NoTopIndex(v: Value)
    decreases v
  {
    match v
    case Array(m) => (forall k :: 0 <= k < |m| ==> m[k].key != Index(0xFFFF_FFFF) && NoTopIndex(m[k].value))
    case Object(m) => (forall k :: 0 <= k < |m| ==> NoTopIndex(m[k].value))
    case _ => true
  }

  // ----- Looking up what is there -----

  lemma {:induction false} LookupThere(m: seq<Slot>, names: bool, k: nat)
    requires KeysOk(m, names) && k < |m|
    ensures Lookup(m, m[k].key) == m[k].value
  {
    if k > 0 {
      assert KeyLess(m[0].key, m[k].key);
      KeyTotal(m[0].key, m[k].key);
      assert m[1..][k - 1] == m[k];
      LookupThere(m[1..], names, k - 1);
    }
  }

  lemma {:induction false} LookupHole(m: seq<Slot>, j: nat)
    requires Hole(m, j)
    ensures Lookup(m, Index(j)) == Null
  {
    if m != [] {
      assert Hole(m[1..], j);
      LookupHole(m[1..], j);
    }
  }

  // ----- Arrays come back element by element -----

  lemma {:induction false} NormElementsAt(done: seq<Slot>, vs: seq<Value>, index: nat)
    requires KeysBelow(done, Index(index))
    ensures var r := NormElements(done, vs, index);
      && |r| == |done| + |vs| && r[..|done|] == done
      && forall k :: 0 <= k < |vs| ==> r[|done| + k] == Slot(Index(index + k), Norm(vs[k]))
    decreases |vs|
  {
    if vs != [] {
      hide Norm;
      PutLast(done, Index(index), Norm(vs[0]));
      var done' := done + [Slot(Index(index), Norm(vs[0]))];
      NormElementsAt(done', vs[1..], index + 1);
      var r := NormElements(done', vs[1..], index + 1);
      assert r[..|done|] == r[..|done| + 1][..|done|] == done;
      assert r[|done|] == r[..|done| + 1][|done|];
      forall k | 1 <= k < |vs| ensures r[|done| + k] == Slot(Index(index + k), Norm(vs[k])) {
        assert r[|done'| + (k - 1)] == Slot(Index(index + 1 + (k - 1)), Norm(vs[1..][k - 1]));
      }
    }
  }

  /** What an array reads back as: one slot per element up to its size. */
  lemma ArrayComesBack(m: seq<Slot>)
    ensures var n := Norm(Array(m)).map_;
      && Norm(Array(m)).Array? && |n| == Size(m)
      && forall j :: 0 <= j < |n| ==> n[j] == Slot(Index(j), Norm(Lookup(m, Index(j))))
  {
    var vs := Fill(m);
    NormElementsAt([], vs, 0);
    hide Norm, NormElements, Lookup;
    NormOfArray(m);
    var n := NormElements([], vs, 0);
    forall j | 0 <= j < |n| ensures n[j] == Slot(Index(j), Norm(Lookup(m, Index(j)))) {
      assert n[0 + j] == Slot(Index(0 + j), Norm(vs[j]));
    }
  }

  lemma NormOfArray(m: seq<Slot>)
    ensures Norm(Array(m)) == Array(NormElements([], Fill(m), 0))
  {
  }

  /** The part of Same on arrays that does not look into the elements. */
  predicate Aligned(m: seq<Slot>, n: seq<Slot>) {
    && KeysOk(m, false)
    && (forall j :: 0 <= j < |n| ==> n[j].key == Index(j))
    && |n| == (if m == [] then 0 else m[|m| - 1].key.index + 1)
    && (forall k :: 0 <= k < |m| ==> m[k].key.index < |n|)
    && (forall j :: 0 <= j < |n| && Hole(m, j) ==> n[j].value == Null)
  }

  lemma SameArray(m: seq<Slot>, n: seq<Slot>)
    ensures Same(Array(m), Array(n)) <==> Aligned(m, n) && forall k :: 0 <= k < |m| ==> Same(m[k].value, n[m[k].key.index].value)
  {
  }

  /** An array is what it was, or, with an element at the highest index, it is empty. */
  lemma ArrayAligned(m: seq<Slot>)
    requires Valid(Array(m))
    ensures var n := Norm(Array(m)).map_;
      && (Aligned(m, n) <==> forall k :: 0 <= k < |m| ==> m[k].key != Index(0xFFFF_FFFF))
      && (Aligned(m, n) ==> forall k :: 0 <= k < |m| ==> n[m[k].key.index].value == Norm(m[k].value))
  {
    var n := Norm(Array(m)).map_;
    ArrayComesBack(m);
    if m != [] {
      HighestIndexWraps(m);
    }
    forall k | 0 <= k < |m| ensures Lookup(m, m[k].key) == m[k].value && m[k].key == Index(m[k].key.index) {
      LookupThere(m, false, k);
    }
    forall j: nat | Hole(m, j) ensures Lookup(m, Index(j)) == Null {
      LookupHole(m, j);
    }
    NullComesBack();
    hide Lookup, Norm, Size, Valid;
  }

  lemma ArrayFaithful(m: seq<Slot>)
    requires Valid(Array(m))
    requires forall k :: 0 <= k < |m| ==> (Same(m[k].value, Norm(m[k].value)) <==> WellFormedTree(m[k].value) && NoTopIndex(m[k].value))
    ensures Same(Array(m), Norm(Array(m))) <==> WellFormedTree(Array(m)) && NoTopIndex(Array(m))
  {
    ArrayComesBack(m);
    SameArray(m, Norm(Array(m)).map_);
    ArrayAligned(m);
    hide Aligned, Norm, Lookup, Size, Same, Valid;
  }

  // ----- Objects come back member by member -----

  predicate NamesWellFormed(m: seq<Slot>) {
    forall k :: 0 <= k < |m| ==> WellFormed(NameOf(m[k].key))
  }

  lemma {:induction false} PutNames(m: seq<Slot>, key: Key, value: Value)
    requires NamesWellFormed(m) && WellFormed(NameOf(key))
    ensures NamesWellFormed(Put(m, key, value))
  {
    hide WellFormed;
    if m != [] {
      PutNames(m[1..], key, value);
    }
  }

  /** Every name that comes back is well-formed, whatever was written. */
  lemma {:induction false} NormNames(done: seq<Slot>, m: seq<Slot>)
    requires NamesWellFormed(done)
    ensures NamesWellFormed(NormMembers(done, m))
    decreases |m|
  {
    hide WellFormed, Norm, Put;
    if m != [] {
      var key := Name(Canon(NameOf(m[0].key)));
      CanonIdentity(NameOf(m[0].key));
      PutNames(done, key, Norm(m[0].value));
      NormNames(Put(done, key, Norm(m[0].value)), m[1..]);
    }
  }

  lemma NextName(done: seq<Slot>, m: seq<Slot>, value: Value)
    requires m != [] && KeysOk(m, true) && NamesWellFormed(m) && AllAbove(done, m)
    ensures KeysOk(m[1..], true) && NamesWellFormed(m[1..]) && AllAbove(done + [Slot(m[0].key, value)], m[1..]) && KeysBelow(done, m[0].key)
  {
    forall k | 0 <= k < |m[1..]| ensures KeysBelow(done + [Slot(m[0].key, value)], m[1..][k].key) {
      assert KeysBelow(done, m[k + 1].key);
    }
  }

  /** With well-formed names every member comes back in its place. */
  lemma {:induction false} NormMembersAt(done: seq<Slot>, m: seq<Slot>)
    requires KeysOk(m, true) && NamesWellFormed(m) && AllAbove(done, m)
    ensures var r := NormMembers(done, m);
      && |r| == |done| + |m| && r[..|done|] == done
      && forall k :: 0 <= k < |m| ==> r[|done| + k] == Slot(m[k].key, Norm(m[k].value))
    decreases |m|
  {
    hide *;
    NoMembersLeft(done);
    if m != [] {
      NormMembersStep(done, m);
      var slot := Slot(m[0].key, Norm(m[0].value));
      NormMembersAt(done + [slot], m[1..]);
      ShiftedBack(NormMembers(done, m), done, slot, |m|);
      forall k | 1 <= k < |m| ensures NormMembers(done, m)[|done| + k] == Slot(m[k].key, Norm(m[k].value)) {
        assert NormMembers(done, m)[|done + [slot]| + (k - 1)] == Slot(m[1..][k - 1].key, Norm(m[1..][k - 1].value));
      }
    }
  }

  lemma NoMembersLeft(done: seq<Slot>)
    ensures NormMembers(done, []) == done
  {
  }

  lemma ShiftedBack(r: seq<Slot>, done: seq<Slot>, slot: Slot, n: nat)
    requires n > 0 && |r| == |done + [slot]| + (n - 1) && r[..|done + [slot]|] == done + [slot]
    ensures |r| == |done| + n && r[..|done|] == done && r[|done|] == slot && |done + [slot]| == |done| + 1
  {
    assert r[..|done|] == r[..|done| + 1][..|done|];
    assert r[|done|] == r[..|done| + 1][|done|];
  }

  lemma NormMembersStep(done: seq<Slot>, m: seq<Slot>)
    requires m != [] && KeysOk(m, true) && NamesWellFormed(m) && AllAbove(done, m)
    ensures var done' := done + [Slot(m[0].key, Norm(m[0].value))];
      && NormMembers(done, m) == NormMembers(done', m[1..])
      && KeysOk(m[1..], true) && NamesWellFormed(m[1..]) && AllAbove(done', m[1..])
  {
    hide Norm, Put, Canon, WellFormed, KeysBelow;
    CanonIdentity(NameOf(m[0].key));
    NextName(done, m, Norm(m[0].value));
    PutLast(done, m[0].key, Norm(m[0].value));
  }

  lemma NormOfObject(m: seq<Slot>)
    ensures Norm(Object(m)) == Object(NormMembers([], m))
  {
  }

  lemma ObjectFaithful(m: seq<Slot>)
    requires KeysOk(m, true)
    requires forall k :: 0 <= k < |m| ==> (Same(m[k].value, Norm(m[k].value)) <==> WellFormedTree(m[k].value) && NoTopIndex(m[k].value))
    ensures Same(Object(m), Norm(Object(m))) <==> WellFormedTree(Object(m)) && NoTopIndex(Object(m))
  {
    hide Norm, NormMembers, WellFormed;
    NormOfObject(m);
    NormNames([], m);
    var n := NormMembers([], m);
    if NamesWellFormed(m) {
      NormMembersAt([], m);
      forall k | 0 <= k < |m| ensures n[k] == Slot(m[k].key, Norm(m[k].value)) {
        assert n[0 + k] == Slot(m[k].key, Norm(m[k].value));
      }
    }
  }

  // ----- The round trip -----

  /** Exactly the trees of well-formed strings without the highest index read back as themselves. */
  lemma {:induction false} NormIsFaithful(v: Value)
    requires Valid(v) && RealFree(v)
    ensures Same(v, Norm(v)) <==> WellFormedTree(v) && NoTopIndex(v)
    decreases v
  {
    match v
    case String(s) => CanonIdentity(s);
    case Array(m) =>
      forall k | 0 <= k < |m| ensures Same(m[k].value, Norm(m[k].value)) <==> WellFormedTree(m[k].value) && NoTopIndex(m[k].value) {
        NormIsFaithful(m[k].value);
      }
      ArrayFaithful(m);
    case Object(m) =>
      forall k | 0 <= k < |m| ensures Same(m[k].value, Norm(m[k].value)) <==> WellFormedTree(m[k].value) && NoTopIndex(m[k].value) {
        NormIsFaithful(m[k].value);
      }
      ObjectFaithful(m);
    case _ =>
  }

  /**
    * parse(write(v)) is v itself, up to integer tags and filled holes, exactly when all strings and names of v are
    * well-formed UTF-8 and no array of v holds an element at index 2^32 - 1.
    */
  lemma RoundTripIsFaithful(v: Value, yaml: bool, omitEndingLineFeed: bool, root: Value, doubles: bytes -> bool)
    requires Valid(v) && RealFree(v) && Nesting(v) <= STACK_LIMIT
    ensures var r := Parse(FastText(v, yaml, omitEndingLineFeed), root, doubles);
      r.Done? && r.ok && (Same(v, r.value) <==> WellFormedTree(v) && NoTopIndex(v))
  {
    hide *;
    FastWriterRoundTrip(v, yaml, omitEndingLineFeed, root, doubles);
    NormIsFaithful(v);
  }

  /** With an element at index 2^32 - 1 an array comes back empty, whatever else it holds. */
  lemma TopIndexEmpties(m: seq<Slot>)
    requires Valid(Array(m)) && exists k :: 0 <= k < |m| && m[k].key == Index(0xFFFF_FFFF)
    ensures Norm(Array(m)) == Array([])
  {
    HighestIndexWraps(m);
    ArrayComesBack(m);
  }

  lemma NullComesBack()
    ensures Norm(Null) == Null
  {
  }

  /**
    * For a tree of well-formed strings: parsing its text gives its tidy form, which is the tree itself up to integer
    * tags and holes exactly when no array holds an element at index 2^32 - 1; printing it gives the same text again.
    */
  lemma PrintParsePrint(v: Value, root: Value, doubles: bytes -> bool)
    requires Valid(v) && RealFree(v) && WellFormedTree(v) && Nesting(v) <= STACK_LIMIT
    ensures var r := Parse(FastText(v, false, false), root, doubles);
      && r.Done? && r.ok && r.value == Tidy(v) && (Same(v, r.value) <==> NoTopIndex(v))
      && FastText(r.value, false, false) == FastText(v, false, false)
  {
    hide *;
    FastWriterRoundTrip(v, false, false, root, doubles);
    NormIsTidy(v);
    NormIsFaithful(v);
    SameTokensSameText(v);
  }

  lemma SameTokensSameText(v: Value)
    requires Valid(v)
    ensures FastText(Tidy(v), false, false) == FastText(v, false, false)
  {
    TidyKeepsTokens(v);
  }
}
