/** What a printed tree of well-formed UTF-8 is parsed to, and that printing it again gives the same text. */
module JsonNorm {
  import opened Bytes
  import opened JsonNumbers
  import opened JsonStrings
  import opened JsonValue
  import opened JsonReader
  import opened JsonText
  import opened JsonRoundTrip

  /** All strings and names are well-formed UTF-8. */
  predicate WellFormedTree(v: Value)
    decreases v
  {
    match v
    case String(s) => WellFormed(s)
    case Array(m) => forall k :: 0 <= k < |m| ==> WellFormedTree(m[k].value)
    case Object(m) => forall k :: 0 <= k < |m| ==> WellFormed(NameOf(m[k].key)) && WellFormedTree(m[k].value)
    case _ => true
  }

  /**
    * The tree with integers retagged and every array cut or filled to its size: holes become null, and the 32-bit
    * size of an array with an element at index 2^32 - 1 is zero.
    */
  function Tidy(v: Value): Value
    decreases Depth(v), 0, 0
  {
    match v
    case Int(i) => FromNumber(Retag(i))
    case UInt(u) => FromNumber(Retag(u))
    case Array(m) => Array(TidyElements(Fill(m), 0))
    case Object(m) => Object(TidyMembers(m))
    case _ => v
  }

  function TidyElements(vs: seq<Value>, index: nat): (m: seq<Slot>)
    ensures |m| == |vs|
    decreases MaxDepth(vs), 1, |vs|
  {
    if vs == [] then [] else [Slot(Index(index), Tidy(vs[0]))] + TidyElements(vs[1..], index + 1)
  }

  function TidyMembers(m: seq<Slot>): (r: seq<Slot>)
    ensures |r| == |m|
    decreases SlotsDepth(m), 1, |m|
  {
    if m == [] then [] else [Slot(m[0].key, Tidy(m[0].value))] + TidyMembers(m[1..])
  }

  predicate KeysBelow(m: seq<Slot>, key: Key) {
    forall k :: 0 <= k < |m| ==> KeyLess(m[k].key, key)
  }

  /** A key above all others goes to the end. */
  lemma {:induction false} PutLast(m: seq<Slot>, key: Key, value: Value)
    requires KeysBelow(m, key)
    ensures Put(m, key, value) == m + [Slot(key, value)]
  {
    if m != [] {
      KeyTotal(m[0].key, key);
      PutLast(m[1..], key, value);
      assert m == [m[0]] + m[1..];
    }
  }

  /** What comes back from printing and parsing a well-formed tree. */
  lemma {:induction false} NormIsTidy(v: Value)
    requires Valid(v) && RealFree(v) && WellFormedTree(v)
    ensures Norm(v) == Tidy(v)
    decreases Depth(v), 0, 0
  {
    match v
    case String(s) => CanonIdentity(s);
    case Array(m) =>
      FillValid(v);
      FillWellFormed(v);
      NormElementsTidy([], Fill(m), 0);
      assert [] + TidyElements(Fill(m), 0) == TidyElements(Fill(m), 0);
    case Object(m) =>
      NormMembersTidy([], m);
      assert [] + TidyMembers(m) == TidyMembers(m);
    case _ =>
  }

  lemma {:induction false} NormElementsTidy(done: seq<Slot>, vs: seq<Value>, index: nat)
    requires forall k :: 0 <= k < |vs| ==> Valid(vs[k]) && RealFree(vs[k]) && WellFormedTree(vs[k])
    requires KeysBelow(done, Index(index))
    ensures NormElements(done, vs, index) == done + TidyElements(vs, index)
    decreases MaxDepth(vs), 1, |vs|
  {
    if vs != [] {
      NormIsTidy(vs[0]);
      PutLast(done, Index(index), Norm(vs[0]));
      var done' := done + [Slot(Index(index), Tidy(vs[0]))];
      NormElementsTidy(done', vs[1..], index + 1);
      Associative(done, [Slot(Index(index), Tidy(vs[0]))], TidyElements(vs[1..], index + 1));
    }
  }

  predicate WellFormedMembers(m: seq<Slot>) {
    && Members(m)
    && KeysOk(m, true)
    && forall k :: 0 <= k < |m| ==> WellFormed(NameOf(m[k].key)) && WellFormedTree(m[k].value)
  }

  predicate AllAbove(done: seq<Slot>, m: seq<Slot>) {
    forall k :: 0 <= k < |m| ==> KeysBelow(done, m[k].key)
  }

  lemma NextAbove(done: seq<Slot>, m: seq<Slot>, value: Value)
    requires m != [] && WellFormedMembers(m) && AllAbove(done, m)
    ensures WellFormedMembers(m[1..]) && AllAbove(done + [Slot(m[0].key, value)], m[1..])
  {
    forall k | 0 <= k < |m[1..]| ensures KeysBelow(done + [Slot(m[0].key, value)], m[1..][k].key) {
      assert KeysBelow(done, m[k + 1].key);
    }
  }

  lemma {:induction false} NormMembersTidy(done: seq<Slot>, m: seq<Slot>)
    requires WellFormedMembers(m) && AllAbove(done, m)
    ensures NormMembers(done, m) == done + TidyMembers(m)
    decreases SlotsDepth(m), 1, |m|
  {
    if m != [] {
      var key := m[0].key;
      CanonIdentity(key.name);
      NormIsTidy(m[0].value);
      PutLast(done, key, Norm(m[0].value));
      NextAbove(done, m, Tidy(m[0].value));
      hide Valid, RealFree, WellFormedTree, WellFormedMembers, AllAbove, Norm, Tidy, Put, KeysOk, Members;
      NormMembersTidy(done + [Slot(key, Tidy(m[0].value))], m[1..]);
      Associative(done, [Slot(key, Tidy(m[0].value))], TidyMembers(m[1..]));
    }
  }

  lemma {:induction false} LookupWellFormed(m: seq<Slot>, key: Key)
    requires forall k :: 0 <= k < |m| ==> WellFormedTree(m[k].value)
    ensures WellFormedTree(Lookup(m, key))
  {
    if m != [] {
      LookupWellFormed(m[1..], key);
    }
  }

  lemma FillWellFormed(v: Value)
    requires v.Array? && WellFormedTree(v)
    ensures forall k :: 0 <= k < |Fill(v.map_)| ==> WellFormedTree(Fill(v.map_)[k])
  {
    forall k | 0 <= k < |Fill(v.map_)| ensures WellFormedTree(Fill(v.map_)[k]) {
      LookupWellFormed(v.map_, Index(k));
    }
  }

  // ----- The text is stable -----

  lemma {:induction false} TidyElementAt(vs: seq<Value>, index: nat, k: nat)
    requires k < |vs|
    ensures TidyElements(vs, index)[k] == Slot(Index(index + k), Tidy(vs[k]))
    ensures Lookup(TidyElements(vs, index), Index(index + k)) == Tidy(vs[k])
    decreases |vs|
  {
    if k > 0 {
      TidyElementAt(vs[1..], index + 1, k - 1);
      assert TidyElements(vs, index)[1..] == TidyElements(vs[1..], index + 1);
    }
  }

  lemma {:induction false} TidyKeepsTokens(v: Value)
    requires Valid(v)
    ensures Tokens(Tidy(v)) == Tokens(v)
    decreases Depth(v), 0, 0
  {
    match v
    case Array(m) =>
      hide Fill, TidyElements, Tidy, ElementTokens, Lookup;
      TidyIsArray(m);
      forall k | 0 <= k < |Fill(m)| ensures Valid(Fill(m)[k]) {
        FillAt(m, k);
        LookupIsValid(m, Index(k));
      }
      FillOfTidy(Fill(m));
      TidyKeepsElementTokens(Fill(m), Fill(TidyElements(Fill(m), 0)));
    case Object(m) => TidyKeepsMemberTokens(m);
    case _ =>
  }

  lemma TidyIsArray(m: seq<Slot>)
    ensures Tidy(Array(m)) == Array(TidyElements(Fill(m), 0)) && |Fill(m)| < 0x1_0000_0000
  {
    hide Fill, TidyElements;
  }

  lemma FillAt(m: seq<Slot>, k: nat)
    requires k < |Fill(m)|
    ensures Fill(m)[k] == Lookup(m, Index(k))
  {
    hide Lookup;
  }

  lemma FillOfTidy(vs: seq<Value>)
    requires |vs| < 0x1_0000_0000
    ensures |Fill(TidyElements(vs, 0))| == |vs|
    ensures forall k :: 0 <= k < |vs| ==> Fill(TidyElements(vs, 0))[k] == Tidy(vs[k])
  {
    hide Fill, Tidy, TidyElements, Lookup;
    if vs != [] {
      TidyElementAt(vs, 0, |vs| - 1);
    }
    forall k | 0 <= k < |vs| ensures |Fill(TidyElements(vs, 0))| == |vs| && Fill(TidyElements(vs, 0))[k] == Tidy(vs[k]) {
      TidyElementAt(vs, 0, k);
      FillAt(TidyElements(vs, 0), k);
    }
  }

  lemma {:induction false} LookupIsValid(m: seq<Slot>, key: Key)
    requires forall k :: 0 <= k < |m| ==> Valid(m[k].value)
    ensures Valid(Lookup(m, key))
  {
    if m != [] {
      LookupIsValid(m[1..], key);
    }
  }

  lemma {:induction false} TidyKeepsElementTokens(vs: seq<Value>, ws: seq<Value>)
    requires |vs| == |ws| && forall k :: 0 <= k < |vs| ==> Valid(vs[k]) && ws[k] == Tidy(vs[k])
    ensures ElementTokens(ws) == ElementTokens(vs)
    decreases MaxDepth(vs), 1, |vs|
  {
    if vs != [] {
      TidyKeepsTokens(vs[0]);
      TidyKeepsElementTokens(vs[1..], ws[1..]);
    }
  }

  lemma {:induction false} TidyKeepsMemberTokens(m: seq<Slot>)
    requires forall k :: 0 <= k < |m| ==> Valid(m[k].value)
    ensures MemberTokens(TidyMembers(m)) == MemberTokens(m)
    decreases SlotsDepth(m), 1, |m|
  {
    if m != [] {
      var r := TidyMembers(m);
      assert r[0] == Slot(m[0].key, Tidy(m[0].value)) && r[1..] == TidyMembers(m[1..]);
      TidyKeepsTokens(m[0].value);
      TidyKeepsMemberTokens(m[1..]);
    }
  }

  /** A tree no deeper than the stack limit is never refused. */
  lemma DepthSuffices(v: Value)
    requires Depth(v) <= STACK_LIMIT
    ensures Nesting(v) <= STACK_LIMIT
  {
  }
}
