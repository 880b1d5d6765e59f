/** Record lists: linked lists of references to records, compared by reference and kept free of duplicates. */
module MdnsLists {
  import Records = MdnsRecords

  type ValidRecord = r: Records.RR | Records.ValidRR(r) witness Records.RR([], 0, 0, false, 0, Records.Blank)

  /** A record in memory. Two records with equal contents are still two records. */
  class RREntry {
    const rr: ValidRecord

    constructor (rr: ValidRecord)
      ensures this.rr == rr
    {
      this.rr := rr;
    }
  }

  class Node {
    const e: RREntry
    /** The list this node was made for. */
    ghost const owner: RRList
    var next: Node?

    constructor (e: RREntry, ghost owner: RRList)
      ensures this.e == e && this.owner == owner && next == null
    {
      this.e := e;
      this.owner := owner;
      next := null;
    }
  }

  function EntriesOf(spine: seq<Node>): (r: seq<RREntry>)
    ensures |r| == |spine|
    ensures forall k :: 0 <= k < |spine| ==> r[k] == spine[k].e
  {
    seq(|spine|, i requires 0 <= i < |spine| => spine[i].e)
  }

  // ----- Lists as values -----

  function AppendOne(xs: seq<RREntry>, x: RREntry): (r: seq<RREntry>)
    ensures xs <= r && x in r
  {
    if x in xs then xs else xs + [x]
  }

  /** Appending one after the other what is not there yet. */
  function AppendNew(xs: seq<RREntry>, ys: seq<RREntry>): (r: seq<RREntry>)
    ensures xs <= r
    decreases |ys|
  {
    if ys == [] then xs else AppendNew(AppendOne(xs, ys[0]), ys[1..])
  }

  predicate NoDuplicates(xs: seq<RREntry>) {
    forall i, j :: 0 <= i < j < |xs| ==> xs[i] != xs[j]
  }

  function Elements(xs: seq<RREntry>): set<RREntry> {
    set x | x in xs
  }

  lemma {:induction false} AppendNewElements(xs: seq<RREntry>, ys: seq<RREntry>)
    ensures Elements(AppendNew(xs, ys)) == Elements(xs) + Elements(ys)
    decreases |ys|
  {
    if ys != [] {
      AppendNewElements(AppendOne(xs, ys[0]), ys[1..]);
      assert Elements(ys) == {ys[0]} + Elements(ys[1..]) by {
        assert ys == [ys[0]] + ys[1..];
      }
    }
  }

  lemma {:induction false} AppendNewNoDuplicates(xs: seq<RREntry>, ys: seq<RREntry>)
    requires NoDuplicates(xs)
    ensures NoDuplicates(AppendNew(xs, ys))
    decreases |ys|
  {
    if ys != [] {
      AppendNewNoDuplicates(AppendOne(xs, ys[0]), ys[1..]);
    }
  }

  lemma {:induction false} AppendNewLast(xs: seq<RREntry>, ys: seq<RREntry>, y: RREntry)
    ensures AppendNew(xs, ys + [y]) == AppendOne(AppendNew(xs, ys), y)
    decreases |ys|
  {
    if ys == [] {
      assert ([] + [y])[1..] == [] && ([] + [y])[0] == y;
      assert ys + [y] == [y];
    } else {
      assert (ys + [y])[0] == ys[0] && (ys + [y])[1..] == ys[1..] + [y];
      AppendNewLast(AppendOne(xs, ys[0]), ys[1..], y);
    }
  }

  lemma {:induction false} DistinctCount(xs: seq<RREntry>)
    requires NoDuplicates(xs)
    ensures |Elements(xs)| == |xs|
    decreases |xs|
  {
    if xs != [] {
      DistinctCount(xs[1..]);
      assert xs == [xs[0]] + xs[1..];
      assert Elements(xs) == {xs[0]} + Elements(xs[1..]);
      assert xs[0] !in xs[1..];
    }
  }

  lemma {:induction false} SubsetSize(a: set<RREntry>, b: set<RREntry>)
    requires a <= b
    ensures |a| <= |b|
    decreases |a|
  {
    if a != {} {
      var x :| x in a;
      SubsetSize(a - {x}, b - {x});
    }
  }

  /** Distinct records of a list are no more than those of the list they come from. */
  lemma NoMoreThan(xs: seq<RREntry>, ys: seq<RREntry>)
    requires NoDuplicates(xs) && NoDuplicates(ys) && Elements(xs) <= Elements(ys)
    ensures |xs| <= |ys|
  {
    DistinctCount(xs);
    DistinctCount(ys);
    SubsetSize(Elements(xs), Elements(ys));
  }

  /** The list without the first occurrence of x. */
  function Without(xs: seq<RREntry>, x: RREntry): (r: seq<RREntry>)
    ensures x !in xs ==> r == xs
  {
    if xs == [] then [] else if xs[0] == x then xs[1..]
    else
      assert xs == [xs[0]] + xs[1..];
      [xs[0]] + Without(xs[1..], x)
  }

  lemma {:induction false} WithoutAt(xs: seq<RREntry>, x: RREntry, i: nat)
    requires i < |xs| && xs[i] == x && x !in xs[..i]
    ensures Without(xs, x) == xs[..i] + xs[i + 1..]
  {
    if i > 0 {
      assert xs[1..][..i - 1] == xs[1..i] && xs[1..][i..] == xs[i + 1..];
      assert x !in xs[1..i] by {
        assert forall k :: 0 <= k < i - 1 ==> xs[1..i][k] == xs[..i][k + 1];
      }
      WithoutAt(xs[1..], x, i - 1);
      assert xs[0] == xs[..i][0] && [xs[0]] + xs[1..i] == xs[..i];
    }
  }

  /** Removing a record that was just added gives the list back, without duplicates as before. */
  lemma AppendThenRemove(xs: seq<RREntry>, x: RREntry)
    requires NoDuplicates(xs)
    ensures x !in xs ==> Without(AppendOne(xs, x), x) == xs
    ensures x !in Without(AppendOne(xs, x), x)
  {
    var i :| 0 <= i < |AppendOne(xs, x)| && AppendOne(xs, x)[i] == x && (x in xs ==> i < |xs|) && (x !in xs ==> i == |xs|);
    WithoutAt(AppendOne(xs, x), x, i);
  }

  lemma EntriesWithout(spine: seq<Node>, i: nat)
    requires i < |spine|
    ensures |spine[..i] + spine[i + 1..]| == |spine| - 1
    ensures EntriesOf(spine[..i] + spine[i + 1..]) == EntriesOf(spine)[..i] + EntriesOf(spine)[i + 1..]
  {
  }

  lemma EntryAt(spine: seq<Node>, i: nat)
    requires i < |spine|
    ensures EntriesOf(spine)[i] == spine[i].e
  {
  }

  lemma Already(spine: seq<Node>, i: nat, rr: RREntry)
    requires i < |spine| && spine[i].e == rr
    ensures AppendOne(EntriesOf(spine), rr) == EntriesOf(spine)
  {
    assert EntriesOf(spine)[i] == rr;
  }

  lemma NotThere(spine: seq<Node>, rr: RREntry)
    ensures (forall j :: 0 <= j < |spine| ==> spine[j].e != rr) ==> AppendOne(EntriesOf(spine), rr) == EntriesOf(spine) + [rr]
  {
  }

  lemma AddedNode(spine: seq<Node>, node: Node)
    ensures EntriesOf(spine + [node]) == EntriesOf(spine) + [node.e]
  {
  }

  // ----- The list in memory -----

  class RRList {
    var head: Node?
    ghost var spine: seq<Node>

    constructor ()
      ensures Valid() && spine == []
    {
      head := null;
      spine := [];
    }

    ghost function NodeAt(i: nat): Node?
      reads this
    {
      if i < |spine| then spine[i] else null
    }

    ghost predicate Valid()
      reads this, spine
    {
      && head == NodeAt(0)
      && (forall i :: 0 <= i < |spine| ==> spine[i].next == NodeAt(i + 1) && spine[i].owner == this)
      && (forall i, j :: 0 <= i < j < |spine| ==> spine[i] != spine[j])
    }

    lemma Node(i: nat)
      ensures NodeAt(i) == if i < |spine| then spine[i] else null
      ensures Entries() == EntriesOf(spine)
    {
    }

    lemma HeadNode()
      requires Valid()
      ensures head == NodeAt(0)
      ensures forall k :: 0 <= k < |spine| ==> spine[k].owner == this
    {
    }

    lemma NextNode(i: nat)
      requires Valid() && i < |spine|
      ensures spine[i].next == NodeAt(i + 1)
    {
    }

    ghost function Entries(): seq<RREntry>
      reads this
    {
      EntriesOf(spine)
    }

    /** rr_list_append: 1 if the record was added, 0 if it was there already. */
    method Append(rr: RREntry) returns (added: nat)
      requires Valid()
      modifies this, spine
      ensures Valid() && Entries() == AppendOne(old(Entries()), rr)
      ensures added == |spine| - |old(spine)| && old(spine) <= spine
      ensures forall k :: |old(spine)| <= k < |spine| ==> fresh(spine[k])
    {
      hide EntriesOf, AppendOne;
      NotThere(spine, rr);
      var node := new Node(rr, this);
      AddedNode(spine, node);
      if head == null {
        head := node;
        spine := [node];
        return 1;
      }
      var e, taile: Node? := head, null;
      ghost var i := 0;
      while e != null
        invariant 0 <= i <= |spine| && e == NodeAt(i)
        invariant forall j :: 0 <= j < i ==> spine[j].e != rr
        invariant i == |spine| ==> taile == spine[i - 1]
        decreases |spine| - i
      {
        if e.e == rr {
          Already(spine, i, rr);
          return 0;
        }
        if e.next == null {
          taile := e;
        }
        e, i := e.next, i + 1;
      }
      taile.next := node;
      spine := spine + [node];
      added := 1;
    }

    /** Takes out the node after prev, or the first one when there is no prev. */
    method Unlink(prev: Node?, node: Node, ghost i: nat)
      requires Valid() && i < |spine| && node == spine[i] && prev == if i == 0 then null else spine[i - 1]
      modifies this, spine
      ensures Valid() && spine == old(spine[..i] + spine[i + 1..])
    {
      ghost var before := spine;
      assert node.next == NodeAt(i + 1);
      if prev == null {
        head := node.next;
      } else {
        prev.next := node.next;
      }
      spine := before[..i] + before[i + 1..];
      forall j | 0 <= j < |spine|
        ensures spine[j] == before[if j < i then j else j + 1] && spine[j].next == NodeAt(j + 1) && spine[j].owner == this
      {
        assert j + 1 < |spine| ==> spine[j + 1] == before[if j + 1 < i then j + 1 else j + 2];
      }
    }

    /** rr_list_remove: takes out the first node that refers to the record, with a trailing pointer. */
    method Remove(rr: RREntry) returns (found: bool)
      requires Valid()
      modifies this, spine
      ensures Valid() && (found <==> rr in old(Entries()))
      ensures Entries() == Without(old(Entries()), rr)
    {
      hide *;
      HeadNode();
      Node(0);
      ghost var i, es := 0, Entries();
      var le, pe: Node? := head, null;
      while le != null
        invariant Valid() && spine == old(spine) && es == Entries() == EntriesOf(spine)
        invariant 0 <= i <= |spine| && le == (if i < |spine| then spine[i] else null) && pe == if i == 0 then null else spine[i - 1]
        invariant rr !in es[..i]
        decreases |spine| - i
      {
        EntryAt(spine, i);
        if le.e == rr {
          WithoutAt(es, rr, i);
          EntriesWithout(spine, i);
          Unlink(pe, le, i);
          Node(0);
          return true;
        }
        assert es[..i + 1] == es[..i] + [es[i]];
        NextNode(i);
        Node(i + 1);
        pe := le;
        le, i := le.next, i + 1;
      }
      assert es[..|es|] == es;
      found := false;
    }

    method Clear()
      modifies this
      ensures Valid() && spine == []
    {
      head := null;
      spine := [];
    }
  }
}
