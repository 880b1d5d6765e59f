/** The record store: a linked list of groups, one per name, that refines a flat list of records in insertion order. */
module MdnsStore {
  import opened Bytes
  import opened MdnsLists
  import Records = MdnsRecords

  // ----- The flat list -----

  /** The records of one name. */
  function Named(flat: seq<RREntry>, name: bytes): seq<RREntry> {
    if flat == [] then []
    else if flat[0].rr.name == name then [flat[0]] + Named(flat[1..], name)
    else Named(flat[1..], name)
  }

  /** A record answers a query for its own type, and a query for ANY unless it is NSEC. */
  predicate Wanted(e: RREntry, type_: nat) {
    if type_ == Records.RR_ANY then e.rr.type_ != Records.RR_NSEC else e.rr.type_ == type_
  }

  function Select(es: seq<RREntry>, type_: nat): seq<RREntry> {
    if es == [] then []
    else if Wanted(es[0], type_) then [es[0]] + Select(es[1..], type_)
    else Select(es[1..], type_)
  }

  /** The answers to a query, straight from the flat list. */
  function Matches(flat: seq<RREntry>, name: bytes, type_: nat): seq<RREntry> {
    if flat == [] then []
    else if flat[0].rr.name == name && Wanted(flat[0], type_) then [flat[0]] + Matches(flat[1..], name, type_)
    else Matches(flat[1..], name, type_)
  }

  lemma {:induction false} SelectNamed(flat: seq<RREntry>, name: bytes, type_: nat)
    ensures Select(Named(flat, name), type_) == Matches(flat, name, type_)
  {
    if flat != [] {
      SelectNamed(flat[1..], name, type_);
      if flat[0].rr.name == name {
        assert ([flat[0]] + Named(flat[1..], name))[1..] == Named(flat[1..], name);
      }
    }
  }

  lemma {:induction false} InNamed(flat: seq<RREntry>, name: bytes, x: RREntry)
    ensures x in Named(flat, name) <==> x in flat && x.rr.name == name
  {
    if flat != [] {
      InNamed(flat[1..], name, x);
      assert flat == [flat[0]] + flat[1..];
    }
  }

  lemma {:induction false} InMatches(flat: seq<RREntry>, name: bytes, type_: nat, x: RREntry)
    ensures x in Matches(flat, name, type_) <==> x in flat && x.rr.name == name && Wanted(x, type_)
  {
    if flat != [] {
      InMatches(flat[1..], name, type_, x);
      assert flat == [flat[0]] + flat[1..];
    }
  }

  lemma {:induction false} NamedLast(flat: seq<RREntry>, rr: RREntry, name: bytes)
    ensures Named(flat + [rr], name) == Named(flat, name) + if rr.rr.name == name then [rr] else []
  {
    if flat == [] {
      assert flat + [rr] == [rr] && [rr][1..] == [];
    } else {
      assert (flat + [rr])[0] == flat[0] && (flat + [rr])[1..] == flat[1..] + [rr];
      NamedLast(flat[1..], rr, name);
    }
  }

  /** Adding a record to the flat list adds it to the records of its name, and to no others. */
  lemma NamedAppend(flat: seq<RREntry>, rr: RREntry, name: bytes)
    ensures Named(AppendOne(flat, rr), name) == if rr.rr.name == name then AppendOne(Named(flat, name), rr) else Named(flat, name)
  {
    NamedLast(flat, rr, name);
    InNamed(flat, name, rr);
    assert Named(flat, name) + [] == Named(flat, name);
  }

  lemma {:induction false} SelectNext(es: seq<RREntry>, i: nat, type_: nat)
    requires i < |es|
    ensures Select(es[..i + 1], type_) == Select(es[..i], type_) + if Wanted(es[i], type_) then [es[i]] else []
    decreases i
  {
    if i == 0 {
      assert es[..1] == [es[0]] && es[..1][1..] == [] && es[..0] == [];
    } else {
      assert es[..i + 1][1..] == es[1..][..i] && es[..i][1..] == es[1..][..i - 1];
      SelectNext(es[1..], i - 1, type_);
    }
  }

  lemma SelectAll(es: seq<RREntry>, type_: nat)
    ensures Select(es[..|es|], type_) == Select(es, type_) && Select(es[..0], type_) == []
  {
    assert es[..|es|] == es;
  }

  // ----- The store in memory -----

  /** A group in the linked list of groups. Its records are compared by reference, like those of every list. */
  class Group {
    const name: bytes
    var rr: seq<RREntry>
    var next: Group?

    constructor (name: bytes, rr: seq<RREntry>, next: Group?)
      ensures this.name == name && this.rr == rr && this.next == next
    {
      this.name := name;
      this.rr := rr;
      this.next := next;
    }
  }

  /** The group holds exactly the records of its name, in the order of the flat list. */
  ghost predicate Holds(g: Group, next: Group?, flat: seq<RREntry>)
    reads g
  {
    g.next == next && g.rr == Named(flat, g.name) && g.rr != []
  }

  predicate Distinct(groups: seq<Group>) {
    forall i, j :: 0 <= i < j < |groups| ==> groups[i] != groups[j] && groups[i].name != groups[j].name
  }

  /** Every record has its group. */
  ghost predicate Covered(groups: seq<Group>, flat: seq<RREntry>) {
    forall k :: 0 <= k < |flat| ==> exists i :: 0 <= i < |groups| && groups[i].name == flat[k].rr.name
  }

  lemma StillNoDuplicates(flat: seq<RREntry>, rr: RREntry)
    requires NoDuplicates(flat)
    ensures NoDuplicates(AppendOne(flat, rr)) && AppendOne([], rr) == [rr]
  {
  }

  lemma StillCovered(groups: seq<Group>, i: nat, flat: seq<RREntry>, rr: RREntry)
    requires Covered(groups, flat) && i < |groups| && groups[i].name == rr.rr.name
    ensures Covered(groups, AppendOne(flat, rr))
  {
  }

  lemma NewlyCovered(groups: seq<Group>, g: Group, flat: seq<RREntry>, rr: RREntry)
    requires Covered(groups, flat) && g.name == rr.rr.name
    ensures Covered([g] + groups, AppendOne(flat, rr))
  {
    var groups' := [g] + groups;
    forall k | 0 <= k < |flat| ensures exists i :: 0 <= i < |groups'| && groups'[i].name == flat[k].rr.name {
      var i :| 0 <= i < |groups| && groups[i].name == flat[k].rr.name;
      assert groups'[i + 1] == groups[i];
    }
    assert groups'[0] == g;
  }

  /** A record whose name has no group is the first of its name. */
  lemma FirstOfItsName(groups: seq<Group>, flat: seq<RREntry>, name: bytes, type_: nat)
    requires Covered(groups, flat) && forall i :: 0 <= i < |groups| ==> groups[i].name != name
    ensures Named(flat, name) == [] && Matches(flat, name, type_) == []
  {
    var found := Named(flat, name);
    SelectNamed(flat, name, type_);
    if found != [] {
      InNamed(flat, name, found[0]);
    }
  }

  class Store {
    var group: Group?
    ghost var groups: seq<Group>
    /** All records in the order of their insertion. */
    ghost var flat: seq<RREntry>

    constructor ()
      ensures Valid() && flat == [] && groups == []
    {
      group := null;
      groups := [];
      flat := [];
    }

    ghost function GroupAt(i: nat): Group?
      reads this
    {
      if i < |groups| then groups[i] else null
    }

    /** Group names are distinct, each group holds exactly the records of its name, and every record has its group. */
    ghost predicate Valid()
      reads this, groups
    {
      && group == GroupAt(0)
      && (forall i :: 0 <= i < |groups| ==> Holds(groups[i], GroupAt(i + 1), flat))
      && Distinct(groups) && NoDuplicates(flat) && Covered(groups, flat)
    }

    /** rr_group_find */
    method Find(name: bytes) returns (g: Group?, ghost i: nat)
      requires Valid()
      ensures g != null ==> i < |groups| && g == groups[i] && g.name == name
      ensures g == null ==> forall j :: 0 <= j < |groups| ==> groups[j].name != name
    {
      g, i := group, 0;
      while g != null
        invariant 0 <= i <= |groups| && g == GroupAt(i)
        invariant forall j :: 0 <= j < i ==> groups[j].name != name
        decreases |groups| - i
      {
        if g.name == name {
          return;
        }
        assert Holds(groups[i], GroupAt(i + 1), flat);
        g, i := g.next, i + 1;
      }
    }

    /** rr_group_add: the record joins its group, or opens a new one in front of the others. */
    method Add(rr: RREntry)
      requires Valid()
      modifies this, groups
      ensures Valid() && flat == AppendOne(old(flat), rr)
      ensures forall g :: g in groups ==> g in old(groups) || fresh(g)
    {
      if group != null {
        var g, i := Find(rr.rr.name);
        if g != null {
          AddToGroup(g, i, rr);
          return;
        }
      }
      AddGroup(rr);
    }

    method AddToGroup(g: Group, ghost i: nat, rr: RREntry)
      requires Valid() && i < |groups| && g == groups[i] && g.name == rr.rr.name
      modifies `flat, g`rr
      ensures Valid() && flat == AppendOne(old(flat), rr)
    {
      hide Named, Covered, NoDuplicates, AppendOne;
      ghost var flat' := AppendOne(flat, rr);
      StillCovered(groups, i, flat, rr);
      StillNoDuplicates(flat, rr);
      forall j | 0 <= j < |groups| ensures j != i ==> Holds(groups[j], GroupAt(j + 1), flat') {
        NamedAppend(flat, rr, groups[j].name);
      }
      NamedAppend(flat, rr, g.name);
      g.rr := AppendOne(g.rr, rr);
      flat := flat';
    }

    method AddGroup(rr: RREntry)
      requires Valid() && forall i :: 0 <= i < |groups| ==> groups[i].name != rr.rr.name
      modifies this
      ensures Valid() && flat == AppendOne(old(flat), rr)
      ensures |groups| == |old(groups)| + 1 && groups[1..] == old(groups) && fresh(groups[0])
    {
      hide Named, Covered, Matches, NoDuplicates, AppendOne, Wanted, Select;
      ghost var flat' := AppendOne(flat, rr);
      StillNoDuplicates(flat, rr);
      FirstOfItsName(groups, flat, rr.rr.name, 0);
      NamedAppend(flat, rr, rr.rr.name);
      forall j | 0 <= j < |groups| ensures Holds(groups[j], GroupAt(j + 1), flat') {
        NamedAppend(flat, rr, groups[j].name);
      }
      var g := new Group(rr.rr.name, [rr], group);
      NewlyCovered(groups, g, flat, rr);
      ghost var before := groups;
      group := g;
      groups := [g] + groups;
      flat := flat';
      forall j | 0 <= j < |groups| ensures Holds(groups[j], GroupAt(j + 1), flat') {
        assert j > 0 ==> groups[j] == before[j - 1];
      }
    }

    /** populate_answers: appends what answers the query and is not there yet, and returns the growth of the list. */
    method PopulateAnswers(list: RRList, name: bytes, type_: nat) returns (numAns: nat)
      requires Valid() && list.Valid()
      modifies list, list.spine
      ensures Valid() && list.Valid() && old(list.spine) <= list.spine
      ensures list.Entries() == AppendNew(old(list.Entries()), Matches(flat, name, type_))
      ensures numAns == |list.spine| - |old(list.spine)|
      ensures forall k :: |old(list.spine)| <= k < |list.spine| ==> fresh(list.spine[k])
    {
      hide *;
      numAns := 0;
      var ansGrp, i := Find(name);
      AllCovered();
      if ansGrp == null {
        FirstOfItsName(groups, flat, name, type_);
        AppendNothing(list.Entries());
        return;
      }
      GroupHolds(i);
      SelectNamed(flat, name, type_);
      numAns := CopyWanted(list, ansGrp.rr, name, type_, flat);
    }

    lemma AllCovered()
      requires Valid()
      ensures Covered(groups, flat)
    {
    }

    lemma GroupHolds(i: nat)
      requires Valid() && i < |groups|
      ensures groups[i].rr == Named(flat, groups[i].name)
    {
      assert Holds(groups[i], GroupAt(i + 1), flat);
    }
  }

  /** The loop of populate_answers over one group. */
  method CopyWanted(list: RRList, es: seq<RREntry>, name: bytes, type_: nat, ghost flat: seq<RREntry>) returns (numAns: nat)
    requires list.Valid() && es == Named(flat, name)
    modifies list, list.spine
    ensures list.Valid() && old(list.spine) <= list.spine
    ensures list.Entries() == AppendNew(old(list.Entries()), Select(es, type_))
    ensures numAns == |list.spine| - |old(list.spine)|
    ensures forall k :: |old(list.spine)| <= k < |list.spine| ==> fresh(list.spine[k])
  {
    hide AppendOne, AppendNew, Select, Named, EntriesOf;
    numAns := 0;
    ghost var xs := list.Entries();
    SelectAll(es, type_);
    AppendNothing(xs);
    for i := 0 to |es|
      invariant list.Valid()
      invariant list.Entries() == AppendNew(xs, Select(es[..i], type_))
      invariant old(list.spine) <= list.spine && numAns == |list.spine| - |old(list.spine)|
      invariant forall k :: |old(list.spine)| <= k < |list.spine| ==> fresh(list.spine[k])
    {
      var n := es[i];
      SelectNext(es, i, type_);
      AppendNewLast(xs, Select(es[..i], type_), n);
      PlusNothing(Select(es[..i], type_));
      InNamed(flat, name, n);
      if type_ == Records.RR_ANY && n.rr.type_ == Records.RR_NSEC {
        continue;
      }
      if (type_ == n.rr.type_ || type_ == Records.RR_ANY) && name == n.rr.name {
        var added := list.Append(n);
        numAns := numAns + added;
      }
    }
  }

  lemma AppendNothing(xs: seq<RREntry>)
    ensures AppendNew(xs, []) == xs
  {
  }

  lemma PlusNothing(xs: seq<RREntry>)
    ensures xs + [] == xs
  {
  }
}
