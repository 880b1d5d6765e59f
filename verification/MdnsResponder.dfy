/** The responder at work: process_mdns_pkt and announce_srv fill a reply whose lists are linked and whose counters are 16 bits wide. */
module MdnsResponder {
  import opened Bytes
  import opened MdnsLists
  import opened MdnsStore
  import opened MdnsReply
  import Parser = MdnsParser
  import Records = MdnsRecords
  import RoundTrip = MdnsRoundTrip

  /** Response and authoritative answer. */
  const REPLY_FLAGS := 0x8400

  /** _services._dns-sd._udp.local as labels. */
  const SERVICES_DNS_SD: bytes :=
    [9, 0x5F, 0x73, 0x65, 0x72, 0x76, 0x69, 0x63, 0x65, 0x73, 7, 0x5F, 0x64, 0x6E, 0x73, 0x2D, 0x73, 0x64,
     4, 0x5F, 0x75, 0x64, 0x70, 5, 0x6C, 0x6F, 0x63, 0x61, 0x6C]

  lemma {:induction false} AppendNewConcat(xs: seq<RREntry>, ys: seq<RREntry>, zs: seq<RREntry>)
    ensures AppendNew(AppendNew(xs, ys), zs) == AppendNew(xs, ys + zs)
    decreases |ys|
  {
    hide AppendOne;
    if ys == [] {
      assert ys + zs == zs;
    } else {
      assert (ys + zs)[0] == ys[0] && (ys + zs)[1..] == ys[1..] + zs;
      AppendNewConcat(AppendOne(xs, ys[0]), ys[1..], zs);
    }
  }

  lemma RelatedByType(flat: seq<RREntry>, e: RREntry)
    ensures var t, r := e.rr.type_, Related(flat, e);
      && (t == Records.RR_PTR ==> e.rr.data.PTR? && r == Matches(flat, e.rr.data.target, Records.RR_ANY))
      && (t == Records.RR_SRV ==>
            e.rr.data.SRV? && r == Matches(flat, e.rr.data.host, Records.RR_ANY) + Matches(flat, e.rr.name, Records.RR_TXT))
      && (t == Records.RR_A || t == Records.RR_AAAA ==> r == Matches(flat, e.rr.name, Records.RR_NSEC))
      && (t !in {Records.RR_PTR, Records.RR_SRV, Records.RR_A, Records.RR_AAAA} ==> r == [])
  {
    hide Matches;
    assert Records.ValidRR(e.rr) && Records.DataOk(e.rr.type_, e.rr.data);
  }

  lemma WalkNext(flat: seq<RREntry>, same: bool, xs: seq<RREntry>, acc: seq<RREntry>, i: nat)
    requires InStore(flat, acc) && i < |Walked(same, xs, acc)|
    ensures var acc' := AppendNew(acc, Related(flat, Walked(same, xs, acc)[i]));
      && InStore(flat, acc') && |acc'| <= |flat| && acc <= acc'
      && Walk(flat, same, xs, acc, i) == Walk(flat, same, xs, acc', i + 1)
  {
    hide AppendNew, Related, InStore;
    WalkStep(flat, acc, Walked(same, xs, acc)[i]);
  }

  lemma WalkEnd(flat: seq<RREntry>, same: bool, xs: seq<RREntry>, acc: seq<RREntry>, i: nat)
    requires InStore(flat, acc) && i == |Walked(same, xs, acc)|
    ensures Walk(flat, same, xs, acc, i) == acc
  {
  }

  /** mdns_pkt as a reply. */
  class Reply {
    var id: nat
    var flags: nat
    var numQn: nat
    var numAnsRr: nat
    var numAuthRr: nat
    var numAddRr: nat
    const rrAns: RRList
    const rrAuth: RRList
    const rrAdd: RRList

    constructor ()
      ensures Valid() && fresh(rrAns) && fresh(rrAuth) && fresh(rrAdd)
    {
      id, flags, numQn, numAnsRr, numAuthRr, numAddRr := 0, 0, 0, 0, 0, 0;
      rrAns := new RRList();
      rrAuth := new RRList();
      rrAdd := new RRList();
    }

    /** The lists are well-formed and the counters tell their lengths. */
    ghost predicate Valid()
      reads this, rrAns, rrAuth, rrAdd, rrAns.spine, rrAdd.spine
    {
      && rrAns != rrAdd && rrAns != rrAuth && rrAuth != rrAdd
      && rrAns.Valid() && rrAdd.Valid() && rrAuth.spine == []
      && numAnsRr == |rrAns.spine| && numAuthRr == 0 && numAddRr == |rrAdd.spine|
    }

    lemma ListsValid()
      requires Valid()
      ensures rrAns != rrAdd && rrAns.Valid() && rrAdd.Valid()
    {
    }

    /** mdns_init_reply */
    method Init(id: nat)
      requires rrAns != rrAdd && rrAns != rrAuth && rrAuth != rrAdd
      modifies this, rrAns, rrAuth, rrAdd
      ensures Valid() && this.id == id && flags == REPLY_FLAGS && numQn == 0
      ensures rrAns.spine == [] && rrAdd.spine == []
    {
      this.id := id;
      flags := REPLY_FLAGS;
      rrAns.Clear();
      rrAuth.Clear();
      rrAdd.Clear();
      numQn, numAnsRr, numAuthRr, numAddRr := 0, 0, 0, 0;
    }

    /** One lookup for additional records. */
    method AddMatches(store: Store, name: bytes, type_: nat)
      requires store.Valid() && Valid() && |store.flat| < 0x1_0000 && InStore(store.flat, rrAdd.Entries())
      modifies this`numAddRr, rrAdd, rrAdd.spine
      ensures store.Valid() && Valid() && rrAns.spine == old(rrAns.spine) && old(rrAdd.spine) <= rrAdd.spine
      ensures rrAdd.Entries() == AppendNew(old(rrAdd.Entries()), Matches(store.flat, name, type_))
      ensures InStore(store.flat, rrAdd.Entries())
      ensures forall k :: |old(rrAdd.spine)| <= k < |rrAdd.spine| ==> fresh(rrAdd.spine[k])
    {
      hide AppendNew, InStore, Matches, EntriesOf, RRList.Valid, Store.Valid;
      rrAns.HeadNode();
      rrAdd.HeadNode();
      MatchesInStore(store.flat, name, type_);
      StaysInStore(store.flat, rrAdd.Entries(), Matches(store.flat, name, type_));
      var n := store.PopulateAnswers(rrAdd, name, type_);
      numAddRr := (numAddRr + n) % 0x1_0000;
    }

    /** The switch of add_related_rr. */
    method AddRelatedTo(store: Store, ans: RREntry)
      requires store.Valid() && Valid() && |store.flat| < 0x1_0000 && InStore(store.flat, rrAdd.Entries())
      modifies this`numAddRr, rrAdd, rrAdd.spine
      ensures store.Valid() && Valid() && rrAns.spine == old(rrAns.spine) && old(rrAdd.spine) <= rrAdd.spine
      ensures rrAdd.Entries() == AppendNew(old(rrAdd.Entries()), Related(store.flat, ans))
      ensures InStore(store.flat, rrAdd.Entries())
      ensures forall k :: |old(rrAdd.spine)| <= k < |rrAdd.spine| ==> fresh(rrAdd.spine[k])
    {
      hide *;
      RelatedByType(store.flat, ans);
      AppendNothing(rrAdd.Entries());
      if ans.rr.type_ == Records.RR_PTR {
        AddMatches(store, ans.rr.data.target, Records.RR_ANY);
      } else if ans.rr.type_ == Records.RR_SRV {
        AppendNewConcat(rrAdd.Entries(), Matches(store.flat, ans.rr.data.host, Records.RR_ANY), Matches(store.flat, ans.rr.name, Records.RR_TXT));
        AddMatches(store, ans.rr.data.host, Records.RR_ANY);
        AddMatches(store, ans.rr.name, Records.RR_TXT);
      } else if ans.rr.type_ == Records.RR_A || ans.rr.type_ == Records.RR_AAAA {
        AddMatches(store, ans.rr.name, Records.RR_NSEC);
      }
    }

    /** add_related_rr, over the answers or over the additional records themselves. */
    method AddRelated(store: Store, list: RRList)
      requires store.Valid() && Valid() && |store.flat| < 0x1_0000 && InStore(store.flat, rrAdd.Entries())
      requires list == rrAns || list == rrAdd
      modifies this`numAddRr, rrAdd, rrAdd.spine
      ensures store.Valid() && Valid() && rrAns.spine == old(rrAns.spine)
      ensures rrAdd.Entries() == Walk(store.flat, list == rrAdd, if list == rrAdd then [] else rrAns.Entries(), old(rrAdd.Entries()), 0)
      ensures old(rrAdd.spine) <= rrAdd.spine
      ensures forall k :: |old(rrAdd.spine)| <= k < |rrAdd.spine| ==> fresh(rrAdd.spine[k])
    {
      hide AppendNew, InStore, EntriesOf, Related, Walk, RRList.Valid, Store.Valid;
      ghost var flat, same, xs := store.flat, list == rrAdd, if list == rrAdd then [] else rrAns.Entries();
      ghost var i := 0;
      list.HeadNode();
      var node := list.head;
      while node != null
        invariant store.Valid() && Valid() && rrAns.spine == old(rrAns.spine)
        invariant i <= |list.spine| && node == list.NodeAt(i)
        invariant Walked(same, xs, rrAdd.Entries()) == list.Entries()
        invariant InStore(flat, rrAdd.Entries())
        invariant Walk(flat, same, xs, rrAdd.Entries(), i) == Walk(flat, same, xs, old(rrAdd.Entries()), 0)
        invariant old(rrAdd.spine) <= rrAdd.spine
        invariant forall k :: |old(rrAdd.spine)| <= k < |rrAdd.spine| ==> fresh(rrAdd.spine[k])
        decreases |flat| - |rrAdd.spine|, |list.spine| - i
      {
        WalkNext(flat, same, xs, rrAdd.Entries(), i);
        AddRelatedTo(store, node.e);
        list.NextNode(i);
        node, i := node.next, i + 1;
      }
      WalkEnd(flat, same, xs, rrAdd.Entries(), i);
    }

    method RemoveAnswer(prev: Node?, ans: Node, ghost i: nat)
      requires Valid() && |rrAns.spine| < 0x1_0000
      requires i < |rrAns.spine| && ans == rrAns.spine[i] && prev == if i == 0 then null else rrAns.spine[i - 1]
      modifies this`numAnsRr, rrAns, rrAns.spine
      ensures Valid() && rrAns.spine == old(rrAns.spine[..i] + rrAns.spine[i + 1..]) && rrAdd.spine == old(rrAdd.spine)
      ensures forall k :: 0 <= k < |rrAns.spine| ==> rrAns.spine[k] in old(rrAns.spine)
    {
      hide RRList.Valid;
      rrAns.HeadNode();
      rrAdd.HeadNode();
      rrAns.Unlink(prev, ans, i);
      numAnsRr := (numAnsRr + 0xFFFF) % 0x1_0000;
    }

    /** Removal of the answers that the querier already has, with a trailing pointer. */
    method SuppressKnown(known: seq<RR>)
      requires Valid() && |rrAns.spine| < 0x1_0000
      modifies this`numAnsRr, rrAns, rrAns.spine
      ensures Valid() && rrAns.Entries() == Unknown(old(rrAns.Entries()), known) && rrAdd.spine == old(rrAdd.spine)
      ensures forall k :: 0 <= k < |rrAns.spine| ==> rrAns.spine[k] in old(rrAns.spine)
    {
      hide *;
      ListsValid();
      ghost var xs, i, j := rrAns.Entries(), 0, 0;
      SuppressingEnds(xs, known);
      rrAns.HeadNode();
      var ans, prev: Node? := rrAns.head, null;
      while ans != null
        invariant Valid() && rrAdd.spine == old(rrAdd.spine)
        invariant 0 <= i <= |rrAns.spine| && j <= |xs|
        invariant ans == rrAns.NodeAt(i) && prev == if i == 0 then null else rrAns.spine[i - 1]
        invariant Suppressing(rrAns.Entries(), i, xs, j, known)
        invariant forall k :: 0 <= k < |rrAns.spine| ==> rrAns.spine[k] in old(rrAns.spine)
        invariant |rrAns.spine| < 0x1_0000
        decreases |xs| - j
      {
        ListsValid();
        rrAns.Node(i);
        SuppressingNext(rrAns.Entries(), i, xs, j, known);
        rrAns.NextNode(i);
        rrAns.Node(i + 1);
        var nextAns := ans.next;
        var knownAns := FindMatch(known, ans.e);
        KnownIs(known, ans.e);
        if knownAns.Some? && knownAns.value.ttl >= ans.e.rr.ttl / 2 {
          EntriesWithout(rrAns.spine, i);
          RemoveAnswer(prev, ans, i);
          ans := prev;
        } else {
          i := i + 1;
        }
        prev := ans;
        ans := nextAns;
        j := j + 1;
        rrAns.Node(i);
      }
      rrAns.Node(i);
      SuppressingDone(rrAns.Entries(), xs, j, known);
    }

    /** The loop over the questions; unicast questions are passed over. */
    method AnswerQuestions(store: Store, questions: seq<Records.Question>)
      requires store.Valid() && Valid() && |store.flat| < 0x1_0000 && rrAns.spine == [] && rrAdd.spine == []
      modifies this`numAnsRr, rrAns, rrAns.spine
      ensures store.Valid() && Valid() && rrAdd.spine == []
      ensures rrAns.Entries() == AnswersFrom(store.flat, [], questions) && InStore(store.flat, rrAns.Entries())
      ensures forall k :: 0 <= k < |rrAns.spine| ==> fresh(rrAns.spine[k])
    {
      hide AnswersFrom, AppendNew, Matches, InStore, EntriesOf, RRList.Valid, Store.Valid;
      NothingAnswered(store, questions);
      for i := 0 to |questions|
        invariant store.Valid() && Valid() && rrAdd.spine == []
        invariant InStore(store.flat, rrAns.Entries())
        invariant AnswersFrom(store.flat, rrAns.Entries(), questions[i..]) == AnswersFrom(store.flat, [], questions)
        invariant forall k :: 0 <= k < |rrAns.spine| ==> fresh(rrAns.spine[k])
      {
        var qn := questions[i];
        AnswersNext(store.flat, rrAns.Entries(), questions, i);
        if qn.unicastQuery {
          continue;
        }
        MatchesInStore(store.flat, qn.name, qn.type_);
        StaysInStore(store.flat, rrAns.Entries(), Matches(store.flat, qn.name, qn.type_));
        rrAdd.HeadNode();
        var numAnsAdded := store.PopulateAnswers(rrAns, qn.name, qn.type_);
        numAnsRr := (numAnsRr + numAnsAdded) % 0x1_0000;
      }
      AnswersDone(store.flat, rrAns.Entries(), questions);
    }

    /**
      * process_mdns_pkt: a standard query is answered with what it asks for, less what it knows, together with the
      * least closed set of related records; anything else leaves the reply alone.
      */
    method Process(store: Store, pkt: Records.Packet) returns (r: nat)
      requires store.Valid() && Valid() && |store.flat| < 0x1_0000
      modifies this, rrAns, rrAuth, rrAdd, rrAns.spine, rrAdd.spine
      ensures store.Valid() && Valid()
      ensures !StandardQuery(pkt.flags) ==>
        r == 0 && id == old(id) && flags == old(flags) && numQn == old(numQn) && rrAns.spine == old(rrAns.spine) && rrAdd.spine == old(rrAdd.spine)
      ensures StandardQuery(pkt.flags) ==>
        && r == numAnsRr && id == pkt.id && flags == REPLY_FLAGS && numQn == 0
        && rrAns.Entries() == Answers(store.flat, pkt.questions, pkt.answers)
        && rrAdd.Entries() == Additional(store.flat, rrAns.Entries())
    {
      hide AnswersFrom, AppendNew, InStore, EntriesOf, RRList.Valid, Store.Valid, Unknown, Walk, Additional, NoDuplicates;
      if !StandardQuery(pkt.flags) {
        return 0;
      }
      NothingAdded(store);
      Init(pkt.id);
      AnswerQuestions(store, pkt.questions);
      InStoreSize(store.flat, rrAns.Entries());
      SuppressKnown(pkt.answers);
      AddAll(store);
      r := numAnsRr;
    }

    /** announce_srv: the PTR records of one service type and of the service directory, and what is related to them. */
    method Announce(store: Store, name: bytes)
      requires store.Valid() && Valid() && |store.flat| < 0x1_0000
      modifies this, rrAns, rrAuth, rrAdd, rrAns.spine, rrAdd.spine
      ensures store.Valid() && Valid() && id == 0 && flags == REPLY_FLAGS
      ensures rrAns.Entries() == AppendNew(Matches(store.flat, name, Records.RR_PTR), Matches(store.flat, SERVICES_DNS_SD, Records.RR_PTR))
      ensures rrAdd.Entries() == Additional(store.flat, rrAns.Entries())
    {
      hide AppendNew, InStore, EntriesOf, RRList.Valid, Store.Valid, Walk, Matches, Additional, NoDuplicates;
      NothingAdded(store);
      Init(0);
      ghost var ys, zs := Matches(store.flat, name, Records.RR_PTR), Matches(store.flat, SERVICES_DNS_SD, Records.RR_PTR);
      AnnouncedInStore(store, name);
      rrAdd.HeadNode();
      var n := store.PopulateAnswers(rrAns, name, Records.RR_PTR);
      numAnsRr := (numAnsRr + n) % 0x1_0000;
      n := store.PopulateAnswers(rrAns, SERVICES_DNS_SD, Records.RR_PTR);
      numAnsRr := (numAnsRr + n) % 0x1_0000;
      AddAll(store);
    }

    /** Both passes of add_related_rr. */
    method AddAll(store: Store)
      requires store.Valid() && Valid() && |store.flat| < 0x1_0000 && rrAdd.spine == []
      modifies this`numAddRr, rrAdd
      ensures store.Valid() && Valid() && rrAns.spine == old(rrAns.spine)
      ensures rrAdd.Entries() == Additional(store.flat, rrAns.Entries())
    {
      hide InStore, EntriesOf, RRList.Valid, Store.Valid, Walk;
      NothingAdded(store);
      AddRelated(store, rrAns);
      AddRelated(store, rrAdd);
    }
  }

  lemma NothingAnswered(store: Store, questions: seq<Records.Question>)
    requires store.Valid()
    ensures questions[0..] == questions && EntriesOf([]) == [] && InStore(store.flat, [])
  {
  }

  lemma NothingAdded(store: Store)
    requires store.Valid()
    ensures NoDuplicates(store.flat) && EntriesOf([]) == [] && InStore(store.flat, [])
  {
  }

  lemma InStoreSize(flat: seq<RREntry>, xs: seq<RREntry>)
    requires InStore(flat, xs)
    ensures |xs| <= |flat|
  {
    NoMoreThan(xs, flat);
  }

  lemma AnnouncedInStore(store: Store, name: bytes)
    requires store.Valid()
    ensures var ys, zs := Matches(store.flat, name, Records.RR_PTR), Matches(store.flat, SERVICES_DNS_SD, Records.RR_PTR);
      EntriesOf([]) == [] && AppendNew([], ys) == ys && |ys| <= |AppendNew(ys, zs)| <= |store.flat|
  {
    var ys, zs := Matches(store.flat, name, Records.RR_PTR), Matches(store.flat, SERVICES_DNS_SD, Records.RR_PTR);
    MatchesNoDuplicates(store.flat, name, Records.RR_PTR);
    AppendAll([], ys);
    MatchesInStore(store.flat, name, Records.RR_PTR);
    MatchesInStore(store.flat, SERVICES_DNS_SD, Records.RR_PTR);
    StaysInStore(store.flat, ys, zs);
    assert [] + ys == ys;
  }

  lemma {:induction false} MatchesNoDuplicates(flat: seq<RREntry>, name: bytes, type_: nat)
    requires NoDuplicates(flat)
    ensures NoDuplicates(Matches(flat, name, type_))
  {
    if flat != [] {
      MatchesNoDuplicates(flat[1..], name, type_);
      InMatches(flat[1..], name, type_, flat[0]);
    }
  }

  lemma {:induction false} AppendAll(xs: seq<RREntry>, ys: seq<RREntry>)
    requires NoDuplicates(xs + ys)
    ensures AppendNew(xs, ys) == xs + ys
    decreases |ys|
  {
    if ys == [] {
      assert xs + ys == xs;
    } else {
      assert xs + [ys[0]] + ys[1..] == xs + ys;
      assert ys[0] !in xs by {
        assert (xs + ys)[|xs|] == ys[0];
        assert forall k :: 0 <= k < |xs| ==> (xs + ys)[k] == xs[k];
      }
      AppendAll(xs + [ys[0]], ys[1..]);
    }
  }

  lemma AnswersNext(flat: seq<RREntry>, xs: seq<RREntry>, questions: seq<Records.Question>, i: nat)
    requires i < |questions|
    ensures AnswersFrom(flat, xs, questions[i..])
         == AnswersFrom(flat, if questions[i].unicastQuery then xs else AppendNew(xs, Matches(flat, questions[i].name, questions[i].type_)), questions[i + 1..])
  {
    assert questions[i..][0] == questions[i] && questions[i..][1..] == questions[i + 1..];
  }

  lemma AnswersDone(flat: seq<RREntry>, xs: seq<RREntry>, questions: seq<Records.Question>)
    ensures AnswersFrom(flat, xs, questions[|questions|..]) == xs
  {
  }

  /** The first i entries are what is left of the first j answers; the others are still to be looked at. */
  predicate Suppressing(es: seq<RREntry>, i: nat, xs: seq<RREntry>, j: nat, known: seq<RR>) {
    i <= |es| && j <= |xs| && es[..i] == Unknown(xs[..j], known) && es[i..] == xs[j..]
  }

  lemma SuppressingEnds(xs: seq<RREntry>, known: seq<RR>)
    ensures Suppressing(xs, 0, xs, 0, known)
  {
  }

  lemma SuppressingNext(es: seq<RREntry>, i: nat, xs: seq<RREntry>, j: nat, known: seq<RR>)
    requires Suppressing(es, i, xs, j, known) && i < |es|
    ensures j < |xs| && xs[j] == es[i]
    ensures !IsKnown(known, es[i]) ==> Suppressing(es, i + 1, xs, j + 1, known)
    ensures IsKnown(known, es[i]) ==> Suppressing(es[..i] + es[i + 1..], i, xs, j + 1, known)
  {
    hide Unknown, IsKnown;
    assert es[i..][0] == es[i] && xs[j..][0] == xs[j];
    UnknownNext(xs, known, j);
    assert es[..i + 1] == es[..i] + [es[i]] && es[i + 1..] == es[i..][1..] && xs[j + 1..] == xs[j..][1..];
    var rest := es[..i] + es[i + 1..];
    assert rest[..i] == es[..i] && rest[i..] == es[i + 1..];
    assert es[..i] + [] == es[..i];
  }

  lemma SuppressingDone(es: seq<RREntry>, xs: seq<RREntry>, j: nat, known: seq<RR>)
    requires Suppressing(es, |es|, xs, j, known)
    ensures es == Unknown(xs, known)
  {
    assert |xs[j..]| == 0;
    assert es[..|es|] == es && xs[..|xs|] == xs;
  }

  lemma KnownIs(known: seq<RR>, e: RREntry)
    ensures IsKnown(known, e) <==> Match(known, e).Some? && Match(known, e).value.ttl >= e.rr.ttl / 2
  {
  }

  /** The loop of rr_entry_match. */
  method FindMatch(known: seq<RR>, e: RREntry) returns (r: Option<RR>)
    ensures r == Match(known, e)
  {
    assert known[0..] == known;
    for k := 0 to |known|
      invariant Match(known, e) == Match(known[k..], e)
    {
      assert known[k..][0] == known[k] && known[k..][1..] == known[k + 1..];
      if SameRecord(known[k], e) {
        return Some(known[k]);
      }
    }
    r := None;
  }

  // ----- From query to parsed reply -----

  function Contents(xs: seq<RREntry>): (r: seq<RR>)
    ensures |r| == |xs| && forall k :: 0 <= k < |xs| ==> r[k] == xs[k].rr
  {
    seq(|xs|, i requires 0 <= i < |xs| => xs[i].rr)
  }

  /** The reply as the encoder gets it. */
  function OnTheWire(id: nat, answers: seq<RREntry>, additional: seq<RREntry>): Records.Reply {
    Records.Reply(id, REPLY_FLAGS, Contents(answers), [], Contents(additional))
  }

  lemma ContentsValid(xs: seq<RREntry>)
    ensures Records.ValidRRs(Contents(xs))
  {
    forall k | 0 <= k < |xs| ensures Records.ValidRR(Contents(xs)[k]) {
      assert Contents(xs)[k] == xs[k].rr;
    }
  }

  lemma WireIsValid(id: nat, flat: seq<RREntry>, answers: seq<RREntry>)
    requires id < 0x1_0000 && |flat| < 0x1_0000 && NoDuplicates(flat) && InStore(flat, answers)
    ensures Records.ValidReply(OnTheWire(id, answers, Additional(flat, answers)))
  {
    hide Records.ValidRR, Additional, NoDuplicates, InStore;
    var additional := Additional(flat, answers);
    ContentsValid(answers);
    ContentsValid(additional);
    InStoreSize(flat, answers);
    InStoreSize(flat, additional);
  }

  lemma AnswersInStoreToo(flat: seq<RREntry>, questions: seq<Records.Question>, known: seq<RR>)
    requires NoDuplicates(flat)
    ensures InStore(flat, Answers(flat, questions, known))
  {
    AnswersAre(flat, questions, known);
    hide Answers;
    forall x | x in Elements(Answers(flat, questions, known)) ensures x in Elements(flat) {
      assert x in Answers(flat, questions, known);
    }
  }

  /** The reply that Process puts together for a standard query. */
  function ReplyTo(flat: seq<RREntry>, query: Records.Packet): (r: Records.Reply)
    requires NoDuplicates(flat) && |flat| < 0x1_0000 && query.id < 0x1_0000
    ensures Records.ValidReply(r)
  {
    var answers := Answers(flat, query.questions, query.answers);
    AnswersInStoreToo(flat, query.questions, query.answers);
    WireIsValid(query.id, flat, answers);
    OnTheWire(query.id, answers, Additional(flat, answers))
  }

  /**
    * The way of a reply: encoded into a packet of at most 16384 bytes and parsed by the querier, it gives the answers
    * again, or nothing when an answer has a 63-byte TXT string. Either way the parser reads inside the packet.
    */
  lemma ReplyArrives(flat: seq<RREntry>, query: Records.Packet)
    requires NoDuplicates(flat) && |flat| < 0x1_0000 && query.id < 0x1_0000
    requires |Records.EncodePacket(ReplyTo(flat, query))| <= 0x4000
    ensures var answers := Contents(Answers(flat, query.questions, query.answers));
      Records.ParsePacket(Records.EncodePacket(ReplyTo(flat, query)))
      == if RoundTrip.AllParsable(answers) then Some(Records.Packet(query.id, REPLY_FLAGS, [], RoundTrip.RecoveredAll(answers))) else None
    ensures Parser.PacketReadable(Records.EncodePacket(ReplyTo(flat, query)))
  {
    hide *;
    ReplyHolds(flat, query);
    RoundTrip.SmallPacketRoundTrip(ReplyTo(flat, query));
    Parser.SmallReplyReadable(ReplyTo(flat, query));
  }

  lemma ReplyHolds(flat: seq<RREntry>, query: Records.Packet)
    requires NoDuplicates(flat) && |flat| < 0x1_0000 && query.id < 0x1_0000
    ensures var r := ReplyTo(flat, query);
      r.id == query.id && r.flags == REPLY_FLAGS && r.answers == Contents(Answers(flat, query.questions, query.answers))
  {
    hide Answers, Additional, Contents;
  }

  /** The first of the answers that rr_entry_match cannot tell from x. */
  predicate FirstLike(xs: seq<RREntry>, i: nat, x: RREntry)
    requires i < |xs|
  {
    SameRecord(xs[i].rr, x) && forall k :: 0 <= k < i ==> !SameRecord(xs[k].rr, x)
  }

  /** Of answers that cannot be told apart, the first lives at least half as long as each of the others. */
  predicate FirstLivesOn(xs: seq<RREntry>) {
    forall i, j :: 0 <= i < |xs| && 0 <= j < |xs| && FirstLike(xs, i, xs[j]) ==> xs[i].rr.ttl >= xs[j].rr.ttl / 2
  }

  /** It is enough that records which cannot be told apart live equally long. */
  predicate SameTtl(flat: seq<RREntry>) {
    forall e, f :: e in flat && f in flat && SameRecord(e.rr, f) ==> e.rr.ttl == f.rr.ttl
  }

  lemma SameTtlLivesOn(flat: seq<RREntry>, xs: seq<RREntry>)
    requires SameTtl(flat) && forall x :: x in xs ==> x in flat
    ensures FirstLivesOn(xs)
  {
    forall i, j | 0 <= i < |xs| && 0 <= j < |xs| && FirstLike(xs, i, xs[j]) ensures xs[i].rr.ttl >= xs[j].rr.ttl / 2 {
      assert xs[i] in xs && xs[j] in xs;
    }
  }

  lemma {:induction false} MatchIsFirst(known: seq<RR>, x: RREntry, i: nat)
    requires i < |known| && SameRecord(known[i], x) && forall k :: 0 <= k < i ==> !SameRecord(known[k], x)
    ensures Match(known, x) == Some(known[i])
  {
    if i > 0 {
      MatchIsFirst(known[1..], x, i - 1);
    }
  }

  lemma FirstIsKnown(xs: seq<RREntry>, i: nat, x: RREntry)
    requires i < |xs| && FirstLike(xs, i, x)
    ensures IsKnown(Contents(xs), x) <==> xs[i].rr.ttl >= x.rr.ttl / 2
  {
    hide SameRecord, Match;
    MatchIsFirst(Contents(xs), x, i);
  }

  /** There is one at the latest where the answer itself stands. */
  lemma FindFirst(xs: seq<RREntry>, j: nat) returns (i: nat)
    requires j < |xs|
    ensures i <= j && FirstLike(xs, i, xs[j])
  {
    SameAfterParsing(xs[j].rr, xs[j]);
    i := 0;
    while !SameRecord(xs[i].rr, xs[j])
      invariant 0 <= i <= j && forall k :: 0 <= k < i ==> !SameRecord(xs[k].rr, xs[j])
      decreases j - i
    {
      i := i + 1;
    }
  }

  lemma LivesOnIsKnown(xs: seq<RREntry>)
    ensures FirstLivesOn(xs) <==> forall x :: x in xs ==> IsKnown(Contents(xs), x)
  {
    hide FirstLike, IsKnown;
    forall i, j | 0 <= i < |xs| && 0 <= j < |xs| && FirstLike(xs, i, xs[j])
      ensures IsKnown(Contents(xs), xs[j]) <==> xs[i].rr.ttl >= xs[j].rr.ttl / 2
    {
      FirstIsKnown(xs, i, xs[j]);
    }
    forall x | x in xs ensures FirstLivesOn(xs) ==> IsKnown(Contents(xs), x) {
      var j :| 0 <= j < |xs| && xs[j] == x;
      var i := FindFirst(xs, j);
    }
    forall i, j | 0 <= i < |xs| && 0 <= j < |xs| && FirstLike(xs, i, xs[j])
      ensures (forall x :: x in xs ==> IsKnown(Contents(xs), x)) ==> xs[i].rr.ttl >= xs[j].rr.ttl / 2
    {
      assert xs[j] in xs;
    }
  }

  /**
    * A querier that asks again and names the answers it parsed as known answers gets none, exactly when of answers that
    * cannot be told apart the first lives at least half as long as the others.
    */
  lemma AskingAgain(flat: seq<RREntry>, questions: seq<Records.Question>)
    requires NoDuplicates(flat)
    ensures var first := Answers(flat, questions, []);
      && (Answers(flat, questions, RoundTrip.RecoveredAll(Contents(first))) == [] <==> FirstLivesOn(first))
      && (SameTtl(flat) ==> FirstLivesOn(first))
  {
    hide Match, Contents, IsKnown, FirstLike, FirstLivesOn;
    var first := Answers(flat, questions, []);
    var known := Contents(first);
    var again := Answers(flat, questions, RoundTrip.RecoveredAll(known));
    NothingKnown();
    AnswersAre(flat, questions, []);
    AnswersAre(flat, questions, RoundTrip.RecoveredAll(known));
    ContentsValid(first);
    LivesOnIsKnown(first);
    if again == [] {
      forall x | x in first ensures IsKnown(known, x) {
        KnownAfterParsing(known, x);
        assert x !in again;
      }
    } else {
      var x := again[0];
      assert x in again;
      KnownAfterParsing(known, x);
      assert x in first && !IsKnown(known, x) by {
        assert !IsKnown([], x);
      }
    }
    if SameTtl(flat) {
      SameTtlLivesOn(flat, first);
    }
  }

  lemma NothingKnown()
    ensures forall x :: !IsKnown([], x)
  {
  }
}
