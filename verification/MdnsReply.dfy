/**
  * Building a reply: the answers to the questions, known-answer suppression (section 7.1 of RFC 6762) and the
  * additional records (section 12 of RFC 6763), which are found by walking a list while it grows.
  */
module MdnsReply {
  import opened Bytes
  import opened MdnsLists
  import opened MdnsStore
  import Records = MdnsRecords
  import RoundTrip = MdnsRoundTrip

  type RR = Records.RR

  // ----- Related records -----

  /** What add_related_rr looks up for one record, in its order. */
  function Related(flat: seq<RREntry>, e: RREntry): seq<RREntry> {
    match e.rr.data
    case PTR(target) => Matches(flat, target, Records.RR_ANY)
    case SRV(_, _, _, host) => Matches(flat, host, Records.RR_ANY) + Matches(flat, e.rr.name, Records.RR_TXT)
    case A(_) => Matches(flat, e.rr.name, Records.RR_NSEC)
    case AAAA(_) => Matches(flat, e.rr.name, Records.RR_NSEC)
    case _ => []
  }

  /** The relation itself. */
  predicate RelatedTo(e: RREntry, x: RREntry) {
    match e.rr.data
    case PTR(target) => x.rr.name == target && x.rr.type_ != Records.RR_NSEC
    case SRV(_, _, _, host) =>
      (x.rr.name == host && x.rr.type_ != Records.RR_NSEC) || (x.rr.name == e.rr.name && x.rr.type_ == Records.RR_TXT)
    case A(_) => x.rr.name == e.rr.name && x.rr.type_ == Records.RR_NSEC
    case AAAA(_) => x.rr.name == e.rr.name && x.rr.type_ == Records.RR_NSEC
    case _ => false
  }

  lemma InRelated(flat: seq<RREntry>, e: RREntry, x: RREntry)
    ensures x in Related(flat, e) <==> x in flat && RelatedTo(e, x)
  {
    hide Matches;
    match e.rr.data
    case PTR(target) => InMatches(flat, target, Records.RR_ANY, x);
    case SRV(_, _, _, host) =>
      InMatches(flat, host, Records.RR_ANY, x);
      InMatches(flat, e.rr.name, Records.RR_TXT, x);
    case A(_) => InMatches(flat, e.rr.name, Records.RR_NSEC, x);
    case AAAA(_) => InMatches(flat, e.rr.name, Records.RR_NSEC, x);
    case _ =>
  }

  // ----- Walking a list that may be the one that grows -----

  predicate InStore(flat: seq<RREntry>, xs: seq<RREntry>) {
    NoDuplicates(flat) && NoDuplicates(xs) && Elements(xs) <= Elements(flat)
  }

  lemma StaysInStore(flat: seq<RREntry>, xs: seq<RREntry>, ys: seq<RREntry>)
    requires InStore(flat, xs) && Elements(ys) <= Elements(flat)
    ensures InStore(flat, AppendNew(xs, ys)) && |AppendNew(xs, ys)| <= |flat|
  {
    AppendNewElements(xs, ys);
    AppendNewNoDuplicates(xs, ys);
    NoMoreThan(AppendNew(xs, ys), flat);
  }

  lemma MatchesInStore(flat: seq<RREntry>, name: bytes, type_: nat)
    ensures Elements(Matches(flat, name, type_)) <= Elements(flat)
  {
    forall x | x in Matches(flat, name, type_) ensures x in flat {
      InMatches(flat, name, type_, x);
    }
  }

  lemma RelatedInStore(flat: seq<RREntry>, e: RREntry)
    ensures Elements(Related(flat, e)) <= Elements(flat)
  {
    forall x | x in Related(flat, e) ensures x in flat {
      InRelated(flat, e, x);
    }
  }

  /** The list that is walked: the growing one itself, or another that stays as it is. */
  function Walked(same: bool, xs: seq<RREntry>, acc: seq<RREntry>): seq<RREntry> {
    if same then acc else xs
  }

  lemma WalkStep(flat: seq<RREntry>, acc: seq<RREntry>, e: RREntry)
    requires InStore(flat, acc)
    ensures var acc' := AppendNew(acc, Related(flat, e)); InStore(flat, acc') && |acc'| <= |flat| && (|acc'| == |acc| ==> acc' == acc)
  {
    RelatedInStore(flat, e);
    StaysInStore(flat, acc, Related(flat, e));
  }

  /** add_related_rr from position i on. It ends because every step uses up a record of the store or a position. */
  function Walk(flat: seq<RREntry>, same: bool, xs: seq<RREntry>, acc: seq<RREntry>, i: nat): (r: seq<RREntry>)
    requires InStore(flat, acc) && i <= |Walked(same, xs, acc)|
    ensures InStore(flat, r) && acc <= r
    decreases |flat| - |acc|, |Walked(same, xs, acc)| - i
  {
    if i == |Walked(same, xs, acc)| then acc
    else
      var e := Walked(same, xs, acc)[i];
      WalkStep(flat, acc, e);
      Walk(flat, same, xs, AppendNew(acc, Related(flat, e)), i + 1)
  }

  /** The additional records for a list of answers: one pass over the answers, one over the result. */
  function Additional(flat: seq<RREntry>, answers: seq<RREntry>): (r: seq<RREntry>)
    requires NoDuplicates(flat)
    ensures InStore(flat, r)
  {
    Walk(flat, true, [], Walk(flat, false, answers, [], 0), 0)
  }

  ghost predicate Closed(flat: seq<RREntry>, s: set<RREntry>) {
    forall e, x :: e in s && x in flat && RelatedTo(e, x) ==> x in s
  }

  /** Everything related to the first n records of xs is in s. */
  ghost predicate Covers(flat: seq<RREntry>, xs: seq<RREntry>, n: nat, s: set<RREntry>)
    requires n <= |xs|
  {
    forall k, x :: 0 <= k < n && x in flat && RelatedTo(xs[k], x) ==> x in s
  }

  lemma StepCovers(flat: seq<RREntry>, acc: seq<RREntry>, e: RREntry, s: set<RREntry>)
    requires Elements(AppendNew(acc, Related(flat, e))) <= s
    ensures forall x :: x in flat && RelatedTo(e, x) ==> x in s
  {
    AppendNewElements(acc, Related(flat, e));
    forall x | x in flat && RelatedTo(e, x) ensures x in s {
      InRelated(flat, e, x);
      assert x in Elements(Related(flat, e));
    }
  }

  /** A pass over another list covers all of it. */
  lemma {:induction false} FirstPassCovers(flat: seq<RREntry>, xs: seq<RREntry>, acc: seq<RREntry>, i: nat)
    requires InStore(flat, acc) && i <= |xs| && Covers(flat, xs, i, Elements(acc))
    ensures Covers(flat, xs, |xs|, Elements(Walk(flat, false, xs, acc, i)))
    decreases |xs| - i
  {
    hide RelatedTo, Related, AppendNew, InStore;
    if i < |xs| {
      WalkStep(flat, acc, xs[i]);
      var acc' := AppendNew(acc, Related(flat, xs[i]));
      StepCovers(flat, acc, xs[i], Elements(acc'));
      assert Elements(acc) <= Elements(acc');
      FirstPassCovers(flat, xs, acc', i + 1);
    }
  }

  /** A pass over the growing list covers everything that is in it at the end. */
  lemma {:induction false} SecondPassCovers(flat: seq<RREntry>, acc: seq<RREntry>, i: nat)
    requires InStore(flat, acc) && i <= |acc| && Covers(flat, acc, i, Elements(acc))
    ensures var r := Walk(flat, true, [], acc, i); Covers(flat, r, |r|, Elements(r))
    decreases |flat| - |acc|, |acc| - i
  {
    hide RelatedTo, Related, AppendNew, InStore;
    if i < |acc| {
      WalkStep(flat, acc, acc[i]);
      var acc' := AppendNew(acc, Related(flat, acc[i]));
      StepCovers(flat, acc, acc[i], Elements(acc'));
      assert Elements(acc) <= Elements(acc');
      assert forall k :: 0 <= k < |acc| ==> acc'[k] == acc[k];
      SecondPassCovers(flat, acc', i + 1);
    }
  }

  /** Nothing enters that a closed set does without. */
  lemma {:induction false} WalkStaysIn(flat: seq<RREntry>, same: bool, xs: seq<RREntry>, acc: seq<RREntry>, i: nat, s: set<RREntry>)
    requires InStore(flat, acc) && i <= |Walked(same, xs, acc)|
    requires Elements(acc) <= s && (if same then Closed(flat, s) else Covers(flat, xs, |xs|, s))
    ensures Elements(Walk(flat, same, xs, acc, i)) <= s
    decreases |flat| - |acc|, |Walked(same, xs, acc)| - i
  {
    hide RelatedTo, Related, AppendNew, InStore;
    if i < |Walked(same, xs, acc)| {
      var e := Walked(same, xs, acc)[i];
      WalkStep(flat, acc, e);
      AppendNewElements(acc, Related(flat, e));
      forall x | x in Related(flat, e) ensures x in s {
        InRelated(flat, e, x);
        assert same ==> e in Elements(acc);
      }
      WalkStaysIn(flat, same, xs, AppendNew(acc, Related(flat, e)), i + 1, s);
    }
  }

  /** rr_add covers the answers and is closed under "related record". */
  lemma AdditionalIsClosed(flat: seq<RREntry>, answers: seq<RREntry>)
    requires NoDuplicates(flat)
    ensures var r := Additional(flat, answers); NoDuplicates(r) && Covers(flat, answers, |answers|, Elements(r)) && Closed(flat, Elements(r))
  {
    var first := Walk(flat, false, answers, [], 0);
    FirstPassCovers(flat, answers, [], 0);
    SecondPassCovers(flat, first, 0);
    var r := Additional(flat, answers);
    assert Elements(first) <= Elements(r);
    forall e, x | e in Elements(r) && x in flat && RelatedTo(e, x) ensures x in Elements(r) {
      var k :| 0 <= k < |r| && r[k] == e;
    }
  }

  /** It is the least such set. */
  lemma AdditionalIsLeast(flat: seq<RREntry>, answers: seq<RREntry>, s: set<RREntry>)
    requires NoDuplicates(flat) && Covers(flat, answers, |answers|, s) && Closed(flat, s)
    ensures Elements(Additional(flat, answers)) <= s
  {
    WalkStaysIn(flat, false, answers, [], 0, s);
    WalkStaysIn(flat, true, [], Walk(flat, false, answers, [], 0), 0, s);
  }

  // ----- Questions and known answers -----

  function AnswersFrom(flat: seq<RREntry>, xs: seq<RREntry>, questions: seq<Records.Question>): (r: seq<RREntry>)
    decreases |questions|
  {
    if questions == [] then xs
    else if questions[0].unicastQuery then AnswersFrom(flat, xs, questions[1..])
    else AnswersFrom(flat, AppendNew(xs, Matches(flat, questions[0].name, questions[0].type_)), questions[1..])
  }

  /** A record of the store that some multicast question asks for. */
  predicate AskedFor(x: RREntry, questions: seq<Records.Question>) {
    exists k :: 0 <= k < |questions| && !questions[k].unicastQuery && x.rr.name == questions[k].name && Wanted(x, questions[k].type_)
  }

  lemma AskedForFirst(x: RREntry, questions: seq<Records.Question>)
    requires questions != []
    ensures AskedFor(x, questions)
       <==> (!questions[0].unicastQuery && x.rr.name == questions[0].name && Wanted(x, questions[0].type_)) || AskedFor(x, questions[1..])
  {
    assert forall k :: 0 <= k < |questions[1..]| ==> questions[1..][k] == questions[k + 1];
    if AskedFor(x, questions[1..]) {
      var k :| 0 <= k < |questions[1..]| && !questions[1..][k].unicastQuery && x.rr.name == questions[1..][k].name && Wanted(x, questions[1..][k].type_);
      assert questions[k + 1] == questions[1..][k];
    }
  }

  lemma {:induction false} InAnswers(flat: seq<RREntry>, xs: seq<RREntry>, questions: seq<Records.Question>, x: RREntry)
    ensures x in AnswersFrom(flat, xs, questions) <==> x in xs || (x in flat && AskedFor(x, questions))
    decreases |questions|
  {
    hide AppendNew, Matches, Wanted, AskedFor;
    if questions != [] {
      AskedForFirst(x, questions);
      var q := questions[0];
      if q.unicastQuery {
        InAnswers(flat, xs, questions[1..], x);
      } else {
        InAnswers(flat, AppendNew(xs, Matches(flat, q.name, q.type_)), questions[1..], x);
        AppendNewElements(xs, Matches(flat, q.name, q.type_));
        InMatches(flat, q.name, q.type_, x);
        assert x in AppendNew(xs, Matches(flat, q.name, q.type_)) <==> x in Elements(xs) + Elements(Matches(flat, q.name, q.type_));
      }
    } else {
      NotAsked(x);
    }
  }

  lemma NotAsked(x: RREntry)
    ensures !AskedFor(x, [])
  {
  }

  lemma {:induction false} AnswersInStore(flat: seq<RREntry>, xs: seq<RREntry>, questions: seq<Records.Question>)
    requires InStore(flat, xs)
    ensures InStore(flat, AnswersFrom(flat, xs, questions))
    decreases |questions|
  {
    hide AppendNew, Matches, InStore;
    if questions != [] {
      var q := questions[0];
      MatchesInStore(flat, q.name, q.type_);
      StaysInStore(flat, xs, Matches(flat, q.name, q.type_));
      AnswersInStore(flat, if q.unicastQuery then xs else AppendNew(xs, Matches(flat, q.name, q.type_)), questions[1..]);
    }
  }

  predicate SameRecord(a: RR, e: RREntry) {
    a.type_ == e.rr.type_ && a.name == e.rr.name && (e.rr.type_ == Records.RR_PTR ==> a.data.PTR? && a.data.target == e.rr.data.target)
  }

  /** rr_entry_match: the first of the querier's answers with the same type and name and, for a PTR, the same target. */
  function Match(known: seq<RR>, e: RREntry): (r: Option<RR>)
    ensures r.Some? ==> r.value in known && SameRecord(r.value, e)
    ensures r.None? ==> forall k :: 0 <= k < |known| ==> !SameRecord(known[k], e)
  {
    if known == [] then None
    else if SameRecord(known[0], e) then Some(known[0])
    else
      assert known == [known[0]] + known[1..];
      Match(known[1..], e)
  }

  /** Such an answer is there, with at least half of the record's time to live. */
  predicate IsKnown(known: seq<RR>, e: RREntry) {
    Match(known, e).Some? && Match(known, e).value.ttl >= e.rr.ttl / 2
  }

  // ----- Where this is the known-answer suppression of section 7.1 of RFC 6762 -----

  /** As Match, but all the data has to agree. */
  function MatchData(known: seq<RR>, e: RREntry): (r: Option<RR>)
    ensures r.Some? ==> r.value in known && SameRecord(r.value, e) && r.value.data == e.rr.data
    ensures r.None? ==> forall k :: 0 <= k < |known| ==> !(SameRecord(known[k], e) && known[k].data == e.rr.data)
  {
    if known == [] then None
    else if SameRecord(known[0], e) && known[0].data == e.rr.data then Some(known[0])
    else
      assert known == [known[0]] + known[1..];
      MatchData(known[1..], e)
  }

  /** The querier knows the record, with at least half of its time to live. */
  predicate KnownWithData(known: seq<RR>, e: RREntry) {
    MatchData(known, e).Some? && MatchData(known, e).value.ttl >= e.rr.ttl / 2
  }

  /** The two agree on a list of known answers exactly when the first match has the record's data. */
  lemma {:induction false} MatchesData(known: seq<RR>, e: RREntry)
    ensures Match(known, e) == MatchData(known, e) <==> Match(known, e).None? || Match(known, e).value.data == e.rr.data
  {
    if known != [] && !SameRecord(known[0], e) {
      MatchesData(known[1..], e);
    }
  }

  lemma SameAfterParsing(rr: ValidRecord, e: RREntry)
    ensures SameRecord(RoundTrip.Recovered(rr), e) <==> SameRecord(rr, e)
    ensures RoundTrip.Recovered(rr).ttl == rr.ttl
  {
    assert Records.ValidRR(rr) && Records.DataOk(rr.type_, rr.data);
    assert Records.ValidRR(e.rr) && Records.DataOk(e.rr.type_, e.rr.data);
  }

  /** Parsing drops the data of SRV and NSEC records, which the match does not look at. */
  lemma {:induction false} KnownAfterParsing(known: seq<RR>, e: RREntry)
    requires Records.ValidRRs(known)
    ensures IsKnown(RoundTrip.RecoveredAll(known), e) <==> IsKnown(known, e)
  {
    if known != [] {
      var recovered := RoundTrip.RecoveredAll(known);
      SameAfterParsing(known[0], e);
      KnownAfterParsing(known[1..], e);
      assert recovered[0] == RoundTrip.Recovered(known[0]) && recovered[1..] == RoundTrip.RecoveredAll(known[1..]);
    }
  }

  /** The type alone, with the target of a PTR, determines the data. */
  predicate DataByType(rr: RR) {
    rr.data.PTR? || rr.data.Blank?
  }

  lemma SameRecordSameData(a: RR, e: RREntry)
    requires Records.ValidRR(a) && SameRecord(a, e) && DataByType(e.rr)
    ensures a.data == e.rr.data
  {
  }

  /** Another record of the same name and type. */
  function OtherData(data: Records.RData): (r: Records.RData)
    requires !data.PTR? && !data.Blank?
  {
    match data
    case A(addr) => Records.A(if addr == seq(4, _ => 0) then seq(4, _ => 1) else seq(4, _ => 0))
    case AAAA(addr) => Records.AAAA(if addr == seq(16, _ => 0) then seq(16, _ => 1) else seq(16, _ => 0))
    case TXT(strings) => Records.TXT(if strings == [[]] then [[1]] else [[]])
    case SRV(priority, weight, port, host) => Records.SRV(if priority == 0 then 1 else 0, weight, port, host)
    case NSEC(bitmap) => Records.NSEC(if bitmap == seq(5, _ => 0) then seq(5, _ => 1) else seq(5, _ => 0))
  }

  lemma OtherRecord(e: RREntry)
    requires !DataByType(e.rr)
    ensures var a := e.rr.(data := OtherData(e.rr.data));
      Records.ValidRR(a) && SameRecord(a, e) && a.data != e.rr.data
  {
    assert Records.ValidRR(e.rr);
  }

  /**
    * For a record of the store, whatever the querier lists: the responder suppresses it exactly when the querier knows it
    * if and only if it is a PTR or its type carries no data. For addresses, TXT, SRV and NSEC another record of the same
    * name and type is enough.
    */
  lemma SuppressionIsExact(e: RREntry)
    ensures (forall known :: Records.ValidRRs(known) ==> (IsKnown(RoundTrip.RecoveredAll(known), e) <==> KnownWithData(known, e)))
      <==> DataByType(e.rr)
  {
    if DataByType(e.rr) {
      forall known | Records.ValidRRs(known) ensures IsKnown(RoundTrip.RecoveredAll(known), e) <==> KnownWithData(known, e) {
        KnownAfterParsing(known, e);
        MatchesData(known, e);
        if Match(known, e).Some? {
          SameRecordSameData(Match(known, e).value, e);
        }
      }
    } else {
      var a := e.rr.(data := OtherData(e.rr.data));
      OtherRecord(e);
      KnownAfterParsing([a], e);
      assert IsKnown([a], e) && !KnownWithData([a], e);
      assert !(IsKnown(RoundTrip.RecoveredAll([a]), e) <==> KnownWithData([a], e));
    }
  }

  /** The answers that are left, in their order. */
  function Unknown(xs: seq<RREntry>, known: seq<RR>): (r: seq<RREntry>)
    ensures |r| <= |xs|
    ensures forall x :: x in r ==> x in xs && !IsKnown(known, x)
    ensures forall x :: x in xs && !IsKnown(known, x) ==> x in r
  {
    if xs == [] then []
    else
      assert xs == [xs[0]] + xs[1..];
      if IsKnown(known, xs[0]) then Unknown(xs[1..], known) else [xs[0]] + Unknown(xs[1..], known)
  }

  lemma UnknownFirst(xs: seq<RREntry>, known: seq<RR>)
    ensures Unknown([], known) == []
    ensures xs != [] ==> Unknown(xs, known) == (if IsKnown(known, xs[0]) then [] else [xs[0]]) + Unknown(xs[1..], known)
  {
    hide IsKnown;
  }

  lemma {:induction false} UnknownNext(xs: seq<RREntry>, known: seq<RR>, j: nat)
    requires j < |xs|
    ensures Unknown(xs[..j + 1], known) == Unknown(xs[..j], known) + if IsKnown(known, xs[j]) then [] else [xs[j]]
    decreases j
  {
    hide *;
    UnknownFirst(xs[..j + 1], known);
    UnknownFirst(xs[..j], known);
    assert xs[..j + 1][0] == xs[0];
    if j == 0 {
      assert xs[..1][1..] == [] && xs[..0] == [];
    } else {
      assert xs[..j + 1][1..] == xs[1..][..j] && xs[..j][1..] == xs[1..][..j - 1] && xs[..j][0] == xs[0];
      UnknownNext(xs[1..], known, j - 1);
    }
  }

  lemma {:induction false} UnknownNoDuplicates(xs: seq<RREntry>, known: seq<RR>)
    requires NoDuplicates(xs)
    ensures NoDuplicates(Unknown(xs, known))
  {
    hide IsKnown;
    if xs != [] {
      UnknownNoDuplicates(xs[1..], known);
      assert xs == [xs[0]] + xs[1..];
    }
  }

  /** The answers of a reply. */
  function Answers(flat: seq<RREntry>, questions: seq<Records.Question>, known: seq<RR>): seq<RREntry> {
    Unknown(AnswersFrom(flat, [], questions), known)
  }

  /** The answers are those records of the store that are asked for and not suppressed as known, each once. */
  lemma AnswersAre(flat: seq<RREntry>, questions: seq<Records.Question>, known: seq<RR>)
    requires NoDuplicates(flat)
    ensures NoDuplicates(Answers(flat, questions, known))
    ensures forall x :: x in Answers(flat, questions, known) <==> x in flat && AskedFor(x, questions) && !IsKnown(known, x)
  {
    AnswersInStore(flat, [], questions);
    UnknownNoDuplicates(AnswersFrom(flat, [], questions), known);
    forall x ensures x in AnswersFrom(flat, [], questions) <==> x in flat && AskedFor(x, questions) {
      InAnswers(flat, [], questions, x);
    }
  }

  /** A query, by the response bit and the opcode. */
  predicate StandardQuery(flags: nat) {
    (flags / 0x8000) % 2 == 0 && (flags / 0x800) % 0x10 == 0
  }
}
