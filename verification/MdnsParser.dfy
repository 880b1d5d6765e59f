/** The packet parser as it runs: mdns_parse_qn, mdns_parse_rr and mdns_parse_pkt, with their loops. */
module MdnsParser {
  import opened Bytes
  import Names = MdnsNames
  import Records = MdnsRecords
  import RoundTrip = MdnsRoundTrip

  /** The decoder is only followed where its labels lead to a zero byte. */
  ghost predicate NameReadable(b: bytes, p: nat) {
    p < |b| ==> Records.NameAt(b, p).Some?
  }

  /** What mdns_parse_rr reads at off lies inside the packet. */
  ghost predicate RRReadable(b: bytes, off: nat) {
    NameReadable(b, off)
    && (off < |b| ==>
          var p := off + Names.LabelLen(b, off);
          && p + 10 <= |b|
          && (Read16(b, p) == Records.RR_PTR && p + 10 + Read16(b, p + 8) <= |b| ==> NameReadable(b, p + 10)))
  }

  ghost predicate RRsReadable(b: bytes, off: nat, n: nat)
    decreases n
  {
    n == 0 ||
    (RRReadable(b, off) && (Records.ParseRR(b, off).Some? ==> RRsReadable(b, Records.ParseRR(b, off).value.1, n - 1)))
  }

  ghost predicate QuestionReadable(b: bytes, off: nat) {
    NameReadable(b, off) && (off < |b| ==> off + Names.LabelLen(b, off) + 4 <= |b|)
  }

  ghost predicate QuestionsReadable(b: bytes, off: nat, n: nat)
    decreases n
  {
    n == 0 ||
    (QuestionReadable(b, off) && (Records.ParseQuestion(b, off).Some? ==> QuestionsReadable(b, Records.ParseQuestion(b, off).value.1, n - 1)))
  }

  ghost predicate PacketReadable(b: bytes) {
    |b| >= 12 ==>
      && QuestionsReadable(b, 12, Read16(b, 4))
      && (Records.ParseQuestions(b, 12, Read16(b, 4)).Some? ==>
            RRsReadable(b, Records.ParseQuestions(b, 12, Read16(b, 4)).value.1, Read16(b, 6)))
  }

  // ----- Where the parser succeeds it stays inside the packet -----

  lemma NameSomeReadable(b: bytes, p: nat)
    requires Records.NameAt(b, p).Some?
    ensures p < |b| && NameReadable(b, p)
  {
  }

  lemma ParsedRRReadable(b: bytes, off: nat)
    requires Records.ParseRR(b, off).Some?
    ensures RRReadable(b, off)
  {
    NameSomeReadable(b, off);
    hide Records.ParseStrings, Names.Decodes, Names.LabelLen;
  }

  lemma {:induction false} ParsedRRsReadable(b: bytes, off: nat, n: nat)
    requires Records.ParseRRs(b, off, n).Some?
    ensures RRsReadable(b, off, n)
    decreases n
  {
    hide Records.ParseRR, RRReadable;
    if n > 0 {
      ParsedRRReadable(b, off);
      ParsedRRsReadable(b, Records.ParseRR(b, off).value.1, n - 1);
    }
  }

  lemma {:induction false} ParsedQuestionsReadable(b: bytes, off: nat, n: nat)
    requires Records.ParseQuestions(b, off, n).Some?
    ensures QuestionsReadable(b, off, n)
    decreases n
  {
    if n > 0 {
      NameSomeReadable(b, off);
      ParsedQuestionsReadable(b, Records.ParseQuestion(b, off).value.1, n - 1);
    }
  }

  /** Every packet that the specification parses may be given to the parser, encoded replies among them. */
  lemma ParsedPacketReadable(b: bytes)
    requires Records.ParsePacket(b).Some?
    ensures PacketReadable(b)
  {
    hide Records.ParseQuestions, Records.ParseRRs, QuestionsReadable, RRsReadable;
    var questions := Records.ParseQuestions(b, 12, Read16(b, 4)).value;
    ParsedQuestionsReadable(b, 12, Read16(b, 4));
    ParsedRRsReadable(b, questions.1, Read16(b, 6));
  }

  // ----- The parser may be given every encoded reply, the ones it refuses among them -----

  lemma EncodedRRReadable(b: bytes, rr: Records.RR, comp: seq<Names.Entry>, after: bytes)
    requires Records.ValidRR(rr) && Names.TableOk(b, comp) && Records.PointableRR(|b|, rr, comp)
    requires |Records.EncodeRR(|b|, rr, comp)| < 0x1_0000
    ensures RRReadable(b + Records.EncodeRR(|b|, rr, comp) + after, |b|)
  {
    hide *;
    RoundTrip.RecordPieces(b, rr, comp);
    RoundTrip.RecordName(b, rr, comp, after);
    RoundTrip.RecordFields(b, rr, comp, after);
    RoundTrip.RecordData(b, rr, comp, after);
    RoundTrip.RecordLength(b, rr, comp, after);
    PieceReadable(b + Records.EncodeRR(|b|, rr, comp) + after, |b|, rr, |Records.DataPart(|b|, rr, comp)|);
  }

  /** A record in place: its name, its fields and, for a PTR, its target are read inside the packet. */
  lemma PieceReadable(whole: bytes, off: nat, rr: Records.RR, dataLength: nat)
    requires Records.ValidRR(rr) && Records.NameAt(whole, off).Some?
    requires var p := off + Names.LabelLen(whole, off);
      && p + 10 + dataLength <= |whole| && Read16(whole, p) == rr.type_
      && (RoundTrip.Parsable(rr) ==> Records.ParseData(whole, rr.type_, p + 10, dataLength).Some?)
    ensures RRReadable(whole, off)
  {
    if rr.type_ == Records.RR_PTR {
      PtrReadable(whole, off + Names.LabelLen(whole, off) + 10, dataLength);
    }
    hide Records.ParseData, Names.LabelLen, Read16, RoundTrip.Short;
  }

  lemma PtrReadable(whole: bytes, d: nat, dataLength: nat)
    requires d + dataLength <= |whole|
    ensures Records.ParseData(whole, Records.RR_PTR, d, dataLength).Some? ==> NameReadable(whole, d)
  {
  }

  lemma {:induction false} EncodedRRsReadable(b: bytes, rrs: seq<Records.RR>, n: nat, comp: seq<Names.Entry>)
    requires Records.ValidRRs(rrs) && Names.TableOk(b, comp) && Records.PointableRRs(|b|, rrs, comp) && n <= |rrs|
    requires |Records.EncodeRRs(|b|, rrs, comp)| < 0x1_0000
    ensures RRsReadable(b + Records.EncodeRRs(|b|, rrs, comp), |b|, n)
    decreases n
  {
    hide *;
    if n == 0 {
      NoRecordsReadable(b + Records.EncodeRRs(|b|, rrs, comp), |b|);
    } else {
      RoundTrip.RecordsStep(|b|, rrs, comp);
      var first, comp' := Records.EncodeRR(|b|, rrs[0], comp), Records.RRCache(|b|, rrs[0], comp);
      var b1 := b + first;
      var more := Records.EncodeRRs(|b1|, rrs[1..], comp');
      Associative(b, first, more);
      EncodedRRReadable(b, rrs[0], comp, more);
      RoundTrip.RecordRoundTrip(b, rrs[0], comp, more);
      EncodedRRsReadable(b1, rrs[1..], n - 1, comp');
      OneMoreReadable(b1 + more, |b|, |b1|, n);
    }
  }

  lemma NoRecordsReadable(b: bytes, off: nat)
    ensures RRsReadable(b, off, 0)
  {
  }

  lemma OneMoreReadable(b: bytes, off: nat, next: nat, n: nat)
    requires n > 0 && RRReadable(b, off) && RRsReadable(b, next, n - 1)
    requires Records.ParseRR(b, off).Some? ==> Records.ParseRR(b, off).value.1 == next
    ensures RRsReadable(b, off, n)
  {
    hide RRReadable, Records.ParseRR;
  }

  /**
    * Every encoded reply whose names fit in the 14-bit pointers may be given to the parser. It reads inside the packet
    * even where it refuses the packet in the end, for a TXT string of 63 bytes.
    */
  lemma EncodedReplyReadable(r: Records.Reply)
    requires Records.ValidReply(r) && |Records.EncodePacket(r)| < 0x1_0000
    requires Records.PointableRRs(12, Records.AllRecords(r), [Names.DUMMY])
    ensures PacketReadable(Records.EncodePacket(r))
  {
    var b, all := Records.EncodePacket(r), Records.AllRecords(r);
    RoundTrip.HeaderFields(r, b, Records.EncodeRRs(12, all, [Names.DUMMY]));
    EncodedRRsReadable(Records.Header(r), all, |r.answers|, [Names.DUMMY]);
    hide Records.Header, Records.EncodeRRs, RRsReadable, Read16, Records.EncodePacket;
    assert b == Records.Header(r) + Records.EncodeRRs(12, all, [Names.DUMMY]);
  }

  lemma SmallReplyReadable(r: Records.Reply)
    requires Records.ValidReply(r) && |Records.EncodePacket(r)| <= 0x4000
    ensures PacketReadable(Records.EncodePacket(r))
  {
    RoundTrip.SmallPacketPointable(r);
    hide *;
    EncodedReplyReadable(r);
  }

  // ----- The parser -----

  /** uncompress_nlabel with its check of the offset. */
  method ReadName(b: bytes, off: nat) returns (r: Option<bytes>)
    requires NameReadable(b, off)
    ensures r == Records.NameAt(b, off)
  {
    if off >= |b| {
      return None;
    }
    var name := Names.UncompressNlabel(b, off, Records.NameAt(b, off).value);
    r := Some(name);
  }

  /** dup_label: 63 bytes and more are refused. */
  method DupLabel(text: bytes) returns (r: Option<bytes>)
    ensures r == if |text| + 1 > 63 then None else Some(Records.StrNCpy(text))
  {
    if |text| + 1 > 63 {
      return None;
    }
    r := Some(Records.StrNCpy(text));
  }

  /** copy_label */
  method CopyLabel(b: bytes, off: nat) returns (r: Option<bytes>)
    requires off < |b|
    ensures r == if off + 1 + b[off] > |b| || b[off] as int + 1 > 63 then None else Some(Records.StrNCpy(b[off + 1..off + 1 + b[off]]))
  {
    var len: nat := b[off] as int + 1;
    if off + len > |b| {
      return None;
    }
    r := DupLabel(b[off + 1..off + len]);
  }

  /** The loop over the strings of a TXT record. */
  method ReadStrings(b: bytes, d: nat, e: nat) returns (r: Option<(seq<bytes>, nat)>)
    requires d < e <= |b|
    ensures r == Records.ParseStrings(b, d, e)
  {
    hide *;
    var p := d;
    var texts: seq<bytes> := [];
    Prepended(texts, Records.ParseStrings(b, p, e));
    while true
      invariant d <= p < e
      invariant Records.ParseStrings(b, d, e) == Prepend(texts, Records.ParseStrings(b, p, e))
      decreases e - p
    {
      StringsStep(b, p, e, texts);
      var text := CopyLabel(b, p);
      if text.None? {
        return None;
      }
      texts := texts + [text.value];
      p := p + b[p] + 1;
      if p >= e {
        return Some((texts, p));
      }
    }
  }

  function Prepend(texts: seq<bytes>, r: Option<(seq<bytes>, nat)>): Option<(seq<bytes>, nat)> {
    match r
    case None => None
    case Some((more, q)) => Some((texts + more, q))
  }

  lemma Prepended(texts: seq<bytes>, r: Option<(seq<bytes>, nat)>)
    ensures Prepend([], r) == r
    ensures Prepend(texts, None) == None
  {
    if r.Some? {
      assert [] + r.value.0 == r.value.0;
    }
  }

  lemma StringsStep(b: bytes, p: nat, e: nat, texts: seq<bytes>)
    requires p < e <= |b|
    ensures var len := b[p] as int + 1; var rest := Records.ParseStrings(b, p, e);
      if p + len > |b| || len > 63 then Prepend(texts, rest) == None
      else
        var more := texts + [Records.StrNCpy(b[p + 1..p + len])];
        Prepend(texts, rest) == if p + len >= e then Some((more, p + len)) else Prepend(more, Records.ParseStrings(b, p + len, e))
  {
    var len := b[p] as int + 1;
    if p + len < e && len <= 63 {
      var tail := Records.ParseStrings(b, p + len, e);
      if tail.Some? {
        assert texts + ([Records.StrNCpy(b[p + 1..p + len])] + tail.value.0) == texts + [Records.StrNCpy(b[p + 1..p + len])] + tail.value.0;
      }
    }
  }

  /** The sixteen bytes of an AAAA record, one by one. */
  method ReadAddress(b: bytes, d: nat) returns (addr: bytes)
    requires d + 16 <= |b|
    ensures addr == b[d..d + 16]
  {
    addr := [];
    for i := 0 to 16
      invariant addr == b[d..d + i]
    {
      addr := addr + [b[d + i]];
    }
  }

  /** The switch on the record type in mdns_parse_rr. */
  method ReadData(b: bytes, type_: nat, d: nat, dataLength: nat) returns (r: Option<(Records.RData, nat)>)
    requires d + dataLength <= |b| && (type_ == Records.RR_PTR ==> NameReadable(b, d))
    ensures r == Records.ParseData(b, type_, d, dataLength)
  {
    hide Records.ParseStrings, Records.NameAt, NameReadable;
    if type_ == Records.RR_A {
      if dataLength < 4 {
        return None;
      }
      r := Some((Records.A(b[d..d + 4]), d + 4));
    } else if type_ == Records.RR_AAAA {
      if dataLength < 16 {
        return None;
      }
      var addr := ReadAddress(b, d);
      r := Some((Records.AAAA(addr), d + 16));
    } else if type_ == Records.RR_PTR {
      var name := ReadName(b, d);
      r := if name.None? then None else Some((Records.PTR(name.value), d + dataLength));
    } else if type_ == Records.RR_TXT {
      if dataLength == 0 {
        return Some((Records.TXT([[]]), d));
      }
      var texts := ReadStrings(b, d, d + dataLength);
      r := if texts.None? then None else Some((Records.TXT(texts.value.0), texts.value.1));
    } else {
      r := Some((Records.Blank, d + dataLength));
    }
  }

  /** mdns_parse_rr */
  method ReadRR(b: bytes, off: nat) returns (r: Option<(Records.RR, nat)>)
    requires RRReadable(b, off)
    ensures r == Records.ParseRR(b, off)
  {
    hide Records.ParseData, Records.NameAt, Names.LabelLen, Read16, Read32;
    var name := ReadName(b, off);
    if name.None? {
      return None;
    }
    NameSomeReadable(b, off);
    var l := Names.LabelLength(b, off);
    var p := off + l;
    var type_ := Read16(b, p);
    p := p + 2;
    var flush := b[p] >= 0x80;
    var class_ := Records.ParsedClass(Read16(b, p));
    p := p + 2;
    var ttl := Read32(b, p);
    p := p + 4;
    var dataLength := Read16(b, p);
    p := p + 2;
    if p + dataLength > |b| {
      return None;
    }
    var data := ReadData(b, type_, p, dataLength);
    if data.None? {
      return None;
    }
    r := Some((Records.RR(name.value, type_, ttl, flush, class_, data.value.0), data.value.1));
  }

  /** mdns_parse_qn */
  method ReadQuestion(b: bytes, off: nat) returns (r: Option<(Records.Question, nat)>)
    requires QuestionReadable(b, off)
    ensures r == Records.ParseQuestion(b, off)
  {
    hide Records.NameAt, Names.LabelLen, Read16;
    var name := ReadName(b, off);
    if name.None? {
      return None;
    }
    NameSomeReadable(b, off);
    var l := Names.LabelLength(b, off);
    var p := off + l;
    r := Some((Records.Question(name.value, Read16(b, p), b[p + 2] >= 0x80, Records.ParsedClass(Read16(b, p + 2))), p + 4));
  }

  // ----- The loops of mdns_parse_pkt -----

  ghost function AnswersLeft(b: bytes, off: nat, n: nat, answers: seq<Records.RR>): Option<(seq<Records.RR>, nat)> {
    match Records.ParseRRs(b, off, n)
    case None => None
    case Some((more, end)) => Some((answers + more, end))
  }

  lemma AnswersStep(b: bytes, off: nat, n: nat, answers: seq<Records.RR>)
    requires n > 0
    ensures AnswersLeft(b, off, n, answers)
      == match Records.ParseRR(b, off)
         case None => None
         case Some((rr, next)) => AnswersLeft(b, next, n - 1, answers + [rr])
  {
    hide Records.ParseRR;
    if Records.ParseRR(b, off).Some? {
      var (rr, next) := Records.ParseRR(b, off).value;
      if Records.ParseRRs(b, next, n - 1).Some? {
        var more := Records.ParseRRs(b, next, n - 1).value.0;
        assert answers + ([rr] + more) == answers + [rr] + more;
      }
    }
  }

  lemma AnswersEnd(b: bytes, off: nat, n: nat, answers: seq<Records.RR>)
    ensures AnswersLeft(b, off, n, []) == Records.ParseRRs(b, off, n)
    ensures AnswersLeft(b, off, 0, answers) == Some((answers, off))
  {
    if Records.ParseRRs(b, off, n).Some? {
      assert [] + Records.ParseRRs(b, off, n).value.0 == Records.ParseRRs(b, off, n).value.0;
    }
    assert answers + [] == answers;
  }

  lemma ReadableStep(b: bytes, off: nat, n: nat)
    requires n > 0 && RRsReadable(b, off, n)
    ensures RRReadable(b, off)
    ensures Records.ParseRR(b, off).Some? ==> RRsReadable(b, Records.ParseRR(b, off).value.1, n - 1)
  {
  }

  method ReadAnswers(b: bytes, start: nat, count: nat) returns (r: Option<(seq<Records.RR>, nat)>)
    requires RRsReadable(b, start, count)
    ensures r == Records.ParseRRs(b, start, count)
  {
    hide *;
    var off := start;
    var answers: seq<Records.RR> := [];
    AnswersEnd(b, off, count, answers);
    for i := 0 to count
      invariant RRsReadable(b, off, count - i)
      invariant AnswersLeft(b, off, count - i, answers) == Records.ParseRRs(b, start, count)
    {
      ReadableStep(b, off, count - i);
      AnswersStep(b, off, count - i, answers);
      var rr := ReadRR(b, off);
      if rr.None? {
        return None;
      }
      answers := answers + [rr.value.0];
      off := rr.value.1;
    }
    AnswersEnd(b, off, count, answers);
    r := Some((answers, off));
  }

  ghost function QuestionsLeft(b: bytes, off: nat, n: nat, questions: seq<Records.Question>): Option<(seq<Records.Question>, nat)> {
    match Records.ParseQuestions(b, off, n)
    case None => None
    case Some((more, end)) => Some((questions + more, end))
  }

  lemma QuestionsStep(b: bytes, off: nat, n: nat, questions: seq<Records.Question>)
    requires n > 0
    ensures QuestionsLeft(b, off, n, questions)
      == match Records.ParseQuestion(b, off)
         case None => None
         case Some((qn, next)) => QuestionsLeft(b, next, n - 1, questions + [qn])
  {
    hide Records.ParseQuestion;
    if Records.ParseQuestion(b, off).Some? {
      var (qn, next) := Records.ParseQuestion(b, off).value;
      if Records.ParseQuestions(b, next, n - 1).Some? {
        var more := Records.ParseQuestions(b, next, n - 1).value.0;
        assert questions + ([qn] + more) == questions + [qn] + more;
      }
    }
  }

  lemma QuestionsEnd(b: bytes, off: nat, n: nat, questions: seq<Records.Question>)
    ensures QuestionsLeft(b, off, n, []) == Records.ParseQuestions(b, off, n)
    ensures QuestionsLeft(b, off, 0, questions) == Some((questions, off))
  {
    if Records.ParseQuestions(b, off, n).Some? {
      assert [] + Records.ParseQuestions(b, off, n).value.0 == Records.ParseQuestions(b, off, n).value.0;
    }
    assert questions + [] == questions;
  }

  lemma QuestionReadableStep(b: bytes, off: nat, n: nat)
    requires n > 0 && QuestionsReadable(b, off, n)
    ensures QuestionReadable(b, off)
    ensures Records.ParseQuestion(b, off).Some? ==> QuestionsReadable(b, Records.ParseQuestion(b, off).value.1, n - 1)
  {
  }

  method ReadQuestions(b: bytes, start: nat, count: nat) returns (r: Option<(seq<Records.Question>, nat)>)
    requires QuestionsReadable(b, start, count)
    ensures r == Records.ParseQuestions(b, start, count)
  {
    hide *;
    var off := start;
    var questions: seq<Records.Question> := [];
    QuestionsEnd(b, off, count, questions);
    for i := 0 to count
      invariant QuestionsReadable(b, off, count - i)
      invariant QuestionsLeft(b, off, count - i, questions) == Records.ParseQuestions(b, start, count)
    {
      QuestionReadableStep(b, off, count - i);
      QuestionsStep(b, off, count - i, questions);
      var qn := ReadQuestion(b, off);
      if qn.None? {
        return None;
      }
      questions := questions + [qn.value.0];
      off := qn.value.1;
    }
    QuestionsEnd(b, off, count, questions);
    r := Some((questions, off));
  }

  /** mdns_parse_pkt */
  method ReadPacket(b: bytes) returns (r: Option<Records.Packet>)
    requires PacketReadable(b)
    ensures r == Records.ParsePacket(b)
  {
    hide QuestionsReadable, RRsReadable, Records.ParseQuestions, Records.ParseRRs, Read16;
    if |b| < 12 {
      return None;
    }
    var id := Read16(b, 0);
    var flags := Read16(b, 2);
    var numQn := Read16(b, 4);
    var numAns := Read16(b, 6);
    var questions := ReadQuestions(b, 12, numQn);
    if questions.None? {
      return None;
    }
    var answers := ReadAnswers(b, questions.value.1, numAns);
    if answers.None? {
      return None;
    }
    r := Some(Records.Packet(id, flags, questions.value.0, answers.value.0));
  }
}
