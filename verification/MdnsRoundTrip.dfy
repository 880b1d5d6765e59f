/** Parsing an encoded packet recovers its answers. */
module MdnsRoundTrip {
  import opened Bytes
  import opened MdnsNames
  import opened MdnsRecords

  /** What the parser makes of a record: SRV and NSEC data are skipped, and the class keeps the flush bit. */
  function Recovered(rr: RR): RR {
    RR(rr.name, rr.type_, rr.ttl, rr.cacheFlush, ParsedClass(ClassField(rr)),
       if rr.data.SRV? || rr.data.NSEC? then Blank else rr.data)
  }

  /** The strings that dup_label accepts: one byte shorter than those create_label makes. */
  predicate Parsable(rr: RR) {
    rr.data.TXT? ==> Short(rr.data.strings)
  }

  // ----- TXT -----

  lemma {:induction false} StringsRoundTrip(b: bytes, strings: seq<bytes>, after: bytes)
    requires strings != [] && TextsOk(strings)
    ensures var enc := EncodeStrings(strings);
      && |enc| >= 1
      && ParseStrings(b + enc + after, |b|, |b| + |enc|) == if Short(strings) then Some((strings, |b| + |enc|)) else None
    decreases |strings|, 1
  {
    hide *;
    StringsParts(strings);
    ShortTail(strings);
    FirstAndRest(strings);
    NoneShort();
    var first, tail, enc := strings[0], EncodeStrings(strings[1..]), EncodeStrings(strings);
    var head: bytes := [|first| as byte] + first;
    StringPlaced(b, first, tail, after);
    StringStep(b + enc + after, |b|, first, |b| + |enc|);
    Associative(b, head, tail);
    if |strings| > 1 {
      MoreStrings(b, b + head, strings, after, enc, tail);
    }
  }

  lemma StringsParts(strings: seq<bytes>)
    requires strings != [] && TextsOk(strings)
    ensures TextOk(strings[0]) && |strings[0]| <= 63 && TextsOk(strings[1..])
    ensures EncodeStrings(strings) == [|strings[0]| as byte] + strings[0] + EncodeStrings(strings[1..])
    ensures |EncodeStrings(strings)| == 1 + |strings[0]| + |EncodeStrings(strings[1..])|
    ensures |strings| == 1 ==> EncodeStrings(strings[1..]) == []
  {
    assert TextOk(strings[0]);
    assert |strings| == 1 ==> strings[1..] == [];
  }

  lemma {:induction false} MoreStrings(b: bytes, b1: bytes, strings: seq<bytes>, after: bytes, enc: bytes, tail: bytes)
    requires |strings| > 1 && TextsOk(strings[1..]) && tail == EncodeStrings(strings[1..])
    requires b <= b1 && b + enc == b1 + tail
    ensures |tail| >= 1
    ensures ParseStrings(b + enc + after, |b1|, |b| + |enc|) == if Short(strings[1..]) then Some((strings[1..], |b| + |enc|)) else None
    decreases |strings|, 0
  {
    hide *;
    StringsRoundTrip(b1, strings[1..], after);
    assert |b| + |enc| == |b1| + |tail| by {
      assert |b + enc| == |b1 + tail|;
    }
  }

  lemma FirstAndRest(strings: seq<bytes>)
    requires strings != []
    ensures strings == [strings[0]] + strings[1..]
    ensures |strings| == 1 ==> strings == [strings[0]] && strings[1..] == []
  {
  }

  lemma NoneShort()
    ensures Short([])
  {
  }

  lemma StringPlaced(b: bytes, first: bytes, tail: bytes, after: bytes)
    requires TextOk(first)
    ensures var whole := b + ([|first| as byte] + first + tail) + after;
      whole[|b|] == |first| && whole[|b| + 1..|b| + 1 + |first|] == first
  {
  }

  /** One round of the TXT loop on a string in place. */
  lemma StringStep(whole: bytes, p: nat, first: bytes, e: nat)
    requires TextOk(first) && p + 1 + |first| <= e <= |whole|
    requires whole[p] == |first| && whole[p + 1..p + 1 + |first|] == first
    ensures var next := p + 1 + |first|;
      ParseStrings(whole, p, e)
      == if |first| > 62 then None
         else if next == e then Some(([first], next))
         else
           match ParseStrings(whole, next, e)
           case None => None
           case Some((more, q)) => Some(([first] + more, q))
  {
  }

  predicate Short(strings: seq<bytes>) {
    forall k :: 0 <= k < |strings| ==> |strings[k]| <= 62
  }

  lemma ShortTail(strings: seq<bytes>)
    requires strings != []
    ensures Short(strings) <==> |strings[0]| <= 62 && Short(strings[1..])
  {
    if |strings[0]| <= 62 && Short(strings[1..]) {
      forall k | 0 <= k < |strings| ensures |strings[k]| <= 62 {
        assert k > 0 ==> strings[k] == strings[1..][k - 1];
      }
    } else if |strings[0]| <= 62 {
      var k :| 0 <= k < |strings[1..]| && |strings[1..][k]| > 62;
      assert |strings[k + 1]| > 62;
    }
  }

  // ----- One record -----

  lemma PtrRoundTrip(b: bytes, target: bytes, comp: seq<Entry>, after: bytes)
    requires ValidName(target) && TableOk(b, comp) && Pointable(|b|, target, comp)
    ensures var (enc, comp') := EncodeName(|b|, target, comp);
      TableOk(b + enc, comp') && NameAt(b + enc + after, |b|) == Some(target)
  {
    EncodeNameKeepsTable(b, target, comp);
    NameInPlace(b, target, comp, after);
  }

  lemma SrvKeepsTable(b: bytes, rr: RR, comp: seq<Entry>)
    requires ValidRR(rr) && rr.data.SRV? && TableOk(b, comp) && PointableData(|b|, rr, comp)
    ensures TableOk(b + EncodeData(|b|, rr, comp).0, EncodeData(|b|, rr, comp).1)
  {
    var numbers := U16(rr.data.priority) + U16(rr.data.weight) + U16(rr.data.port);
    var (name, _) := EncodeName(|b| + 6, rr.data.host, comp);
    TablePrefix(b, numbers, comp);
    EncodeNameKeepsTable(b + numbers, rr.data.host, comp);
    Associative(b, numbers, name);
  }

  lemma NsecKeepsTable(b: bytes, rr: RR, comp: seq<Entry>)
    requires ValidRR(rr) && rr.data.NSEC? && TableOk(b, comp) && PointableData(|b|, rr, comp)
    ensures TableOk(b + EncodeData(|b|, rr, comp).0, EncodeData(|b|, rr, comp).1)
  {
    var (name, comp') := EncodeName(|b|, rr.name, comp);
    EncodeNameKeepsTable(b, rr.name, comp);
    TablePrefix(b + name, [0, 5] + rr.data.bitmap, comp');
    Associative(b, name, [0, 5] + rr.data.bitmap);
    assert name + ([0, 5] + rr.data.bitmap) == name + [0, 5] + rr.data.bitmap;
  }

  /** The encoded data of a record, when it is in place, decodes to the recovered data, and is used up exactly. */
  lemma DataRoundTrip(b: bytes, rr: RR, comp: seq<Entry>, after: bytes)
    requires ValidRR(rr) && TableOk(b, comp) && PointableData(|b|, rr, comp)
    ensures var (enc, comp') := EncodeData(|b|, rr, comp);
      && TableOk(b + enc, comp')
      && ParseData(b + enc + after, rr.type_, |b|, |enc|)
         == if Parsable(rr) then Some((Recovered(rr).data, |b| + |enc|)) else None
  {
    hide TableOk, EncodeName, NameAt, ParseStrings, EncodeStrings, U16, Pointable, ValidName;
    var (enc, comp') := EncodeData(|b|, rr, comp);
    match rr.data
    case A(addr) =>
      TablePrefix(b, addr, comp);
      Placed(b, addr, after);
    case AAAA(addr) =>
      TablePrefix(b, addr, comp);
      Placed(b, addr, after);
    case PTR(target) => PtrRoundTrip(b, target, comp, after);
    case TXT(strings) =>
      TablePrefix(b, enc, comp);
      StringsRoundTrip(b, strings, after);
    case SRV(_, _, _, _) => SrvKeepsTable(b, rr, comp);
    case NSEC(_) => NsecKeepsTable(b, rr, comp);
    case Blank => TablePrefix(b, enc, comp);
  }

  lemma Placed(b: bytes, text: bytes, after: bytes)
    ensures (b + text + after)[|b|..|b| + |text|] == text
  {
  }

  /** The fields between name and data are read back. */
  lemma FixedRoundTrip(b: bytes, p: nat, rr: RR, dataLength: nat)
    requires ValidRR(rr) && dataLength < 0x1_0000 && p + 10 <= |b| && b[p..p + 10] == Fixed(rr, dataLength)
    ensures Read16(b, p) == rr.type_ && Read16(b, p + 2) == ClassField(rr) && Read32(b, p + 4) == rr.ttl && Read16(b, p + 8) == dataLength
    ensures b[p + 2] >= 0x80 <==> rr.cacheFlush
  {
    hide *;
    FixedFields(rr, dataLength);
    FieldsFit(rr);
    var f := Fixed(rr, dataLength);
    Sub(b, p, f, 0, 2);
    Sub(b, p, f, 2, 4);
    Sub(b, p, f, 4, 8);
    Sub(b, p, f, 8, 10);
    Read16Back(b, p, rr.type_);
    Read16Back(b, p + 2, ClassField(rr));
    Read32Back(b, p + 4, rr.ttl);
    Read16Back(b, p + 8, dataLength);
    FlushBit(b, p, rr);
  }

  lemma FieldsFit(rr: RR)
    requires ValidRR(rr)
    ensures rr.type_ < 0x1_0000 && ClassField(rr) < 0x1_0000 && rr.ttl < 0x1_0000_0000
  {
  }

  lemma FlushBit(b: bytes, p: nat, rr: RR)
    requires p + 4 <= |b| && b[p + 2..p + 4] == U16(ClassField(rr))
    ensures b[p + 2] >= 0x80 <==> rr.cacheFlush
  {
    assert b[p + 2..p + 4][0] == b[p + 2];
  }

  lemma FixedFields(rr: RR, dataLength: nat)
    ensures var f := Fixed(rr, dataLength);
      f[0..2] == U16(rr.type_) && f[2..4] == U16(ClassField(rr)) && f[4..8] == U32(rr.ttl) && f[8..10] == U16(dataLength)
  {
    hide U16, U32;
  }

  lemma Sub(b: bytes, p: nat, f: bytes, i: nat, j: nat)
    requires p + |f| <= |b| && b[p..p + |f|] == f && i <= j <= |f|
    ensures b[p + i..p + j] == f[i..j]
  {
    forall k | 0 <= k < j - i ensures b[p + i..p + j][k] == f[i..j][k] {
      assert b[p..p + |f|][i + k] == f[i + k];
    }
  }

  /**
    * One record: parsing consumes exactly the bytes that encoding wrote and recovers the record,
    * exactly when none of its TXT strings is 63 bytes long.
    */
  lemma RecordRoundTrip(b: bytes, rr: RR, comp: seq<Entry>, after: bytes)
    requires ValidRR(rr) && TableOk(b, comp) && PointableRR(|b|, rr, comp)
    requires |EncodeRR(|b|, rr, comp)| < 0x1_0000
    ensures var enc := EncodeRR(|b|, rr, comp);
      && TableOk(b + enc, RRCache(|b|, rr, comp))
      && ParseRR(b + enc + after, |b|) == if Parsable(rr) then Some((Recovered(rr), |b| + |enc|)) else None
  {
    hide *;
    var enc, name, data := EncodeRR(|b|, rr, comp), NamePart(|b|, rr, comp), DataPart(|b|, rr, comp);
    RecordPieces(b, rr, comp);
    RecordLength(b, rr, comp, after);
    RecordName(b, rr, comp, after);
    RecordFields(b, rr, comp, after);
    RecordData(b, rr, comp, after);
    ParsedParts(rr);
    RecordSteps(b + enc + after, |b|, rr.name, |name|, |data|, if Parsable(rr) then Some((Recovered(rr).data, |b| + |enc|)) else None);
  }

  lemma RecordLength(b: bytes, rr: RR, comp: seq<Entry>, after: bytes)
    requires ValidRR(rr)
    ensures |EncodeRR(|b|, rr, comp)| == |NamePart(|b|, rr, comp)| + 10 + |DataPart(|b|, rr, comp)|
    ensures |b + EncodeRR(|b|, rr, comp) + after| == |b| + |EncodeRR(|b|, rr, comp)| + |after|
    ensures DataOffset(|b|, rr, comp) == |b| + |NamePart(|b|, rr, comp)| + 10
  {
  }

  lemma Regroup(b: bytes, name: bytes, fixed: bytes, data: bytes, after: bytes)
    ensures b + (name + fixed + data) + after == b + name + (fixed + data + after)
  {
  }

  lemma RecordName(b: bytes, rr: RR, comp: seq<Entry>, after: bytes)
    requires ValidRR(rr) && TableOk(b, comp) && Pointable(|b|, rr.name, comp)
    ensures var whole := b + EncodeRR(|b|, rr, comp) + after;
      NameAt(whole, |b|) == Some(rr.name) && LabelLen(whole, |b|) == |NamePart(|b|, rr, comp)|
  {
    var name, data := NamePart(|b|, rr, comp), DataPart(|b|, rr, comp);
    var fixed := Fixed(rr, |data|);
    assert EncodeRR(|b|, rr, comp) == name + fixed + data;
    NameInPlace(b, rr.name, comp, fixed + data + after);
    hide *;
    Regroup(b, name, fixed, data, after);
  }

  lemma RecordFields(b: bytes, rr: RR, comp: seq<Entry>, after: bytes)
    requires ValidRR(rr) && |EncodeRR(|b|, rr, comp)| < 0x1_0000
    ensures var whole, p := b + EncodeRR(|b|, rr, comp) + after, |b| + |NamePart(|b|, rr, comp)|;
      && p + 10 <= |whole|
      && Read16(whole, p) == rr.type_ && Read16(whole, p + 2) == ClassField(rr) && Read32(whole, p + 4) == rr.ttl
      && Read16(whole, p + 8) == |DataPart(|b|, rr, comp)| && (whole[p + 2] >= 0x80 <==> rr.cacheFlush)
  {
    var name, data := NamePart(|b|, rr, comp), DataPart(|b|, rr, comp);
    var fixed := Fixed(rr, |data|);
    assert EncodeRR(|b|, rr, comp) == name + fixed + data;
    RecordLength(b, rr, comp, after);
    hide *;
    FixedPlaced(b, name, fixed, data, after);
    FixedRoundTrip(b + EncodeRR(|b|, rr, comp) + after, |b| + |name|, rr, |data|);
  }

  lemma FixedPlaced(b: bytes, name: bytes, fixed: bytes, data: bytes, after: bytes)
    ensures (b + (name + fixed + data) + after)[|b| + |name|..|b| + |name| + |fixed|] == fixed
  {
  }

  lemma RecordData(b: bytes, rr: RR, comp: seq<Entry>, after: bytes)
    requires ValidRR(rr) && TableOk(b, comp) && PointableRR(|b|, rr, comp)
    ensures var enc, data := EncodeRR(|b|, rr, comp), DataPart(|b|, rr, comp);
      && TableOk(b + enc, RRCache(|b|, rr, comp))
      && |b| + |enc| == DataOffset(|b|, rr, comp) + |data|
      && ParseData(b + enc + after, rr.type_, DataOffset(|b|, rr, comp), |data|)
         == if Parsable(rr) then Some((Recovered(rr).data, |b| + |enc|)) else None
  {
    hide *;
    RecordPieces(b, rr, comp);
    FixedParts(b, rr, comp);
    var enc, name, data := EncodeRR(|b|, rr, comp), NamePart(|b|, rr, comp), DataPart(|b|, rr, comp);
    var fixed := Fixed(rr, |data|);
    RecordLength(b, rr, comp, after);
    DataInPlace(b, b + name + fixed, rr, comp, after);
    RegroupTwo(b, name, fixed, data, after);
  }

  lemma RegroupTwo(b: bytes, name: bytes, fixed: bytes, data: bytes, after: bytes)
    ensures b + (name + fixed + data) == (b + name + fixed) + data
    ensures b + (name + fixed + data) + after == (b + name + fixed) + data + after
  {
  }

  lemma DataInPlace(b: bytes, b1: bytes, rr: RR, comp: seq<Entry>, after: bytes)
    requires ValidRR(rr) && TableOk(b, comp) && PointableRR(|b|, rr, comp)
    requires b1 == b + NamePart(|b|, rr, comp) + Fixed(rr, |DataPart(|b|, rr, comp)|)
    ensures var data := DataPart(|b|, rr, comp);
      && |b1| == DataOffset(|b|, rr, comp)
      && TableOk(b1 + data, RRCache(|b|, rr, comp))
      && ParseData(b1 + data + after, rr.type_, |b1|, |data|) == if Parsable(rr) then Some((Recovered(rr).data, |b1| + |data|)) else None
  {
    hide *;
    RecordPieces(b, rr, comp);
    var name, comp1 := NamePart(|b|, rr, comp), NameCache(|b|, rr, comp);
    var fixed := Fixed(rr, |DataPart(|b|, rr, comp)|);
    EncodeNameKeepsTable(b, rr.name, comp);
    TablePrefix(b + name, fixed, comp1);
    DataRoundTrip(b1, rr, comp1, after);
  }

  lemma FixedParts(b: bytes, rr: RR, comp: seq<Entry>)
    requires ValidRR(rr)
    ensures EncodeRR(|b|, rr, comp) == NamePart(|b|, rr, comp) + Fixed(rr, |DataPart(|b|, rr, comp)|) + DataPart(|b|, rr, comp)
  {
    hide NamePart, DataPart, Fixed;
  }

  lemma RecordPieces(b: bytes, rr: RR, comp: seq<Entry>)
    requires ValidRR(rr)
    ensures ValidName(rr.name) && EncodeName(|b|, rr.name, comp) == (NamePart(|b|, rr, comp), NameCache(|b|, rr, comp))
    ensures DataOffset(|b|, rr, comp) == |b| + |NamePart(|b|, rr, comp)| + 10
    ensures |b + NamePart(|b|, rr, comp) + Fixed(rr, |DataPart(|b|, rr, comp)|)| == DataOffset(|b|, rr, comp)
    ensures EncodeData(DataOffset(|b|, rr, comp), rr, NameCache(|b|, rr, comp)) == (DataPart(|b|, rr, comp), RRCache(|b|, rr, comp))
    ensures PointableRR(|b|, rr, comp)
       <==> Pointable(|b|, rr.name, comp) && PointableData(DataOffset(|b|, rr, comp), rr, NameCache(|b|, rr, comp))
  {
  }

  lemma ParsedParts(rr: RR)
    ensures Recovered(rr) == RR(rr.name, rr.type_, rr.ttl, rr.cacheFlush, ParsedClass(ClassField(rr)), Recovered(rr).data)
  {
  }

  /** The steps of mdns_parse_rr on a record that is in place. */
  lemma RecordSteps(b: bytes, off: nat, name: bytes, nameLength: nat, dataLength: nat, data: Option<(RData, nat)>)
    requires NameAt(b, off) == Some(name) && LabelLen(b, off) == nameLength
    requires off + nameLength + 10 + dataLength <= |b|
    requires var p := off + nameLength; Read16(b, p + 8) == dataLength && ParseData(b, Read16(b, p), p + 10, dataLength) == data
    ensures var p := off + nameLength;
      ParseRR(b, off)
      == if data.None? then None
         else Some((RR(name, Read16(b, p), Read32(b, p + 4), b[p + 2] >= 0x80, ParsedClass(Read16(b, p + 2)), data.value.0), data.value.1))
  {
    hide Read16, Read32, ParseData, NameAt, LabelLen, ParsedClass;
  }

  lemma NameInPlace(b: bytes, name: bytes, comp: seq<Entry>, after: bytes)
    requires ValidName(name) && TableOk(b, comp) && Pointable(|b|, name, comp)
    ensures var enc := EncodeName(|b|, name, comp).0;
      NameAt(b + enc + after, |b|) == Some(name) && LabelLen(b + enc + after, |b|) == |enc|
  {
    var enc := EncodeName(|b|, name, comp).0;
    EncodeNameKeepsTable(b, name, comp);
    DecodesPrefix(b + enc, after, |b|, name);
    NameAtIs(b + enc + after, |b|, name);
    LabelLenOfEncoded(b, name, comp, after);
  }

  // ----- Packets -----

  function RecoveredAll(rrs: seq<RR>): seq<RR> {
    if rrs == [] then [] else [Recovered(rrs[0])] + RecoveredAll(rrs[1..])
  }

  predicate AllParsable(rrs: seq<RR>) {
    rrs == [] || (Parsable(rrs[0]) && AllParsable(rrs[1..]))
  }

  /** Of the records encoded one after the other, the first n are parsed back. */
  lemma {:induction false} RecordsRoundTrip(b: bytes, rrs: seq<RR>, n: nat, comp: seq<Entry>)
    requires ValidRRs(rrs) && TableOk(b, comp) && PointableRRs(|b|, rrs, comp) && n <= |rrs|
    requires |EncodeRRs(|b|, rrs, comp)| < 0x1_0000
    ensures ParsedFirst(ParseRRs(b + EncodeRRs(|b|, rrs, comp), |b|, n), rrs[..n])
    decreases n, 1
  {
    hide *;
    if n == 0 {
      NothingParsed(b + EncodeRRs(|b|, rrs, comp), |b|, rrs);
    } else {
      RecordsStep(|b|, rrs, comp);
      var first := EncodeRR(|b|, rrs[0], comp);
      RecordThenMore(b, b + first, rrs, n, comp);
    }
  }

  lemma {:induction false} RecordThenMore(b: bytes, b1: bytes, rrs: seq<RR>, n: nat, comp: seq<Entry>)
    requires ValidRRs(rrs) && 0 < n <= |rrs| && ValidRR(rrs[0]) && ValidRRs(rrs[1..])
    requires TableOk(b, comp) && PointableRRs(|b|, rrs, comp) && |EncodeRRs(|b|, rrs, comp)| < 0x1_0000
    requires b1 == b + EncodeRR(|b|, rrs[0], comp)
    ensures ParsedFirst(ParseRRs(b + EncodeRRs(|b|, rrs, comp), |b|, n), rrs[..n])
    decreases n, 0
  {
    hide *;
    RecordsStep(|b|, rrs, comp);
    LengthOf(b, EncodeRR(|b|, rrs[0], comp));
    var more := EncodeRRs(|b1|, rrs[1..], RRCache(|b|, rrs[0], comp));
    var whole := b1 + more;
    assert b + EncodeRRs(|b|, rrs, comp) == whole by {
      Associative(b, EncodeRR(|b|, rrs[0], comp), more);
    }
    RecordRoundTrip(b, rrs[0], comp, more);
    RecordsRoundTrip(b1, rrs[1..], n - 1, RRCache(|b|, rrs[0], comp));
    ParsedStep(whole, |b|, |b1|, rrs, n);
  }

  lemma NothingParsed(b: bytes, off: nat, rrs: seq<RR>)
    ensures ParsedFirst(ParseRRs(b, off, 0), rrs[..0])
  {
  }

  lemma LengthOf(b: bytes, first: bytes)
    ensures |b + first| == |b| + |first|
  {
  }

  lemma RecordsStep(off: nat, rrs: seq<RR>, comp: seq<Entry>)
    requires rrs != [] && ValidRRs(rrs)
    ensures ValidRR(rrs[0]) && ValidRRs(rrs[1..])
    ensures var first, comp' := EncodeRR(off, rrs[0], comp), RRCache(off, rrs[0], comp);
      var more := EncodeRRs(off + |first|, rrs[1..], comp');
      && EncodeRRs(off, rrs, comp) == first + more && |EncodeRRs(off, rrs, comp)| == |first| + |more|
      && (PointableRRs(off, rrs, comp) <==> PointableRR(off, rrs[0], comp) && PointableRRs(off + |first|, rrs[1..], comp'))
  {
  }

  lemma ParsedStep(b: bytes, off: nat, next: nat, rrs: seq<RR>, n: nat)
    requires 0 < n <= |rrs|
    requires ParseRR(b, off) == if Parsable(rrs[0]) then Some((Recovered(rrs[0]), next)) else None
    requires ParsedFirst(ParseRRs(b, next, n - 1), rrs[1..][..n - 1])
    ensures ParsedFirst(ParseRRs(b, off, n), rrs[..n])
  {
    assert rrs[..n][0] == rrs[0] && rrs[..n][1..] == rrs[1..][..n - 1];
    hide ParseRR, Parsable, Recovered;
  }

  ghost predicate ParsedFirst(r: Option<(seq<RR>, nat)>, rrs: seq<RR>) {
    if AllParsable(rrs) then r.Some? && r.value.0 == RecoveredAll(rrs) else r.None?
  }

  lemma HeaderFields(r: Reply, b: bytes, rest: bytes)
    requires ValidReply(r) && b == Header(r) + rest
    ensures Read16(b, 0) == r.id && Read16(b, 2) == r.flags && Read16(b, 4) == 0 && Read16(b, 6) == |r.answers|
  {
    assert b[0..2] == U16(r.id) && b[2..4] == U16(r.flags) && b[4..6] == U16(0) && b[6..8] == U16(|r.answers|);
    Read16Back(b, 0, r.id);
    Read16Back(b, 2, r.flags);
    Read16Back(b, 4, 0);
    Read16Back(b, 6, |r.answers|);
  }

  /**
    * Parsing an encoded reply recovers id, flags and the answers in order, exactly when no answer holds a TXT
    * string of 63 bytes; otherwise the whole packet is refused. Authority and additional records are not parsed.
    */
  lemma PacketRoundTrip(r: Reply)
    requires ValidReply(r) && |EncodePacket(r)| < 0x1_0000 && PointableRRs(12, AllRecords(r), [DUMMY])
    ensures ParsePacket(EncodePacket(r))
         == if AllParsable(r.answers) then Some(Packet(r.id, r.flags, [], RecoveredAll(r.answers))) else None
  {
    var all := AllRecords(r);
    var records := EncodeRRs(12, all, [DUMMY]);
    HeaderFields(r, EncodePacket(r), records);
    RecordsRoundTrip(Header(r), all, |r.answers|, [DUMMY]);
    assert all[..|r.answers|] == r.answers;
  }

  // ----- Packets of at most 16384 bytes never run into the pointer limit -----

  predicate Early(comp: seq<Entry>) {
    forall k :: 0 <= k < |comp| ==> comp[k].pos < 0x4000
  }

  lemma {:induction false} NameStaysEarly(off: nat, name: bytes, comp: seq<Entry>)
    requires ValidName(name) && Early(comp) && off + |EncodeName(off, name, comp).0| <= 0x4000
    ensures Pointable(off, name, comp) && Early(EncodeName(off, name, comp).1)
    decreases |name|
  {
    if name != [] {
      if Find(comp, name).Some? {
        FoundEntry(comp, name);
      } else {
        NameStaysEarly(off + |Segment(name)|, Rest(name), comp + [Entry(name, off)]);
      }
    }
  }

  lemma RecordStaysEarly(off: nat, rr: RR, comp: seq<Entry>)
    requires ValidRR(rr) && Early(comp) && off + |EncodeRR(off, rr, comp)| <= 0x4000
    ensures PointableRR(off, rr, comp) && Early(RRCache(off, rr, comp))
  {
    NameStaysEarly(off, rr.name, comp);
    var d, comp1 := DataOffset(off, rr, comp), NameCache(off, rr, comp);
    assert d + |DataPart(off, rr, comp)| == off + |EncodeRR(off, rr, comp)|;
    match rr.data
    case PTR(target) => NameStaysEarly(d, target, comp1);
    case SRV(_, _, _, host) => NameStaysEarly(d + 6, host, comp1);
    case NSEC(_) => NameStaysEarly(d, rr.name, comp1);
    case _ =>
  }

  lemma {:induction false} RecordsStayEarly(off: nat, rrs: seq<RR>, comp: seq<Entry>)
    requires ValidRRs(rrs) && Early(comp) && off + |EncodeRRs(off, rrs, comp)| <= 0x4000
    ensures PointableRRs(off, rrs, comp)
    decreases |rrs|
  {
    hide *;
    if rrs == [] {
      NothingToPoint(off, rrs, comp);
    } else {
      RecordsStep(off, rrs, comp);
      RecordStaysEarly(off, rrs[0], comp);
      RecordsStayEarly(off + |EncodeRR(off, rrs[0], comp)|, rrs[1..], RRCache(off, rrs[0], comp));
    }
  }

  lemma NothingToPoint(off: nat, rrs: seq<RR>, comp: seq<Entry>)
    requires rrs == []
    ensures ValidRRs(rrs) && PointableRRs(off, rrs, comp)
  {
  }

  lemma SmallPacketPointable(r: Reply)
    requires ValidReply(r) && |EncodePacket(r)| <= 0x4000
    ensures PointableRRs(12, AllRecords(r), [DUMMY])
  {
    RecordsStayEarly(12, AllRecords(r), [DUMMY]);
  }

  /** A reply that fits in 16384 bytes always parses back, up to the 62-byte limit on TXT strings. */
  lemma SmallPacketRoundTrip(r: Reply)
    requires ValidReply(r) && |EncodePacket(r)| <= 0x4000
    ensures ParsePacket(EncodePacket(r))
         == if AllParsable(r.answers) then Some(Packet(r.id, r.flags, [], RecoveredAll(r.answers))) else None
  {
    hide *;
    SmallPacketPointable(r);
    PacketRoundTrip(r);
  }

  /** The flush bit survives parsing twice over, in cacheFlush and in the class. */
  lemma ClassSurvives(rr: RR)
    ensures ValidRR(rr) && (rr.rrClass / 0x80) % 2 == 0 ==> Recovered(rr).rrClass == rr.rrClass % 0x8000 + if rr.cacheFlush then 0x8000 else 0
    ensures ClassField(Recovered(rr)) == ClassField(rr) <==> (rr.rrClass / 0x80) % 2 == 0
  {
    var c := rr.rrClass % 0x8000;
    Bit7(rr.rrClass);
    Bit7(ClassField(rr));
    assert ClassField(rr) % 0x8000 == c;
    assert ParsedClass(ClassField(rr)) % 0x8000 == if (c / 0x80) % 2 == 1 then c - 0x80 else c;
  }

  lemma Bit7(v: nat)
    ensures (v / 0x80) % 2 == (v % 0x8000 / 0x80) % 2
  {
    var h, l := v / 0x8000, v % 0x8000;
    assert v == h * 0x8000 + l;
    SevenBits(v, h, l);
  }

  lemma SevenBits(v: nat, h: nat, l: nat)
    requires v == h * 0x8000 + l
    ensures v / 0x80 == h * 0x100 + l / 0x80
  {
  }

  lemma SameClassBytes(rr: RR, rr': RR)
    ensures U16(ClassField(rr)) == U16(ClassField(rr')) <==> ClassField(rr) == ClassField(rr')
  {
  }

  /** Writing a parsed record again gives the bytes it was parsed from, unless bit 7 of the class was set. */
  lemma ReencodedRecord(off: nat, rr: RR, comp: seq<Entry>)
    requires ValidRR(rr) && !rr.data.SRV? && !rr.data.NSEC?
    ensures ValidRR(Recovered(rr))
    ensures EncodeRR(off, Recovered(rr), comp) == EncodeRR(off, rr, comp) <==> (rr.rrClass / 0x80) % 2 == 0
  {
    var rr' := Recovered(rr);
    ClassSurvives(rr);
    var name, data := NamePart(off, rr, comp), DataPart(off, rr, comp);
    var e, e', n := EncodeRR(off, rr, comp), EncodeRR(off, rr', comp), |name|;
    assert ValidRR(rr');
    assert e == name + Fixed(rr, |data|) + data && e' == name + Fixed(rr', |data|) + data;
    SameClassBytes(rr, rr');
    if e == e' {
      assert e[n + 2..n + 4] == U16(ClassField(rr)) && e'[n + 2..n + 4] == U16(ClassField(rr'));
    }
  }
}
