/** Resource records and packets: how mdns_encode_rr and mdns_encode_pkt write them, how mdns_parse_rr and mdns_parse_pkt read them. */
module MdnsRecords {
  import opened Bytes
  import opened MdnsNames

  const RR_A: nat := 0x01
  const RR_PTR: nat := 0x0C
  const RR_TXT: nat := 0x10
  const RR_AAAA: nat := 0x1C
  const RR_SRV: nat := 0x21
  const RR_NSEC: nat := 0x2F
  const RR_ANY: nat := 0xFF

  /** The data of a record. Addresses are the bytes in network order; TXT strings come without their length byte. */
  datatype RData =
    | A(addr: bytes)
    | AAAA(addr6: bytes)
    | PTR(target: bytes)
    | TXT(strings: seq<bytes>)
    | SRV(priority: nat, weight: nat, port: nat, host: bytes)
    | NSEC(bitmap: bytes)
    | Blank

  datatype RR = RR(name: bytes, type_: nat, ttl: nat, cacheFlush: bool, rrClass: nat, data: RData)

  /** The data that belongs to a type; every other type carries none. */
  predicate DataOk(type_: nat, data: RData) {
    match data
    case A(addr) => type_ == RR_A && |addr| == 4
    case AAAA(addr) => type_ == RR_AAAA && |addr| == 16
    case PTR(target) => type_ == RR_PTR && ValidName(target)
    case TXT(strings) => type_ == RR_TXT && strings != [] && TextsOk(strings)
    case SRV(priority, weight, port, host) =>
      type_ == RR_SRV && priority < 0x1_0000 && weight < 0x1_0000 && port < 0x1_0000 && ValidName(host)
    case NSEC(bitmap) => type_ == RR_NSEC && |bitmap| == 5
    case Blank => type_ !in {RR_A, RR_AAAA, RR_PTR, RR_TXT, RR_SRV, RR_NSEC}
  }

  /** What create_label accepts: a C string of at most 63 bytes. */
  predicate TextOk(s: bytes) {
    |s| <= 63 && NulFree(s)
  }

  predicate TextsOk(strings: seq<bytes>) {
    forall k :: 0 <= k < |strings| ==> TextOk(strings[k])
  }

  predicate ValidRR(rr: RR) {
    ValidName(rr.name) && rr.type_ < 0x1_0000 && rr.ttl < 0x1_0000_0000 && rr.rrClass < 0x1_0000 && DataOk(rr.type_, rr.data)
  }

  // ----- Encoding -----

  function EncodeStrings(strings: seq<bytes>): bytes
    requires TextsOk(strings)
  {
    if strings == [] then []
    else
      assert TextOk(strings[0]);
      var length: byte := |strings[0]|;
      [length] + strings[0] + EncodeStrings(strings[1..])
  }

  /** The record data at offset off. */
  function EncodeData(off: nat, rr: RR, comp: seq<Entry>): (r: (bytes, seq<Entry>))
    requires ValidRR(rr)
  {
    match rr.data
    case A(addr) => (addr, comp)
    case AAAA(addr) => (addr, comp)
    case PTR(target) => EncodeName(off, target, comp)
    case TXT(strings) => (EncodeStrings(strings), comp)
    case SRV(priority, weight, port, host) =>
      var (name, comp') := EncodeName(off + 6, host, comp);
      (U16(priority) + U16(weight) + U16(port) + name, comp')
    case NSEC(bitmap) =>
      var (name, comp') := EncodeName(off, rr.name, comp);
      (name + [0, 5] + bitmap, comp')
    case Blank => ([], comp)
  }

  /** The class field: 15 bits of class, and the cache-flush bit on top. */
  function ClassField(rr: RR): nat {
    rr.rrClass % 0x8000 + if rr.cacheFlush then 0x8000 else 0
  }

  /** The ten bytes between the name and the data. */
  function Fixed(rr: RR, dataLength: nat): (s: bytes)
    ensures |s| == 10
  {
    U16(rr.type_) + U16(ClassField(rr)) + U32(rr.ttl) + U16(dataLength)
  }

  /** The name field of a record at off. */
  function NamePart(off: nat, rr: RR, comp: seq<Entry>): bytes
    requires ValidRR(rr)
  {
    EncodeName(off, rr.name, comp).0
  }

  /** The cache after the name field. */
  function NameCache(off: nat, rr: RR, comp: seq<Entry>): seq<Entry>
    requires ValidRR(rr)
  {
    EncodeName(off, rr.name, comp).1
  }

  function DataOffset(off: nat, rr: RR, comp: seq<Entry>): nat
    requires ValidRR(rr)
  {
    off + |NamePart(off, rr, comp)| + 10
  }

  function DataPart(off: nat, rr: RR, comp: seq<Entry>): bytes
    requires ValidRR(rr)
  {
    EncodeData(DataOffset(off, rr, comp), rr, NameCache(off, rr, comp)).0
  }

  /** mdns_encode_rr at offset off: the bytes it writes. */
  function EncodeRR(off: nat, rr: RR, comp: seq<Entry>): (s: bytes)
    requires ValidRR(rr)
    ensures |s| >= 11
  {
    NamePart(off, rr, comp) + Fixed(rr, |DataPart(off, rr, comp)|) + DataPart(off, rr, comp)
  }

  /** The cache that mdns_encode_rr leaves. */
  function RRCache(off: nat, rr: RR, comp: seq<Entry>): seq<Entry>
    requires ValidRR(rr)
  {
    EncodeData(DataOffset(off, rr, comp), rr, NameCache(off, rr, comp)).1
  }

  predicate ValidRRs(rrs: seq<RR>) {
    forall k :: 0 <= k < |rrs| ==> ValidRR(rrs[k])
  }

  function EncodeRRs(off: nat, rrs: seq<RR>, comp: seq<Entry>): bytes
    requires ValidRRs(rrs)
    decreases |rrs|
  {
    if rrs == [] then []
    else
      var first := EncodeRR(off, rrs[0], comp);
      first + EncodeRRs(off + |first|, rrs[1..], RRCache(off, rrs[0], comp))
  }

  /** Every pointer the data of this record needs fits in 14 bits. */
  predicate PointableData(off: nat, rr: RR, comp: seq<Entry>)
    requires ValidRR(rr)
  {
    match rr.data
    case PTR(target) => Pointable(off, target, comp)
    case SRV(_, _, _, host) => Pointable(off + 6, host, comp)
    case NSEC(_) => Pointable(off, rr.name, comp)
    case _ => true
  }

  predicate PointableRR(off: nat, rr: RR, comp: seq<Entry>)
    requires ValidRR(rr)
  {
    Pointable(off, rr.name, comp) && PointableData(DataOffset(off, rr, comp), rr, NameCache(off, rr, comp))
  }

  predicate PointableRRs(off: nat, rrs: seq<RR>, comp: seq<Entry>)
    requires ValidRRs(rrs)
    decreases |rrs|
  {
    rrs == [] ||
    (PointableRR(off, rrs[0], comp) &&
     PointableRRs(off + |EncodeRR(off, rrs[0], comp)|, rrs[1..], RRCache(off, rrs[0], comp)))
  }

  /** A reply packet as the encoder takes it: it carries no questions. */
  datatype Reply = Reply(id: nat, flags: nat, answers: seq<RR>, authority: seq<RR>, additional: seq<RR>)

  predicate ValidReply(r: Reply) {
    && r.id < 0x1_0000 && r.flags < 0x1_0000
    && ValidRRs(r.answers) && ValidRRs(r.authority) && ValidRRs(r.additional)
    && |r.answers| < 0x1_0000 && |r.authority| < 0x1_0000 && |r.additional| < 0x1_0000
  }

  function Header(r: Reply): (s: bytes)
    ensures |s| == 12
  {
    U16(r.id) + U16(r.flags) + U16(0) + U16(|r.answers|) + U16(|r.authority|) + U16(|r.additional|)
  }

  function AllRecords(r: Reply): seq<RR> {
    r.answers + r.authority + r.additional
  }

  /** mdns_encode_pkt into a large enough buffer. */
  function EncodePacket(r: Reply): bytes
    requires ValidReply(r)
  {
    Header(r) + EncodeRRs(12, AllRecords(r), [DUMMY])
  }

  // ----- Parsing -----

  /** The name at a position; the decoder is called only where there is one. */
  ghost function NameAt(b: bytes, p: nat): (r: Option<bytes>)
    ensures r.Some? ==> ValidName(r.value) && Decodes(b, p, r.value)
    ensures r.None? ==> forall n :: ValidName(n) ==> !Decodes(b, p, n)
  {
    if exists n :: ValidName(n) && Decodes(b, p, n) then
      var n :| ValidName(n) && Decodes(b, p, n);
      Some(n)
    else None
  }

  lemma NameAtIs(b: bytes, p: nat, name: bytes)
    requires ValidName(name) && Decodes(b, p, name)
    ensures NameAt(b, p) == Some(name)
  {
    var n := NameAt(b, p).value;
    DecodesToOne(b, p, n, name);
  }

  /** strncpy: from the first zero on, the copy is zeros. */
  function StrNCpy(s: bytes): (r: bytes)
    ensures |r| == |s|
    ensures NulFree(s) ==> r == s
  {
    if s == [] then [] else if s[0] == 0 then seq(|s|, _ => 0) else [s[0]] + StrNCpy(s[1..])
  }

  /** The TXT loop of mdns_parse_rr, with copy_label's bounds and dup_label's 62-byte limit. */
  function ParseStrings(b: bytes, p: nat, e: nat): (r: Option<(seq<bytes>, nat)>)
    requires p < |b|
    ensures r.Some? ==> p < r.value.1 <= |b|
    decreases |b| - p
  {
    var len := b[p] as int + 1;
    if p + len > |b| || len > 63 then None
    else
      var s := StrNCpy(b[p + 1..p + len]);
      if p + len >= e || p + len >= |b| then Some(([s], p + len))
      else
        match ParseStrings(b, p + len, e)
        case None => None
        case Some((more, q)) => Some(([s] + more, q))
  }

  /** The class as parsed: bit 7 is cleared, the cache-flush bit on top is kept. */
  function ParsedClass(v: nat): nat {
    if (v / 0x80) % 2 == 1 then v - 0x80 else v
  }

  /** The data of a record of the given type at d, dataLength bytes long, and the position after what was consumed. */
  ghost function ParseData(b: bytes, type_: nat, d: nat, dataLength: nat): (r: Option<(RData, nat)>)
    requires d + dataLength <= |b|
    ensures r.Some? ==> d <= r.value.1 <= |b|
  {
    if type_ == RR_A then if dataLength < 4 then None else Some((A(b[d..d + 4]), d + 4))
    else if type_ == RR_AAAA then if dataLength < 16 then None else Some((AAAA(b[d..d + 16]), d + 16))
    else if type_ == RR_PTR then
      match NameAt(b, d)
      case None => None
      case Some(name) => Some((PTR(name), d + dataLength))
    else if type_ == RR_TXT then
      if dataLength == 0 then Some((TXT([[]]), d))
      else
        match ParseStrings(b, d, d + dataLength)
        case None => None
        case Some((strings, q)) => Some((TXT(strings), q))
    else Some((Blank, d + dataLength))
  }

  /** mdns_parse_rr: the record at off and the position after it. */
  ghost function ParseRR(b: bytes, off: nat): (r: Option<(RR, nat)>)
    ensures r.Some? ==> off < r.value.1 <= |b|
  {
    match NameAt(b, off)
    case None => None
    case Some(name) =>
      var p := off + LabelLen(b, off);
      if p + 10 > |b| then None
      else
        var type_, class_, ttl, dataLength := Read16(b, p), Read16(b, p + 2), Read32(b, p + 4), Read16(b, p + 8);
        if p + 10 + dataLength > |b| then None
        else
          match ParseData(b, type_, p + 10, dataLength)
          case None => None
          case Some((data, q)) => Some((RR(name, type_, ttl, b[p + 2] >= 0x80, ParsedClass(class_), data), q))
  }

  ghost function ParseRRs(b: bytes, off: nat, n: nat): Option<(seq<RR>, nat)>
    decreases n
  {
    if n == 0 then Some(([], off))
    else
      match ParseRR(b, off)
      case None => None
      case Some((rr, next)) =>
        match ParseRRs(b, next, n - 1)
        case None => None
        case Some((more, end)) => Some(([rr] + more, end))
  }

  datatype Question = Question(name: bytes, type_: nat, unicastQuery: bool, rrClass: nat)

  /** mdns_parse_qn */
  ghost function ParseQuestion(b: bytes, off: nat): Option<(Question, nat)> {
    match NameAt(b, off)
    case None => None
    case Some(name) =>
      var p := off + LabelLen(b, off);
      if p + 4 > |b| then None
      else Some((Question(name, Read16(b, p), b[p + 2] >= 0x80, ParsedClass(Read16(b, p + 2))), p + 4))
  }

  ghost function ParseQuestions(b: bytes, off: nat, n: nat): Option<(seq<Question>, nat)>
    decreases n
  {
    if n == 0 then Some(([], off))
    else
      match ParseQuestion(b, off)
      case None => None
      case Some((qn, next)) =>
        match ParseQuestions(b, next, n - 1)
        case None => None
        case Some((more, end)) => Some(([qn] + more, end))
  }

  /** What mdns_parse_pkt keeps: the header, the questions and the answers. */
  datatype Packet = Packet(id: nat, flags: nat, questions: seq<Question>, answers: seq<RR>)

  ghost function ParsePacket(b: bytes): Option<Packet> {
    if |b| < 12 then None
    else
      match ParseQuestions(b, 12, Read16(b, 4))
      case None => None
      case Some((questions, off)) =>
        match ParseRRs(b, off, Read16(b, 6))
        case None => None
        case Some((answers, _)) => Some(Packet(Read16(b, 0), Read16(b, 2), questions, answers))
  }
}
