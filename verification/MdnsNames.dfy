/**
  * DNS names in packets: the compression scheme of section 4.1.4 of RFC 1035, as mdns_encode_name writes it
  * and uncompress_nlabel reads it. A name is its sequence of length-prefixed labels without the final zero.
  */
module MdnsNames {
  import opened Bytes

  // ----- Names -----

  /** One to 63 bytes per label, none of them zero: what a C string of labels can hold. */
  predicate ValidName(name: bytes) {
    name == [] ||
    (1 <= name[0] <= 63 && 1 + name[0] <= |name| && (forall k :: 1 <= k <= name[0] ==> name[k] != 0) && ValidName(name[1 + name[0]..]))
  }

  /** The first label, with its length byte. */
  function Segment(name: bytes): (s: bytes)
    requires name != [] && ValidName(name)
    ensures |s| == 1 + name[0] <= |name| && s != [] && s[0] == name[0]
  {
    name[..1 + name[0]]
  }

  function Rest(name: bytes): (r: bytes)
    requires name != [] && ValidName(name)
    ensures ValidName(r) && |r| + |Segment(name)| == |name|
  {
    name[1 + name[0]..]
  }

  lemma Parts(name: bytes)
    requires name != [] && ValidName(name)
    ensures name == Segment(name) + Rest(name)
  {
  }

  // ----- Encoding -----

  /** One cached name and where it starts in the packet. The list begins with a dummy whose label is empty. */
  datatype Entry = Entry(label_: bytes, pos: nat)

  const DUMMY := Entry([], 0)

  /** The position of the first cached name equal to this one. */
  function Find(comp: seq<Entry>, name: bytes): (r: Option<nat>)
    ensures r.Some? <==> exists k :: 0 <= k < |comp| && comp[k].label_ == name
  {
    if comp == [] then None
    else if comp[0].label_ == name then Some(comp[0].pos)
    else
      assert comp == [comp[0]] + comp[1..];
      Find(comp[1..], name)
  }

  /** The two bytes of a pointer: the position is cut to 14 bits. */
  function Pointer(pos: nat): (s: bytes)
    ensures |s| == 2 && s[0] >= 0xC0
  {
    [0xC0 + (pos % 0x4000) / 0x100, pos % 0x100]
  }

  function PointerTarget(high: byte, low: byte): nat {
    (high % 0x40) * 0x100 + low
  }

  /** mdns_encode_name at offset off: the bytes it writes and the cache it leaves. */
  function EncodeName(off: nat, name: bytes, comp: seq<Entry>): (r: (bytes, seq<Entry>))
    requires ValidName(name)
    ensures 1 <= |r.0| <= |name| + 1
    ensures comp <= r.1
    decreases |name|
  {
    if name == [] then ([0], comp)
    else
      match Find(comp, name)
      case Some(pos) => (Pointer(pos), comp)
      case None =>
        var (tail, comp') := EncodeName(off + |Segment(name)|, Rest(name), comp + [Entry(name, off)]);
        (Segment(name) + tail, comp')
  }

  /** The position of the cached name the encoding points to, if it uses a pointer. */
  function Target(off: nat, name: bytes, comp: seq<Entry>): Option<nat>
    requires ValidName(name)
    decreases |name|
  {
    if name == [] then None
    else
      match Find(comp, name)
      case Some(pos) => Some(pos)
      case None => Target(off + |Segment(name)|, Rest(name), comp + [Entry(name, off)])
  }

  /** The 14-bit limit: a pointer leads back to where it should. */
  predicate Pointable(off: nat, name: bytes, comp: seq<Entry>)
    requires ValidName(name)
  {
    Target(off, name, comp).Some? ==> Target(off, name, comp).value < 0x4000
  }

  // ----- Decoding -----

  /** The first label of name stands at position p. */
  predicate LabelAt(b: bytes, p: nat, name: bytes)
    requires name != [] && ValidName(name)
  {
    p + |Segment(name)| <= |b| && b[p..p + |Segment(name)|] == Segment(name)
  }

  /** uncompress_nlabel, started at p, runs through exactly the labels of name and then meets the zero byte. */
  predicate Decodes(b: bytes, p: nat, name: bytes)
    requires ValidName(name)
    decreases |name|
  {
    p < |b| &&
    if name == [] then b[p] == 0
    else if b[p] >= 0xC0 then
      p + 1 < |b| &&
      var q := PointerTarget(b[p], b[p + 1]);
      LabelAt(b, q, name) && Decodes(b, q + |Segment(name)|, Rest(name))
    else LabelAt(b, p, name) && Decodes(b, p + |Segment(name)|, Rest(name))
  }

  /** Where the label to be copied stands: at p, or where the pointer at p leads. */
  function Source(b: bytes, p: nat): nat
    requires p < |b| && (b[p] >= 0xC0 ==> p + 1 < |b|)
  {
    if b[p] >= 0xC0 then PointerTarget(b[p], b[p + 1]) else p
  }

  /** One round of the decoder. */
  lemma DecodeStep(b: bytes, p: nat, name: bytes)
    requires name != [] && ValidName(name) && Decodes(b, p, name)
    ensures p < |b| && (b[p] >= 0xC0 ==> p + 1 < |b|)
    ensures var q := Source(b, p);
      && q + |Segment(name)| <= |b| && b[q..q + |Segment(name)|] == Segment(name) && b[q] == name[0] && b[p] != 0
      && Decodes(b, q + |Segment(name)|, Rest(name))
  {
    var q := Source(b, p);
    assert b[q] == b[q..q + |Segment(name)|][0];
  }

  lemma SameSegment(b: bytes, p: nat, m: bytes, n: bytes)
    requires m != [] && n != [] && ValidName(m) && ValidName(n) && Decodes(b, p, m) && Decodes(b, p, n)
    ensures Segment(m) == Segment(n)
  {
    DecodeStep(b, p, m);
    DecodeStep(b, p, n);
    hide Decodes, ValidName, Segment;
  }

  lemma SameParts(m: bytes, n: bytes)
    requires m != [] && n != [] && ValidName(m) && ValidName(n) && Segment(m) == Segment(n) && Rest(m) == Rest(n)
    ensures m == n
  {
    Parts(m);
    Parts(n);
    hide Segment, Rest, ValidName;
  }

  lemma BothOrNeither(b: bytes, p: nat, m: bytes, n: bytes)
    requires ValidName(m) && ValidName(n) && Decodes(b, p, m) && Decodes(b, p, n)
    ensures m == [] <==> n == []
  {
    if m != [] {
      DecodeStep(b, p, m);
    }
    if n != [] {
      DecodeStep(b, p, n);
    }
  }

  /** A buffer position decodes to at most one name. */
  lemma {:induction false} DecodesToOne(b: bytes, p: nat, m: bytes, n: bytes)
    requires ValidName(m) && ValidName(n) && Decodes(b, p, m) && Decodes(b, p, n)
    ensures m == n
    decreases |m|
  {
    hide *;
    BothOrNeither(b, p, m, n);
    if m != [] {
      SameSegment(b, p, m, n);
      DecodeStep(b, p, m);
      DecodeStep(b, p, n);
      DecodesToOne(b, Source(b, p) + |Segment(m)|, Rest(m), Rest(n));
      SameParts(m, n);
    }
  }

  lemma LabelPrefix(b: bytes, c: bytes, p: nat, name: bytes)
    requires name != [] && ValidName(name) && LabelAt(b, p, name)
    ensures LabelAt(b + c, p, name)
  {
    assert (b + c)[p..p + |Segment(name)|] == b[p..p + |Segment(name)|];
  }

  /** Writing further does not disturb what is there. */
  lemma {:induction false} DecodesPrefix(b: bytes, c: bytes, p: nat, name: bytes)
    requires ValidName(name) && Decodes(b, p, name)
    ensures Decodes(b + c, p, name)
    decreases |name|
  {
    hide *;
    if name == [] {
      EndPrefix(b, c, p);
    } else {
      var q := LeadsTo(b, p, name);
      LeadsPrefix(b, c, p, q);
      DecodesStep(b, p, q, name);
      DecodesStep(b + c, p, q, name);
      LabelPrefix(b, c, q, name);
      RestShorter(name);
      DecodesPrefix(b, c, q + |Segment(name)|, Rest(name));
    }
  }

  /** The label that the decoder reads at p stands at q: there, or where the pointer at p leads. */
  predicate Leads(b: bytes, p: nat, q: nat) {
    p < |b| && if b[p] >= 0xC0 then p + 1 < |b| && PointerTarget(b[p], b[p + 1]) == q else q == p
  }

  lemma LeadsTo(b: bytes, p: nat, name: bytes) returns (q: nat)
    requires name != [] && ValidName(name) && Decodes(b, p, name)
    ensures Leads(b, p, q)
  {
    q := if b[p] >= 0xC0 then PointerTarget(b[p], b[p + 1]) else p;
  }

  lemma LeadsPrefix(b: bytes, c: bytes, p: nat, q: nat)
    requires Leads(b, p, q)
    ensures Leads(b + c, p, q)
  {
  }

  lemma DecodesStep(b: bytes, p: nat, q: nat, name: bytes)
    requires name != [] && ValidName(name) && Leads(b, p, q)
    ensures Decodes(b, p, name) <==> LabelAt(b, q, name) && Decodes(b, q + |Segment(name)|, Rest(name))
  {
    hide PointerTarget, LabelAt, Segment, Rest;
  }

  lemma EndPrefix(b: bytes, c: bytes, p: nat)
    requires Decodes(b, p, [])
    ensures Decodes(b + c, p, [])
  {
  }

  lemma RestShorter(name: bytes)
    requires name != [] && ValidName(name)
    ensures |Rest(name)| < |name|
  {
  }

  // ----- What the cache promises -----

  /** The cached name stands at its position, label by label, and decodes to itself. */
  predicate EntryOk(b: bytes, e: Entry) {
    ValidName(e.label_) && (e.label_ != [] ==> LabelAt(b, e.pos, e.label_) && Decodes(b, e.pos, e.label_))
  }

  predicate TableOk(b: bytes, comp: seq<Entry>) {
    forall k :: 0 <= k < |comp| ==> EntryOk(b, comp[k])
  }

  lemma EntryPrefix(b: bytes, c: bytes, e: Entry)
    requires EntryOk(b, e)
    ensures EntryOk(b + c, e)
  {
    if e.label_ != [] {
      LabelPrefix(b, c, e.pos, e.label_);
      DecodesPrefix(b, c, e.pos, e.label_);
    }
  }

  lemma TablePrefix(b: bytes, c: bytes, comp: seq<Entry>)
    requires TableOk(b, comp)
    ensures TableOk(b + c, comp)
  {
    forall k | 0 <= k < |comp| ensures EntryOk(b + c, comp[k]) {
      EntryPrefix(b, c, comp[k]);
    }
  }

  lemma {:induction false} FoundEntry(comp: seq<Entry>, name: bytes)
    requires Find(comp, name).Some?
    ensures exists k :: 0 <= k < |comp| && comp[k] == Entry(name, Find(comp, name).value)
  {
    if comp[0].label_ != name {
      FoundEntry(comp[1..], name);
      var k :| 0 <= k < |comp[1..]| && comp[1..][k] == Entry(name, Find(comp, name).value);
      assert comp[k + 1] == Entry(name, Find(comp, name).value);
    } else {
      assert comp[0] == Entry(name, Find(comp, name).value);
    }
  }

  lemma PointerReaches(pos: nat)
    ensures PointerTarget(Pointer(pos)[0], Pointer(pos)[1]) == pos <==> pos < 0x4000
  {
    TargetIs(pos);
  }

  lemma TargetIs(pos: nat)
    ensures PointerTarget(Pointer(pos)[0], Pointer(pos)[1]) == pos % 0x4000
  {
    var q := pos % 0x4000;
    LowByteOf14(pos);
    SixBits(q / 0x100);
    assert q == (q / 0x100) * 0x100 + q % 0x100;
  }

  lemma SixBits(h: nat)
    requires h < 0x40
    ensures (0xC0 + h) % 0x40 == h
  {
  }

  lemma PointerDecodes(b: bytes, name: bytes, pos: nat)
    requires name != [] && ValidName(name) && pos < 0x4000 && EntryOk(b, Entry(name, pos))
    ensures Decodes(b + Pointer(pos), |b|, name)
  {
    hide *;
    EntryStands(b, name, pos);
    LabelPrefix(b, Pointer(pos), pos, name);
    DecodesPrefix(b, Pointer(pos), pos + |Segment(name)|, Rest(name));
    PointerPlaced(b, pos);
    DecodesStep(b + Pointer(pos), |b|, pos, name);
  }

  /** The label at an entry's own position is there itself, not by a pointer. */
  lemma EntryStands(b: bytes, name: bytes, pos: nat)
    requires name != [] && ValidName(name) && EntryOk(b, Entry(name, pos))
    ensures LabelAt(b, pos, name) && Decodes(b, pos + |Segment(name)|, Rest(name))
  {
    assert b[pos] == b[pos..pos + |Segment(name)|][0] == name[0];
  }

  lemma PointerPlaced(b: bytes, pos: nat)
    requires pos < 0x4000
    ensures Leads(b + Pointer(pos), |b|, pos)
  {
    PointerReaches(pos);
    hide PointerTarget;
  }

  /** Every entry is good, or too long to be matched while a name of this length is written. */
  predicate GoodOrLonger(b: bytes, comp: seq<Entry>, length: nat) {
    forall k :: 0 <= k < |comp| ==> |comp[k].label_| > length || EntryOk(b, comp[k])
  }

  lemma StillGood(b: bytes, comp: seq<Entry>, name: bytes)
    requires name != [] && ValidName(name) && GoodOrLonger(b, comp, |name|)
    ensures GoodOrLonger(b + Segment(name), comp + [Entry(name, |b|)], |Rest(name)|)
  {
    var b1, comp1 := b + Segment(name), comp + [Entry(name, |b|)];
    forall k | 0 <= k < |comp1| ensures |comp1[k].label_| > |Rest(name)| || EntryOk(b1, comp1[k]) {
      if k < |comp| && |comp[k].label_| <= |name| {
        EntryPrefix(b, Segment(name), comp[k]);
      }
    }
  }

  predicate NewEntriesOk(b: bytes, comp: seq<Entry>, from: nat) {
    forall k :: from <= k < |comp| ==> EntryOk(b, comp[k])
  }

  /**
    * The induction: entries whose label is longer than the name being written are still incomplete and cannot
    * be matched; all others are good. The entries added here are good once this name is complete.
    */
  lemma {:induction false} EncodedNameDecodes(b: bytes, name: bytes, comp: seq<Entry>)
    requires ValidName(name) && Pointable(|b|, name, comp) && GoodOrLonger(b, comp, |name|)
    ensures var (enc, comp') := EncodeName(|b|, name, comp); Decodes(b + enc, |b|, name) && NewEntriesOk(b + enc, comp', |comp|)
    decreases |name|, 1
  {
    var (enc, comp') := EncodeName(|b|, name, comp);
    if name == [] {
      assert (b + enc)[|b|] == 0;
    } else if Find(comp, name).Some? {
      FoundEntry(comp, name);
      PointerDecodes(b, name, Find(comp, name).value);
    } else {
      EncodeLabelThenRest(b, name, comp);
    }
  }

  lemma {:induction false} EncodeLabelThenRest(b: bytes, name: bytes, comp: seq<Entry>)
    requires name != [] && ValidName(name) && Pointable(|b|, name, comp) && GoodOrLonger(b, comp, |name|) && Find(comp, name).None?
    ensures var (enc, comp') := EncodeName(|b|, name, comp); Decodes(b + enc, |b|, name) && NewEntriesOk(b + enc, comp', |comp|)
    decreases |name|, 0
  {
    hide *;
    var b1, entry := b + Segment(name), Entry(name, |b|);
    var (tail, comp') := EncodeName(|b1|, Rest(name), comp + [entry]);
    NewLabel(b, name, comp);
    StillGood(b, comp, name);
    Associative(b, Segment(name), tail);
    EncodedNameDecodes(b1, Rest(name), comp + [entry]);
    SegmentDecodes(b, name, tail);
    SegmentEntry(b1 + tail, name, |b|);
    AddEntry(b1 + tail, comp, entry, comp');
  }

  /** One round of mdns_encode_name on a label that is not in the list. */
  lemma NewLabel(b: bytes, name: bytes, comp: seq<Entry>)
    requires name != [] && ValidName(name) && Find(comp, name).None?
    ensures |Rest(name)| < |name| && |comp + [Entry(name, |b|)]| == |comp| + 1
    ensures var next := EncodeName(|b + Segment(name)|, Rest(name), comp + [Entry(name, |b|)]);
      EncodeName(|b|, name, comp) == (Segment(name) + next.0, next.1)
    ensures Pointable(|b|, name, comp) ==> Pointable(|b + Segment(name)|, Rest(name), comp + [Entry(name, |b|)])
  {
    hide Find;
  }

  lemma AddEntry(b: bytes, comp: seq<Entry>, entry: Entry, comp': seq<Entry>)
    requires comp + [entry] <= comp' && EntryOk(b, entry) && NewEntriesOk(b, comp', |comp| + 1)
    ensures NewEntriesOk(b, comp', |comp|)
  {
    assert comp'[|comp|] == (comp + [entry])[|comp|];
  }

  lemma SegmentEntry(b: bytes, name: bytes, pos: nat)
    requires name != [] && ValidName(name) && LabelAt(b, pos, name) && Decodes(b, pos, name)
    ensures EntryOk(b, Entry(name, pos))
  {
  }

  lemma SegmentDecodes(b: bytes, name: bytes, tail: bytes)
    requires name != [] && ValidName(name) && Decodes(b + Segment(name) + tail, |b| + |Segment(name)|, Rest(name))
    ensures LabelAt(b + Segment(name) + tail, |b|, name) && Decodes(b + Segment(name) + tail, |b|, name)
  {
    var whole := b + Segment(name) + tail;
    assert whole[|b|..|b| + |Segment(name)|] == Segment(name);
    assert whole[|b|] == name[0];
  }

  /**
    * After a complete mdns_encode_name every cached name decodes to itself, the name just written included,
    * provided the position it points to fits in 14 bits.
    */
  lemma EncodeNameKeepsTable(b: bytes, name: bytes, comp: seq<Entry>)
    requires ValidName(name) && TableOk(b, comp) && Pointable(|b|, name, comp)
    ensures var (enc, comp') := EncodeName(|b|, name, comp);
      TableOk(b + enc, comp') && Decodes(b + enc, |b|, name)
  {
    var (enc, comp') := EncodeName(|b|, name, comp);
    EncodedNameDecodes(b, name, comp);
    forall k | 0 <= k < |comp'| ensures EntryOk(b + enc, comp'[k]) {
      if k < |comp| {
        assert comp'[k] == comp[k];
        EntryPrefix(b, enc, comp[k]);
      }
    }
  }

  /** The first position that no longer fits: the second mention of a name decodes to something else. */
  lemma PointerLimitIsReal()
    ensures var b: bytes := seq(0x4000, _ => 0) + [1, 0x61, 0]; var name: bytes := [1, 0x61];
      && ValidName(name) && TableOk(b, [DUMMY, Entry(name, 0x4000)])
      && !Decodes(b + EncodeName(|b|, name, [DUMMY, Entry(name, 0x4000)]).0, |b|, name)
  {
    var b: bytes := seq(0x4000, _ => 0) + [1, 0x61, 0];
    var name: bytes := [1, 0x61];
    assert name[2..] == [];
    assert b[0x4000..0x4002] == Segment(name);
    assert LabelAt(b, 0x4000, name) && Decodes(b, 0x4002, []);
    var comp := [DUMMY, Entry(name, 0x4000)];
    assert comp[1..][0] == Entry(name, 0x4000);
    assert Find(comp, name) == Some(0x4000);
    var b' := b + [0xC0, 0];
    assert Pointer(0x4000) == [0xC0, 0];
    assert b'[|b|] == 0xC0 && b'[|b| + 1] == 0;
    assert b'[0] == 0 && b'[0..2][0] == 0;
    assert !LabelAt(b', 0, name);
  }

  // ----- label_len -----

  /** label_len: the length of the name field at p, compressed as it stands. */
  function LabelLen(b: bytes, p: nat): nat
    decreases |b| - p
  {
    if p >= |b| then 0
    else if b[p] == 0 then 1
    else if b[p] >= 0xC0 then 2
    else 1 + b[p] + LabelLen(b, p + 1 + b[p])
  }

  /** label_len of an encoded name is the number of bytes the encoder reported. */
  lemma {:induction false} LabelLenOfEncoded(b: bytes, name: bytes, comp: seq<Entry>, after: bytes)
    requires ValidName(name)
    ensures var enc := EncodeName(|b|, name, comp).0; LabelLen(b + enc + after, |b|) == |enc|
    decreases |name|
  {
    hide *;
    if name == [] || Find(comp, name).Some? {
      LabelLenEnds(b, name, comp, after);
    } else {
      var b1 := b + Segment(name);
      var tail := EncodeName(|b1|, Rest(name), comp + [Entry(name, |b|)]).0;
      NewLabel(b, name, comp);
      LabelLenOfEncoded(b1, Rest(name), comp + [Entry(name, |b|)], after);
      Associative(b, Segment(name), tail);
      LabelLenStep(b, name, tail + after);
      Associative(b1, tail, after);
    }
  }

  /** The zero byte and the pointer end a name. */
  lemma LabelLenEnds(b: bytes, name: bytes, comp: seq<Entry>, after: bytes)
    requires ValidName(name) && (name == [] || Find(comp, name).Some?)
    ensures var enc := EncodeName(|b|, name, comp).0; LabelLen(b + enc + after, |b|) == |enc|
  {
    var enc := EncodeName(|b|, name, comp).0;
    assert (b + enc + after)[|b|] == enc[0];
    if name != [] {
      PointerReaches(Find(comp, name).value);
    }
  }

  lemma LabelLenStep(b: bytes, name: bytes, more: bytes)
    requires name != [] && ValidName(name)
    ensures LabelLen(b + Segment(name) + more, |b|) == |Segment(name)| + LabelLen(b + Segment(name) + more, |b + Segment(name)|)
  {
    assert (b + Segment(name) + more)[|b|] == name[0];
  }

  /** label_len, as a loop over the packet. */
  method LabelLength(pkt: bytes, off: nat) returns (len: nat)
    ensures len == LabelLen(pkt, off)
  {
    len := 0;
    var p := off;
    while p < |pkt|
      invariant len + LabelLen(pkt, p) == LabelLen(pkt, off)
      decreases |pkt| - p
    {
      if pkt[p] == 0 {
        return len + 1;
      } else if pkt[p] >= 0xC0 {
        return len + 2;
      }
      len := len + pkt[p] + 1;
      p := p + pkt[p] + 1;
    }
  }

  /**
    * uncompress_nlabel: one pass to measure, one to copy. It is called where a name decodes; on such buffers both
    * passes end, since each round uses up a label.
    */
  method UncompressNlabel(pkt: bytes, off: nat, ghost name: bytes) returns (str: bytes)
    requires ValidName(name) && Decodes(pkt, off, name)
    ensures str == name
  {
    hide Decodes, Segment, Rest, ValidName;
    var len := 0;
    var p: nat := off;
    ghost var left := name;
    NameEnds(pkt, p, left);
    while p < |pkt| && pkt[p] != 0
      invariant ValidName(left) && Decodes(pkt, p, left) && len + |left| == |name|
      invariant p < |pkt| && (pkt[p] == 0 <==> left == [])
      decreases |left|
    {
      DecodeStep(pkt, p, left);
      var q := Source(pkt, p);
      var llen: nat := 1 + pkt[q] as int;
      p := q + llen;
      len := len + llen;
      left := Rest(left);
      NameEnds(pkt, p, left);
    }
    str := [];
    p, left := off, name;
    NameEnds(pkt, p, left);
    while p < |pkt| && pkt[p] != 0
      invariant ValidName(left) && Decodes(pkt, p, left) && str + left == name
      invariant p < |pkt| && (pkt[p] == 0 <==> left == [])
      decreases |left|
    {
      DecodeStep(pkt, p, left);
      var q := Source(pkt, p);
      var llen: nat := 1 + pkt[q] as int;
      Move(str, left);
      str := str + pkt[q..q + llen];
      p := q + llen;
      left := Rest(left);
      NameEnds(pkt, p, left);
    }
    assert str + [] == str;
  }

  lemma Move(str: bytes, name: bytes)
    requires name != [] && ValidName(name)
    ensures (str + Segment(name)) + Rest(name) == str + name
  {
    Parts(name);
  }

  lemma NameEnds(pkt: bytes, p: nat, name: bytes)
    requires ValidName(name) && Decodes(pkt, p, name)
    ensures p < |pkt| && (pkt[p] == 0 <==> name == [])
  {
    if name != [] {
      DecodeStep(pkt, p, name);
    }
  }
}
