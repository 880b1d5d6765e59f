/** The encoder and the parser as they run: into a buffer, record by record, with the data length patched in afterwards. */
module MdnsCodec {
  import opened Bytes
  import Names = MdnsNames
  import Records = MdnsRecords

  type Entry = Names.Entry
  type RR = Records.RR

  // ----- Writing into the buffer -----

  /** The buffer after s has been written at p. */
  ghost function Splice(b: bytes, p: nat, s: bytes): (r: bytes)
    requires p + |s| <= |b|
    ensures |r| == |b|
  {
    b[..p] + s + b[p + |s|..]
  }

  /** Exactly the bytes of s have been replaced. */
  lemma SpliceIs(b: bytes, p: nat, s: bytes, r: bytes)
    requires p + |s| <= |b| && |r| == |b|
    ensures r == Splice(b, p, s) <==> r[p..p + |s|] == s && r[..p] == b[..p] && r[p + |s|..] == b[p + |s|..]
  {
    assert r == r[..p] + r[p..p + |s|] + r[p + |s|..];
  }

  lemma SpliceOne(b: bytes, p: nat, x: byte)
    requires p < |b|
    ensures Splice(b, p, [x]) == b[p := x]
  {
  }

  lemma SpliceNothing(b: bytes, p: nat)
    requires p <= |b|
    ensures Splice(b, p, []) == b
  {
  }

  lemma SpliceOn(b: bytes, p: nat, s: bytes, t: bytes)
    requires p + |s| + |t| <= |b|
    ensures |s + t| == |s| + |t|
    ensures Splice(Splice(b, p, s), p + |s|, t) == Splice(b, p, s + t)
  {
    var r := Splice(Splice(b, p, s), p + |s|, t);
    assert r[..p + |s|] == b[..p] + s;
    assert r == b[..p] + s + t + b[p + |s| + |t|..];
  }

  /** Bytes filled in later, in front of what is already there. */
  lemma SpliceBefore(b: bytes, p: nat, s: bytes, t: bytes)
    requires p + |s| + |t| <= |b|
    ensures |s + t| == |s| + |t|
    ensures Splice(Splice(b, p + |s|, t), p, s) == Splice(b, p, s + t)
  {
    var r := Splice(Splice(b, p + |s|, t), p, s);
    assert r[p + |s|..] == t + b[p + |s| + |t|..];
    assert r == b[..p] + s + (t + b[p + |s| + |t|..]);
    assert b[..p] + s + (t + b[p + |s| + |t|..]) == b[..p] + (s + t) + b[p + |s + t|..];
  }

  /** In the middle of writing goal at start: the buffer is now filled up to off, and rest is still to come. */
  ghost predicate Midway(b: bytes, start: nat, goal: bytes, now: bytes, off: nat, rest: bytes) {
    && start <= off <= start + |goal| <= |b|
    && now == Splice(b, start, goal[..off - start]) && rest == goal[off - start..]
  }

  lemma MidwayStart(b: bytes, start: nat, goal: bytes)
    requires start + |goal| <= |b|
    ensures Midway(b, start, goal, b, start, goal)
  {
    SpliceNothing(b, start);
  }

  lemma MidwayStep(b: bytes, start: nat, goal: bytes, now: bytes, off: nat, first: bytes, rest: bytes)
    requires Midway(b, start, goal, now, off, first + rest)
    ensures off + |first| <= |now| == |b| && Midway(b, start, goal, Splice(now, off, first), off + |first|, rest)
  {
    var n := off - start;
    assert goal[n..n + |first|] == (first + rest)[..|first|] == first;
    assert goal[n + |first|..] == (first + rest)[|first|..] == rest;
    assert goal[..n + |first|] == goal[..n] + first;
    SpliceOn(b, start, goal[..n], first);
  }

  lemma MidwayEnd(b: bytes, start: nat, goal: bytes, now: bytes, off: nat, rest: bytes)
    requires Midway(b, start, goal, now, off, rest) && (|rest| == 0 || off == |b|)
    ensures now == Splice(b, start, goal) && off == start + |goal|
  {
    assert goal[..|goal|] == goal;
  }

  lemma MidwayLast(b: bytes, start: nat, goal: bytes, now: bytes, off: nat, last: bytes)
    requires Midway(b, start, goal, now, off, last)
    ensures off + |last| == start + |goal| <= |now| == |b| && Splice(now, off, last) == Splice(b, start, goal)
  {
    assert last + [] == last;
    MidwayStep(b, start, goal, now, off, last, []);
    MidwayEnd(b, start, goal, Splice(now, off, last), off + |last|, []);
  }

  lemma {:induction false} FindFirst(comp: seq<Entry>, name: bytes, k: nat)
    requires k < |comp| && comp[k].label_ == name && forall j :: 0 <= j < k ==> comp[j].label_ != name
    ensures Names.Find(comp, name) == Some(comp[k].pos)
  {
    if k > 0 {
      FindFirst(comp[1..], name, k - 1);
    }
  }

  // ----- Which replies stay inside the buffer -----

  /** The buffer is looked at only after a record has been written: no record runs over, and one that fills it is the last. */
  predicate StaysInside(off: nat, all: seq<RR>, comp: seq<Entry>, limit: nat)
    requires Records.ValidRRs(all)
    decreases |all|
  {
    all == [] ||
    var end := off + |Records.EncodeRR(off, all[0], comp)|;
    end == limit || (end < limit && StaysInside(end, all[1..], Records.RRCache(off, all[0], comp), limit))
  }

  /** The first j records end at the limit. */
  predicate EndsAt(off: nat, all: seq<RR>, comp: seq<Entry>, j: nat, limit: nat)
    requires Records.ValidRRs(all) && j <= |all|
  {
    off + |Records.EncodeRRs(off, all[..j], comp)| == limit
  }

  lemma EndsAtStep(off: nat, all: seq<RR>, comp: seq<Entry>, j: nat, limit: nat)
    requires Records.ValidRRs(all) && 0 < j <= |all|
    ensures EndsAt(off, all, comp, j, limit)
      <==> EndsAt(off + |Records.EncodeRR(off, all[0], comp)|, all[1..], Records.RRCache(off, all[0], comp), j - 1, limit)
  {
    assert all[..j][0] == all[0] && all[..j][1..] == all[1..][..j - 1];
    hide Records.EncodeRR, Records.RRCache, Records.ValidRR;
  }

  /** A reply stays inside exactly when it fits as a whole, or when one of its records ends with the last byte of the buffer. */
  lemma {:induction false} InsideExactly(off: nat, all: seq<RR>, comp: seq<Entry>, limit: nat)
    requires Records.ValidRRs(all) && off <= limit
    ensures StaysInside(off, all, comp, limit)
      <==> off + |Records.EncodeRRs(off, all, comp)| <= limit || exists j :: 0 < j <= |all| && EndsAt(off, all, comp, j, limit)
    decreases |all|
  {
    hide *;
    InsideStep(off, all, comp, limit);
    if all != [] {
      var end, comp' := off + |Records.EncodeRR(off, all[0], comp)|, Records.RRCache(off, all[0], comp);
      if end <= limit {
        InsideExactly(end, all[1..], comp', limit);
      }
      EndsBetween(off, all, comp, end, comp', limit);
    }
  }

  lemma InsideStep(off: nat, all: seq<RR>, comp: seq<Entry>, limit: nat)
    requires Records.ValidRRs(all)
    ensures all == [] ==> StaysInside(off, all, comp, limit) && Records.EncodeRRs(off, all, comp) == []
    ensures all != [] ==>
      && Records.ValidRR(all[0]) && Records.ValidRRs(all[1..])
      && var end, comp' := off + |Records.EncodeRR(off, all[0], comp)|, Records.RRCache(off, all[0], comp);
      && (StaysInside(off, all, comp, limit) <==> end == limit || (end < limit && StaysInside(end, all[1..], comp', limit)))
      && off + |Records.EncodeRRs(off, all, comp)| == end + |Records.EncodeRRs(end, all[1..], comp')|
  {
    hide Records.EncodeRR, Records.RRCache, Records.ValidRR;
  }

  /** The records that end at the limit: the first, or one of those after it. */
  lemma EndsBetween(off: nat, all: seq<RR>, comp: seq<Entry>, end: nat, comp': seq<Entry>, limit: nat)
    requires Records.ValidRRs(all) && all != []
    requires end == off + |Records.EncodeRR(off, all[0], comp)| && comp' == Records.RRCache(off, all[0], comp)
    ensures (exists j :: 0 < j <= |all| && EndsAt(off, all, comp, j, limit))
      <==> end == limit || exists j :: 0 < j <= |all[1..]| && EndsAt(end, all[1..], comp', j, limit)
    ensures (exists j :: 0 < j <= |all| && EndsAt(off, all, comp, j, limit)) ==> end <= limit
  {
    hide Records.EncodeRR, Records.RRCache, Records.ValidRR;
    forall j | 0 < j <= |all| ensures EndsAt(off, all, comp, j, limit) <==> EndsAt(end, all[1..], comp', j - 1, limit) {
      EndsAtStep(off, all, comp, j, limit);
    }
    assert EndsAt(end, all[1..], comp', 0, limit) <==> end == limit by {
      assert all[1..][..0] == [];
    }
    if j :| 0 < j <= |all[1..]| && EndsAt(end, all[1..], comp', j, limit) {
      assert EndsAt(off, all, comp, j + 1, limit);
    }
    if end == limit {
      assert EndsAt(off, all, comp, 1, limit);
    }
  }

  /** As much of s as n bytes can hold. */
  function Front(s: bytes, n: nat): bytes {
    if |s| <= n then s else s[..n]
  }

  lemma FrontStep(first: bytes, more: bytes, n: nat)
    requires |first| <= n
    ensures Front(first + more, n) == first + Front(more, n - |first|)
  {
  }

  lemma FrontLength(s: bytes, n: nat)
    ensures |Front(s, n)| == if |s| <= n then |s| else n
    ensures |s| <= n ==> Front(s, n) == s
  {
  }

  class PacketWriter {
    const buf: array<byte>
    /** The name compression list; its first entry is the dummy. */
    var comp: seq<Entry>

    constructor (buf: array<byte>)
      ensures this.buf == buf && comp == [Names.DUMMY]
    {
      this.buf := buf;
      comp := [Names.DUMMY];
    }

    /** Copies s to position p. */
    method Put(p: nat, s: bytes)
      requires p + |s| <= buf.Length
      modifies buf
      ensures buf[..] == Splice(old(buf[..]), p, s)
    {
      for i := 0 to |s|
        invariant buf[..] == Splice(old(buf[..]), p, s[..i])
      {
        SpliceOn(old(buf[..]), p, s[..i], [s[i]]);
        SpliceOne(buf[..], p + i, s[i]);
        hide *;
        buf[p + i] := s[i];
        assert s[..i + 1] == s[..i] + [s[i]];
      }
      assert s[..|s|] == s;
    }

    method WriteU16(p: nat, v: nat) returns (next: nat)
      requires p + 2 <= buf.Length
      modifies buf
      ensures next == p + 2 && buf[..] == Splice(old(buf[..]), p, U16(v))
    {
      buf[p] := (v / 0x100) % 0x100;
      buf[p + 1] := v % 0x100;
      next := p + 2;
      SpliceIs(old(buf[..]), p, U16(v), buf[..]);
    }

    method WriteU32(p: nat, v: nat) returns (next: nat)
      requires p + 4 <= buf.Length
      modifies buf
      ensures next == p + 4 && buf[..] == Splice(old(buf[..]), p, U32(v))
    {
      buf[p] := (v / 0x100_0000) % 0x100;
      buf[p + 1] := (v / 0x1_0000) % 0x100;
      buf[p + 2] := (v / 0x100) % 0x100;
      buf[p + 3] := v % 0x100;
      next := p + 4;
      SpliceIs(old(buf[..]), p, U32(v), buf[..]);
    }

    /** The search through the compression list for an equal name. */
    method Lookup(name: bytes) returns (r: Option<nat>)
      ensures r == Names.Find(comp, name)
    {
      for k := 0 to |comp|
        invariant forall j :: 0 <= j < k ==> comp[j].label_ != name
      {
        if comp[k].label_ == name {
          FindFirst(comp, name, k);
          return Some(comp[k].pos);
        }
      }
      r := None;
    }

    /** mdns_encode_name */
    method EncodeName(off: nat, name: bytes) returns (len: nat)
      requires Names.ValidName(name) && off + |Names.EncodeName(off, name, comp).0| <= buf.Length
      modifies buf, this`comp
      ensures len == |Names.EncodeName(off, name, old(comp)).0|
      ensures buf[..] == Splice(old(buf[..]), off, Names.EncodeName(off, name, old(comp)).0)
      ensures comp == Names.EncodeName(off, name, old(comp)).1
    {
      hide *;
      ghost var b, goal := buf[..], Names.EncodeName(off, name, comp);
      var p, rest := off, name;
      MidwayStart(b, off, goal.0);
      while rest != []
        invariant off <= p && Names.ValidName(rest)
        invariant Midway(b, off, goal.0, buf[..], p, Names.EncodeName(p, rest, comp).0)
        invariant Names.EncodeName(p, rest, comp).1 == goal.1
        decreases |rest|
      {
        EncodeStep(p, rest, comp);
        var match_ := Lookup(rest);
        if match_.Some? {
          PointerBytes(match_.value);
          MidwayLast(b, off, goal.0, buf[..], p, Names.Pointer(match_.value));
          var _ := WriteU16(p, 0xC000 + match_.value % 0x4000);
          return p + 2 - off;
        }
        var segment := Names.Segment(rest);
        MidwayStep(b, off, goal.0, buf[..], p, segment, Names.EncodeName(p + |segment|, Names.Rest(rest), comp + [Names.Entry(rest, p)]).0);
        Put(p, segment);
        comp := comp + [Names.Entry(rest, p)];
        p := p + |segment|;
        rest := Names.Rest(rest);
      }
      EncodeEnd(p, comp);
      MidwayLast(b, off, goal.0, buf[..], p, [0]);
      Put(p, [0]);
      len := p + 1 - off;
    }

    /** The switch on the record type in mdns_encode_rr. */
    method EncodeData(off: nat, rr: RR) returns (end: nat)
      requires Records.ValidRR(rr) && off + |Records.EncodeData(off, rr, comp).0| <= buf.Length
      modifies buf, this`comp
      ensures end == off + |Records.EncodeData(off, rr, old(comp)).0|
      ensures buf[..] == Splice(old(buf[..]), off, Records.EncodeData(off, rr, old(comp)).0)
      ensures comp == Records.EncodeData(off, rr, old(comp)).1
    {
      hide *;
      DataCases(off, rr, comp);
      end := off;
      match rr.data
      case A(addr) =>
        Put(end, addr);
        end := end + 4;
      case AAAA(addr) =>
        Put(end, addr);
        end := end + 16;
      case PTR(target) =>
        var l := EncodeName(end, target);
        end := end + l;
      case TXT(strings) => end := EncodeStrings(end, strings);
      case SRV(priority, weight, port, host) => end := EncodeSrv(end, priority, weight, port, host);
      case NSEC(bitmap) => end := EncodeNsec(end, rr.name, bitmap);
      case Blank => SpliceNothing(buf[..], off);
    }

    method EncodeSrv(off: nat, priority: nat, weight: nat, port: nat, host: bytes) returns (end: nat)
      requires Names.ValidName(host) && off + 6 + |Names.EncodeName(off + 6, host, comp).0| <= buf.Length
      modifies buf, this`comp
      ensures end == off + 6 + |Names.EncodeName(off + 6, host, old(comp)).0|
      ensures buf[..] == Splice(old(buf[..]), off,
        U16(priority) + U16(weight) + U16(port) + Names.EncodeName(off + 6, host, old(comp)).0)
      ensures comp == Names.EncodeName(off + 6, host, old(comp)).1
    {
      hide *;
      ghost var b, name := buf[..], Names.EncodeName(off + 6, host, comp).0;
      ghost var d1, d2, d3 := U16(priority), U16(weight), U16(port);
      SpliceOn(b, off, d1, d2);
      SpliceOn(b, off, d1 + d2, d3);
      SpliceOn(b, off, d1 + d2 + d3, name);
      end := WriteU16(off, priority);
      end := WriteU16(end, weight);
      end := WriteU16(end, port);
      var l := EncodeName(end, host);
      end := end + l;
    }

    method EncodeNsec(off: nat, owner: bytes, bitmap: bytes) returns (end: nat)
      requires Names.ValidName(owner) && |bitmap| == 5 && off + |Names.EncodeName(off, owner, comp).0| + 7 <= buf.Length
      modifies buf, this`comp
      ensures end == off + |Names.EncodeName(off, owner, old(comp)).0| + 7
      ensures buf[..] == Splice(old(buf[..]), off, Names.EncodeName(off, owner, old(comp)).0 + [0, 5] + bitmap)
      ensures comp == Names.EncodeName(off, owner, old(comp)).1
    {
      hide *;
      ghost var b, name := buf[..], Names.EncodeName(off, owner, comp).0;
      SpliceOn(b, off, name, [0, 5]);
      SpliceOn(b, off, name + [0, 5], bitmap);
      var l := EncodeName(off, owner);
      end := off + l;
      Put(end, [0, 5]);
      end := end + 2;
      Put(end, bitmap);
      end := end + 5;
    }

    method EncodeStrings(off: nat, strings: seq<bytes>) returns (end: nat)
      requires Records.TextsOk(strings) && off + |Records.EncodeStrings(strings)| <= buf.Length
      modifies buf
      ensures end == off + |Records.EncodeStrings(strings)|
      ensures buf[..] == Splice(old(buf[..]), off, Records.EncodeStrings(strings))
    {
      hide *;
      ghost var b, goal := buf[..], Records.EncodeStrings(strings);
      end := off;
      var i := 0;
      assert strings[0..] == strings;
      MidwayStart(b, off, goal);
      while i < |strings|
        invariant 0 <= i <= |strings| && off <= end && Records.TextsOk(strings[i..])
        invariant Midway(b, off, goal, buf[..], end, Records.EncodeStrings(strings[i..]))
      {
        StringsStep(strings, i);
        var text := [|strings[i]| as byte] + strings[i];
        MidwayStep(b, off, goal, buf[..], end, text, Records.EncodeStrings(strings[i + 1..]));
        Put(end, text);
        end := end + |text|;
        i := i + 1;
      }
      StringsEnd(strings);
      MidwayEnd(b, off, goal, buf[..], end, []);
    }

    /** mdns_encode_rr: the data length is written last, in front of the data. */
    method EncodeRR(off: nat, rr: RR) returns (len: nat)
      requires Records.ValidRR(rr) && off + |Records.EncodeRR(off, rr, comp)| <= buf.Length
      modifies buf, this`comp
      ensures len == |Records.EncodeRR(off, rr, old(comp))|
      ensures buf[..] == Splice(old(buf[..]), off, Records.EncodeRR(off, rr, old(comp)))
      ensures comp == Records.RRCache(off, rr, old(comp))
    {
      hide *;
      RecordParts(off, rr, comp);
      ghost var b, name, data := buf[..], Records.NamePart(off, rr, comp), Records.DataPart(off, rr, comp);
      ghost var type_, class_, ttl := U16(rr.type_), U16(Records.ClassField(rr)), U32(rr.ttl);
      RecordSplices(b, off, name, type_, class_, ttl, U16(|data|), data);
      var l := EncodeName(off, rr.name);
      var p := off + l;
      p := WriteU16(p, rr.type_);
      p := WriteU16(p, Records.ClassField(rr));
      p := WriteU32(p, rr.ttl);
      p := p + 2;
      var pData := p;
      p := EncodeData(pData, rr);
      l := p - pData;
      var _ := WriteU16(pData - 2, l);
      len := p - off;
    }

    /** mdns_encode_pkt: the size of the packet, or -1 when the records fill the buffer to its last byte. */
    method EncodePacket(r: Records.Reply) returns (size: int)
      requires Records.ValidReply(r) && comp == [Names.DUMMY] && 12 <= buf.Length
      requires StaysInside(12, Records.AllRecords(r), [Names.DUMMY], buf.Length)
      modifies buf, this`comp
      ensures |Front(Records.EncodePacket(r), buf.Length)| <= buf.Length
      ensures buf[..] == Splice(old(buf[..]), 0, Front(Records.EncodePacket(r), buf.Length))
      ensures size == if Records.AllRecords(r) != [] && |Records.EncodePacket(r)| >= buf.Length then -1 else |Records.EncodePacket(r)|
    {
      ghost var b, records := buf[..], Records.EncodeRRs(12, Records.AllRecords(r), [Names.DUMMY]);
      assert Records.EncodePacket(r) == Records.Header(r) + records;
      hide *;
      FrontStep(Records.Header(r), records, buf.Length);
      FrontLength(records, buf.Length - 12);
      FrontLength(Records.EncodePacket(r), buf.Length);
      var off := WriteHeader(r);
      size := EncodeAll(off, Records.AllRecords(r));
      SpliceOn(b, 0, Records.Header(r), Front(records, buf.Length - 12));
    }

    method WriteHeader(r: Records.Reply) returns (p: nat)
      requires Records.ValidReply(r) && 12 <= buf.Length
      modifies buf
      ensures p == 12 && buf[..] == Splice(old(buf[..]), 0, Records.Header(r))
    {
      ghost var b, h := buf[..], Records.Header(r);
      ghost var h1, h2, h3, h4, h5, h6 := U16(r.id), U16(r.flags), U16(0),
        U16(|r.answers|), U16(|r.authority|), U16(|r.additional|);
      assert h == h1 + h2 + h3 + h4 + h5 + h6;
      hide *;
      SpliceOn(b, 0, h1, h2);
      SpliceOn(b, 0, h1 + h2, h3);
      SpliceOn(b, 0, h1 + h2 + h3, h4);
      SpliceOn(b, 0, h1 + h2 + h3 + h4, h5);
      SpliceOn(b, 0, h1 + h2 + h3 + h4 + h5, h6);
      p := WriteU16(0, r.id);
      p := WriteU16(p, r.flags);
      p := WriteU16(p, 0);
      p := WriteU16(p, |r.answers|);
      p := WriteU16(p, |r.authority|);
      p := WriteU16(p, |r.additional|);
    }

    /** The loop over all records of the reply. */
    method EncodeAll(start: nat, all: seq<RR>) returns (size: int)
      requires Records.ValidRRs(all) && start <= buf.Length && StaysInside(start, all, comp, buf.Length)
      modifies buf, this`comp
      ensures start + |Front(Records.EncodeRRs(start, all, old(comp)), buf.Length - start)| <= buf.Length
      ensures buf[..] == Splice(old(buf[..]), start, Front(Records.EncodeRRs(start, all, old(comp)), buf.Length - start))
      ensures var end := start + |Records.EncodeRRs(start, all, old(comp))|; size == if all != [] && end >= buf.Length then -1 else end
    {
      hide *;
      ghost var b, whole := buf[..], Records.EncodeRRs(start, all, comp);
      ghost var goal := Front(whole, buf.Length - start);
      var off, rest := start, all;
      FrontLength(whole, buf.Length - start);
      MidwayStart(b, start, goal);
      while rest != []
        invariant start <= off <= buf.Length && Records.ValidRRs(rest) && StaysInside(off, rest, comp, buf.Length)
        invariant off + |Records.EncodeRRs(off, rest, comp)| == start + |whole|
        invariant Midway(b, start, goal, buf[..], off, Front(Records.EncodeRRs(off, rest, comp), buf.Length - off))
        invariant rest == all || off < buf.Length
        decreases |rest|
      {
        RecordStep(b, start, goal, buf[..], off, rest, comp);
        var l := EncodeRR(off, rest[0]);
        off := off + l;
        rest := rest[1..];
        if off >= buf.Length {
          MidwayEnd(b, start, goal, buf[..], off, Front(Records.EncodeRRs(off, rest, comp), buf.Length - off));
          return -1;
        }
      }
      RecordsEnd(off, rest, comp);
      FrontLength([], buf.Length - off);
      MidwayEnd(b, start, goal, buf[..], off, []);
      size := off;
    }
  }

  // ----- One step at a time -----

  lemma EncodeStep(p: nat, rest: bytes, comp: seq<Entry>)
    requires rest != [] && Names.ValidName(rest)
    ensures Names.ValidName(Names.Rest(rest)) && |Names.Rest(rest)| < |rest|
    ensures var found, segment := Names.Find(comp, rest), Names.Segment(rest);
      var tail := Names.EncodeName(p + |segment|, Names.Rest(rest), comp + [Names.Entry(rest, p)]);
      && (found.Some? ==> Names.EncodeName(p, rest, comp).0 == Names.Pointer(found.value) && Names.EncodeName(p, rest, comp).1 == comp)
      && (found.None? ==> Names.EncodeName(p, rest, comp).0 == segment + tail.0 && Names.EncodeName(p, rest, comp).1 == tail.1)
  {
  }

  lemma EncodeEnd(p: nat, comp: seq<Entry>)
    ensures Names.ValidName([]) && Names.EncodeName(p, [], comp).0 == [0] && Names.EncodeName(p, [], comp).1 == comp
  {
  }

  lemma StringsStep(strings: seq<bytes>, i: nat)
    requires i < |strings| && Records.TextsOk(strings[i..])
    ensures |strings[i]| <= 63 && Records.TextsOk(strings[i + 1..])
    ensures Records.EncodeStrings(strings[i..]) == [|strings[i]| as byte] + strings[i] + Records.EncodeStrings(strings[i + 1..])
  {
    assert strings[i..][0] == strings[i] && strings[i..][1..] == strings[i + 1..];
    assert Records.TextOk(strings[i]);
  }

  lemma StringsEnd(strings: seq<bytes>)
    ensures Records.TextsOk(strings[|strings|..]) && Records.EncodeStrings(strings[|strings|..]) == []
  {
  }

  /** The encoding of the data, case by case, and its length. */
  lemma DataCases(off: nat, rr: RR, comp: seq<Entry>)
    requires Records.ValidRR(rr)
    ensures Names.ValidName(rr.name)
    ensures rr.data.PTR? ==> Names.ValidName(rr.data.target)
    ensures rr.data.SRV? ==> Names.ValidName(rr.data.host)
    ensures rr.data.TXT? ==> Records.TextsOk(rr.data.strings)
    ensures var r, d := Records.EncodeData(off, rr, comp), rr.data;
      && (d.A? ==> |d.addr| == 4 && r == (d.addr, comp))
      && (d.AAAA? ==> |d.addr6| == 16 && r == (d.addr6, comp))
      && (d.PTR? ==> r == Names.EncodeName(off, d.target, comp))
      && (d.TXT? ==> r == (Records.EncodeStrings(d.strings), comp))
      && (d.SRV? ==> r.0 == U16(d.priority) + U16(d.weight) + U16(d.port) + Names.EncodeName(off + 6, d.host, comp).0)
      && (d.SRV? ==> r.1 == Names.EncodeName(off + 6, d.host, comp).1)
      && (d.NSEC? ==> |d.bitmap| == 5 && r.0 == Names.EncodeName(off, rr.name, comp).0 + [0, 5] + d.bitmap)
      && (d.NSEC? ==> r.1 == Names.EncodeName(off, rr.name, comp).1)
      && (d.Blank? ==> r == ([], comp))
  {
  }

  lemma RecordParts(off: nat, rr: RR, comp: seq<Entry>)
    requires Records.ValidRR(rr)
    ensures Names.ValidName(rr.name)
    ensures var name, data := Records.NamePart(off, rr, comp), Records.DataPart(off, rr, comp);
      && name == Names.EncodeName(off, rr.name, comp).0 && Records.NameCache(off, rr, comp) == Names.EncodeName(off, rr.name, comp).1
      && Records.EncodeRR(off, rr, comp) == name + (U16(rr.type_) + U16(Records.ClassField(rr)) + U32(rr.ttl) + U16(|data|)) + data
      && |Records.EncodeRR(off, rr, comp)| == |name| + 10 + |data|
      && Records.EncodeData(off + |name| + 10, rr, Records.NameCache(off, rr, comp)) == (data, Records.RRCache(off, rr, comp))
  {
  }

  /** The writes of mdns_encode_rr in their order, the data length last. */
  lemma RecordSplices(b: bytes, off: nat, name: bytes, type_: bytes, class_: bytes, ttl: bytes, length: bytes, data: bytes)
    requires |type_| == 2 && |class_| == 2 && |ttl| == 4 && |length| == 2 && off + |name| + 10 + |data| <= |b|
    ensures var p := off + |name|;
      Splice(Splice(Splice(Splice(Splice(Splice(b, off, name), p, type_), p + 2, class_), p + 4, ttl), p + 10, data), p + 8, length)
      == Splice(b, off, name + (type_ + class_ + ttl + length) + data)
  {
    hide Splice;
    var p, b1 := off + |name|, Splice(b, off, name);
    SpliceOn(b1, p, type_, class_);
    SpliceOn(b1, p, type_ + class_, ttl);
    var front := type_ + class_ + ttl;
    SpliceBefore(Splice(b1, p, front), p + 8, length, data);
    SpliceOn(b1, p, front, length + data);
    SpliceOn(b, off, name, front + (length + data));
    assert name + (front + (length + data)) == name + (front + length) + data;
  }

  lemma RecordStep(b: bytes, start: nat, goal: bytes, now: bytes, off: nat, rest: seq<RR>, comp: seq<Entry>)
    requires rest != [] && Records.ValidRRs(rest) && off <= |now| && StaysInside(off, rest, comp, |now|)
    requires Midway(b, start, goal, now, off, Front(Records.EncodeRRs(off, rest, comp), |now| - off))
    ensures Records.ValidRR(rest[0]) && Records.ValidRRs(rest[1..])
    ensures var first, comp' := Records.EncodeRR(off, rest[0], comp), Records.RRCache(off, rest[0], comp);
      var more := Records.EncodeRRs(off + |first|, rest[1..], comp');
      && off + |first| <= |now| == |b|
      && |Records.EncodeRRs(off, rest, comp)| == |first| + |more|
      && Midway(b, start, goal, Splice(now, off, first), off + |first|, Front(more, |now| - off - |first|))
      && (off + |first| < |now| ==> StaysInside(off + |first|, rest[1..], comp', |now|))
  {
    hide *;
    FirstInside(off, rest, comp, |now|);
    var first := Records.EncodeRR(off, rest[0], comp);
    var more := Records.EncodeRRs(off + |first|, rest[1..], Records.RRCache(off, rest[0], comp));
    FrontStep(first, more, |now| - off);
    MidwayStep(b, start, goal, now, off, first, Front(more, |now| - off - |first|));
  }

  /** The first of the records, and those after it. */
  lemma FirstInside(off: nat, rest: seq<RR>, comp: seq<Entry>, limit: nat)
    requires rest != [] && Records.ValidRRs(rest) && StaysInside(off, rest, comp, limit)
    ensures Records.ValidRR(rest[0]) && Records.ValidRRs(rest[1..])
    ensures var first, comp' := Records.EncodeRR(off, rest[0], comp), Records.RRCache(off, rest[0], comp);
      var more := Records.EncodeRRs(off + |first|, rest[1..], comp');
      && Records.EncodeRRs(off, rest, comp) == first + more && |first + more| == |first| + |more|
      && off + |first| <= limit
      && (off + |first| < limit ==> StaysInside(off + |first|, rest[1..], comp', limit))
  {
    hide Records.EncodeRR, Records.RRCache, Records.ValidRR;
  }

  lemma RecordsEnd(off: nat, rest: seq<RR>, comp: seq<Entry>)
    requires |rest| == 0
    ensures Records.ValidRRs(rest) && Records.EncodeRRs(off, rest, comp) == []
  {
  }

  lemma PointerBytes(pos: nat)
    ensures U16(0xC000 + pos % 0x4000) == Names.Pointer(pos)
  {
    var q := pos % 0x4000;
    LowByteOf14(pos);
    LowByte(0xC000 + q, 0xC0 + q / 0x100, q % 0x100);
    HighByte(q);
  }

  lemma HighByte(q: nat)
    requires q < 0x4000
    ensures ((0xC000 + q) / 0x100) % 0x100 == 0xC0 + q / 0x100
  {
  }
}
