/**
  * Message framing of LightningCastClient: eight bytes of header, then the payload. Reads and writes may be cut
  * anywhere and may have to be tried again; a plan says what each attempt does.
  */
module Framing {
  import opened Bytes

  const HEADER_KEY := 0x9876
  const HEADER_SIZE := 8

  /** One call of read or write: it moves up to that many bytes, asks to try again, finds the stream ended, or fails. */
  datatype Attempt = Transfer(limit: nat) | Again | End | Failure

  /** No hard error, and every transfer moves something. */
  predicate Clean(plan: seq<Attempt>) {
    forall k :: 0 <= k < |plan| ==> plan[k].Again? || (plan[k].Transfer? && plan[k].limit > 0)
  }

  lemma CleanTail(plan: seq<Attempt>, k: nat)
    requires Clean(plan) && k <= |plan|
    ensures Clean(plan[k..])
  {
  }

  function Later(plan: seq<Attempt>): seq<Attempt> {
    if plan == [] then [] else plan[1..]
  }

  function Min(a: nat, b: nat): nat {
    if a <= b then a else b
  }

  // ----- Frames -----

  function Header(m: bytes): (h: bytes)
    ensures |h| == HEADER_SIZE
  {
    U32(HEADER_KEY) + U32(|m|)
  }

  /** What processSend puts on the wire. The size field is 32 bits wide. */
  function Frame(m: bytes): bytes {
    Header(m) + m
  }

  function Frames(ms: seq<bytes>): bytes {
    if ms == [] then [] else Frame(ms[0]) + Frames(ms[1..])
  }

  lemma HeaderFields(m: bytes, after: bytes)
    ensures Read32(Frame(m) + after, 0) == HEADER_KEY && Read32(Frame(m) + after, 4) == |m| % 0x1_0000_0000
    ensures (Frame(m) + after)[..HEADER_SIZE] == Header(m) && (Frame(m) + after)[HEADER_SIZE..] == m + after
    ensures Read32(Header(m), 0) == HEADER_KEY && Read32(Header(m), 4) == |m| % 0x1_0000_0000
  {
    var b := Frame(m) + after;
    assert b[0..4] == U32(HEADER_KEY) && b[4..8] == U32(|m|);
    assert Header(m)[0..4] == U32(HEADER_KEY) && Header(m)[4..8] == U32(|m|);
    Read32Back(b, 0, HEADER_KEY);
    Read32Back(b, 4, |m|);
    Read32Back(Header(m), 0, HEADER_KEY);
    Read32Back(Header(m), 4, |m|);
  }

  // ----- Reading -----

  /** What a sequence of reads comes to: the bytes asked for, what is left of stream and plan, or a broken connection. */
  datatype Outcome = Got(data: bytes, rest: bytes, plan: seq<Attempt>) | Broken

  /**
    * n bytes from the stream, as the read loops collect them. An empty stream makes a read try again; when the plan
    * is used up the rest comes in one piece, or the stream has ended.
    */
  function Take(rest: bytes, plan: seq<Attempt>, n: nat): Outcome
    decreases |plan|
  {
    if n == 0 then Got([], rest, plan)
    else if plan == [] then (if n <= |rest| then Got(rest[..n], rest[n..], []) else Broken)
    else
      match plan[0]
      case Failure => Broken
      case End => Broken
      case Again => Take(rest, plan[1..], n)
      case Transfer(limit) =>
        if limit == 0 then Broken
        else
          var k := Min(limit, Min(n, |rest|));
          match Take(rest[k..], plan[1..], n - k)
          case Broken => Broken
          case Got(data, rest', plan') => Got(rest[..k] + data, rest', plan')
  }

  /** Whatever the reads do, what they collect is the front of the stream. */
  lemma {:induction false} TakeIsFront(rest: bytes, plan: seq<Attempt>, n: nat)
    ensures var r := Take(rest, plan, n); r.Got? ==> n <= |rest| && r.data == rest[..n] && r.rest == rest[n..]
    decreases |plan|
  {
    if n > 0 && plan != [] {
      match plan[0]
      case Again => TakeIsFront(rest, plan[1..], n);
      case Transfer(limit) =>
        var k := Min(limit, Min(n, |rest|));
        TakeIsFront(rest[k..], plan[1..], n - k);
        if n <= |rest| {
          assert rest[..n] == rest[..k] + rest[k..][..n - k] && rest[n..] == rest[k..][n - k..];
        }
      case _ =>
    }
  }

  /** Without hard errors the bytes always arrive, however they are cut. */
  lemma {:induction false} CleanTake(rest: bytes, plan: seq<Attempt>, n: nat)
    requires Clean(plan) && n <= |rest|
    ensures var r := Take(rest, plan, n); r.Got? && r.data == rest[..n] && r.rest == rest[n..] && Clean(r.plan)
    decreases |plan|
  {
    TakeIsFront(rest, plan, n);
    if n > 0 && plan != [] {
      CleanTail(plan, 1);
      match plan[0]
      case Again => CleanTake(rest, plan[1..], n);
      case Transfer(limit) => CleanTake(rest[Min(limit, Min(n, |rest|))..], plan[1..], n - Min(limit, Min(n, |rest|)));
      case _ =>
    }
  }

  /** doRead: header, key, payload. */
  function NextFrame(rest: bytes, plan: seq<Attempt>): Outcome {
    match Take(rest, plan, HEADER_SIZE)
    case Broken => Broken
    case Got(header, rest1, plan1) =>
      if |header| < HEADER_SIZE || Read32(header, 0) != HEADER_KEY then Broken
      else Take(rest1, plan1, Read32(header, 4))
  }

  /** A frame is read as the payload that was sent, or not at all; without hard errors it is read. */
  lemma FrameIsRead(m: bytes, after: bytes, plan: seq<Attempt>)
    requires |m| < 0x1_0000_0000
    ensures var r := NextFrame(Frame(m) + after, plan);
      (r.Got? ==> r.data == m && r.rest == after) && (Clean(plan) ==> r.Got? && Clean(r.plan))
  {
    hide *;
    var rest := Frame(m) + after;
    HeaderFields(m, after);
    FrameSizes(m, after);
    TakeIsFront(rest, plan, HEADER_SIZE);
    NextFrameIs(rest, plan);
    var h := Take(rest, plan, HEADER_SIZE);
    if Clean(plan) {
      CleanTake(rest, plan, HEADER_SIZE);
    }
    if h.Got? {
      TakeIsFront(h.rest, h.plan, |m|);
      if Clean(plan) {
        CleanTake(h.rest, h.plan, |m|);
      }
    }
  }

  lemma FrameSizes(m: bytes, after: bytes)
    ensures |Frame(m) + after| == HEADER_SIZE + |m| + |after| && HEADER_SIZE == 8
    ensures |m + after| == |m| + |after| && (m + after)[..|m|] == m && (m + after)[|m|..] == after
  {
  }

  lemma NextFrameIs(rest: bytes, plan: seq<Attempt>)
    ensures var h := Take(rest, plan, HEADER_SIZE);
      && (h.Broken? ==> NextFrame(rest, plan).Broken?)
      && (h.Got? ==>
            |h.data| == HEADER_SIZE == 8 && NextFrame(rest, plan) == if Read32(h.data, 0) != HEADER_KEY then Broken else Take(h.rest, h.plan, Read32(h.data, 4)))
  {
    TakeIsFront(rest, plan, HEADER_SIZE);
    hide Take, Read32;
  }

  /** A frame that was cut off is never taken for a message. */
  lemma CutFrameIsBroken(m: bytes, n: nat, plan: seq<Attempt>)
    requires |m| < 0x1_0000_0000 && n < |Frame(m)|
    ensures NextFrame(Frame(m)[..n], plan).Broken?
  {
    hide Take, Read32, U32;
    var rest := Frame(m)[..n];
    TakeIsFront(rest, plan, HEADER_SIZE);
    var h := Take(rest, plan, HEADER_SIZE);
    if h.Got? {
      HeaderFields(m, []);
      assert Frame(m) + [] == Frame(m);
      assert h.data == Frame(m)[..HEADER_SIZE] == Header(m);
      TakeIsFront(h.rest, h.plan, |m|);
    }
  }

  /** The 32-bit size field decides: a message of 2^32 bytes or more is cut to its length modulo 2^32. */
  lemma LongMessageIsCut(m: bytes, plan: seq<Attempt>)
    requires |m| >= 0x1_0000_0000 && Clean(plan)
    ensures var r := NextFrame(Frame(m), plan); r.Got? && r.data == m[..|m| % 0x1_0000_0000] && r.data != m
  {
    HeaderFields(m, []);
    assert Frame(m) + [] == Frame(m) && m + [] == m;
    CleanTake(Frame(m), plan, HEADER_SIZE);
    var h := Take(Frame(m), plan, HEADER_SIZE);
    CleanTake(h.rest, h.plan, |m| % 0x1_0000_0000);
  }

  // ----- The connection -----

  /** One direction of a socket as the reader sees it. */
  class Input {
    var rest: bytes
    var plan: seq<Attempt>

    constructor (rest: bytes, plan: seq<Attempt>)
      ensures this.rest == rest && this.plan == plan
    {
      this.rest := rest;
      this.plan := plan;
    }

    /** read(fd, buf + off, n): the number of bytes, 0 at the end, -1 with again for EAGAIN, -1 without for an error. */
    method Read(buf: array<byte>, off: nat, n: nat) returns (result: int, again: bool)
      requires off + n <= buf.Length && n > 0
      modifies this, buf
      ensures result <= n && plan == Later(old(plan))
      ensures old(plan) == [] ==> result == if n <= |old(rest)| then n else 0
      ensures old(plan) != [] ==>
        match old(plan)[0]
        case Failure => result < 0 && !again
        case End => result == 0
        case Again => result < 0 && again
        case Transfer(limit) =>
          if limit == 0 then result == 0
          else if old(rest) == [] then result < 0 && again
          else result == Min(limit, Min(n, |old(rest)|))
      ensures result <= 0 ==> rest == old(rest) && buf[..] == old(buf[..])
      ensures result > 0 ==>
        result <= |old(rest)| && rest == old(rest)[result..] && buf[..off + result] == old(buf[..off]) + old(rest)[..result]
    {
      again := false;
      var k := 0;
      if plan == [] {
        k := if n <= |rest| then n else 0;
      } else {
        var attempt := plan[0];
        plan := Later(plan);
        match attempt
        case Failure => return -1, false;
        case End => return 0, false;
        case Again => return -1, true;
        case Transfer(limit) =>
          k := Min(limit, Min(n, |rest|));
          if limit > 0 && k == 0 {
            return -1, true;
          }
      }
      for i := 0 to k
        invariant k <= |rest| && buf[..off + i] == old(buf[..off]) + old(rest)[..i]
        invariant k == 0 ==> buf[..] == old(buf[..])
        invariant rest == old(rest) && plan == Later(old(plan))
      {
        buf[off + i] := rest[i];
      }
      if k > 0 {
        rest := rest[k..];
      }
      result := k;
    }

    /** The read loop, which doRead has once for the header and once for the payload. */
    method ReadFully(buf: array<byte>, n: nat) returns (ok: bool)
      requires n == buf.Length
      modifies this, buf
      ensures var r := Take(old(rest), old(plan), n);
        ok == r.Got? && (ok ==> buf[..] == r.data && rest == r.rest && plan == r.plan)
    {
      hide Take;
      ghost var goal := Take(rest, plan, n);
      var length := 0;
      Prefixed([], goal);
      while length < n
        invariant 0 <= length <= n
        invariant goal == Prefix(buf[..length], Take(rest, plan, n - length))
        decreases |plan|, n - length
      {
        TakeStep(rest, plan, n - length);
        LaterIs(plan);
        ghost var done := buf[..length];
        ghost var rest0 := rest;
        var result, again := Read(buf, length, n - length);
        if result < 0 {
          if again {
            continue;
          }
          return false;
        } else if result == 0 {
          return false;
        }
        PrefixPrefix(done, rest0[..result], Take(rest, plan, n - length - result));
        length := length + result;
      }
      TakeNothing(rest, plan, buf[..]);
      assert buf[..n] == buf[..];
      ok := true;
    }
  }

  function Prefix(front: bytes, r: Outcome): Outcome {
    match r
    case Broken => Broken
    case Got(data, rest, plan) => Got(front + data, rest, plan)
  }

  lemma Prefixed(front: bytes, r: Outcome)
    ensures Prefix([], r) == r
  {
    if r.Got? {
      assert [] + r.data == r.data;
    }
  }

  lemma PrefixPrefix(a: bytes, b: bytes, r: Outcome)
    ensures Prefix(a, Prefix(b, r)) == Prefix(a + b, r)
  {
    if r.Got? {
      assert a + (b + r.data) == a + b + r.data;
    }
  }

  lemma TakeNothing(rest: bytes, plan: seq<Attempt>, front: bytes)
    ensures Prefix(front, Take(rest, plan, 0)) == Got(front, rest, plan)
  {
    assert front + [] == front;
  }

  /** One round of the read loop. */
  lemma TakeStep(rest: bytes, plan: seq<Attempt>, n: nat)
    requires n > 0
    ensures plan == [] ==>
      Take(rest, plan, n) == if n <= |rest| then Prefix(rest[..n], Take(rest[n..], [], 0)) else Broken
    ensures plan != [] && (plan[0].Failure? || plan[0].End? || plan[0] == Transfer(0)) ==> Take(rest, plan, n).Broken?
    ensures plan != [] && (plan[0].Again? || (plan[0].Transfer? && plan[0].limit > 0 && rest == [])) ==>
      Take(rest, plan, n) == Take(rest, plan[1..], n)
    ensures plan != [] && plan[0].Transfer? && plan[0].limit > 0 && rest != [] ==>
      var k := Min(plan[0].limit, Min(n, |rest|)); k > 0 && Take(rest, plan, n) == Prefix(rest[..k], Take(rest[k..], plan[1..], n - k))
  {
    Prefixed([], if plan == [] then Broken else Take(rest, plan[1..], n));
    assert rest[0..] == rest && rest[..0] == [];
    assert plan == [] && n <= |rest| ==> rest[..n] + [] == rest[..n];
  }

  lemma LaterIs(plan: seq<Attempt>)
    ensures plan == [] ==> Later(plan) == []
    ensures plan != [] ==> Later(plan) == plan[1..] && |Later(plan)| < |plan|
  {
  }

  // ----- The client -----

  /** One direction of a socket as the writer sees it. */
  class Output {
    var sent: bytes
    var plan: seq<Attempt>

    constructor (plan: seq<Attempt>)
      ensures sent == [] && this.plan == plan
    {
      this.sent := [];
      this.plan := plan;
    }

    /** write(fd, s, |s|) */
    method Write(s: bytes) returns (result: int, again: bool)
      requires |s| > 0
      modifies this
      ensures result <= |s| && plan == Later(old(plan))
      ensures sent == old(sent) + s[..if result > 0 then result else 0]
      ensures old(plan) == [] ==> result == |s|
      ensures old(plan) != [] ==>
        match old(plan)[0]
        case Transfer(limit) => result == Min(limit, |s|)
        case Again => result < 0 && again
        case End => result == 0
        case Failure => result < 0 && !again
    {
      again := false;
      var k := 0;
      if plan == [] {
        k := |s|;
      } else {
        var attempt := plan[0];
        plan := Later(plan);
        match attempt
        case Transfer(limit) => k := Min(limit, |s|);
        case Again => return -1, true;
        case End => return 0, false;
        case Failure => return -1, false;
      }
      sent := sent + s[..k];
      result := k;
    }
  }

  /** The n-th message is the first that doParse refuses. */
  predicate FirstRefused(ms: seq<bytes>, n: nat, parses: bytes -> bool) {
    0 < n <= |ms| && !parses(ms[n - 1]) && forall k :: 0 <= k < n - 1 ==> parses(ms[k])
  }

  class Client {
    const input: Input
    const output: Output
    /** Whether server_fd is open. */
    var connected: bool
    /** The payloads handed to doParse, in order. */
    var handed: seq<bytes>
    /** What doParse answers. */
    const parses: bytes -> bool

    constructor (input: Input, output: Output, parses: bytes -> bool)
      ensures this.input == input && this.output == output && this.parses == parses && connected && handed == []
    {
      this.input := input;
      this.output := output;
      this.parses := parses;
      connected := true;
      handed := [];
    }

    method DoParse(buf: bytes) returns (ok: bool)
      modifies this`handed
      ensures handed == old(handed) + [buf] && ok == parses(buf)
    {
      handed := handed + [buf];
      ok := parses(buf);
    }

    /** doRead: nothing is handed on unless a whole frame with the right key has arrived. */
    method DoRead() returns (ok: bool)
      modifies this`handed, input
      ensures var r := NextFrame(old(input.rest), old(input.plan));
        && (r.Got? ==> handed == old(handed) + [r.data] && input.rest == r.rest && input.plan == r.plan && ok == parses(r.data))
        && (r.Broken? ==> handed == old(handed) && !ok)
    {
      NextFrameIs(input.rest, input.plan);
      hide Take, NextFrame;
      var hi := new byte[HEADER_SIZE];
      ok := input.ReadFully(hi, HEADER_SIZE);
      if !ok {
        return false;
      }
      if Read32(hi[..], 0) != HEADER_KEY {
        return false;
      }
      var dataSize := Read32(hi[..], 4);
      var buf := new byte[dataSize];
      ok := input.ReadFully(buf, dataSize);
      if !ok {
        return false;
      }
      ok := DoParse(buf[..]);
    }

    /** The session's reads: as long as doRead succeeds, it is called again. */
    method ReadSession(ghost ms: seq<bytes>) returns (ok: bool)
      requires Short(ms) && input.rest == Frames(ms) && Clean(input.plan)
      modifies this`handed, input
      ensures ok == forall k :: 0 <= k < |ms| ==> parses(ms[k])
      ensures ok ==> handed == old(handed) + ms && input.rest == []
      ensures !ok ==>
        exists n: nat :: FirstRefused(ms, n, parses) && handed == old(handed) + ms[..n] && input.rest == Frames(ms[n..])
    {
      ghost var i := 0;
      assert ms[0..] == ms && handed + ms[..0] == handed;
      while |input.rest| > 0
        invariant 0 <= i <= |ms| && input.rest == Frames(ms[i..]) && Clean(input.plan)
        invariant handed == old(handed) + ms[..i] && forall k :: 0 <= k < i ==> parses(ms[k])
        decreases |ms| - i
      {
        FramesStep(ms, i);
        FrameIsRead(ms[i], Frames(ms[i + 1..]), input.plan);
        hide NextFrame, Frame, Frames;
        ok := DoRead();
        assert ms[..i + 1] == ms[..i] + [ms[i]];
        i := i + 1;
        if !ok {
          assert FirstRefused(ms, i, parses);
          return;
        }
      }
      FramesEnd(ms, i);
      assert ms[..|ms|] == ms;
      ok := true;
    }

    /** processSend: header and payload leave in one buffer, in as many writes as it takes. */
    method ProcessSend(str: bytes)
      modifies output
      ensures !connected ==> output.sent == old(output.sent)
      ensures connected && Clean(old(output.plan)) ==> output.sent == old(output.sent) + Frame(str) && Clean(output.plan)
      ensures connected ==> exists n :: 0 <= n <= |Frame(str)| && output.sent == old(output.sent) + Frame(str)[..n]
    {
      if !connected {
        return;
      }
      var sendBuf := U32(HEADER_KEY) + U32(|str|) + str;
      assert sendBuf == Frame(str);
      hide Frame, U32;
      var bytesLeft: nat, ptr: nat := |sendBuf|, 0;
      assert sendBuf[..0] == [] && output.sent + [] == output.sent;
      while bytesLeft > 0
        invariant ptr + bytesLeft == |sendBuf|
        invariant output.sent == old(output.sent) + sendBuf[..ptr]
        invariant Clean(old(output.plan)) ==> Clean(output.plan)
        decreases |output.plan|, bytesLeft
      {
        LaterIs(output.plan);
        if Clean(output.plan) && output.plan != [] {
          CleanTail(output.plan, 1);
        }
        ghost var before := output.sent;
        var writtenBytes, again := output.Write(sendBuf[ptr..]);
        if writtenBytes <= 0 {
          assert sendBuf[ptr..][..0] == [] && before + [] == before;
        }
        if writtenBytes < 0 {
          if again {
            continue;
          } else {
            break;
          }
        } else if writtenBytes == 0 {
          break;
        }
        assert sendBuf[..ptr] + sendBuf[ptr..][..writtenBytes] == sendBuf[..ptr + writtenBytes];
        Associative(old(output.sent), sendBuf[..ptr], sendBuf[ptr..][..writtenBytes]);
        bytesLeft := bytesLeft - writtenBytes;
        ptr := ptr + writtenBytes;
      }
      assert sendBuf[..|sendBuf|] == sendBuf;
    }
  }

  predicate Short(ms: seq<bytes>) {
    forall k :: 0 <= k < |ms| ==> |ms[k]| < 0x1_0000_0000
  }

  lemma FramesStep(ms: seq<bytes>, i: nat)
    requires i <= |ms| && |Frames(ms[i..])| > 0
    ensures i < |ms| && Frames(ms[i..]) == Frame(ms[i]) + Frames(ms[i + 1..])
  {
    assert ms[i..] != [] by {
      assert |Frames([])| == 0;
    }
    assert ms[i..][0] == ms[i] && ms[i..][1..] == ms[i + 1..];
  }

  lemma FramesEnd(ms: seq<bytes>, i: nat)
    requires i <= |ms| && |Frames(ms[i..])| == 0
    ensures i == |ms|
  {
    if i < |ms| {
      FramesNotEmpty(ms[i..]);
    }
  }

  lemma FramesNotEmpty(ms: seq<bytes>)
    requires ms != []
    ensures |Frames(ms)| >= HEADER_SIZE
  {
  }

  // ----- From one end to the other -----

  /** What is on the wire after one more message has been sent. */
  lemma {:induction false} OneMoreFrame(ms: seq<bytes>, m: bytes)
    ensures Frames(ms + [m]) == Frames(ms) + Frame(m)
    decreases |ms|
  {
    hide Frame;
    if ms == [] {
      assert [m][1..] == [] && ms + [m] == [m];
      assert Frame(m) + [] == Frame(m) && [] + Frame(m) == Frame(m);
    } else {
      assert (ms + [m])[0] == ms[0] && (ms + [m])[1..] == ms[1..] + [m];
      OneMoreFrame(ms[1..], m);
      Associative(Frame(ms[0]), Frames(ms[1..]), Frame(m));
    }
  }

  /** The payloads of up to n calls of doRead, up to the first that fails. */
  function Received(rest: bytes, plan: seq<Attempt>, n: nat): seq<bytes>
    decreases n
  {
    if n == 0 then []
    else
      match NextFrame(rest, plan)
      case Broken => []
      case Got(data, rest', plan') => [data] + Received(rest', plan', n - 1)
  }

  /** How many messages lie completely within the first n bytes of the stream. */
  function Complete(ms: seq<bytes>, n: nat): (r: nat)
    ensures r <= |ms|
  {
    if ms == [] || n < |Frame(ms[0])| then 0 else 1 + Complete(ms[1..], n - |Frame(ms[0])|)
  }

  lemma {:induction false} AllComplete(ms: seq<bytes>)
    ensures Complete(ms, |Frames(ms)|) == |ms|
  {
    hide Frame;
    if ms != [] {
      AllComplete(ms[1..]);
    }
  }

  /** The first n bytes of the stream begin with a whole frame, or with one that is cut off. */
  lemma CutStream(ms: seq<bytes>, n: nat)
    requires ms != [] && n <= |Frames(ms)|
    ensures var l := |Frame(ms[0])|;
      if n < l then Frames(ms)[..n] == Frame(ms[0])[..n]
      else n - l <= |Frames(ms[1..])| && Frames(ms)[..n] == Frame(ms[0]) + Frames(ms[1..])[..n - l]
  {
    hide Frame;
  }

  lemma NothingOnTheWire(plan: seq<Attempt>)
    ensures NextFrame([], plan).Broken?
  {
    TakeIsFront([], plan, HEADER_SIZE);
  }

  /**
    * However writes and reads are cut, and wherever either end breaks off, the receiver gets a prefix of the messages
    * that were sent; without hard errors on its side it gets exactly those whose frames are complete.
    */
  lemma {:induction false} MessagesArrive(ms: seq<bytes>, n: nat, plan: seq<Attempt>, k: nat)
    requires Short(ms) && n <= |Frames(ms)|
    ensures Received(Frames(ms)[..n], plan, k) <= ms[..Complete(ms, n)]
    ensures Clean(plan) ==> Received(Frames(ms)[..n], plan, k) == ms[..Min(k, Complete(ms, n))]
    decreases k
  {
    hide Frame, NextFrame, Clean;
    if k > 0 {
      if ms == [] {
        NothingOnTheWire(plan);
      } else {
        CutStream(ms, n);
        var l := |Frame(ms[0])|;
        if n < l {
          CutFrameIsBroken(ms[0], n, plan);
        } else {
          FrameIsRead(ms[0], Frames(ms[1..])[..n - l], plan);
          var r := NextFrame(Frames(ms)[..n], plan);
          if r.Got? {
            MessagesArrive(ms[1..], n - l, r.plan, k - 1);
            OneMorePrefix(ms, Complete(ms[1..], n - l));
            OneMorePrefix(ms, Min(k - 1, Complete(ms[1..], n - l)));
          }
        }
      }
    }
  }

  lemma OneMorePrefix(ms: seq<bytes>, i: nat)
    requires ms != [] && i < |ms|
    ensures ms[..i + 1] == [ms[0]] + ms[1..][..i]
  {
  }

  /** The stream that was written completely arrives completely. */
  lemma AllMessagesArrive(ms: seq<bytes>, plan: seq<Attempt>)
    requires Short(ms) && Clean(plan)
    ensures Received(Frames(ms), plan, |ms|) == ms
  {
    AllComplete(ms);
    MessagesArrive(ms, |Frames(ms)|, plan, |ms|);
    assert Frames(ms)[..|Frames(ms)|] == Frames(ms);
  }
}
