/** Dotted names and label sequences: create_nlabel writes one from the other in place, nlabel_to_str goes back. */
module MdnsLabels {
  import opened Bytes
  import opened MdnsNames

  const DOT: byte := 0x2E

  /** The first dot that create_nlabel sees: the last byte of the name is never searched. */
  function FirstDot(s: bytes, from: nat): (k: nat)
    requires from <= |s|
    ensures from <= k <= |s|
    ensures k < |s| ==> k + 1 < |s| && s[k] == DOT
    decreases |s| - from
  {
    if from + 1 >= |s| then |s| else if s[from] == DOT then from else FirstDot(s, from + 1)
  }

  /** What create_nlabel makes of a non-empty name. A length is stored in one byte. */
  function Labels(s: bytes): (r: bytes)
    requires s != []
    ensures |r| == |s| + 1
    decreases |s|
  {
    var k := FirstDot(s, 0);
    var length: byte := k % 0x100;
    if k == |s| then [length] + s else [length] + s[..k] + Labels(s[k + 1..])
  }

  /** Every component is between 1 and 63 bytes long. */
  predicate GoodComponents(s: bytes)
    requires s != []
    decreases |s|
  {
    var k := FirstDot(s, 0);
    1 <= k <= 63 && (k < |s| ==> GoodComponents(s[k + 1..]))
  }

  /** The length of every component fits in its byte. */
  predicate LengthsFit(s: bytes)
    requires s != []
    decreases |s|
  {
    var k := FirstDot(s, 0);
    k <= 255 && (k < |s| ==> LengthsFit(s[k + 1..]))
  }

  /** A C string ends at its first zero. */
  function CString(s: bytes): (r: bytes)
    ensures r <= s && NulFree(r)
    ensures |r| < |s| ==> s[|r|] == 0
  {
    if s == [] || s[0] == 0 then []
    else
      var rest := CString(s[1..]);
      assert [s[0]] + rest <= s by { assert s == [s[0]] + s[1..]; }
      [s[0]] + rest
  }

  lemma CStringIsAll(s: bytes)
    ensures CString(s + [0]) == s <==> NulFree(s)
  {
    var r := CString(s + [0]);
    if |r| < |s| {
      assert (s + [0])[|r|] == s[|r|];
    } else {
      assert (s + [0])[|s|] == 0;
      assert r == (s + [0])[..|s|] == s;
    }
  }

  lemma FirstLabel(s: bytes)
    requires s != []
    ensures var k := FirstDot(s, 0);
      && Labels(s)[0] == k % 0x100 && Labels(s)[1..1 + k] == s[..k]
      && (k < |s| ==> Labels(s)[1 + k..] == Labels(s[k + 1..]))
      && (k == |s| ==> Labels(s)[1 + k..] == [])
  {
    LabelsOf(s);
    hide FirstDot, Labels;
    var k, r := FirstDot(s, 0), Labels(s);
    var length: byte := k % 0x100;
    if k < |s| {
      ThreeParts(r, [length], s[..k], Labels(s[k + 1..]));
    } else {
      assert s[..k] == s;
      assert [length] + s + [] == [length] + s;
      ThreeParts(r, [length], s, []);
    }
  }

  lemma ThreeParts(r: bytes, a: bytes, b: bytes, c: bytes)
    requires |a| == 1 && r == a + b + c
    ensures r[0] == a[0] && r[1..1 + |b|] == b && r[1 + |b|..] == c
  {
  }

  /** A label in front of the rest, well-formed or not. */
  lemma LabelInFront(r: bytes, chars: bytes)
    requires |r| >= 1 + |chars| && |chars| <= 255 && r[0] == |chars| && r[1..1 + |chars|] == chars && NulFree(chars)
    ensures |chars| == 0 ==> !NulFree(r)
    ensures |chars| > 63 ==> !ValidName(r)
    ensures 1 <= |chars| <= 63 ==> (NulFree(r) <==> NulFree(r[1 + |chars|..])) && (ValidName(r) <==> ValidName(r[1 + |chars|..]))
  {
    hide *;
    if |chars| == 0 {
      ZeroInFront(r);
    } else if |chars| > 63 {
      TooLong(r);
    } else {
      NulFreeBehind(r, chars);
      ValidBehind(r, chars);
    }
  }

  lemma ZeroInFront(r: bytes)
    requires r != [] && r[0] == 0
    ensures !NulFree(r)
  {
  }

  lemma TooLong(r: bytes)
    requires r != [] && r[0] > 63
    ensures !ValidName(r)
  {
  }

  lemma NulFreeBehind(r: bytes, chars: bytes)
    requires 1 <= |chars| && 1 + |chars| <= |r| && r[0] == |chars| && r[1..1 + |chars|] == chars && NulFree(chars)
    ensures NulFree(r) <==> NulFree(r[1 + |chars|..])
  {
    var n := |chars|;
    forall j | 0 <= j < |r| && NulFree(r[1 + n..]) ensures r[j] != 0 {
      if j > n {
        assert r[j] == r[1 + n..][j - 1 - n];
      } else if j > 0 {
        assert r[j] == r[1..1 + n][j - 1];
      }
    }
  }

  lemma ValidBehind(r: bytes, chars: bytes)
    requires 1 <= |chars| <= 63 && 1 + |chars| <= |r| && r[0] == |chars| && r[1..1 + |chars|] == chars && NulFree(chars)
    ensures ValidName(r) <==> ValidName(r[1 + |chars|..])
  {
    var rest := r[1 + |chars|..];
    forall k | 1 <= k <= r[0] as int ensures r[k] != 0 {
      assert r[k] == r[1..1 + |chars|][k - 1];
    }
    assert ValidName(r) == ValidName(rest);
  }

  lemma NulFreePrefix(s: bytes, k: nat)
    requires NulFree(s) && k <= |s|
    ensures NulFree(s[..k]) && NulFree(s[k..])
  {
  }

  lemma NoLabels()
    ensures NulFree([]) && ValidName([]) && Dots([]) == []
  {
  }

  /**
    * create_nlabel gives a well-formed name, all of it, exactly when the components are between 1 and 63 bytes long,
    * however long the whole name is.
    */
  lemma {:induction false} LabelsWellFormed(s: bytes)
    requires s != [] && LengthsFit(s) && NulFree(s)
    ensures NulFree(Labels(s)) && ValidName(Labels(s)) <==> GoodComponents(s)
    decreases |s|
  {
    hide NulFree, ValidName, Labels, FirstDot;
    var k, r := FirstDot(s, 0), Labels(s);
    FirstLabel(s);
    NulFreePrefix(s, k);
    LabelInFront(r, s[..k]);
    NoLabels();
    if k < |s| {
      NulFreePrefix(s, k + 1);
      LabelsWellFormed(s[k + 1..]);
    }
  }

  function Ones(n: nat): (s: bytes)
    ensures |s| == n && NulFree(s) && DOT !in s
  {
    seq(n, _ => 1)
  }

  lemma {:induction false} OnesAreLabels(n: nat)
    ensures ValidName(Ones(2 * n))
  {
    if n > 0 {
      OnesAreLabels(n - 1);
      assert Ones(2 * n)[2..] == Ones(2 * (n - 1));
    }
  }

  /** A component of 257 bytes shows why the lengths have to fit: its length byte is 1, and the bytes themselves pass for labels. */
  lemma LongComponentPasses()
    ensures var s := Ones(257);
      !LengthsFit(s) && !GoodComponents(s) && NulFree(Labels(s)) && ValidName(Labels(s))
  {
    var s := Ones(257);
    assert FirstDot(s, 0) == 257;
    assert Labels(s) == [1] + s;
    assert [1] + s == Ones(2 * 129);
    OnesAreLabels(129);
  }

  // ----- A name given by its components -----

  /** Components between dots. */
  function Join(cs: seq<bytes>): bytes
    requires cs != []
  {
    if |cs| == 1 then cs[0] else cs[0] + [DOT] + Join(cs[1..])
  }

  /** Components behind their lengths: the format of section 3.1 of RFC 1035, without the root. */
  function Flat(cs: seq<bytes>): bytes
    requires forall k :: 0 <= k < |cs| ==> |cs[k]| <= 63
  {
    if cs == [] then []
    else
      var length: byte := |cs[0]|;
      [length] + cs[0] + Flat(cs[1..])
  }

  /** One to 63 bytes each, without zeros or dots. */
  predicate Components(cs: seq<bytes>) {
    forall k :: 0 <= k < |cs| ==> 1 <= |cs[k]| <= 63 && NulFree(cs[k]) && DOT !in cs[k]
  }

  lemma FirstDotIsEnd(c: bytes, rest: bytes, from: nat)
    requires DOT !in c && from <= |c|
    ensures FirstDot(c, from) == |c|
    ensures rest != [] ==> FirstDot(c + [DOT] + rest, from) == |c|
    decreases |c| - from
  {
  }

  /** create_nlabel on a dotted name is the standard label format of its components. */
  lemma {:induction false} LabelsOfJoin(cs: seq<bytes>)
    requires cs != [] && Components(cs)
    ensures Join(cs) != [] && Labels(Join(cs)) == Flat(cs)
    decreases |cs|
  {
    hide Labels, FirstDot;
    LabelsOf(Join(cs));
    if |cs| == 1 {
      FirstDotIsEnd(cs[0], [], 0);
      assert cs[1..] == [];
    } else {
      LabelsOfJoin(cs[1..]);
      FirstDotIsEnd(cs[0], Join(cs[1..]), 0);
      Joined(Join(cs), cs[0], Join(cs[1..]));
    }
  }

  lemma Joined(s: bytes, c: bytes, more: bytes)
    requires s == c + [DOT] + more
    ensures s[..|c|] == c && s[|c| + 1..] == more && |c| < |s|
  {
  }

  // ----- create_nlabel -----

  /** memchr for a dot in label[from..to]; to + 2 when there is none, as create_nlabel sets it. */
  method FindDot(label_: array<byte>, from: nat, to: nat) returns (dot: nat)
    requires from <= to < label_.Length
    ensures from <= dot < to || dot == to + 1
    ensures dot < to ==> label_[dot] == DOT
    ensures forall k :: from <= k < dot && k < to ==> label_[k] != DOT
  {
    for k := from to to
      invariant forall j :: from <= j < k ==> label_[j] != DOT
    {
      if label_[k] == DOT {
        return k;
      }
    }
    dot := to + 1;
  }

  lemma {:induction false} FirstDotIs(s: bytes, from: nat, k: nat)
    requires from <= k <= |s| && (forall j :: from <= j < k && j + 1 < |s| ==> s[j] != DOT) && (k < |s| ==> k + 1 < |s| && s[k] == DOT)
    ensures FirstDot(s, from) == k
    decreases k - from
  {
    if from < k && from + 1 < |s| {
      FirstDotIs(s, from + 1, k);
    }
  }

  /** create_nlabel. The first byte of the buffer stays as malloc left it when the name is empty. */
  method CreateNlabel(name: bytes) returns (label_: array<byte>)
    ensures fresh(label_) && label_.Length == |name| + 2 && label_[|name| + 1] == 0
    ensures name != [] ==> label_[..] == Labels(name) + [0]
  {
    hide FirstDot, Labels, Labelled;
    var len := |name|;
    label_ := new byte[len + 2];
    Memcpy(label_, 1, name);
    label_[len + 1] := 0;
    var p, e := 0, len;
    var lenpos := p;
    if name != [] {
      LabelledStart(name, label_[..]);
    }
    while p < e
      invariant lenpos == p && (p < len || p == len + 1 || len == 0)
      invariant name != [] ==> Labelled(name, p, label_[..])
      invariant label_[len + 1] == 0
      decreases len + 1 - p
    {
      ghost var before := label_[..];
      label_[lenpos] := 0;
      var dot := FindDot(label_, p + 1, e);
      assert forall k :: p + 1 <= k < |before| ==> label_[k] == before[k];
      label_[lenpos] := (dot - p - 1) % 0x100;
      assert label_[..] == before[p := ((dot - p - 1) % 0x100) as byte];
      NextLabel(name, p, before, dot, label_[..]);
      p := dot;
      lenpos := dot;
    }
    if len > 0 {
      LabelledEnd(name, label_[..]);
      assert label_[..] == label_[..][..len + 1] + [label_[len + 1]];
    }
  }

  lemma LabelledStart(name: bytes, now: bytes)
    requires name != [] && |now| == |name| + 2 && now[1..1 + |name|] == name
    ensures Labelled(name, 0, now)
  {
    assert name[0..] == name && now[..0] == [] && [] + Labels(name) == Labels(name);
  }

  lemma LabelledEnd(name: bytes, now: bytes)
    requires Labelled(name, |name| + 1, now)
    ensures |now| == |name| + 2 && now[..|name| + 1] == Labels(name)
  {
  }

  /** Labels are in place up to p, and behind p the rest of the name still waits for its length byte. */
  predicate Labelled(name: bytes, p: nat, now: bytes) {
    && |now| == |name| + 2 && (p < |name| || p == |name| + 1) && name != []
    && (p < |name| ==> now[p + 1..|name| + 1] == name[p..] && now[..p] + Labels(name[p..]) == Labels(name))
    && (p == |name| + 1 ==> now[..p] == Labels(name))
  }

  method Memcpy(a: array<byte>, p: nat, s: bytes)
    requires p + |s| <= a.Length
    modifies a
    ensures a[p..p + |s|] == s
  {
    for i := 0 to |s|
      invariant forall k :: 0 <= k < i ==> a[p + k] == s[k]
    {
      a[p + i] := s[i];
    }
  }

  /** One round: the byte at p becomes the length of the component behind it. */
  lemma NextLabel(name: bytes, p: nat, before: bytes, dot: nat, after: bytes)
    requires p < |name| && p + 1 <= dot && (dot < |name| || dot == |name| + 1)
    requires Labelled(name, p, before)
    requires |before| == |name| + 2 && after == before[p := ((dot - p - 1) % 0x100) as byte]
    requires dot < |name| ==> before[dot] == DOT
    requires forall k :: p + 1 <= k < dot && k < |name| ==> before[k] != DOT
    ensures Labelled(name, dot, after)
  {
    hide Labels, FirstDot;
    var rest, k := name[p..], dot - p - 1;
    NextComponent(name, p, before, dot);
    Placed(name, p, before, dot, after);
    LabelsOf(rest);
    var head: bytes := [(k % 0x100) as byte] + rest[..k];
    if dot < |name| {
      assert rest[k + 1..] == name[dot..];
      Associative(before[..p], head, Labels(name[dot..]));
    } else {
      assert rest[..k] == rest;
    }
  }

  lemma LabelsOf(s: bytes)
    requires s != []
    ensures var k := FirstDot(s, 0);
      Labels(s) == if k < |s| then [(k % 0x100) as byte] + s[..k] + Labels(s[k + 1..]) else [(k % 0x100) as byte] + s
  {
    hide FirstDot;
    var k := FirstDot(s, 0);
    if k < |s| {
      var rest := s[k + 1..];
      assert |rest| > 0;
      assert Labels(s) == [(k % 0x100) as byte] + s[..k] + Labels(rest);
      hide Labels;
    }
  }

  lemma NextComponent(name: bytes, p: nat, before: bytes, dot: nat)
    requires p < |name| && p + 1 <= dot && (dot < |name| || dot == |name| + 1) && Labelled(name, p, before)
    requires dot < |name| ==> before[dot] == DOT
    requires forall k :: p + 1 <= k < dot && k < |name| ==> before[k] != DOT
    ensures FirstDot(name[p..], 0) == dot - p - 1
  {
    hide Labels, FirstDot;
    var s := name[p..];
    forall j | 0 <= j < |s| ensures s[j] == before[p + 1 + j] {
      assert before[p + 1..|name| + 1][j] == s[j];
    }
    FirstDotIs(s, 0, dot - p - 1);
  }

  lemma Placed(name: bytes, p: nat, before: bytes, dot: nat, after: bytes)
    requires p < |name| && p + 1 <= dot <= |name| + 1 && |before| == |name| + 2 && before[p + 1..|name| + 1] == name[p..]
    requires after == before[p := ((dot - p - 1) % 0x100) as byte]
    ensures after[..dot] == before[..p] + ([((dot - p - 1) % 0x100) as byte] + name[p..][..dot - p - 1])
    ensures dot <= |name| ==> after[dot + 1..|name| + 1] == name[dot..]
  {
    assert after[p + 1..|name| + 1] == name[p..];
    assert after[p + 1..dot] == after[p + 1..|name| + 1][..dot - p - 1];
  }

  // ----- nlabel_to_str -----

  /** The labels of a name, each followed by a dot. */
  function Dots(name: bytes): (r: bytes)
    requires ValidName(name)
    ensures |r| == |name|
    decreases |name|
  {
    if name == [] then [] else Segment(name)[1..] + [DOT] + Dots(Rest(name))
  }

  /** As many whole labels as fit into the room. */
  function Fitting(name: bytes, room: nat): (r: bytes)
    requires ValidName(name)
    ensures |r| <= room
    decreases |name|
  {
    if name == [] || room <= name[0] as int then [] else Segment(name)[1..] + [DOT] + Fitting(Rest(name), room - 1 - name[0])
  }

  /** nlabel_to_str: when the buffer of 256 bytes is full the last dot gives way to the zero. */
  function NlabelToStr(name: bytes): (r: bytes)
    requires ValidName(name)
    ensures |r| <= 255
  {
    var text := Fitting(name, 256);
    if |text| == 256 then text[..255] else text
  }

  lemma {:induction false} FittingIsAll(name: bytes, room: nat)
    requires ValidName(name)
    ensures Fitting(name, room) <= Dots(name)
    ensures |name| <= room <==> Fitting(name, room) == Dots(name)
    decreases |name|
  {
    hide *;
    FirstDots(name);
    if name == [] || room <= name[0] as nat {
      FittingEnd(name, room);
    } else {
      FittingStep(name, room);
      FittingIsAll(Rest(name), room - 1 - name[0]);
      var head := Segment(name)[1..] + [DOT];
      SameFront(head, Fitting(Rest(name), room - 1 - name[0]), Dots(Rest(name)));
    }
  }

  lemma FirstDots(name: bytes)
    requires ValidName(name)
    ensures name == [] ==> Dots(name) == []
    ensures name != [] ==>
      |name| == 1 + name[0] + |Rest(name)| && ValidName(Rest(name)) && Dots(name) == Segment(name)[1..] + [DOT] + Dots(Rest(name))
  {
  }

  lemma SameFront(head: bytes, a: bytes, b: bytes)
    ensures head + a <= head + b <==> a <= b
    ensures head + a == head + b <==> a == b
  {
    if head + a <= head + b {
      assert forall k :: 0 <= k < |a| ==> a[k] == (head + a)[|head| + k] && b[k] == (head + b)[|head| + k];
    }
    if head + a == head + b {
      assert a == (head + a)[|head|..] && b == (head + b)[|head|..];
    }
  }

  /** The text is the whole name up to 255 bytes; one byte more costs the last dot, and beyond that whole labels are lost. */
  lemma TextOfName(name: bytes)
    requires ValidName(name)
    ensures NlabelToStr(name) <= Dots(name)
    ensures NlabelToStr(name) == Dots(name) <==> |name| <= 255
    ensures |name| == 256 ==> NlabelToStr(name) == Dots(name)[..255]
  {
    hide *;
    FittingIsAll(name, 256);
    TextIs(name);
    CutAt255(Fitting(name, 256), Dots(name), NlabelToStr(name));
  }

  lemma CutAt255(fitting: bytes, dots: bytes, text: bytes)
    requires fitting <= dots && |fitting| <= 256 && (|dots| <= 256 <==> fitting == dots)
    requires text == if |fitting| == 256 then fitting[..255] else fitting
    ensures text <= dots && (text == dots <==> |dots| <= 255) && (|dots| == 256 ==> text == dots[..255])
  {
  }

  lemma {:induction false} DotsOfLabels(s: bytes)
    requires s != [] && GoodComponents(s) && ValidName(Labels(s))
    ensures Dots(Labels(s)) == s + [DOT]
    decreases |s|
  {
    hide *;
    var k, r := FirstDot(s, 0), Labels(s);
    FirstLabel(s);
    FirstIsGood(s);
    if k < |s| {
      DotsStep(r, s[..k], Labels(s[k + 1..]));
      DotsOfLabels(s[k + 1..]);
      SplitAtDot(s, k);
    } else {
      DotsStep(r, s[..k], []);
      NoLabels();
      assert s[..k] == s && s + [DOT] + [] == s + [DOT];
    }
  }

  lemma DotsStep(r: bytes, chars: bytes, rest: bytes)
    requires r != [] && ValidName(r) && r[0] == |chars| && 1 + |chars| <= |r| && r[1..1 + |chars|] == chars && r[1 + |chars|..] == rest
    ensures ValidName(rest) && Dots(r) == chars + [DOT] + Dots(rest)
  {
  }

  lemma FirstIsGood(s: bytes)
    requires s != [] && GoodComponents(s)
    ensures var k := FirstDot(s, 0); 1 <= k <= 63 && (k < |s| ==> s[k] == DOT && s[k + 1..] != [] && GoodComponents(s[k + 1..]))
  {
    hide FirstDot;
    var k := FirstDot(s, 0);
    if k < |s| {
      assert k + 1 < |s|;
      var rest := s[k + 1..];
      assert |rest| > 0;
      assert GoodComponents(rest);
      hide GoodComponents;
    }
  }

  lemma SplitAtDot(s: bytes, k: nat)
    requires k < |s| && s[k] == DOT
    ensures s[..k] + [DOT] + (s[k + 1..] + [DOT]) == s + [DOT]
  {
  }

  lemma {:induction false} GoodLabelsAreValid(s: bytes)
    requires s != [] && NulFree(s) && GoodComponents(s)
    ensures NulFree(Labels(s)) && ValidName(Labels(s))
    decreases |s|
  {
    hide NulFree, ValidName, Labels, FirstDot;
    var k, r := FirstDot(s, 0), Labels(s);
    FirstLabel(s);
    NulFreePrefix(s, k);
    LabelInFront(r, s[..k]);
    NoLabels();
    if k < |s| {
      NulFreePrefix(s, k + 1);
      GoodLabelsAreValid(s[k + 1..]);
    }
  }

  /**
    * A dotted name with components of 1 to 63 bytes comes back with a final dot exactly when it is at most 254
    * bytes long; at 255 bytes the dot is missing.
    */
  lemma DottedRoundTrip(s: bytes)
    requires s != [] && NulFree(s) && GoodComponents(s)
    ensures CString(Labels(s) + [0]) == Labels(s) && ValidName(Labels(s))
    ensures NlabelToStr(Labels(s)) == s + [DOT] <==> |s| <= 254
    ensures |s| == 255 ==> NlabelToStr(Labels(s)) == s
  {
    GoodLabelsAreValid(s);
    CStringIsAll(Labels(s));
    DotsOfLabels(s);
    TextOfName(Labels(s));
    assert |s| == 255 ==> (s + [DOT])[..255] == s;
  }

  /** nlabel_to_str as it runs: a buffer of 256 bytes, the room left in it, and a zero at the end. */
  method NlabelToText(name: bytes) returns (label_: array<byte>, length: nat)
    requires ValidName(name)
    ensures fresh(label_) && label_.Length == 256 && length == |NlabelToStr(name)|
    ensures label_[..length] == NlabelToStr(name) && label_[length] == 0
  {
    hide *;
    var bufLen: nat := 256;
    label_ := new byte[256];
    var labelp: nat, p := 0, name;
    ghost var text := Fitting(name, 256);
    assert label_[..0] + text == text;
    while p != []
      invariant ValidName(p) && labelp + bufLen == 256
      invariant label_[..labelp] + Fitting(p, bufLen) == text
      decreases |p|
    {
      FittingStep(p, bufLen);
      var labelLen := p[0];
      if bufLen <= labelLen as nat {
        break;
      }
      ghost var done := label_[..labelp];
      var chars := Segment(p)[1..];
      WriteLabel(label_, labelp, chars);
      labelp := labelp + |chars| + 1;
      bufLen := bufLen - (|chars| + 1);
      Associative(done, chars + [DOT], Fitting(Rest(p), bufLen));
      p := Rest(p);
    }
    FittingEnd(p, bufLen);
    assert label_[..labelp] + [] == label_[..labelp];
    if bufLen == 0 {
      labelp := labelp - 1;
    }
    TextIs(name);
    ghost var done := label_[..labelp];
    label_[labelp] := 0;
    assert label_[..labelp] == done;
    length := labelp;
  }

  lemma FittingStep(p: bytes, room: nat)
    requires p != [] && ValidName(p)
    ensures |Rest(p)| < |p| && |Segment(p)| == 1 + p[0] && ValidName(Rest(p))
    ensures room > p[0] as nat ==> Fitting(p, room) == Segment(p)[1..] + [DOT] + Fitting(Rest(p), room - 1 - p[0])
  {
  }

  lemma FittingEnd(p: bytes, room: nat)
    requires ValidName(p) && (p == [] || room <= p[0] as nat)
    ensures Fitting(p, room) == []
  {
  }

  lemma TextIs(name: bytes)
    requires ValidName(name)
    ensures NlabelToStr(name) == if |Fitting(name, 256)| == 256 then Fitting(name, 256)[..255] else Fitting(name, 256)
  {
  }

  method WriteLabel(label_: array<byte>, p: nat, chars: bytes)
    requires p + |chars| < label_.Length
    modifies label_
    ensures label_[..p + |chars| + 1] == old(label_[..p]) + (chars + [DOT])
  {
    for i := 0 to |chars|
      invariant label_[..p] == old(label_[..p])
      invariant label_[p..p + i] == chars[..i]
    {
      label_[p + i] := chars[i];
    }
    label_[p + |chars|] := DOT;
    assert chars[..|chars|] == chars;
    assert label_[..p + |chars| + 1] == label_[..p] + (label_[p..p + |chars|] + [label_[p + |chars|]]);
  }
}
