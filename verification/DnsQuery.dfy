/** Domain names as labels and on the wire, section 4.1.2 of RFC 1035. */
module DnsNames {
  import opened Core

  const DOT: bv8 := 0x2e
  const MAX_LABEL_LENGTH: nat := 63

  function FirstDot(d: seq<bv8>): (k: nat)
    ensures k <= |d| && (forall i :: 0 <= i < k ==> d[i] != DOT) && (k < |d| ==> d[k] == DOT)
  {
    if d == [] || d[0] == DOT then 0 else 1 + FirstDot(d[1..])
  }

  /** The labels of a name; nothing follows a trailing dot. */
  function Labels(d: seq<bv8>): seq<seq<bv8>>
    decreases |d|
  {
    if d == [] then []
    else
      var k := FirstDot(d);
      if k == |d| then [d] else [d[..k]] + Labels(d[k + 1..])
  }

  predicate ShortLabels(labels: seq<seq<bv8>>) {
    forall i :: 0 <= i < |labels| ==> |labels[i]| <= MAX_LABEL_LENGTH
  }

  predicate NonemptyLabels(labels: seq<seq<bv8>>) {
    forall i :: 0 <= i < |labels| ==> labels[i] != []
  }

  /** Each label after its length. */
  function Wire(labels: seq<seq<bv8>>): seq<bv8>
    requires ShortLabels(labels)
  {
    if labels == [] then []
    else Wire(labels[..|labels| - 1]) + [ByteOf(|labels[|labels| - 1]|)] + labels[|labels| - 1]
  }

  /** Reads a name as a resolver does: labels up to an empty one. None when a length is above 63 or the end is
      missing. */
  function ReadName(w: seq<bv8>): Option<(seq<seq<bv8>>, seq<bv8>)>
    decreases |w|
  {
    if w == [] then None
    else
      var n := Value(w[0]);
      if n == 0 then Some(([], w[1..]))
      else if n > MAX_LABEL_LENGTH || 1 + n > |w| then None
      else
        match ReadName(w[1 + n..])
        case None => None
        case Some((labels, rest)) => Some(([w[1..1 + n]] + labels, rest))
  }

  lemma {:induction false} WireFront(labels: seq<seq<bv8>>)
    requires ShortLabels(labels) && labels != []
    ensures ShortLabels(labels[1..])
    ensures Wire(labels) == [ByteOf(|labels[0]|)] + labels[0] + Wire(labels[1..])
    decreases |labels|
  {
    hide ByteOf;
    var n := |labels| - 1;
    if n > 0 {
      WireFront(labels[..n]);
      assert labels[..n][1..] == labels[1..][..n - 1];
      assert labels[1..][n - 1] == labels[n];
    } else {
      assert labels[..0] == [] && labels[1..] == [];
    }
  }

  /** One label in front of a name. */
  lemma ReadLabel(l: seq<bv8>, tail: seq<bv8>)
    requires 1 <= |l| <= MAX_LABEL_LENGTH
    ensures ReadName([ByteOf(|l|)] + l + tail)
         == match ReadName(tail)
            case None => None
            case Some((labels, rest)) => Some(([l] + labels, rest))
  {
    hide ByteOf, Value;
    var w := [ByteOf(|l|)] + l + tail;
    ValueOfByte(|l|);
    assert w[0] == ByteOf(|l|);
    assert w[1..1 + |l|] == l && w[1 + |l|..] == tail;
  }

  /** Reading back what was written gives the labels, when none of them is empty. */
  lemma {:induction false} ReadWire(labels: seq<seq<bv8>>, rest: seq<bv8>)
    requires ShortLabels(labels) && NonemptyLabels(labels)
    ensures ReadName(Wire(labels) + [0] + rest) == Some((labels, rest))
    decreases |labels|
  {
    if labels == [] {
      EmptyName(rest);
    } else {
      ReadFirst(labels, rest);
      ReadWire(labels[1..], rest);
      assert [labels[0]] + labels[1..] == labels;
    }
  }

  lemma ReadFirst(labels: seq<seq<bv8>>, rest: seq<bv8>)
    requires ShortLabels(labels) && NonemptyLabels(labels) && labels != []
    ensures ShortLabels(labels[1..]) && NonemptyLabels(labels[1..])
    ensures ReadName(Wire(labels) + [0] + rest)
         == match ReadName(Wire(labels[1..]) + [0] + rest)
            case None => None
            case Some((back, r)) => Some(([labels[0]] + back, r))
  {
    hide ByteOf, ReadName;
    WireFront(labels);
    var tail := Wire(labels[1..]) + [0] + rest;
    ReadLabel(labels[0], tail);
    assert Wire(labels) + [0] + rest == [ByteOf(|labels[0]|)] + labels[0] + tail;
  }

  lemma EmptyName(rest: seq<bv8>)
    ensures ReadName(Wire([]) + [0] + rest) == Some(([], rest))
  {
    ZeroByte();
    var w: seq<bv8> := Wire([]) + [0] + rest;
    assert w[0] == 0 && w[1..] == rest;
  }

  lemma ZeroByte()
    ensures Value(0) == 0
  {
  }

  /** A label that is empty ends the name early for whoever reads it. */
  lemma EmptyLabelCutsName(front: seq<seq<bv8>>, back: seq<seq<bv8>>, rest: seq<bv8>)
    requires ShortLabels(front) && NonemptyLabels(front) && ShortLabels(back)
    ensures ShortLabels(front + [[]] + back)
    ensures ReadName(Wire(front + [[]] + back) + [0] + rest) == Some((front, Wire(back) + [0] + rest))
  {
    hide ReadName, Wire;
    WireSnoc(front, []);
    ByteOfZero();
    WireConcat(front + [[]], back);
    ReadWire(front, Wire(back) + [0] + rest);
    var f, b: seq<bv8> := Wire(front), Wire(back);
    var empty: seq<bv8> := [];
    assert f + [0] + empty + b + [0] + rest == f + [0] + (b + [0] + rest);
  }

  lemma ByteOfZero()
    ensures ByteOf(0) == 0
  {
  }

  lemma WireSnoc(a: seq<seq<bv8>>, l: seq<bv8>)
    requires ShortLabels(a) && |l| <= MAX_LABEL_LENGTH
    ensures ShortLabels(a + [l]) && Wire(a + [l]) == Wire(a) + [ByteOf(|l|)] + l
  {
    hide ByteOf;
    assert (a + [l])[..|a|] == a;
  }

  lemma {:induction false} WireConcat(a: seq<seq<bv8>>, b: seq<seq<bv8>>)
    requires ShortLabels(a) && ShortLabels(b)
    ensures ShortLabels(a + b) && Wire(a + b) == Wire(a) + Wire(b)
    decreases |b|
  {
    hide ByteOf, Wire;
    if b == [] {
      NothingOnWire();
      assert a + b == a;
    } else {
      var front, l := b[..|b| - 1], b[|b| - 1];
      assert b == front + [l];
      assert a + b == a + front + [l];
      WireConcat(a, front);
      WireSnoc(front, l);
      WireSnoc(a + front, l);
      assert Wire(a) + Wire(front) + [ByteOf(|l|)] + l == Wire(a) + (Wire(front) + [ByteOf(|l|)] + l);
    }
  }

  lemma NothingOnWire()
    ensures Wire([]) == []
  {
  }

  /** The bytes that the first `i` labels take on the wire. */
  function SizeBefore(labels: seq<seq<bv8>>, i: nat): nat
    requires i <= |labels|
  {
    if i == 0 then 0 else SizeBefore(labels, i - 1) + 1 + |labels[i - 1]|
  }

  lemma {:induction false} SizeOfFront(labels: seq<seq<bv8>>, n: nat, i: nat)
    requires i <= n <= |labels|
    ensures SizeBefore(labels[..n], i) == SizeBefore(labels, i)
    decreases i
  {
    if i == 0 {
    } else {
      SizeOfFront(labels, n, i - 1);
    }
  }

  /** Where each label stands on the wire: behind the ones before it, its length in front of it. */
  lemma {:induction false} WireAt(labels: seq<seq<bv8>>, i: nat)
    requires ShortLabels(labels) && i <= |labels|
    ensures |Wire(labels)| == SizeBefore(labels, |labels|)
    ensures i < |labels| ==>
              var (w, o, n) := (Wire(labels), SizeBefore(labels, i), |labels[i]|);
              o + 1 + n <= |w| && Value(w[o]) == n && w[o + 1..o + 1 + n] == labels[i]
    decreases |labels|
  {
    hide ByteOf, Value, Wire;
    if labels == [] {
      NothingOnWire();
    } else {
      var n := |labels| - 1;
      var (front, l) := (labels[..n], labels[n]);
      assert labels == front + [l];
      WireSnoc(front, l);
      SizeOfFront(labels, n, n);
      ValueOfByte(|l|);
      WireAt(front, if i < n then i else n);
      if i < n {
        SizeOfFront(labels, n, i);
        InFront(Wire(front), ByteOf(|l|), l, SizeBefore(labels, i), |labels[i]|);
      } else if i == n {
        AtEnd(Wire(front), ByteOf(|l|), l);
      }
    }
  }

  lemma InFront(a: seq<bv8>, b: bv8, l: seq<bv8>, o: nat, n: nat)
    requires o + 1 + n <= |a|
    ensures (a + [b] + l)[o] == a[o] && (a + [b] + l)[o + 1..o + 1 + n] == a[o + 1..o + 1 + n]
  {
  }

  lemma AtEnd(a: seq<bv8>, b: bv8, l: seq<bv8>)
    ensures (a + [b] + l)[|a|] == b && (a + [b] + l)[|a| + 1..|a| + 1 + |l|] == l
  {
  }

  /** A name without dots is one label. */
  lemma {:induction false} NoDot(d: seq<bv8>)
    requires forall i :: 0 <= i < |d| ==> d[i] != DOT
    ensures FirstDot(d) == |d| && (d != [] ==> Labels(d) == [d])
  {
  }

  /** The label in front of the first dot, and the labels behind it. */
  lemma LabelsOfDotted(a: seq<bv8>, d: seq<bv8>)
    requires forall i :: 0 <= i < |a| ==> a[i] != DOT
    ensures Labels(a + [DOT] + d) == [a] + Labels(d)
  {
    var s := a + [DOT] + d;
    var k := FirstDot(s);
    assert s[|a|] == DOT;
    assert forall i :: 0 <= i < |a| ==> s[i] == a[i];
    assert k == |a|;
    assert s[..k] == a && s[k + 1..] == d;
  }

  /** The wire form of the labels takes at most one byte more than the text. */
  lemma {:induction false} WireLength(d: seq<bv8>)
    requires ShortLabels(Labels(d))
    ensures |d| <= |Wire(Labels(d))| <= |d| + 1
    decreases |d|
  {
    hide ByteOf, Wire;
    NothingOnWire();
    if d == [] {
    } else {
      var k := FirstDot(d);
      WireFront(Labels(d));
      if k < |d| {
        assert Labels(d)[1..] == Labels(d[k + 1..]);
        WireLength(d[k + 1..]);
      } else {
        assert Labels(d)[1..] == [];
      }
    }
  }
}

/** The query message of src/transport/dns_tunnel.cpp:195-250. */
module DnsQuery {
  import opened Core
  import opened DnsNames

  const DNS_HEADER_SIZE: nat := 12

  function Header(transactionId: nat): (h: seq<bv8>)
    requires transactionId < 0x1_0000
    ensures |h| == DNS_HEADER_SIZE
  {
    [ByteOf(transactionId / 0x100), ByteOf(transactionId % 0x100),
     0x01, 0x00, 0x00, 0x01, 0x00, 0x00, 0x00, 0x00, 0x00, 0x00]
  }

  const TYPE_TXT_CLASS_IN: seq<bv8> := [0x00, 0x10, 0x00, 0x01]

  /** The query for a name, None when a label is too long. */
  function Query(domain: seq<bv8>, transactionId: nat): Option<seq<bv8>>
    requires transactionId < 0x1_0000
  {
    if ShortLabels(Labels(domain))
    then Some(Header(transactionId) + Wire(Labels(domain)) + [0x00] + TYPE_TXT_CLASS_IN)
    else None
  }

  /** A 16-bit field, most significant byte first. */
  function Word16(q: seq<bv8>, i: nat): nat
    requires i + 2 <= |q|
  {
    0x100 * Value(q[i]) + Value(q[i + 1])
  }

  /** The header of a query is read as its id, recursion desired, one question and no records, section 4.1.1 of
      RFC 1035; type 16 is TXT and class 1 is IN. */
  lemma QueryHeader(domain: seq<bv8>, transactionId: nat)
    requires transactionId < 0x1_0000 && Query(domain, transactionId).Some?
    ensures var q := Query(domain, transactionId).value;
            && |q| >= DNS_HEADER_SIZE && Word16(q, 0) == transactionId && Word16(q, 2) == 0x0100 && Word16(q, 4) == 1
            && Word16(q, 6) == Word16(q, 8) == Word16(q, 10) == 0
            && Word16(TYPE_TXT_CLASS_IN, 0) == 16 && Word16(TYPE_TXT_CLASS_IN, 2) == 1
  {
    hide Labels, Wire, ByteOf, ShortLabels;
    var q := Query(domain, transactionId).value;
    var h := Header(transactionId);
    ValueOfByte(transactionId / 0x100);
    ValueOfByte(transactionId % 0x100);
    assert forall i :: 0 <= i < DNS_HEADER_SIZE ==> q[i] == h[i];
  }

  /** Every byte of the question, whatever labels the domain has: each label behind its length and the labels before it,
      then a zero, the type TXT and the class IN; and there is no query exactly when a label is above 63 bytes. */
  lemma QueryLayout(domain: seq<bv8>, transactionId: nat, i: nat)
    requires transactionId < 0x1_0000
    ensures Query(domain, transactionId).None? <==> exists l :: l in Labels(domain) && |l| > 63
    ensures Query(domain, transactionId).Some? ==>
              var (q, labels) := (Query(domain, transactionId).value, Labels(domain));
              && |q| == 12 + SizeBefore(labels, |labels|) + 5
              && q[|q| - 5] == 0 && Word16(q, |q| - 4) == 16 && Word16(q, |q| - 2) == 1
              && (i < |labels| ==>
                    var (o, n) := (12 + SizeBefore(labels, i), |labels[i]|);
                    o + 1 + n <= |q| && Value(q[o]) == n && q[o + 1..o + 1 + n] == labels[i])
  {
    hide Labels, Wire, Header, Value;
    var labels := Labels(domain);
    if ShortLabels(labels) {
      var (h, w) := (Header(transactionId), Wire(labels));
      var tail := [0x00] + TYPE_TXT_CLASS_IN;
      WireAt(labels, if i < |labels| then i else 0);
      assert Query(domain, transactionId).value == h + w + tail;
      if i < |labels| {
        Inside(h, w, tail, SizeBefore(labels, i), |labels[i]|);
      }
      TypeAndClass();
    } else {
      var k :| 0 <= k < |labels| && |labels[k]| > MAX_LABEL_LENGTH;
      assert labels[k] in labels;
    }
  }

  lemma Inside(h: seq<bv8>, w: seq<bv8>, tail: seq<bv8>, o: nat, n: nat)
    requires o + 1 + n <= |w|
    ensures (h + w + tail)[|h| + o] == w[o]
    ensures (h + w + tail)[|h| + o + 1..|h| + o + 1 + n] == w[o + 1..o + 1 + n]
  {
  }

  lemma TypeAndClass()
    ensures Word16(TYPE_TXT_CLASS_IN, 0) == 16 && Word16(TYPE_TXT_CLASS_IN, 2) == 1
  {
  }

  /** The question of a query names the labels of the domain, whenever none is empty. */
  lemma QueryNamesLabels(domain: seq<bv8>, transactionId: nat)
    requires transactionId < 0x1_0000 && NonemptyLabels(Labels(domain))
    ensures match Query(domain, transactionId)
            case None => !ShortLabels(Labels(domain))
            case Some(q) =>
              && |q| <= DNS_HEADER_SIZE + |domain| + 6
              && ReadName(q[DNS_HEADER_SIZE..]) == Some((Labels(domain), TYPE_TXT_CLASS_IN))
  {
    hide Header, Labels, Wire, ReadName, ShortLabels, NonemptyLabels;
    if ShortLabels(Labels(domain)) {
      var w := Wire(Labels(domain));
      var h := Header(transactionId);
      WireLength(domain);
      ReadWire(Labels(domain), TYPE_TXT_CLASS_IN);
      var q := h + w + [0x00] + TYPE_TXT_CLASS_IN;
      assert q[DNS_HEADER_SIZE..] == w + [0x00] + TYPE_TXT_CLASS_IN;
    }
  }

  /** Whoever reads the question gets the labels of the domain exactly when none of them is empty. */
  lemma QuestionReadsBack(domain: seq<bv8>, transactionId: nat)
    requires transactionId < 0x1_0000 && ShortLabels(Labels(domain))
    ensures ReadName(Query(domain, transactionId).value[DNS_HEADER_SIZE..]) == Some((Labels(domain), TYPE_TXT_CLASS_IN))
       <==> NonemptyLabels(Labels(domain))
  {
    hide Header, Labels, Wire, ReadName;
    var labels := Labels(domain);
    if NonemptyLabels(labels) {
      QueryNamesLabels(domain, transactionId);
    } else {
      var k := FirstEmpty(labels);
      EmptyLabelCutsName(labels[..k], labels[k + 1..], TYPE_TXT_CLASS_IN);
      assert labels[..k] + [[]] + labels[k + 1..] == labels;
      QueryBody(domain, transactionId);
      assert |labels[..k]| < |labels|;
    }
  }

  function FirstEmpty(labels: seq<seq<bv8>>): (k: nat)
    requires !NonemptyLabels(labels)
    ensures k < |labels| && labels[k] == [] && NonemptyLabels(labels[..k])
  {
    if labels[0] == [] then 0
    else
      assert !NonemptyLabels(labels[1..]) by {
        var i :| 0 <= i < |labels| && labels[i] == [];
        assert labels[1..][i - 1] == [];
      }
      var k := FirstEmpty(labels[1..]);
      assert labels[..k + 1] == [labels[0]] + labels[1..][..k];
      k + 1
  }

  lemma QueryBody(domain: seq<bv8>, transactionId: nat)
    requires transactionId < 0x1_0000 && ShortLabels(Labels(domain))
    ensures Query(domain, transactionId).Some?
    ensures |Query(domain, transactionId).value| >= DNS_HEADER_SIZE
    ensures Query(domain, transactionId).value[DNS_HEADER_SIZE..] == Wire(Labels(domain)) + [0x00] + TYPE_TXT_CLASS_IN
  {
    hide Labels, Wire, Header;
    var (h, w) := (Header(transactionId), Wire(Labels(domain)));
    var tail: seq<bv8> := w + [0x00] + TYPE_TXT_CLASS_IN;
    assert Query(domain, transactionId).value == h + tail;
  }

  // ---------------------------------------------------------------- the code

  /** The index of the terminating zero byte. */
  function CLength(s: seq<bv8>): (n: nat)
    requires exists k :: 0 <= k < |s| && s[k] == 0
    ensures n < |s| && s[n] == 0 && forall i :: 0 <= i < n ==> s[i] != 0
  {
    if s[0] == 0 then 0
    else
      assert exists k :: 0 <= k < |s[1..]| && s[1..][k] == 0 by {
        var k :| 0 <= k < |s| && s[k] == 0;
        assert s[1..][k - 1] == 0;
      }
      1 + CLength(s[1..])
  }

  ghost predicate IsCString(a: array<bv8>)
    reads a
  {
    exists k :: 0 <= k < a.Length && a[..][k] == 0
  }

  /** The characters before the terminator. */
  ghost function CString(a: array<bv8>): seq<bv8>
    requires IsCString(a)
    reads a
  {
    a[..CLength(a[..])]
  }

  method Strlen(a: array<bv8>) returns (n: nat)
    requires IsCString(a)
    ensures n < a.Length && n == |CString(a)| && a[n] == 0 && forall i :: 0 <= i < n ==> a[i] != 0
  {
    n := 0;
    while a[n] != 0
      invariant 0 <= n <= CLength(a[..])
      decreases a.Length - n
    {
      n := n + 1;
    }
  }

  /** Where the scan stands: `done` are the labels written, `start` is where the next one begins. */
  ghost predicate Scanned(d: seq<bv8>, start: nat, p: nat, done: seq<seq<bv8>>) {
    && p <= |d| && start <= |d|
    && ShortLabels(done)
    && if p == |d| then done == Labels(d)
       else
         && start <= p
         && (forall i :: start <= i < p ==> d[i] != DOT)
         && Labels(d) == done + Labels(d[start..])
  }

  /** The label that ends at `p`, with a dot behind it or at the end of the name. */
  function LabelAt(d: seq<bv8>, start: nat, p: nat): seq<bv8>
    requires start <= p < |d|
  {
    if d[p] == DOT then d[start..p] else d[start..p + 1]
  }

  lemma LabelEnds(d: seq<bv8>, start: nat, p: nat, done: seq<seq<bv8>>)
    requires p < |d| && start <= p && Scanned(d, start, p, done) && (d[p] == DOT || p + 1 == |d|)
    ensures Labels(d) == done + [LabelAt(d, start, p)] + (if d[p] == DOT then Labels(d[p + 1..]) else [])
  {
    hide Labels, ShortLabels;
    var piece := LabelAt(d, start, p);
    if d[p] == DOT {
      assert d[start..] == piece + [DOT] + d[p + 1..];
      LabelsOfDotted(piece, d[p + 1..]);
      assert done + ([piece] + Labels(d[p + 1..])) == done + [piece] + Labels(d[p + 1..]);
    } else {
      assert d[start..] == piece;
      NoDot(piece);
      assert done + [piece] + [] == done + [piece];
    }
  }

  lemma LabelWritten(d: seq<bv8>, start: nat, p: nat, done: seq<seq<bv8>>)
    requires p < |d| && start <= p && Scanned(d, start, p, done) && (d[p] == DOT || p + 1 == |d|)
    requires |LabelAt(d, start, p)| <= MAX_LABEL_LENGTH
    ensures Scanned(d, if d[p] == DOT then p + 1 else start, p + 1, done + [LabelAt(d, start, p)])
  {
    hide Labels, LabelAt;
    LabelEnds(d, start, p, done);
    if p + 1 == |d| {
      NoLabels();
      assert d[p + 1..] == [];
      assert done + [LabelAt(d, start, p)] + [] == done + [LabelAt(d, start, p)];
    }
  }

  lemma NoLabels()
    ensures Labels([]) == []
  {
  }

  lemma LabelTooLong(d: seq<bv8>, start: nat, p: nat, done: seq<seq<bv8>>)
    requires p < |d| && start <= p && Scanned(d, start, p, done) && (d[p] == DOT || p + 1 == |d|)
    requires |LabelAt(d, start, p)| > MAX_LABEL_LENGTH
    ensures !ShortLabels(Labels(d))
  {
    hide Labels, LabelAt;
    LabelEnds(d, start, p, done);
    assert Labels(d)[|done|] == LabelAt(d, start, p);
  }

  lemma CharacterPassed(d: seq<bv8>, start: nat, p: nat, done: seq<seq<bv8>>)
    requires p + 1 < |d| && Scanned(d, start, p, done) && d[p] != DOT
    ensures Scanned(d, start, p + 1, done)
  {
  }

  /** One label on the wire, its length in front of it. */
  method WriteLabel(buffer: array<bv8>, offset: nat, domain: array<bv8>, labelStart: nat, labelLen: nat,
                    ghost done: seq<seq<bv8>>)
    requires domain != buffer && labelStart + labelLen <= domain.Length && labelLen <= MAX_LABEL_LENGTH
    requires DNS_HEADER_SIZE <= offset && offset + 1 + labelLen <= buffer.Length
    requires ShortLabels(done) && buffer[DNS_HEADER_SIZE..offset] == Wire(done)
    modifies buffer
    ensures buffer[..DNS_HEADER_SIZE] == old(buffer[..DNS_HEADER_SIZE])
    ensures ShortLabels(done + [domain[labelStart..labelStart + labelLen]])
    ensures buffer[DNS_HEADER_SIZE..offset + 1 + labelLen] == Wire(done + [domain[labelStart..labelStart + labelLen]])
    ensures buffer[offset + 1 + labelLen..] == old(buffer[offset + 1 + labelLen..])
  {
    hide ByteOf, Wire, ShortLabels, Splice;
    ghost var before, after := buffer[..], offset + 1 + labelLen;
    ghost var piece := domain[labelStart..labelStart + labelLen];
    LabelInBuffer(before, offset, ByteOf(labelLen), piece);
    WireSnoc(done, piece);
    buffer[offset] := ByteOf(labelLen);
    Memcpy(buffer, offset + 1, domain, labelStart, labelLen);
    ghost var now := buffer[..];
    assert now == Splice(before[offset := ByteOf(labelLen)], offset + 1, piece);
    assert buffer[..DNS_HEADER_SIZE] == now[..DNS_HEADER_SIZE] && buffer[after..] == now[after..];
    assert buffer[DNS_HEADER_SIZE..after] == now[DNS_HEADER_SIZE..after];
  }

  lemma LabelInBuffer(before: seq<bv8>, offset: nat, length: bv8, piece: seq<bv8>)
    requires DNS_HEADER_SIZE <= offset && offset + 1 + |piece| <= |before|
    ensures var now := Splice(before[offset := length], offset + 1, piece);
            && now[..DNS_HEADER_SIZE] == before[..DNS_HEADER_SIZE]
            && now[DNS_HEADER_SIZE..offset + 1 + |piece|] == before[DNS_HEADER_SIZE..offset] + [length] + piece
            && now[offset + 1 + |piece|..] == before[offset + 1 + |piece|..]
  {
  }

  method WriteHeader(transactionId: nat, buffer: array<bv8>) returns (offset: nat)
    requires transactionId < 0x1_0000 && DNS_HEADER_SIZE <= buffer.Length
    modifies buffer
    ensures offset == DNS_HEADER_SIZE && buffer[..offset] == Header(transactionId)
    ensures buffer[offset..] == old(buffer[offset..])
  {
    hide ByteOf;
    buffer[0] := ByteOf(transactionId / 0x100);
    buffer[1] := ByteOf(transactionId % 0x100);
    buffer[2], buffer[3] := 0x01, 0x00;
    buffer[4], buffer[5] := 0x00, 0x01;
    buffer[6], buffer[7] := 0x00, 0x00;
    buffer[8], buffer[9] := 0x00, 0x00;
    buffer[10], buffer[11] := 0x00, 0x00;
    offset := DNS_HEADER_SIZE;
  }

  /** The end of the name, the type and the class. */
  method WriteTrailer(buffer: array<bv8>, offset0: nat) returns (offset: nat)
    requires offset0 + 5 <= buffer.Length
    modifies buffer
    ensures offset == offset0 + 5 && buffer[..offset] == old(buffer[..offset0]) + [0x00] + TYPE_TXT_CLASS_IN
    ensures buffer[offset..] == old(buffer[offset..])
  {
    buffer[offset0] := 0x00;
    buffer[offset0 + 1], buffer[offset0 + 2] := 0x00, 0x10;
    buffer[offset0 + 3], buffer[offset0 + 4] := 0x00, 0x01;
    offset := offset0 + 5;
  }

  /** The labels of the name; false when one is longer than 63 bytes. */
  method WriteName(domain: array<bv8>, buffer: array<bv8>) returns (ok: bool, offset: nat)
    requires IsCString(domain) && domain != buffer
    requires DNS_HEADER_SIZE + |CString(domain)| + 6 <= buffer.Length
    modifies buffer
    ensures buffer[..DNS_HEADER_SIZE] == old(buffer[..DNS_HEADER_SIZE])
    ensures buffer[DNS_HEADER_SIZE + |CString(domain)| + 1..] == old(buffer[DNS_HEADER_SIZE + |CString(domain)| + 1..])
    ensures ok == ShortLabels(Labels(CString(domain)))
    ensures ok ==> && DNS_HEADER_SIZE <= offset <= DNS_HEADER_SIZE + |CString(domain)| + 1
                   && buffer[DNS_HEADER_SIZE..offset] == Wire(Labels(CString(domain)))
  {
    hide Labels, ShortLabels, Wire, ByteOf, Scanned;
    ghost var d := CString(domain);
    ghost var done: seq<seq<bv8>> := [];
    var labelStart: nat, p: nat := 0, 0;
    offset := DNS_HEADER_SIZE;
    StartScan(d);
    assert buffer[DNS_HEADER_SIZE..offset] == [];
    while domain[p] != 0
      invariant p <= |d| && d == CString(domain) && Scanned(d, labelStart, p, done) && ShortLabels(done)
      invariant p < |d| ==> labelStart <= p
      invariant offset <= DNS_HEADER_SIZE + p + 1
      invariant p < |d| ==> offset == DNS_HEADER_SIZE + labelStart
      invariant DNS_HEADER_SIZE <= offset <= buffer.Length
      invariant buffer[DNS_HEADER_SIZE..offset] == Wire(done)
      invariant buffer[..DNS_HEADER_SIZE] == old(buffer[..DNS_HEADER_SIZE])
      invariant buffer[DNS_HEADER_SIZE + |d| + 1..] == old(buffer[DNS_HEADER_SIZE + |d| + 1..])
      decreases |d| - p
    {
      assert p < |d| && domain[p] == d[p] && (domain[p + 1] == 0 <==> p + 1 == |d|);
      if domain[p] == DOT || domain[p + 1] == 0 {
        ghost var piece := LabelAt(d, labelStart, p);
        var labelLen := p - labelStart;
        if domain[p + 1] == 0 && domain[p] != DOT {
          labelLen := labelLen + 1;
        }
        assert piece == domain[labelStart..labelStart + labelLen];
        if labelLen > MAX_LABEL_LENGTH {
          LabelTooLong(d, labelStart, p, done);
          return false, 0;
        }
        LabelWritten(d, labelStart, p, done);
        WriteLabel(buffer, offset, domain, labelStart, labelLen, done);
        done := done + [piece];
        offset := offset + 1 + labelLen;
        if domain[p] == DOT {
          labelStart := p + 1;
        }
      } else {
        CharacterPassed(d, labelStart, p, done);
      }
      p := p + 1;
    }
    ok := true;
    ScanDone(d, labelStart, done);
  }

  lemma ScanDone(d: seq<bv8>, start: nat, done: seq<seq<bv8>>)
    requires Scanned(d, start, |d|, done)
    ensures done == Labels(d)
  {
  }

  lemma StartScan(d: seq<bv8>)
    ensures Scanned(d, 0, 0, []) && Wire([]) == []
  {
    assert d[0..] == d;
  }

  /** Writes the query, or reports 0 for a name with an overlong label or a buffer that might be short. */
  method BuildDnsQuery(domain: array<bv8>, transactionId: nat, buffer: array<bv8>, bufferSize: nat)
    returns (size: nat)
    requires IsCString(domain) && domain != buffer && transactionId < 0x1_0000 && bufferSize <= buffer.Length
    modifies buffer
    ensures bufferSize < DNS_HEADER_SIZE + |CString(domain)| + 6 ==> size == 0 && buffer[..] == old(buffer[..])
    ensures bufferSize >= DNS_HEADER_SIZE + |CString(domain)| + 6 ==>
              && buffer[DNS_HEADER_SIZE + |CString(domain)| + 6..]
                 == old(buffer[DNS_HEADER_SIZE + |CString(domain)| + 6..])
              && match Query(CString(domain), transactionId)
                 case None => size == 0
                 case Some(q) => 0 < size == |q| <= buffer.Length && buffer[..size] == q
  {
    hide Labels, ShortLabels, Wire, Header;
    var length := Strlen(domain);
    if bufferSize < DNS_HEADER_SIZE + length + 6 {
      return 0;
    }
    ghost var far: nat := DNS_HEADER_SIZE + length + 6;
    ghost var b0 := buffer[..];
    var header := WriteHeader(transactionId, buffer);
    ghost var b1 := buffer[..];
    assert b1[far..] == b0[far..] by {
      assert b1[far..] == b1[header..][far - header..] && b0[far..] == b0[header..][far - header..];
    }
    var ok, offset := WriteName(domain, buffer);
    ghost var b2 := buffer[..];
    assert b2[far..] == b1[far..] by {
      assert b2[far..] == b2[far - 5..][5..] && b1[far..] == b1[far - 5..][5..];
    }
    if !ok {
      return 0;
    }
    assert b2[..offset] == b2[..DNS_HEADER_SIZE] + b2[DNS_HEADER_SIZE..offset];
    size := WriteTrailer(buffer, offset);
    assert buffer[..][far..] == b2[far..] by {
      assert buffer[..][far..] == buffer[..][size..][far - size..];
      assert b2[far..] == b2[size..][far - size..];
    }
  }
}
