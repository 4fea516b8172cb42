/** What the DNS tunnel sends: src/transport/dns_tunnel.cpp:321-367. */
module DnsTunnelling {
  import opened Core
  import opened DnsNames
  import opened DnsQuery
  import opened Base32

  const MAX_DOMAIN_LENGTH: nat := 253
  const MAX_DNS_MESSAGE: nat := 512
  const MAX_PAYLOAD: nat := 200

  predicate IsTransactionId(id: nat) {
    id < 0x1_0000
  }

  /** The name that carries a payload. */
  function Domain(payload: seq<bv8>, base: seq<bv8>): seq<bv8> {
    Encoded(payload) + [DOT] + base
  }

  /** The message handed to the socket, None when the payload is refused. */
  function Datagram(payload: seq<bv8>, base: seq<bv8>, id: nat): Option<seq<bv8>>
    requires IsTransactionId(id)
  {
    if payload == [] || |payload| > MAX_PAYLOAD || |Domain(payload, base)| >= MAX_DOMAIN_LENGTH then None
    else Query(Domain(payload, base), id)
  }

  /** The transaction id moves on once a name has been formatted, even if no query comes of it. */
  function NextId(payload: seq<bv8>, base: seq<bv8>, id: nat): (next: nat)
    requires IsTransactionId(id)
    ensures IsTransactionId(next)
  {
    if payload == [] || |payload| > MAX_PAYLOAD || |Domain(payload, base)| >= MAX_DOMAIN_LENGTH then id
    else (id + 1) % 0x1_0000
  }

  /** Base32 text has neither dots nor terminators in it. */
  lemma TextIsPlain(payload: seq<bv8>, i: nat)
    requires i < |Encoded(payload)|
    ensures Encoded(payload)[i] != DOT && Encoded(payload)[i] != 0
  {
    hide Letter, Groups, DataBits;
    var g := Groups(DataBits(payload));
    GroupsAreSymbols(DataBits(payload));
    assert Encoded(payload)[i] == Letter(g[i]);
    LetterRoundTrip(g[i]);
    DotIsNoLetter();
  }

  lemma DotIsNoLetter()
    ensures LetterValue(DOT) == -1 && LetterValue(0) == -1
  {
    assert Value(DOT) == 0x2e && Value(0) == 0;
  }

  lemma LabelsOfDomain(payload: seq<bv8>, base: seq<bv8>)
    ensures Labels(Domain(payload, base)) == [Encoded(payload)] + Labels(base)
  {
    hide Encoded, Labels;
    forall i: nat | i < |Encoded(payload)|
      ensures Encoded(payload)[i] != DOT
    {
      TextIsPlain(payload, i);
    }
    LabelsOfDotted(Encoded(payload), base);
  }

  /** Payloads of 1 to 39 bytes go out, longer ones never: their text is one label of more than 63 characters. */
  lemma SentExactly(payload: seq<bv8>, base: seq<bv8>, id: nat)
    requires IsTransactionId(id)
    ensures Datagram(payload, base, id).Some?
       <==> && 1 <= |payload| <= 39
            && (8 * |payload| + 4) / 5 + 1 + |base| < MAX_DOMAIN_LENGTH
            && ShortLabels(Labels(base))
  {
    hide Encoded, Labels, Wire, Header;
    LabelsOfDomain(payload, base);
    var (text, labels) := (Encoded(payload), Labels(base));
    assert |text| <= 63 <==> |payload| <= 39;
    ShortFront(text, labels);
  }

  lemma ShortFront(l: seq<bv8>, labels: seq<seq<bv8>>)
    ensures ShortLabels([l] + labels) <==> |l| <= MAX_LABEL_LENGTH && ShortLabels(labels)
  {
    assert ([l] + labels)[0] == l;
    assert forall i :: 0 <= i < |labels| ==> ([l] + labels)[i + 1] == labels[i];
  }

  /** A query carries the id that was next, and the next one is one further modulo 2^16; so it is when a name of fewer
      than 253 characters was made and no query came of it, and in no other case. */
  lemma IdsCount(payload: seq<bv8>, base: seq<bv8>, id: nat)
    requires IsTransactionId(id)
    ensures NextId(payload, base, id)
         == if 1 <= |payload| <= 200 && (8 * |payload| + 4) / 5 + 1 + |base| < 253 then (id + 1) % 0x1_0000 else id
    ensures match Datagram(payload, base, id)
            case None => true
            case Some(q) => |q| >= 12 && Word16(q, 0) == id && NextId(payload, base, id) == (id + 1) % 0x1_0000
  {
    hide Encoded, Labels, Wire, Header, Query;
    if Datagram(payload, base, id).Some? {
      QueryHeader(Domain(payload, base), id);
    }
  }

  /** Whoever reads a query that went out finds the base labels behind one that decodes to the payload. */
  lemma PayloadArrives(payload: seq<bv8>, base: seq<bv8>, id: nat)
    requires IsTransactionId(id) && Datagram(payload, base, id).Some? && NonemptyLabels(Labels(base))
    ensures |Datagram(payload, base, id).value| <= DNS_HEADER_SIZE + |Domain(payload, base)| + 6
    ensures exists text ::
              && ReadName(Datagram(payload, base, id).value[DNS_HEADER_SIZE..])
                 == Some(([text] + Labels(base), TYPE_TXT_CLASS_IN))
              && Decoded(text) == payload
  {
    hide Encoded, Decoded, Labels, Wire, Header, ReadName;
    LabelsOfDomain(payload, base);
    var (text, labels) := (Encoded(payload), Labels(base));
    NonemptyFront(text, labels);
    QueryNamesLabels(Domain(payload, base), id);
    DecodedEncoded(payload, text);
  }

  lemma NonemptyFront(l: seq<bv8>, labels: seq<seq<bv8>>)
    requires l != [] && NonemptyLabels(labels)
    ensures NonemptyLabels([l] + labels)
  {
  }
}

/** The sending half of the transport. */
module DnsTunnelTransport {
  import opened Core
  import opened DnsNames
  import opened DnsQuery
  import opened DnsTunnelling
  import opened RateLimiting
  import opened RateLimits
  import Base32

  /** A socket that remembers what it was handed; `outcome` is what the system reports. */
  class Socket {
    var handed: seq<seq<bv8>>

    constructor ()
      ensures handed == []
    {
      handed := [];
    }

    method SendTo(message: array<bv8>, size: nat, outcome: int) returns (sent: int)
      requires size <= message.Length
      modifies this
      ensures sent == outcome && handed == old(handed) + [message[..size]]
    {
      handed := handed + [message[..size]];
      sent := outcome;
    }
  }

  /** snprintf(domain, size, "%s.%s", encoded, base): the text is cut at size - 1 characters. */
  method FormatDomain(encoded: array<bv8>, base: array<bv8>, domain: array<bv8>, size: nat) returns (written: nat)
    requires IsCString(encoded) && IsCString(base) && 0 < size <= domain.Length && domain != encoded && domain != base
    modifies domain
    ensures written == |CString(encoded)| + 1 + |CString(base)|
    ensures written < size ==> IsCString(domain) && CString(domain) == CString(encoded) + [DOT] + CString(base)
  {
    var front := Strlen(encoded);
    var back := Strlen(base);
    written := front + 1 + back;
    var i: nat := 0;
    ghost var text := CString(encoded) + [DOT] + CString(base);
    while i < written && i < size - 1
      invariant i <= written && i <= size - 1
      invariant domain[..i] == text[..i]
    {
      domain[i] := if i < front then encoded[i] else if i == front then DOT else base[i - front - 1];
      i := i + 1;
    }
    domain[i] := 0;
    if written < size {
      assert domain[..written] == text;
      Terminated(domain, text);
    }
  }

  lemma Terminated(a: array<bv8>, s: seq<bv8>)
    requires |s| < a.Length && a[..|s|] == s && a[|s|] == 0 && forall i :: 0 <= i < |s| ==> s[i] != 0
    ensures IsCString(a) && CString(a) == s
  {
    assert a[..][|s|] == 0;
    var n := CLength(a[..]);
    assert forall i :: 0 <= i < |s| ==> a[..][i] == s[i];
    assert n == |s|;
  }

  class DnsTunnel {
    var isOpen: bool
    var transactionId: nat
    const rateLimiter: RateLimiter
    const socket: Socket
    const baseDomain: array<bv8>

    constructor (rateLimiter: RateLimiter, socket: Socket, baseDomain: array<bv8>)
      ensures !isOpen && transactionId == 1
      ensures this.rateLimiter == rateLimiter && this.socket == socket && this.baseDomain == baseDomain
    {
      isOpen, transactionId := false, 1;
      this.rateLimiter, this.socket, this.baseDomain := rateLimiter, socket, baseDomain;
    }

    ghost predicate Valid(clock: Clock)
      reads this, rateLimiter, baseDomain, clock
    {
      IsTransactionId(transactionId) && IsCString(baseDomain) && rateLimiter.Valid(clock)
    }

    /** The name for a payload, if it fits. */
    method MakeDomain(data: array<bv8>, size: nat, domain: array<bv8>) returns (written: nat)
      requires IsCString(baseDomain) && 0 < size <= MAX_PAYLOAD && size <= data.Length
      requires domain.Length == MAX_DOMAIN_LENGTH && domain != baseDomain && domain != data
      modifies domain
      ensures written == |Domain(data[..size], CString(baseDomain))|
      ensures written < MAX_DOMAIN_LENGTH ==>
                IsCString(domain) && CString(domain) == Domain(data[..size], CString(baseDomain))
    {
      hide Base32.Encoded;
      var encoded := new bv8[512];
      var encodedLen := Base32.Encode(data, size, encoded, 512);
      ghost var text := Base32.Encoded(data[..size]);
      forall i: nat | i < |text|
        ensures text[i] != 0
      {
        TextIsPlain(data[..size], i);
      }
      Terminated(encoded, text);
      written := FormatDomain(encoded, baseDomain, domain, MAX_DOMAIN_LENGTH);
    }

    /** Everything behind the rate limiter; the query is handed to the socket. */
    method Transmit(data: array<bv8>, size: nat, outcome: int) returns (code: ErrorCode)
      requires IsTransactionId(transactionId) && IsCString(baseDomain) && 0 < size <= MAX_PAYLOAD && size <= data.Length
      modifies this, socket
      ensures isOpen == old(isOpen)
      ensures transactionId == NextId(data[..size], CString(baseDomain), old(transactionId))
      ensures match Datagram(data[..size], CString(baseDomain), old(transactionId))
              case None => code == ERR_FORMAT && socket.handed == old(socket.handed)
              case Some(q) =>
                && socket.handed == old(socket.handed) + [q]
                && code == if outcome == |q| then OK else ERR_IO
    {
      hide Domain, Query;
      var domain := new bv8[253];
      var written := MakeDomain(data, size, domain);
      assert data[..size] != [];
      if written >= MAX_DOMAIN_LENGTH {
        return ERR_FORMAT;
      }
      var query := new bv8[512];
      var id := transactionId;
      transactionId := (transactionId + 1) % 0x1_0000;
      var queryLen := BuildDnsQuery(domain, id, query, MAX_DNS_MESSAGE);
      if queryLen == 0 {
        return ERR_FORMAT;
      }
      var sent := socket.SendTo(query, queryLen, outcome);
      if sent < 0 || sent != queryLen {
        return ERR_IO;
      }
      code := OK;
    }

    /** `random` is the number rand() returns, `outcome` what the system reports for the datagram. */
    method Send(data: Buffer, clock: Clock, random: nat, outcome: int) returns (code: ErrorCode)
      requires data.Valid() && Valid(clock)
      modifies this, rateLimiter, clock, socket
      ensures Valid(clock) && isOpen == old(isOpen)
      ensures !old(isOpen) ==> code == ERR_IO
      ensures old(isOpen) && (data.size == 0 || data.size > MAX_PAYLOAD) ==> code == ERR_FORMAT
      ensures !old(isOpen) || data.size == 0 || data.size > MAX_PAYLOAD ==>
                && transactionId == old(transactionId) && socket.handed == old(socket.handed)
                && rateLimiter.lastQueryTimeMs == old(rateLimiter.lastQueryTimeMs)
                && rateLimiter.run == old(rateLimiter.run)
      ensures old(isOpen) && 0 < data.size <= MAX_PAYLOAD ==>
                && clock.drift >= old(clock.drift)
                && OneMore(rateLimiter.Limits(), old(rateLimiter.run), rateLimiter.run, random,
                           old(clock.now), clock.drift - old(clock.drift), clock.now)
                && transactionId == NextId(data.Contents(), CString(baseDomain), old(transactionId))
                && match Datagram(data.Contents(), CString(baseDomain), old(transactionId))
                   case None => code == ERR_FORMAT && socket.handed == old(socket.handed)
                   case Some(q) =>
                     && socket.handed == old(socket.handed) + [q]
                     && code == if outcome == |q| then OK else ERR_IO
    {
      hide Datagram, NextId, OneMore, IsRun;
      if !isOpen {
        return ERR_IO;
      }
      if data.size == 0 || data.size > MAX_PAYLOAD {
        return ERR_FORMAT;
      }
      rateLimiter.EnforceRateLimit(clock, random);
      code := Transmit(data.data, data.size, outcome);
    }
  }
}
