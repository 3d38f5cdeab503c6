/** The DNS hijack responder: every datagram received on port 53 is turned,
    in its own receive buffer, into a response that answers the first
    question with an A record for the kiosk's address.  The layout follows
    RFC 1035: the header of section 4.1.1, the resource record format of
    section 4.1.3 and the name compression pointer of section 4.1.4. */
module DnsHijack {
  import opened Wrappers

  /** Size of the receive buffer. */
  const BufferSize: nat := 512

  /** Length of a DNS message header (RFC 1035 section 4.1.1). */
  const HeaderSize: nat := 12

  /** The kiosk's soft-AP address 192.168.4.1. */
  const KioskAddress: seq<bv8> := [192, 168, 4, 1]

  const TypeA: nat := 1
  const ClassIn: nat := 1
  const AnswerTtl: nat := 60

  /** The appended answer: pointer 0xC00C to the name at offset 12, TYPE A,
      CLASS IN, TTL 60, RDLENGTH 4, RDATA 192.168.4.1. */
  const AnswerRecord: seq<bv8> :=
    [0xC0, 0x0C, 0x00, 0x01, 0x00, 0x01, 0x00, 0x00, 0x00, 0x3C, 0x00, 0x04] + KioskAddress

  /** The received bytes with the response flags written into them: QR
      (bit 0x80 of byte 2) and RA (bit 0x80 of byte 3) set and the low byte
      of ANCOUNT (byte 7) set to 1.  Writes that fall beyond a short
      datagram are overwritten by the answer and so do not show. */
  function Flagged(q: seq<bv8>): seq<bv8>
  {
    seq(|q|, i requires 0 <= i < |q| =>
      if i == 2 || i == 3 then q[i] | 0x80 else if i == 7 then 1 else q[i])
  }

  /** The response sent for the received datagram q. */
  function Forged(q: seq<bv8>): seq<bv8>
  {
    Flagged(q) + AnswerRecord
  }

  /** The in-place transform of the DNS task: set the flags, copy the answer
      behind the len received bytes, and return the length to send.  The
      source does not check that the answer fits; here that is the second
      precondition. */
  method ForgeResponse(buf: array<bv8>, len: nat) returns (sendLen: nat)
    requires buf.Length == BufferSize
    requires len + |AnswerRecord| <= buf.Length
    modifies buf
    ensures sendLen == len + |AnswerRecord|
    ensures buf[..sendLen] == Forged(old(buf[..len]))
    ensures buf[sendLen..] == old(buf[sendLen..])
  {
    ghost var received := buf[..len];
    buf[2] := buf[2] | 0x80;
    buf[3] := buf[3] | 0x80;
    buf[7] := 1;
    ghost var flagged := buf[..];
    var answer := AnswerRecord;
    for k := 0 to |answer|
      invariant forall j :: 0 <= j < buf.Length ==>
                  buf[j] == if len <= j < len + k then answer[j - len] else flagged[j]
    {
      buf[len + k] := answer[k];
    }
    sendLen := len + |answer|;
    assert buf[..len] == Flagged(received);
    assert buf[len..sendLen] == AnswerRecord;
    assert buf[..sendLen] == buf[..len] + buf[len..sendLen];
  }

  /** The guard of the DNS task as written: any datagram of positive length
      is answered. */
  predicate AsWrittenAccepts(len: int)
  {
    len > 0
  }

  /** The guard accepts lengths that the 512-byte buffer can receive but for
      which the 16-byte answer runs past its end: exactly 497 to 512. */
  lemma AsWrittenOverrun(len: int)
    requires len <= BufferSize
    ensures AsWrittenAccepts(len) && len + |AnswerRecord| > BufferSize <==> 497 <= len
  {
  }

  /** The corrected receive-loop body: a datagram is answered when it is
      non-empty and its answer fits the buffer; anything else (a receive
      error, an empty or a too long datagram) is dropped.  The result is the
      number of bytes sent, or None when nothing is sent. */
  method HandleDatagram(buf: array<bv8>, len: int) returns (sent: Option<nat>)
    requires buf.Length == BufferSize
    requires len <= BufferSize
    modifies buf
    ensures sent.Some? <==> 0 < len && len + |AnswerRecord| <= BufferSize
    ensures sent.Some? ==>
              sent.value == len + |AnswerRecord| &&
              buf[..sent.value] == Forged(old(buf[..len])) &&
              buf[sent.value..] == old(buf[sent.value..])
    ensures sent.None? ==> buf[..] == old(buf[..])
  {
    if 0 < len && len + |AnswerRecord| <= buf.Length {
      var n := ForgeResponse(buf, len);
      sent := Some(n);
    } else {
      sent := None;
    }
  }

  /** A big-endian 16-bit field. */
  function U16(hi: bv8, lo: bv8): nat
  {
    hi as nat * 256 + lo as nat
  }

  /** A big-endian 32-bit field. */
  function U32(b0: bv8, b1: bv8, b2: bv8, b3: bv8): nat
  {
    U16(b0, b1) * 65536 + U16(b2, b3)
  }

  /** The fields of a DNS header (RFC 1035 section 4.1.1). */
  datatype Header = Header(
    id: nat, qr: bool, opcode: nat, aa: bool, tc: bool, rd: bool,
    ra: bool, z: nat, rcode: nat,
    qdCount: nat, anCount: nat, nsCount: nat, arCount: nat)

  function DecodeHeader(m: seq<bv8>): Header
    requires |m| >= HeaderSize
  {
    Header(
      U16(m[0], m[1]),
      m[2] & 0x80 != 0, ((m[2] >> 3) & 0x0F) as nat,
      m[2] & 0x04 != 0, m[2] & 0x02 != 0, m[2] & 0x01 != 0,
      m[3] & 0x80 != 0, ((m[3] >> 4) & 0x07) as nat, (m[3] & 0x0F) as nat,
      U16(m[4], m[5]), U16(m[6], m[7]), U16(m[8], m[9]), U16(m[10], m[11]))
  }

  lemma U16High(hi: bv8, lo: bv8)
    ensures U16(hi, lo) / 256 == hi as nat
  {
  }

  /** A response's header is the query's header with QR and RA set and the
      low byte of ANCOUNT replaced by 1: the ID, the opcode, the AA, TC and
      RD bits, the rcode and the other counts are echoed. */
  lemma ForgedHeader(q: seq<bv8>)
    requires |q| >= HeaderSize
    ensures DecodeHeader(Forged(q)) ==
              DecodeHeader(q).(qr := true, ra := true,
                               anCount := DecodeHeader(q).anCount / 256 * 256 + 1)
  {
    var m := Forged(q);
    assert m[0] == q[0] && m[1] == q[1] && m[2] == q[2] | 0x80 && m[3] == q[3] | 0x80;
    assert m[4] == q[4] && m[5] == q[5] && m[6] == q[6] && m[7] == 1;
    assert m[8] == q[8] && m[9] == q[9] && m[10] == q[10] && m[11] == q[11];
    assert ((q[2] | 0x80) >> 3) & 0x0F == (q[2] >> 3) & 0x0F;
    assert (q[2] | 0x80) & 0x04 == q[2] & 0x04;
    assert (q[2] | 0x80) & 0x02 == q[2] & 0x02;
    assert (q[2] | 0x80) & 0x01 == q[2] & 0x01;
    assert ((q[3] | 0x80) >> 4) & 0x07 == (q[3] >> 4) & 0x07;
    assert (q[3] | 0x80) & 0x0F == q[3] & 0x0F;
    U16High(q[6], q[7]);
  }

  /** The response claims exactly one answer exactly when the query's
      ANCOUNT was below 256 (a query normally carries ANCOUNT 0). */
  lemma ForgedAnswerCount(q: seq<bv8>)
    requires |q| >= HeaderSize
    ensures DecodeHeader(Forged(q)).anCount == 1 <==> DecodeHeader(q).anCount < 256
  {
  }

  /** A resource record whose owner name is a compression pointer
      (RFC 1035 sections 4.1.3 and 4.1.4). */
  datatype ResourceRecord = ResourceRecord(
    namePointer: nat, rrType: nat, rrClass: nat, ttl: nat, rdata: seq<bv8>)

  /** Decodes the record at offset off, or None when m has no complete
      record there or its name is not a pointer. */
  function DecodePointerRecord(m: seq<bv8>, off: nat): Option<ResourceRecord>
  {
    if off + 12 > |m| || m[off] & 0xC0 != 0xC0 then None
    else
      var rdLength := U16(m[off + 10], m[off + 11]);
      if off + 12 + rdLength > |m| then None
      else
        Some(ResourceRecord(
          U16(m[off] & 0x3F, m[off + 1]),
          U16(m[off + 2], m[off + 3]),
          U16(m[off + 4], m[off + 5]),
          U32(m[off + 6], m[off + 7], m[off + 8], m[off + 9]),
          m[off + 12..off + 12 + rdLength]))
  }

  /** Byte by byte: the ID (bytes 0 and 1) and every received byte except
      2, 3 and 7 are echoed, bytes 2 and 3 gain bit 0x80 and keep their
      other bits, byte 7 is 1, and the answer follows the received bytes. */
  lemma ForgedLayout(q: seq<bv8>)
    requires |q| >= 8
    ensures |Forged(q)| == |q| + |AnswerRecord|
    ensures forall i :: 0 <= i < |q| && i != 2 && i != 3 && i != 7 ==> Forged(q)[i] == q[i]
    ensures Forged(q)[2] & 0x80 == 0x80 && Forged(q)[2] & 0x7F == q[2] & 0x7F
    ensures Forged(q)[3] & 0x80 == 0x80 && Forged(q)[3] & 0x7F == q[3] & 0x7F
    ensures Forged(q)[7] == 1
    ensures Forged(q)[|q|..] == AnswerRecord
  {
  }

  /** The appended record decodes as one A record for the kiosk's address
      with TTL 60, whose name points at offset 12: the first byte after the
      header, where the question's name begins.  It ends the message. */
  lemma ForgedAnswer(q: seq<bv8>)
    ensures DecodePointerRecord(Forged(q), |q|) ==
              Some(ResourceRecord(HeaderSize, TypeA, ClassIn, AnswerTtl, KioskAddress))
    ensures |Forged(q)| == |q| + |AnswerRecord|
  {
    var m := Forged(q);
    var n := |q|;
    assert m[n..] == AnswerRecord;
    assert m[n] & 0xC0 == 0xC0;
    assert U16(m[n] & 0x3F, m[n + 1]) == 12;
    assert m[n + 12..n + 16] == KioskAddress;
  }
}
