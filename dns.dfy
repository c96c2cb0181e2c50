/**
 * The captive portal's DNS responder (src/dns/dns_server.py): every query is
 * answered with one A record that points at the portal.
 *
 * The answer follows the message format of RFC 1035: the header of section
 * 4.1.1 (ID, flags, four counts), the question of section 4.1.2 copied from
 * the query, and one resource record (section 4.1.3) whose name is the
 * compression pointer of section 4.1.4 to offset 12, the question's name.
 */
module Dns {
  import opened Common
  import opened Text
  import Config

  /** QR=1, opcode 0, RD=1, RA=1, RCODE 0. */
  const FLAGS: seq<byte> := [0x81, 0x80]
  /** QDCOUNT=1, ANCOUNT=1, NSCOUNT=0, ARCOUNT=0. */
  const COUNTS: seq<byte> := [0x00, 0x01, 0x00, 0x01, 0x00, 0x00, 0x00, 0x00]
  /** Name pointer to offset 12, TYPE A, CLASS IN, TTL 60, RDLENGTH 4. */
  const ANSWER_PREFIX: seq<byte> := [0xC0, 0x0C, 0x00, 0x01, 0x00, 0x01, 0x00, 0x00, 0x00, 0x3C, 0x00, 0x04]
  const HEADER_SIZE: nat := 12

  /** A big-endian 16-bit field. */
  function U16(bs: seq<byte>, i: nat): nat
    requires i + 2 <= |bs|
  {
    bs[i] as nat * 256 + bs[i + 1] as nat
  }

  /** A big-endian 32-bit field. */
  function U32(bs: seq<byte>, i: nat): nat
    requires i + 4 <= |bs|
  {
    U16(bs, i) * 65536 + U16(bs, i + 2)
  }

  /** The first zero byte at or after `i`: the end of the question's name. */
  function FirstZeroFrom(q: seq<byte>, i: nat): (r: Option<nat>)
    requires i <= |q|
    ensures r.Some? ==> i <= r.value < |q| && q[r.value] == 0
    ensures r.Some? ==> forall k :: i <= k < r.value ==> q[k] != 0
    ensures r.None? ==> forall k :: i <= k < |q| ==> q[k] != 0
    decreases |q| - i
  {
    if i == |q| then None
    else if q[i] == 0 then Some(i)
    else FirstZeroFrom(q, i + 1)
  }

  /** `int(x)` of each field, in order; `None` where `int` raises. */
  function Ints(fields: seq<string>): seq<Option<int>>
  {
    seq(|fields|, i requires 0 <= i < |fields| => PyInt(fields[i]))
  }

  /** A parsed value that `bytes` accepts. */
  predicate IsByte(v: Option<int>)
  {
    v.Some? && 0 <= v.value < 256
  }

  /** `bytes(...)` of the parsed values: the first failure fails the whole. */
  function Bytes(vs: seq<Option<int>>): Option<seq<byte>>
  {
    if vs == [] then Some([])
    else
      var rest := Bytes(vs[1..]);
      if !IsByte(vs[0]) || rest.None? then None
      else Some([vs[0].value as byte] + rest.value)
  }

  /** The bytes exist exactly when every value is in 0..255, and then they are those values. */
  lemma {:induction false} BytesMeaning(vs: seq<Option<int>>)
    ensures Bytes(vs).Some? <==> forall i :: 0 <= i < |vs| ==> IsByte(vs[i])
    ensures Bytes(vs).Some? ==>
              var r := Bytes(vs).value;
              |r| == |vs| && forall i :: 0 <= i < |vs| ==> r[i] as int == vs[i].value
  {
    if vs != [] {
      var tail := vs[1..];
      BytesMeaning(tail);
      assert forall i :: 1 <= i < |vs| ==> vs[i] == tail[i - 1];
    }
  }

  /** `bytes(int(x) for x in fields)`. */
  function OctetsOf(fields: seq<string>): Option<seq<byte>>
  {
    Bytes(Ints(fields))
  }

  /** The portal address as the bytes of the answer's RDATA. */
  function Octets(portalIp: string): Option<seq<byte>>
  {
    OctetsOf(Split(portalIp, "."))
  }

  /** The dotted form of a list of octets. */
  function Dotted(bs: seq<byte>): string
    requires |bs| >= 1
  {
    Join(seq(|bs|, i requires 0 <= i < |bs| => NatToString(bs[i] as nat)), ".")
  }

  /** Reading a dotted address back gives its octets. */
  lemma OctetsOfDotted(bs: seq<byte>)
    requires |bs| >= 1
    ensures Octets(Dotted(bs)) == Some(bs)
  {
    var fields := seq(|bs|, i requires 0 <= i < |bs| => NatToString(bs[i] as nat));
    forall k | 0 <= k < |fields|
      ensures Free(fields[k], '.') && PyInt(fields[k]) == Some(bs[k] as int)
    {
      PyIntOfNatToString(bs[k] as nat);
    }
    JoinSplit(fields, ".");
    OctetsOfValues(fields, bs);
  }

  /** Fields that read as the given bytes give those bytes. */
  lemma OctetsOfValues(fields: seq<string>, bs: seq<byte>)
    requires |fields| == |bs| && forall k :: 0 <= k < |fields| ==> PyInt(fields[k]) == Some(bs[k] as int)
    ensures OctetsOf(fields) == Some(bs)
  {
    var vs := Ints(fields);
    assert forall k :: 0 <= k < |vs| ==> vs[k] == Some(bs[k] as int);
    BytesMeaning(vs);
    assert Bytes(vs).value == bs;
  }



  /** The configured portal address is the dotted quad 192.168.1.1. */
  lemma PortalIpOctets()
    ensures Octets(Config.PORTAL_IP) == Some([192, 168, 1, 1])
  {
    var bs: seq<byte> := [192, 168, 1, 1];
    DottedPortal();
    OctetsOfDotted(bs);
  }

  lemma DottedPortal()
    ensures Dotted([192, 168, 1, 1]) == "192.168.1.1"
  {
    var bs: seq<byte> := [192, 168, 1, 1];
    PortalDigits();
    var fields := seq(|bs|, i requires 0 <= i < |bs| => NatToString(bs[i] as nat));
    assert fields == ["192", "168", "1", "1"];
    PortalJoin();
  }

  lemma PortalDigits()
    ensures NatToString(192) == "192" && NatToString(168) == "168" && NatToString(1) == "1"
  {
    assert NatToString(19) == "19";
    assert NatToString(16) == "16";
  }

  lemma PortalJoin()
    ensures Join(["192", "168", "1", "1"], ".") == "192.168.1.1"
  {
    assert Join(["1"], ".") == "1";
    assert Join(["1", "1"], ".") == "1.1" by {
      assert ["1", "1"][1..] == ["1"];
    }
    assert Join(["168", "1", "1"], ".") == "168.1.1" by {
      assert ["168", "1", "1"][1..] == ["1", "1"];
    }
    assert ["192", "168", "1", "1"][1..] == ["168", "1", "1"];
  }


  /** `self.portal_ip or PORTAL_IP`: an absent or empty address falls back to the configured one. */
  function ChoosePortalIp(portalIp: Option<string>): (r: string)
    ensures portalIp.Some? && portalIp.value != "" ==> r == portalIp.value
    ensures portalIp.None? || portalIp.value == "" ==> r == Config.PORTAL_IP
    ensures r != ""
  {
    if portalIp.Some? && portalIp.value != "" then portalIp.value else Config.PORTAL_IP
  }

  /** Where the copied question ends: four bytes past the name's zero byte, clipped to the query. */
  function QuestionEnd(query: seq<byte>, zero: nat): (e: nat)
    requires HEADER_SIZE <= zero < |query|
    ensures zero < e <= |query|
    // the zero byte and the four bytes of type and class, cut short by the end of the query
    ensures zero + 5 <= |query| ==> e == zero + 5
    ensures zero + 5 > |query| ==> e == |query|
  {
    if zero + 5 < |query| then zero + 5 else |query|
  }

  /** The answer to a query whose name ends at `zero`, pointing at `ip`. */
  function Answer(query: seq<byte>, zero: nat, ip: seq<byte>): seq<byte>
    requires HEADER_SIZE <= zero < |query|
  {
    query[..2] + FLAGS + COUNTS + query[HEADER_SIZE..QuestionEnd(query, zero)] + ANSWER_PREFIX + ip
  }

  /** The answer's layout: the query's ID, the fixed flags and counts, the question verbatim, the record, the address. */
  lemma AnswerLayout(query: seq<byte>, zero: nat, ip: seq<byte>)
    requires HEADER_SIZE <= zero < |query|
    ensures var e := QuestionEnd(query, zero);
            var m := Answer(query, zero, ip);
            && |m| == HEADER_SIZE + (e - HEADER_SIZE) + |ANSWER_PREFIX| + |ip|
            && m[..2] == query[..2]
            && m[2..4] == FLAGS
            && m[4..HEADER_SIZE] == COUNTS
            && m[HEADER_SIZE..e] == query[HEADER_SIZE..e]
            && m[e..e + |ANSWER_PREFIX|] == ANSWER_PREFIX
            && m[e + |ANSWER_PREFIX|..] == ip
  {
    var e := QuestionEnd(query, zero);
    var m := Answer(query, zero, ip);
    var a := query[..2];
    var b := a + FLAGS;
    var c := b + COUNTS;
    var d := c + query[HEADER_SIZE..e];
    var f := d + ANSWER_PREFIX;
    assert m == f + ip;
    assert m[..2] == a;
    assert m[2..4] == FLAGS;
    assert m[4..HEADER_SIZE] == COUNTS;
    assert m[HEADER_SIZE..e] == query[HEADER_SIZE..e];
    assert m[e..e + |ANSWER_PREFIX|] == ANSWER_PREFIX;
    assert m[e + |ANSWER_PREFIX|..] == ip;
  }

  /** `CaptivePortalDNS` stripped of its socket and thread. */
  class CaptivePortalDns {
    const portalIp: string

    constructor (portalIp: Option<string>)
      ensures this.portalIp == ChoosePortalIp(portalIp)
    {
      this.portalIp := ChoosePortalIp(portalIp);
    }

    /** `_build_response(query)`. */
    method BuildResponse(query: seq<byte>) returns (r: Option<seq<byte>>)
      // None for a short query, a name with no zero byte, or an address that is not octets
      ensures r.Some? <==> && |query| >= HEADER_SIZE
                           && FirstZeroFrom(query, HEADER_SIZE).Some?
                           && Octets(portalIp).Some?
      ensures r.Some? ==> r.value == Answer(query, FirstZeroFrom(query, HEADER_SIZE).value, Octets(portalIp).value)
    {
      if |query| < HEADER_SIZE {
        return None;
      }
      var response := query[..2];
      response := response + FLAGS;
      response := response + COUNTS;

      var qend := HEADER_SIZE;
      while qend < |query| && query[qend] != 0
        invariant HEADER_SIZE <= qend <= |query|
        invariant forall k :: HEADER_SIZE <= k < qend ==> query[k] != 0
        invariant FirstZeroFrom(query, qend) == FirstZeroFrom(query, HEADER_SIZE)
        decreases |query| - qend
      {
        qend := qend + 1;
      }
      if qend == |query| {
        // query[qend] raises IndexError
        return None;
      }
      var stop := QuestionEnd(query, qend);
      response := response + query[HEADER_SIZE..stop];

      response := response + ANSWER_PREFIX;
      var ip := Octets(portalIp);
      if ip.None? {
        return None;
      }
      response := response + ip.value;
      r := Some(response);
    }
  }

  /**
   * Read as RFC 1035 fields, the answer is a response with one question and
   * one A record of class IN, TTL 60, naming offset 12, whose RDLENGTH says 4;
   * the RDATA that follows is 4 bytes long exactly when the address has four
   * octets.
   */
  lemma AnswerFields(query: seq<byte>, zero: nat, ip: seq<byte>)
    requires HEADER_SIZE <= zero < |query|
    ensures var m := Answer(query, zero, ip);
            var e := QuestionEnd(query, zero);
            && U16(m, 0) == U16(query, 0)
            && U16(m, 2) == 0x8180
            && U16(m, 4) == 1 && U16(m, 6) == 1 && U16(m, 8) == 0 && U16(m, 10) == 0
            && U16(m, e) == 0xC00C
            && U16(m, e) - 0xC000 == HEADER_SIZE
            && U16(m, e + 2) == 1 && U16(m, e + 4) == 1
            && U32(m, e + 6) == 60
            && U16(m, e + 10) == 4
            && (U16(m, e + 10) == |m| - (e + 12) <==> |ip| == 4)
  {
    var m := Answer(query, zero, ip);
    var e := QuestionEnd(query, zero);
    var head := query[..2] + FLAGS + COUNTS;
    assert |head| == HEADER_SIZE;
    assert m == head + query[HEADER_SIZE..e] + ANSWER_PREFIX + ip;
    assert m[..HEADER_SIZE] == head;
    assert m[e..e + 12] == ANSWER_PREFIX;
    assert m[0] == query[0] && m[1] == query[1];
    assert m[e] == 0xC0 && m[e + 1] == 0x0C;
    assert m[e + 10] == 0 && m[e + 11] == 4;
  }

  /** For the configured portal the answer is 16 bytes after the question. */
  lemma PortalAnswerLength(query: seq<byte>, zero: nat, ip: seq<byte>)
    requires HEADER_SIZE <= zero < |query|
    requires Octets(Config.PORTAL_IP) == Some(ip)
    ensures |Answer(query, zero, ip)| == HEADER_SIZE + (QuestionEnd(query, zero) - HEADER_SIZE) + 16
  {
    PortalIpOctets();
    assert |ip| == 4;
    AnswerLayout(query, zero, ip);
  }
}
