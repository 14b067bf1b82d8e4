/** The bytes `DevNS._build_response` reads from a query and writes into its
    reply, in the message format of section 4.1 of RFC 1035. */
module Wire {
  import opened Common

  // ---------------------------------------------------------------- _intify

  /** An element of a query buffer: an `int` when indexing `bytes` under
      Python 3, a one-character `str` under Python 2, or a one-byte `bytes`. */
  datatype Item = IntValue(n: int) | CharValue(c: char) | ByteValue(b: byte)

  /** `_intify`: an `int` passes through, anything else goes through `ord`. */
  function Intify(v: Item): (n: int)
    ensures v.IntValue? ==> n == v.n
    ensures !v.IntValue? ==> 0 <= n
  {
    match v
    case IntValue(n) => n
    case CharValue(c) => c as int
    case ByteValue(b) => b
  }

  /** A buffer byte reads the same whichever form the indexing produced. */
  lemma IntifyAgrees(b: byte)
    ensures Intify(IntValue(b)) == b
    ensures Intify(ByteValue(b)) == b
    ensures Intify(CharValue(b as char)) == b
  {
  }

  /** An int, the character `1` and the byte 1. */
  lemma IntifyExamples()
    ensures Intify(IntValue(1)) == 1
    ensures Intify(CharValue('1')) == 49
    ensures Intify(ByteValue(1)) == 1
  {
  }

  // ---------------------------------------------------------------- header fields

  /** `DNS.OpCode.Query`. */
  const Query := 0

  /** `(_intify(data[2]) >> 3) & 15`: bits 3..6 of the third header byte. */
  function Opcode(flags: byte): (op: nat)
    ensures op < 16
  {
    (flags / 8) % 16
  }

  /** The third header byte packs QR (1 bit), OPCODE (4 bits), AA, TC and RD;
      `Opcode` recovers exactly the OPCODE field. */
  lemma OpcodeOfFlags(qr: nat, op: nat, low: nat)
    requires qr < 2 && op < 16 && low < 8
    ensures qr * 128 + op * 8 + low < 256
    ensures Opcode(qr * 128 + op * 8 + low) == op
  {
    var b := qr * 128 + op * 8 + low;
    assert b == (qr * 16 + op) * 8 + low;
    assert b / 8 == qr * 16 + op;
    assert (qr * 16 + op) % 16 == op;
  }

  /** A 16-bit field in network byte order. */
  function U16(hi: byte, lo: byte): nat
  {
    hi * 256 + lo
  }

  /** The twelve header bytes of section 4.1.1 of RFC 1035, field by field. */
  datatype Header = Header(
    id: nat, qr: nat, opcode: nat, aa: nat, tc: nat, rd: nat,
    ra: nat, z: nat, rcode: nat,
    qdCount: nat, anCount: nat, nsCount: nat, arCount: nat)

  function DecodeHeader(m: seq<byte>): (h: Header)
    requires |m| >= 12
    ensures h.qr < 2 && h.opcode < 16 && h.rcode < 16
  {
    Header(
      U16(m[0], m[1]),
      m[2] / 128, Opcode(m[2]), (m[2] / 4) % 2, (m[2] / 2) % 2, m[2] % 2,
      m[3] / 128, (m[3] / 16) % 8, m[3] % 16,
      U16(m[4], m[5]), U16(m[6], m[7]), U16(m[8], m[9]), U16(m[10], m[11]))
  }

  // ---------------------------------------------------------------- the label walk

  function Min(a: int, b: int): int
  {
    if a < b then a else b
  }

  /** Prefixes labels already collected to the outcome of the rest of the walk. */
  function After(found: seq<seq<byte>>, rest: Option<seq<seq<byte>>>): Option<seq<seq<byte>>>
  {
    match rest
    case Some(labels) => Some(found + labels)
    case None => None
  }

  /** The labels the loop of `_build_response` collects from offset `ini`:
      a zero length byte ends the walk, and None stands for the IndexError of
      a length byte read past the end. A label is the slice after its length
      byte, which Python cuts short at the end of the buffer. */
  function LabelsFrom(data: seq<byte>, ini: nat): (r: Option<seq<seq<byte>>>)
    ensures r.Some? ==> ValidLabels(r.value)
    decreases |data| - ini
  {
    if ini >= |data| then None
    else if data[ini] == 0 then Some([])
    else
      var next := ini + data[ini] + 1;
      After([data[ini + 1 .. Min(next, |data|)]], LabelsFrom(data, next))
  }

  /** One turn of the walk moves one label from the rest of the walk to the
      labels already collected. */
  lemma AfterStep(data: seq<byte>, ini: nat, found: seq<seq<byte>>)
    requires ini < |data| && data[ini] != 0
    ensures var next := ini + data[ini] + 1;
      After(found, LabelsFrom(data, ini))
        == After(found + [data[ini + 1 .. Min(next, |data|)]], LabelsFrom(data, next))
  {
    var next := ini + data[ini] + 1;
    var piece := data[ini + 1 .. Min(next, |data|)];
    assert LabelsFrom(data, ini) == After([piece], LabelsFrom(data, next));
    match LabelsFrom(data, next) {
      case Some(later) => assert found + ([piece] + later) == found + [piece] + later;
      case None =>
    }
  }

  /** The `while lon != 0` loop of `_build_response`, from offset 12. */
  method WalkLabels(data: seq<byte>) returns (labels: Option<seq<seq<byte>>>)
    ensures labels == LabelsFrom(data, 12)
  {
    var ini := 12;
    if ini >= |data| {
      return None;
    }
    var found: seq<seq<byte>> := [];
    var lon := data[ini];
    match LabelsFrom(data, 12) {
      case Some(all) => assert [] + all == all;
      case None =>
    }
    while lon != 0
      invariant ini < |data| && lon == data[ini]
      invariant LabelsFrom(data, 12) == After(found, LabelsFrom(data, ini))
      decreases |data| - ini
    {
      AfterStep(data, ini, found);
      found := found + [data[ini + 1 .. Min(ini + lon + 1, |data|)]];
      ini := ini + lon + 1;
      if ini >= |data| {
        return None;
      }
      lon := data[ini];
    }
    assert found + [] == found;
    return Some(found);
  }

  predicate ValidLabels(labels: seq<seq<byte>>)
  {
    forall i :: 0 <= i < |labels| ==> 0 < |labels[i]| < 256
  }

  /** A domain name as a sequence of length-prefixed labels ending in the
      zero-length root label (section 3.1 of RFC 1035). */
  function EncodeName(labels: seq<seq<byte>>): (r: seq<byte>)
    requires ValidLabels(labels)
    ensures |r| > 0 && r[|r| - 1] == 0
  {
    if labels == [] then [0]
    else [|labels[0]|] + labels[0] + EncodeName(labels[1..])
  }

  /** The walk reads back exactly the labels of an encoded name, whatever
      precedes it and whatever follows it. */
  lemma {:induction false} LabelsOfEncodeName(head: seq<byte>, labels: seq<seq<byte>>, rest: seq<byte>)
    requires ValidLabels(labels)
    ensures LabelsFrom(head + EncodeName(labels) + rest, |head|) == Some(labels)
    decreases |labels|
  {
    var data := head + EncodeName(labels) + rest;
    if labels != [] {
      var l := labels[0];
      var head' := head + [|l|] + l;
      assert data == head' + EncodeName(labels[1..]) + rest;
      assert data[|head|] == |l|;
      assert data[|head| + 1 .. |head'|] == l;
      LabelsOfEncodeName(head', labels[1..], rest);
      assert [l] + labels[1..] == labels;
    }
  }

  /** The walk only looks at bytes from `ini` up to where it stops: a buffer
      that agrees on those bytes yields the same labels. */
  lemma {:induction false} LabelsAgree(a: seq<byte>, b: seq<byte>, ini: nat)
    requires LabelsFrom(a, ini).Some?
    requires |a| <= |b| && ini <= |a| && a[ini..] == b[ini..|a|]
    ensures LabelsFrom(b, ini) == LabelsFrom(a, ini)
    decreases |a| - ini
  {
    assert a[ini] == a[ini..][0] == b[ini..|a|][0] == b[ini];
    if a[ini] != 0 {
      var next := ini + a[ini] + 1;
      assert next < |a|;
      assert a[next..] == a[ini..][next - ini..];
      assert b[next..|a|] == b[ini..|a|][next - ini..];
      LabelsAgree(a, b, next);
      forall k | ini < k < next
        ensures a[k] == b[k]
      {
        assert a[k] == a[ini..][k - ini] == b[ini..|a|][k - ini] == b[k];
      }
      assert a[ini + 1 .. next] == b[ini + 1 .. next];
    }
  }

  // ---------------------------------------------------------------- the reply

  /** The answer record after the copied question: a pointer to offset 12
      (section 4.1.4 of RFC 1035), TYPE A, CLASS IN, TTL 60, RDLENGTH 4. */
  const AnswerPrefix: seq<byte> := [0xC0, 0x0C, 0x00, 0x01, 0x00, 0x01, 0x00, 0x00, 0x00, 0x3C, 0x00, 0x04]

  /** The `b"".join(...)` of `_build_response`. */
  function ReplyBytes(data: seq<byte>, encoded: seq<byte>): (r: seq<byte>)
    requires |data| >= 12
    ensures |r| == |data| + 12 + |encoded|
    ensures r[..2] == data[..2] && r[2] == 0x81 && r[3] == 0x80
    ensures r[4..6] == data[4..6] && r[6..8] == data[4..6] && r[8..12] == [0, 0, 0, 0]
    ensures r[12..|data|] == data[12..]
    ensures r[|data|..|data| + 12] == AnswerPrefix && r[|data| + 12..] == encoded
  {
    data[..2] + [0x81, 0x80] + data[4..6] + data[4..6] + [0, 0, 0, 0] + data[12..]
      + AnswerPrefix + encoded
  }

  /** The reply header: same id, a response (QR 1) to a standard query with
      recursion desired and available and no error, and as many answers as
      the query had questions, with no authority or additional records. */
  lemma ReplyHeader(data: seq<byte>, encoded: seq<byte>)
    requires |data| >= 12
    ensures var q, r := DecodeHeader(data), DecodeHeader(ReplyBytes(data, encoded));
      r == q.(qr := 1, opcode := Query, aa := 0, tc := 0, rd := 1, ra := 1, z := 0, rcode := 0,
              anCount := q.qdCount, nsCount := 0, arCount := 0)
  {
    var r := ReplyBytes(data, encoded);
    assert r[0] == r[..2][0] && r[1] == r[..2][1];
    assert data[0] == data[..2][0] && data[1] == data[..2][1];
    assert r[4] == r[4..6][0] == data[4..6][0] == data[4];
    assert r[5] == r[4..6][1] == data[4..6][1] == data[5];
    assert r[6] == r[6..8][0] == data[4];
    assert r[7] == r[6..8][1] == data[5];
    assert r[8] == r[8..12][0] && r[9] == r[8..12][1];
    assert r[10] == r[8..12][2] && r[11] == r[8..12][3];
  }

  /** The resource record of section 4.1.3 of RFC 1035 that starts at `at`:
      the owner name when it is a compression pointer, then TYPE, CLASS, TTL,
      RDLENGTH and as much of RDATA as the message holds. */
  datatype Record = Record(pointer: Option<nat>, rrType: nat, rrClass: nat, ttl: nat, rdLength: nat, rdata: seq<byte>)

  function DecodeRecord(m: seq<byte>, at: nat): (rr: Record)
    requires at + 12 <= |m|
    ensures |rr.rdata| <= rr.rdLength
  {
    var rdLength := U16(m[at + 10], m[at + 11]);
    Record(
      if m[at] >= 0xC0 then Some(U16(m[at] - 0xC0, m[at + 1])) else None,
      U16(m[at + 2], m[at + 3]), U16(m[at + 4], m[at + 5]),
      U16(m[at + 6], m[at + 7]) * 65536 + U16(m[at + 8], m[at + 9]),
      rdLength, m[at + 12 .. Min(at + 12 + rdLength, |m|)])
  }

  /** The answer after the copied query: an A record of class IN for the name
      at offset 12, valid for 60 seconds, whose four data bytes are the first
      four encoded bytes. */
  lemma ReplyAnswer(data: seq<byte>, encoded: seq<byte>)
    requires |data| >= 12
    ensures DecodeRecord(ReplyBytes(data, encoded), |data|)
         == Record(Some(12), 1, 1, 60, 4, encoded[..Min(4, |encoded|)])
  {
    var r := ReplyBytes(data, encoded);
    var n := |data|;
    forall i | 0 <= i < 12
      ensures r[n + i] == AnswerPrefix[i]
    {
      assert r[n + i] == r[n..n + 12][i];
    }
    assert r[n + 12 .. Min(n + 16, |r|)] == encoded[..Min(4, |encoded|)];
  }

  /** The pointer of the answer leads back to the question's name: from
      offset 12 the reply holds the same labels the query did. */
  lemma ReplyRepeatsQuestionName(data: seq<byte>, encoded: seq<byte>)
    requires |data| >= 12 && LabelsFrom(data, 12).Some?
    ensures LabelsFrom(ReplyBytes(data, encoded), 12) == LabelsFrom(data, 12)
  {
    var r := ReplyBytes(data, encoded);
    assert r[12..|data|] == data[12..];
    LabelsAgree(data, r, 12);
  }
}
