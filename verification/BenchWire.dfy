/** The benchmark's 24-byte message header. */
module BenchWire {
  import opened Base
  import opened LittleEndian

  const HDR_SIZE: nat := 24
  const MAGIC: nat := 0x42505255
  const VERSION: nat := 1
  const PAYLOAD_MAX: nat := 1048576

  datatype Hdr = Hdr(magic: u32, version: byte, flags: byte, origin: u16, payloadLen: u32, seqno: u32, tSend: u64)

  datatype DecodeError = Short | BadMagic | BadVersion | BadFlags | OverCap

  datatype Decoded = Good(hdr: Hdr) | Bad(error: DecodeError)

  function Encode(h: Hdr): (s: seq<byte>)
    ensures |s| == HDR_SIZE
  {
    Put(h.magic, 4) + [h.version, h.flags] + Put(h.origin, 2) + Put(h.payloadLen, 4) + Put(h.seqno, 4) + Put(h.tSend, 8)
  }

  /** The header fields read back at their offsets, before any validation. */
  function Fields(buf: seq<byte>): Hdr
    requires |buf| >= HDR_SIZE
  {
    Widths();
    GetBound(buf[0..4]); GetBound(buf[6..8]); GetBound(buf[8..12]); GetBound(buf[12..16]); GetBound(buf[16..24]);
    Hdr(Get(buf[0..4]), buf[4], buf[5], Get(buf[6..8]), Get(buf[8..12]), Get(buf[12..16]), Get(buf[16..24]))
  }

  /** The payload limit in force: the caller's, when it is set and below the absolute one. */
  function Cap(maxPayload: u32): (c: nat)
    ensures c <= PAYLOAD_MAX
  {
    if maxPayload != 0 && maxPayload < PAYLOAD_MAX then maxPayload else PAYLOAD_MAX
  }

  /** The reserved flag bits are all but the low two. */
  function Decode(buf: seq<byte>, maxPayload: u32): (d: Decoded)
    ensures d.Good? ==> d.hdr.payloadLen <= Cap(maxPayload)
  {
    if |buf| < HDR_SIZE then Bad(Short)
    else
      var h := Fields(buf);
      if h.magic != MAGIC then Bad(BadMagic)
      else if h.version != VERSION then Bad(BadVersion)
      else if h.flags / 4 != 0 then Bad(BadFlags)
      else if h.payloadLen > Cap(maxPayload) then Bad(OverCap)
      else Good(h)
  }

  /** Where each field stands. */
  lemma EncodeLayout(h: Hdr)
    ensures var s := Encode(h);
            && At(s, 0, h.magic, 4) && s[4] == h.version && s[5] == h.flags && At(s, 6, h.origin, 2)
            && At(s, 8, h.payloadLen, 4) && At(s, 12, h.seqno, 4) && At(s, 16, h.tSend, 8)
  {
    var s := Encode(h);
    PutBetween([], h.magic, 4, s[4..]);
    PutBetween(s[..6], h.origin, 2, s[8..]);
    PutBetween(s[..8], h.payloadLen, 4, s[12..]);
    PutBetween(s[..12], h.seqno, 4, s[16..]);
    PutBetween(s[..16], h.tSend, 8, s[24..]);
    assert s == [] + Put(h.magic, 4) + s[4..] == s[..6] + Put(h.origin, 2) + s[8..];
    assert s == s[..8] + Put(h.payloadLen, 4) + s[12..] == s[..12] + Put(h.seqno, 4) + s[16..];
    assert s == s[..16] + Put(h.tSend, 8) + s[24..];
  }

  /** Every header, valid or not, is recovered from its bytes whatever follows them. */
  lemma FieldsEncode(h: Hdr, rest: seq<byte>)
    ensures Fields(Encode(h) + rest) == h
  {
    var s := Encode(h) + rest;
    Widths();
    assert s[0..4] == Put(h.magic, 4);
    assert s[6..8] == Put(h.origin, 2);
    assert s[8..12] == Put(h.payloadLen, 4);
    assert s[12..16] == Put(h.seqno, 4);
    assert s[16..24] == Put(h.tSend, 8);
    GetPut(h.magic, 4); GetPut(h.origin, 2); GetPut(h.payloadLen, 4); GetPut(h.seqno, 4); GetPut(h.tSend, 8);
  }

  /** And the bytes are recovered from the fields, so no two headers share an encoding. */
  lemma EncodeFields(buf: seq<byte>)
    requires |buf| >= HDR_SIZE
    ensures Encode(Fields(buf)) == buf[..HDR_SIZE]
  {
    PutGet(buf[0..4]); PutGet(buf[6..8]); PutGet(buf[8..12]); PutGet(buf[12..16]); PutGet(buf[16..24]);
    assert buf[..HDR_SIZE] == buf[0..4] + [buf[4], buf[5]] + buf[6..8] + buf[8..12] + buf[12..16] + buf[16..24];
  }

  predicate ValidHdr(h: Hdr, maxPayload: u32) {
    h.magic == MAGIC && h.version == VERSION && h.flags < 4 && h.payloadLen <= Cap(maxPayload)
  }

  /** Decoding accepts exactly the encodings of valid headers. */
  lemma DecodeExact(buf: seq<byte>, maxPayload: u32, h: Hdr)
    ensures Decode(buf, maxPayload) == Good(h) <==>
            ValidHdr(h, maxPayload) && |buf| >= HDR_SIZE && buf[..HDR_SIZE] == Encode(h)
  {
    if |buf| >= HDR_SIZE {
      EncodeFields(buf);
      FieldsEncode(h, buf[HDR_SIZE..]);
      assert buf == buf[..HDR_SIZE] + buf[HDR_SIZE..];
    }
  }

  /** Which refusal: too few bytes first, then the magic "URPB", version 1, the two known flags, and a payload within
      1 MiB and the caller's limit, if it set one. */
  lemma DecodeRefusals(buf: seq<byte>, maxPayload: u32)
    ensures var d := Decode(buf, maxPayload);
            && (d == Bad(Short) <==> |buf| < 24)
            && (|buf| >= 24 ==>
                  var magic := buf[..4] == [0x55, 0x52, 0x50, 0x42];
                  var len := Get(buf[8..12]);
                  var long := len > 1048576 || (maxPayload != 0 && len > maxPayload);
                  && (d == Bad(BadMagic) <==> !magic)
                  && (d == Bad(BadVersion) <==> magic && buf[4] != 1)
                  && (d == Bad(BadFlags) <==> magic && buf[4] == 1 && buf[5] >= 4)
                  && (d == Bad(OverCap) <==> magic && buf[4] == 1 && buf[5] < 4 && long))
  {
    if |buf| >= 24 {
      assert buf[..4] == buf[0..4];
      PutGet(buf[0..4]);
      MagicBytes();
    }
  }

  lemma MagicBytes()
    ensures Put(0x42505255, 4) == [0x55, 0x52, 0x50, 0x42] && Get([0x55, 0x52, 0x50, 0x42]) == 0x42505255
  {
    assert Put(0x42505255, 4) == [0x55] + Put(0x425052, 3);
    assert Put(0x425052, 3) == [0x52] + Put(0x4250, 2);
    assert Put(0x4250, 2) == [0x50] + Put(0x42, 1);
    assert Put(0x42, 1) == [0x42] + Put(0, 0);
    GetPut(0x42505255, 4);
  }

  /** Only the first 24 bytes decide. */
  lemma DecodePrefix(a: seq<byte>, b: seq<byte>, maxPayload: u32)
    requires |a| >= HDR_SIZE
    ensures Decode(a + b, maxPayload) == Decode(a, maxPayload)
  {
    var s := a + b;
    assert s[0..4] == a[0..4] && s[6..8] == a[6..8] && s[8..12] == a[8..12];
    assert s[12..16] == a[12..16] && s[16..24] == a[16..24];
  }
}
