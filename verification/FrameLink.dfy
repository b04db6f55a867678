/** A frame's way from one peer's chunks to the other's: read off the socket into the sender's chunks, headed,
    put on the wire entry by entry, landed in the receiver's chunks, and read back. */
module FrameLink {
  import opened Base
  import opened LittleEndian
  import opened Memory
  import opened Framing
  import Chunks

  datatype Header = Header(streamId: u32, seqno: u64, kind: byte, flags: byte, credits: u16, payloadLen: u32)

  function Encode(h: Header): (s: seq<byte>)
    ensures |s| == FRAME_HDR
  {
    Put(h.streamId, 4) + Put(h.seqno, 8) + [h.kind, h.flags] + Put(h.credits, 2) + Put(h.payloadLen, 4)
  }

  /** The per-field decoders, each reading at its own offset. */
  function Decode(buf: seq<byte>): Header
    requires |buf| >= FRAME_HDR
  {
    Widths();
    GetBound(buf[0..4]); GetBound(buf[4..12]); GetBound(buf[14..16]); GetBound(buf[16..20]);
    Header(Get(buf[0..4]), Get(buf[4..12]), buf[12], buf[13], Get(buf[14..16]), Get(buf[16..20]))
  }

  /** Where each field stands. */
  lemma EncodeLayout(h: Header)
    ensures var s := Encode(h);
            && At(s, 0, h.streamId, 4) && At(s, 4, h.seqno, 8) && s[12] == h.kind && s[13] == h.flags
            && At(s, 14, h.credits, 2) && At(s, 16, h.payloadLen, 4)
  {
    var s := Encode(h);
    PutBetween([], h.streamId, 4, s[4..]);
    PutBetween(s[..4], h.seqno, 8, s[12..]);
    PutBetween(s[..14], h.credits, 2, s[16..]);
    PutBetween(s[..16], h.payloadLen, 4, s[20..]);
    assert s == [] + Put(h.streamId, 4) + s[4..] == s[..4] + Put(h.seqno, 8) + s[12..];
    assert s == s[..14] + Put(h.credits, 2) + s[16..] == s[..16] + Put(h.payloadLen, 4) + s[20..];
  }

  lemma DecodeEncode(h: Header, rest: seq<byte>)
    ensures Decode(Encode(h) + rest) == h
  {
    var s := Encode(h) + rest;
    Widths();
    assert s[0..4] == Put(h.streamId, 4) && s[4..12] == Put(h.seqno, 8);
    assert s[14..16] == Put(h.credits, 2) && s[16..20] == Put(h.payloadLen, 4);
    GetPut(h.streamId, 4); GetPut(h.seqno, 8); GetPut(h.credits, 2); GetPut(h.payloadLen, 4);
  }

  lemma EncodeDecode(buf: seq<byte>)
    requires |buf| >= FRAME_HDR
    ensures Encode(Decode(buf)) == buf[..FRAME_HDR]
  {
    PutGet(buf[0..4]); PutGet(buf[4..12]); PutGet(buf[14..16]); PutGet(buf[16..20]);
    assert buf[..FRAME_HDR] == buf[0..4] + buf[4..12] + [buf[12], buf[13]] + buf[14..16] + buf[16..20];
  }

  /** A socket read into a kvec list: fill the named stretches in order until the bytes run out. */
  function Store(rows: Rows, kv: seq<Kvec>, bytes: seq<byte>, c: nat): (r: Rows)
    requires Chunked(rows, c) && InRows(kv, |rows|, c)
    ensures Chunked(r, c) && |r| == |rows|
    decreases |kv|
  {
    if kv == [] || bytes == [] then rows
    else
      var k := kv[0];
      var n := Min(k.len, |bytes|);
      Store(rows[k.chunk := Patch(rows[k.chunk], k.off, bytes[..n])], kv[1..], bytes[n..], c)
  }

  lemma StoreCons(rows: Rows, k: Kvec, rest: seq<Kvec>, bytes: seq<byte>, c: nat)
    requires Chunked(rows, c) && InRows(rest, |rows|, c) && InRows([k] + rest, |rows|, c) && bytes != []
    requires k.chunk < |rows| && k.off + k.len <= c
    ensures var n := Min(k.len, |bytes|);
            Store(rows, [k] + rest, bytes, c)
            == Store(rows[k.chunk := Patch(rows[k.chunk], k.off, bytes[..n])], rest, bytes[n..], c)
  {
  }

  /** Filling one chunk moves the front of a scatter on by one. */
  lemma ScatterStep(rows: Rows, j: nat, off: nat, bytes: seq<byte>, n: nat, c: nat)
    requires Chunked(rows, c) && off <= c && j < |rows| && bytes != [] && n == Min(c - off, |bytes|)
    ensures var rows' := rows[j := Patch(rows[j], off, bytes[..n])];
            rows[..j] + Scatter(rows[j..], off, bytes, c) == rows'[..j + 1] + Scatter(rows'[j + 1..], 0, bytes[n..], c)
  {
    var row := Patch(rows[j], off, bytes[..n]);
    var rows' := rows[j := row];
    var tail := Scatter(rows'[j + 1..], 0, bytes[n..], c);
    assert Scatter(rows[j..], off, bytes, c) == [row] + tail by { assert rows[j..][1..] == rows'[j + 1..]; }
    assert rows[..j] + ([row] + tail) == rows'[..j + 1] + tail;
  }

  /** Reading into the transmit list is scattering. */
  lemma {:induction false} StoreIsScatter(rows: Rows, j: nat, off: nat, len: nat, bytes: seq<byte>, c: nat)
    requires Chunked(rows, c) && off <= c && j <= |rows| && |bytes| <= len
    requires InRows(Kvecs(j, |rows|, c, off, len), |rows|, c)
    ensures Store(rows, Kvecs(j, |rows|, c, off, len), bytes, c) == rows[..j] + Scatter(rows[j..], off, bytes, c)
    decreases |rows| - j
  {
    if j == |rows| || bytes == [] {
      assert rows == rows[..j] + rows[j..];
    } else {
      var k := Min(len, c - off);
      var n := Min(k, |bytes|);
      var rest, rows' := Kvecs(j + 1, |rows|, c, 0, len - k), rows[j := Patch(rows[j], off, bytes[..n])];
      KvecsInRows(j + 1, |rows|, c, 0, len - k);
      StoreCons(rows, Kvec(j, off, k), rest, bytes, c);
      StoreIsScatter(rows', j + 1, 0, len - k, bytes[n..], c);
      ScatterStep(rows, j, off, bytes, n, c);
    }
  }

  /** The sender's chunks once `payload` was read and the header written over the front of chunk 0. */
  function Framed(rows: Rows, c: nat, maxPayload: nat, payload: seq<byte>, h: Header): (r: Rows)
    requires Chunked(rows, c) && rows != [] && FRAME_HDR <= c
    ensures Chunked(r, c) && |r| == |rows|
  {
    KvecsInRows(0, |rows|, c, FRAME_HDR, maxPayload);
    var filled := Store(rows, Kvecs(0, |rows|, c, FRAME_HDR, maxPayload), payload, c);
    filled[0 := Patch(filled[0], 0, Encode(h))]
  }

  lemma PatchFirst(rows: Rows, c: nat, bytes: seq<byte>)
    requires Chunked(rows, c) && rows != [] && |bytes| <= c
    ensures |Flatten(rows)| >= |bytes|
    ensures Flatten(rows[0 := Patch(rows[0], 0, bytes)]) == Patch(Flatten(rows), 0, bytes)
  {
  }

  lemma PatchTwice(flat: seq<byte>, head: seq<byte>, body: seq<byte>)
    requires |head| + |body| <= |flat|
    ensures Patch(Patch(flat, |head|, body), 0, head)[..|head| + |body|] == head + body
  {
  }

  /** Header, payload, and then whatever the slot held before. */
  lemma FramedBytes(rows: Rows, c: nat, maxPayload: nat, payload: seq<byte>, h: Header)
    requires Chunked(rows, c) && rows != [] && FRAME_HDR <= c && |payload| <= maxPayload
    requires FRAME_HDR + |payload| <= |Flatten(rows)|
    ensures |Flatten(Framed(rows, c, maxPayload, payload, h))| == |Flatten(rows)|
    ensures Flatten(Framed(rows, c, maxPayload, payload, h))[..FRAME_HDR + |payload|] == Encode(h) + payload
  {
    KvecsInRows(0, |rows|, c, FRAME_HDR, maxPayload);
    var filled := Store(rows, Kvecs(0, |rows|, c, FRAME_HDR, maxPayload), payload, c);
    assert filled == Scatter(rows, FRAME_HDR, payload, c) by {
      StoreIsScatter(rows, 0, FRAME_HDR, maxPayload, payload, c);
      assert rows[0..] == rows;
    }
    ScatterIsPatch(rows, FRAME_HDR, payload, c);
    PatchFirst(filled, c, Encode(h));
    PatchTwice(Flatten(rows), Encode(h), payload);
  }

  /** What urp_post_frame sends: exactly the header and the payload. */
  lemma SentBytes(rows: Rows, c: nat, maxPayload: nat, payload: seq<byte>, h: Header)
    requires Chunked(rows, c) && rows != [] && FRAME_HDR <= c && |payload| <= maxPayload
    requires FRAME_HDR + |payload| <= |rows| * c
    ensures var framed := Framed(rows, c, maxPayload, payload, h);
            var lens := SendLens(|rows|, c, FRAME_HDR + |payload|);
            Within(lens, |rows|, c) && Wire(framed, lens, c) == Encode(h) + payload
  {
    var framed := Framed(rows, c, maxPayload, payload, h);
    FlatSize(rows, c);
    FlatSize(framed, c);
    LensWithin(|rows|, c, FRAME_HDR + |payload|);
    FramedBytes(rows, c, maxPayload, payload, h);
    WireIsPrefix(framed, FRAME_HDR + |payload|, c);
  }

  lemma FirstRow(rows: Rows, c: nat, front: seq<byte>)
    requires Chunked(rows, c) && rows != [] && |front| <= |Flatten(rows)| && Flatten(rows)[..|front|] == front
    ensures forall i :: 0 <= i < Min(c, |front|) ==> rows[0][i] == front[i]
  {
  }

  /** Chunks whose bytes begin with a header and a payload give the header back from chunk 0. */
  lemma HeaderReads(rows: Rows, c: nat, payload: seq<byte>, h: Header)
    requires Chunked(rows, c) && rows != [] && FRAME_HDR <= c && Encode(h) + payload <= Flatten(rows)
    ensures Decode(rows[0]) == h
    ensures FRAME_HDR + |payload| <= c ==> rows[0][FRAME_HDR..FRAME_HDR + |payload|] == payload
  {
    FirstRow(rows, c, Encode(h) + payload);
    assert rows[0] == Encode(h) + rows[0][FRAME_HDR..];
    DecodeEncode(h, rows[0][FRAME_HDR..]);
  }

  /** And the payload, by the gather and by the kvec list. */
  lemma PayloadReads(rows: Rows, c: nat, payload: seq<byte>, h: Header)
    requires Chunked(rows, c) && rows != [] && FRAME_HDR <= c && Encode(h) + payload <= Flatten(rows)
    ensures Gather(rows, FRAME_HDR, |payload|, c) == payload
    ensures var kv := Kvecs(0, |rows|, c, FRAME_HDR, |payload|);
            InRows(kv, |rows|, c) && |kv| <= |rows| && Named(rows, kv, c) == payload
  {
    GatherIsSlice(rows, FRAME_HDR, |payload|, c);
    assert Flatten(rows)[FRAME_HDR..FRAME_HDR + |payload|] == payload;
    KvecsInRows(0, |rows|, c, FRAME_HDR, |payload|);
    KvecsNameGather(rows, 0, FRAME_HDR, |payload|, c);
    assert rows[0..] == rows;
  }

  /** A frame landed in the receiver's chunks reads back as its header and its payload, by the gather, by the
      bypass's kvec list, and straight from chunk 0 when it fits there. */
  lemma LandedBytes(rows: Rows, c: nat, size: nat, payload: seq<byte>, h: Header)
    requires Chunked(rows, c) && rows != [] && FRAME_HDR <= c && h.payloadLen == |payload|
    requires FRAME_HDR + |payload| <= size <= |rows| * c && Within(RecvLens(|rows|, c, size), |rows|, c)
    ensures var landed := Land(rows, RecvLens(|rows|, c, size), Encode(h) + payload, c);
            var kv := Kvecs(0, |rows|, c, FRAME_HDR, h.payloadLen);
            && Decode(landed[0]) == h
            && Gather(landed, FRAME_HDR, h.payloadLen, c) == payload
            && InRows(kv, |rows|, c) && Named(landed, kv, c) == payload
            && (FRAME_HDR + h.payloadLen <= c ==> landed[0][FRAME_HDR..FRAME_HDR + h.payloadLen] == payload)
  {
    var wire := Encode(h) + payload;
    var landed := Land(rows, RecvLens(|rows|, c, size), wire, c);
    assert wire <= Flatten(landed) by {
      FlatSize(rows, c);
      LandIsPatch(rows, size, wire, c);
    }
    HeaderReads(landed, c, payload, h);
    PayloadReads(landed, c, payload, h);
  }

  /** Geometry independence: whatever the two peers' slot sizes, chunk sizes and chunk counts, a payload that
      fits both slots arrives unchanged, with its header. */
  lemma FrameTransfer(from: Rows, c: nat, size: nat, into: Rows, c': nat, size': nat, payload: seq<byte>, h: Header)
    requires Chunked(from, c) && from != [] && FRAME_HDR <= c && size <= |from| * c
    requires Chunked(into, c') && into != [] && FRAME_HDR <= c' && size' <= |into| * c'
    requires h.payloadLen == |payload| && FRAME_HDR + |payload| <= Min(size, size')
    ensures var lens, lens' := SendLens(|from|, c, FRAME_HDR + |payload|), RecvLens(|into|, c', size');
            && Within(lens, |from|, c) && Within(lens', |into|, c') && Sum(lens') == size'
            && var landed := Land(into, lens', Wire(Framed(from, c, size - FRAME_HDR, payload, h), lens, c), c');
               && Decode(landed[0]) == h && Gather(landed, FRAME_HDR, h.payloadLen, c') == payload
               && InRows(Kvecs(0, |into|, c', FRAME_HDR, h.payloadLen), |into|, c')
               && Named(landed, Kvecs(0, |into|, c', FRAME_HDR, h.payloadLen), c') == payload
  {
    SentBytes(from, c, size - FRAME_HDR, payload, h);
    LensWithin(|into|, c', size');
    RecvLensSum(|into|, c', size');
    LandedBytes(into, c', size', payload, h);
  }

  /** In particular between any two geometries the resolver picks, for every page size and entry budget. */
  lemma ResolvedTransfer(from: Rows, size: nat, budget: nat, page: nat, k: nat,
                         into: Rows, size': nat, budget': nat, page': nat, k': nat, payload: seq<byte>, h: Header)
    requires page >= FRAME_HDR && page' >= FRAME_HDR && size > 0 && size' > 0
    requires Chunks.Geometry(size, budget, page, |from|, k) && Chunked(from, Chunks.ChunkAt(page, k))
    requires Chunks.Geometry(size', budget', page', |into|, k') && Chunked(into, Chunks.ChunkAt(page', k'))
    requires h.payloadLen == |payload| && FRAME_HDR + |payload| <= Min(size, size')
    ensures var c, c' := Chunks.ChunkAt(page, k), Chunks.ChunkAt(page', k');
            var lens, lens' := SendLens(|from|, c, FRAME_HDR + |payload|), RecvLens(|into|, c', size');
            && |lens| <= budget && |lens'| <= budget' && Within(lens, |from|, c) && Within(lens', |into|, c')
            && var landed := Land(into, lens', Wire(Framed(from, c, size - FRAME_HDR, payload, h), lens, c), c');
               && Decode(landed[0]) == h && Gather(landed, FRAME_HDR, h.payloadLen, c') == payload
               && InRows(Kvecs(0, |into|, c', FRAME_HDR, h.payloadLen), |into|, c')
               && Named(landed, Kvecs(0, |into|, c', FRAME_HDR, h.payloadLen), c') == payload
  {
    FrameTransfer(from, Chunks.ChunkAt(page, k), size, into, Chunks.ChunkAt(page', k'), size', payload, h);
  }
}
