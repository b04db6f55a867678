/** The laws of the benchmark deframer: chunk invariance, the print/parse round trip and the
    reassembly counter, for its own header decoder. */
module DeframeLaws {
  import opened Base
  import W = BenchWire
  import opened Deframe

  function ReaderFor(maxPayload: u32): Reader { s => W.Decode(s, maxPayload) }

  lemma ReaderIsLocal(maxPayload: u32)
    ensures Local(ReaderFor(maxPayload))
  {
    forall a: seq<byte>, b: seq<byte> | |a| >= W.HDR_SIZE
      ensures ReaderFor(maxPayload)(a + b) == ReaderFor(maxPayload)(a)
    {
      W.DecodePrefix(a, b, maxPayload);
    }
  }

  lemma ReaderIsFaithful(maxPayload: u32)
    ensures Faithful(ReaderFor(maxPayload))
  {
    forall s | ReaderFor(maxPayload)(s).Good?
      ensures |s| >= W.HDR_SIZE && s[..W.HDR_SIZE] == W.Encode(ReaderFor(maxPayload)(s).hdr)
    {
      W.DecodeExact(s, maxPayload, W.Decode(s, maxPayload).hdr);
    }
  }

  lemma ReaderFits(maxPayload: u32, asmCap: nat)
    requires asmCap >= W.Cap(maxPayload)
    ensures Fits(ReaderFor(maxPayload), asmCap)
  {
  }

  /** Chunk invariance: messages, their order, the first error and the leftover depend on the bytes alone. */
  lemma ChunkInvariance(chunks: seq<seq<byte>>, other: seq<seq<byte>>, maxPayload: u32, asmCap: nat)
    requires asmCap >= W.Cap(maxPayload) && Flatten(chunks) == Flatten(other)
    ensures Run([], chunks, ReaderFor(maxPayload), asmCap) == Run([], other, ReaderFor(maxPayload), asmCap)
    ensures Run([], chunks, ReaderFor(maxPayload), asmCap) == Parse(Flatten(chunks), ReaderFor(maxPayload))
  {
    var read := ReaderFor(maxPayload);
    ReaderIsLocal(maxPayload);
    ReaderFits(maxPayload, asmCap);
    RunIsParse([], chunks, read, asmCap);
    RunIsParse([], other, read, asmCap);
    assert [] + Flatten(chunks) == Flatten(chunks) && [] + Flatten(other) == Flatten(other);
  }

  /** A message one byte too long for the assembly buffer. */
  function TooLong(asmCap: nat): (m: Msg)
    requires asmCap < W.PAYLOAD_MAX
    ensures Size(m) == W.HDR_SIZE + asmCap + 1
  {
    Msg(W.Hdr(W.MAGIC, W.VERSION, 0, 0, asmCap + 1, 0, 0), seq(asmCap + 1, _ => 0))
  }

  lemma ReadsBack(m: Msg, maxPayload: u32)
    requires W.ValidHdr(m.hdr, maxPayload) && |m.payload| == m.hdr.payloadLen
    ensures Readable(m, ReaderFor(maxPayload))
    ensures ReaderFor(maxPayload)(Bytes(m)) == W.Good(m.hdr)
  {
    W.DecodeExact(W.Encode(m.hdr), maxPayload, m.hdr);
    W.DecodePrefix(W.Encode(m.hdr), m.payload, maxPayload);
  }

  /** Fed whole, a message is delivered in place whatever the assembly buffer holds. */
  lemma WholeIsDelivered(m: Msg, read: Reader, asmCap: nat)
    requires |m.payload| == m.hdr.payloadLen && read(Bytes(m)) == W.Good(m.hdr)
    ensures Feed([], Bytes(m), read, asmCap) == Parsed([m], More([]))
  {
    var s := Bytes(m);
    assert [] + s == s && MsgAt(s, m.hdr) == m && Beyond(s, m.hdr) == [];
    assert Feed([], [], read, asmCap) == Parsed([], More([]));
  }

  /** Fed in two pieces, it needs the assembly buffer. */
  lemma CutIsRefused(m: Msg, read: Reader, asmCap: nat)
    requires |m.payload| == m.hdr.payloadLen > asmCap && read(Bytes(m)) == W.Good(m.hdr)
    ensures Run([], [Bytes(m)[..1], Bytes(m)[1..]], read, asmCap) == Parsed([], Failed(W.OverCap))
  {
    var head, tail := Bytes(m)[..1], Bytes(m)[1..];
    assert [] + head == head && head + tail == Bytes(m);
    assert Feed([], head, read, asmCap) == Parsed([], More(head));
    assert Feed(head, tail, read, asmCap) == Parsed([], Failed(W.OverCap));
    assert [head, tail][1..] == [tail];
    assert Run(head, [tail], read, asmCap) == Parsed([], Failed(W.OverCap));
  }

  ghost predicate CutInvisible(chunks: seq<seq<byte>>, maxPayload: u32, asmCap: nat) {
    Run([], chunks, ReaderFor(maxPayload), asmCap) == Feed([], Flatten(chunks), ReaderFor(maxPayload), asmCap)
  }

  lemma SmallBufferShows(maxPayload: u32, asmCap: nat) returns (chunks: seq<seq<byte>>)
    requires asmCap < W.Cap(maxPayload)
    ensures !CutInvisible(chunks, maxPayload, asmCap)
  {
    var m := TooLong(asmCap);
    var s := Bytes(m);
    chunks := [s[..1], s[1..]];
    assert Flatten(chunks) == s by {
      assert chunks[1..] == [s[1..]] && Flatten(chunks[1..]) == s[1..] + Flatten([]);
    }
    ReadsBack(m, maxPayload);
    WholeIsDelivered(m, ReaderFor(maxPayload), asmCap);
    CutIsRefused(m, ReaderFor(maxPayload), asmCap);
  }

  lemma CoveringBufferHides(chunks: seq<seq<byte>>, maxPayload: u32, asmCap: nat)
    requires asmCap >= W.Cap(maxPayload)
    ensures CutInvisible(chunks, maxPayload, asmCap)
  {
    ReaderFits(maxPayload, asmCap);
    ChunkInvariance(chunks, chunks, maxPayload, asmCap);
    FeedIsParse([], Flatten(chunks), ReaderFor(maxPayload), asmCap);
    assert [] + Flatten(chunks) == Flatten(chunks);
  }

  /** Cutting is invisible exactly when the assembly buffer covers the payload limit in force. */
  lemma ChunkInvarianceExact(maxPayload: u32, asmCap: nat)
    ensures (forall chunks :: CutInvisible(chunks, maxPayload, asmCap)) <==> asmCap >= W.Cap(maxPayload)
  {
    if asmCap >= W.Cap(maxPayload) {
      forall chunks ensures CutInvisible(chunks, maxPayload, asmCap) {
        CoveringBufferHides(chunks, maxPayload, asmCap);
      }
    } else {
      var chunks := SmallBufferShows(maxPayload, asmCap);
    }
  }

  predicate ValidMsg(m: Msg, maxPayload: u32) { W.ValidHdr(m.hdr, maxPayload) && |m.payload| == m.hdr.payloadLen }

  /** Round trip: print any valid messages, cut the bytes anywhere, feed the pieces, get the messages back. */
  lemma RoundTrip(ms: seq<Msg>, chunks: seq<seq<byte>>, maxPayload: u32, asmCap: nat)
    requires asmCap >= W.Cap(maxPayload) && Flatten(chunks) == Print(ms)
    requires forall m :: m in ms ==> ValidMsg(m, maxPayload)
    ensures Run([], chunks, ReaderFor(maxPayload), asmCap) == Parsed(ms, More([]))
  {
    var read := ReaderFor(maxPayload);
    ReaderIsLocal(maxPayload);
    forall m | m in ms ensures Readable(m, read) { ReadsBack(m, maxPayload); }
    ChunkInvariance(chunks, chunks, maxPayload, asmCap);
    ParsePrint(ms, [], read);
    assert Print(ms) + [] == Print(ms) && ms + [] == ms;
  }

  /** Conversely, whatever a run delivers is a list of valid messages whose printed form, with the
      leftover, is the stream that was fed. */
  lemma DeliveredIsPrinted(chunks: seq<seq<byte>>, maxPayload: u32, asmCap: nat)
    requires asmCap >= W.Cap(maxPayload)
    ensures var p := Run([], chunks, ReaderFor(maxPayload), asmCap);
            && (forall m :: m in p.msgs ==> ValidMsg(m, maxPayload))
            && Spells(p, Flatten(chunks))
  {
    var read := ReaderFor(maxPayload);
    ReaderIsLocal(maxPayload);
    ReaderIsFaithful(maxPayload);
    ChunkInvariance(chunks, chunks, maxPayload, asmCap);
    PrintParse(Flatten(chunks), read);
    var ms := Parse(Flatten(chunks), read).msgs;
    forall m | m in ms ensures ValidMsg(m, maxPayload) {
      W.DecodeExact(W.Encode(m.hdr), maxPayload, m.hdr);
    }
  }

  /** msgs_reassembled is exactly the number of messages that a chunk boundary cuts in two. */
  lemma ReassembledCount(chunks: seq<seq<byte>>, maxPayload: u32, asmCap: nat)
    requires asmCap >= W.Cap(maxPayload)
    ensures RunSpanned([], chunks, ReaderFor(maxPayload), asmCap)
         == Straddlers(Run([], chunks, ReaderFor(maxPayload), asmCap).msgs, 0, Cuts(0, chunks))
  {
    ReaderIsLocal(maxPayload);
    ReaderFits(maxPayload, asmCap);
    CounterIsStraddlers(chunks, ReaderFor(maxPayload), asmCap);
  }
}
