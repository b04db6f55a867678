/** The incremental deframer of the C core, with the steps its Rust twin shares: a header staging buffer, an assembly
    buffer and a two-state loop over each chunk, with a fast path for messages that lie wholly inside it. */
module Deframer {
  import opened Base
  import opened Memory
  import W = BenchWire
  import opened Deframe
  import opened DeframeLaws

  datatype Phase = WantHdr | WantPayload

  /** Moving bytes from the chunk to the staging area changes nothing, unless a whole message is in the chunk alone. */
  lemma Stage(staged: seq<byte>, chunk: seq<byte>, k: nat, read: Reader, asmCap: nat)
    requires k <= |chunk|
    requires staged != [] || |chunk| < W.HDR_SIZE || (read(chunk).Good? && !Complete(chunk, read(chunk).hdr))
    ensures Feed(staged, chunk, read, asmCap) == Feed(staged + chunk[..k], chunk[k..], read, asmCap)
    ensures Kept(staged, chunk, read, asmCap) == Kept(staged + chunk[..k], chunk[k..], read, asmCap)
    ensures Spanned(staged, Feed(staged, chunk, read, asmCap).msgs)
         == Spanned(staged + chunk[..k], Feed(staged + chunk[..k], chunk[k..], read, asmCap).msgs)
  {
    assert (staged + chunk[..k]) + chunk[k..] == staged + chunk;
    assert staged == [] ==> staged + chunk == chunk;
  }

  /** A message completed in the staging area is delivered, and counted as spanning. */
  lemma StagedMessage(staged: seq<byte>, chunk: seq<byte>, read: Reader, asmCap: nat, h: W.Hdr)
    requires Local(read) && |staged| == W.HDR_SIZE + h.payloadLen && h.payloadLen <= asmCap
    requires read(staged[..W.HDR_SIZE]) == W.Good(h)
    ensures Feed(staged, chunk, read, asmCap) == Cons(Msg(h, staged[W.HDR_SIZE..]), Feed([], chunk, read, asmCap))
    ensures Kept(staged, chunk, read, asmCap) == Kept([], chunk, read, asmCap)
  {
    var s := staged + chunk;
    assert s == staged[..W.HDR_SIZE] + (staged[W.HDR_SIZE..] + chunk);
    assert read(s) == W.Good(h);
    assert Beyond(s, h) == chunk && MsgAt(s, h) == Msg(h, staged[W.HDR_SIZE..]);
  }

  /** A message wholly inside the chunk is delivered in place. */
  lemma WholeMessage(chunk: seq<byte>, read: Reader, asmCap: nat, h: W.Hdr)
    requires |chunk| >= W.HDR_SIZE && read(chunk) == W.Good(h) && Complete(chunk, h)
    ensures Feed([], chunk, read, asmCap) == Cons(MsgAt(chunk, h), Feed([], Beyond(chunk, h), read, asmCap))
    ensures Kept([], chunk, read, asmCap) == Kept([], Beyond(chunk, h), read, asmCap)
  {
    assert [] + chunk == chunk;
  }

  /** From staged bytes `st` and unread bytes `rest`, delivering `out` and counting `spans` of them as
      spanning leads to `st1` and `rest1` without changing what will have been delivered and kept in all. */
  ghost predicate Step(st: seq<byte>, rest: seq<byte>, out: seq<Msg>, spans: int, st1: seq<byte>, rest1: seq<byte>,
                       read: Reader, asmCap: nat)
  {
    var before, after := Feed(st, rest, read, asmCap), Feed(st1, rest1, read, asmCap);
    && before == Prepend(out, after) && Spanned(st, before.msgs) == spans + Spanned(st1, after.msgs)
    && Kept(st, rest, read, asmCap) == Kept(st1, rest1, read, asmCap)
  }

  /** A bad header at the front of the chunk fails the feed. */
  lemma BadHeader(chunk: seq<byte>, read: Reader, asmCap: nat, e: W.DecodeError)
    requires |chunk| >= W.HDR_SIZE && read(chunk) == W.Bad(e)
    ensures Feed([], chunk, read, asmCap) == Parsed([], Failed(e)) && Kept([], chunk, read, asmCap) == []
  {
    assert [] + chunk == chunk;
  }

  lemma NoStep(st: seq<byte>, rest: seq<byte>, read: Reader, asmCap: nat)
    ensures Step(st, rest, [], 0, st, rest, read, asmCap)
  {
  }

  lemma StepThenStep(st: seq<byte>, rest: seq<byte>, out: seq<Msg>, spans: int, st1: seq<byte>, rest1: seq<byte>,
                     out1: seq<Msg>, spans1: int, st2: seq<byte>, rest2: seq<byte>, read: Reader, asmCap: nat)
    requires Step(st, rest, out, spans, st1, rest1, read, asmCap)
    requires Step(st1, rest1, out1, spans1, st2, rest2, read, asmCap)
    ensures Step(st, rest, out + out1, spans + spans1, st2, rest2, read, asmCap)
  {
  }

  lemma StageStep(staged: seq<byte>, chunk: seq<byte>, k: nat, read: Reader, asmCap: nat)
    requires k <= |chunk|
    requires staged != [] || |chunk| < W.HDR_SIZE || (read(chunk).Good? && !Complete(chunk, read(chunk).hdr))
    ensures Step(staged, chunk, [], 0, staged + chunk[..k], chunk[k..], read, asmCap)
  {
    Stage(staged, chunk, k, read, asmCap);
    var p := Feed(staged, chunk, read, asmCap);
    assert [] + p.msgs == p.msgs;
  }

  lemma StagedMessageStep(staged: seq<byte>, chunk: seq<byte>, read: Reader, asmCap: nat, h: W.Hdr)
    requires Local(read) && |staged| == W.HDR_SIZE + h.payloadLen && h.payloadLen <= asmCap
    requires read(staged[..W.HDR_SIZE]) == W.Good(h)
    ensures Step(staged, chunk, [Msg(h, staged[W.HDR_SIZE..])], 1, [], chunk, read, asmCap)
  {
    StagedMessage(staged, chunk, read, asmCap, h);
  }

  lemma WholeMessageStep(chunk: seq<byte>, read: Reader, asmCap: nat, h: W.Hdr)
    requires |chunk| >= W.HDR_SIZE && read(chunk) == W.Good(h) && Complete(chunk, h)
    ensures Step([], chunk, [MsgAt(chunk, h)], 0, [], Beyond(chunk, h), read, asmCap)
  {
    WholeMessage(chunk, read, asmCap, h);
  }

  /** The last `k` missing bytes of a staged message arrive. */
  lemma FinishStep(st: seq<byte>, rest: seq<byte>, k: nat, read: Reader, asmCap: nat, h: W.Hdr)
    requires Local(read) && |st| >= W.HDR_SIZE && read(st[..W.HDR_SIZE]) == W.Good(h) && h.payloadLen <= asmCap
    requires k <= |rest| && |st| + k == W.HDR_SIZE + h.payloadLen
    ensures Step(st, rest, [Msg(h, st[W.HDR_SIZE..] + rest[..k])], 1, [], rest[k..], read, asmCap)
  {
    var mid := st + rest[..k];
    assert mid[..W.HDR_SIZE] == st[..W.HDR_SIZE] && mid[W.HDR_SIZE..] == st[W.HDR_SIZE..] + rest[..k];
    StageStep(st, rest, k, read, asmCap);
    StagedMessageStep(mid, rest[k..], read, asmCap, h);
    var out := [Msg(h, mid[W.HDR_SIZE..])];
    StepThenStep(st, rest, [], 0, mid, rest[k..], out, 1, [], rest[k..], read, asmCap);
    assert [] + out == out;
  }

  /** Staging alone, and then a step or a failure. */
  lemma QuietThenStep(st: seq<byte>, rest: seq<byte>, st1: seq<byte>, rest1: seq<byte>, out: seq<Msg>, spans: int,
                      st2: seq<byte>, rest2: seq<byte>, read: Reader, asmCap: nat)
    requires Step(st, rest, [], 0, st1, rest1, read, asmCap) && Step(st1, rest1, out, spans, st2, rest2, read, asmCap)
    ensures Step(st, rest, out, spans, st2, rest2, read, asmCap)
  {
    StepThenStep(st, rest, [], 0, st1, rest1, out, spans, st2, rest2, read, asmCap);
    assert [] + out == out;
  }

  /** Nothing is delivered, the header is refused and `st1` stays staged. */
  ghost predicate Fails(st: seq<byte>, rest: seq<byte>, st1: seq<byte>, read: Reader, asmCap: nat, e: W.DecodeError) {
    Feed(st, rest, read, asmCap) == Parsed([], Failed(e)) && Kept(st, rest, read, asmCap) == st1
  }

  lemma QuietThenFails(st: seq<byte>, rest: seq<byte>, st1: seq<byte>, rest1: seq<byte>, read: Reader, asmCap: nat,
                       e: W.DecodeError)
    requires Step(st, rest, [], 0, st1, rest1, read, asmCap) && Fails(st1, rest1, st1, read, asmCap, e)
    ensures Fails(st, rest, st1, read, asmCap, e)
  {
  }

  // ---- a whole feed ----

  /** What can stop a feed: a header that does not decode or fit, or a callback. */
  datatype FeedError = BadStream(error: W.DecodeError) | CallbackFailed

  /** Of `n` messages, the one whose callback fails is among them. */
  predicate Aborts(failAt: Option<nat>, n: nat) { failAt.Some? && failAt.value < n }

  function ErrorOf(end: End): Option<FeedError> { match end case More(_) => None case Failed(e) => Some(BadStream(e)) }

  /** How a feed ends whose chunk would give `p` and keep `kept`: a failing callback is the last to see a message and
      leaves nothing staged; otherwise messages and error are those of `p`, and `kept` stays staged. */
  ghost predicate FeedEnds(p: Parsed, kept: seq<byte>, failAt: Option<nat>, msgs: seq<Msg>, err: Option<FeedError>,
                           staged: seq<byte>)
  {
    if Aborts(failAt, |p.msgs|) then err == Some(CallbackFailed) && msgs == p.msgs[..failAt.value + 1] && staged == []
    else msgs == p.msgs && err == ErrorOf(p.end) && staged == kept
  }

  lemma PrependTwice(a: seq<Msg>, b: seq<Msg>, p: Parsed)
    ensures Prepend(a, Prepend(b, p)) == Prepend(a + b, p)
  {
  }

  /** A step of a loop that has delivered `msgs`. */
  lemma Continues(st: seq<byte>, rest: seq<byte>, out: seq<Msg>, spans: int, st1: seq<byte>, rest1: seq<byte>,
                  read: Reader, asmCap: nat, msgs: seq<Msg>)
    requires Step(st, rest, out, spans, st1, rest1, read, asmCap)
    ensures var todo, todo1 := Feed(st, rest, read, asmCap), Feed(st1, rest1, read, asmCap);
            && Prepend(msgs, todo) == Prepend(msgs + out, todo1)
            && Spanned(st, todo.msgs) == spans + Spanned(st1, todo1.msgs)
            && Kept(st, rest, read, asmCap) == Kept(st1, rest1, read, asmCap)
  {
    PrependTwice(msgs, out, Feed(st1, rest1, read, asmCap));
  }

  lemma EndFails(goal: Parsed, kept: seq<byte>, failAt: Option<nat>, msgs: seq<Msg>, e: W.DecodeError)
    requires goal == Prepend(msgs, Parsed([], Failed(e))) && !Aborts(failAt, |msgs|)
    ensures goal.msgs == msgs && FeedEnds(goal, kept, failAt, msgs, Some(BadStream(e)), kept)
  {
  }

  /** The callback of the last message failed. */
  lemma EndStops(goal: Parsed, kept: seq<byte>, failAt: Option<nat>, msgs: seq<Msg>, todo: Parsed)
    requires goal == Prepend(msgs, todo) && failAt.Some? && |msgs| == failAt.value + 1
    ensures goal.msgs != [] && FeedEnds(goal, kept, failAt, msgs, Some(CallbackFailed), [])
  {
  }

  /** The chunk is used up. */
  lemma EndWaits(goal: Parsed, failAt: Option<nat>, msgs: seq<Msg>, st: seq<byte>, read: Reader, asmCap: nat)
    requires goal == Prepend(msgs, Feed(st, [], read, asmCap)) && Waiting(st, read, asmCap) && !Aborts(failAt, |msgs|)
    ensures Feed(st, [], read, asmCap).msgs == [] && goal.msgs == msgs
    ensures FeedEnds(goal, Kept(st, [], read, asmCap), failAt, msgs, None, st)
  {
    assert st + [] == st;
    assert msgs + [] == msgs;
  }

  lemma NothingFed(st: seq<byte>, read: Reader, asmCap: nat, failAt: Option<nat>)
    requires Waiting(st, read, asmCap)
    ensures FeedEnds(Feed(st, [], read, asmCap), Kept(st, [], read, asmCap), failAt, [], None, st)
  {
    assert st + [] == st;
  }

  /** One more chunk of a run. */
  lemma RunTurn(st: seq<byte>, chunks: seq<seq<byte>>, msgs: seq<Msg>, read: Reader, asmCap: nat)
    requires chunks != []
    ensures var p := Feed(st, chunks[0], read, asmCap);
            && Prepend(msgs, Run(st, chunks, read, asmCap))
               == (if p.end.Failed? then Prepend(msgs, p)
                   else Prepend(msgs + p.msgs, Run(p.end.rest, chunks[1..], read, asmCap)))
            && RunSpanned(st, chunks, read, asmCap)
               == Spanned(st, p.msgs) + if p.end.Failed? then 0 else RunSpanned(p.end.rest, chunks[1..], read, asmCap)
  {
    var p := Feed(st, chunks[0], read, asmCap);
    if p.end.More? { PrependTwice(msgs, p.msgs, Run(p.end.rest, chunks[1..], read, asmCap)); }
  }

  lemma KeptMeansFor(st: seq<byte>, chunk: seq<byte>, maxPayload: u32, asmCap: nat)
    ensures var p := Feed(st, chunk, ReaderFor(maxPayload), asmCap);
            p.end.More? ==> Kept(st, chunk, ReaderFor(maxPayload), asmCap) == p.end.rest
  {
    ReaderIsLocal(maxPayload);
    KeptMeans(st, chunk, ReaderFor(maxPayload), asmCap);
  }

  /** The chunk begins with part of a message. */
  predicate Cut(rest: seq<byte>, maxPayload: u32) {
    |rest| < W.HDR_SIZE || (W.Decode(rest, maxPayload).Good? && !Complete(rest, W.Decode(rest, maxPayload).hdr))
  }

  /** A whole header that cannot be accepted. */
  predicate BadHdr(hdr: seq<byte>, maxPayload: u32, asmCap: nat) {
    W.Decode(hdr, maxPayload).Bad? || W.Decode(hdr, maxPayload).hdr.payloadLen > asmCap
  }

  /** Staged bytes alone deliver nothing. */
  ghost predicate Waiting(st: seq<byte>, read: Reader, asmCap: nat) {
    |st| >= W.HDR_SIZE ==> read(st).Good? && !Complete(st, read(st).hdr) && read(st).hdr.payloadLen <= asmCap
  }

  class CDeframer {
    const hdrBuf: array<byte>
    const asmBuf: array<byte>
    const maxPayload: u32
    var state: Phase
    var hdrHave: nat
    var hdr: W.Hdr
    var asmHave: nat
    var msgsTotal: nat
    var msgsReassembled: nat

    /** A refused header is staged. */
    predicate Poisoned()
      reads this
    {
      state == WantHdr && hdrHave == W.HDR_SIZE
    }

    ghost predicate Valid()
      reads this, hdrBuf, asmBuf
    {
      && hdrBuf != asmBuf && hdrBuf.Length == W.HDR_SIZE
      && (state == WantHdr ==> hdrHave <= W.HDR_SIZE && (Poisoned() ==> BadHdr(hdrBuf[..], maxPayload, asmBuf.Length)))
      && (state == WantPayload ==>
            && hdrHave == W.HDR_SIZE && W.Decode(hdrBuf[..], maxPayload) == W.Good(hdr)
            && asmHave < hdr.payloadLen <= asmBuf.Length)
    }

    /** The bytes of the unfinished message, wherever they wait. */
    ghost function Staged(): seq<byte>
      requires Valid()
      reads this, hdrBuf, asmBuf
    {
      if state == WantHdr then hdrBuf[..hdrHave] else hdrBuf[..] + asmBuf[..asmHave]
    }

    constructor (asmCap: nat, maxPayload: u32)
      ensures Valid() && Staged() == [] && msgsTotal == 0 && msgsReassembled == 0
      ensures asmBuf.Length == asmCap && this.maxPayload == maxPayload && fresh(hdrBuf) && fresh(asmBuf)
    {
      hdrBuf := new byte[W.HDR_SIZE];
      asmBuf := new byte[asmCap];
      this.maxPayload := maxPayload;
      state, hdrHave, asmHave, msgsTotal, msgsReassembled := WantHdr, 0, 0, 0, 0;
      hdr := W.Hdr(0, 0, 0, 0, 0, 0, 0);
    }

    /** Count a message and get ready for the next header. */
    method Deliver(reassembled: bool)
      requires hdrBuf != asmBuf && hdrBuf.Length == W.HDR_SIZE
      modifies this
      ensures Valid() && Staged() == []
      ensures msgsTotal == old(msgsTotal) + 1
      ensures msgsReassembled == old(msgsReassembled) + if reassembled then 1 else 0
    {
      msgsTotal := msgsTotal + 1;
      if reassembled {
        msgsReassembled := msgsReassembled + 1;
      }
      state, hdrHave, asmHave := WantHdr, 0, 0;
    }

    /** Copy header bytes aside. */
    method StageHeader(rest: seq<byte>) returns (took: nat)
      requires Valid() && state == WantHdr && rest != []
      modifies this`hdrHave, hdrBuf
      ensures took <= |rest| && hdrHave <= W.HDR_SIZE && (took == 0 <==> old(Poisoned()))
      ensures hdrHave < W.HDR_SIZE ==> took == |rest|
      ensures hdrBuf[..hdrHave] == old(Staged()) + rest[..took]
    {
      took := Min(W.HDR_SIZE - hdrHave, |rest|);
      CopyInto(hdrBuf, hdrHave, rest[..took]);
      hdrHave := hdrHave + took;
    }

    /** All 24 header bytes are staged: decode them and make room for the payload. */
    method AcceptHeader(ghost rest: seq<byte>) returns (out: seq<Msg>, err: Option<W.DecodeError>)
      requires hdrBuf != asmBuf && hdrBuf.Length == hdrHave == W.HDR_SIZE && state == WantHdr
      modifies this
      ensures msgsTotal == old(msgsTotal) + |out|
      ensures Valid() && (err.Some? <==> Poisoned()) && (err.Some? <==> BadHdr(hdrBuf[..], maxPayload, asmBuf.Length))
      ensures err.None? ==> Step(hdrBuf[..], rest, out, msgsReassembled - old(msgsReassembled), Staged(), rest,
                                 ReaderFor(maxPayload), asmBuf.Length)
      ensures err.Some? ==> msgsReassembled == old(msgsReassembled) && out == []
      ensures err.None? && out != [] ==> |out| == 1 && Staged() == []
      ensures err.Some? ==> Fails(hdrBuf[..], rest, hdrBuf[..], ReaderFor(maxPayload), asmBuf.Length, err.value)
    {
      ghost var read, cap, st := ReaderFor(maxPayload), asmBuf.Length, hdrBuf[..];
      ReaderIsLocal(maxPayload);
      var d := W.Decode(hdrBuf[..], maxPayload);
      assert read(st) == d;
      if d.Bad? {
        RefusedAgain(st, rest, read, cap, d.error);
        return [], Some(d.error);
      }
      hdr := d.hdr;
      if hdr.payloadLen > asmBuf.Length {
        RefusedAgain(st, rest, read, cap, W.OverCap);
        return [], Some(W.OverCap);
      }
      out, err := [], None;
      state, asmHave := WantPayload, 0;
      if hdr.payloadLen == 0 {
        out := [Msg(hdr, [])];
        assert st[W.HDR_SIZE..] == [] && st[..W.HDR_SIZE] == st;
        StagedMessageStep(st, rest, read, cap, hdr);
        Deliver(true);
      } else {
        assert Staged() == st;
        NoStep(st, rest, read, cap);
      }
    }

    /** Copy payload bytes aside. */
    method FillPayload(rest: seq<byte>) returns (took: nat)
      requires Valid() && state == WantPayload && rest != []
      modifies this`asmHave, asmBuf
      ensures 0 < took <= |rest| && asmHave == old(asmHave) + took <= hdr.payloadLen
      ensures asmBuf[..asmHave] == old(asmBuf[..asmHave]) + rest[..took]
    {
      took := Min(hdr.payloadLen - asmHave, |rest|);
      CopyInto(asmBuf, asmHave, rest[..took]);
      asmHave := asmHave + took;
    }

    /** Deliver the message whose last bytes, the first `took` of `rest`, have just joined the staged ones. */
    method DeliverAssembled(ghost st: seq<byte>, ghost rest: seq<byte>, ghost took: nat) returns (out: seq<Msg>)
      requires hdrBuf != asmBuf && hdrBuf.Length == W.HDR_SIZE && W.Decode(hdrBuf[..], maxPayload) == W.Good(hdr)
      requires |st| >= W.HDR_SIZE && st[..W.HDR_SIZE] == hdrBuf[..] && took <= |rest|
      requires asmHave == hdr.payloadLen <= asmBuf.Length && asmBuf[..asmHave] == st[W.HDR_SIZE..] + rest[..took]
      modifies this
      ensures Valid() && Staged() == [] && |out| == 1
      ensures msgsTotal == old(msgsTotal) + 1 && msgsReassembled == old(msgsReassembled) + 1
      ensures Step(st, rest, out, 1, [], rest[took..], ReaderFor(maxPayload), asmBuf.Length)
    {
      ReaderIsLocal(maxPayload);
      FinishStep(st, rest, took, ReaderFor(maxPayload), asmBuf.Length, hdr);
      out := [Msg(hdr, asmBuf[..hdr.payloadLen])];
      Deliver(true);
    }

    /** Stage payload bytes; deliver from the assembly buffer once they are all there. */
    method StagePayload(rest: seq<byte>) returns (took: nat, out: seq<Msg>)
      requires Valid() && state == WantPayload && rest != []
      modifies this, asmBuf
      ensures 0 < took <= |rest| && Valid() && !Poisoned()
      ensures msgsTotal == old(msgsTotal) + |out| && (out != [] ==> |out| == 1 && Staged() == [])
      ensures Step(old(Staged()), rest, out, msgsReassembled - old(msgsReassembled), Staged(), rest[took..],
                   ReaderFor(maxPayload), asmBuf.Length)
    {
      ghost var st := Staged();
      assert st[..W.HDR_SIZE] == hdrBuf[..] && st[W.HDR_SIZE..] == asmBuf[..asmHave];
      took := FillPayload(rest);
      if asmHave < hdr.payloadLen {
        StageStep(st, rest, took, ReaderFor(maxPayload), asmBuf.Length);
        ghost var now := Staged();
        assert now == st + rest[..took];
        return took, [];
      }
      out := DeliverAssembled(st, rest, took);
    }

    /** Fast path: nothing is staged and at least a header is at hand. A message that lies wholly in the
        chunk is delivered in place; `took` is 0 when its payload does not. */
    method TakeWhole(rest: seq<byte>) returns (took: nat, out: seq<Msg>, err: Option<W.DecodeError>)
      requires Valid() && state == WantHdr && hdrHave == 0 && |rest| >= W.HDR_SIZE
      modifies this
      ensures Valid() && Staged() == [] && took <= |rest| && msgsTotal == old(msgsTotal) + |out|
      ensures msgsReassembled == old(msgsReassembled) && state == WantHdr && hdrHave == 0
      ensures err.Some? ==> out == [] && Fails([], rest, [], ReaderFor(maxPayload), asmBuf.Length, err.value)
      ensures took != 0 ==> Step([], rest, out, 0, [], rest[took..], ReaderFor(maxPayload), asmBuf.Length)
      ensures |out| <= 1 && (took == 0 && err.None? ==> out == [])
      ensures took == 0 && err.None? ==> Cut(rest, maxPayload)
    {
      took, out, err := 0, [], None;
      var d := W.Decode(rest, maxPayload);
      assert ReaderFor(maxPayload)(rest) == d;
      if d.Bad? {
        BadHeader(rest, ReaderFor(maxPayload), asmBuf.Length, d.error);
        return 0, [], Some(d.error);
      }
      hdr := d.hdr;
      if |rest| - W.HDR_SIZE >= hdr.payloadLen {
        WholeMessageStep(rest, ReaderFor(maxPayload), asmBuf.Length, hdr);
        took := W.HDR_SIZE + hdr.payloadLen;
        out := [Msg(hdr, rest[W.HDR_SIZE..took])];
        assert Beyond(rest, hdr) == rest[took..] && out == [MsgAt(rest, hdr)];
        Deliver(false);
      }
    }

    /** Slow path: stage header bytes, and act on the header once it is whole. */
    method TakeHeader(rest: seq<byte>) returns (took: nat, out: seq<Msg>, err: Option<W.DecodeError>)
      requires Valid() && state == WantHdr && rest != []
      requires hdrHave != 0 || Cut(rest, maxPayload)
      modifies this, hdrBuf
      ensures took <= |rest| && msgsTotal == old(msgsTotal) + |out| && Valid() && (err.Some? <==> Poisoned())
      ensures err.None? ==> took > 0 && Step(old(Staged()), rest, out, msgsReassembled - old(msgsReassembled), Staged(),
                                             rest[took..], ReaderFor(maxPayload), asmBuf.Length)
      ensures err.Some? ==> msgsReassembled == old(msgsReassembled) && out == []
      ensures err.None? && out != [] ==> |out| == 1 && Staged() == []
      ensures err.Some? ==> Fails(old(Staged()), rest, Staged(), ReaderFor(maxPayload), asmBuf.Length, err.value)
    {
      ghost var read, cap, st, counted := ReaderFor(maxPayload), asmBuf.Length, Staged(), msgsReassembled;
      took := StageHeader(rest);
      StageStep(st, rest, took, read, cap);
      ghost var mid := st + rest[..took];
      out, err := [], None;
      if hdrHave == W.HDR_SIZE {
        assert hdrBuf[..] == mid;
        assert took == 0 ==> mid == old(hdrBuf[..]);
        out, err := AcceptHeader(rest[took..]);
        if err.None? {
          QuietThenStep(st, rest, mid, rest[took..], out, msgsReassembled - counted, Staged(), rest[took..], read, cap);
        } else {
          assert Staged() == mid;
          QuietThenFails(st, rest, mid, rest[took..], read, cap, err.value);
        }
      }
    }

    /** One turn of the loop. */
    method Turn(rest: seq<byte>) returns (took: nat, out: seq<Msg>, err: Option<W.DecodeError>)
      requires Valid() && rest != []
      modifies this, hdrBuf, asmBuf
      ensures took <= |rest| && msgsTotal == old(msgsTotal) + |out|
      ensures Valid() && (Poisoned() <==> err.Some? && Staged() != [])
      ensures err.None? ==> took > 0 && Step(old(Staged()), rest, out, msgsReassembled - old(msgsReassembled), Staged(),
                                             rest[took..], ReaderFor(maxPayload), asmBuf.Length)
      ensures err.Some? ==> msgsReassembled == old(msgsReassembled) && out == []
      ensures err.None? && out != [] ==> |out| == 1 && Staged() == []
      ensures err.Some? ==> Fails(old(Staged()), rest, Staged(), ReaderFor(maxPayload), asmBuf.Length, err.value)
    {
      if state == WantPayload {
        took, out := StagePayload(rest);
        return took, out, None;
      }
      if hdrHave == 0 && |rest| >= W.HDR_SIZE {
        took, out, err := TakeWhole(rest);
        if err.Some? || took != 0 {
          return;
        }
      }
      took, out, err := TakeHeader(rest);
    }

    lemma ValidWaits()
      requires Valid() && !Poisoned()
      ensures Waiting(Staged(), ReaderFor(maxPayload), asmBuf.Length)
    {
      if state == WantPayload {
        ReaderIsLocal(maxPayload);
        assert ReaderFor(maxPayload)(Staged()) == ReaderFor(maxPayload)(hdrBuf[..]);
      }
    }

    /** The loop has delivered `msgs` and not yet read `rest`, on its way to `goal`, `kept` and a counter of `due`. */
    ghost predicate Going(rest: seq<byte>, msgs: seq<Msg>, goal: Parsed, kept: seq<byte>, due: int)
      requires Valid()
      reads this, hdrBuf, asmBuf
    {
      var todo := Feed(Staged(), rest, ReaderFor(maxPayload), asmBuf.Length);
      && goal == Prepend(msgs, todo) && due == msgsReassembled + Spanned(Staged(), todo.msgs)
      && kept == Kept(Staged(), rest, ReaderFor(maxPayload), asmBuf.Length)
    }

    /** One turn, and the callback's answer. */
    method TurnAndCall(rest: seq<byte>, msgs: seq<Msg>, failAt: Option<nat>,
                       ghost goal: Parsed, ghost kept: seq<byte>, ghost due: int)
      returns (took: nat, msgs1: seq<Msg>, err: Option<FeedError>)
      requires Valid() && rest != [] && Going(rest, msgs, goal, kept, due) && !Aborts(failAt, |msgs|)
      modifies this, hdrBuf, asmBuf
      ensures Valid() && took <= |rest| && msgsTotal - |msgs1| == old(msgsTotal) - |msgs|
      ensures err.None? ==> took > 0 && !Poisoned() && !Aborts(failAt, |msgs1|)
      ensures err.None? ==> Going(rest[took..], msgs1, goal, kept, due)
      ensures err.Some? ==> FeedEnds(goal, kept, failAt, msgs1, err, Staged())
      ensures err.Some? ==> msgsReassembled == due && (goal.msgs == [] <==> msgs1 == [])
    {
      ghost var read, cap, st, before := ReaderFor(maxPayload), asmBuf.Length, Staged(), msgsReassembled;
      var out, bad;
      took, out, bad := Turn(rest);
      if bad.Some? {
        EndFails(goal, kept, failAt, msgs, bad.value);
        return took, msgs, Some(BadStream(bad.value));
      }
      ghost var st1, rest1 := Staged(), rest[took..];
      Continues(st, rest, out, msgsReassembled - before, st1, rest1, read, cap, msgs);
      msgs1, err := msgs + out, None;
      if Aborts(failAt, |msgs1|) {
        EndStops(goal, kept, failAt, msgs1, Feed(st1, rest1, read, cap));
        err := Some(CallbackFailed);
      }
    }

    /** The loop over a chunk with something in it; `rest` is what the offset has not reached. */
    method FeedBytes(chunk: seq<byte>, failAt: Option<nat>) returns (msgs: seq<Msg>, err: Option<FeedError>)
      requires Valid() && chunk != []
      modifies this, hdrBuf, asmBuf
      ensures Valid() && (err.None? ==> !Poisoned())
      ensures FeedEnds(Feed(old(Staged()), chunk, ReaderFor(maxPayload), asmBuf.Length),
                       Kept(old(Staged()), chunk, ReaderFor(maxPayload), asmBuf.Length), failAt, msgs, err, Staged())
      ensures msgsTotal == old(msgsTotal) + |msgs|
      ensures msgsReassembled == old(msgsReassembled) + Spanned(old(Staged()), msgs)
    {
      ghost var read, cap, st := ReaderFor(maxPayload), asmBuf.Length, Staged();
      ghost var goal, kept := Feed(st, chunk, read, cap), Kept(st, chunk, read, cap);
      ghost var due := msgsReassembled + Spanned(st, goal.msgs);
      var rest := chunk;
      msgs, err := [], None;
      while rest != []
        invariant Valid() && (rest == chunk || !Poisoned()) && err.None?
        invariant msgsTotal == old(msgsTotal) + |msgs| && !Aborts(failAt, |msgs|)
        invariant Going(rest, msgs, goal, kept, due)
        decreases |rest|
      {
        var took;
        took, msgs, err := TurnAndCall(rest, msgs, failAt, goal, kept, due);
        if err.Some? {
          return;
        }
        rest := rest[took..];
      }
      ValidWaits();
      EndWaits(goal, failAt, msgs, Staged(), read, cap);
    }

    /** bench_deframe_feed. `failAt` is the first message of this feed whose callback returns an error, if any: that
        message is still counted, the feed stops and the rest of the chunk is dropped. After an error the deframer may
        be fed again; an empty chunk is never looked at. */
    method FeedChunk(chunk: seq<byte>, failAt: Option<nat>) returns (msgs: seq<Msg>, err: Option<FeedError>)
      requires Valid()
      modifies this, hdrBuf, asmBuf
      ensures Valid() && (Poisoned() ==> err.Some? || (chunk == [] && old(Poisoned())))
      ensures chunk == [] ==> msgs == [] && err == None && Staged() == old(Staged())
      ensures chunk != [] || !old(Poisoned()) ==>
                FeedEnds(Feed(old(Staged()), chunk, ReaderFor(maxPayload), asmBuf.Length),
                         Kept(old(Staged()), chunk, ReaderFor(maxPayload), asmBuf.Length), failAt, msgs, err, Staged())
      ensures msgsTotal == old(msgsTotal) + |msgs|
      ensures msgsReassembled == old(msgsReassembled) + Spanned(old(Staged()), msgs)
    {
      msgs, err := [], None;
      if |chunk| > 0 {
        msgs, err := FeedBytes(chunk, failAt);
      } else if !Poisoned() {
        ghost var read, cap, st := ReaderFor(maxPayload), asmBuf.Length, Staged();
        ValidWaits();
        NothingFed(st, read, cap, failAt);
      }
    }

    /** Chunk after chunk, as a receive loop feeds them, until one fails. */
    method FeedAll(chunks: seq<seq<byte>>) returns (msgs: seq<Msg>, err: Option<FeedError>)
      requires Valid() && !Poisoned()
      modifies this, hdrBuf, asmBuf
      ensures Valid() && msgsTotal == old(msgsTotal) + |msgs|
      ensures var p := Run(old(Staged()), chunks, ReaderFor(maxPayload), asmBuf.Length);
              msgs == p.msgs && err == ErrorOf(p.end) && (p.end.More? ==> Staged() == p.end.rest && !Poisoned())
      ensures msgsReassembled
           == old(msgsReassembled) + RunSpanned(old(Staged()), chunks, ReaderFor(maxPayload), asmBuf.Length)
    {
      ghost var read, cap, st := ReaderFor(maxPayload), asmBuf.Length, Staged();
      ghost var goal, spans := Run(st, chunks, read, cap), RunSpanned(st, chunks, read, cap);
      ghost var base := msgsReassembled;
      msgs, err := [], None;
      var rest := chunks;
      while rest != []
        invariant Valid() && !Poisoned() && err == None && st == Staged()
        invariant msgsTotal == old(msgsTotal) + |msgs|
        invariant goal == Prepend(msgs, Run(st, rest, read, cap))
        invariant spans == msgsReassembled - base + RunSpanned(st, rest, read, cap)
        decreases |rest|
      {
        var more, e := FeedChunk(rest[0], None);
        RunTurn(st, rest, msgs, read, cap);
        KeptMeansFor(st, rest[0], maxPayload, cap);
        msgs, rest := msgs + more, rest[1..];
        if e.Some? {
          return msgs, e;
        }
        st := Staged();
      }
      assert msgs + [] == msgs;
    }

    /** From a fresh start and with a covering assembly buffer: what the whole stream parses to, however it is cut, and
        the counter is the number of messages that a cut divides. */
    method FeedStream(chunks: seq<seq<byte>>) returns (msgs: seq<Msg>, err: Option<FeedError>)
      requires Valid() && Staged() == [] && asmBuf.Length >= W.Cap(maxPayload)
      modifies this, hdrBuf, asmBuf
      ensures var p := Parse(Flatten(chunks), ReaderFor(maxPayload)); msgs == p.msgs && err == ErrorOf(p.end)
      ensures msgsTotal == old(msgsTotal) + |msgs|
      ensures msgsReassembled == old(msgsReassembled) + Straddlers(msgs, 0, Cuts(0, chunks))
    {
      ChunkInvariance(chunks, chunks, maxPayload, asmBuf.Length);
      ReassembledCount(chunks, maxPayload, asmBuf.Length);
      msgs, err := FeedAll(chunks);
    }
  }
}
