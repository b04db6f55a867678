/** The Rust deframer: the same contract as the C one, with an optional header and no common delivery step. */
module DeframerRust {
  import opened Base
  import opened Memory
  import W = BenchWire
  import opened Deframe
  import opened DeframeLaws
  import opened Deframer

  class RustDeframer {
    const hdrBuf: array<byte>
    const asmBuf: array<byte>
    const maxPayload: u32
    var state: Phase
    var hdrHave: nat
    var hdr: Option<W.Hdr>
    var asmHave: nat
    var msgsTotal: nat
    var msgsReassembled: nat

    /** A refused header is staged. */
    predicate Poisoned()
      reads this
    {
      state == WantHdr && hdrHave == W.HDR_SIZE
    }

    ghost predicate Valid()
      reads this, hdrBuf, asmBuf
    {
      && hdrBuf != asmBuf && hdrBuf.Length == W.HDR_SIZE
      && (state == WantHdr ==> hdrHave <= W.HDR_SIZE && (Poisoned() ==> BadHdr(hdrBuf[..], maxPayload, asmBuf.Length)))
      && (state == WantPayload ==>
            && hdrHave == W.HDR_SIZE && hdr.Some? && W.Decode(hdrBuf[..], maxPayload) == W.Good(hdr.value)
            && asmHave < hdr.value.payloadLen <= asmBuf.Length)
    }

    ghost function Staged(): seq<byte>
      requires Valid()
      reads this, hdrBuf, asmBuf
    {
      if state == WantHdr then hdrBuf[..hdrHave] else hdrBuf[..] + asmBuf[..asmHave]
    }

    constructor (asmCap: nat, maxPayload: u32)
      ensures Valid() && Staged() == [] && msgsTotal == 0 && msgsReassembled == 0
      ensures asmBuf.Length == asmCap && this.maxPayload == maxPayload && fresh(hdrBuf) && fresh(asmBuf)
    {
      hdrBuf := new byte[W.HDR_SIZE];
      asmBuf := new byte[asmCap];
      this.maxPayload := maxPayload;
      state, hdrHave, hdr, asmHave, msgsTotal, msgsReassembled := WantHdr, 0, None, 0, 0, 0;
    }

    /** A header decoded in place: deliver the message if its payload is there too; otherwise `took` is 0. */
    method DeliverInPlace(rest: seq<byte>, h: W.Hdr) returns (took: nat, out: seq<Msg>)
      requires |rest| >= W.HDR_SIZE && ReaderFor(maxPayload)(rest) == W.Good(h)
      modifies this`msgsTotal
      ensures took <= |rest| && |out| <= 1 && msgsTotal == old(msgsTotal) + |out|
      ensures took != 0 ==> Step([], rest, out, 0, [], rest[took..], ReaderFor(maxPayload), asmBuf.Length)
      ensures took == 0 ==> out == [] && !Complete(rest, h)
    {
      took, out := 0, [];
      if |rest| - W.HDR_SIZE >= h.payloadLen {
        WholeMessageStep(rest, ReaderFor(maxPayload), asmBuf.Length, h);
        took := W.HDR_SIZE + h.payloadLen;
        msgsTotal := msgsTotal + 1;
        out := [Msg(h, rest[W.HDR_SIZE..took])];
        assert Beyond(rest, h) == rest[took..] && out == [MsgAt(rest, h)];
      }
    }

    /** Fast path; `took` is 0 when the message does not lie wholly in the chunk. */
    method TakeWhole(rest: seq<byte>) returns (took: nat, out: seq<Msg>, err: Option<W.DecodeError>)
      requires Valid() && state == WantHdr && hdrHave == 0 && |rest| >= W.HDR_SIZE
      modifies this`msgsTotal
      ensures took <= |rest| && msgsTotal == old(msgsTotal) + |out|
      ensures err.Some? ==> out == [] && Fails([], rest, [], ReaderFor(maxPayload), asmBuf.Length, err.value)
      ensures took != 0 ==> Step([], rest, out, 0, [], rest[took..], ReaderFor(maxPayload), asmBuf.Length)
      ensures |out| <= 1 && (took == 0 && err.None? ==> out == [])
      ensures took == 0 && err.None? ==> Cut(rest, maxPayload)
    {
      took, out, err := 0, [], None;
      var d := W.Decode(rest, maxPayload);
      assert ReaderFor(maxPayload)(rest) == d;
      if d.Bad? {
        BadHeader(rest, ReaderFor(maxPayload), asmBuf.Length, d.error);
        err := Some(d.error);
      } else {
        took, out := DeliverInPlace(rest, d.hdr);
      }
    }

    /** Copy header bytes aside. */
    method StageHeader(rest: seq<byte>) returns (took: nat)
      requires Valid() && state == WantHdr && rest != []
      modifies this`hdrHave, hdrBuf
      ensures took <= |rest| && hdrHave <= W.HDR_SIZE && (took == 0 <==> old(Poisoned()))
      ensures hdrBuf[..hdrHave] == old(Staged()) + rest[..took]
    {
      took := Min(W.HDR_SIZE - hdrHave, |rest|);
      CopyInto(hdrBuf, hdrHave, rest[..took]);
      hdrHave := hdrHave + took;
    }

    /** All 24 header bytes are staged. An empty message is delivered at once, without changing state. */
    method AcceptHeader(ghost rest: seq<byte>) returns (out: seq<Msg>, err: Option<W.DecodeError>)
      requires hdrBuf != asmBuf && hdrBuf.Length == hdrHave == W.HDR_SIZE && state == WantHdr
      modifies this
      ensures msgsTotal == old(msgsTotal) + |out|
      ensures Valid() && (err.Some? <==> Poisoned()) && (err.Some? <==> BadHdr(hdrBuf[..], maxPayload, asmBuf.Length))
      ensures err.None? ==> Step(hdrBuf[..], rest, out, msgsReassembled - old(msgsReassembled), Staged(), rest,
                                 ReaderFor(maxPayload), asmBuf.Length)
      ensures err.Some? ==> msgsReassembled == old(msgsReassembled) && out == []
      ensures err.None? && out != [] ==> |out| == 1 && Staged() == []
      ensures err.Some? ==> Fails(hdrBuf[..], rest, hdrBuf[..], ReaderFor(maxPayload), asmBuf.Length, err.value)
    {
      ghost var read, cap, st := ReaderFor(maxPayload), asmBuf.Length, hdrBuf[..];
      ReaderIsLocal(maxPayload);
      var d := W.Decode(hdrBuf[..], maxPayload);
      assert read(st) == d;
      if d.Bad? {
        RefusedAgain(st, rest, read, cap, d.error);
        return [], Some(d.error);
      }
      var h := d.hdr;
      if h.payloadLen > asmBuf.Length {
        RefusedAgain(st, rest, read, cap, W.OverCap);
        return [], Some(W.OverCap);
      }
      out, err := [], None;
      asmHave := 0;
      if h.payloadLen == 0 {
        assert st[W.HDR_SIZE..] == [] && st[..W.HDR_SIZE] == st;
        StagedMessageStep(st, rest, read, cap, h);
        out := [Msg(h, [])];
        msgsTotal, msgsReassembled, hdrHave := msgsTotal + 1, msgsReassembled + 1, 0;
      } else {
        hdr, state := Some(h), WantPayload;
        assert Staged() == st;
        NoStep(st, rest, read, cap);
      }
    }

    method TakeHeader(rest: seq<byte>) returns (took: nat, out: seq<Msg>, err: Option<W.DecodeError>)
      requires Valid() && state == WantHdr && rest != []
      requires hdrHave != 0 || Cut(rest, maxPayload)
      modifies this, hdrBuf
      ensures took <= |rest| && msgsTotal == old(msgsTotal) + |out| && Valid() && (err.Some? <==> Poisoned())
      ensures err.None? ==> took > 0 && Step(old(Staged()), rest, out, msgsReassembled - old(msgsReassembled), Staged(),
                                             rest[took..], ReaderFor(maxPayload), asmBuf.Length)
      ensures err.Some? ==> msgsReassembled == old(msgsReassembled) && out == []
      ensures err.None? && out != [] ==> |out| == 1 && Staged() == []
      ensures err.Some? ==> Fails(old(Staged()), rest, Staged(), ReaderFor(maxPayload), asmBuf.Length, err.value)
    {
      ghost var read, cap, st, counted := ReaderFor(maxPayload), asmBuf.Length, Staged(), msgsReassembled;
      took := StageHeader(rest);
      StageStep(st, rest, took, read, cap);
      ghost var mid := st + rest[..took];
      out, err := [], None;
      if hdrHave == W.HDR_SIZE {
        assert hdrBuf[..] == mid;
        assert took == 0 ==> mid == old(hdrBuf[..]);
        out, err := AcceptHeader(rest[took..]);
        if err.None? {
          QuietThenStep(st, rest, mid, rest[took..], out, msgsReassembled - counted, Staged(), rest[took..], read, cap);
        } else {
          assert Staged() == mid;
          QuietThenFails(st, rest, mid, rest[took..], read, cap, err.value);
        }
      }
    }

    /** Copy payload bytes aside. */
    method FillPayload(rest: seq<byte>) returns (took: nat)
      requires Valid() && state == WantPayload && rest != []
      modifies this`asmHave, asmBuf
      ensures 0 < took <= |rest| && asmHave == old(asmHave) + took <= hdr.value.payloadLen
      ensures asmBuf[..asmHave] == old(asmBuf[..asmHave]) + rest[..took]
    {
      took := Min(hdr.value.payloadLen - asmHave, |rest|);
      CopyInto(asmBuf, asmHave, rest[..took]);
      asmHave := asmHave + took;
    }

    method DeliverAssembled(ghost st: seq<byte>, ghost rest: seq<byte>, ghost took: nat) returns (out: seq<Msg>)
      requires hdrBuf != asmBuf && hdrBuf.Length == W.HDR_SIZE
      requires hdr.Some? && W.Decode(hdrBuf[..], maxPayload) == W.Good(hdr.value)
      requires |st| >= W.HDR_SIZE && st[..W.HDR_SIZE] == hdrBuf[..] && took <= |rest|
      requires asmHave == hdr.value.payloadLen <= asmBuf.Length && asmBuf[..asmHave] == st[W.HDR_SIZE..] + rest[..took]
      modifies this
      ensures Valid() && Staged() == [] && |out| == 1
      ensures msgsTotal == old(msgsTotal) + 1 && msgsReassembled == old(msgsReassembled) + 1
      ensures Step(st, rest, out, 1, [], rest[took..], ReaderFor(maxPayload), asmBuf.Length)
    {
      var h := hdr.value;
      ReaderIsLocal(maxPayload);
      FinishStep(st, rest, took, ReaderFor(maxPayload), asmBuf.Length, h);
      msgsTotal, msgsReassembled := msgsTotal + 1, msgsReassembled + 1;
      state, hdrHave, hdr := WantHdr, 0, None;
      out := [Msg(h, asmBuf[..h.payloadLen])];
    }

    method StagePayload(rest: seq<byte>) returns (took: nat, out: seq<Msg>)
      requires Valid() && state == WantPayload && rest != []
      modifies this, asmBuf
      ensures 0 < took <= |rest| && Valid() && !Poisoned()
      ensures msgsTotal == old(msgsTotal) + |out| && (out != [] ==> |out| == 1 && Staged() == [])
      ensures Step(old(Staged()), rest, out, msgsReassembled - old(msgsReassembled), Staged(), rest[took..],
                   ReaderFor(maxPayload), asmBuf.Length)
    {
      ghost var st := Staged();
      assert st[..W.HDR_SIZE] == hdrBuf[..] && st[W.HDR_SIZE..] == asmBuf[..asmHave];
      took := FillPayload(rest);
      if asmHave < hdr.value.payloadLen {
        StageStep(st, rest, took, ReaderFor(maxPayload), asmBuf.Length);
        ghost var now := Staged();
        assert now == st + rest[..took];
        return took, [];
      }
      out := DeliverAssembled(st, rest, took);
    }

    /** One turn of the loop. */
    method Turn(rest: seq<byte>) returns (took: nat, out: seq<Msg>, err: Option<W.DecodeError>)
      requires Valid() && rest != []
      modifies this, hdrBuf, asmBuf
      ensures took <= |rest| && msgsTotal == old(msgsTotal) + |out|
      ensures Valid() && (Poisoned() <==> err.Some? && Staged() != [])
      ensures err.None? ==> took > 0 && Step(old(Staged()), rest, out, msgsReassembled - old(msgsReassembled), Staged(),
                                             rest[took..], ReaderFor(maxPayload), asmBuf.Length)
      ensures err.Some? ==> msgsReassembled == old(msgsReassembled) && out == []
      ensures err.None? && out != [] ==> |out| == 1 && Staged() == []
      ensures err.Some? ==> Fails(old(Staged()), rest, Staged(), ReaderFor(maxPayload), asmBuf.Length, err.value)
    {
      if state == WantPayload {
        took, out := StagePayload(rest);
        return took, out, None;
      }
      if hdrHave == 0 && |rest| >= W.HDR_SIZE {
        took, out, err := TakeWhole(rest);
        if err.Some? || took != 0 {
          return;
        }
      }
      took, out, err := TakeHeader(rest);
    }

    lemma ValidWaits()
      requires Valid() && !Poisoned()
      ensures Waiting(Staged(), ReaderFor(maxPayload), asmBuf.Length)
    {
      if state == WantPayload {
        ReaderIsLocal(maxPayload);
        assert ReaderFor(maxPayload)(Staged()) == ReaderFor(maxPayload)(hdrBuf[..]);
      }
    }

    /** The loop has delivered `msgs` and not yet read `rest`, on its way to `goal`, `kept` and a counter of `due`. */
    ghost predicate Going(rest: seq<byte>, msgs: seq<Msg>, goal: Parsed, kept: seq<byte>, due: int)
      requires Valid()
      reads this, hdrBuf, asmBuf
    {
      var todo := Feed(Staged(), rest, ReaderFor(maxPayload), asmBuf.Length);
      && goal == Prepend(msgs, todo) && due == msgsReassembled + Spanned(Staged(), todo.msgs)
      && kept == Kept(Staged(), rest, ReaderFor(maxPayload), asmBuf.Length)
    }

    /** One turn, and the callback's answer. */
    method TurnAndCall(rest: seq<byte>, msgs: seq<Msg>, failAt: Option<nat>,
                       ghost goal: Parsed, ghost kept: seq<byte>, ghost due: int)
      returns (took: nat, msgs1: seq<Msg>, err: Option<FeedError>)
      requires Valid() && rest != [] && Going(rest, msgs, goal, kept, due) && !Aborts(failAt, |msgs|)
      modifies this, hdrBuf, asmBuf
      ensures Valid() && took <= |rest| && msgsTotal - |msgs1| == old(msgsTotal) - |msgs|
      ensures err.None? ==> took > 0 && !Poisoned() && !Aborts(failAt, |msgs1|)
      ensures err.None? ==> Going(rest[took..], msgs1, goal, kept, due)
      ensures err.Some? ==> FeedEnds(goal, kept, failAt, msgs1, err, Staged())
      ensures err.Some? ==> msgsReassembled == due && (goal.msgs == [] <==> msgs1 == [])
    {
      ghost var read, cap, st, before := ReaderFor(maxPayload), asmBuf.Length, Staged(), msgsReassembled;
      var out, bad;
      took, out, bad := Turn(rest);
      if bad.Some? {
        EndFails(goal, kept, failAt, msgs, bad.value);
        return took, msgs, Some(BadStream(bad.value));
      }
      ghost var st1, rest1 := Staged(), rest[took..];
      Continues(st, rest, out, msgsReassembled - before, st1, rest1, read, cap, msgs);
      msgs1, err := msgs + out, None;
      if Aborts(failAt, |msgs1|) {
        EndStops(goal, kept, failAt, msgs1, Feed(st1, rest1, read, cap));
        err := Some(CallbackFailed);
      }
    }

    /** The loop over a chunk with something in it; `rest` is what the offset has not reached. */
    method FeedBytes(chunk: seq<byte>, failAt: Option<nat>) returns (msgs: seq<Msg>, err: Option<FeedError>)
      requires Valid() && chunk != []
      modifies this, hdrBuf, asmBuf
      ensures Valid() && (err.None? ==> !Poisoned())
      ensures FeedEnds(Feed(old(Staged()), chunk, ReaderFor(maxPayload), asmBuf.Length),
                       Kept(old(Staged()), chunk, ReaderFor(maxPayload), asmBuf.Length), failAt, msgs, err, Staged())
      ensures msgsTotal == old(msgsTotal) + |msgs|
      ensures msgsReassembled == old(msgsReassembled) + Spanned(old(Staged()), msgs)
    {
      ghost var read, cap, st := ReaderFor(maxPayload), asmBuf.Length, Staged();
      ghost var goal, kept := Feed(st, chunk, read, cap), Kept(st, chunk, read, cap);
      ghost var due := msgsReassembled + Spanned(st, goal.msgs);
      var rest := chunk;
      msgs, err := [], None;
      while rest != []
        invariant Valid() && (rest == chunk || !Poisoned()) && err.None?
        invariant msgsTotal == old(msgsTotal) + |msgs| && !Aborts(failAt, |msgs|)
        invariant Going(rest, msgs, goal, kept, due)
        decreases |rest|
      {
        var took;
        took, msgs, err := TurnAndCall(rest, msgs, failAt, goal, kept, due);
        if err.Some? {
          return;
        }
        rest := rest[took..];
      }
      ValidWaits();
      EndWaits(goal, failAt, msgs, Staged(), read, cap);
    }

    /** Deframer::feed. `failAt` is the first message of this feed whose callback returns an error, if any: that
        message is still counted, the feed stops and the rest of the chunk is dropped. After an error the deframer may
        be fed again; an empty chunk is never looked at. */
    method FeedChunk(chunk: seq<byte>, failAt: Option<nat>) returns (msgs: seq<Msg>, err: Option<FeedError>)
      requires Valid()
      modifies this, hdrBuf, asmBuf
      ensures Valid() && (Poisoned() ==> err.Some? || (chunk == [] && old(Poisoned())))
      ensures chunk == [] ==> msgs == [] && err == None && Staged() == old(Staged())
      ensures chunk != [] || !old(Poisoned()) ==>
                FeedEnds(Feed(old(Staged()), chunk, ReaderFor(maxPayload), asmBuf.Length),
                         Kept(old(Staged()), chunk, ReaderFor(maxPayload), asmBuf.Length), failAt, msgs, err, Staged())
      ensures msgsTotal == old(msgsTotal) + |msgs|
      ensures msgsReassembled == old(msgsReassembled) + Spanned(old(Staged()), msgs)
    {
      msgs, err := [], None;
      if |chunk| > 0 {
        msgs, err := FeedBytes(chunk, failAt);
      } else if !Poisoned() {
        ghost var read, cap, st := ReaderFor(maxPayload), asmBuf.Length, Staged();
        ValidWaits();
        NothingFed(st, read, cap, failAt);
      }
    }

    /** Chunk after chunk, as a receive loop feeds them, until one fails. */
    method FeedAll(chunks: seq<seq<byte>>) returns (msgs: seq<Msg>, err: Option<FeedError>)
      requires Valid() && !Poisoned()
      modifies this, hdrBuf, asmBuf
      ensures Valid() && msgsTotal == old(msgsTotal) + |msgs|
      ensures var p := Run(old(Staged()), chunks, ReaderFor(maxPayload), asmBuf.Length);
              msgs == p.msgs && err == ErrorOf(p.end) && (p.end.More? ==> Staged() == p.end.rest && !Poisoned())
      ensures msgsReassembled
           == old(msgsReassembled) + RunSpanned(old(Staged()), chunks, ReaderFor(maxPayload), asmBuf.Length)
    {
      ghost var read, cap, st := ReaderFor(maxPayload), asmBuf.Length, Staged();
      ghost var goal, spans := Run(st, chunks, read, cap), RunSpanned(st, chunks, read, cap);
      ghost var base := msgsReassembled;
      msgs, err := [], None;
      var rest := chunks;
      while rest != []
        invariant Valid() && !Poisoned() && err == None && st == Staged()
        invariant msgsTotal == old(msgsTotal) + |msgs|
        invariant goal == Prepend(msgs, Run(st, rest, read, cap))
        invariant spans == msgsReassembled - base + RunSpanned(st, rest, read, cap)
        decreases |rest|
      {
        var more, e := FeedChunk(rest[0], None);
        RunTurn(st, rest, msgs, read, cap);
        KeptMeansFor(st, rest[0], maxPayload, cap);
        msgs, rest := msgs + more, rest[1..];
        if e.Some? {
          return msgs, e;
        }
        st := Staged();
      }
      assert msgs + [] == msgs;
    }

    /** From a fresh start and with a covering assembly buffer: what the whole stream parses to, however it is cut, and
        the counter is the number of messages that a cut divides. */
    method FeedStream(chunks: seq<seq<byte>>) returns (msgs: seq<Msg>, err: Option<FeedError>)
      requires Valid() && Staged() == [] && asmBuf.Length >= W.Cap(maxPayload)
      modifies this, hdrBuf, asmBuf
      ensures var p := Parse(Flatten(chunks), ReaderFor(maxPayload)); msgs == p.msgs && err == ErrorOf(p.end)
      ensures msgsTotal == old(msgsTotal) + |msgs|
      ensures msgsReassembled == old(msgsReassembled) + Straddlers(msgs, 0, Cuts(0, chunks))
    {
      ChunkInvariance(chunks, chunks, maxPayload, asmBuf.Length);
      ReassembledCount(chunks, maxPayload, asmBuf.Length);
      msgs, err := FeedAll(chunks);
    }
  }
}
