/**
 * The two ends of a stream in the form the kernel runs them: the sending
 * kthread's counters and gate loop (kernel/urp_pump.c) and the receive
 * completion's bypass, insert and drain loop (kernel/urp_rdma.c). Their methods
 * are proved equal to the steps of module Transport.
 */
module StreamEnds {
  import opened Base
  import W = Window
  import R = Reorder
  import T = Transport
  import ReorderTree

  /** What the sender sees when a wait at the gate returns. */
  datatype Wakeup = Wakeup(acked: nat, stopping: bool)

  datatype GateResult = Open | Valve | Aborted

  const STALL_BUDGET := 50

  class TxStream {
    const cfg: T.Cfg
    var txSeq: nat
    var txBytes: nat
    var acked: nat
    ghost var framed: seq<Payload>
    ghost var wire: seq<R.Frame>
    ghost var pc: T.Pc

    /** The sender's invariant: numbers posted in order with their payloads, and the byte counter caught up with the
        wire except between a post and its accounting. */
    ghost predicate Valid()
      reads this
    {
      txSeq == |framed| && T.TxInv(cfg, Value())
    }

    ghost function Value(): T.Tx
      reads this
    {
      T.Tx(framed, pc, wire, txBytes, acked)
    }

    constructor (cfg: T.Cfg)
      ensures Valid() && Value() == T.Tx([], T.Idle, [], 0, 0) && this.cfg == cfg
    {
      this.cfg := cfg;
      txSeq, txBytes, acked := 0, 0, 0;
      framed, wire, pc := [], [], T.Idle;
      new;
      assert T.Payloads([]) == [];
    }

    /** Number a payload that was read; the number is spent whatever happens next. */
    method Take(payload: Payload) returns (seqno: u64)
      requires Valid() && pc == T.Idle && cfg.minPayload <= |payload| <= cfg.maxPayload
      requires txSeq + 1 < U64_MAX && |Flatten(framed)| + |payload| < U64_MODULUS
      modifies this
      ensures Valid() && seqno == |old(framed)|
      ensures Value() == old(Value()).(framed := old(framed) + [payload], pc := T.Holding)
    {
      T.TxInvTake(cfg, Value(), payload);
      seqno := txSeq;
      txSeq := txSeq + 1;
      framed := framed + [payload];
      pc := T.Holding;
    }

    /**
     * Block until the held frame fits, the stream stops or the stall budget is
     * spent. `wakeups` is what the environment shows at each return from the
     * wait: the acknowledged mark then and whether a terminal condition holds.
     */
    method WaitAtGate(len: nat, wakeups: seq<Wakeup>) returns (r: GateResult, seen: nat)
      requires Valid() && pc == T.Holding && framed != [] && len == |T.Held(Value())|
      requires |wakeups| == STALL_BUDGET
      modifies this
      ensures Valid() && seen <= STALL_BUDGET
      // the mark the sender last saw
      ensures Value() == old(Value()).(
                acked := if seen == 0 then old(acked) else wakeups[seen - 1].acked,
                pc := if r == Aborted then T.Stopped else T.Admitted)
      // open only with room at that moment; a valve only after a full budget of waits
      ensures r == Open ==> W.HasRoom(txBytes % U64_MODULUS, acked % U64_MODULUS, cfg.window, len)
      ensures r == Valve ==> seen == STALL_BUDGET
      ensures r == Aborted ==> seen > 0 && wakeups[seen - 1].stopping
      // every earlier look found neither room nor a terminal condition, the one before the first wait no room
      ensures seen > 0 ==> !W.HasRoom(txBytes % U64_MODULUS, old(acked) % U64_MODULUS, cfg.window, len)
      ensures forall i :: 0 <= i < seen - 1 ==>
                !wakeups[i].stopping
                && !W.HasRoom(txBytes % U64_MODULUS, wakeups[i].acked % U64_MODULUS, cfg.window, len)
    {
      seen := 0;
      while !W.HasRoom(txBytes % U64_MODULUS, acked % U64_MODULUS, cfg.window, len)
        invariant Valid() && 0 <= seen < STALL_BUDGET
        invariant Value() == old(Value()).(acked := if seen == 0 then old(acked) else wakeups[seen - 1].acked)
        invariant seen > 0 ==> !W.HasRoom(txBytes % U64_MODULUS, old(acked) % U64_MODULUS, cfg.window, len)
        invariant forall i :: 0 <= i < seen ==> !wakeups[i].stopping
        invariant forall i :: 0 <= i < seen - 1 ==>
                    !W.HasRoom(txBytes % U64_MODULUS, wakeups[i].acked % U64_MODULUS, cfg.window, len)
        decreases STALL_BUDGET - seen
      {
        acked := wakeups[seen].acked;
        seen := seen + 1;
        if wakeups[seen - 1].stopping {
          pc := T.Stopped;
          return Aborted, seen;
        }
        if seen >= STALL_BUDGET {
          pc := T.Admitted;
          return Valve, seen;
        }
      }
      pc := T.Admitted;
      r := Open;
    }

    /** Hand the held frame to a queue pair: under a number no earlier frame has, its bytes not counted yet. */
    method Post(payload: Payload) returns (f: R.Frame)
      requires Valid() && pc == T.Admitted && payload == T.Held(Value())
      modifies this`wire, this`pc
      ensures Valid() && pc == T.Posted && wire == old(wire) + [f]
      ensures f.seqno < |framed| && f.payload == framed[f.seqno] && (forall g :: g in old(wire) ==> g.seqno < f.seqno)
      ensures T.Bytes(wire) == txBytes + |payload|
    {
      T.TxInvPost(cfg, Value());
      f := R.Frame(txSeq - 1, payload);
      wire := wire + [f];
      pc := T.Posted;
    }

    /** Only now are the posted bytes counted; the counter is then exactly what is on the wire. */
    method Account(len: nat)
      requires Valid() && pc == T.Posted && framed != [] && len == |T.Held(Value())|
      modifies this`txBytes, this`pc
      ensures Valid() && pc == T.Idle && txBytes == T.Bytes(wire)
    {
      txBytes := txBytes + len;
      pc := T.Idle;
    }

    /** A grant arrives: the mark never goes back, covers the grant, and is one of the two. */
    method Apply(granted: nat)
      requires Valid()
      modifies this`acked
      ensures Valid() && acked >= old(acked) && acked >= granted && acked in {old(acked), granted}
    {
      if granted > acked {
        acked := granted;
      }
    }
  }

  class RxStream {
    const reorder: ReorderTree.TreeBuffer
    const bufSize: nat
    var state: T.StreamState
    var socket: seq<byte>
    var rxBytes: nat
    var lastGrant: nat

    /** Every frame the buffer holds fits the drain's staging area. */
    ghost predicate Valid()
      reads this, reorder
    {
      reorder.Valid() && reorder.drained == [] && AllFit(reorder.Value().pending, bufSize)
    }

    ghost function Value(): T.Rx
      reads this, reorder
    {
      T.Rx(state, reorder.Value(), socket, rxBytes, lastGrant)
    }

    /** A stream's receive half, its reorder depth coupled to its window. */
    constructor (c: T.Cfg, bufSize: nat)
      ensures fresh(reorder) && this.bufSize == bufSize
      ensures Valid() && Value() == T.NewRx(c)
    {
      this.bufSize := bufSize;
      state, socket, rxBytes, lastGrant := T.Absent, [], 0, 0;
      reorder := new ReorderTree.TreeBuffer(0, W.DepthForWindow(c.window));
    }

    /** Pop drained frames through the staging area and write each to the socket. */
    method DrainToSocket()
      requires reorder.Valid() && AllFitFrames(reorder.drained, bufSize)
      modifies this`socket, this`rxBytes, reorder`drained, reorder`drainCount
      ensures reorder.Valid() && reorder.drained == []
      ensures socket == T.Emit(old(Value()), old(reorder.Value()), []).socket
      ensures rxBytes == T.Emit(old(Value()), old(reorder.Value()), []).rxBytes
    {
      assert [] + reorder.drained == reorder.drained;
      ghost var goal := socket + Flatten(T.Payloads(reorder.drained));
      ghost var total := rxBytes + |Flatten(T.Payloads(reorder.drained))|;
      while true
        invariant reorder.Valid() && AllFitFrames(reorder.drained, bufSize)
        invariant socket + Flatten(T.Payloads(reorder.drained)) == goal
        invariant rxBytes + |Flatten(T.Payloads(reorder.drained))| == total
        decreases |reorder.drained|
      {
        ghost var queue := reorder.drained;
        var code, frame, len := reorder.DrainNext(bufSize);
        if code != R.Ok {
          break;
        }
        PopFront(queue);
        ghost var later := Flatten(T.Payloads(queue[1..]));
        assert socket + (frame.payload + later) == (socket + frame.payload) + later;
        socket := socket + frame.payload;
        rxBytes := rxBytes + len;
      }
      assert T.Payloads(reorder.drained) == [];
    }

    /** The expected frame goes straight to the socket, then whatever became contiguous. */
    method Bypass(f: R.Frame, alloc: R.Alloc)
      requires Valid() && f.seqno == reorder.nextExpected
      modifies this`socket, this`rxBytes, reorder
      ensures Valid() && Value() == T.Emit(old(Value()), R.Advance(old(reorder.Value()), alloc), [f])
    {
      ghost var rx0 := Value();
      socket := socket + f.payload;
      rxBytes := rxBytes + |f.payload|;
      reorder.Advance(alloc);
      DrainFits(rx0.buf.(next := R.Bump(rx0.buf.next)), alloc, bufSize);
      EmitDirect(rx0, reorder.Value(), f);
      DrainToSocket();
    }

    /** Any other frame is inserted; whatever is in order is still drained. */
    method Slow(f: R.Frame, alloc: R.Alloc) returns (code: R.Code)
      requires Valid() && |f.payload| <= bufSize
      modifies this`socket, this`rxBytes, reorder
      ensures Valid() && Value() == T.Emit(old(Value()), R.Insert(old(reorder.Value()), f.seqno, f.payload, alloc).0, [])
      ensures code == R.Insert(old(reorder.Value()), f.seqno, f.payload, alloc).1
    {
      ghost var b0 := reorder.Value();
      code := reorder.Insert(f.seqno, f.payload, alloc);
      InsertFits(b0, f, alloc, bufSize);
      DrainToSocket();
    }

    /** Grant all bytes written once enough were since the last grant. */
    method DecideGrant(c: T.Cfg) returns (grant: Option<nat>)
      requires Valid()
      modifies this`lastGrant
      ensures Valid() && (grant.Some? <==> old(T.GrantDue(c, Value())))
      ensures Value() == old(Value()).(lastGrant := if grant.Some? then rxBytes else old(lastGrant))
      ensures grant.Some? ==> grant.value == rxBytes
      ensures old(lastGrant) <= rxBytes < U64_MODULUS ==> (grant.Some? <==> W.Quarter(rxBytes - old(lastGrant), c.window))
    {
      if lastGrant <= rxBytes < U64_MODULUS {
        T.GrantDueExact(c, Value());
      }
      grant := None;
      if W.ShouldGrant(rxBytes % U64_MODULUS, lastGrant % U64_MODULUS, c.window) {
        grant := Some(rxBytes);
        lastGrant := rxBytes;
      }
    }

    /** One DATA completion: bypass or insert, drain, and decide on a grant. */
    method RecvDone(c: T.Cfg, f: R.Frame, alloc: R.Alloc) returns (code: R.Code, grant: Option<nat>)
      requires Valid() && |f.payload| <= bufSize
      modifies this, reorder
      ensures Valid()
      ensures Value() == T.Receive(c, old(Value()), f, alloc).0
      ensures code == T.Receive(c, old(Value()), f, alloc).1
      ensures T.Emitted(c, old(Value()), f, alloc) == if grant.Some? then {grant.value} else {}
      // a grant, of all bytes written, exactly when those written since the last one reach a quarter of the window
      ensures old(lastGrant) <= rxBytes < U64_MODULUS ==>
                && (grant.Some? <==> W.Quarter(rxBytes - old(lastGrant), c.window))
                && (grant.Some? ==> grant.value == lastGrant == rxBytes) && (grant.None? ==> lastGrant == old(lastGrant))
    {
      state := if state == T.Absent then T.SynReceived else if f.seqno == 0 then T.Established else state;
      ghost var rx0 := Value();
      if f.seqno == reorder.nextExpected {
        Bypass(f, alloc);
        code := R.Ok;
      } else {
        code := Slow(f, alloc);
      }
      assert Value() == T.Deliver(rx0, f, alloc).0;
      grant := DecideGrant(c);
    }
  }

  lemma PopFront(fs: seq<R.Frame>)
    requires fs != []
    ensures Flatten(T.Payloads(fs)) == fs[0].payload + Flatten(T.Payloads(fs[1..]))
  {
    assert T.Payloads(fs)[1..] == T.Payloads(fs[1..]);
  }

  lemma PushFront(f: R.Frame, fs: seq<R.Frame>)
    ensures Flatten(T.Payloads([f] + fs)) == f.payload + Flatten(T.Payloads(fs))
  {
    PopFront([f] + fs);
    assert ([f] + fs)[1..] == fs;
  }

  /** Writing a frame first and draining afterwards is emitting both. */
  lemma EmitDirect(rx: T.Rx, b: R.Buffer, f: R.Frame)
    ensures T.Emit(rx.(socket := rx.socket + f.payload, rxBytes := rx.rxBytes + |f.payload|, buf := b), b, [])
         == T.Emit(rx, b, [f])
  {
    assert [] + b.drained == b.drained;
    PushFront(f, b.drained);
    var tail := Flatten(T.Payloads(b.drained));
    assert (rx.socket + f.payload) + tail == rx.socket + (f.payload + tail);
  }

  ghost predicate AllFit(pending: R.Pending, cap: nat) { forall k :: k in pending ==> |pending[k]| <= cap }

  ghost predicate AllFitFrames(fs: seq<R.Frame>, cap: nat) { forall f :: f in fs ==> |f.payload| <= cap }

  /** A drain moves only frames that fit. */
  lemma DrainFits(b: R.Buffer, alloc: R.Alloc, cap: nat)
    requires b.drained == [] && AllFit(b.pending, cap)
    ensures AllFit(R.Drain(b, alloc).pending, cap) && AllFitFrames(R.Drain(b, alloc).drained, cap)
  {
    R.DrainTakesFrom(b.pending, b.next, R.Budget(alloc, b.pending));
    var d := R.DrainRun(b.pending, b.next, R.Budget(alloc, b.pending));
    assert b.drained + d.run == d.run;
  }

  lemma InsertFits(b: R.Buffer, f: R.Frame, alloc: R.Alloc, cap: nat)
    requires b.drained == [] && AllFit(b.pending, cap) && |f.payload| <= cap
    ensures var r := R.Insert(b, f.seqno, f.payload, alloc).0;
            AllFit(r.pending, cap) && AllFitFrames(r.drained, cap)
  {
    DrainFits(b.(pending := b.pending[f.seqno := f.payload]), alloc, cap);
  }
}
