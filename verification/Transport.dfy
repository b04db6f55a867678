/**
 * One direction of one stream as a step system: the sending kthread
 * (kernel/urp_pump.c), the frames it posted, the receive completion
 * (kernel/urp_rdma.c) and the byte grants travelling back.
 *
 * A posted frame may arrive at any time and any number of times, which covers
 * every assignment of frames to queue pairs; an emitted grant may likewise be
 * applied in any order, repeatedly or never.
 */
module Transport {
  import opened Base
  import W = Window
  import R = Reorder

  /** Both ends' window, and the bounds every payload read from the socket obeys. */
  datatype Cfg = Cfg(window: u64, minPayload: nat, maxPayload: nat)

  /** A read returns at least one byte, and every resolved window is clamped. */
  ghost predicate ValidCfg(c: Cfg) { 1 <= c.minPayload <= c.maxPayload && c.window <= W.BYTES_MAX }

  /**
   * Where the sending kthread is in one turn of its loop: reading, holding a
   * numbered frame at the byte-window gate, past the gate, posted but not yet
   * counted in tx_bytes, or gone.
   */
  datatype Pc = Idle | Holding | Admitted | Posted | Stopped

  datatype Tx = Tx(framed: seq<Payload>, pc: Pc, wire: seq<R.Frame>, txBytes: nat, acked: nat)

  datatype StreamState = Absent | SynSent | SynReceived | Established

  datatype Rx = Rx(state: StreamState, buf: R.Buffer, socket: seq<byte>, rxBytes: nat, lastGrant: nat)

  /**
   * The system, with facts about the past: which numbers arrived, which came first
   * and how often the one with SYN came, which were ever refused for lack of room,
   * whether the stall valve fired, an allocation failed or a grant was lost.
   */
  datatype Sys = Sys(
    tx: Tx, rx: Rx, grants: set<nat>,
    arrived: set<nat>, first: Option<nat>, syns: nat, refused: set<nat>, valved: bool, starved: bool, lost: bool)

  function NewRx(c: Cfg): Rx {
    Rx(Absent, R.Buffer(map[], [], 0, W.DepthForWindow(c.window)), [], 0, 0)
  }

  function Init(c: Cfg): Sys {
    Sys(Tx([], Idle, [], 0, 0), NewRx(c), {}, {}, None, 0, {}, false, false, false)
  }

  function Payloads(fs: seq<R.Frame>): seq<Payload> {
    seq(|fs|, i requires 0 <= i < |fs| => fs[i].payload)
  }

  function Bytes(fs: seq<R.Frame>): nat { |Flatten(Payloads(fs))| }

  // ---- receiving one frame -------------------------------------------------

  /**
   * A frame finds its stream, creating it whether or not it carries SYN; a SYN
   * on a known stream completes the handshake. A created stream starts with
   * exactly the buffer and counters the model holds while the stream is absent.
   */
  function Dispatch(state: StreamState, syn: bool): StreamState {
    if state == Absent then SynReceived else if syn then Established else state
  }

  /** Write frames to the socket: one taken straight from its buffer, then everything drained. */
  function Emit(rx: Rx, b: R.Buffer, direct: seq<R.Frame>): Rx {
    var out := Flatten(Payloads(direct + b.drained));
    rx.(buf := b.(drained := []), socket := rx.socket + out, rxBytes := rx.rxBytes + |out|)
  }

  /** The expected frame bypasses the buffer; any other is inserted. */
  function Deliver(rx: Rx, f: R.Frame, alloc: R.Alloc): (Rx, R.Code) {
    if f.seqno == rx.buf.next then (Emit(rx, R.Advance(rx.buf, alloc), [f]), R.Ok)
    else
      var (b, code) := R.Insert(rx.buf, f.seqno, f.payload, alloc);
      (Emit(rx, b, []), code)
  }

  predicate GrantDue(c: Cfg, rx: Rx) {
    W.ShouldGrant(rx.rxBytes % U64_MODULUS, rx.lastGrant % U64_MODULUS, c.window)
  }

  function Receive(c: Cfg, rx: Rx, f: R.Frame, alloc: R.Alloc): (Rx, R.Code) {
    var (r, code) := Deliver(rx.(state := Dispatch(rx.state, f.seqno == 0)), f, alloc);
    (if GrantDue(c, r) then r.(lastGrant := r.rxBytes) else r, code)
  }

  /** The grant a receive emits, if any; it may be lost for want of a send buffer. */
  function Emitted(c: Cfg, rx: Rx, f: R.Frame, alloc: R.Alloc): set<nat> {
    var (r, _) := Deliver(rx.(state := Dispatch(rx.state, f.seqno == 0)), f, alloc);
    if GrantDue(c, r) then {r.rxBytes} else {}
  }

  // ---- steps ---------------------------------------------------------------

  datatype Event =
    | Take(payload: Payload)          // read a payload and number it
    | Burn                            // no queue pair: the numbered frame is dropped
    | Admit                           // the gate sees room
    | Valve                           // the stall budget is spent: post anyway
    | Post
    | Account                         // add the posted bytes to tx_bytes
    | Stop                            // stop, socket close, disconnect or failed post
    | Arrive(i: nat, alloc: R.Alloc, grantLost: bool)
    | Apply(grant: nat)

  function Held(tx: Tx): Payload
    requires tx.framed != []
  {
    tx.framed[|tx.framed| - 1]
  }

  /** What the sender evaluates at the gate. */
  predicate GateOpen(c: Cfg, tx: Tx)
    requires tx.framed != []
  {
    W.HasRoom(tx.txBytes % U64_MODULUS, tx.acked % U64_MODULUS, c.window, |Held(tx)|)
  }

  predicate Enabled(c: Cfg, s: Sys, e: Event) {
    match e
    case Take(p) =>
      && s.tx.pc == Idle
      && c.minPayload <= |p| <= c.maxPayload
      // sequence numbers and byte counters stay inside 64 bits
      && |s.tx.framed| + 1 < U64_MAX
      && |Flatten(s.tx.framed)| + |p| < U64_MODULUS
    case Burn => s.tx.pc == Holding && s.tx.framed != []
    case Admit => s.tx.pc == Holding && s.tx.framed != [] && GateOpen(c, s.tx)
    case Valve => s.tx.pc == Holding && s.tx.framed != []
    case Post => s.tx.pc == Admitted && 0 < |s.tx.framed| <= U64_MAX
    case Account => s.tx.pc == Posted && s.tx.framed != []
    // a posted frame is always accounted for before the loop can end
    case Stop => s.tx.pc != Posted
    case Arrive(i, _, _) => i < |s.tx.wire|
    case Apply(g) => g in s.grants
  }

  function Next(c: Cfg, s: Sys, e: Event): Sys
    requires Enabled(c, s, e)
  {
    match e
    case Take(p) => s.(tx := s.tx.(framed := s.tx.framed + [p], pc := Holding))
    case Burn => s.(tx := s.tx.(pc := Idle))
    case Admit => s.(tx := s.tx.(pc := Admitted))
    case Valve => s.(tx := s.tx.(pc := Admitted), valved := true)
    case Post =>
      s.(tx := s.tx.(wire := s.tx.wire + [R.Frame(|s.tx.framed| - 1, Held(s.tx))], pc := Posted))
    case Account => s.(tx := s.tx.(txBytes := s.tx.txBytes + |Held(s.tx)|, pc := Idle))
    case Stop => s.(tx := s.tx.(pc := Stopped))
    case Arrive(i, alloc, grantLost) =>
      var f := s.tx.wire[i];
      var (rx, code) := Receive(c, s.rx, f, alloc);
      s.(rx := rx,
         grants := if grantLost then s.grants else s.grants + Emitted(c, s.rx, f, alloc),
         lost := s.lost || (grantLost && Emitted(c, s.rx, f, alloc) != {}),
         arrived := s.arrived + {f.seqno},
         first := if s.first == None then Some(f.seqno) else s.first,
         syns := if f.seqno == 0 then s.syns + 1 else s.syns,
         refused := if code == R.NoBufs then s.refused + {f.seqno} else s.refused,
         starved := s.starved || alloc != R.Plenty)
    case Apply(g) => s.(tx := s.tx.(acked := W.ApplyGrant(s.tx.acked, g)))
  }

  predicate Legal(c: Cfg, s: Sys, es: seq<Event>)
    decreases |es|
  {
    es == [] || (Enabled(c, s, es[0]) && Legal(c, Next(c, s, es[0]), es[1..]))
  }

  function Exec(c: Cfg, s: Sys, es: seq<Event>): Sys
    requires Legal(c, s, es)
    decreases |es|
  {
    if es == [] then s else Exec(c, Next(c, s, es[0]), es[1..])
  }

  /** A state some run from the start ends in. */
  ghost predicate Reachable(c: Cfg, s: Sys) {
    exists es :: Legal(c, Init(c), es) && Exec(c, Init(c), es) == s
  }

  // ---- the sender's invariant -----------------------------------------------

  ghost predicate WireOk(framed: seq<Payload>, wire: seq<R.Frame>) {
    && (forall j :: 0 <= j < |wire| ==> wire[j].seqno < |framed| && wire[j].payload == framed[wire[j].seqno])
    && (forall i, j :: 0 <= i < j < |wire| ==> wire[i].seqno < wire[j].seqno)
  }

  ghost predicate Sized(c: Cfg, framed: seq<Payload>) {
    forall i :: 0 <= i < |framed| ==> c.minPayload <= |framed[i]| <= c.maxPayload
  }

  ghost predicate TxInv(c: Cfg, tx: Tx) {
    && WireOk(tx.framed, tx.wire)
    && Sized(c, tx.framed)
    && |tx.framed| < U64_MAX
    && |Flatten(tx.framed)| < U64_MODULUS
    && (tx.pc in {Holding, Admitted, Posted} ==> tx.framed != [])
    && (tx.pc in {Holding, Admitted} ==> forall j :: 0 <= j < |tx.wire| ==> tx.wire[j].seqno < |tx.framed| - 1)
    && (tx.pc != Posted ==> tx.txBytes == Bytes(tx.wire))
    && (tx.pc == Posted ==> tx.txBytes + |Held(tx)| == Bytes(tx.wire))
  }

  lemma BytesSnoc(fs: seq<R.Frame>, f: R.Frame)
    ensures Bytes(fs + [f]) == Bytes(fs) + |f.payload|
  {
    assert Payloads(fs + [f]) == Payloads(fs) + [f.payload];
    FlattenSnoc(Payloads(fs), f.payload);
  }

  /** What was posted is no more than what was framed. */
  lemma {:induction false} WireWithinFramed(framed: seq<Payload>, wire: seq<R.Frame>)
    requires WireOk(framed, wire)
    ensures Bytes(wire) <= |Flatten(framed)|
    decreases |wire|
  {
    if wire != [] {
      var last := wire[|wire| - 1];
      var rest := wire[..|wire| - 1];
      var n: nat := last.seqno;
      assert WireOk(framed[..n], rest);
      WireWithinFramed(framed[..n], rest);
      assert wire == rest + [last];
      BytesSnoc(rest, last);
      assert framed[..n + 1] == framed[..n] + [framed[n]];
      FlattenSnoc(framed[..n], framed[n]);
      FlattenPrefix(framed, n + 1);
    }
  }

  lemma TxInvTake(c: Cfg, tx: Tx, p: Payload)
    requires TxInv(c, tx) && tx.pc == Idle && c.minPayload <= |p| <= c.maxPayload
    requires |tx.framed| + 1 < U64_MAX && |Flatten(tx.framed)| + |p| < U64_MODULUS
    ensures TxInv(c, tx.(framed := tx.framed + [p], pc := Holding))
  {
    FlattenSnoc(tx.framed, p);
  }

  lemma TxInvPost(c: Cfg, tx: Tx)
    requires TxInv(c, tx) && tx.pc == Admitted
    ensures TxInv(c, tx.(wire := tx.wire + [R.Frame(|tx.framed| - 1, Held(tx))], pc := Posted))
  {
    BytesSnoc(tx.wire, R.Frame(|tx.framed| - 1, Held(tx)));
  }

  lemma TxInvStep(c: Cfg, s: Sys, e: Event)
    requires TxInv(c, s.tx) && Enabled(c, s, e)
    ensures TxInv(c, Next(c, s, e).tx)
  {
    match e
    case Take(p) => TxInvTake(c, s.tx, p);
    case Post => TxInvPost(c, s.tx);
    case _ =>
  }

  // ---- the receiver's invariant -----------------------------------------------

  ghost function Numbers(wire: seq<R.Frame>): set<u64> { set j | 0 <= j < |wire| :: wire[j].seqno }

  ghost predicate FromWire(pending: R.Pending, framed: seq<Payload>, wire: seq<R.Frame>) {
    forall k :: k in pending ==> k < |framed| && pending[k] == framed[k] && k in Numbers(wire)
  }

  /** Everything below the cursor was posted, and in order. */
  ghost predicate PrefixPosted(wire: seq<R.Frame>, n: nat) {
    n <= |wire| && forall j :: 0 <= j < n ==> wire[j].seqno == j
  }

  ghost predicate RxInv(c: Cfg, tx: Tx, rx: Rx) {
    && rx.buf.drained == []
    && rx.buf.max == W.DepthForWindow(c.window)
    && rx.buf.next <= |tx.framed|
    && PrefixPosted(tx.wire, rx.buf.next)
    && FromWire(rx.buf.pending, tx.framed, tx.wire)
    // the socket holds exactly the payloads below the cursor
    && rx.socket == Flatten(tx.framed[..rx.buf.next])
    && rx.rxBytes == |rx.socket|
  }

  /** Strictly increasing numbers that include 0..n-1 start with them. */
  lemma {:induction false} CoveredPrefix(framed: seq<Payload>, wire: seq<R.Frame>, n: nat)
    requires WireOk(framed, wire)
    requires forall k :: 0 <= k < n ==> k in Numbers(wire)
    ensures PrefixPosted(wire, n)
  {
    if n > 0 {
      CoveredPrefix(framed, wire, n - 1);
      assert n - 1 in Numbers(wire);
      var idx :| 0 <= idx < |wire| && wire[idx].seqno == n - 1;
      assert idx >= n - 1;
      assert n >= 2 ==> wire[n - 2].seqno < wire[n - 1].seqno;
    }
  }

  /** A drain of frames taken from the stream releases the next payloads of the stream. */
  lemma DrainReleases(pending: R.Pending, next: u64, budget: nat, framed: seq<Payload>, wire: seq<R.Frame>)
    requires FromWire(pending, framed, wire) && next <= |framed| < U64_MAX
    ensures var d := R.DrainRun(pending, next, budget);
            && d.next == next + |d.run| <= |framed|
            && Payloads(d.run) == framed[next..d.next]
            && FromWire(d.rest, framed, wire)
            && forall k :: next <= k < d.next ==> k in Numbers(wire)
  {
  }

  /** Buffer b is what remains once numbers from..b.next-1, all posted, are taken out. */
  ghost predicate Took(c: Cfg, tx: Tx, b: R.Buffer, from: nat) {
    && b.max == W.DepthForWindow(c.window)
    && from <= b.next <= |tx.framed|
    && FromWire(b.pending, tx.framed, tx.wire)
    && forall k :: from <= k < b.next ==> k in Numbers(tx.wire)
  }

  /** Emitting the payloads from the cursor onward extends the socket's prefix. */
  lemma EmitExtends(c: Cfg, tx: Tx, rx: Rx, b: R.Buffer, direct: seq<R.Frame>)
    requires TxInv(c, tx) && RxInv(c, tx, rx)
    requires Took(c, tx, b, rx.buf.next)
    requires Payloads(direct + b.drained) == tx.framed[rx.buf.next..b.next]
    ensures RxInv(c, tx, Emit(rx, b, direct))
  {
    var n := rx.buf.next;
    assert tx.framed[..b.next] == tx.framed[..n] + tx.framed[n..b.next];
    FlattenConcat(tx.framed[..n], tx.framed[n..b.next]);
    forall k | 0 <= k < b.next ensures k in Numbers(tx.wire) {
      if k < n { assert tx.wire[k].seqno == k; }
    }
    CoveredPrefix(tx.framed, tx.wire, b.next);
  }

  /** Draining a whole buffer with an empty queue releases the next payloads of the stream. */
  lemma BufferReleases(c: Cfg, tx: Tx, b: R.Buffer, alloc: R.Alloc)
    requires TxInv(c, tx) && b.drained == [] && b.max == W.DepthForWindow(c.window)
    requires FromWire(b.pending, tx.framed, tx.wire) && b.next <= |tx.framed|
    ensures var r := R.Drain(b, alloc);
            Took(c, tx, r, b.next) && Payloads(r.drained) == tx.framed[b.next..r.next]
  {
    var d := R.DrainRun(b.pending, b.next, R.Budget(alloc, b.pending));
    DrainReleases(b.pending, b.next, R.Budget(alloc, b.pending), tx.framed, tx.wire);
    assert b.drained + d.run == d.run;
  }

  lemma TookOneMore(c: Cfg, tx: Tx, b: R.Buffer, f: R.Frame)
    requires TxInv(c, tx) && f in tx.wire && Took(c, tx, b, f.seqno + 1)
    requires Payloads(b.drained) == tx.framed[f.seqno + 1..b.next]
    ensures Took(c, tx, b, f.seqno) && Payloads([f] + b.drained) == tx.framed[f.seqno..b.next]
  {
  }

  lemma BypassKeepsRx(c: Cfg, tx: Tx, rx: Rx, f: R.Frame, alloc: R.Alloc)
    requires TxInv(c, tx) && RxInv(c, tx, rx)
    requires f in tx.wire && f.seqno == rx.buf.next
    ensures RxInv(c, tx, Deliver(rx, f, alloc).0)
  {
    var b0 := rx.buf.(next := R.Bump(rx.buf.next));
    BufferReleases(c, tx, b0, alloc);
    TookOneMore(c, tx, R.Drain(b0, alloc), f);
    EmitExtends(c, tx, rx, R.Drain(b0, alloc), [f]);
  }

  lemma FromWireAdd(pending: R.Pending, f: R.Frame, framed: seq<Payload>, wire: seq<R.Frame>)
    requires WireOk(framed, wire) && FromWire(pending, framed, wire) && f in wire
    ensures FromWire(pending[f.seqno := f.payload], framed, wire)
  {
  }

  lemma AcceptedKeepsRx(c: Cfg, tx: Tx, rx: Rx, f: R.Frame, alloc: R.Alloc)
    requires TxInv(c, tx) && RxInv(c, tx, rx)
    requires f in tx.wire && f.seqno != rx.buf.next && R.Insert(rx.buf, f.seqno, f.payload, alloc).1 == R.Ok
    ensures RxInv(c, tx, Deliver(rx, f, alloc).0)
  {
    var b := R.Insert(rx.buf, f.seqno, f.payload, alloc).0;
    assert [] + b.drained == b.drained;
    FromWireAdd(rx.buf.pending, f, tx.framed, tx.wire);
    BufferReleases(c, tx, rx.buf.(pending := rx.buf.pending[f.seqno := f.payload]), alloc);
    EmitExtends(c, tx, rx, b, []);
  }

  lemma RefusedKeepsRx(c: Cfg, tx: Tx, rx: Rx, f: R.Frame, alloc: R.Alloc)
    requires TxInv(c, tx) && RxInv(c, tx, rx)
    requires f.seqno != rx.buf.next && R.Insert(rx.buf, f.seqno, f.payload, alloc).1 != R.Ok
    ensures RxInv(c, tx, Deliver(rx, f, alloc).0)
  {
    var b := rx.buf;
    assert R.Insert(b, f.seqno, f.payload, alloc).0 == b && [] + b.drained == b.drained;
    assert Payloads(b.drained) == tx.framed[b.next..b.next];
    EmitExtends(c, tx, rx, b, []);
  }

  lemma InsertKeepsRx(c: Cfg, tx: Tx, rx: Rx, f: R.Frame, alloc: R.Alloc)
    requires TxInv(c, tx) && RxInv(c, tx, rx)
    requires f in tx.wire && f.seqno != rx.buf.next
    ensures RxInv(c, tx, Deliver(rx, f, alloc).0)
  {
    if R.Insert(rx.buf, f.seqno, f.payload, alloc).1 == R.Ok {
      AcceptedKeepsRx(c, tx, rx, f, alloc);
    } else {
      RefusedKeepsRx(c, tx, rx, f, alloc);
    }
  }

  lemma ReceiveKeepsRx(c: Cfg, tx: Tx, rx: Rx, f: R.Frame, alloc: R.Alloc)
    requires TxInv(c, tx) && RxInv(c, tx, rx) && f in tx.wire
    ensures RxInv(c, tx, Receive(c, rx, f, alloc).0)
  {
    var rx' := rx.(state := Dispatch(rx.state, f.seqno == 0));
    assert RxInv(c, tx, rx');
    if f.seqno == rx.buf.next { BypassKeepsRx(c, tx, rx', f, alloc); } else { InsertKeepsRx(c, tx, rx', f, alloc); }
  }

  /** A step of the sender only adds frames at the end of what the receiver knows. */
  lemma RxInvGrows(c: Cfg, tx: Tx, tx': Tx, rx: Rx)
    requires RxInv(c, tx, rx)
    requires tx.framed <= tx'.framed && tx.wire <= tx'.wire
    ensures RxInv(c, tx', rx)
  {
    assert tx'.framed[..rx.buf.next] == tx.framed[..rx.buf.next];
    forall k | k in Numbers(tx.wire) ensures k in Numbers(tx'.wire) {
      var j :| 0 <= j < |tx.wire| && tx.wire[j].seqno == k;
      assert tx'.wire[j].seqno == k;
    }
  }

  // ---- grants ------------------------------------------------------------------

  ghost predicate GrantInv(c: Cfg, s: Sys) {
    && (forall g :: g in s.grants ==> g <= s.rx.rxBytes)
    && s.rx.lastGrant <= s.rx.rxBytes
    && s.tx.acked <= s.rx.rxBytes
    // what was last granted was sent
    && (!s.lost ==> s.rx.lastGrant == 0 || s.rx.lastGrant in s.grants)
    // a delivery of one grant step never goes ungranted
    && s.rx.rxBytes - s.rx.lastGrant < W.GrantStep(c.window)
  }

  /** Delivered bytes are posted bytes. */
  lemma DeliveredWithinPosted(c: Cfg, tx: Tx, rx: Rx)
    requires TxInv(c, tx) && RxInv(c, tx, rx)
    ensures Payloads(tx.wire[..rx.buf.next]) == tx.framed[..rx.buf.next]
    ensures Bytes(tx.wire) == rx.rxBytes + Bytes(tx.wire[rx.buf.next..])
    ensures Bytes(tx.wire) < U64_MODULUS
  {
    var n := rx.buf.next;
    assert Payloads(tx.wire[..n]) == tx.framed[..n];
    assert Payloads(tx.wire) == Payloads(tx.wire[..n]) + Payloads(tx.wire[n..]);
    FlattenConcat(Payloads(tx.wire[..n]), Payloads(tx.wire[n..]));
    WireWithinFramed(tx.framed, tx.wire);
  }

  /** What a delivery leaves ungranted is below one grant step. */
  lemma GrantAfter(c: Cfg, r: Rx)
    requires r.lastGrant <= r.rxBytes < U64_MODULUS
    ensures var last := if GrantDue(c, r) then r.rxBytes else r.lastGrant;
            last <= r.rxBytes && r.rxBytes - last < W.GrantStep(c.window)
  {
  }

  lemma GrantDueExact(c: Cfg, r: Rx)
    requires r.lastGrant <= r.rxBytes < U64_MODULUS
    ensures GrantDue(c, r) <==> W.Quarter(r.rxBytes - r.lastGrant, c.window)
  {
    ModSmall(r.rxBytes);
    ModSmall(r.lastGrant);
    W.ShouldGrantExact(r.rxBytes, r.lastGrant, c.window);
  }

  /**
   * A receive emits a grant exactly when the bytes written since the last one reach
   * a quarter of the window; its value is all bytes written.
   */
  lemma EmittedExact(c: Cfg, rx: Rx, f: R.Frame, alloc: R.Alloc)
    requires rx.lastGrant <= Receive(c, rx, f, alloc).0.rxBytes < U64_MODULUS
    ensures var r := Receive(c, rx, f, alloc).0;
            if W.Quarter(r.rxBytes - rx.lastGrant, c.window)
            then Emitted(c, rx, f, alloc) == {r.rxBytes} && r.lastGrant == r.rxBytes
            else Emitted(c, rx, f, alloc) == {} && r.lastGrant == rx.lastGrant
  {
    var r := Deliver(rx.(state := Dispatch(rx.state, f.seqno == 0)), f, alloc).0;
    assert r.lastGrant == rx.lastGrant && r.rxBytes == Receive(c, rx, f, alloc).0.rxBytes;
    GrantDueExact(c, r);
  }

  // ---- the invariant of every run ---------------------------------------------------

  ghost predicate Inv(c: Cfg, s: Sys) {
    TxInv(c, s.tx) && RxInv(c, s.tx, s.rx) && GrantInv(c, s)
  }

  lemma InvInit(c: Cfg)
    ensures Inv(c, Init(c))
  {
  }

  lemma InvArrive(c: Cfg, s: Sys, e: Event)
    requires Inv(c, s) && e.Arrive? && Enabled(c, s, e)
    ensures Inv(c, Next(c, s, e))
  {
    var f := s.tx.wire[e.i];
    var r := Deliver(s.rx.(state := Dispatch(s.rx.state, f.seqno == 0)), f, e.alloc).0;
    var rx := Receive(c, s.rx, f, e.alloc).0;
    ReceiveKeepsRx(c, s.tx, s.rx, f, e.alloc);
    DeliveredWithinPosted(c, s.tx, rx);
    assert r.rxBytes == rx.rxBytes >= s.rx.rxBytes && r.lastGrant == s.rx.lastGrant;
    GrantAfter(c, r);
    EmittedExact(c, s.rx, f, e.alloc);
  }

  lemma InvStep(c: Cfg, s: Sys, e: Event)
    requires Inv(c, s) && Enabled(c, s, e)
    ensures Inv(c, Next(c, s, e))
  {
    TxInvStep(c, s, e);
    if e.Arrive? {
      InvArrive(c, s, e);
    } else {
      RxInvGrows(c, s.tx, Next(c, s, e).tx, s.rx);
    }
  }

  lemma {:induction false} InvRun(c: Cfg, s: Sys, es: seq<Event>)
    requires Inv(c, s) && Legal(c, s, es)
    ensures Inv(c, Exec(c, s, es))
    decreases |es|
  {
    if es != [] {
      InvStep(c, s, es[0]);
      InvRun(c, Next(c, s, es[0]), es[1..]);
    }
  }

  lemma ReachableInv(c: Cfg, s: Sys)
    requires Reachable(c, s)
    ensures Inv(c, s)
  {
    var es :| Legal(c, Init(c), es) && Exec(c, Init(c), es) == s;
    InvInit(c);
    InvRun(c, Init(c), es);
  }
}
