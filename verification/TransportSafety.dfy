/**
 * What every run of the transport keeps: in-order delivery, grant safety, and
 * the exact conditions under which frames are refused or the gate stalls.
 */
module TransportSafety {
  import opened Base
  import W = Window
  import R = Reorder
  import opened Transport

  // ---- end-to-end order ------------------------------------------------------

  /**
   * In every reachable state, over every interleaving, duplication and
   * allocation failure, the receiver's socket holds exactly the payloads below
   * its cursor, a prefix of everything the sender read.
   */
  lemma SocketIsPrefix(c: Cfg, s: Sys)
    requires Reachable(c, s)
    ensures s.rx.buf.next <= |s.tx.framed|
    ensures s.rx.socket == Flatten(s.tx.framed[..s.rx.buf.next])
    ensures s.rx.socket <= Flatten(s.tx.framed)
  {
    ReachableInv(c, s);
    FlattenPrefix(s.tx.framed, s.rx.buf.next);
  }

  /** While no allocation failed, an arrived and unrefused number is delivered or pending. */
  ghost predicate Retained(s: Sys) {
    !s.starved ==>
      && R.Clean(s.rx.buf)
      && forall k :: k in s.arrived && k !in s.refused ==> k < s.rx.buf.next || k in s.rx.buf.pending
  }

  /** With enough memory a drain leaves every number delivered or still pending. */
  lemma {:induction false} DrainRetains(pending: R.Pending, next: u64, budget: nat)
    ensures var d := R.DrainRun(pending, next, budget);
            && next <= d.next
            && forall k :: k in pending && d.next < U64_MAX ==> k < d.next || k in d.rest
    decreases budget
  {
    if budget != 0 && R.Ready(pending, next) {
      DrainRetains(pending - {next}, R.Bump(next), budget - 1);
    }
  }

  /** From one buffer to a later one: nothing pending is lost and nothing at the cursor waits. */
  ghost predicate Retains(b: R.Buffer, r: R.Buffer) {
    && R.Clean(r)
    && b.next <= r.next
    && forall k :: k in b.pending ==> k < r.next || k in r.pending
  }

  lemma BypassRetains(c: Cfg, tx: Tx, rx: Rx, f: R.Frame)
    requires TxInv(c, tx) && RxInv(c, tx, rx) && f in tx.wire && R.Clean(rx.buf) && f.seqno == rx.buf.next
    ensures Retains(rx.buf, Deliver(rx, f, R.Plenty).0.buf)
    ensures f.seqno < Deliver(rx, f, R.Plenty).0.buf.next
  {
    BypassKeepsRx(c, tx, rx, f, R.Plenty);
    R.PlentyAdvance(rx.buf);
    DrainRetains(rx.buf.pending, R.Bump(rx.buf.next), |rx.buf.pending|);
  }

  lemma InsertRetains(c: Cfg, tx: Tx, rx: Rx, f: R.Frame)
    requires TxInv(c, tx) && RxInv(c, tx, rx) && f in tx.wire && R.Clean(rx.buf) && f.seqno != rx.buf.next
    ensures var (r, code) := Deliver(rx, f, R.Plenty);
            && Retains(rx.buf, r.buf)
            && (code != R.NoBufs ==> f.seqno < r.buf.next || f.seqno in r.buf.pending)
  {
    InsertKeepsRx(c, tx, rx, f, R.Plenty);
    R.PlentyInsert(rx.buf, f.seqno, f.payload);
    var q := rx.buf.pending[f.seqno := f.payload];
    DrainRetains(q, rx.buf.next, |q|);
    assert f.seqno in q;
  }

  lemma ReceiveRetains(c: Cfg, tx: Tx, rx: Rx, f: R.Frame)
    requires TxInv(c, tx) && RxInv(c, tx, rx) && f in tx.wire && R.Clean(rx.buf)
    ensures var (r, code) := Receive(c, rx, f, R.Plenty);
            && Retains(rx.buf, r.buf)
            && (code != R.NoBufs ==> f.seqno < r.buf.next || f.seqno in r.buf.pending)
  {
    var rx' := rx.(state := Dispatch(rx.state, f.seqno == 0));
    if f.seqno == rx.buf.next { BypassRetains(c, tx, rx', f); } else { InsertRetains(c, tx, rx', f); }
  }

  lemma RetainedStep(c: Cfg, s: Sys, e: Event)
    requires Inv(c, s) && Retained(s) && Enabled(c, s, e)
    ensures Retained(Next(c, s, e))
  {
    if e.Arrive? && e.alloc == R.Plenty && !s.starved {
      ReceiveRetains(c, s.tx, s.rx, s.tx.wire[e.i]);
    }
  }

  lemma {:induction false} RetainedRun(c: Cfg, s: Sys, es: seq<Event>)
    requires Inv(c, s) && Retained(s) && Legal(c, s, es)
    ensures Retained(Exec(c, s, es))
    decreases |es|
  {
    if es != [] {
      RetainedStep(c, s, es[0]);
      InvStep(c, s, es[0]);
      RetainedRun(c, Next(c, s, es[0]), es[1..]);
    }
  }

  /** Once every frame has arrived, none was refused and memory sufficed, everything read was written. */
  lemma EverythingDelivered(c: Cfg, s: Sys)
    requires Reachable(c, s)
    requires !s.starved && s.refused == {}
    requires forall k :: 0 <= k < |s.tx.framed| ==> k in s.arrived
    ensures s.rx.socket == Flatten(s.tx.framed)
  {
    ReachableInv(c, s);
    var es :| Legal(c, Init(c), es) && Exec(c, Init(c), es) == s;
    InvInit(c);
    RetainedRun(c, Init(c), es);
    assert s.rx.buf.next < |s.tx.framed| ==> s.rx.buf.next in s.arrived;
    assert s.tx.framed[..|s.tx.framed|] == s.tx.framed;
  }

  // ---- a stream exists from its first frame on ------------------------------------

  /** The stream's state, told by what has arrived. */
  ghost predicate StateFollows(s: Sys) {
    && (s.rx.state == Absent <==> s.arrived == {}) && (s.first == None <==> s.arrived == {}) && s.rx.state != SynSent
    && (s.first.Some? ==> s.first.value in s.arrived) && (s.syns == 0 <==> 0 !in s.arrived)
    && (s.rx.state == Established <==> s.syns > if s.first == Some(0) then 1 else 0)
  }

  lemma {:induction false} StateFollowsRun(c: Cfg, s: Sys, es: seq<Event>)
    requires StateFollows(s) && Legal(c, s, es)
    ensures StateFollows(Exec(c, s, es))
    decreases |es|
  {
    if es != [] {
      var t := Next(c, s, es[0]);
      assert es[0].Arrive? ==> t.arrived == s.arrived + {s.tx.wire[es[0].i].seqno};
      StateFollowsRun(c, t, es[1..]);
    }
  }

  /**
   * Any first frame creates the stream, SYN or not. The handshake is complete
   * exactly when the frame that carries SYN has come to a stream that was there: at
   * all if another frame created it, and again if it did so itself.
   */
  lemma CreatedByAnyFrame(c: Cfg, s: Sys)
    requires Reachable(c, s)
    ensures s.rx.state == Absent <==> s.arrived == {}
    ensures s.rx.state == Established <==> s.syns > if s.first == Some(0) then 1 else 0
    ensures 0 in s.arrived && s.first != Some(0) ==> s.rx.state == Established
    ensures s.rx.state == Absent ==> s.rx == NewRx(c)
  {
    var es :| Legal(c, Init(c), es) && Exec(c, Init(c), es) == s;
    StateFollowsRun(c, Init(c), es);
    AbsentIsNew(c, Init(c), es);
  }

  /** Until the first frame the receive half is as it was created. */
  lemma {:induction false} AbsentIsNew(c: Cfg, s: Sys, es: seq<Event>)
    requires Legal(c, s, es) && (s.rx.state == Absent ==> s.rx == NewRx(c))
    ensures Exec(c, s, es).rx.state == Absent ==> Exec(c, s, es).rx == NewRx(c)
    decreases |es|
  {
    if es != [] {
      AbsentIsNew(c, Next(c, s, es[0]), es[1..]);
    }
  }

  // ---- numbers burned for want of a queue pair -------------------------------------

  /** A number framed but neither posted nor still held. */
  ghost predicate Burned(s: Sys, k: nat) {
    && k < |s.tx.framed|
    && k !in Numbers(s.tx.wire)
    && !(s.tx.pc in {Holding, Admitted} && k == |s.tx.framed| - 1)
  }

  lemma PostedBelow(wire: seq<R.Frame>, n: nat, k: nat)
    requires PrefixPosted(wire, n) && k < n
    ensures k in Numbers(wire)
  {
    assert wire[k].seqno == k;
  }

  lemma BurnedStep(c: Cfg, s: Sys, e: Event, k: nat)
    requires Inv(c, s) && Burned(s, k) && Enabled(c, s, e)
    ensures Burned(Next(c, s, e), k)
  {
  }

  /**
   * A frame that met no usable queue pair has used up its sequence number: from
   * then on, in every continuation, the receiver never gets past it.
   */
  lemma {:induction false} BurnedNumberBlocks(c: Cfg, s: Sys, es: seq<Event>, k: nat)
    requires Inv(c, s) && Burned(s, k) && Legal(c, s, es)
    ensures var t := Exec(c, s, es);
            t.rx.buf.next <= k && t.rx.socket <= Flatten(s.tx.framed[..k])
    decreases |es|
  {
    if es == [] {
      if k < s.rx.buf.next { PostedBelow(s.tx.wire, s.rx.buf.next, k); }
      var n := s.rx.buf.next;
      assert s.tx.framed[..k][..n] == s.tx.framed[..n];
      FlattenPrefix(s.tx.framed[..k], n);
    } else {
      var t := Next(c, s, es[0]);
      BurnedStep(c, s, es[0], k);
      InvStep(c, s, es[0]);
      BurnedNumberBlocks(c, t, es[1..], k);
      assert t.tx.framed[..k] == s.tx.framed[..k];
    }
  }

  /** A payload left out leaves the bytes short. */
  lemma ShortWithout(framed: seq<Payload>, k: nat)
    requires k < |framed| && framed[k] != []
    ensures |Flatten(framed[..k])| < |Flatten(framed)|
  {
    FlattenPrefix(framed, k + 1);
    assert framed[..k + 1] == framed[..k] + [framed[k]];
    FlattenSnoc(framed[..k], framed[k]);
  }

  /**
   * With nothing held, memory enough and no refusal, once every posted frame has
   * arrived: everything read was written exactly when no number was burned.
   */
  lemma DeliveredExact(c: Cfg, s: Sys)
    requires ValidCfg(c) && Reachable(c, s) && !s.starved && s.refused == {} && s.tx.pc !in {Holding, Admitted}
    requires forall f :: f in s.tx.wire ==> f.seqno in s.arrived
    ensures s.rx.socket == Flatten(s.tx.framed) <==> forall k :: !Burned(s, k)
  {
    ReachableInv(c, s);
    forall k | Burned(s, k) ensures |s.rx.socket| < |Flatten(s.tx.framed)| {
      BurnedNumberBlocks(c, s, [], k);
      ShortWithout(s.tx.framed, k);
    }
    if forall k :: !Burned(s, k) {
      forall k | 0 <= k < |s.tx.framed| ensures k in s.arrived {
        assert !Burned(s, k);
        var i :| 0 <= i < |s.tx.wire| && s.tx.wire[i].seqno == k;
        assert s.tx.wire[i] in s.tx.wire;
      }
      EverythingDelivered(c, s);
    }
  }

  // ---- grants ------------------------------------------------------------------------

  /** The acknowledged high-water mark never decreases. */
  lemma {:induction false} AckedMonotone(c: Cfg, s: Sys, es: seq<Event>)
    requires Legal(c, s, es)
    ensures s.tx.acked <= Exec(c, s, es).tx.acked
    decreases |es|
  {
    if es != [] { AckedMonotone(c, Next(c, s, es[0]), es[1..]); }
  }

  /** What an open gate allows: the frame fits the window, or nothing is in flight. */
  ghost predicate Fits(c: Cfg, posted: nat, acked: nat, len: nat) {
    posted == acked || posted - acked + len <= c.window
  }

  /**
   * Under any loss, duplication and reordering of grants the mark never exceeds
   * what was delivered, and where the gate is evaluated it never exceeds
   * tx_bytes, so the unsigned subtraction there is exact.
   */
  lemma GrantSafety(c: Cfg, s: Sys)
    requires Reachable(c, s)
    ensures s.tx.acked <= s.rx.rxBytes <= Bytes(s.tx.wire)
    ensures s.tx.pc == Holding ==> s.tx.acked <= s.tx.txBytes < U64_MODULUS
    ensures s.tx.pc == Holding ==>
              s.tx.framed != [] && (GateOpen(c, s.tx) <==> Fits(c, s.tx.txBytes, s.tx.acked, |Held(s.tx)|))
  {
    ReachableInv(c, s);
    DeliveredWithinPosted(c, s.tx, s.rx);
    if s.tx.pc == Holding { GateExact(c, s); }
  }

  lemma HeldCountsOnce(c: Cfg, tx: Tx)
    requires TxInv(c, tx) && tx.pc == Holding
    ensures Bytes(tx.wire) + |Held(tx)| < U64_MODULUS
  {
    var n := |tx.framed| - 1;
    assert WireOk(tx.framed[..n], tx.wire);
    WireWithinFramed(tx.framed[..n], tx.wire);
    assert tx.framed == tx.framed[..n] + [Held(tx)];
    FlattenSnoc(tx.framed[..n], Held(tx));
  }

  lemma GateNumbers(c: Cfg, tx: Tx)
    requires tx.framed != [] && tx.acked <= tx.txBytes && tx.txBytes + |Held(tx)| < U64_MODULUS
    ensures GateOpen(c, tx) <==> Fits(c, tx.txBytes, tx.acked, |Held(tx)|)
  {
    ModSmall(tx.txBytes);
    ModSmall(tx.acked);
    W.HasRoomExact(tx.txBytes, tx.acked, c.window, |Held(tx)|);
  }

  lemma GateExact(c: Cfg, s: Sys)
    requires Inv(c, s) && s.tx.pc == Holding
    ensures s.tx.txBytes == Bytes(s.tx.wire) && s.tx.acked <= s.tx.txBytes
    ensures GateOpen(c, s.tx) <==> Fits(c, s.tx.txBytes, s.tx.acked, |Held(s.tx)|)
  {
    DeliveredWithinPosted(c, s.tx, s.rx);
    HeldCountsOnce(c, s.tx);
    GateNumbers(c, s.tx);
  }

  /** Without the valve, in-flight bytes fit the window or belong to one frame. */
  ghost predicate Windowed(c: Cfg, s: Sys) {
    !s.valved ==>
      && (s.tx.pc == Admitted ==> s.tx.framed != [] && Fits(c, Bytes(s.tx.wire), s.tx.acked, |Held(s.tx)|))
      && (Bytes(s.tx.wire) - s.tx.acked <= c.window
          || (s.tx.wire != [] && Bytes(s.tx.wire[..|s.tx.wire| - 1]) <= s.tx.acked))
  }

  lemma WindowedPost(c: Cfg, s: Sys)
    requires Inv(c, s) && Windowed(c, s) && Enabled(c, s, Post)
    ensures Windowed(c, Next(c, s, Post))
  {
    var f := R.Frame(|s.tx.framed| - 1, Held(s.tx));
    var wire := s.tx.wire + [f];
    assert wire[..|wire| - 1] == s.tx.wire;
    BytesSnoc(s.tx.wire, f);
  }

  lemma WindowedStep(c: Cfg, s: Sys, e: Event)
    requires Inv(c, s) && Windowed(c, s) && Enabled(c, s, e)
    ensures Windowed(c, Next(c, s, e))
  {
    match e
    case Admit => GateExact(c, s);
    case Post => WindowedPost(c, s);
    case Apply(g) => DeliveredWithinPosted(c, s.tx, s.rx);
    case _ =>
  }

  lemma {:induction false} WindowedRun(c: Cfg, s: Sys, es: seq<Event>)
    requires Inv(c, s) && Windowed(c, s) && Legal(c, s, es)
    ensures Windowed(c, Exec(c, s, es))
    decreases |es|
  {
    if es != [] {
      WindowedStep(c, s, es[0]);
      InvStep(c, s, es[0]);
      WindowedRun(c, Next(c, s, es[0]), es[1..]);
    }
  }

  lemma ReachableWindowed(c: Cfg, s: Sys)
    requires Reachable(c, s)
    ensures Inv(c, s) && Windowed(c, s)
  {
    ReachableInv(c, s);
    var es :| Legal(c, Init(c), es) && Exec(c, Init(c), es) == s;
    InvInit(c);
    assert Payloads([]) == [];
    WindowedRun(c, Init(c), es);
  }

  /** Without the valve, posted minus acknowledged never exceeds the window or one frame. */
  lemma InFlightBound(c: Cfg, s: Sys)
    requires Reachable(c, s) && !s.valved
    ensures Bytes(s.tx.wire) - s.tx.acked <= Max(c.window, c.maxPayload)
  {
    ReachableWindowed(c, s);
    if s.tx.wire != [] {
      var n := |s.tx.wire| - 1;
      assert s.tx.wire == s.tx.wire[..n] + [s.tx.wire[n]];
      BytesSnoc(s.tx.wire[..n], s.tx.wire[n]);
    }
  }

  // ---- no spurious refusal ---------------------------------------------------------------

  /** Bytes of frames that are each at least m long. */
  lemma {:induction false} BytesAtLeast(fs: seq<R.Frame>, m: nat)
    requires forall i :: 0 <= i < |fs| ==> |fs[i].payload| >= m
    ensures Bytes(fs) >= |fs| * m
    decreases |fs|
  {
    if fs != [] {
      var n := |fs| - 1;
      BytesAtLeast(fs[..n], m);
      assert fs == fs[..n] + [fs[n]];
      BytesSnoc(fs[..n], fs[n]);
      MulSucc(n, m);
    }
  }

  lemma {:induction false} DistinctNumbers(framed: seq<Payload>, fs: seq<R.Frame>)
    requires WireOk(framed, fs)
    ensures |Numbers(fs)| == |fs|
    decreases |fs|
  {
    if fs != [] {
      var n := |fs| - 1;
      DistinctNumbers(framed, fs[..n]);
      assert Numbers(fs) == Numbers(fs[..n]) + {fs[n].seqno} by {
        assert fs == fs[..n] + [fs[n]];
      }
      assert fs[n].seqno !in Numbers(fs[..n]);
    }
  }

  lemma SubsetSize(a: set<u64>, b: set<u64>)
    requires a <= b
    ensures |a| <= |b|
  {
    assert b == a + (b - a);
  }

  /** A posted number at or above the cursor lies beyond the delivered prefix of the wire. */
  lemma BeyondPrefix(wire: seq<R.Frame>, n: nat, k: u64)
    requires PrefixPosted(wire, n) && k in Numbers(wire) && n <= k
    ensures k in Numbers(wire[n..])
  {
  }

  lemma RefusalFacts(rx: Rx, f: R.Frame, c: Cfg)
    requires Receive(c, rx, f, R.Plenty).1 == R.NoBufs
    ensures |rx.buf.pending| >= rx.buf.max && f.seqno !in rx.buf.pending && rx.buf.next < f.seqno
  {
  }

  /** Posted numbers at or above the cursor are as many frames beyond the delivered prefix. */
  lemma FramesBeyond(framed: seq<Payload>, wire: seq<R.Frame>, keys: set<u64>, n: nat)
    requires WireOk(framed, wire) && PrefixPosted(wire, n)
    requires keys <= Numbers(wire) && (forall j :: j in keys ==> n <= j)
    ensures n + |keys| <= |wire|
  {
    var rest := wire[n..];
    forall j | j in keys ensures j in Numbers(rest) {
      BeyondPrefix(wire, n, j);
    }
    assert WireOk(framed, rest);
    DistinctNumbers(framed, rest);
    SubsetSize(keys, Numbers(rest));
  }

  /** A refused frame and all pending ones are posted but undelivered. */
  lemma RefusalNeedsFrames(framed: seq<Payload>, wire: seq<R.Frame>, keys: set<u64>, n: nat, k: u64)
    requires WireOk(framed, wire) && PrefixPosted(wire, n)
    requires keys <= Numbers(wire) && (forall j :: j in keys ==> n < j)
    requires k in Numbers(wire) && k !in keys && n < k
    ensures n + |keys| + 1 <= |wire|
  {
    FramesBeyond(framed, wire, keys + {k}, n);
  }

  lemma BytesSplit(wire: seq<R.Frame>, i: nat, j: nat)
    requires i <= j <= |wire|
    ensures Bytes(wire[..j]) == Bytes(wire[..i]) + Bytes(wire[i..j])
  {
    assert Payloads(wire[..j]) == Payloads(wire[..i]) + Payloads(wire[i..j]);
    FlattenConcat(Payloads(wire[..i]), Payloads(wire[i..j]));
  }

  lemma WireSized(c: Cfg, tx: Tx, fs: seq<R.Frame>)
    requires TxInv(c, tx) && forall f :: f in fs ==> f in tx.wire
    ensures Bytes(fs) >= |fs| * c.minPayload
  {
    forall i | 0 <= i < |fs| ensures |fs[i].payload| >= c.minPayload { assert fs[i] in tx.wire; }
    BytesAtLeast(fs, c.minPayload);
  }

  /** With two frames undelivered, what precedes the last posted one is not all acknowledged. */
  lemma LastIsNotAlone(c: Cfg, s: Sys)
    requires ValidCfg(c) && Inv(c, s) && s.rx.buf.next + 2 <= |s.tx.wire|
    ensures Bytes(s.tx.wire[..|s.tx.wire| - 1]) > s.tx.acked
  {
    var n: nat, w, last := s.rx.buf.next, s.tx.wire, |s.tx.wire| - 1;
    DeliveredWithinPosted(c, s.tx, s.rx);
    BytesSplit(w, n, last);
    WireSized(c, s.tx, w[n..last]);
    MulMono(1, |w[n..last]|, c.minPayload);
  }

  /** Two or more undelivered frames are within the window, so their number is bounded by it. */
  lemma UndeliveredFitWindow(c: Cfg, s: Sys)
    requires ValidCfg(c) && Inv(c, s) && Windowed(c, s) && !s.valved
    requires s.rx.buf.next + 2 <= |s.tx.wire|
    ensures (|s.tx.wire| - s.rx.buf.next) * c.minPayload <= c.window
  {
    LastIsNotAlone(c, s);
    DeliveredWithinPosted(c, s.tx, s.rx);
    WireSized(c, s.tx, s.tx.wire[s.rx.buf.next..]);
  }

  /** So their bytes need a window the depth does not cover. */
  lemma RefusalNeedsWindow(c: Cfg, s: Sys, i: nat)
    requires ValidCfg(c) && Inv(c, s) && Windowed(c, s) && R.Clean(s.rx.buf) && !s.valved
    requires i < |s.tx.wire| && Receive(c, s.rx, s.tx.wire[i], R.Plenty).1 == R.NoBufs
    ensures !W.DepthCovers(c.window, c.minPayload)
  {
    var d := W.DepthForWindow(c.window);
    var k := s.tx.wire[i].seqno;
    RefusalFacts(s.rx, s.tx.wire[i], c);
    assert k in Numbers(s.tx.wire);
    RefusalNeedsFrames(s.tx.framed, s.tx.wire, s.rx.buf.pending.Keys, s.rx.buf.next, k);
    UndeliveredFitWindow(c, s);
    MulMono(d + 1, |s.tx.wire| - s.rx.buf.next, c.minPayload);
  }

  lemma {:induction false} NoRefusalRun(c: Cfg, s: Sys, es: seq<Event>)
    requires ValidCfg(c) && W.DepthCovers(c.window, c.minPayload)
    requires Inv(c, s) && Windowed(c, s) && Retained(s) && Legal(c, s, es)
    requires !s.valved && !s.starved ==> s.refused == {}
    ensures var t := Exec(c, s, es); !t.valved && !t.starved ==> t.refused == {}
    decreases |es|
  {
    if es != [] {
      var t := Next(c, s, es[0]);
      if es[0].Arrive? && !t.valved && !t.starved && Receive(c, s.rx, s.tx.wire[es[0].i], R.Plenty).1 == R.NoBufs {
        RefusalNeedsWindow(c, s, es[0].i);
      }
      RetainedStep(c, s, es[0]);
      WindowedStep(c, s, es[0]);
      InvStep(c, s, es[0]);
      NoRefusalRun(c, t, es[1..]);
    }
  }

  /** No run without valve and allocation failure has refused a frame. */
  ghost predicate NeverRefuses(c: Cfg) {
    forall s :: Reachable(c, s) && !s.valved && !s.starved ==> s.refused == {}
  }

  lemma CoveredDepthNeverRefuses(c: Cfg)
    requires ValidCfg(c) && W.DepthCovers(c.window, c.minPayload)
    ensures NeverRefuses(c)
  {
    forall s | Reachable(c, s) && !s.valved && !s.starved ensures s.refused == {} {
      var es :| Legal(c, Init(c), es) && Exec(c, Init(c), es) == s;
      InvInit(c);
      assert Payloads([]) == [];
      NoRefusalRun(c, Init(c), es);
    }
  }

  // ---- the same without burned numbers -----------------------------------------------------

  /** Every number below the last posted one was posted. */
  ghost predicate Unburned(s: Sys) { forall i :: 0 <= i < |s.tx.wire| ==> s.tx.wire[i].seqno == i }

  lemma UnburnedRefusalNeedsFrames(c: Cfg, s: Sys, i: nat)
    requires Inv(c, s) && R.Clean(s.rx.buf) && Unburned(s)
    requires i < |s.tx.wire| && Receive(c, s.rx, s.tx.wire[i], R.Plenty).1 == R.NoBufs
    ensures s.rx.buf.next + W.DepthForWindow(c.window) + 2 <= |s.tx.wire|
  {
    var n: nat, k := s.rx.buf.next, s.tx.wire[i].seqno;
    RefusalFacts(s.rx, s.tx.wire[i], c);
    assert s.tx.wire[n].seqno == n && s.tx.wire[n] in s.tx.wire && k in Numbers(s.tx.wire);
    UnburnedFrames(s.tx.framed, s.tx.wire, s.rx.buf.pending.Keys, n, k);
  }

  /** Then the frame the receiver waits for is in the window as well. */
  lemma UnburnedRefusalNeedsWindow(c: Cfg, s: Sys, i: nat)
    requires ValidCfg(c) && Inv(c, s) && Windowed(c, s) && R.Clean(s.rx.buf) && !s.valved && Unburned(s)
    requires i < |s.tx.wire| && Receive(c, s.rx, s.tx.wire[i], R.Plenty).1 == R.NoBufs
    ensures !W.DepthCoversUnburned(c.window, c.minPayload)
  {
    var d := W.DepthForWindow(c.window);
    var n: nat := s.rx.buf.next;
    assert n + d + 2 <= |s.tx.wire| by { UnburnedRefusalNeedsFrames(c, s, i); }
    UndeliveredFitWindow(c, s);
    MulMono(d + 2, |s.tx.wire| - n, c.minPayload);
  }

  lemma UnburnedFrames(framed: seq<Payload>, wire: seq<R.Frame>, keys: set<u64>, n: nat, k: u64)
    requires WireOk(framed, wire) && PrefixPosted(wire, n) && n < U64_MAX
    requires keys <= Numbers(wire) && (forall j :: j in keys ==> n < j)
    requires k in Numbers(wire) && k !in keys && n < k && n in Numbers(wire)
    ensures n + |keys| + 2 <= |wire|
  {
    var u: u64 := n;
    FramesBeyond(framed, wire, keys + {k} + {u}, n);
  }

  lemma {:induction false} WireGrows(c: Cfg, s: Sys, es: seq<Event>)
    requires Legal(c, s, es)
    ensures s.tx.wire <= Exec(c, s, es).tx.wire
    decreases |es|
  {
    if es != [] { WireGrows(c, Next(c, s, es[0]), es[1..]); }
  }

  lemma {:induction false} UnburnedRun(c: Cfg, s: Sys, es: seq<Event>)
    requires ValidCfg(c) && W.DepthCoversUnburned(c.window, c.minPayload)
    requires Inv(c, s) && Windowed(c, s) && Retained(s) && Legal(c, s, es)
    requires !s.valved && !s.starved ==> s.refused == {}
    ensures var t := Exec(c, s, es); !t.valved && !t.starved && Unburned(t) ==> t.refused == {}
    decreases |es|
  {
    if es != [] {
      var e, t, z := es[0], Next(c, s, es[0]), Exec(c, s, es);
      WireGrows(c, s, es);
      if !z.valved && !z.starved && Unburned(z) {
        StaysOff(c, t, es[1..]);
        assert Unburned(s) by {
          forall i | 0 <= i < |s.tx.wire| ensures s.tx.wire[i].seqno == i { assert s.tx.wire[i] == z.tx.wire[i]; }
        }
        if e.Arrive? && Receive(c, s.rx, s.tx.wire[e.i], R.Plenty).1 == R.NoBufs {
          UnburnedRefusalNeedsWindow(c, s, e.i);
        }
        RetainedStep(c, s, e);
        WindowedStep(c, s, e);
        InvStep(c, s, e);
        UnburnedRun(c, t, es[1..]);
      }
    }
  }

  /** The valve and a failed allocation are remembered. */
  lemma {:induction false} StaysOff(c: Cfg, s: Sys, es: seq<Event>)
    requires Legal(c, s, es)
    ensures s.valved ==> Exec(c, s, es).valved
    ensures s.starved ==> Exec(c, s, es).starved
    decreases |es|
  {
    if es != [] { StaysOff(c, Next(c, s, es[0]), es[1..]); }
  }

  /** No such run in which no number was burned has refused a frame. */
  ghost predicate NeverRefusesUnburned(c: Cfg) {
    forall s :: Reachable(c, s) && !s.valved && !s.starved && Unburned(s) ==> s.refused == {}
  }

  lemma CoveredDepthNeverRefusesUnburned(c: Cfg)
    requires ValidCfg(c) && W.DepthCoversUnburned(c.window, c.minPayload)
    ensures NeverRefusesUnburned(c)
  {
    forall s | Reachable(c, s) && !s.valved && !s.starved && Unburned(s) ensures s.refused == {} {
      var es :| Legal(c, Init(c), es) && Exec(c, Init(c), es) == s;
      InvInit(c);
      assert Payloads([]) == [];
      UnburnedRun(c, Init(c), es);
    }
  }

  // ---- the ends of the sender's loop ------------------------------------------------------

  /** Once the sender has stopped it takes, posts and counts nothing more, whatever still arrives. */
  lemma {:induction false} StoppedForever(c: Cfg, s: Sys, es: seq<Event>)
    requires s.tx.pc == Stopped && Legal(c, s, es)
    ensures var t := Exec(c, s, es);
            t.tx.pc == Stopped && t.tx.framed == s.tx.framed && t.tx.wire == s.tx.wire && t.tx.txBytes == s.tx.txBytes
    decreases |es|
  {
    if es != [] { StoppedForever(c, Next(c, s, es[0]), es[1..]); }
  }

  /** A stop ends the loop, and the valve lets the held frame through: it can be posted at once, gate or not. */
  lemma StopAndValve(c: Cfg, s: Sys)
    requires Reachable(c, s)
    ensures Enabled(c, s, Stop) ==> Next(c, s, Stop).tx.pc == Stopped
    ensures Enabled(c, s, Valve) ==>
              && Enabled(c, Next(c, s, Valve), Post)
              && Next(c, Next(c, s, Valve), Post).tx.wire == s.tx.wire + [R.Frame(|s.tx.framed| - 1, Held(s.tx))]
  {
    ReachableInv(c, s);
  }

  /** Whatever has happened, the sender's next step is there: a held frame may be burned or valved and is admitted exactly
      when the gate is open, an admitted one is posted, a posted one accounted for. */
  lemma SenderNeverStuck(c: Cfg, s: Sys)
    requires Reachable(c, s)
    ensures s.tx.pc == Holding ==>
              && s.tx.framed != [] && Enabled(c, s, Burn) && Enabled(c, s, Valve)
              && (Enabled(c, s, Admit) <==> GateOpen(c, s.tx))
    ensures s.tx.pc == Admitted ==> Enabled(c, s, Post)
    ensures s.tx.pc == Posted ==> Enabled(c, s, Account)
    ensures s.tx.pc != Posted ==> Enabled(c, s, Stop)
  {
    ReachableInv(c, s);
  }

  /** A grant counts as lost only when one was due and could not be sent. */
  lemma {:induction false} LostNeedsLoss(c: Cfg, s: Sys, es: seq<Event>)
    requires Legal(c, s, es) && !s.lost && forall e :: e in es ==> !(e.Arrive? && e.grantLost)
    ensures !Exec(c, s, es).lost
    decreases |es|
  {
    if es != [] {
      assert es[0] in es;
      LostNeedsLoss(c, Next(c, s, es[0]), es[1..]);
    }
  }

  lemma LostNeedsDue(c: Cfg, s: Sys, e: Event)
    requires Inv(c, s) && Enabled(c, s, e) && !s.lost && Next(c, s, e).lost
    ensures e.Arrive? && e.grantLost && W.Quarter(Next(c, s, e).rx.rxBytes - s.rx.lastGrant, c.window)
  {
    var rx := Receive(c, s.rx, s.tx.wire[e.i], e.alloc).0;
    ReceiveKeepsRx(c, s.tx, s.rx, s.tx.wire[e.i], e.alloc);
    DeliveredWithinPosted(c, s.tx, rx);
    InvStep(c, s, e);
    EmittedExact(c, s.rx, s.tx.wire[e.i], e.alloc);
  }

  // ---- no quiescent stall ----------------------------------------------------------------

  /** A frame is held, everything posted was delivered, and every grant that was sent has been applied. */
  ghost predicate Quiescent(s: Sys) {
    && s.tx.pc == Holding
    && s.rx.rxBytes == Bytes(s.tx.wire)
    && forall g :: g in s.grants ==> g <= s.tx.acked
  }

  /** As long as no grant was lost, a quiescent sender is admitted. */
  ghost predicate NeverStalls(c: Cfg) {
    forall s :: Reachable(c, s) && !s.lost && Quiescent(s) ==> s.tx.framed != [] && GateOpen(c, s.tx)
  }

  /** As long as no grant was lost, the receiver's last one is among those sent, and less than a step is ungranted. */
  lemma LastGrantSent(c: Cfg, s: Sys)
    requires Reachable(c, s)
    ensures !s.lost ==> s.rx.lastGrant == 0 || s.rx.lastGrant in s.grants
    ensures s.rx.lastGrant <= s.rx.rxBytes && 4 * (s.rx.rxBytes - s.rx.lastGrant) <= Max(0, c.window - 4)
  {
    ReachableInv(c, s);
  }

  lemma RoomyWindowNeverStalls(c: Cfg)
    requires W.StepLeavesRoom(c.window, c.maxPayload)
    ensures NeverStalls(c)
  {
    forall s | Reachable(c, s) && !s.lost && Quiescent(s) ensures s.tx.framed != [] && GateOpen(c, s.tx) {
      ReachableInv(c, s);
      GateExact(c, s);
    }
  }
}
