/**
 * Runs that reach a refusal, a stall or a trailing byte counter. With the
 * safety half in TransportSafety they make the two conditions exact.
 */
module TransportRuns {
  import opened Base
  import W = Window
  import R = Reorder
  import opened Transport
  import opened TransportSafety

  lemma {:induction false} LegalSnoc(c: Cfg, s: Sys, es: seq<Event>, e: Event)
    requires Legal(c, s, es) && Enabled(c, Exec(c, s, es), e)
    ensures Legal(c, s, es + [e]) && Exec(c, s, es + [e]) == Next(c, Exec(c, s, es), e)
    decreases |es|
  {
    if es == [] {
      assert es + [e] == [e];
      assert [e][1..] == [];
    } else {
      LegalSnoc(c, Next(c, s, es[0]), es[1..], e);
      assert (es + [e])[1..] == es[1..] + [e];
    }
  }

  lemma ReachableNext(c: Cfg, s: Sys, e: Event)
    requires Reachable(c, s) && Enabled(c, s, e)
    ensures Reachable(c, Next(c, s, e))
  {
    var es :| Legal(c, Init(c), es) && Exec(c, Init(c), es) == s;
    LegalSnoc(c, Init(c), es, e);
  }

  lemma ReachableInit(c: Cfg)
    ensures Reachable(c, Init(c))
  {
    var none: seq<Event> := [];
    assert Legal(c, Init(c), none) && Exec(c, Init(c), none) == Init(c);
  }

  function Zeros(n: nat): Payload { seq(n, _ => 0) }

  /** A run so far without valve, allocation failure, refusal or grant. */
  ghost predicate Quiet(c: Cfg, s: Sys) {
    Reachable(c, s) && !s.valved && !s.starved && s.refused == {} && s.tx.acked == 0
  }

  /** And no grant sent or lost either. */
  ghost predicate Silent(s: Sys) { s.grants == {} && !s.lost }

  /** Read, admit and post one payload that the gate has room for. */
  lemma PostOne(c: Cfg, s: Sys, p: Payload) returns (t: Sys)
    requires Quiet(c, s) && s.tx.pc == Idle
    requires Enabled(c, s, Take(p))
    requires s.tx.txBytes == 0 || s.tx.txBytes + |p| <= c.window
    ensures Quiet(c, t) && t.rx == s.rx && t.grants == s.grants && t.lost == s.lost
    ensures t.tx == Tx(s.tx.framed + [p], Posted, s.tx.wire + [R.Frame(|s.tx.framed|, p)], s.tx.txBytes, 0)
  {
    var s1 := Next(c, s, Take(p));
    ReachableNext(c, s, Take(p));
    ReachableInv(c, s1);
    GateExact(c, s1);
    var s2 := Next(c, s1, Admit);
    ReachableNext(c, s1, Admit);
    t := Next(c, s2, Post);
    ReachableNext(c, s2, Post);
  }

  lemma SendOne(c: Cfg, s: Sys, p: Payload) returns (t: Sys)
    requires Quiet(c, s) && s.tx.pc == Idle
    requires Enabled(c, s, Take(p))
    requires s.tx.txBytes == 0 || s.tx.txBytes + |p| <= c.window
    ensures Quiet(c, t) && t.rx == s.rx && t.grants == s.grants && t.lost == s.lost
    ensures t.tx == Tx(s.tx.framed + [p], Idle, s.tx.wire + [R.Frame(|s.tx.framed|, p)], s.tx.txBytes + |p|, 0)
  {
    var r := PostOne(c, s, p);
    t := Next(c, r, Account);
    ReachableNext(c, r, Account);
  }

  // ---- refusals -----------------------------------------------------------------

  /** A number can be burned at any time: the first one at the very start. */
  lemma BurnedReachable(c: Cfg) returns (s: Sys)
    requires ValidCfg(c) && c.minPayload < U64_MODULUS
    ensures Quiet(c, s) && s.tx == Tx([Zeros(c.minPayload)], Idle, [], 0, 0) && s.rx == NewRx(c) && s.arrived == {}
    ensures Burned(s, 0)
  {
    var p := Zeros(c.minPayload);
    ReachableInit(c);
    var s0 := Init(c);
    var s1 := Next(c, s0, Take(p));
    ReachableNext(c, s0, Take(p));
    s := Next(c, s1, Burn);
    ReachableNext(c, s1, Burn);
    assert [] + [p] == [p];
  }

  /** The first `skip` numbers (none or one) burned, the next j posted with m bytes each, nothing arrived. */
  ghost predicate Loaded(c: Cfg, s: Sys, j: nat, skip: nat) {
    && Quiet(c, s) && s.tx.pc == Idle && s.rx == NewRx(c)
    && |s.tx.framed| == j + skip && |s.tx.wire| == j
    && (forall i :: 0 <= i < j ==> s.tx.wire[i].seqno == i + skip)
    && s.tx.txBytes == j * c.minPayload
    && |Flatten(s.tx.framed)| == (j + skip) * c.minPayload
  }

  lemma StartLoaded(c: Cfg, skip: nat) returns (s: Sys)
    requires ValidCfg(c) && c.minPayload <= c.window && skip <= 1
    ensures Loaded(c, s, 0, skip)
  {
    if skip == 0 {
      s := Init(c);
      ReachableInit(c);
    } else {
      s := BurnedReachable(c);
      FlattenSnoc([], Zeros(c.minPayload));
      assert [] + [Zeros(c.minPayload)] == [Zeros(c.minPayload)];
    }
  }

  lemma {:induction false} LoadFrames(c: Cfg, j: nat, skip: nat, most: nat) returns (s: Sys)
    requires ValidCfg(c) && skip <= 1 && j <= most && 1 <= most <= W.REORDER_MAX_ENTRIES + 2
    requires most * c.minPayload <= c.window
    ensures Loaded(c, s, j, skip)
    decreases j
  {
    var m := c.minPayload;
    MulMono(j, most, m);
    MulMono(1, most, m);
    if j == 0 {
      s := StartLoaded(c, skip);
    } else {
      var p := Zeros(m);
      var r := LoadFrames(c, j - 1, skip, most);
      MulSucc(j - 1, m);
      MulSucc(j - 1 + skip, m);
      MulMono(j - 1 + skip, most, m);
      s := SendOne(c, r, p);
      FlattenSnoc(r.tx.framed, p);
    }
  }

  /** The frames 1..j of a loaded state have arrived and are pending. */
  ghost predicate Piled(c: Cfg, s: Sys, j: nat, skip: nat) {
    && Quiet(c, s)
    && (forall i :: 0 <= i < |s.tx.wire| ==> s.tx.wire[i].seqno == i + skip)
    && s.rx.buf.next == 0 && s.rx.buf.drained == [] && s.rx.buf.max == W.DepthForWindow(c.window)
    && s.rx.rxBytes == s.rx.lastGrant == 0
    && |s.rx.buf.pending| == j && (forall k :: k in s.rx.buf.pending <==> 1 <= k <= j)
  }

  lemma PileOne(c: Cfg, s: Sys, j: nat, skip: nat) returns (t: Sys)
    requires Piled(c, s, j, skip) && skip <= 1 && j + 1 - skip < |s.tx.wire| && j < W.DepthForWindow(c.window)
    ensures Piled(c, t, j + 1, skip) && t.tx == s.tx
  {
    var e := Arrive(j + 1 - skip, R.Plenty, false);
    var f := s.tx.wire[j + 1 - skip];
    t := Next(c, s, e);
    ReachableNext(c, s, e);
    var p := s.rx.buf.pending[f.seqno := f.payload];
    R.AddSize(s.rx.buf.pending, f.seqno, f.payload);
    assert !R.Ready(p, 0);
    var b := R.Insert(s.rx.buf, f.seqno, f.payload, R.Plenty).0;
    assert b.pending == p && b.next == 0 && b.drained == [];
    assert Payloads([] + b.drained) == [];
  }

  lemma {:induction false} Pile(c: Cfg, s: Sys, j: nat, skip: nat) returns (t: Sys)
    requires Loaded(c, s, |s.tx.wire|, skip) && skip <= 1
    requires j - skip < |s.tx.wire| && j <= W.DepthForWindow(c.window)
    ensures Piled(c, t, j, skip) && t.tx == s.tx
  {
    if j == 0 {
      t := s;
    } else {
      t := Pile(c, s, j - 1, skip);
      t := PileOne(c, t, j - 1, skip);
    }
  }

  /** Fill the buffer behind a missing number 0, then let one more frame arrive. */
  lemma OverfullRefuses(c: Cfg, skip: nat) returns (t: Sys)
    requires ValidCfg(c) && skip <= 1 && (W.DepthForWindow(c.window) + 2 - skip) * c.minPayload <= c.window
    ensures Reachable(c, t) && !t.valved && !t.starved && t.refused != {}
    ensures skip == 0 ==> Unburned(t)
  {
    var d := W.DepthForWindow(c.window);
    var s := LoadFrames(c, d + 2 - skip, skip, d + 2 - skip);
    var u := Pile(c, s, d, skip);
    var e := Arrive(d + 1 - skip, R.Plenty, false);
    assert u.tx.wire[d + 1 - skip].seqno == d + 1;
    t := Next(c, u, e);
    ReachableNext(c, u, e);
    assert t.refused == {d + 1};
  }

  lemma UncoveredDepthRefuses(c: Cfg) returns (t: Sys)
    requires ValidCfg(c) && !W.DepthCovers(c.window, c.minPayload)
    ensures Reachable(c, t) && !t.valved && !t.starved && t.refused != {}
  {
    t := OverfullRefuses(c, 1);
  }

  /**
   * No run refuses a frame exactly when depth + 1 smallest frames exceed the
   * window.
   */
  lemma RefusalExact(c: Cfg)
    requires ValidCfg(c)
    ensures NeverRefuses(c) <==> W.DepthCovers(c.window, c.minPayload)
  {
    if W.DepthCovers(c.window, c.minPayload) {
      CoveredDepthNeverRefuses(c);
    } else {
      var t := UncoveredDepthRefuses(c);
    }
  }

  /**
   * Among runs that burn no number the missing frame is in the window too, so one
   * more frame must fit it before any is refused.
   */
  lemma RefusalExactUnburned(c: Cfg)
    requires ValidCfg(c)
    ensures NeverRefusesUnburned(c) <==> W.DepthCoversUnburned(c.window, c.minPayload)
  {
    if W.DepthCoversUnburned(c.window, c.minPayload) {
      CoveredDepthNeverRefusesUnburned(c);
    } else {
      var t := OverfullRefuses(c, 0);
    }
  }

  /** Payloads of at least max(16, ceil(window / 65536)) bytes are never refused. */
  lemma CoupledFramesNeverRefused(c: Cfg)
    requires ValidCfg(c)
    requires c.minPayload >= W.REORDER_MIN_FRAME && c.minPayload * W.REORDER_MAX_ENTRIES >= c.window
    ensures NeverRefuses(c)
  {
    W.CoupledDepthCovers(c.window, c.minPayload);
    RefusalExact(c);
  }

  /** One-byte reads under the default 1 MiB window can be refused. */
  lemma TinyFramesCanBeRefused(c: Cfg)
    requires ValidCfg(c) && c.minPayload == 1 && c.window == 0x10_0000
    ensures !NeverRefuses(c)
  {
    RefusalExact(c);
  }

  // ---- stalls ----------------------------------------------------------------------

  /** j smallest frames sent and delivered, none granted yet. */
  ghost predicate Trickled(c: Cfg, s: Sys, j: nat) {
    var n := j * c.minPayload;
    && Quiet(c, s) && Silent(s) && s.tx.pc == Idle
    && |s.tx.framed| == |s.tx.wire| == j && s.tx.txBytes == n && |Flatten(s.tx.framed)| == n
    && s.rx.buf.next == j && s.rx.buf.pending == map[] && s.rx.buf.drained == []
    && s.rx.rxBytes == n && s.rx.lastGrant == 0
  }

  /** The expected frame arriving at an empty buffer is written whole. */
  lemma EmptyBufferDelivery(c: Cfg, rx: Rx, f: R.Frame)
    requires rx.buf.pending == map[] && rx.buf.drained == [] && f.seqno == rx.buf.next < U64_MAX
    ensures var r := Deliver(rx, f, R.Plenty).0;
            && r.buf.next == rx.buf.next + 1 && r.buf.pending == map[] && r.buf.drained == []
            && r.rxBytes == rx.rxBytes + |f.payload| && r.lastGrant == rx.lastGrant
  {
    var b := R.Advance(rx.buf, R.Plenty);
    assert b.drained == [] && b.pending == map[];
    assert Payloads([f] + b.drained) == [] + [f.payload];
    FlattenSnoc([], f.payload);
  }

  lemma TrickleDelivery(c: Cfg, s: Sys, f: R.Frame)
    requires s.rx.buf.pending == map[] && s.rx.buf.drained == [] && f.seqno == s.rx.buf.next < U64_MAX
    requires s.rx.lastGrant == 0 && s.rx.rxBytes + |f.payload| < W.GrantStep(c.window)
    ensures var rx := Receive(c, s.rx, f, R.Plenty).0;
            && rx.buf.next == s.rx.buf.next + 1 && rx.buf.pending == map[] && rx.buf.drained == []
            && rx.rxBytes == s.rx.rxBytes + |f.payload| && rx.lastGrant == 0
    ensures Receive(c, s.rx, f, R.Plenty).1 == R.Ok && Emitted(c, s.rx, f, R.Plenty) == {}
  {
    EmptyBufferDelivery(c, s.rx.(state := Dispatch(s.rx.state, f.seqno == 0)), f);
    ModSmall(s.rx.rxBytes + |f.payload|);
    ModSmall(0);
  }

  /** One more smallest frame is sent. */
  lemma TrickleSend(c: Cfg, r: Sys, j: nat) returns (u: Sys)
    requires ValidCfg(c) && Trickled(c, r, j) && (j + 1) * c.minPayload < W.GrantStep(c.window)
    ensures Quiet(c, u) && Silent(u) && u.rx == r.rx && u.tx.pc == Idle && |u.tx.framed| == |u.tx.wire| == j + 1
    ensures u.tx.txBytes == |Flatten(u.tx.framed)| == (j + 1) * c.minPayload
    ensures u.tx.wire[j] == R.Frame(j, Zeros(c.minPayload))
  {
    var m := c.minPayload;
    MulSucc(j, m);
    MulMono(1, m, j + 1);
    FlattenSnoc(r.tx.framed, Zeros(m));
    u := SendOne(c, r, Zeros(m));
  }

  /** And arrives, without a grant becoming due. */
  lemma TrickleArrive(c: Cfg, u: Sys, j: nat) returns (s: Sys)
    requires Quiet(c, u) && Silent(u) && j < |u.tx.wire|
    requires u.rx.buf.pending == map[] && u.rx.buf.drained == []
    requires u.tx.wire[j].seqno == u.rx.buf.next == j < U64_MAX
    requires u.rx.lastGrant == 0 && u.rx.rxBytes + |u.tx.wire[j].payload| < W.GrantStep(c.window)
    ensures Quiet(c, s) && Silent(s) && s.tx == u.tx
    ensures s.rx.buf.next == j + 1 && s.rx.buf.pending == map[] && s.rx.buf.drained == []
    ensures s.rx.rxBytes == u.rx.rxBytes + |u.tx.wire[j].payload| && s.rx.lastGrant == 0
  {
    var e := Arrive(j, R.Plenty, false);
    TrickleDelivery(c, u, u.tx.wire[j]);
    s := Next(c, u, e);
    ReachableNext(c, u, e);
  }

  lemma {:induction false} Trickle(c: Cfg, j: nat) returns (s: Sys)
    requires ValidCfg(c) && j * c.minPayload < W.GrantStep(c.window)
    ensures Trickled(c, s, j)
  {
    if j == 0 {
      s := Init(c);
      ReachableInit(c);
    } else {
      MulSucc(j - 1, c.minPayload);
      MulMono(1, c.minPayload, j);
      var r := Trickle(c, j - 1);
      var u := TrickleSend(c, r, j - 1);
      s := TrickleArrive(c, u, j - 1);
    }
  }

  lemma CrampedWindowStalls(c: Cfg) returns (t: Sys)
    requires ValidCfg(c) && c.minPayload == 1 && !W.StepLeavesRoom(c.window, c.maxPayload)
    ensures Reachable(c, t) && !t.lost && Quiescent(t) && t.tx.framed != [] && !GateOpen(c, t.tx)
  {
    var q := W.GrantStep(c.window) - 1;
    var s := Trickle(c, q);
    var p := Zeros(c.window - q + 1);
    t := Next(c, s, Take(p));
    ReachableNext(c, s, Take(p));
    ReachableInv(c, t);
    GateExact(c, t);
  }

  /**
   * With one-byte reads possible, a quiescent sender is always admitted exactly
   * when a maximal frame fits beside one ungranted step.
   */
  lemma StallExact(c: Cfg)
    requires ValidCfg(c) && c.minPayload == 1
    ensures NeverStalls(c) <==> W.StepLeavesRoom(c.window, c.maxPayload)
  {
    if W.StepLeavesRoom(c.window, c.maxPayload) {
      RoomyWindowNeverStalls(c);
    } else {
      var t := CrampedWindowStalls(c);
    }
  }

  /** As many smallest frames as the window admits are sent and delivered, every grant for them lost. */
  ghost predicate Flooded(c: Cfg, s: Sys, j: nat) {
    && Quiet(c, s) && s.grants == {} && s.tx.pc == Idle && |s.tx.framed| == |s.tx.wire| == j
    && s.tx.txBytes == |Flatten(s.tx.framed)| == s.rx.rxBytes == j * c.minPayload
    && s.rx.buf.next == j && s.rx.buf.pending == map[] && s.rx.buf.drained == []
  }

  lemma FloodArrive(c: Cfg, u: Sys, j: nat) returns (s: Sys)
    requires Quiet(c, u) && u.grants == {} && j < |u.tx.wire| && u.rx.buf.pending == map[] && u.rx.buf.drained == []
    requires u.tx.wire[j].seqno == u.rx.buf.next == j < U64_MAX
    ensures Quiet(c, s) && s.grants == {} && s.tx == u.tx && s.rx.rxBytes == u.rx.rxBytes + |u.tx.wire[j].payload|
    ensures s.rx.buf.next == j + 1 && s.rx.buf.pending == map[] && s.rx.buf.drained == []
  {
    var e, f := Arrive(j, R.Plenty, true), u.tx.wire[j];
    EmptyBufferDelivery(c, u.rx.(state := Dispatch(u.rx.state, f.seqno == 0)), f);
    s := Next(c, u, e);
    ReachableNext(c, u, e);
  }

  lemma {:induction false} Flood(c: Cfg, j: nat) returns (s: Sys)
    requires ValidCfg(c) && (j <= 1 || j * c.minPayload <= c.window) && j * c.minPayload < U64_MODULUS
    ensures Flooded(c, s, j)
  {
    if j == 0 {
      s := Init(c);
      ReachableInit(c);
    } else {
      MulSucc(j - 1, c.minPayload);
      MulMono(1, c.minPayload, j);
      var r := Flood(c, j - 1);
      FlattenSnoc(r.tx.framed, Zeros(c.minPayload));
      var u := SendOne(c, r, Zeros(c.minPayload));
      s := FloodArrive(c, u, j - 1);
    }
  }

  /** The condition on lost grants is needed: losing them can shut out a sender under every window. */
  lemma LostGrantsStall(c: Cfg) returns (t: Sys)
    requires ValidCfg(c) && 2 * c.minPayload < U64_MODULUS
    ensures Reachable(c, t) && Quiescent(t) && t.tx.framed != [] && !GateOpen(c, t.tx)
  {
    var j := FloodLimit(c);
    var s := Flood(c, j);
    t := ShutOut(c, s, Zeros(c.minPayload));
  }

  /** How many smallest frames it takes. */
  lemma FloodLimit(c: Cfg) returns (j: nat)
    requires ValidCfg(c) && 2 * c.minPayload < U64_MODULUS
    ensures j <= 1 || j * c.minPayload <= c.window
    ensures 0 < j * c.minPayload && c.window < j * c.minPayload + c.minPayload < U64_MODULUS && j < U64_MAX - 1
  {
    var m := c.minPayload;
    j := LastBelow(c.window + 1, m);
    if j == 0 { j := 1; }
    MulMono(1, m, j);
  }

  lemma ShutOut(c: Cfg, s: Sys, p: Payload) returns (t: Sys)
    requires Reachable(c, s) && s.tx.pc == Idle && s.tx.acked == 0 && s.grants == {} && Enabled(c, s, Take(p))
    requires 0 < s.tx.txBytes == s.rx.rxBytes && s.tx.txBytes + |p| > c.window
    ensures Reachable(c, t) && Quiescent(t) && t.tx.framed != [] && !GateOpen(c, t.tx)
  {
    t := Next(c, s, Take(p));
    ReachableNext(c, s, Take(p));
    ReachableInv(c, t);
    GateExact(c, t);
  }

  /** The resolved window of any endpoint with at least four buffers never stalls a quiescent sender. */
  lemma ResolvedWindowNeverStalls(sysctl: u64, bufSize: u32, numBufs: u32, linkMbps: u32, rttNs: u64)
    requires W.BUFFER_SIZE_MIN <= bufSize <= W.BUFFER_SIZE_MAX && numBufs >= 4
    ensures NeverStalls(Cfg(W.ForStream(sysctl, bufSize, numBufs, linkMbps, rttNs), 1, W.TxMaxPayload(bufSize)))
  {
    W.ResolvedWindowLeavesRoom(sysctl, bufSize, numBufs, linkMbps, rttNs);
    RoomyWindowNeverStalls(Cfg(W.ForStream(sysctl, bufSize, numBufs, linkMbps, rttNs), 1, W.TxMaxPayload(bufSize)));
  }

  // ---- a trailing counter ---------------------------------------------------------------

  lemma LastBelow(n: nat, m: nat) returns (j: nat)
    requires n > 0 && m > 0
    ensures j * m < n <= j * m + m
  {
    j := (n - 1) / m;
    assert n - 1 == j * m + (n - 1) % m;
  }

  /**
   * Between a post and its accounting the acknowledged mark can be ahead of
   * tx_bytes, whatever the window: trickle up to the last frame before a grant is
   * due, and let the next one arrive and be granted before it is counted.
   */
  lemma AckedCanLeadSent(c: Cfg) returns (t: Sys)
    requires ValidCfg(c) && c.minPayload < U64_MODULUS
    ensures Reachable(c, t) && t.tx.pc == Posted && t.tx.acked > t.tx.txBytes
  {
    var m, p := c.minPayload, Zeros(c.minPayload);
    var j := LastBelow(W.GrantStep(c.window), m);
    MulMono(1, m, j);
    if j > 0 { MulMono(1, j, m); }
    var s := Trickle(c, j);
    var u := PostOne(c, s, p);
    t := GrantedEarly(c, u, j);
  }

  /** The frame just posted arrives, its grant is due, sent and applied. */
  lemma GrantedEarly(c: Cfg, u: Sys, j: nat) returns (t: Sys)
    requires Reachable(c, u) && j < |u.tx.wire| && u.tx.wire[j].seqno == u.rx.buf.next < U64_MAX
    requires u.rx.buf.pending == map[] && u.rx.buf.drained == [] && u.rx.lastGrant == 0
    requires W.GrantStep(c.window) <= u.rx.rxBytes + |u.tx.wire[j].payload| < U64_MODULUS
    ensures Reachable(c, t) && t.tx.pc == u.tx.pc && t.tx.txBytes == u.tx.txBytes
    ensures t.tx.acked >= u.rx.rxBytes + |u.tx.wire[j].payload|
  {
    var f, e, n := u.tx.wire[j], Arrive(j, R.Plenty, false), u.rx.rxBytes + |u.tx.wire[j].payload|;
    EmptyBufferDelivery(c, u.rx.(state := Dispatch(u.rx.state, f.seqno == 0)), f);
    ModSmall(n);
    ModSmall(0);
    var v := Next(c, u, e);
    ReachableNext(c, u, e);
    assert n in v.grants;
    t := Next(c, v, Apply(n));
    ReachableNext(c, v, Apply(n));
  }

  ghost predicate LeadsAt(c: Cfg, pc: Pc) { exists s :: Reachable(c, s) && s.tx.pc == pc && s.tx.acked > s.tx.txBytes }

  /** The mark can be ahead there and nowhere else. */
  lemma AckedLeadExact(c: Cfg, pc: Pc)
    requires ValidCfg(c) && c.minPayload < U64_MODULUS
    ensures LeadsAt(c, pc) <==> pc == Posted
  {
    forall s | Reachable(c, s) && s.tx.acked > s.tx.txBytes ensures s.tx.pc == Posted {
      ReachableInv(c, s);
      DeliveredWithinPosted(c, s.tx, s.rx);
    }
    var t := AckedCanLeadSent(c);
  }
}
