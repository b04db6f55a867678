/**
 * The per-stream reorder buffer on values.
 *
 * Two backends exist: the kernel's search tree plus drained list
 * (kernel/urp_reorder.c) and the map-based Rust twin
 * (crates/uds-rdma-protocol/src/reorder.rs). This module gives both as
 * functions; ReorderTree and ReorderRust hold the imperative forms proved
 * against them.
 */
module Reorder {
  import opened Base

  datatype Frame = Frame(seqno: u64, payload: Payload)

  type Pending = map<u64, Payload>

  /** 0, -EEXIST, -ENOBUFS, -ENOMEM and -ENOENT. */
  datatype Code = Ok | Exist | NoBufs | NoMem | NoEnt

  /**
   * How the allocator answers during one call: every request succeeds, or the
   * tree node may fail and the drain loop's allocations fail after `budget`
   * successes (the loop stops at the first failure, so later answers are moot).
   */
  datatype Alloc = Plenty | Scarce(nodeOk: bool, budget: nat)

  /** The C buffer: tree contents, frames drained but not yet popped, cursor, cap. */
  datatype Buffer = Buffer(pending: Pending, drained: seq<Frame>, next: u64, max: nat)

  /** The cursor increment, saturating at the top of the sequence space. */
  function Bump(n: u64): u64 { if n == U64_MAX then n else n + 1 }

  function Sat(n: nat): u64 { if n > U64_MAX then U64_MAX else n }

  /** The smallest pending key is the cursor, which is what rb_first tests. */
  predicate Ready(pending: Pending, next: u64) {
    next in pending && forall k :: k in pending ==> next <= k
  }

  /** No pending key at or below the cursor. */
  predicate Clean(b: Buffer) {
    forall k :: k in b.pending ==> b.next < k
  }

  /** What a drain moves out of the tree, what stays, and where the cursor ends. */
  datatype Drainage = Drainage(run: seq<Frame>, rest: Pending, next: u64)

  function DrainRun(pending: Pending, next: u64, budget: nat): Drainage
    decreases budget
  {
    if budget == 0 || !Ready(pending, next) then Drainage([], pending, next)
    else
      var d := DrainRun(pending - {next}, Bump(next), budget - 1);
      d.(run := [Frame(next, pending[next])] + d.run)
  }

  function Budget(alloc: Alloc, pending: Pending): nat {
    match alloc
    case Plenty => |pending|
    case Scarce(_, budget) => budget
  }

  /** Move the contiguous prefix to the drained list, as far as memory allows. */
  function DrainBy(b: Buffer, budget: nat): Buffer {
    var d := DrainRun(b.pending, b.next, budget);
    Buffer(d.rest, b.drained + d.run, d.next, b.max)
  }

  function Drain(b: Buffer, alloc: Alloc): Buffer { DrainBy(b, Budget(alloc, b.pending)) }

  predicate NodeOk(alloc: Alloc) { alloc.Plenty? || alloc.nodeOk }

  function Insert(b: Buffer, seqno: u64, payload: Payload, alloc: Alloc): (Buffer, Code) {
    if seqno < b.next then (b, Exist)
    else if seqno in b.pending then (b, Exist)
    else if |b.pending| >= b.max && seqno != b.next then (b, NoBufs)
    else if !NodeOk(alloc) then (b, NoMem)
    else (Drain(b.(pending := b.pending[seqno := payload]), alloc), Ok)
  }

  function Advance(b: Buffer, alloc: Alloc): Buffer {
    Drain(b.(next := Bump(b.next)), alloc)
  }

  /** Pop the oldest drained frame into a buffer of `cap` bytes. */
  function DrainNext(b: Buffer, cap: nat): (Buffer, Code) {
    if b.drained == [] then (b, NoEnt)
    else if cap < |b.drained[0].payload| then (b, NoBufs)
    else (b.(drained := b.drained[1..]), Ok)
  }

  /** Which answer an insert gives: known or passed first, then no room except for the expected frame, then no memory;
      only an accepted frame changes the buffer. */
  lemma InsertExact(b: Buffer, seqno: u64, payload: Payload, alloc: Alloc)
    ensures var (r, code) := Insert(b, seqno, payload, alloc);
            var known := seqno < b.next || seqno in b.pending;
            var crowded := seqno != b.next && |b.pending| >= b.max;
            && (code == Exist <==> known)
            && (code == NoBufs <==> !known && crowded)
            && (code == NoMem <==> !known && !crowded && alloc.Scarce? && !alloc.nodeOk)
            && (code == Ok <==> !known && !crowded && (alloc.Plenty? || alloc.nodeOk))
            && (code != Ok ==> r == b)
  {
  }

  /** A pop takes the oldest drained frame exactly when there is one and it fits. */
  lemma DrainNextExact(b: Buffer, cap: nat)
    ensures var (r, code) := DrainNext(b, cap);
            && (code == NoEnt <==> b.drained == [])
            && (code == NoBufs <==> b.drained != [] && |b.drained[0].payload| > cap)
            && (code == Ok <==> b.drained != [] && |b.drained[0].payload| <= cap)
            && (code == Ok ==> b.drained == [b.drained[0]] + r.drained && r == b.(drained := r.drained))
            && (code != Ok ==> r == b)
  {
  }

  // ---- what one drain does ------------------------------------------------

  ghost function Frames(pending: Pending): multiset<Frame> {
    multiset(set k | k in pending :: Frame(k, pending[k]))
  }

  lemma FramesRemove(pending: Pending, k: u64)
    requires k in pending
    ensures Frames(pending) == Frames(pending - {k}) + multiset{Frame(k, pending[k])}
  {
    var all := set j | j in pending :: Frame(j, pending[j]);
    var rest := set j | j in pending - {k} :: Frame(j, (pending - {k})[j]);
    forall f | f in all ensures f in rest + {Frame(k, pending[k])} {
      if f.seqno != k { assert f.seqno in pending - {k} && f == Frame(f.seqno, (pending - {k})[f.seqno]); }
    }
    assert all == rest + {Frame(k, pending[k])};
    assert Frame(k, pending[k]) !in rest;
  }

  lemma FramesAdd(pending: Pending, k: u64, p: Payload)
    requires k !in pending
    ensures Frames(pending[k := p]) == Frames(pending) + multiset{Frame(k, p)}
  {
    FramesRemove(pending[k := p], k);
    assert pending[k := p] - {k} == pending;
  }

  ghost predicate Consecutive(fs: seq<Frame>, next: u64) {
    forall i :: 0 <= i < |fs| ==> fs[i].seqno == Sat(next + i)
  }

  /** A drain takes consecutive numbers, however many allocations succeed. */
  lemma {:induction false} DrainNumbers(pending: Pending, next: u64, budget: nat)
    ensures var d := DrainRun(pending, next, budget);
            Consecutive(d.run, next) && d.next == Sat(next + |d.run|)
    decreases budget
  {
    if budget != 0 && Ready(pending, next) {
      DrainNumbers(pending - {next}, Bump(next), budget - 1);
    }
  }

  /** A drain loses no frame and invents none. */
  lemma {:induction false} DrainConserves(pending: Pending, next: u64, budget: nat)
    ensures var d := DrainRun(pending, next, budget);
            Frames(pending) == Frames(d.rest) + multiset(d.run)
    decreases budget
  {
    if budget != 0 && Ready(pending, next) {
      var f, d := Frame(next, pending[next]), DrainRun(pending - {next}, Bump(next), budget - 1);
      var before, rest, run := Frames(pending - {next}), Frames(d.rest), multiset(d.run);
      assert before == rest + run by { DrainConserves(pending - {next}, Bump(next), budget - 1); }
      assert Frames(pending) == before + multiset{f} by { FramesRemove(pending, next); }
      assert multiset([f] + d.run) == multiset{f} + run;
    }
  }

  ghost predicate Submap(a: Pending, b: Pending) {
    forall k :: k in a ==> k in b && a[k] == b[k]
  }

  lemma {:induction false} DrainTakesFrom(pending: Pending, next: u64, budget: nat)
    ensures var d := DrainRun(pending, next, budget);
            && Submap(d.rest, pending)
            && forall f :: f in d.run ==> f.seqno in pending && pending[f.seqno] == f.payload
    decreases budget
  {
    if budget != 0 && Ready(pending, next) {
      DrainTakesFrom(pending - {next}, Bump(next), budget - 1);
    }
  }

  ghost predicate AtOrAbove(pending: Pending, next: u64) { forall k :: k in pending ==> next <= k }

  lemma RemoveSize(pending: Pending, k: u64)
    requires k in pending
    ensures |pending - {k}| == |pending| - 1
  {
  }

  lemma AddSize(pending: Pending, k: u64, p: Payload)
    requires k !in pending
    ensures |pending[k := p]| == |pending| + 1
  {
  }

  predicate HasMemory(alloc: Alloc) { alloc.Plenty? || alloc.budget > 0 }

  function Spend(alloc: Alloc): Alloc
    requires HasMemory(alloc)
  {
    match alloc case Plenty => Plenty case Scarce(n, budget) => Scarce(n, budget - 1)
  }

  /** The expected frame queued. */
  function Moved(b: Buffer): Buffer
    requires b.next in b.pending
  {
    Buffer(b.pending - {b.next}, b.drained + [Frame(b.next, b.pending[b.next])], Bump(b.next), b.max)
  }

  /** One turn of the drain loop: stop at a gap or without memory, else queue one frame and go on. */
  lemma DrainStep(b: Buffer, alloc: Alloc)
    ensures Drain(b, alloc) ==
              if HasMemory(alloc) && Ready(b.pending, b.next) then Drain(Moved(b), Spend(alloc)) else b
  {
  }

  /** With enough memory a drain stops only at a gap. */
  lemma {:induction false} PlentyDrainIsClean(pending: Pending, next: u64, budget: nat)
    requires AtOrAbove(pending, next)
    requires budget >= |pending|
    ensures var d := DrainRun(pending, next, budget);
            && (forall k :: k in d.rest ==> d.next < k)
            && |d.rest| <= |pending|
            && (next in pending ==> |d.rest| < |pending|)
    decreases budget
  {
    if next in pending {
      RemoveSize(pending, next);
      PlentyDrainIsClean(pending - {next}, Bump(next), budget - 1);
    } else {
      assert !Ready(pending, next);
    }
  }

  lemma PlentyInsert(b: Buffer, seqno: u64, payload: Payload)
    requires Clean(b)
    ensures var (r, code) := Insert(b, seqno, payload, Plenty);
            Clean(r) && (|b.pending| <= b.max ==> |r.pending| <= r.max) && r.max == b.max
  {
    var (r, code) := Insert(b, seqno, payload, Plenty);
    if code == Ok {
      var p := b.pending[seqno := payload];
      PlentyDrainIsClean(p, b.next, |p|);
    }
  }

  lemma PlentyAdvance(b: Buffer)
    requires Clean(b)
    ensures var r := Advance(b, Plenty);
            Clean(r) && |r.pending| <= |b.pending| && r.max == b.max
  {
    PlentyDrainIsClean(b.pending, Bump(b.next), |b.pending|);
  }

  // ---- conservation over every run ---------------------------------------

  datatype Call =
    | DoInsert(seqno: u64, payload: Payload, alloc: Alloc)
    | DoAdvance(alloc: Alloc)
    | DoDrainNext(cap: nat)

  /** How a sequence number left the buffer: drained with its frame, or skipped by an advance. */
  datatype Release = Drained(frame: Frame) | Skipped(seqno: u64)

  function Number(r: Release): u64 {
    match r case Drained(f) => f.seqno case Skipped(n) => n
  }

  function ReleasedFrame(r: Release): seq<Frame> {
    match r case Drained(f) => [f] case Skipped(_) => []
  }

  function ReleasedParts(log: seq<Release>): seq<seq<Frame>> {
    seq(|log|, i requires 0 <= i < |log| => ReleasedFrame(log[i]))
  }

  function ReleasedFrames(log: seq<Release>): seq<Frame> { Flatten(ReleasedParts(log)) }

  function Drains(fs: seq<Frame>): seq<Release> { seq(|fs|, i requires 0 <= i < |fs| => Drained(fs[i])) }

  /** A buffer with everything that ever happened to it. */
  datatype History = History(
    b: Buffer, accepted: seq<Frame>, popped: seq<Frame>, log: seq<Release>, codes: seq<Code>)

  function Start(initial: u64, max: nat): History {
    History(Buffer(map[], [], initial, max), [], [], [], [])
  }

  function Step(h: History, c: Call): History {
    match c
    case DoInsert(seqno, payload, alloc) =>
      var (r, code) := Insert(h.b, seqno, payload, alloc);
      if code != Ok then h.(codes := h.codes + [code])
      else History(r, h.accepted + [Frame(seqno, payload)], h.popped,
                   h.log + Drains(r.drained[|h.b.drained|..]), h.codes + [code])
    case DoAdvance(alloc) =>
      var r := Advance(h.b, alloc);
      h.(b := r, log := h.log + [Skipped(h.b.next)] + Drains(r.drained[|h.b.drained|..]))
    case DoDrainNext(cap) =>
      var (r, code) := DrainNext(h.b, cap);
      if code != Ok then h else h.(b := r, popped := h.popped + [h.b.drained[0]])
  }

  function Exec(h: History, calls: seq<Call>): History
    decreases |calls|
  {
    if calls == [] then h else Exec(Step(h, calls[0]), calls[1..])
  }

  /** Popping as often as frames are drained, into a large enough buffer, pops them all in order. */
  lemma {:induction false} PopsAll(h: History, cap: nat) returns (calls: seq<Call>)
    requires forall f :: f in h.b.drained ==> |f.payload| <= cap
    ensures Exec(h, calls) == h.(b := h.b.(drained := []), popped := h.popped + h.b.drained)
    decreases |h.b.drained|
  {
    if h.b.drained == [] {
      calls := [];
      assert h.popped + [] == h.popped;
    } else {
      var c, fs := DoDrainNext(cap), h.b.drained;
      var t := Step(h, c);
      assert fs[0] in fs && t == h.(b := h.b.(drained := fs[1..]), popped := h.popped + [fs[0]]);
      var rest := PopsAll(t, cap);
      calls := [c] + rest;
      assert calls[1..] == rest;
      assert h.popped + [fs[0]] + fs[1..] == h.popped + fs;
    }
  }

  /** Every accepted frame is in exactly one of pending, drained and popped. */
  ghost predicate Kept(h: History) {
    multiset(h.accepted) == Frames(h.b.pending) + multiset(h.b.drained) + multiset(h.popped)
  }

  ghost predicate Numbered(log: seq<Release>, initial: u64) {
    forall i :: 0 <= i < |log| ==> Number(log[i]) == Sat(initial + i)
  }

  /** Numbers leave consecutively, each drained or skipped, and frames are popped in that order. */
  ghost predicate InOrder(h: History, initial: u64) {
    && Numbered(h.log, initial)
    && h.b.next == Sat(initial + |h.log|)
    && ReleasedFrames(h.log) == h.popped + h.b.drained
  }

  ghost predicate Conserved(h: History, initial: u64) { Kept(h) && InOrder(h, initial) }

  lemma ReleasedConcat(a: seq<Release>, b: seq<Release>)
    ensures ReleasedFrames(a + b) == ReleasedFrames(a) + ReleasedFrames(b)
  {
    assert ReleasedParts(a + b) == ReleasedParts(a) + ReleasedParts(b);
    FlattenConcat(ReleasedParts(a), ReleasedParts(b));
  }

  lemma {:induction false} ReleasedDrains(fs: seq<Frame>)
    ensures ReleasedFrames(Drains(fs)) == fs
  {
    if fs != [] {
      ReleasedDrains(fs[1..]);
      assert ReleasedParts(Drains(fs))[1..] == ReleasedParts(Drains(fs[1..]));
      assert ReleasedParts(Drains(fs))[0] == [fs[0]];
    }
  }

  lemma NumberedConcat(log: seq<Release>, fs: seq<Frame>, next: u64, initial: u64)
    requires Numbered(log, initial) && next == Sat(initial + |log|)
    requires Consecutive(fs, next)
    ensures Numbered(log + Drains(fs), initial)
  {
  }

  lemma ReleasedAppend(log: seq<Release>, fs: seq<Frame>)
    ensures ReleasedFrames(log + Drains(fs)) == ReleasedFrames(log) + fs
  {
    ReleasedConcat(log, Drains(fs));
    ReleasedDrains(fs);
  }

  lemma KeptAfterDrain(b: Buffer, alloc: Alloc)
    ensures Frames(b.pending) + multiset(b.drained) == Frames(Drain(b, alloc).pending) + multiset(Drain(b, alloc).drained)
  {
    DrainConserves(b.pending, b.next, Budget(alloc, b.pending));
  }

  lemma KeptInsert(h: History, seqno: u64, payload: Payload, alloc: Alloc)
    requires Kept(h)
    ensures Kept(Step(h, DoInsert(seqno, payload, alloc)))
  {
    if Insert(h.b, seqno, payload, alloc).1 == Ok {
      FramesAdd(h.b.pending, seqno, payload);
      KeptAfterDrain(h.b.(pending := h.b.pending[seqno := payload]), alloc);
    }
  }

  lemma KeptStep(h: History, c: Call)
    requires Kept(h)
    ensures Kept(Step(h, c))
  {
    match c
    case DoInsert(seqno, payload, alloc) => KeptInsert(h, seqno, payload, alloc);
    case DoAdvance(alloc) => KeptAfterDrain(h.b.(next := Bump(h.b.next)), alloc);
    case DoDrainNext(cap) =>
      if DrainNext(h.b, cap).1 == Ok {
        assert h.b.drained == [h.b.drained[0]] + h.b.drained[1..];
      }
  }

  lemma InOrderAfterDrain(b: Buffer, alloc: Alloc, popped: seq<Frame>, log: seq<Release>, initial: u64)
    requires Numbered(log, initial) && b.next == Sat(initial + |log|) && ReleasedFrames(log) == popped + b.drained
    ensures var r := Drain(b, alloc);
            var log' := log + Drains(r.drained[|b.drained|..]);
            Numbered(log', initial) && r.next == Sat(initial + |log'|) && ReleasedFrames(log') == popped + r.drained
  {
    var d := DrainRun(b.pending, b.next, Budget(alloc, b.pending));
    assert Drain(b, alloc).drained[|b.drained|..] == d.run;
    DrainNumbers(b.pending, b.next, Budget(alloc, b.pending));
    NumberedConcat(log, d.run, b.next, initial);
    ReleasedAppend(log, d.run);
  }

  lemma SkipReleasesNothing(log: seq<Release>, n: u64)
    ensures ReleasedFrames(log + [Skipped(n)]) == ReleasedFrames(log)
  {
    var none: seq<Frame> := [];
    assert ReleasedParts(log + [Skipped(n)]) == ReleasedParts(log) + [none];
    FlattenSnoc(ReleasedParts(log), none);
  }

  lemma InOrderAdvance(h: History, alloc: Alloc, initial: u64)
    requires InOrder(h, initial)
    ensures InOrder(Step(h, DoAdvance(alloc)), initial)
  {
    SkipReleasesNothing(h.log, h.b.next);
    InOrderAfterDrain(h.b.(next := Bump(h.b.next)), alloc, h.popped, h.log + [Skipped(h.b.next)], initial);
  }

  lemma InOrderStep(h: History, c: Call, initial: u64)
    requires InOrder(h, initial)
    ensures InOrder(Step(h, c), initial)
  {
    match c
    case DoInsert(seqno, payload, alloc) =>
      if Insert(h.b, seqno, payload, alloc).1 == Ok {
        InOrderAfterDrain(h.b.(pending := h.b.pending[seqno := payload]), alloc, h.popped, h.log, initial);
      }
    case DoAdvance(alloc) => InOrderAdvance(h, alloc, initial);
    case DoDrainNext(cap) =>
      if DrainNext(h.b, cap).1 == Ok {
        var d := h.b.drained;
        assert h.popped + d == (h.popped + [d[0]]) + d[1..];
      }
  }

  /** Conservation over every run, allocation failures included. */
  lemma {:induction false} RunConserves(h: History, calls: seq<Call>, initial: u64)
    requires Conserved(h, initial)
    ensures Conserved(Exec(h, calls), initial)
    decreases |calls|
  {
    if calls != [] {
      KeptStep(h, calls[0]);
      InOrderStep(h, calls[0], initial);
      RunConserves(Step(h, calls[0]), calls[1..], initial);
    }
  }

  predicate PlentyCall(c: Call) { c.DoDrainNext? || c.alloc == Plenty }

  predicate AllPlenty(calls: seq<Call>) { forall i :: 0 <= i < |calls| ==> PlentyCall(calls[i]) }

  /** While allocations succeed the tree never exceeds its cap after a call. */
  lemma {:induction false} RunBounded(h: History, calls: seq<Call>)
    requires AllPlenty(calls)
    requires Clean(h.b) && |h.b.pending| <= h.b.max
    ensures Clean(Exec(h, calls).b) && |Exec(h, calls).b.pending| <= Exec(h, calls).b.max
    decreases |calls|
  {
    if calls != [] {
      match calls[0] {
        case DoInsert(seqno, payload, alloc) => PlentyInsert(h.b, seqno, payload);
        case DoAdvance(alloc) => PlentyAdvance(h.b);
        case DoDrainNext(cap) =>
      }
      assert PlentyCall(calls[0]);
      RunBounded(Step(h, calls[0]), calls[1..]);
    }
  }

  lemma ReorderConservation(initial: u64, max: nat, calls: seq<Call>)
    ensures Conserved(Exec(Start(initial, max), calls), initial)
    ensures AllPlenty(calls) ==> |Exec(Start(initial, max), calls).b.pending| <= Exec(Start(initial, max), calls).b.max
  {
    var h := Start(initial, max);
    assert Frames(h.b.pending) == multiset{};
    RunConserves(h, calls, initial);
    if AllPlenty(calls) { RunBounded(h, calls); }
  }

  // ---- the map-based twin --------------------------------------------------

  datatype Rb = Rb(pending: Pending, next: u64, max: nat)

  /** Remove the cursor's frame while there is one. */
  function RustDrain(rb: Rb): (Rb, seq<Frame>)
    decreases |rb.pending|
  {
    if rb.next !in rb.pending then (rb, [])
    else
      var rest := rb.pending - {rb.next};
      assert rest.Keys == rb.pending.Keys - {rb.next};
      var (r, fs) := RustDrain(Rb(rest, Bump(rb.next), rb.max));
      (r, [Frame(rb.next, rb.pending[rb.next])] + fs)
  }

  /** One removal, seen by a loop that has delivered `done`. */
  lemma RustDrainTurn(rb: Rb, done: seq<Frame>)
    requires rb.next in rb.pending
    ensures var rest := RustDrain(Rb(rb.pending - {rb.next}, Bump(rb.next), rb.max));
            (RustDrain(rb).0, done + RustDrain(rb).1) == (rest.0, (done + [Frame(rb.next, rb.pending[rb.next])]) + rest.1)
  {
    var f, fs := Frame(rb.next, rb.pending[rb.next]), RustDrain(Rb(rb.pending - {rb.next}, Bump(rb.next), rb.max)).1;
    assert done + ([f] + fs) == (done + [f]) + fs;
  }

  function RustInsert(rb: Rb, seqno: u64, payload: Payload): (Rb, seq<Frame>, Code) {
    if seqno < rb.next then (rb, [], Exist)
    else if seqno in rb.pending then (rb, [], Exist)
    else if |rb.pending| >= rb.max && seqno != rb.next then (rb, [], NoBufs)
    else
      var (r, fs) := RustDrain(rb.(pending := rb.pending[seqno := payload]));
      (r, fs, Ok)
  }

  function RustAdvance(rb: Rb): (Rb, seq<Frame>) { RustDrain(rb.(next := Bump(rb.next))) }

  datatype RustHistory = RustHistory(rb: Rb, delivered: seq<Frame>, codes: seq<Code>)

  function RustStart(initial: u64, max: nat): RustHistory { RustHistory(Rb(map[], initial, max), [], []) }

  function RustStep(h: RustHistory, c: Call): RustHistory {
    match c
    case DoInsert(seqno, payload, _) =>
      var (r, fs, code) := RustInsert(h.rb, seqno, payload);
      RustHistory(r, h.delivered + fs, h.codes + [code])
    case DoAdvance(_) =>
      var (r, fs) := RustAdvance(h.rb);
      RustHistory(r, h.delivered + fs, h.codes)
    case DoDrainNext(_) => h
  }

  function RustExec(h: RustHistory, calls: seq<Call>): RustHistory
    decreases |calls|
  {
    if calls == [] then h else RustExec(RustStep(h, calls[0]), calls[1..])
  }

  function AsRust(b: Buffer): Rb { Rb(b.pending, b.next, b.max) }

  /** Above the cursor, looking at the smallest key and looking the cursor up agree. */
  lemma {:induction false} DrainsAgree(pending: Pending, next: u64, max: nat, budget: nat)
    requires AtOrAbove(pending, next)
    requires budget >= |pending|
    ensures var d := DrainRun(pending, next, budget);
            RustDrain(Rb(pending, next, max)) == (Rb(d.rest, d.next, max), d.run)
    decreases budget
  {
    if next in pending {
      RemoveSize(pending, next);
      DrainsAgree(pending - {next}, Bump(next), max, budget - 1);
    } else {
      assert !Ready(pending, next);
    }
  }

  ghost predicate Agree(h: History, r: RustHistory) {
    // equal cursor, equal pending frames (so equal gap count), equal cap
    && AsRust(h.b) == r.rb
    && h.codes == r.codes
    // popped, then still queued, are exactly the Rust deliveries
    && h.popped + h.b.drained == r.delivered
  }

  lemma AgreeInsert(h: History, r: RustHistory, seqno: u64, payload: Payload)
    requires Agree(h, r) && Clean(h.b)
    ensures var c := DoInsert(seqno, payload, Plenty);
            Agree(Step(h, c), RustStep(r, c)) && Clean(Step(h, c).b)
  {
    if Insert(h.b, seqno, payload, Plenty).1 == Ok {
      var p := h.b.pending[seqno := payload];
      DrainsAgree(p, h.b.next, h.b.max, |p|);
      PlentyInsert(h.b, seqno, payload);
    }
  }

  lemma AgreeAdvance(h: History, r: RustHistory)
    requires Agree(h, r) && Clean(h.b)
    ensures Agree(Step(h, DoAdvance(Plenty)), RustStep(r, DoAdvance(Plenty))) && Clean(Step(h, DoAdvance(Plenty)).b)
  {
    DrainsAgree(h.b.pending, Bump(h.b.next), h.b.max, |h.b.pending|);
    PlentyAdvance(h.b);
  }

  lemma AgreeStep(h: History, r: RustHistory, c: Call)
    requires PlentyCall(c)
    requires Agree(h, r) && Clean(h.b)
    ensures Agree(Step(h, c), RustStep(r, c)) && Clean(Step(h, c).b)
  {
    match c
    case DoInsert(seqno, payload, alloc) => AgreeInsert(h, r, seqno, payload);
    case DoAdvance(alloc) => AgreeAdvance(h, r);
    case DoDrainNext(cap) =>
      if h.b.drained != [] { assert h.b.drained == [h.b.drained[0]] + h.b.drained[1..]; }
  }

  lemma {:induction false} RunsAgree(h: History, r: RustHistory, calls: seq<Call>)
    requires AllPlenty(calls)
    requires Agree(h, r) && Clean(h.b)
    ensures Agree(Exec(h, calls), RustExec(r, calls))
    decreases |calls|
  {
    if calls != [] {
      assert PlentyCall(calls[0]);
      AgreeStep(h, r, calls[0]);
      RunsAgree(Step(h, calls[0]), RustStep(r, calls[0]), calls[1..]);
    }
  }

  /** Backend refinement over every call sequence without allocation failure. */
  lemma BackendsAgree(initial: u64, max: nat, calls: seq<Call>)
    requires AllPlenty(calls)
    ensures Agree(Exec(Start(initial, max), calls), RustExec(RustStart(initial, max), calls))
  {
    RunsAgree(Start(initial, max), RustStart(initial, max), calls);
  }

  // ---- the in-order bypass -------------------------------------------------

  /** Insert the frame, then pop everything that became deliverable. */
  function ViaInsert(b: Buffer, f: Frame): (Buffer, seq<Frame>, Code) {
    var (r, code) := Insert(b, f.seqno, f.payload, Plenty);
    (r.(drained := []), r.drained, code)
  }

  /** Deliver the expected frame straight from its receive buffer, then advance and pop. */
  function ViaBypass(b: Buffer, f: Frame): (Buffer, seq<Frame>, Code) {
    if f.seqno == b.next then
      var r := Advance(b, Plenty);
      (r.(drained := []), [f] + r.drained, Ok)
    else ViaInsert(b, f)
  }

  lemma BypassEqualsInsertWhenClean(b: Buffer, f: Frame)
    requires b.drained == [] && Clean(b) && f.seqno == b.next
    ensures ViaBypass(b, f) == ViaInsert(b, f)
  {
    var p := b.pending[f.seqno := f.payload];
    assert p - {b.next} == b.pending;
    RemoveSize(p, b.next);
    assert Ready(p, b.next);
    var d := DrainRun(p, b.next, |p|);
    assert d.run == [f] + DrainRun(b.pending, Bump(b.next), |b.pending|).run;
    assert b.drained + d.run == [f] + (b.drained + d.run[1..]);
  }

  /**
   * One arrival: the bypass is indistinguishable from inserting exactly when the
   * frame is not the expected one or nothing at or below the cursor is pending.
   * The second condition can only fail after an allocation failed inside a drain.
   */
  lemma BypassExact(b: Buffer, f: Frame)
    requires b.drained == []
    ensures ViaBypass(b, f) == ViaInsert(b, f) <==> (f.seqno != b.next || Clean(b))
  {
    if f.seqno == b.next {
      if Clean(b) {
        BypassEqualsInsertWhenClean(b, f);
      } else if b.next !in b.pending {
        var p := b.pending[f.seqno := f.payload];
        var k :| k in b.pending && !(b.next < k);
        assert k in p && k < b.next;
        assert !Ready(p, b.next);
        assert ViaInsert(b, f).1 == [];
      }
    }
  }

  // ---- what a failed allocation in a drain can leave behind ----

  /** A pending number the cursor has already passed. */
  ghost predicate Stranded(b: Buffer) { exists k :: k in b.pending && k < b.next }

  /** The least pending number is then below the cursor, so no drain moves anything. */
  lemma StrandedDrain(b: Buffer, alloc: Alloc)
    requires Stranded(b)
    ensures Drain(b, alloc) == b
  {
    assert !Ready(b.pending, b.next);
    assert b.drained + [] == b.drained;
  }

  lemma StrandedStep(h: History, c: Call)
    requires Stranded(h.b)
    ensures var t := Step(h, c);
            && Stranded(t.b) && Submap(h.b.pending, t.b.pending)
            && t.popped + t.b.drained == h.popped + h.b.drained
  {
    var k :| k in h.b.pending && k < h.b.next;
    match c
    case DoInsert(seqno, payload, alloc) =>
      var b := h.b.(pending := h.b.pending[seqno := payload]);
      assert seqno != k ==> k in b.pending;
      if seqno >= h.b.next { StrandedDrain(b, alloc); }
    case DoAdvance(alloc) =>
      assert k < Bump(h.b.next);
      StrandedDrain(h.b.(next := Bump(h.b.next)), alloc);
    case DoDrainNext(cap) =>
      if h.b.drained != [] {
        assert (h.popped + [h.b.drained[0]]) + h.b.drained[1..] == h.popped + h.b.drained;
      }
  }

  /** From then on, whatever is called and however much memory there is, no pending frame is ever released. */
  lemma {:induction false} StrandedForever(h: History, calls: seq<Call>)
    requires Stranded(h.b)
    ensures var t := Exec(h, calls);
            && Stranded(t.b) && Submap(h.b.pending, t.b.pending)
            && t.popped + t.b.drained == h.popped + h.b.drained
    decreases |calls|
  {
    if calls != [] {
      StrandedStep(h, calls[0]);
      StrandedForever(Step(h, calls[0]), calls[1..]);
    }
  }

  lemma {:induction false} DrainStaysAbove(pending: Pending, next: u64, budget: nat)
    requires AtOrAbove(pending, next)
    ensures AtOrAbove(DrainRun(pending, next, budget).rest, DrainRun(pending, next, budget).next)
    decreases budget
  {
    if budget != 0 && Ready(pending, next) {
      DrainStaysAbove(pending - {next}, Bump(next), budget - 1);
    }
  }

  /** A delivery past the buffer strands a frame exactly when the number it delivered was itself pending. */
  lemma BypassStrandsExact(b: Buffer, alloc: Alloc)
    requires AtOrAbove(b.pending, b.next) && b.next < U64_MAX
    ensures Stranded(Advance(b, alloc)) <==> b.next in b.pending
  {
    var c := b.(next := Bump(b.next));
    if b.next in b.pending {
      assert Stranded(c);
      StrandedDrain(c, alloc);
    } else {
      DrainStaysAbove(c.pending, c.next, Budget(alloc, c.pending));
    }
  }

  /** That can happen: a frame waits for its predecessor, the drain after the predecessor's delivery finds no memory,
      and the frame arrives once more. Then bypass and insert differ, and the bypass strands it for good. */
  lemma BypassDiverges(max: nat, payload: Payload) returns (h: History)
    requires max > 0
    ensures h == Exec(Start(0, max), [DoInsert(1, payload, Plenty), DoAdvance(Scarce(true, 0))])
    ensures h.b == Buffer(map[1 := payload], [], 1, max)
    ensures ViaBypass(h.b, Frame(1, payload)) != ViaInsert(h.b, Frame(1, payload))
    ensures Stranded(ViaBypass(h.b, Frame(1, payload)).0)
  {
    var s0, c0, c1 := Start(0, max), DoInsert(1, payload, Plenty), DoAdvance(Scarce(true, 0));
    var s1 := Step(s0, c0);
    assert !Ready(map[1 := payload], 0);
    assert s1.b == Buffer(map[1 := payload], [], 0, max) by { assert map[][1 := payload] == map[1 := payload]; }
    h := Step(s1, c1);
    assert [c0, c1][1..] == [c1] && [c1][1..] == [];
    assert Exec(s1, [c1]) == Exec(h, []);
    BypassExact(h.b, Frame(1, payload));
    BypassStrandsExact(h.b, Plenty);
  }

  datatype Outcome = Outcome(b: Buffer, delivered: seq<Frame>, codes: seq<Code>)

  function ReceiveByInsert(o: Outcome, arrivals: seq<Frame>): Outcome
    decreases |arrivals|
  {
    if arrivals == [] then o
    else
      var (r, fs, code) := ViaInsert(o.b, arrivals[0]);
      ReceiveByInsert(Outcome(r, o.delivered + fs, o.codes + [code]), arrivals[1..])
  }

  function ReceiveByBypass(o: Outcome, arrivals: seq<Frame>): Outcome
    decreases |arrivals|
  {
    if arrivals == [] then o
    else
      var (r, fs, code) := ViaBypass(o.b, arrivals[0]);
      ReceiveByBypass(Outcome(r, o.delivered + fs, o.codes + [code]), arrivals[1..])
  }

  lemma {:induction false} BypassRuns(o: Outcome, arrivals: seq<Frame>)
    requires o.b.drained == [] && Clean(o.b)
    ensures ReceiveByBypass(o, arrivals) == ReceiveByInsert(o, arrivals)
    decreases |arrivals|
  {
    if arrivals != [] {
      var f := arrivals[0];
      BypassExact(o.b, f);
      var (r, fs, code) := ViaInsert(o.b, f);
      PlentyInsert(o.b, f.seqno, f.payload);
      BypassRuns(Outcome(r, o.delivered + fs, o.codes + [code]), arrivals[1..]);
    }
  }

  /**
   * Over every arrival order, duplicates and full-buffer refusals included, the
   * bypass gives the same delivered stream, cursor, pending frames and refusals.
   */
  lemma BypassRefinesInsert(initial: u64, max: nat, arrivals: seq<Frame>)
    ensures var o := Outcome(Buffer(map[], [], initial, max), [], []);
            ReceiveByBypass(o, arrivals) == ReceiveByInsert(o, arrivals)
  {
    BypassRuns(Outcome(Buffer(map[], [], initial, max), [], []), arrivals);
  }
}
