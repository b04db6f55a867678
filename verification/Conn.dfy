/** Connection-manager accounting: which queue pairs are established, which acceptor slots are held, the two counters
    that summarise them and the latch that says all are up. */
module Conn {
  import opened Base

  /** A slot's connection id: whether it has reported ESTABLISHED and whether a teardown event has come for it. */
  datatype Cm = NoCm | Live(reported: bool, torn: bool)

  datatype Qp = Qp(established: bool, held: bool, cm: Cm, retry: bool, attempts: nat)

  datatype Ep = Ep(initiator: bool, maxAttempts: nat, qps: seq<Qp>, up: int, accepted: int, connected: bool,
                   shared: bool, failed: bool)

  datatype Slot = Reject | FreshSlot(i: nat) | ReuseSlot(i: nat)

  /** How far an accept gets. Shared resources are set up once, so that step can fail only before it has succeeded. */
  datatype Outcome = SharedFails | ContextFails | QueueFails | AcceptFails | Accepted

  function Fresh(initiator: bool, n: nat, maxAttempts: nat): Ep {
    Ep(initiator, maxAttempts, seq(n, _ => Qp(false, false, NoCm, false, 0)), 0, 0, false, false, false)
  }

  /** The slot a request claims: the peer's own index when it sent one, else the held count. */
  function SlotDecide(peer: Option<nat>, counter: nat, n: nat, occupied: bool): Slot {
    var i := if peer.Some? then peer.value else counter;
    if i >= n then Reject else if occupied then ReuseSlot(i) else FreshSlot(i)
  }

  /** Should this teardown give the acceptor's slot back? */
  predicate ReleasesSlot(initiator: bool, held: bool) { !initiator && held }

  predicate Retries(x: Ep, i: nat)
    requires i < |x.qps|
  {
    x.initiator && x.qps[i].attempts < x.maxAttempts
  }

  function SetQp(x: Ep, i: nat, q: Qp): (r: Ep)
    requires i < |x.qps|
    ensures |r.qps| == |x.qps| && r.failed == x.failed
  {
    x.(qps := x.qps[i := q])
  }

  predicate SameRole(x: Ep, y: Ep) { y.initiator == x.initiator && y.maxAttempts == x.maxAttempts }

  /** Neither the failure flag nor what is left of any retry budget changes. */
  ghost predicate SameBudget(x: Ep, y: Ep) {
    && y.initiator == x.initiator && y.maxAttempts == x.maxAttempts && y.failed == x.failed && |y.qps| == |x.qps|
    && forall i :: 0 <= i < |x.qps| ==> y.qps[i].attempts == x.qps[i].attempts
  }

  /** An established queue pair goes down: its count, and the latch if all were up. */
  function Demote(x: Ep, i: nat): (r: Ep)
    requires i < |x.qps|
    ensures |r.qps| == |x.qps| && SameBudget(x, r)
  {
    if !x.qps[i].established then x
    else
      var y := SetQp(x, i, x.qps[i].(established := false)).(up := x.up - 1);
      if y.up < |y.qps| && y.connected then y.(connected := false) else y
  }

  function DropSlot(x: Ep, i: nat): (r: Ep)
    requires i < |x.qps|
    ensures |r.qps| == |x.qps| && SameBudget(x, r)
  {
    SetQp(x, i, x.qps[i].(held := false)).(accepted := x.accepted - 1)
  }

  /** urp_qp_hard_teardown: the flag is cleared without touching the counter. */
  function HardTeardown(x: Ep, i: nat): (r: Ep)
    requires i < |x.qps|
    ensures |r.qps| == |x.qps| && SameBudget(x, r)
  {
    SetQp(x, i, x.qps[i].(established := false, cm := NoCm))
  }

  function AcceptOne(x: Ep, peer: Option<nat>, outcome: Outcome): (r: Ep)
    requires x.accepted >= 0
    ensures |r.qps| == |x.qps| && SameBudget(x, r)
  {
    var id := if |x.qps| > 1 then peer else None;
    var probe := if id.Some? then id.value else x.accepted;
    match SlotDecide(id, x.accepted, |x.qps|, probe < |x.qps| && x.qps[probe].held)
    case Reject => x
    case FreshSlot(i) => Bind(x, i, outcome)
    case ReuseSlot(i) => Bind(DropSlot(Demote(x, i), i), i, outcome)
  }

  /** Claim the slot and set the child up; a synchronous failure gives the claim back. */
  function Bind(x: Ep, i: nat, outcome: Outcome): (r: Ep)
    requires i < |x.qps|
    ensures |r.qps| == |x.qps| && SameBudget(x, r)
  {
    if outcome == SharedFails then x
    else
      var y := (if x.qps[i].cm.Live? then HardTeardown(x, i) else x).(shared := true);
      if outcome != Accepted then y
      else SetQp(y, i, y.qps[i].(cm := Live(false, false), held := true)).(accepted := y.accepted + 1)
  }

  function OnEstablished(x: Ep, i: nat): (r: Ep)
    requires i < |x.qps| && x.qps[i].cm.Live?
    ensures |r.qps| == |x.qps| && SameRole(x, r)
  {
    var q := x.qps[i];
    var y := SetQp(x, i, q.(established := true, attempts := 0, cm := q.cm.(reported := true))).(up := x.up + 1);
    if y.up == |y.qps| then y.(connected := true) else y
  }

  /** The initiator dials again while its budget lasts; otherwise the endpoint is failed. */
  function Rearm(x: Ep, i: nat): (r: Ep)
    requires i < |x.qps|
    ensures |r.qps| == |x.qps| && SameRole(x, r)
  {
    if Retries(x, i) then SetQp(x, i, x.qps[i].(attempts := x.qps[i].attempts + 1, retry := true))
    else if x.initiator then x.(failed := true)
    else x
  }

  function OnTeardown(x: Ep, i: nat): (r: Ep)
    requires i < |x.qps| && x.qps[i].cm.Live?
    ensures |r.qps| == |x.qps| && SameRole(x, r) && r.qps[i].cm == x.qps[i].cm.(torn := true)
  {
    var y := Demote(SetQp(x, i, x.qps[i].(cm := x.qps[i].cm.(torn := true))), i);
    Rearm(if ReleasesSlot(x.initiator, y.qps[i].held) then DropSlot(y, i) else y, i)
  }

  function OnSilentDrop(x: Ep, i: nat): (r: Ep)
    requires i < |x.qps| && x.qps[i].established
    ensures |r.qps| == |x.qps| && SameRole(x, r) && r.qps[i].cm == x.qps[i].cm
  {
    Rearm(Demote(x, i), i)
  }

  /** Dial one queue pair; a failed dial leaves no connection id behind. */
  function Dial(x: Ep, i: nat, ok: bool): (r: Ep)
    requires i < |x.qps|
    ensures |r.qps| == |x.qps| && SameRole(x, r)
  {
    SetQp(x, i, x.qps[i].(cm := if ok then Live(false, false) else NoCm))
  }

  function FirstDial(x: Ep, i: nat, ok: bool): (r: Ep)
    requires i < |x.qps|
    ensures |r.qps| == |x.qps| && SameRole(x, r)
  {
    var y := Dial(x, i, ok);
    if ok then y else SetQp(y, i, y.qps[i].(retry := true))
  }

  function RetryWork(x: Ep, i: nat, active: bool, ok: bool): (r: Ep)
    requires i < |x.qps|
    ensures |r.qps| == |x.qps| && SameRole(x, r)
  {
    var y := SetQp(x, i, x.qps[i].(retry := false));
    if !active then y
    else
      var z := Dial(HardTeardown(y, i), i, ok);
      if ok then z else Rearm(z, i)
  }

  datatype Event =
    | Request(peer: Option<nat>, outcome: Outcome)
    | Established(i: nat)
    | Teardown(i: nat)
    | SilentDrop(i: nat)
    | FirstDials(i: nat, ok: bool)
    | Retry(i: nat, active: bool, ok: bool)

  /** The connection manager's promises: a connection id reports ESTABLISHED at most once, never after its teardown
      event, and nothing once destroyed. */
  predicate Enabled(x: Ep, e: Event) {
    match e
    case Request(_, outcome) => !x.initiator && x.accepted >= 0 && (outcome == SharedFails ==> !x.shared)
    case Established(i) => i < |x.qps| && x.qps[i].cm == Live(false, false)
    case Teardown(i) => i < |x.qps| && x.qps[i].cm.Live?
    case SilentDrop(i) => x.initiator && i < |x.qps| && x.qps[i].established
    case FirstDials(i, _) => x.initiator && i < |x.qps| && x.qps[i].cm == NoCm && !x.qps[i].retry
    case Retry(i, _, _) => x.initiator && i < |x.qps| && x.qps[i].retry
  }

  function Next(x: Ep, e: Event): (r: Ep)
    requires Enabled(x, e)
    ensures |r.qps| == |x.qps|
  {
    match e
    case Request(peer, outcome) => AcceptOne(x, peer, outcome)
    case Established(i) => OnEstablished(x, i)
    case Teardown(i) => OnTeardown(x, i)
    case SilentDrop(i) => OnSilentDrop(x, i)
    case FirstDials(i, ok) => FirstDial(x, i, ok)
    case Retry(i, active, ok) => RetryWork(x, i, active, ok)
  }

  predicate Legal(x: Ep, es: seq<Event>)
    decreases |es|
  {
    es == [] || (Enabled(x, es[0]) && Legal(Next(x, es[0]), es[1..]))
  }

  function Exec(x: Ep, es: seq<Event>): Ep
    requires Legal(x, es)
    decreases |es|
  {
    if es == [] then x else Exec(Next(x, es[0]), es[1..])
  }

  // ---- counting ----

  function B(b: bool): nat { if b then 1 else 0 }

  function EstCount(qps: seq<Qp>): nat { if qps == [] then 0 else B(qps[0].established) + EstCount(qps[1..]) }

  function HeldCount(qps: seq<Qp>): nat { if qps == [] then 0 else B(qps[0].held) + HeldCount(qps[1..]) }

  lemma {:induction false} CountUpdate(qps: seq<Qp>, i: nat, q: Qp)
    requires i < |qps|
    ensures EstCount(qps[i := q]) == EstCount(qps) - B(qps[i].established) + B(q.established)
    ensures HeldCount(qps[i := q]) == HeldCount(qps) - B(qps[i].held) + B(q.held)
  {
    if i == 0 {
      assert qps[i := q][1..] == qps[1..];
    } else {
      CountUpdate(qps[1..], i - 1, q);
      assert qps[i := q][1..] == qps[1..][i - 1 := q];
    }
  }

  lemma {:induction false} CountBounds(qps: seq<Qp>)
    ensures EstCount(qps) <= |qps| && HeldCount(qps) <= |qps|
    ensures EstCount(qps) == |qps| <==> forall i :: 0 <= i < |qps| ==> qps[i].established
  {
    if qps != [] {
      CountBounds(qps[1..]);
      assert (forall i :: 0 <= i < |qps| ==> qps[i].established)
        <==> qps[0].established && forall i :: 0 <= i < |qps[1..]| ==> qps[1..][i].established by {
        forall i | 0 <= i < |qps[1..]| ensures qps[1..][i] == qps[i + 1] {
        }
        if qps[0].established && forall i :: 0 <= i < |qps[1..]| ==> qps[1..][i].established {
          forall i | 0 <= i < |qps| ensures qps[i].established {
            if i > 0 { assert qps[i] == qps[1..][i - 1]; }
          }
        }
        if forall i :: 0 <= i < |qps| ==> qps[i].established {
          forall i | 0 <= i < |qps[1..]| ensures qps[1..][i].established { assert qps[1..][i] == qps[i + 1]; }
        }
      }
    }
  }

  // ---- what every step keeps ----

  /** One queue pair: established only on a live id that reported; on the acceptor a slot is held exactly while its id
      is live and not torn down; on the initiator a pending retry means the id can no longer establish. */
  ghost predicate QpOk(x: Ep, q: Qp) {
    && (q.established ==> q.cm == Live(true, false))
    && (if x.initiator then !q.held && (q.retry ==> !q.established && q.cm != Live(false, false))
        else !q.retry && (q.held <==> q.cm.Live? && !q.cm.torn) && (q.held ==> x.shared))
  }

  ghost predicate Counted(x: Ep) {
    && |x.qps| > 0 && x.up == EstCount(x.qps) && x.accepted == HeldCount(x.qps)
    && (x.connected <==> x.up == |x.qps|)
  }

  ghost predicate Inv(x: Ep) { Counted(x) && forall i :: 0 <= i < |x.qps| ==> QpOk(x, x.qps[i]) }

  /** Replacing one queue pair by a good one, with the counters moved to match. */
  lemma ReplaceKeeps(x: Ep, y: Ep, i: nat, q: Qp)
    requires Inv(x) && i < |x.qps| && y.qps == x.qps[i := q] && y.initiator == x.initiator && (x.shared ==> y.shared)
    requires y.up == x.up - B(x.qps[i].established) + B(q.established)
    requires y.accepted == x.accepted - B(x.qps[i].held) + B(q.held)
    requires y.connected <==> y.up == |y.qps|
    requires QpOk(y, q)
    ensures Inv(y)
  {
    CountUpdate(x.qps, i, q);
    forall j | 0 <= j < |y.qps| ensures QpOk(y, y.qps[j]) {
      assert j != i ==> QpOk(x, x.qps[j]);
    }
  }

  lemma EstablishedKeeps(x: Ep, i: nat)
    requires Inv(x) && Enabled(x, Established(i))
    ensures Inv(OnEstablished(x, i))
  {
    var q := x.qps[i];
    CountBounds(x.qps);
    assert QpOk(x, q);
    ReplaceKeeps(x, OnEstablished(x, i), i, q.(established := true, attempts := 0, cm := Live(true, false)));
  }

  /** The latch follows a demotion because no more can be up than there are. */
  lemma DemoteShape(x: Ep, i: nat)
    requires Inv(x) && i < |x.qps|
    ensures var y := Demote(x, i);
            && y == x.(qps := y.qps, up := y.up, connected := y.connected)
            && y.qps == x.qps[i := x.qps[i].(established := false)] && y.up == x.up - B(x.qps[i].established)
            && (y.connected <==> y.up == |y.qps|)
  {
    CountBounds(x.qps);
    assert x.qps[i := x.qps[i]] == x.qps;
  }

  lemma TeardownKeeps(x: Ep, i: nat)
    requires Inv(x) && Enabled(x, Teardown(i))
    ensures Inv(OnTeardown(x, i))
  {
    var y := OnTeardown(x, i);
    CountBounds(x.qps);
    assert QpOk(x, x.qps[i]);
    assert y.qps == x.qps[i := y.qps[i]];
    ReplaceKeeps(x, y, i, y.qps[i]);
  }

  lemma SilentDropKeeps(x: Ep, i: nat)
    requires Inv(x) && Enabled(x, SilentDrop(i))
    ensures Inv(OnSilentDrop(x, i))
  {
    var y := OnSilentDrop(x, i);
    CountBounds(x.qps);
    assert QpOk(x, x.qps[i]);
    assert y.qps == x.qps[i := y.qps[i]];
    ReplaceKeeps(x, y, i, y.qps[i]);
  }

  lemma DialKeeps(x: Ep, i: nat, ok: bool)
    requires Inv(x) && Enabled(x, FirstDials(i, ok))
    ensures Inv(FirstDial(x, i, ok))
  {
    var y := FirstDial(x, i, ok);
    assert QpOk(x, x.qps[i]);
    assert y.qps == x.qps[i := y.qps[i]];
    ReplaceKeeps(x, y, i, y.qps[i]);
  }

  lemma RetryKeeps(x: Ep, i: nat, active: bool, ok: bool)
    requires Inv(x) && Enabled(x, Retry(i, active, ok))
    ensures Inv(RetryWork(x, i, active, ok))
  {
    var y := RetryWork(x, i, active, ok);
    assert QpOk(x, x.qps[i]);
    assert y.qps == x.qps[i := y.qps[i]];
    ReplaceKeeps(x, y, i, y.qps[i]);
  }

  /** Setting up a child in a slot that is not held. */
  lemma FreshBindKeeps(x: Ep, i: nat, outcome: Outcome)
    requires Inv(x) && !x.initiator && i < |x.qps| && !x.qps[i].held
    ensures Inv(Bind(x, i, outcome))
  {
    var y := Bind(x, i, outcome);
    assert QpOk(x, x.qps[i]);
    assert y.qps == x.qps[i := y.qps[i]];
    ReplaceKeeps(x, y, i, y.qps[i]);
  }

  /** And in one that is: its own accounting goes first, and the setup cannot fail before the old id is gone. */
  lemma ReuseBindKeeps(x: Ep, i: nat, outcome: Outcome)
    requires Inv(x) && !x.initiator && i < |x.qps| && x.qps[i].held && outcome != SharedFails
    ensures Inv(Bind(DropSlot(Demote(x, i), i), i, outcome))
  {
    var y := Bind(DropSlot(Demote(x, i), i), i, outcome);
    DemoteShape(x, i);
    assert QpOk(x, x.qps[i]);
    assert y.qps == x.qps[i := y.qps[i]];
    ReplaceKeeps(x, y, i, y.qps[i]);
  }

  lemma RequestKeeps(x: Ep, peer: Option<nat>, outcome: Outcome)
    requires Inv(x) && Enabled(x, Request(peer, outcome))
    ensures Inv(AcceptOne(x, peer, outcome))
  {
    var id := if |x.qps| > 1 then peer else None;
    var i := if id.Some? then id.value else x.accepted;
    if i < |x.qps| {
      assert QpOk(x, x.qps[i]);
      if x.qps[i].held { ReuseBindKeeps(x, i, outcome); } else { FreshBindKeeps(x, i, outcome); }
    }
  }

  lemma StepKeeps(x: Ep, e: Event)
    requires Inv(x) && Enabled(x, e)
    ensures Inv(Next(x, e))
  {
    match e
    case Request(peer, outcome) => RequestKeeps(x, peer, outcome);
    case Established(i) => EstablishedKeeps(x, i);
    case Teardown(i) => TeardownKeeps(x, i);
    case SilentDrop(i) => SilentDropKeeps(x, i);
    case FirstDials(i, ok) => DialKeeps(x, i, ok);
    case Retry(i, active, ok) => RetryKeeps(x, i, active, ok);
  }

  lemma {:induction false} RunKeeps(x: Ep, es: seq<Event>)
    requires Inv(x) && Legal(x, es)
    ensures Inv(Exec(x, es)) && |Exec(x, es).qps| == |x.qps|
    decreases |es|
  {
    if es != [] {
      StepKeeps(x, es[0]);
      RunKeeps(Next(x, es[0]), es[1..]);
    }
  }

  lemma {:induction false} FreshCounts(n: nat, q: Qp)
    requires !q.established && !q.held
    ensures EstCount(seq(n, _ => q)) == 0 && HeldCount(seq(n, _ => q)) == 0
  {
    if n > 0 {
      FreshCounts(n - 1, q);
      assert seq(n, _ => q)[1..] == seq(n - 1, _ => q);
    }
  }

  lemma FreshInv(initiator: bool, n: nat, maxAttempts: nat)
    requires n > 0
    ensures var x := Fresh(initiator, n, maxAttempts); Inv(x) && !x.shared && !x.connected && x.initiator == initiator
  {
    FreshCounts(n, Qp(false, false, NoCm, false, 0));
    assert Fresh(initiator, n, maxAttempts).qps == seq(n, _ => Qp(false, false, NoCm, false, 0));
  }

  /** The accounting law: after every sequence of connect requests, ESTABLISHED, teardown, silent-drop and retry steps
      the counters are the numbers of established queue pairs and held slots, no more slots are held than exist,
      and the endpoint is connected exactly when all are established. */
  lemma Accounting(initiator: bool, n: nat, maxAttempts: nat, es: seq<Event>)
    requires n > 0 && Legal(Fresh(initiator, n, maxAttempts), es)
    ensures var x := Exec(Fresh(initiator, n, maxAttempts), es);
            && |x.qps| == n && x.up == EstCount(x.qps) && x.accepted == HeldCount(x.qps) <= n
            && (x.connected <==> forall i :: 0 <= i < n ==> x.qps[i].established)
  {
    var x0 := Fresh(initiator, n, maxAttempts);
    FreshInv(initiator, n, maxAttempts);
    RunKeeps(x0, es);
    CountBounds(Exec(x0, es).qps);
  }

  /** A request that names its queue pair always lands in that slot: it is never refused for want of one, however many
      retries came before, and no other slot changes. */
  lemma PeerKeepsItsSlot(x: Ep, k: nat)
    requires Inv(x) && !x.initiator && 1 < |x.qps| && k < |x.qps|
    ensures var y := AcceptOne(x, Some(k), Accepted);
            && y.qps == x.qps[k := x.qps[k].(established := false, held := true, cm := Live(false, false))]
            && y.accepted == x.accepted + B(!x.qps[k].held) && y.up == x.up - B(x.qps[k].established)
  {
    var y := AcceptOne(x, Some(k), Accepted);
    assert QpOk(x, x.qps[k]);
    assert y.qps == x.qps[k := y.qps[k]];
  }

  /** A connect whose setup fails leaves its slot free, with no connection id, and every other one alone; shared
      resources that cannot be set up leave the endpoint as it was. */
  lemma FailedRequestFreesSlot(x: Ep, k: nat, outcome: Outcome)
    requires Inv(x) && Enabled(x, Request(Some(k), outcome)) && 1 < |x.qps| && k < |x.qps| && outcome != Accepted
    ensures var y := AcceptOne(x, Some(k), outcome);
            if outcome == SharedFails then y == x
            else
              && y.qps == x.qps[k := x.qps[k].(established := false, held := false, cm := NoCm)] && y.shared
              && y.accepted == x.accepted - B(x.qps[k].held) && y.up == x.up - B(x.qps[k].established)
  {
    var y := AcceptOne(x, Some(k), outcome);
    assert QpOk(x, x.qps[k]);
    assert y.qps == x.qps[k := y.qps[k]];
  }

  /** With a single queue pair the index a request carries is ignored. */
  lemma SingleIgnoresIndex(x: Ep, peer: Option<nat>, outcome: Outcome)
    requires x.accepted >= 0 && |x.qps| == 1
    ensures AcceptOne(x, peer, outcome) == AcceptOne(x, None, outcome)
  {
  }

  lemma {:induction false} SomeFree(qps: seq<Qp>) returns (j: nat)
    requires HeldCount(qps) < |qps|
    ensures j < |qps| && !qps[j].held
  {
    if !qps[0].held {
      j := 0;
    } else {
      var i := SomeFree(qps[1..]);
      j := i + 1;
    }
  }

  /** A request without an index goes to the slot numbered by the held count, if there is one. It displaces a peer
      exactly when that slot is held, and then another slot is free. */
  lemma CounterEvictsExact(x: Ep)
    requires Inv(x) && !x.initiator
    ensures var y := AcceptOne(x, None, Accepted);
            && (x.accepted >= |x.qps| ==> y == x)
            && (x.accepted < |x.qps| ==>
                  && y.qps == x.qps[x.accepted := x.qps[x.accepted].(established := false, held := true,
                                                                     cm := Live(false, false))]
                  && (y.accepted == x.accepted <==> x.qps[x.accepted].held)
                  && (x.qps[x.accepted].held ==> exists j :: 0 <= j < |x.qps| && !x.qps[j].held && !y.qps[j].held))
  {
    if x.accepted < |x.qps| {
      var y := AcceptOne(x, None, Accepted);
      assert QpOk(x, x.qps[x.accepted]);
      assert y.qps == x.qps[x.accepted := y.qps[x.accepted]];
      var j := SomeFree(x.qps);
      assert x.qps[x.accepted].held ==> !y.qps[j].held;
    }
  }

  /** It happens: of two queue pairs the second is up and the first is free, and such a request takes the second down. */
  lemma CounterEvictionReachable(maxAttempts: nat) returns (x: Ep)
    ensures var es := [Request(Some(1), Accepted), Established(1)];
            Legal(Fresh(false, 2, maxAttempts), es) && x == Exec(Fresh(false, 2, maxAttempts), es)
    ensures |x.qps| == 2 && x.accepted == 1 && !x.qps[0].held && x.qps[1].held && x.qps[1].established
    ensures !AcceptOne(x, None, Accepted).qps[1].established && !AcceptOne(x, None, Accepted).qps[0].held
  {
    var x0, e0, e1 := Fresh(false, 2, maxAttempts), Request(Some(1), Accepted), Established(1);
    FreshInv(false, 2, maxAttempts);
    var x1 := Next(x0, e0);
    StepKeeps(x0, e0);
    assert Enabled(x1, e1);
    x := Next(x1, e1);
    StepKeeps(x1, e1);
    assert Legal(x, []) && Exec(x, []) == x;
    assert Legal(x1, [e1]) && Exec(x1, [e1]) == x by { assert [e1][1..] == []; }
    assert [e0, e1][1..] == [e1];
    CounterEvictsExact(x);
  }

  /** A hard teardown keeps the count right exactly when the queue pair is not established, which is why a reused slot
      is demoted first and a retry is scheduled only for one that is down. */
  lemma HardTeardownExact(x: Ep, i: nat)
    requires Inv(x) && i < |x.qps|
    ensures var y := HardTeardown(x, i); y.up == EstCount(y.qps) <==> !x.qps[i].established
  {
    CountUpdate(x.qps, i, x.qps[i].(established := false, cm := NoCm));
  }

  // ---- the retry budget ----

  /** The queue pair whose retry a step may schedule. */
  function Rearmed(e: Event): Option<nat> {
    match e
    case Teardown(i) => Some(i)
    case SilentDrop(i) => Some(i)
    case Retry(i, active, ok) => if active && !ok then Some(i) else None
    case _ => None
  }

  /** The retry work leaves its queue pair down and every other one alone. The retry is no longer pending, unless a dial
      that could not start schedules another; a dial that starts has a new connection id and spends nothing. */
  lemma RetryMeans(x: Ep, i: nat, active: bool, ok: bool)
    requires Inv(x) && Enabled(x, Retry(i, active, ok))
    ensures var y := RetryWork(x, i, active, ok);
            && !y.qps[i].established && (active && !ok ==> y.qps[i].retry || y.failed)
            && (y.qps[i].retry <==> active && !ok && x.qps[i].attempts < x.maxAttempts)
            && y.qps[i].cm == (if !active then x.qps[i].cm else if ok then Live(false, false) else NoCm)
            && (!active || ok ==> y.failed == x.failed && y.qps[i].attempts == x.qps[i].attempts)
            && y.up == x.up && y.connected == x.connected
            && forall j :: 0 <= j < |x.qps| && j != i ==> y.qps[j] == x.qps[j]
  {
    assert QpOk(x, x.qps[i]);
  }

  /** A first dial that starts has a connection id; one that cannot leaves its retry pending, at no cost. */
  lemma FirstDialMeans(x: Ep, i: nat, ok: bool)
    requires Inv(x) && Enabled(x, FirstDials(i, ok))
    ensures var y := FirstDial(x, i, ok);
            && y == x.(qps := x.qps[i := y.qps[i]]) && (y.qps[i].retry <==> !ok) && !y.qps[i].established
            && y.qps[i].attempts == x.qps[i].attempts && y.qps[i].cm == (if ok then Live(false, false) else NoCm)
  {
    assert QpOk(x, x.qps[i]);
  }

  // ---- how attempts are spent ----

  /** An attempt is spent exactly by scheduling a retry, while there is one; only an establish gives them back. */
  ghost predicate AttemptsFollow(x: Ep, y: Ep, e: Event, i: nat)
    requires i < |x.qps| == |y.qps|
  {
    y.qps[i].attempts ==
      if e == Established(i) then 0
      else if x.initiator && Rearmed(e) == Some(i) && x.qps[i].attempts < x.maxAttempts then x.qps[i].attempts + 1
      else x.qps[i].attempts
  }

  lemma TeardownAttempts(x: Ep, k: nat, i: nat)
    requires i < |x.qps| && Enabled(x, Teardown(k))
    ensures AttemptsFollow(x, OnTeardown(x, k), Teardown(k), i)
  {
    var y := Demote(SetQp(x, k, x.qps[k].(cm := x.qps[k].cm.(torn := true))), k);
    var z := if ReleasesSlot(x.initiator, y.qps[k].held) then DropSlot(y, k) else y;
    assert SameBudget(x, z) && OnTeardown(x, k) == Rearm(z, k);
  }

  lemma RetryAttempts(x: Ep, k: nat, active: bool, ok: bool, i: nat)
    requires i < |x.qps| && Enabled(x, Retry(k, active, ok))
    ensures AttemptsFollow(x, RetryWork(x, k, active, ok), Retry(k, active, ok), i)
  {
    if active {
      var z := Dial(HardTeardown(SetQp(x, k, x.qps[k].(retry := false)), k), k, ok);
      assert SameBudget(x, z);
    }
  }

  lemma AttemptsStep(x: Ep, e: Event, i: nat)
    requires Enabled(x, e) && i < |x.qps|
    ensures AttemptsFollow(x, Next(x, e), e, i)
  {
    match e
    case Teardown(k) => TeardownAttempts(x, k, i);
    case SilentDrop(k) => assert SameBudget(x, Demote(x, k));
    case Retry(k, active, ok) => RetryAttempts(x, k, active, ok, i);
    case _ =>
  }

  lemma RoleStays(x: Ep, e: Event)
    requires Enabled(x, e)
    ensures SameRole(x, Next(x, e))
  {
  }

  /** How often a run would schedule a retry of queue pair `i`. */
  function Rearms(es: seq<Event>, i: nat): nat {
    if es == [] then 0 else (if Rearmed(es[0]) == Some(i) then 1 else 0) + Rearms(es[1..], i)
  }

  /** Over every run without an establish of it, dials that start included, a queue pair's attempts are what the
      budget allows of the retries that were due. */
  lemma {:induction false} AttemptsRun(x: Ep, es: seq<Event>, i: nat)
    requires x.initiator && Legal(x, es) && i < |x.qps| && x.qps[i].attempts <= x.maxAttempts && Established(i) !in es
    ensures |Exec(x, es).qps| == |x.qps|
    ensures Exec(x, es).qps[i].attempts == Min(x.qps[i].attempts + Rearms(es, i), x.maxAttempts)
    decreases |es|
  {
    if es != [] {
      AttemptsStep(x, es[0], i);
      RoleStays(x, es[0]);
      AttemptsRun(Next(x, es[0]), es[1..], i);
    }
  }

  /** From `a` attempts on, the retries due to queue pair `i` at some point exceed the budget of its last establish. */
  predicate Overspends(a: nat, es: seq<Event>, i: nat, max: nat)
    decreases |es|
  {
    && es != []
    && if es[0] == Established(i) then Overspends(0, es[1..], i, max)
       else if Rearmed(es[0]) == Some(i) then a >= max || Overspends(a + 1, es[1..], i, max)
       else Overspends(a, es[1..], i, max)
  }

  /** Without an establish that is a count. */
  lemma {:induction false} OverspendsCounts(a: nat, es: seq<Event>, i: nat, max: nat)
    requires a <= max && Established(i) !in es
    ensures Overspends(a, es, i, max) <==> a + Rearms(es, i) > max
    decreases |es|
  {
    if es != [] && !(Rearmed(es[0]) == Some(i) && a >= max) {
      OverspendsCounts(if Rearmed(es[0]) == Some(i) then a + 1 else a, es[1..], i, max);
    }
  }

  ghost predicate SomeOverspends(x: Ep, es: seq<Event>) {
    exists i :: 0 <= i < |x.qps| && Overspends(x.qps[i].attempts, es, i, x.maxAttempts)
  }

  lemma OverspendsStep(x: Ep, e: Event, es: seq<Event>, i: nat)
    requires Enabled(x, e) && x.initiator && i < |x.qps| && !(Rearmed(e) == Some(i) && x.qps[i].attempts >= x.maxAttempts)
    ensures Overspends(x.qps[i].attempts, [e] + es, i, x.maxAttempts)
       <==> Overspends(Next(x, e).qps[i].attempts, es, i, x.maxAttempts)
  {
    AttemptsStep(x, e, i);
    assert ([e] + es)[1..] == es;
  }

  /** Over every run the endpoint is failed exactly when the retries due to some queue pair exceed the budget of its
      last establish: a peer that keeps rejecting is given up after `maxAttempts` of them, whether or not dials start. */
  lemma {:induction false} FailedRunExact(x: Ep, es: seq<Event>)
    requires x.initiator && !x.failed && Legal(x, es)
    ensures Exec(x, es).failed <==> SomeOverspends(x, es)
    decreases |es|
  {
    if es != [] {
      var e, y := es[0], Next(x, es[0]);
      FailsExact(x, e);
      RoleStays(x, e);
      if y.failed {
        FailedForever(y, es[1..]);
        assert Overspends(x.qps[Rearmed(e).value].attempts, es, Rearmed(e).value, x.maxAttempts);
      } else {
        FailedRunExact(y, es[1..]);
        assert es == [e] + es[1..];
        forall i | 0 <= i < |x.qps|
          ensures Overspends(x.qps[i].attempts, es, i, x.maxAttempts)
             <==> Overspends(y.qps[i].attempts, es[1..], i, x.maxAttempts)
        {
          OverspendsStep(x, e, es[1..], i);
        }
      }
    }
  }

  /** In particular from the start, where every budget is whole. */
  lemma FailedFromStart(n: nat, maxAttempts: nat, es: seq<Event>)
    requires n > 0 && Legal(Fresh(true, n, maxAttempts), es)
    ensures Exec(Fresh(true, n, maxAttempts), es).failed <==> exists i :: 0 <= i < n && Overspends(0, es, i, maxAttempts)
  {
    var x := Fresh(true, n, maxAttempts);
    FailedRunExact(x, es);
    assert forall i :: 0 <= i < n ==> x.qps[i].attempts == 0;
    if i :| 0 <= i < n && Overspends(0, es, i, maxAttempts) {
      assert Overspends(x.qps[i].attempts, es, i, x.maxAttempts);
      assert Exec(x, es).failed;
      assert exists k :: 0 <= k < n && Overspends(0, es, k, maxAttempts);
    }
  }

  /** `k` rounds of a dial that starts and is then torn down. */
  function Redials(x: Ep, i: nat, k: nat): (r: Ep)
    requires i < |x.qps|
    ensures |r.qps| == |x.qps|
  {
    if k == 0 then x else OnTeardown(RetryWork(Redials(x, i, k - 1), i, true, true), i)
  }

  lemma RoundSpends(x: Ep, i: nat)
    requires x.initiator && i < |x.qps|
    ensures var y := OnTeardown(RetryWork(x, i, true, true), i);
            && SameRole(x, y) && (y.failed <==> x.failed || x.qps[i].attempts >= x.maxAttempts)
            && y.qps[i].attempts == x.qps[i].attempts + B(x.qps[i].attempts < x.maxAttempts)
            && (y.qps[i].retry <==> x.qps[i].attempts < x.maxAttempts)
  {
    var z := RetryWork(x, i, true, true);
    assert z.initiator && z.maxAttempts == x.maxAttempts && z.failed == x.failed;
    assert z.qps[i] == x.qps[i].(retry := false, established := false, cm := Live(false, false));
    TeardownSpends(z, i);
  }

  /** Against a peer that rejects every dial the endpoint fails exactly when the rounds exceed what is left of the
      budget, and no retry is pending then. */
  lemma {:induction false} RedialsSpend(x: Ep, i: nat, k: nat)
    requires x.initiator && !x.failed && i < |x.qps| && x.qps[i].retry && x.qps[i].attempts <= x.maxAttempts
    ensures var y := Redials(x, i, k);
            && y.initiator && y.maxAttempts == x.maxAttempts && (y.failed <==> x.qps[i].attempts + k > x.maxAttempts)
            && y.qps[i].attempts == Min(x.qps[i].attempts + k, x.maxAttempts)
            && (y.qps[i].retry <==> x.qps[i].attempts + k <= x.maxAttempts)
    decreases k
  {
    if k > 0 {
      RedialsSpend(x, i, k - 1);
      RoundSpends(Redials(x, i, k - 1), i);
    }
  }

  /** The retry work runs `k` times and no dial can be started. */
  function FailDials(x: Ep, i: nat, k: nat): (r: Ep)
    requires i < |x.qps|
    ensures |r.qps| == |x.qps|
  {
    if k == 0 then x else RetryWork(FailDials(x, i, k - 1), i, true, false)
  }

  lemma {:induction false} DialsFail(x: Ep, i: nat, k: nat)
    requires x.initiator && i < |x.qps| && x.qps[i].retry && x.qps[i].attempts + k <= x.maxAttempts
    ensures var y := FailDials(x, i, k);
            && y.initiator && y.maxAttempts == x.maxAttempts && y.failed == x.failed
            && y.qps[i].retry && y.qps[i].attempts == x.qps[i].attempts + k
    decreases k
  {
    if k > 0 { DialsFail(x, i, k - 1); }
  }

  lemma {:induction false} DialsExhaust(x: Ep, i: nat, k: nat)
    requires x.initiator && i < |x.qps| && x.qps[i].retry && x.qps[i].attempts <= x.maxAttempts < x.qps[i].attempts + k
    ensures var y := FailDials(x, i, k);
            && y.initiator && y.maxAttempts == x.maxAttempts && y.failed
            && !y.qps[i].retry && y.qps[i].attempts == x.maxAttempts
    decreases k
  {
    if x.qps[i].attempts + k - 1 <= x.maxAttempts {
      DialsFail(x, i, k - 1);
    } else {
      DialsExhaust(x, i, k - 1);
    }
  }

  /** The loss of an established queue pair, noticed by a probe or reported, and reported `more` times again. */
  function Lose(x: Ep, i: nat, silent: bool, more: nat): (r: Ep)
    requires i < |x.qps| && x.qps[i].cm.Live? && x.qps[i].established
    ensures |r.qps| == |x.qps| && r.qps[i].cm.Live?
  {
    if more > 0 then OnTeardown(Lose(x, i, silent, more - 1), i)
    else if silent then OnSilentDrop(x, i) else OnTeardown(x, i)
  }

  /** One report: an attempt is spent and a retry scheduled, or the budget is gone and the endpoint failed. */
  ghost predicate Spends(x: Ep, y: Ep, i: nat)
    requires i < |x.qps| == |y.qps|
  {
    && y.initiator == x.initiator && y.maxAttempts == x.maxAttempts
    && if x.qps[i].attempts < x.maxAttempts
       then y.qps[i].retry && y.qps[i].attempts == x.qps[i].attempts + 1 && y.failed == x.failed
       else y.qps[i].retry == x.qps[i].retry && y.qps[i].attempts == x.qps[i].attempts && y.failed
  }

  lemma TeardownSpends(x: Ep, i: nat)
    requires x.initiator && i < |x.qps| && x.qps[i].cm.Live?
    ensures Spends(x, OnTeardown(x, i), i)
  {
    var y := Demote(SetQp(x, i, x.qps[i].(cm := x.qps[i].cm.(torn := true))), i);
    assert y.qps[i].attempts == x.qps[i].attempts && y.qps[i].retry == x.qps[i].retry && y.initiator;
    assert OnTeardown(x, i) == Rearm(y, i);
  }

  lemma DropSpends(x: Ep, i: nat)
    requires x.initiator && i < |x.qps| && x.qps[i].established
    ensures Spends(x, OnSilentDrop(x, i), i)
  {
  }

  /** Each report spends an attempt while there is one; the first too many fails the endpoint and leaves the last
      retry pending. */
  lemma {:induction false} ReportsSpend(x: Ep, i: nat, silent: bool, more: nat)
    requires x.initiator && !x.failed && i < |x.qps| && x.qps[i].cm.Live? && x.qps[i].established
    requires x.maxAttempts > 0 && x.qps[i].attempts == 0
    ensures var y := Lose(x, i, silent, more);
            && y.initiator && y.maxAttempts == x.maxAttempts && y.qps[i].retry
            && y.qps[i].attempts == Min(more + 1, x.maxAttempts) && (y.failed <==> more + 1 > x.maxAttempts)
    decreases more
  {
    if more > 0 {
      ReportsSpend(x, i, silent, more - 1);
      TeardownSpends(Lose(x, i, silent, more - 1), i);
    } else if silent {
      DropSpends(x, i);
    } else {
      TeardownSpends(x, i);
    }
  }

  /** Every establish renews the whole budget, and every report of a loss and every dial that cannot start spends one
      of it: the endpoint fails exactly when they exceed it. A retry is then still pending exactly when it was the
      reports alone that did. */
  lemma BudgetRenewed(x: Ep, i: nat, silent: bool, more: nat, k: nat)
    requires Inv(x) && x.initiator && !x.failed && x.maxAttempts > 0 && Enabled(x, Established(i))
    ensures var y := FailDials(Lose(OnEstablished(x, i), i, silent, more), i, k);
            && (y.failed <==> more + 1 + k > x.maxAttempts)
            && (y.qps[i].retry <==> k == 0 || more + 1 + k <= x.maxAttempts)
  {
    var lost := Lose(OnEstablished(x, i), i, silent, more);
    ReportsSpend(OnEstablished(x, i), i, silent, more);
    if more + 1 + k <= x.maxAttempts {
      DialsFail(lost, i, k);
    } else if k > 0 {
      DialsExhaust(lost, i, k);
    }
  }

  // ---- the failure flag ----

  lemma RetryFailsExact(x: Ep, i: nat, active: bool, ok: bool)
    requires i < |x.qps| && x.initiator && !x.failed
    ensures RetryWork(x, i, active, ok).failed <==> active && !ok && x.qps[i].attempts >= x.maxAttempts
  {
  }

  lemma AcceptorNeverFails(x: Ep, i: nat)
    requires i < |x.qps| && x.qps[i].cm.Live? && !x.initiator && !x.failed
    ensures !OnTeardown(x, i).failed
  {
  }

  /** A step fails the endpoint exactly when it would schedule a retry and that queue pair's budget is spent. */
  lemma FailsExact(x: Ep, e: Event)
    requires Enabled(x, e) && !x.failed
    ensures Next(x, e).failed <==>
              && x.initiator && Rearmed(e).Some? && Rearmed(e).value < |x.qps|
              && x.qps[Rearmed(e).value].attempts >= x.maxAttempts
  {
    match e
    case Teardown(i) => if x.initiator { TeardownSpends(x, i); } else { AcceptorNeverFails(x, i); }
    case SilentDrop(i) => DropSpends(x, i);
    case Retry(i, active, ok) => RetryFailsExact(x, i, active, ok);
    case _ =>
  }

  /** It does so with that queue pair's retry still pending exactly when a teardown event finds it pending, that is,
      when the same loss is reported again after the last attempt was scheduled. */
  lemma FailsWhilePending(x: Ep, e: Event, i: nat)
    requires Inv(x) && Enabled(x, e) && !x.failed && Next(x, e).failed && Rearmed(e) == Some(i)
    ensures Next(x, e).qps[i].retry <==> e.Teardown? && x.qps[i].retry
  {
    assert QpOk(x, x.qps[i]);
  }

  lemma FailedStep(x: Ep, e: Event)
    requires x.failed && Enabled(x, e)
    ensures Next(x, e).failed
  {
  }

  /** The flag is never cleared. */
  lemma {:induction false} FailedForever(x: Ep, es: seq<Event>)
    requires x.failed && Legal(x, es)
    ensures Exec(x, es).failed
    decreases |es|
  {
    if es != [] {
      FailedStep(x, es[0]);
      FailedForever(Next(x, es[0]), es[1..]);
    }
  }

  /** Some run from a new endpoint ends there. */
  ghost predicate Reachable(initiator: bool, n: nat, maxAttempts: nat, x: Ep) {
    exists es :: Legal(Fresh(initiator, n, maxAttempts), es) && Exec(Fresh(initiator, n, maxAttempts), es) == x
  }

  lemma {:induction false} ExecSnoc(x: Ep, es: seq<Event>, e: Event)
    requires Legal(x, es) && Enabled(Exec(x, es), e)
    ensures Legal(x, es + [e]) && Exec(x, es + [e]) == Next(Exec(x, es), e)
    decreases |es|
  {
    if es == [] {
      assert Legal(Next(x, e), []) && [e][1..] == [] && es + [e] == [e];
    } else {
      ExecSnoc(Next(x, es[0]), es[1..], e);
      assert (es + [e])[0] == es[0] && (es + [e])[1..] == es[1..] + [e];
    }
  }

  lemma ReachableNext(n: nat, m: nat, x: Ep, e: Event)
    requires Reachable(true, n, m, x) && Enabled(x, e)
    ensures Reachable(true, n, m, Next(x, e))
  {
    var es :| Legal(Fresh(true, n, m), es) && Exec(Fresh(true, n, m), es) == x;
    ExecSnoc(Fresh(true, n, m), es, e);
  }

  lemma {:induction false} LoseReachable(n: nat, m: nat, x: Ep, i: nat, more: nat)
    requires Reachable(true, n, m, x) && x.initiator && i < |x.qps| && x.qps[i].cm.Live? && x.qps[i].established
    ensures Reachable(true, n, m, Lose(x, i, true, more))
    decreases more
  {
    if more == 0 {
      ReachableNext(n, m, x, SilentDrop(i));
    } else {
      LoseReachable(n, m, x, i, more - 1);
      ReachableNext(n, m, Lose(x, i, true, more - 1), Teardown(i));
    }
  }

  lemma Up(maxAttempts: nat) returns (x: Ep)
    ensures Reachable(true, 1, maxAttempts, x) && |x.qps| == 1 && x.qps[0] == Qp(true, false, Live(true, false), false, 0)
    ensures x.initiator && !x.failed && x.maxAttempts == maxAttempts && x.up == 1
  {
    x := Fresh(true, 1, maxAttempts);
    assert Reachable(true, 1, maxAttempts, x) by { assert Legal(x, []) && Exec(x, []) == x; }
    ReachableNext(1, maxAttempts, x, FirstDials(0, true));
    x := Next(x, FirstDials(0, true));
    ReachableNext(1, maxAttempts, x, Established(0));
    x := Next(x, Established(0));
  }

  lemma {:induction false} LoseCounts(x: Ep, more: nat)
    requires |x.qps| == 1 && x.up == 1 && x.initiator && x.qps[0] == Qp(true, false, Live(true, false), false, 0)
    ensures var y := Lose(x, 0, true, more); |y.qps| == 1 && y.up == 0 && !y.qps[0].established
    decreases more
  {
    if more > 0 { LoseCounts(x, more - 1); }
  }

  /** So a failed endpoint can come up again: its queue pair is lost, the loss is reported once more than the budget
      allows, and the retry that was still pending succeeds. */
  lemma FailedCanConnect(maxAttempts: nat) returns (x: Ep)
    requires maxAttempts > 0
    ensures Reachable(true, 1, maxAttempts, x) && x.failed && x.connected
  {
    var up := Up(maxAttempts);
    x := Lose(up, 0, true, maxAttempts);
    ReportsSpend(up, 0, true, maxAttempts);
    LoseCounts(up, maxAttempts);
    LoseReachable(1, maxAttempts, up, 0, maxAttempts);
    ReachableNext(1, maxAttempts, x, Retry(0, true, true));
    x := Next(x, Retry(0, true, true));
    ReachableNext(1, maxAttempts, x, Established(0));
    x := Next(x, Established(0));
  }
}
