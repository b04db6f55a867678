/** The echo tracker: outstanding sequence numbers kept in `window` slots, number n in slot n % window. */
module Tracker {
  import opened Base

  datatype Slot = Slot(busy: bool, seqno: u32, sent: u64)

  datatype State = State(slots: seq<Slot>, count: int, dups: nat, unknowns: nat)

  datatype Echoed = Rtt(ns: u64) | Dup | Unknown

  function Init(window: u32): State { State(seq(window, _ => Slot(false, 0, 0)), 0, 0, 0) }

  function Sent(s: State, n: u32, t: u64): (r: (State, bool))
    requires s.slots != []
  {
    var i := n % |s.slots|;
    if s.slots[i].busy then (s, false)
    else (s.(slots := s.slots[i := Slot(true, n, t)], count := s.count + 1), true)
  }

  function Echo(s: State, n: u32, now: u64): (r: (State, Echoed))
    requires s.slots != []
  {
    var i := n % |s.slots|;
    var slot := s.slots[i];
    if !slot.busy && slot.seqno == n && slot.sent != 0 then (s.(dups := s.dups + 1), Dup)
    else if !slot.busy || slot.seqno != n then (s.(unknowns := s.unknowns + 1), Unknown)
    else (s.(slots := s.slots[i := slot.(busy := false)], count := s.count - 1),
          Rtt(if now < slot.sent then 0 else now - slot.sent))
  }

  /** Each busy slot holds a number that belongs there. */
  ghost predicate Keyed(slots: seq<Slot>) {
    forall i :: 0 <= i < |slots| && slots[i].busy ==> slots[i].seqno % |slots| == i
  }

  /** The outstanding numbers and when each was sent. */
  ghost function Outstanding(slots: seq<Slot>): map<u32, u64>
    requires Keyed(slots)
  {
    map i | 0 <= i < |slots| && slots[i].busy :: slots[i].seqno := slots[i].sent
  }

  ghost predicate Inv(s: State) {
    s.slots != [] && Keyed(s.slots) && s.count == |Outstanding(s.slots)|
  }

  lemma OutstandingHas(slots: seq<Slot>, n: u32)
    requires slots != [] && Keyed(slots)
    ensures n in Outstanding(slots) <==> slots[n % |slots|].busy && slots[n % |slots|].seqno == n
    ensures n in Outstanding(slots) ==> Outstanding(slots)[n] == slots[n % |slots|].sent
  {
  }

  /** A slot is free exactly when no outstanding number belongs in it. */
  lemma SlotFree(slots: seq<Slot>, i: nat)
    requires Keyed(slots) && i < |slots|
    ensures !slots[i].busy <==> forall k :: k in Outstanding(slots) ==> k % |slots| != i
  {
    if slots[i].busy {
      assert slots[i].seqno in Outstanding(slots);
    }
  }

  lemma FillSlot(slots: seq<Slot>, n: u32, t: u64)
    requires slots != [] && Keyed(slots) && !slots[n % |slots|].busy
    ensures var filled := slots[n % |slots| := Slot(true, n, t)];
            Keyed(filled) && n !in Outstanding(slots) && Outstanding(filled) == Outstanding(slots)[n := t]
  {
    var filled := slots[n % |slots| := Slot(true, n, t)];
    assert Keyed(filled);
    forall k: u32
      ensures k in Outstanding(filled) <==> k in Outstanding(slots)[n := t]
      ensures k in Outstanding(filled) ==> Outstanding(filled)[k] == Outstanding(slots)[n := t][k]
    {
      OutstandingHas(slots, k);
      OutstandingHas(filled, k);
    }
  }

  lemma ClearSlot(slots: seq<Slot>, n: u32)
    requires slots != [] && Keyed(slots) && n in Outstanding(slots)
    ensures var i := n % |slots|;
            var cleared := slots[i := slots[i].(busy := false)];
            Keyed(cleared) && Outstanding(cleared) == Outstanding(slots) - {n}
  {
    var i := n % |slots|;
    var cleared := slots[i := slots[i].(busy := false)];
    assert Keyed(cleared);
    OutstandingHas(slots, n);
    forall k: u32
      ensures k in Outstanding(cleared) <==> k in Outstanding(slots) - {n}
      ensures k in Outstanding(cleared) ==> Outstanding(cleared)[k] == Outstanding(slots)[k]
    {
      OutstandingHas(slots, k);
      OutstandingHas(cleared, k);
    }
  }

  /** A send is accepted iff its slot is free, and then adds its number and nothing else. */
  lemma SentMeans(s: State, n: u32, t: u64)
    requires Inv(s)
    ensures var (s', ok) := Sent(s, n, t);
            && Inv(s') && |s'.slots| == |s.slots| && s'.dups == s.dups && s'.unknowns == s.unknowns
            && (ok <==> forall k :: k in Outstanding(s.slots) ==> k % |s.slots| != n % |s.slots|)
            && (ok ==> n !in Outstanding(s.slots) && Outstanding(s'.slots) == Outstanding(s.slots)[n := t])
            && (!ok ==> s' == s)
  {
    SlotFree(s.slots, n % |s.slots|);
    if Sent(s, n, t).1 {
      FillSlot(s.slots, n, t);
      var m := Outstanding(s.slots);
      assert m[n := t].Keys == m.Keys + {n};
    }
  }

  /** An echo succeeds iff its number is outstanding, and then removes it and nothing else. */
  lemma EchoMeans(s: State, n: u32, now: u64)
    requires Inv(s)
    ensures var (s', r) := Echo(s, n, now);
            && Inv(s') && |s'.slots| == |s.slots|
            && (r.Rtt? <==> n in Outstanding(s.slots))
            && (r.Rtt? ==> r.ns == Max(0, now - Outstanding(s.slots)[n]))
            && Outstanding(s'.slots) == Outstanding(s.slots) - {n}
            && s'.dups == s.dups + (if r.Dup? then 1 else 0) && s'.unknowns == s.unknowns + (if r.Unknown? then 1 else 0)
            && (!r.Rtt? ==> s'.slots == s.slots)
  {
    OutstandingHas(s.slots, n);
    var m: map<u32, u64> := Outstanding(s.slots);
    if n in m {
      ClearSlot(s.slots, n);
      assert m.Keys == (m - {n}).Keys + {n};
    } else {
      assert m - {n} == m;
    }
  }

  /** Numbers in different slots are at most as many as the slots. */
  lemma {:induction false} Pigeonhole(ks: set<u32>, w: nat)
    requires w > 0 && forall a, b :: a in ks && b in ks && a % w == b % w ==> a == b
    ensures |ks| <= w
  {
    var used := set k | k in ks :: k % w;
    SameSize(ks, used, w);
    Within(used, w);
  }

  lemma {:induction false} SameSize(ks: set<u32>, used: set<int>, w: nat)
    requires w > 0 && used == set k | k in ks :: k % w
    requires forall a, b :: a in ks && b in ks && a % w == b % w ==> a == b
    ensures |ks| == |used|
    decreases ks
  {
    if ks != {} {
      var k :| k in ks;
      var fewer := used - {k % w};
      forall i | i in fewer ensures i in set j | j in ks - {k} :: j % w {
        var j :| j in ks && j % w == i;
        assert j in ks - {k};
      }
      assert fewer == set j | j in ks - {k} :: j % w;
      SameSize(ks - {k}, fewer, w);
    }
  }

  lemma {:induction false} Within(used: set<int>, w: nat)
    requires forall i :: i in used ==> 0 <= i < w
    ensures |used| <= w
    decreases w
  {
    if w > 0 {
      Within(used - {w - 1}, w - 1);
    } else {
      assert forall i :: i !in used;
    }
  }

  /** The count never passes the window. */
  lemma CountWithinWindow(s: State)
    requires Inv(s)
    ensures 0 <= s.count <= |s.slots|
  {
    var ks := Outstanding(s.slots).Keys;
    forall a, b | a in ks && b in ks && a % |s.slots| == b % |s.slots| ensures a == b {
      OutstandingHas(s.slots, a);
      OutstandingHas(s.slots, b);
    }
    Pigeonhole(ks, |s.slots|);
  }

  // ---- runs ----

  datatype Call = Send(n: u32, t: u64) | Recv(n: u32, now: u64)

  function Step(s: State, c: Call): (r: State)
    requires s.slots != []
    ensures |r.slots| == |s.slots|
  {
    match c
    case Send(n, t) => Sent(s, n, t).0
    case Recv(n, now) => Echo(s, n, now).0
  }

  function Exec(s: State, calls: seq<Call>): (r: State)
    requires s.slots != []
    ensures |r.slots| == |s.slots|
    decreases |calls|
  {
    if calls == [] then s else Exec(Step(s, calls[0]), calls[1..])
  }

  predicate Accepts(s: State, c: Call, n: u32)
    requires s.slots != []
  {
    c.Send? && c.n == n && Sent(s, n, c.t).1
  }

  predicate Answers(s: State, c: Call, n: u32)
    requires s.slots != []
  {
    c.Recv? && c.n == n && Echo(s, n, c.now).1.Rtt?
  }

  /** How often `n` was accepted for sending, and how often an echo of it succeeded. */
  function Accepted(s: State, calls: seq<Call>, n: u32): nat
    requires s.slots != []
    decreases |calls|
  {
    if calls == [] then 0
    else (if Accepts(s, calls[0], n) then 1 else 0) + Accepted(Step(s, calls[0]), calls[1..], n)
  }

  function Answered(s: State, calls: seq<Call>, n: u32): nat
    requires s.slots != []
    decreases |calls|
  {
    if calls == [] then 0
    else (if Answers(s, calls[0], n) then 1 else 0) + Answered(Step(s, calls[0]), calls[1..], n)
  }

  ghost function Here(s: State, n: u32): nat
    requires Inv(s)
  {
    if n in Outstanding(s.slots) then 1 else 0
  }

  lemma StepKeeps(s: State, c: Call, n: u32)
    requires Inv(s)
    ensures Inv(Step(s, c))
    ensures Here(Step(s, c), n) + (if Answers(s, c, n) then 1 else 0) == Here(s, n) + if Accepts(s, c, n) then 1 else 0
  {
    match c
    case Send(k, t) => SentMeans(s, k, t);
    case Recv(k, now) => EchoMeans(s, k, now);
  }

  lemma {:induction false} RunBalances(s: State, calls: seq<Call>, n: u32)
    requires Inv(s)
    ensures Inv(Exec(s, calls))
    ensures Here(s, n) + Accepted(s, calls, n) == Here(Exec(s, calls), n) + Answered(s, calls, n)
    decreases |calls|
  {
    if calls != [] {
      StepKeeps(s, calls[0], n);
      RunBalances(Step(s, calls[0]), calls[1..], n);
    }
  }

  /** How often a run's echoes have a given outcome. */
  function Outcomes(s: State, calls: seq<Call>, r: Echoed): nat
    requires s.slots != []
    decreases |calls|
  {
    if calls == [] then 0
    else
      var c := calls[0];
      (if c.Recv? && Echo(s, c.n, c.now).1 == r then 1 else 0) + Outcomes(Step(s, c), calls[1..], r)
  }

  lemma {:induction false} RunCounts(s: State, calls: seq<Call>)
    requires Inv(s)
    ensures Exec(s, calls).dups == s.dups + Outcomes(s, calls, Dup)
    ensures Exec(s, calls).unknowns == s.unknowns + Outcomes(s, calls, Unknown)
    decreases |calls|
  {
    if calls != [] {
      StepKeeps(s, calls[0], 0);
      match calls[0] {
        case Send(k, t) => SentMeans(s, k, t);
        case Recv(k, now) => EchoMeans(s, k, now);
      }
      RunCounts(Step(s, calls[0]), calls[1..]);
    }
  }

  lemma InitInv(window: u32)
    requires window > 0
    ensures Inv(Init(window)) && Outstanding(Init(window).slots) == map[]
  {
  }

  /** Over every run: the count is the number of outstanding numbers and fits the window, and a number's
      sends and successful echoes differ by exactly whether it is outstanding, so no send is answered twice. */
  lemma TrackerRuns(window: u32, calls: seq<Call>, n: u32)
    requires window > 0
    ensures var s := Exec(Init(window), calls);
            && Inv(s) && s.count == |Outstanding(s.slots)| <= window
            && Accepted(Init(window), calls, n) - Answered(Init(window), calls, n) == Here(s, n)
            && s.dups == Outcomes(Init(window), calls, Dup) && s.unknowns == Outcomes(Init(window), calls, Unknown)
  {
    InitInv(window);
    RunCounts(Init(window), calls);
    RunBalances(Init(window), calls, n);
    CountWithinWindow(Exec(Init(window), calls));
  }

  /** The last send accepted into slot `i`, or `last` if there was none. */
  function Latest(s: State, calls: seq<Call>, i: nat, last: (u32, u64)): (u32, u64)
    requires s.slots != []
    decreases |calls|
  {
    if calls == [] then last
    else
      var c := calls[0];
      Latest(Step(s, c), calls[1..], i,
             if c.Send? && c.n % |s.slots| == i && Accepts(s, c, c.n) then (c.n, c.t) else last)
  }

  lemma {:induction false} SlotRemembers(s: State, calls: seq<Call>, i: nat)
    requires i < |s.slots|
    ensures var e := Exec(s, calls).slots[i];
            (e.seqno, e.sent) == Latest(s, calls, i, (s.slots[i].seqno, s.slots[i].sent))
    decreases |calls|
  {
    if calls != [] {
      SlotRemembers(Step(s, calls[0]), calls[1..], i);
    }
  }

  /** A failed echo is called a duplicate exactly when its number was the last one accepted into its slot,
      with a nonzero send time. */
  lemma DupExact(window: u32, calls: seq<Call>, n: u32, now: u64)
    requires window > 0
    ensures var s := Exec(Init(window), calls);
            var last := Latest(Init(window), calls, n % window, (0, 0));
            Inv(s) && (Echo(s, n, now).1 == Dup <==> n !in Outstanding(s.slots) && last.0 == n && last.1 != 0)
  {
    InitInv(window);
    RunBalances(Init(window), calls, n);
    SlotRemembers(Init(window), calls, n % window);
    OutstandingHas(Exec(Init(window), calls).slots, n);
  }
}
