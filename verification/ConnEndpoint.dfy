/** The endpoint's queue-pair table and counters, updated in place by the connection-manager handlers. */
module ConnEndpoint {
  import opened Base
  import C = Conn

  class Endpoint {
    const initiator: bool
    const maxAttempts: nat
    const qps: array<C.Qp>
    var up: int
    var accepted: int
    var connected: bool
    var shared: bool
    var failed: bool

    ghost function Value(): C.Ep
      reads this, qps
    {
      C.Ep(initiator, maxAttempts, qps[..], up, accepted, connected, shared, failed)
    }

    /** Flags, slots, counters and latch agree, whatever events came before. */
    ghost predicate Valid()
      reads this, qps
    {
      C.Inv(Value())
    }

    /** What the counters and the latch mean: how many are established, how many slots are held, and whether all are up. */
    ghost predicate Accounted()
      reads this, qps
    {
      && up == C.EstCount(qps[..]) <= qps.Length && accepted == C.HeldCount(qps[..]) <= qps.Length
      && (connected <==> forall j :: 0 <= j < qps.Length ==> qps[j].established)
    }

    lemma ValidMeans()
      requires Valid()
      ensures Accounted()
    {
      C.CountBounds(qps[..]);
      assert forall j :: 0 <= j < qps.Length ==> qps[..][j] == qps[j];
    }

    twostate predicate OnlyChanges(i: nat)
      reads qps
    {
      forall j :: 0 <= j < qps.Length && j != i ==> qps[j] == old(qps[j])
    }

    constructor (initiator: bool, n: nat, maxAttempts: nat)
      requires n > 0
      ensures Valid() && Accounted() && Value() == C.Fresh(initiator, n, maxAttempts) && fresh(qps)
    {
      this.initiator, this.maxAttempts := initiator, maxAttempts;
      qps := new C.Qp[n](_ => C.Qp(false, false, C.NoCm, false, 0));
      up, accepted, connected, shared, failed := 0, 0, false, false, false;
      new;
      assert qps[..] == C.Fresh(initiator, n, maxAttempts).qps;
      C.FreshInv(initiator, n, maxAttempts);
      ValidMeans();
    }

    method Demote(i: nat)
      requires i < qps.Length
      modifies this`up, this`connected, qps
      ensures Value() == C.Demote(old(Value()), i)
    {
      if qps[i].established {
        qps[i] := qps[i].(established := false);
        up := up - 1;
        if up < qps.Length && connected {
          connected := false;
        }
      }
    }

    method DropSlot(i: nat)
      requires i < qps.Length
      modifies this`accepted, qps
      ensures Value() == C.DropSlot(old(Value()), i)
    {
      qps[i] := qps[i].(held := false);
      accepted := accepted - 1;
    }

    method HardTeardown(i: nat)
      requires i < qps.Length
      modifies qps
      ensures Value() == C.HardTeardown(old(Value()), i)
    {
      qps[i] := qps[i].(established := false, cm := C.NoCm);
    }

    /** Claim slot `i` and set the child up in it, releasing the claim on a synchronous failure. */
    method Bind(i: nat, outcome: C.Outcome)
      requires i < qps.Length
      modifies this`accepted, this`shared, qps
      ensures Value() == C.Bind(old(Value()), i, outcome)
    {
      accepted := accepted + 1;
      if outcome == C.SharedFails {
        accepted := accepted - 1;
        return;
      }
      shared := true;
      if qps[i].cm.Live? {
        HardTeardown(i);
      }
      if outcome != C.Accepted {
        accepted := accepted - 1;
        return;
      }
      qps[i] := qps[i].(cm := C.Live(false, false));
      qps[i] := qps[i].(held := true);
    }

    /** CONNECT_REQUEST on the listener; false means the request was rejected, for want of the right password or of a
        slot. */
    method AcceptOne(authorised: bool, peer: Option<nat>, outcome: C.Outcome) returns (taken: bool)
      requires Valid() && C.Enabled(Value(), C.Request(peer, outcome))
      modifies this, qps
      ensures Valid() && Accounted()
      ensures Value() == if authorised then C.AcceptOne(old(Value()), peer, outcome) else old(Value())
      ensures taken <==>
                authorised && (if qps.Length > 1 && peer.Some? then peer.value else C.HeldCount(old(qps[..]))) < qps.Length
    {
      ValidMeans();
      if !authorised {
        return false;
      }
      C.RequestKeeps(Value(), peer, outcome);
      var id := if qps.Length > 1 then peer else None;
      var probe := if id.Some? then id.value else accepted;
      var occupied := probe < qps.Length && qps[probe].held;
      match C.SlotDecide(id, accepted, qps.Length, occupied) {
        case Reject =>
          taken := false;
        case FreshSlot(i) =>
          Bind(i, outcome);
          taken := true;
        case ReuseSlot(i) =>
          Demote(i);
          DropSlot(i);
          Bind(i, outcome);
          taken := true;
      }
      ValidMeans();
    }

    method OnEstablished(i: nat)
      requires Valid() && C.Enabled(Value(), C.Established(i))
      modifies this`up, this`connected, qps
      ensures Valid() && Accounted() && OnlyChanges(i)
      ensures qps[i].established && qps[i].attempts == 0 && up == old(up) + 1
      ensures Value() == C.OnEstablished(old(Value()), i)
    {
      C.EstablishedKeeps(Value(), i);
      assert !qps[i].established by { assert C.QpOk(Value(), qps[..][i]); }
      qps[i] := qps[i].(established := true, attempts := 0, cm := qps[i].cm.(reported := true));
      up := up + 1;
      if up == qps.Length {
        connected := true;
      }
      ValidMeans();
    }

    /** Schedule another dial while the budget lasts; otherwise fail an initiator for good. */
    method Rearm(i: nat)
      requires i < qps.Length
      modifies this`failed, qps
      ensures Value() == C.Rearm(old(Value()), i)
    {
      if initiator && qps[i].attempts < maxAttempts {
        qps[i] := qps[i].(attempts := qps[i].attempts + 1, retry := true);
      } else if initiator {
        failed := true;
      }
    }

    /** DISCONNECTED, REJECTED and the error events, for an id that established or not, once or again. */
    method OnTeardown(i: nat)
      requires Valid() && C.Enabled(Value(), C.Teardown(i))
      modifies this, qps
      ensures Valid() && Accounted() && OnlyChanges(i)
      ensures !qps[i].established && !qps[i].held && (initiator ==> qps[i].retry || failed)
      ensures Value() == C.OnTeardown(old(Value()), i)
    {
      C.TeardownKeeps(Value(), i);
      assert C.QpOk(Value(), qps[..][i]);
      Mark(i);
      Demote(i);
      if C.ReleasesSlot(initiator, qps[i].held) {
        DropSlot(i);
      }
      Rearm(i);
      ValidMeans();
    }

    /** The id has had its teardown event. */
    method Mark(i: nat)
      requires i < qps.Length && qps[i].cm.Live?
      modifies qps
      ensures Value() == C.SetQp(old(Value()), i, old(qps[i]).(cm := old(qps[i]).cm.(torn := true)))
    {
      qps[i] := qps[i].(cm := qps[i].cm.(torn := true));
    }

    method OnSilentDrop(i: nat)
      requires Valid() && C.Enabled(Value(), C.SilentDrop(i))
      modifies this, qps
      ensures Valid() && Accounted() && OnlyChanges(i)
      ensures !qps[i].established && up == old(up) - 1 && !connected && (qps[i].retry || failed)
      ensures Value() == C.OnSilentDrop(old(Value()), i)
    {
      C.SilentDropKeeps(Value(), i);
      Demote(i);
      Rearm(i);
      ValidMeans();
    }

    /** Dial one queue pair; a failed dial leaves no connection id behind. */
    method Dial(i: nat, ok: bool)
      requires i < qps.Length
      modifies qps
      ensures Value() == C.Dial(old(Value()), i, ok)
    {
      qps[i] := qps[i].(cm := if ok then C.Live(false, false) else C.NoCm);
    }

    method RetryWork(i: nat, active: bool, dialled: bool)
      requires Valid() && C.Enabled(Value(), C.Retry(i, active, dialled))
      modifies this`failed, qps
      ensures Valid() && Accounted() && OnlyChanges(i)
      ensures !qps[i].established && (active && !dialled ==> qps[i].retry || failed)
      ensures !active || dialled ==> qps[i].attempts == old(qps[i].attempts) && failed == old(failed) && !qps[i].retry
      ensures Value() == C.RetryWork(old(Value()), i, active, dialled)
    {
      C.RetryKeeps(Value(), i, active, dialled);
      C.RetryMeans(Value(), i, active, dialled);
      ghost var was := Value();
      qps[i] := qps[i].(retry := false);
      assert Value() == C.SetQp(was, i, was.qps[i].(retry := false));
      if active {
        HardTeardown(i);
        Dial(i, dialled);
        if !dialled {
          Rearm(i);
        }
      }
      assert Value() == C.RetryWork(was, i, active, dialled);
      ValidMeans();
    }
  }
}
