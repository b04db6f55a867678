/** The tracker as the C core and its Rust twin keep it: three parallel arrays indexed by slot. */
module TrackerArrays {
  import opened Base
  import T = Tracker

  const I64_LIMIT: nat := 0x8000_0000_0000_0000
  const EUNKNOWN: int := 7
  const EDUP: int := 8

  /** The int64_t the C core returns for an echo: the round-trip time cast to signed, or a negated code. */
  function CReturn(r: T.Echoed): int {
    match r
    case Rtt(ns) => if ns < I64_LIMIT then ns else ns - U64_MODULUS
    case Dup => -EDUP
    case Unknown => -EUNKNOWN
  }

  /** A caller can tell success from failure by the sign unless the round trip took 2^63 ns or more; the return
      for a successful echo is then negative and can even equal an error code. */
  lemma SignExact(r: T.Echoed)
    ensures (CReturn(r) < 0 <==> !r.Rtt?) <==> (r.Rtt? ==> r.ns < I64_LIMIT)
    ensures CReturn(T.Rtt(U64_MODULUS - EDUP)) == CReturn(T.Dup)
  {
  }

  class Arrays {
    const window: u32
    const sentNs: array<u64>
    const seqs: array<u32>
    const inFlight: array<bool>
    var inflightCount: int
    var dups: nat
    var unknowns: nat

    ghost predicate Valid()
      reads this, sentNs, seqs, inFlight
    {
      && 0 < window == sentNs.Length && seqs.Length == window && inFlight.Length == window
      && (sentNs as object) != (seqs as object) && T.Inv(Value())
    }

    ghost function Slots(): seq<T.Slot>
      reads sentNs, seqs, inFlight
    {
      seq(Min(Min(sentNs.Length, seqs.Length), inFlight.Length),
          i reads sentNs, seqs, inFlight
            requires 0 <= i < sentNs.Length && i < seqs.Length && i < inFlight.Length =>
          T.Slot(inFlight[i], seqs[i], sentNs[i]))
    }

    ghost function Value(): T.State
      reads this, sentNs, seqs, inFlight
    {
      T.State(Slots(), inflightCount, dups, unknowns)
    }

    constructor (window: u32)
      requires window > 0
      ensures Valid() && Value() == T.Init(window)
      ensures fresh(sentNs) && fresh(seqs) && fresh(inFlight)
    {
      this.window := window;
      sentNs := new u64[window](_ => 0);
      seqs := new u32[window](_ => 0);
      inFlight := new bool[window](_ => false);
      inflightCount, dups, unknowns := 0, 0, 0;
      new;
      T.InitInv(window);
      assert Slots() == T.Init(window).slots;
    }

    /** bench_track_sent: false is -BENCH_EFULL. */
    method Sent(n: u32, t: u64) returns (ok: bool)
      requires Valid()
      modifies this`inflightCount, sentNs, seqs, inFlight
      ensures Valid() && Value() == T.Sent(old(Value()), n, t).0 && ok == T.Sent(old(Value()), n, t).1
    {
      T.SentMeans(Value(), n, t);
      var slot := n % window;
      if inFlight[slot] {
        return false;
      }
      inFlight[slot] := true;
      seqs[slot] := n;
      sentNs[slot] := t;
      inflightCount := inflightCount + 1;
      assert Slots() == old(Slots())[slot := T.Slot(true, n, t)];
      ok := true;
    }

    /** Free the slot of an outstanding number and measure its round trip. */
    method Settle(n: u32, now: u64) returns (ns: u64)
      requires Valid() && inFlight[n % window] && seqs[n % window] == n
      modifies this`inflightCount, inFlight
      ensures Value() == T.Echo(old(Value()), n, now).0 && T.Rtt(ns) == T.Echo(old(Value()), n, now).1
    {
      var slot := n % window;
      inFlight[slot] := false;
      inflightCount := inflightCount - 1;
      assert Slots() == old(Slots())[slot := T.Slot(false, n, sentNs[slot])];
      if now < sentNs[slot] {
        return 0;
      }
      ns := now - sentNs[slot];
    }

    /** The echo bookkeeping both twins share; the Rust one returns this result, the C one CReturn of it. */
    method Echo(n: u32, now: u64) returns (r: T.Echoed)
      requires Valid()
      modifies this`inflightCount, this`dups, this`unknowns, inFlight
      ensures Valid() && Value() == T.Echo(old(Value()), n, now).0 && r == T.Echo(old(Value()), n, now).1
    {
      ghost var goal := T.Echo(Value(), n, now);
      assert T.Inv(goal.0) by { T.EchoMeans(Value(), n, now); }
      var slot := n % window;
      assert Slots()[slot] == T.Slot(inFlight[slot], seqs[slot], sentNs[slot]);
      if inFlight[slot] && seqs[slot] == n {
        var ns := Settle(n, now);
        return T.Rtt(ns);
      }
      if !inFlight[slot] && seqs[slot] == n && sentNs[slot] != 0 {
        dups := dups + 1;
        r := T.Dup;
      } else {
        unknowns := unknowns + 1;
        r := T.Unknown;
      }
      assert Value() == goal.0;
    }
  }
}
