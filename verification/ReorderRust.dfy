/**
 * The map-based twin of the reorder buffer
 * (crates/uds-rdma-protocol/src/reorder.rs): its two methods loop over the map
 * in place and return what they delivered.
 */
module ReorderRust {
  import opened Base
  import R = Reorder

  class MapBuffer {
    var pending: R.Pending
    var nextExpected: u64
    var maxBuffered: nat

    ghost function Value(): R.Rb
      reads this
    {
      R.Rb(pending, nextExpected, maxBuffered)
    }

    constructor (initial: u64, max: nat)
      ensures Value() == R.Rb(map[], initial, max)
    {
      pending, nextExpected, maxBuffered := map[], initial, max;
    }

    /** Remove and deliver the expected frame while it is present. */
    method DrainLoop() returns (delivered: seq<R.Frame>)
      modifies this
      ensures (Value(), delivered) == R.RustDrain(old(Value()))
    {
      delivered := [];
      ghost var goal := R.RustDrain(Value());
      assert [] + goal.1 == goal.1;
      while nextExpected in pending
        invariant maxBuffered == old(maxBuffered)
        invariant goal == (R.RustDrain(Value()).0, delivered + R.RustDrain(Value()).1)
        decreases |pending|
      {
        R.RemoveSize(pending, nextExpected);
        R.RustDrainTurn(Value(), delivered);
        delivered := delivered + [R.Frame(nextExpected, pending[nextExpected])];
        pending := pending - {nextExpected};
        nextExpected := if nextExpected == U64_MAX then nextExpected else nextExpected + 1;
      }
      assert delivered + [] == delivered;
    }

    method Insert(seqno: u64, payload: Payload) returns (delivered: seq<R.Frame>, code: R.Code)
      modifies this
      ensures (Value(), delivered, code) == R.RustInsert(old(Value()), seqno, payload)
    {
      if seqno < nextExpected {
        return [], R.Exist;
      }
      if seqno in pending {
        return [], R.Exist;
      }
      if |pending| >= maxBuffered && seqno != nextExpected {
        return [], R.NoBufs;
      }
      pending := pending[seqno := payload];
      delivered := DrainLoop();
      code := R.Ok;
    }

    method Advance() returns (delivered: seq<R.Frame>)
      modifies this
      ensures (Value(), delivered) == R.RustAdvance(old(Value()))
    {
      nextExpected := if nextExpected == U64_MAX then nextExpected else nextExpected + 1;
      delivered := DrainLoop();
    }
  }
}
