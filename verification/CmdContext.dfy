/** The command context as the driver keeps it: the ownership bitmap and the slab of completion records. */
module CmdContext {
  import opened Base
  import opened CmdCtx
  import O = Ownership

  /** What a claim answers: taken, no pool, out of range, or already in flight. */
  datatype ClaimCode = Taken | ENxio | ERange | EBusy

  /** What a registration answers: done, a pool is there already, out of memory with everything undone, or the cleanup
      has read the ownership bitmap that could not be allocated. */
  datatype RegisterCode = Registered | AlreadyThere | NoMemory | BitmapRead

  datatype UnregisterCode = Gone | NotThere | InFlight

  class Context {
    var registered: bool
    var own: O.Bitmap
    var ops: array<Op>

    ghost predicate Valid()
      reads this, own, own.own
    {
      own.Valid() && ops.Length == own.count && (!registered ==> own.count == 0)
    }

    ghost function Value(): Ctx
      reads this, own, own.own, ops
    {
      Ctx(registered, own.Owned(), ops[..])
    }

    constructor ()
      ensures Valid() && Value() == Closed() && fresh(own) && fresh(own.own) && fresh(ops)
    {
      registered := false;
      own := new O.Bitmap(0);
      ops := new Op[0];
    }

    /** REGISTER, once the pool is pinned and mapped: all buffers start with the application. If the bitmap or the
        slab cannot be allocated the pool is released again, which first asks the bitmap whether a buffer is in flight:
        harmless when only the slab is missing, since no bit is set, or when the bitmap has no words. */
    method Register(count: nat, bitmapOk: bool, slabOk: bool) returns (code: RegisterCode)
      requires Valid()
      modifies this
      ensures old(registered) <==> code == AlreadyThere
      ensures !old(registered) ==>
                code == if bitmapOk && slabOk then Registered else if bitmapOk || count == 0 then NoMemory else BitmapRead
      ensures code in {Registered, NoMemory} ==> fresh(own) && fresh(own.own) && fresh(ops)
      ensures code != BitmapRead ==> Valid()
      ensures code == Registered ==> Value() == Fresh(count)
      ensures code == NoMemory ==> Value() == Closed()
      ensures code == AlreadyThere ==> Value() == old(Value())
    {
      if registered {
        return AlreadyThere;
      }
      if !bitmapOk && count > 0 {
        return BitmapRead;
      }
      registered := true;
      own := new O.Bitmap(count);
      ops := new Op[count](_ => Op(0, None, Send));
      assert ops[..] == Fresh(count).ops;
      code := Registered;
      if !bitmapOk || !slabOk {
        var busy := own.AnyKernel();
        assert !busy;
        registered := false;
        own := new O.Bitmap(0);
        ops := new Op[0];
        code := NoMemory;
      }
    }

    /** The front of SEND and RECV: claim the buffer, or say why not. */
    method Claim(b: nat) returns (code: ClaimCode)
      requires Valid()
      modifies own.own
      ensures Valid() && (code == Taken <==> Claims(old(Value()), b))
      ensures code == ENxio <==> !registered
      ensures code == ERange <==> registered && b >= ops.Length
      ensures code == EBusy <==> registered && b in old(Value()).own
      ensures Value() == if code == Taken then CmdCtx.Claim(old(Value()), b) else old(Value())
    {
      if !registered {
        return ENxio;
      }
      var r := own.Claim(b);
      code := if r == O.OwnOk then Taken else if r == O.ERange then ERange else EBusy;
    }

    /** Fill the buffer's completion record before posting. */
    method Prepare(b: nat, c: CmdId, k: Kind)
      requires Valid() && b < ops.Length
      modifies ops
      ensures Valid() && Value() == CmdCtx.Prepare(old(Value()), b, c, k)
    {
      ops[b] := Op(c, Some(c), k);
    }

    /** Give the buffer back after a synchronous failure. */
    method Release(b: nat)
      requires Valid()
      modifies own.own
      ensures Valid() && Value() == CmdCtx.Release(old(Value()), b)
    {
      var _ := own.Release(b);
    }

    /** A receive that could not be posted: take its command out of the record and give the buffer back. */
    method RecvPostFailed(b: nat) returns (io: Option<CmdId>)
      requires Valid() && b < ops.Length
      modifies own.own, ops
      ensures Valid()
      ensures Value() == CmdCtx.RecvPostFailed(old(Value()), b).0 && io == CmdCtx.RecvPostFailed(old(Value()), b).1
    {
      io := ops[b].io;
      ops[b] := ops[b].(io := None);
      var _ := own.Release(b);
    }

    /** A receive completion: read the record's command and give the buffer back. */
    method Done(b: nat) returns (io: Option<CmdId>)
      requires Valid() && b < ops.Length
      modifies own.own
      ensures Valid() && Value() == CmdCtx.Done(old(Value()), b).0 && io == CmdCtx.Done(old(Value()), b).1
    {
      io := ops[b].io;
      var _ := own.Release(b);
    }

    /** Ring exit for a receive: true if this call now owes the completion. */
    method Cancel(b: nat) returns (mine: bool)
      requires Valid() && b < ops.Length
      modifies ops
      ensures Valid() && Value() == CmdCtx.Cancel(old(Value()), b).0 && mine == CmdCtx.Cancel(old(Value()), b).1
    {
      mine := own.IsKernel(b);
      if mine {
        ops[b] := ops[b].(io := None);
      }
    }

    /** UNREGISTER: refused while any buffer is in flight. */
    method Unregister() returns (code: UnregisterCode)
      requires Valid()
      modifies this
      ensures Valid()
      ensures code == if !old(registered) then NotThere else if old(Value()).own == {} then Gone else InFlight
      ensures Value() == if code == Gone then Closed() else old(Value())
    {
      if !registered {
        return NotThere;
      }
      var busy := own.AnyKernel();
      if busy {
        return InFlight;
      }
      registered := false;
      own := new O.Bitmap(0);
      ops := new Op[0];
      code := Gone;
    }
  }
}
