/** The command context of one /dev/urp file: the registered pool's ownership bits and the per-buffer
    completion records, and what each path does to them under the ownership lock. */
module CmdCtx {
  import opened Base

  type CmdId = nat

  datatype Kind = Send | Recv

  /** A buffer's completion record: the command it was last prepared for, and the link through which a
      completion finds that command, cleared once someone else has taken the completion over. */
  datatype Op = Op(owner: CmdId, io: Option<CmdId>, kind: Kind)

  datatype Ctx = Ctx(registered: bool, own: set<nat>, ops: seq<Op>)

  function Closed(): Ctx { Ctx(false, {}, []) }

  function Fresh(count: nat): Ctx { Ctx(true, {}, seq(count, _ => Op(0, None, Send))) }

  /** A submission takes the buffer unless the pool is gone, the index is out of range or it is in flight. */
  predicate Claims(x: Ctx, b: nat) { x.registered && b < |x.ops| && b !in x.own }

  function Claim(x: Ctx, b: nat): Ctx { x.(own := x.own + {b}) }

  function Prepare(x: Ctx, b: nat, c: CmdId, k: Kind): Ctx
    requires b < |x.ops|
  {
    x.(ops := x.ops[b := Op(c, Some(c), k)])
  }

  function Release(x: Ctx, b: nat): Ctx { x.(own := x.own - {b}) }

  function TakeIo(x: Ctx, b: nat): Ctx
    requires b < |x.ops|
  {
    x.(ops := x.ops[b := x.ops[b].(io := None)])
  }

  /** A failed receive post: whoever is still reachable through the record is completed here. */
  function RecvPostFailed(x: Ctx, b: nat): (Ctx, Option<CmdId>)
    requires b < |x.ops|
  {
    (Release(TakeIo(x, b), b), x.ops[b].io)
  }

  /** A work completion: the buffer goes back, and the command, if still reachable, to task work. */
  function Done(x: Ctx, b: nat): (Ctx, Option<CmdId>)
    requires b < |x.ops|
  {
    (Release(x, b), x.ops[b].io)
  }

  /** Ring exit: take the completion over only while the buffer is still in flight. */
  function Cancel(x: Ctx, b: nat): (Ctx, bool)
    requires b < |x.ops|
  {
    if b in x.own then (TakeIo(x, b), true) else (x, false)
  }
}
