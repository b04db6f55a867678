/** The two-reference handshake around a memory registration: the submitting thread posts a registration and waits,
    the completion callback signals it, and whichever lets go last frees the wait record. */
module RegWait {
  import opened Base

  const EIO: int := 5
  const ENOMEM: int := 12
  const ETIMEDOUT: int := 110
  const ERESTARTSYS: int := 512

  /** The errnos by which the wait reports that it gave up with the work request still in flight. */
  predicate GaveUp(ret: int) { ret == -ETIMEDOUT || ret == -ERESTARTSYS }

  datatype Wr = Unposted | InFlight | Drained

  /** The thread: before the post, waiting, having given up (before and after handing the region over), returned to
      the caller, and finished. */
  datatype Thread = Begin | Waiting | Giving(e: int) | Handed(e: int) | Returned(ret: int) | Finished(ret: int)

  /** The completion callback: not run, having signalled, and having dropped its reference. */
  datatype Callback = NotRun | Signalled | Gone

  /** How the thread's wait ended. */
  datatype Leave = NotYet | Woken | TimedOut | Killed

  /** `mrSet` says whether the record refers to the region; `answer` is what the adapter said of the registration and
      `left` how the wait ended; `freed` and `deregs` count what must happen at most once. */
  datatype State = State(thread: Thread, callback: Callback, wr: Wr, refs: int, mrSet: bool, status: int,
                         answer: Option<bool>, left: Leave, postErr: int, freed: nat, deregs: nat, kept: bool)

  function Start(): State { State(Begin, NotRun, Unposted, 0, false, 0, None, NotYet, 0, 0, 0, false) }

  /** Dropping a reference; the last one deregisters a region that was handed over and frees the record. */
  function Put(s: State): State {
    var t := s.(refs := s.refs - 1);
    if t.refs == 0 then t.(freed := t.freed + 1, deregs := t.deregs + if t.mrSet then 1 else 0) else t
  }

  datatype Event =
    | NoMemory
    | PostFails(errno: int)
    | Posted
    | Drain(ok: bool)
    | Signal
    | CallbackPut
    | Wake
    | GiveUp(killed: bool)
    | HandOver
    | ThreadPut
    | Caller

  /** The wait gives up only when the signal has not come. */
  predicate Enabled(s: State, e: Event) {
    match e
    case NoMemory => s.thread == Begin
    case PostFails(errno) => s.thread == Begin && errno < 0
    case Posted => s.thread == Begin
    case Drain(_) => s.wr == InFlight
    case Signal => s.wr == Drained && s.callback == NotRun
    case CallbackPut => s.callback == Signalled
    case Wake => s.thread == Waiting && s.callback != NotRun
    case GiveUp(_) => s.thread == Waiting && s.callback == NotRun
    case HandOver => s.thread.Giving?
    case ThreadPut => s.thread.Handed?
    case Caller => s.thread.Returned?
  }

  function Next(s: State, e: Event): State
    requires Enabled(s, e)
  {
    match e
    case NoMemory => s.(thread := Returned(-ENOMEM))
    case PostFails(errno) => Put(Put(s.(refs := 2, thread := Returned(errno), postErr := errno)))
    case Posted => s.(refs := 2, thread := Waiting, wr := InFlight)
    case Drain(ok) => s.(wr := Drained, answer := Some(ok))
    case Signal => s.(callback := Signalled, status := if s.answer == Some(true) then 0 else -EIO)
    case CallbackPut => Put(s.(callback := Gone))
    case Wake => Put(s.(thread := Returned(s.status), left := Woken))
    case GiveUp(killed) =>
      s.(thread := Giving(if killed then -ERESTARTSYS else -ETIMEDOUT), left := if killed then Killed else TimedOut)
    case HandOver => s.(thread := Handed(s.thread.e), mrSet := true)
    case ThreadPut => Put(s.(thread := Returned(s.thread.e)))
    case Caller =>
      var ret := s.thread.ret;
      if ret == 0 then s.(thread := Finished(ret), kept := true)
      else if GaveUp(ret) then s.(thread := Finished(ret))
      else s.(thread := Finished(ret), deregs := s.deregs + 1)
  }

  predicate Legal(s: State, es: seq<Event>)
    decreases |es|
  {
    es == [] || (Enabled(s, es[0]) && Legal(Next(s, es[0]), es[1..]))
  }

  function Exec(s: State, es: seq<Event>): State
    requires Legal(s, es)
    decreases |es|
  {
    if es == [] then s else Exec(Next(s, es[0]), es[1..])
  }

  // ---- what every step keeps ----

  function B(b: bool): int { if b then 1 else 0 }

  predicate ThreadHolds(s: State) { s.thread.Waiting? || s.thread.Giving? || s.thread.Handed? }

  predicate CallbackHolds(s: State) { s.wr != Unposted && s.callback != Gone }

  /** References are the parties still holding; the record is freed once, when the last has gone. */
  predicate Counted(s: State) {
    && s.refs == B(ThreadHolds(s)) + B(CallbackHolds(s))
    && s.freed == B(s.refs == 0 && (s.wr != Unposted || s.postErr != 0))
    && (s.callback != NotRun ==> s.wr == Drained)
    && (s.thread == Begin ==> s.wr == Unposted && s.postErr == 0)
    && (s.thread != Begin && s.wr == Unposted ==> s.thread.Returned? || s.thread.Finished?)
    && (s.postErr != 0 ==> s.wr == Unposted)
  }

  function Ret(s: State): int { match s.thread case Returned(r) => r case Finished(r) => r case _ => 1 }

  /** The region: handed to the record exactly when the wait gave up; otherwise still the caller's to settle. */
  predicate Settled(s: State) {
    && s.postErr <= 0
    && (s.mrSet <==> s.thread.Handed? || (s.wr != Unposted && GaveUp(Ret(s))))
    && (s.thread.Giving? ==> GaveUp(s.thread.e)) && (s.thread.Handed? ==> GaveUp(s.thread.e))
    && (Ret(s) == 0 ==> s.wr == Drained)
    && (Ret(s) != 1 && s.wr != Unposted && !GaveUp(Ret(s)) ==> s.wr == Drained)
    && (Ret(s) != 1 && s.wr == Unposted ==> Ret(s) == if s.postErr != 0 then s.postErr else -ENOMEM)
    && (s.thread.Returned? || s.thread.Finished? ==> Ret(s) <= 0)
    && (s.kept <==> s.thread == Finished(0))
    && s.deregs == B(s.mrSet && s.freed == 1) + B(s.thread.Finished? && Ret(s) != 0 && !GaveUp(Ret(s)))
  }

  /** What the thread returns, told by how its wait ended and what the adapter answered. */
  predicate Answered(s: State) {
    && (s.answer.Some? <==> s.wr == Drained)
    && (s.callback != NotRun ==> s.status == if s.answer == Some(true) then 0 else -EIO)
    && (s.left == Woken ==> s.callback != NotRun && Ret(s) == s.status)
    && (s.left == NotYet <==> s.thread == Begin || s.thread == Waiting || s.wr == Unposted)
    && (s.left == TimedOut ==> s.thread in {Giving(-ETIMEDOUT), Handed(-ETIMEDOUT)} || Ret(s) == -ETIMEDOUT)
    && (s.left == Killed ==> s.thread in {Giving(-ERESTARTSYS), Handed(-ERESTARTSYS)} || Ret(s) == -ERESTARTSYS)
    && (s.left == Woken ==> s.thread.Returned? || s.thread.Finished?)
  }

  predicate Inv(s: State) { Counted(s) && Settled(s) && Answered(s) }

  /** The thread up to its wait. */
  lemma StartKeeps(s: State, e: Event)
    requires Inv(s) && Enabled(s, e) && (e.NoMemory? || e.PostFails? || e.Posted?)
    ensures Inv(Next(s, e))
  {
  }

  /** The adapter and the callback. */
  lemma CallbackKeeps(s: State, e: Event)
    requires Inv(s) && Enabled(s, e) && (e.Drain? || e.Signal? || e.CallbackPut?)
    ensures Inv(Next(s, e))
  {
  }

  /** The thread from its wait on. */
  lemma WaitKeeps(s: State, e: Event)
    requires Inv(s) && Enabled(s, e) && (e.Wake? || e.GiveUp? || e.HandOver? || e.ThreadPut?)
    ensures Inv(Next(s, e))
  {
  }

  lemma CallerKeeps(s: State)
    requires Inv(s) && s.thread.Returned?
    ensures Inv(Next(s, Caller))
  {
  }

  lemma StepKeeps(s: State, e: Event)
    requires Inv(s) && Enabled(s, e)
    ensures Inv(Next(s, e))
  {
    if e.NoMemory? || e.PostFails? || e.Posted? {
      StartKeeps(s, e);
    } else if e.Drain? || e.Signal? || e.CallbackPut? {
      CallbackKeeps(s, e);
    } else if e.Caller? {
      CallerKeeps(s);
    } else {
      WaitKeeps(s, e);
    }
  }

  lemma {:induction false} RunKeeps(s: State, es: seq<Event>)
    requires Inv(s) && Legal(s, es)
    ensures Inv(Exec(s, es))
    decreases |es|
  {
    if es != [] {
      StepKeeps(s, es[0]);
      RunKeeps(Next(s, es[0]), es[1..]);
    }
  }

  ghost predicate Reachable(s: State) { exists es :: Legal(Start(), es) && Exec(Start(), es) == s }

  lemma ReachableInv(s: State)
    requires Reachable(s)
    ensures Inv(s)
  {
    var es :| Legal(Start(), es) && Exec(Start(), es) == s;
    RunKeeps(Start(), es);
  }

  // ---- what that gives ----

  lemma InvNeverTwice(s: State)
    requires Inv(s)
    ensures s.freed <= 1 && s.deregs + B(s.kept) <= 1
    ensures s.freed == 1 || s.deregs == 1 || s.kept ==> s.wr != InFlight
    ensures s.freed == 1 ==> !ThreadHolds(s) && !CallbackHolds(s)
  {
  }

  /** Nothing is done twice, a region is never both kept and deregistered, and neither the record nor the region
      goes while the work request is in flight or a party still holds the record. */
  lemma NeverTwice(s: State)
    requires Reachable(s)
    ensures s.freed <= 1 && s.deregs + B(s.kept) <= 1
    ensures s.freed == 1 || s.deregs == 1 || s.kept ==> s.wr != InFlight
    ensures s.freed == 1 ==> !ThreadHolds(s) && !CallbackHolds(s)
  {
    ReachableInv(s);
    InvNeverTwice(s);
  }

  /** Both parties are done. */
  predicate Over(s: State) { s.thread.Finished? && !CallbackHolds(s) }

  /** At the end the record, if there was one, has been freed, and the region is the caller's exactly on success. */
  lemma EndFrees(s: State)
    requires Reachable(s) && Over(s)
    ensures s.freed == 1 <==> s.wr != Unposted || s.postErr != 0
    ensures s.kept <==> Ret(s) == 0
  {
    ReachableInv(s);
  }

  /** What the caller sees: without memory ENOMEM, a failed post's errno, the adapter's answer if the signal came, and
      otherwise why the wait was given up. */
  lemma ReturnExact(s: State)
    requires Reachable(s) && s.thread.Finished?
    ensures Ret(s) == if s.wr == Unposted then (if s.postErr != 0 then s.postErr else -12)
                      else match s.left
                        case Woken => if s.answer == Some(true) then 0 else -5
                        case TimedOut => -110
                        case Killed => -512
                        case NotYet => 1
    ensures s.wr != Unposted ==> s.left != NotYet
  {
    ReachableInv(s);
  }

  /** The caller keeps the region exactly when the wait was signalled and the adapter had accepted the registration. */
  lemma KeptExact(s: State)
    requires Reachable(s) && s.thread.Finished?
    ensures s.kept <==> s.left == Woken && s.answer == Some(true)
  {
    ReachableInv(s);
  }

  lemma {:induction false} ExecSnoc(s: State, es: seq<Event>, e: Event)
    requires Legal(s, es) && Enabled(Exec(s, es), e)
    ensures Legal(s, es + [e]) && Exec(s, es + [e]) == Next(Exec(s, es), e)
    decreases |es|
  {
    if es == [] {
      assert es + [e] == [e] && [e][1..] == [] && Legal(Next(s, e), []);
    } else {
      ExecSnoc(Next(s, es[0]), es[1..], e);
      assert (es + [e])[0] == es[0] && (es + [e])[1..] == es[1..] + [e];
    }
  }

  lemma ReachableNext(s: State, e: Event)
    requires Reachable(s) && Enabled(s, e)
    ensures Reachable(Next(s, e))
  {
    var es :| Legal(Start(), es) && Exec(Start(), es) == s;
    ExecSnoc(Start(), es, e);
  }

  /** The ordinary registration ends with the region kept and the record freed; a refused one deregisters it. */
  lemma OrdinaryRun(ok: bool) returns (s: State)
    ensures Reachable(s) && Over(s) && s.left == Woken && s.answer == Some(ok)
    ensures s.kept == ok && s.deregs == (if ok then 0 else 1) && s.freed == 1
  {
    s := Start();
    assert Reachable(s) by { assert Legal(Start(), []) && Exec(Start(), []) == s; }
    ReachableNext(s, Posted);
    s := Next(s, Posted);
    ReachableNext(s, Drain(ok));
    s := Next(s, Drain(ok));
    ReachableNext(s, Signal);
    s := Next(s, Signal);
    ReachableNext(s, CallbackPut);
    s := Next(s, CallbackPut);
    ReachableNext(s, Wake);
    s := Next(s, Wake);
    ReachableNext(s, Caller);
    s := Next(s, Caller);
  }

  /** An abandoned wait: the record outlives the thread, and the callback's reference deregisters the region. */
  lemma AbandonedRun(killed: bool) returns (s: State)
    ensures Reachable(s) && Over(s) && Ret(s) == (if killed then -512 else -110)
    ensures !s.kept && s.deregs == 1 && s.freed == 1 && s.left == if killed then Killed else TimedOut
  {
    s := Start();
    assert Reachable(s) by { assert Legal(Start(), []) && Exec(Start(), []) == s; }
    ReachableNext(s, Posted);
    s := Next(s, Posted);
    ReachableNext(s, GiveUp(killed));
    s := Next(s, GiveUp(killed));
    ReachableNext(s, HandOver);
    s := Next(s, HandOver);
    ReachableNext(s, ThreadPut);
    s := Next(s, ThreadPut);
    s := Abandoned(s);
  }

  /** The work request of an abandoned wait drains after all. */
  lemma Abandoned(s: State) returns (t: State)
    requires Reachable(s) && s.thread.Returned? && GaveUp(s.thread.ret) && s.wr == InFlight && s.callback == NotRun
    requires s.refs == 1 && s.mrSet && s.deregs == 0 && s.freed == 0 && !s.kept
    ensures Reachable(t) && Over(t) && Ret(t) == s.thread.ret && t.left == s.left
    ensures !t.kept && t.deregs == 1 && t.freed == 1
  {
    ReachableNext(s, Caller);
    t := Next(s, Caller);
    ReachableNext(t, Drain(true));
    t := Next(t, Drain(true));
    ReachableNext(t, Signal);
    t := Next(t, Signal);
    ReachableNext(t, CallbackPut);
    t := Next(t, CallbackPut);
  }

  /** Without memory for the record nothing is posted, and the caller deregisters the region. */
  lemma NoMemoryRun() returns (s: State)
    ensures Reachable(s) && Over(s) && Ret(s) == -12 && s.wr == Unposted && s.freed == 0 && s.deregs == 1 && !s.kept
  {
    s := Start();
    assert Reachable(s) by { assert Legal(Start(), []) && Exec(Start(), []) == s; }
    ReachableNext(s, NoMemory);
    s := Next(s, NoMemory);
    ReachableNext(s, Caller);
    s := Next(s, Caller);
  }

  /** And the region is kept or deregistered exactly once, if and only if the post did not itself fail with one of
      the two errnos that mean a wait was given up. */
  lemma EndSettlesExact(s: State)
    requires Reachable(s) && Over(s)
    ensures s.deregs + B(s.kept) == 1 <==> !GaveUp(s.postErr)
  {
    ReachableInv(s);
  }

  /** Such a post failure leaves the region with nobody. */
  lemma PostErrnoLeaks() returns (s: State)
    ensures Reachable(s) && Over(s) && s.deregs == 0 && !s.kept && s.freed == 1
  {
    var a := Next(Start(), PostFails(-ETIMEDOUT));
    s := Next(a, Caller);
    var es := [PostFails(-ETIMEDOUT), Caller];
    assert es[1..] == [Caller] && [Caller][1..] == [];
    assert Legal(a, [Caller]) && Exec(a, [Caller]) == s;
    assert Legal(Start(), es) && Exec(Start(), es) == s;
  }
}
