/** What the kernel owes every application, also one that reuses a buffer or unregisters too early: a work request's
    buffer stays owned and its region registered. For a close this rests on a balance: sends are completed at most as
    often as they are accepted, so once each has completed none is left on the adapter. */
module CmdRegion {
  import opened Base
  import opened CmdCtx
  import opened CmdProtocol

  // ---- counting ----

  ghost function Tally(cs: set<CmdId>, m: multiset<CmdId>): nat {
    if cs == {} then 0 else var c :| c in cs; m[c] + Tally(cs - {c}, m)
  }

  lemma {:induction false} TallyPick(cs: set<CmdId>, m: multiset<CmdId>, c: CmdId)
    requires c in cs
    ensures Tally(cs, m) == m[c] + Tally(cs - {c}, m)
  {
    var d :| d in cs && Tally(cs, m) == m[d] + Tally(cs - {d}, m);
    if d != c {
      TallyPick(cs - {d}, m, c);
      TallyPick(cs - {c}, m, d);
      assert cs - {d} - {c} == cs - {c} - {d};
    }
  }

  lemma {:induction false} TallySame(cs: set<CmdId>, m: multiset<CmdId>, n: multiset<CmdId>)
    requires forall c :: c in cs ==> m[c] == n[c]
    ensures Tally(cs, m) == Tally(cs, n)
  {
    if c :| c in cs {
      TallyPick(cs, m, c);
      TallyPick(cs, n, c);
      TallySame(cs - {c}, m, n);
    }
  }

  lemma TallyAdd(cs: set<CmdId>, m: multiset<CmdId>, c: CmdId)
    ensures Tally(cs, m + multiset{c}) == Tally(cs, m) + if c in cs then 1 else 0
  {
    var n := m + multiset{c};
    if c in cs {
      TallyPick(cs, m, c);
      TallyPick(cs, n, c);
      TallySame(cs - {c}, m, n);
    } else {
      TallySame(cs, m, n);
    }
  }

  lemma {:induction false} TallyAtLeast(cs: set<CmdId>, m: multiset<CmdId>)
    requires forall c :: c in cs ==> m[c] >= 1
    ensures Tally(cs, m) >= |cs|
  {
    if c :| c in cs {
      TallyPick(cs, m, c);
      TallyAtLeast(cs - {c}, m);
    }
  }

  // ---- the balance of sends ----

  ghost function Sends(s: State): set<CmdId> { set c | c in s.cmds && s.cmds[c].k == Send }

  ghost function SendWrs(s: State): set<nat> { set b | b in s.wrs && b < |s.ctx.ops| && s.ctx.ops[b].kind == Send }

  /** Sends that have yet to be completed by somebody: being submitted, on the adapter, or in a late callback. */
  ghost function Unpaid(s: State): nat {
    (if Submitting(s.pc) && s.pc.k == Send then 1 else 0) + |SendWrs(s)| + |s.late|
  }

  ghost predicate Typed(s: State) {
    && (forall i :: 0 <= i < |s.ctx.ops| && s.ctx.ops[i].io.Some? ==>
          s.ctx.ops[i].io.value in s.cmds && s.cmds[s.ctx.ops[i].io.value].k == s.ctx.ops[i].kind)
    && (Submitting(s.pc) ==> s.pc.c in s.cmds && s.cmds[s.pc.c].k == s.pc.k)
    && (s.pc.Ready? ==> s.pc.b < |s.ctx.ops| && s.ctx.ops[s.pc.b].kind == s.pc.k)
    && (forall c :: c in s.posted || c in s.tasks ==> c in s.cmds)
    && (s.pc == Closing ==> forall c :: c in s.cmds ==> s.posted[c] > 0)
  }

  /** Completions of sends, delivered or on their way, and sends yet to be completed are together no more than the
      accepted sends. Which send a callback completes may be wrong; how many are completed is not. */
  ghost predicate Balanced(s: State) { Tally(Sends(s), s.posted + s.tasks) + Unpaid(s) <= |Sends(s)| }

  ghost predicate Fits(s: State) { Owning(s) && Typed(s) }

  ghost predicate Kernel(s: State) { Fits(s) && Balanced(s) }

  /** Once every command has completed, no send is on the adapter, in a late callback or in task work. */
  lemma AllSendsPaid(s: State)
    requires Kernel(s) && forall c :: c in s.cmds ==> s.posted[c] > 0
    ensures s.late == {} && SendWrs(s) == {} && forall c :: c in s.tasks ==> s.cmds[c].k == Recv
  {
    var cs, m := Sends(s), s.posted + s.tasks;
    TallyAtLeast(cs, m);
    forall c | c in s.tasks ensures s.cmds[c].k == Recv {
      if s.cmds[c].k == Send {
        TallyPick(cs, m, c);
        TallyAtLeast(cs - {c}, m);
      }
    }
  }

  // ---- what every step keeps, whatever the application ----

  lemma SubmitFits(s: State, c: CmdId, k: Kind, b: nat)
    requires Fits(s) && s.pc == Idle && c !in s.cmds
    ensures Fits(SubmitStep(s, c, k, b))
  {
  }

  lemma SetUpFits(s: State, e: Event)
    requires Fits(s) && s.pc.Claimed? && (e == NoQueue || e == SetUp)
    ensures Fits(Next(s, e))
  {
  }

  lemma PostFits(s: State)
    requires Fits(s) && s.pc.Ready?
    ensures Fits(PostStep(s, true))
  {
    assert PostStep(s, true).wrs.Keys == s.wrs.Keys + {s.pc.b};
  }

  lemma SendFailFits(s: State)
    requires Fits(s) && s.pc.Ready? && s.pc.k == Send
    ensures Fits(PostStep(s, false))
  {
  }

  lemma RecvFailFits(s: State)
    requires Fits(s) && s.pc.Ready? && s.pc.k == Recv
    ensures Fits(PostStep(s, false))
  {
  }

  lemma LandFits(s: State, b: nat)
    requires Fits(s) && Enabled(s, Land(b))
    ensures Fits(Next(s, Land(b)))
  {
    assert Next(s, Land(b)).wrs.Keys == s.wrs.Keys;
  }

  lemma SendDoneFits(s: State, b: nat)
    requires Fits(s) && b in s.wrs && s.ctx.ops[b].kind == Send
    ensures Fits(CallbackStep(s, b))
  {
    assert CallbackStep(s, b).wrs.Keys == s.wrs.Keys - {b};
  }

  lemma RecvDoneFits(s: State, b: nat)
    requires Fits(s) && b in s.wrs && s.ctx.ops[b].kind == Recv
    ensures Fits(CallbackStep(s, b))
  {
    assert CallbackStep(s, b).wrs.Keys == s.wrs.Keys - {b};
  }

  lemma CollectFits(s: State, l: Late)
    requires Fits(s) && l in s.late
    ensures Fits(CollectStep(s, l))
  {
  }

  lemma TaskFits(s: State, c: CmdId)
    requires Fits(s) && c in s.tasks
    ensures Fits(Next(s, Task(c)))
  {
  }

  lemma CancelFits(s: State, c: CmdId)
    requires Fits(s) && Enabled(s, CancelCmd(c))
    ensures Fits(CancelStep(s, c))
  {
  }

  lemma PoolFits(s: State, e: Event)
    requires Fits(s) && Enabled(s, e) && (e.Register? || e.Unregister? || e.Close? || (e.Drained? && s.wrs == map[]))
    ensures Fits(Next(s, e))
  {
  }

  lemma FitsStep(s: State, e: Event)
    requires Fits(s) && Enabled(s, e) && (e.Drained? ==> s.wrs == map[])
    ensures Fits(Next(s, e))
  {
    match e
    case Submit(c, k, b) => SubmitFits(s, c, k, b);
    case NoQueue => SetUpFits(s, e);
    case SetUp => SetUpFits(s, e);
    case Post(ok) => if ok { PostFits(s); } else if s.pc.k == Send { SendFailFits(s); } else { RecvFailFits(s); }
    case Land(b) => LandFits(s, b);
    case Callback(b) => if s.ctx.ops[b].kind == Send { SendDoneFits(s, b); } else { RecvDoneFits(s, b); }
    case Collect(l) => CollectFits(s, l);
    case Task(c) => TaskFits(s, c);
    case CancelCmd(c) => CancelFits(s, c);
    case _ => PoolFits(s, e);
  }

  // ---- and the balance ----

  lemma SameWrs(s: State, t: State)
    requires t.wrs.Keys == s.wrs.Keys && |t.ctx.ops| == |s.ctx.ops|
    requires forall b :: b in s.wrs && b < |s.ctx.ops| ==> t.ctx.ops[b].kind == s.ctx.ops[b].kind
    ensures SendWrs(t) == SendWrs(s)
  {
  }

  lemma PostUnpaid(s: State)
    requires Fits(s) && s.pc.Ready?
    ensures Unpaid(PostStep(s, true)) <= Unpaid(s)
  {
    if s.pc.k == Send { SendPosted(s); } else { RecvPosted(s); }
  }

  lemma SendPosted(s: State)
    requires Fits(s) && s.pc.Ready? && s.pc.k == Send
    ensures Unpaid(PostStep(s, true)) <= Unpaid(s)
  {
    assert SendWrs(PostStep(s, true)) == SendWrs(s) + {s.pc.b};
  }

  lemma RecvPosted(s: State)
    requires Fits(s) && s.pc.Ready? && s.pc.k == Recv
    ensures Unpaid(PostStep(s, true)) <= Unpaid(s)
  {
    assert SendWrs(PostStep(s, true)) == SendWrs(s);
  }

  lemma CallbackUnpaid(s: State, b: nat)
    requires b in s.wrs && b < |s.ctx.ops|
    ensures Unpaid(CallbackStep(s, b)) <= Unpaid(s)
  {
    var t, l := CallbackStep(s, b), Late(Ref(s.slab, b), s.ctx.ops[b].owner);
    if s.ctx.ops[b].kind == Send {
      assert SendWrs(t) == SendWrs(s) - {b} && b in SendWrs(s);
      assert t.late == s.late + {l};
    } else {
      assert SendWrs(t) == SendWrs(s);
    }
  }

  /** The step adds one completion, or none. */
  ghost predicate Settles(s: State, t: State, io: Option<CmdId>) {
    t.cmds == s.cmds && t.posted + t.tasks == s.posted + s.tasks + One(io)
  }

  /** A completion of a send must be paid for. */
  lemma Pays(s: State, t: State, io: Option<CmdId>)
    requires Balanced(s) && Settles(s, t, io)
    requires Unpaid(t) + (if io.Some? && io.value in Sends(s) then 1 else 0) <= Unpaid(s)
    ensures Balanced(t)
  {
    if io.Some? {
      TallyAdd(Sends(s), s.posted + s.tasks, io.value);
      assert t.posted + t.tasks == s.posted + s.tasks + multiset{io.value};
    } else {
      assert t.posted + t.tasks == s.posted + s.tasks;
    }
    assert Sends(t) == Sends(s);
  }

  /** A new command has no completion yet. */
  lemma TallyNew(cs: set<CmdId>, m: multiset<CmdId>, c: CmdId)
    requires c !in cs && m[c] == 0
    ensures Tally(cs + {c}, m) == Tally(cs, m) && |cs + {c}| == |cs| + 1
  {
    TallyPick(cs + {c}, m, c);
    assert cs + {c} - {c} == cs;
  }

  lemma SendPays(s: State, c: CmdId, b: nat)
    requires Balanced(s) && s.pc == Idle && c !in s.cmds && c !in s.posted && c !in s.tasks && Claims(s.ctx, b)
    ensures Balanced(SubmitStep(s, c, Send, b))
  {
    var t := SubmitStep(s, c, Send, b);
    SameWrs(s, t);
    TallyNew(Sends(s), s.posted + s.tasks, c);
    assert Sends(t) == Sends(s) + {c};
  }

  lemma RecvPays(s: State, c: CmdId, b: nat)
    requires Balanced(s) && s.pc == Idle && c !in s.cmds && Claims(s.ctx, b)
    ensures Balanced(SubmitStep(s, c, Recv, b))
  {
    var t := SubmitStep(s, c, Recv, b);
    SameWrs(s, t);
    assert Sends(t) == Sends(s);
  }

  lemma NoQueuePays(s: State)
    requires Kernel(s) && s.pc.Claimed?
    ensures Balanced(Next(s, NoQueue))
  {
    var t := Next(s, NoQueue);
    SameWrs(s, t);
    Pays(s, t, Some(s.pc.c));
  }

  lemma PostPays(s: State)
    requires Kernel(s) && s.pc.Ready?
    ensures Balanced(PostStep(s, true))
  {
    PostUnpaid(s);
    Pays(s, PostStep(s, true), None);
  }

  lemma SendFailPays(s: State)
    requires Kernel(s) && s.pc.Ready? && s.pc.k == Send
    ensures Balanced(PostStep(s, false))
  {
    var t := PostStep(s, false);
    SameWrs(s, t);
    Pays(s, t, Some(s.pc.c));
  }

  lemma RecvFailPays(s: State)
    requires Kernel(s) && s.pc.Ready? && s.pc.k == Recv
    ensures Balanced(PostStep(s, false))
  {
    var t := PostStep(s, false);
    SameWrs(s, t);
    Pays(s, t, s.ctx.ops[s.pc.b].io);
  }

  lemma SendDonePays(s: State, b: nat)
    requires Balanced(s) && b in s.wrs && b < |s.ctx.ops| && s.ctx.ops[b].kind == Send
    ensures Balanced(CallbackStep(s, b))
  {
    CallbackUnpaid(s, b);
    Pays(s, CallbackStep(s, b), None);
  }

  lemma RecvDonePays(s: State, b: nat)
    requires Kernel(s) && b in s.wrs && s.ctx.ops[b].kind == Recv
    ensures Balanced(CallbackStep(s, b))
  {
    CallbackUnpaid(s, b);
    Pays(s, CallbackStep(s, b), s.ctx.ops[b].io);
  }

  lemma CollectPays(s: State, l: Late)
    requires Kernel(s) && l in s.late
    ensures Balanced(CollectStep(s, l))
  {
    var t := CollectStep(s, l);
    SameWrs(s, t);
    Pays(s, t, if Live(s, l.ref) then s.ctx.ops[l.ref.b].io else None);
  }

  lemma TakenPays(s: State, c: CmdId)
    requires Balanced(s) && Enabled(s, CancelCmd(c)) && Live(s, s.cmds[c].ref) && s.cmds[c].ref.b in s.ctx.own
    ensures Balanced(CancelStep(s, c))
  {
    var t := CancelStep(s, c);
    SameWrs(s, t);
    Pays(s, t, Some(c));
  }

  lemma CancelPays(s: State, c: CmdId)
    requires Balanced(s) && Enabled(s, CancelCmd(c))
    ensures Balanced(CancelStep(s, c))
  {
    var r, t := s.cmds[c].ref, CancelStep(s, c);
    if Live(s, r) && r.b in s.ctx.own {
      TakenPays(s, c);
    } else {
      assert t == s.(fault := t.fault);
      SameWrs(s, t);
    }
  }

  lemma SetUpPays(s: State)
    requires Kernel(s) && s.pc.Claimed?
    ensures Balanced(Next(s, SetUp))
  {
    var t := Next(s, SetUp);
    SameWrs(s, t);
    Pays(s, t, None);
  }

  lemma LandPays(s: State, b: nat)
    requires Balanced(s) && Enabled(s, Land(b))
    ensures Balanced(Next(s, Land(b)))
  {
    var t := Next(s, Land(b));
    SameWrs(s, t);
    Pays(s, t, None);
  }

  lemma TaskPays(s: State, c: CmdId)
    requires Balanced(s) && c in s.tasks
    ensures Balanced(Next(s, Task(c)))
  {
    var t := Next(s, Task(c));
    SameWrs(s, t);
    assert t.posted + t.tasks == s.posted + s.tasks;
    Pays(s, t, None);
  }

  /** A pool that comes or goes has no work request, because its bits are clear or because its close has seen every
      send completed and every receive drained. */
  lemma NothingArmed(s: State, e: Event)
    requires Kernel(s) && Enabled(s, e)
    requires e.Register? || ((e.Unregister? || e.Close?) && s.ctx.own == {}) || e.Drained?
    ensures s.wrs == map[] && s.ctx.own == {}
  {
    if e.Drained? {
      AllSendsPaid(s);
      assert forall b :: b in s.wrs ==> b in SendWrs(s);
      assert forall b :: b !in s.wrs;
    }
    assert s.wrs.Keys == {};
  }

  lemma PoolPays(s: State, t: State)
    requires Balanced(s) && !Submitting(s.pc) && !Submitting(t.pc) && t == s.(ctx := t.ctx, slab := t.slab, pc := t.pc)
    requires s.wrs == map[] || t.ctx == s.ctx
    ensures Balanced(t)
  {
    assert SendWrs(t) == SendWrs(s);
    Pays(s, t, None);
  }

  lemma PoolStep(s: State, e: Event)
    requires Kernel(s) && Enabled(s, e) && (e.Register? || e.Unregister? || e.Close? || e.Drained?)
    ensures Balanced(Next(s, e))
  {
    if e.Register? || e.Unregister? { RegistrationPays(s, e); } else { ClosePays(s, e); }
  }

  lemma RegistrationPays(s: State, e: Event)
    requires Kernel(s) && Enabled(s, e) && (e.Register? || e.Unregister?)
    ensures Balanced(Next(s, e))
  {
    if e.Register? || s.ctx.own == {} { NothingArmed(s, e); }
    PoolPays(s, Next(s, e));
  }

  lemma ClosePays(s: State, e: Event)
    requires Kernel(s) && Enabled(s, e) && (e.Close? || e.Drained?)
    ensures Balanced(Next(s, e))
  {
    if e.Drained? || s.ctx.own == {} { NothingArmed(s, e); }
    PoolPays(s, Next(s, e));
  }

  predicate OfSubmitter(e: Event) { e.Submit? || e.NoQueue? || e.SetUp? || e.Post? }

  predicate OfCompletion(e: Event) { e.Land? || e.Callback? || e.Collect? || e.Task? || e.CancelCmd? }

  lemma SubmitterPays(s: State, e: Event)
    requires Kernel(s) && Enabled(s, e) && OfSubmitter(e)
    ensures Balanced(Next(s, e))
  {
    match e
    case Submit(c, k, b) => if Claims(s.ctx, b) { if k == Send { SendPays(s, c, b); } else { RecvPays(s, c, b); } }
    case NoQueue => NoQueuePays(s);
    case SetUp => SetUpPays(s);
    case Post(ok) => if ok { PostPays(s); } else if s.pc.k == Send { SendFailPays(s); } else { RecvFailPays(s); }
  }

  lemma CompletionPays(s: State, e: Event)
    requires Kernel(s) && Enabled(s, e) && OfCompletion(e)
    ensures Balanced(Next(s, e))
  {
    match e
    case Land(b) => LandPays(s, b);
    case Callback(b) => if s.ctx.ops[b].kind == Send { SendDonePays(s, b); } else { RecvDonePays(s, b); }
    case Collect(l) => CollectPays(s, l);
    case Task(c) => TaskPays(s, c);
    case CancelCmd(c) => CancelPays(s, c);
  }

  lemma KernelStep(s: State, e: Event)
    requires Kernel(s) && Enabled(s, e)
    ensures Kernel(Next(s, e))
  {
    if OfSubmitter(e) { SubmitterPays(s, e); } else if OfCompletion(e) { CompletionPays(s, e); } else { PoolStep(s, e); }
    if e.Drained? { NothingArmed(s, e); }
    FitsStep(s, e);
  }

  lemma {:induction false} KernelRun(s: State, es: seq<Event>)
    requires Kernel(s) && Runs(s, es)
    ensures Kernel(Exec(s, es))
    decreases |es|
  {
    if es != [] {
      KernelStep(s, es[0]);
      KernelRun(Next(s, es[0]), es[1..]);
    }
  }

  /** Reached with some application, behaving or not. */
  ghost predicate Possible(s: State) { exists es :: Runs(Start(), es) && Exec(Start(), es) == s }

  lemma StartBalanced()
    ensures Balanced(Start())
  {
    assert Sends(Start()) == {} && SendWrs(Start()) == {};
  }

  lemma PossibleKernel(s: State)
    requires Possible(s)
    ensures Kernel(s)
  {
    var es :| Runs(Start(), es) && Exec(Start(), es) == s;
    StartBalanced();
    KernelRun(Start(), es);
  }

  // ---- what that gives ----

  /** Armed implies owned and pinned, and between submissions the kernel owns nothing else. */
  lemma ArmedIsOwned(s: State)
    requires Possible(s)
    ensures forall b :: b in s.wrs ==> b in s.ctx.own && s.ctx.registered && b < |s.ctx.ops|
    ensures !Submitting(s.pc) ==> s.ctx.own == s.wrs.Keys
  {
    PossibleKernel(s);
  }

  lemma PoolGoes(s: State, e: Event)
    requires Enabled(s, e) && s.ctx.registered && !Next(s, e).ctx.registered
    ensures ((e.Unregister? || e.Close?) && s.ctx.own == {}) || e.Drained?
  {
  }

  /** No step gives the region back under a work request: neither an unregister, nor a close that finds the bits
      clear, nor one that waits for its drain. A close leaves no send callback behind either. */
  lemma RegionOutlivesWork(s: State, e: Event)
    requires Possible(s) && Enabled(s, e) && s.ctx.registered && !Next(s, e).ctx.registered
    ensures s.wrs == map[] && s.ctx.own == {}
    ensures !e.Unregister? ==> s.late == {} && forall c :: c in s.tasks ==> c in s.cmds && s.cmds[c].k == Recv
  {
    PossibleKernel(s);
    PoolGoes(s, e);
    NothingArmed(s, e);
    if !e.Unregister? { AllSendsPaid(s); }
  }

  /** Sends are completed at most as often as they are accepted. */
  lemma SendsNeverOverpaid(s: State)
    requires Possible(s)
    ensures Tally(Sends(s), s.posted) <= |Sends(s)|
  {
    PossibleKernel(s);
    TallyLess(Sends(s), s.posted, s.posted + s.tasks);
  }

  lemma {:induction false} TallyLess(cs: set<CmdId>, m: multiset<CmdId>, n: multiset<CmdId>)
    requires forall c :: c in cs ==> m[c] <= n[c]
    ensures Tally(cs, m) <= Tally(cs, n)
  {
    if c :| c in cs {
      TallyPick(cs, m, c);
      TallyPick(cs, n, c);
      TallyLess(cs - {c}, m, n);
    }
  }

  /** If the application behaves, a close leaves nothing on its way at all. */
  lemma CloseLeavesNothing(s: State, e: Event)
    requires Reachable(s) && Enabled(s, e) && (e.Close? || e.Drained?)
    ensures s.tasks == multiset{} && s.late == {} && (s.ctx.registered && !Next(s, e).ctx.registered ==> s.wrs == map[])
  {
    ReachableInv(s);
    AllPosted(s);
    if e.Drained? { DrainedIsEmpty(s); } else if s.ctx.own == {} { assert s.wrs.Keys == {}; }
  }

  /** The drain that a close waits for can always finish: flushing the remaining work requests and running their
      callbacks leads to a state in which the close goes on. */
  lemma {:induction false} DrainCanFinish(s: State) returns (es: seq<Event>)
    requires Kernel(s) && s.pc == Closing
    ensures Legal(s, es) && Enabled(Exec(s, es), Drained)
    decreases |s.wrs|, 3
  {
    es := [];
    if b :| b in s.wrs {
      if s.wrs[b] == Landed { es := FinishCallback(s, b); } else { es := FinishArmed(s, b); }
    }
  }

  /** So a close can always complete: with the bits clear at once, otherwise after a drain, and the pool is gone. */
  lemma CloseCompletes(s: State) returns (es: seq<Event>)
    requires Kernel(s) && Enabled(s, Close)
    ensures Runs(s, [Close] + es)
    ensures var t := Exec(s, [Close] + es); t.ctx == Closed() && t.pc == Idle && t.wrs == map[]
  {
    var t := Next(s, Close);
    KernelStep(s, Close);
    if s.ctx.own == {} {
      es := [];
      NothingArmed(s, Close);
      assert Runs(t, []) && Exec(t, []) == t;
    } else {
      var drain := DrainCanFinish(t);
      KernelRun(t, drain);
      var u := Exec(t, drain);
      NothingArmed(u, Drained);
      ExecSnoc(t, drain, Drained);
      es := drain + [Drained];
    }
    RunsCons(s, Close, es);
  }

  lemma {:induction false} ExecSnoc(s: State, es: seq<Event>, e: Event)
    requires Runs(s, es) && Enabled(Exec(s, es), e)
    ensures Runs(s, es + [e]) && Exec(s, es + [e]) == Next(Exec(s, es), e)
    decreases |es|
  {
    if es == [] {
      RunsCons(s, e, []);
      assert es + [e] == [e] + [];
    } else {
      ExecSnoc(Next(s, es[0]), es[1..], e);
      RunsCons(s, es[0], es[1..] + [e]);
      assert es + [e] == [es[0]] + (es[1..] + [e]);
    }
  }

  lemma {:induction false} FinishCallback(s: State, b: nat) returns (es: seq<Event>)
    requires Kernel(s) && s.pc == Closing && b in s.wrs && s.wrs[b] == Landed
    ensures Legal(s, es) && Enabled(Exec(s, es), Drained)
    decreases |s.wrs|, 1
  {
    KernelStep(s, Callback(b));
    CallbackDrains(s, b);
    var rest := DrainCanFinish(CallbackStep(s, b));
    RunsCons(s, Callback(b), rest);
    es := [Callback(b)] + rest;
  }

  lemma {:induction false} FinishArmed(s: State, b: nat) returns (es: seq<Event>)
    requires Kernel(s) && s.pc == Closing && b in s.wrs && s.wrs[b] == Armed
    ensures Legal(s, es) && Enabled(Exec(s, es), Drained)
    decreases |s.wrs|, 2
  {
    KernelStep(s, Land(b));
    LandDrains(s, b);
    var rest := FinishCallback(Next(s, Land(b)), b);
    RunsCons(s, Land(b), rest);
    es := [Land(b)] + rest;
  }

  lemma CallbackDrains(s: State, b: nat)
    requires b in s.wrs && b < |s.ctx.ops|
    ensures |CallbackStep(s, b).wrs| < |s.wrs|
  {
    assert s.wrs.Keys == CallbackStep(s, b).wrs.Keys + {b};
  }

  lemma LandDrains(s: State, b: nat)
    requires Enabled(s, Land(b))
    ensures |Next(s, Land(b)).wrs| == |s.wrs|
  {
    assert Next(s, Land(b)).wrs.Keys == s.wrs.Keys;
  }
}
