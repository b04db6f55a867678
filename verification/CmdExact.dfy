/** What the command path asks of an application, made exact: when an early reuse of a buffer can complete a command
    twice, when an early unregister loses one, and when a completion on its way still finds its own record. */
module CmdExact {
  import opened Base
  import opened CmdCtx
  import opened CmdProtocol

  /** Some run leads from one state to the other. */
  ghost predicate Leads(s: State, t: State) { exists es :: Legal(s, es) && Exec(s, es) == t }

  lemma LeadsHere(s: State)
    ensures Leads(s, s)
  {
    assert Legal(s, []) && Exec(s, []) == s;
  }

  lemma LeadsFrom(s: State, e: Event, t: State)
    requires Enabled(s, e) && Reaped(s, e) && Leads(Next(s, e), t)
    ensures Leads(s, t)
  {
    var es :| Legal(Next(s, e), es) && Exec(Next(s, e), es) == t;
    RunsCons(s, e, es);
  }

  lemma LeadsInv(s: State, t: State)
    requires Inv(s) && Leads(s, t)
    ensures Inv(t)
  {
    var es :| Legal(s, es) && Exec(s, es) == t;
    RunKeeps(s, es);
  }

  // ---- completing twice ----

  /** Some command can still be completed a second time. */
  ghost predicate CanDouble(s: State) { exists t, d :: Leads(s, t) && t.posted[d] >= 2 }

  lemma InvNeverDoubles(s: State)
    requires Inv(s)
    ensures !CanDouble(s)
  {
    forall t, d | Leads(s, t) ensures t.posted[d] < 2 {
      LeadsInv(s, t);
      if d in t.cmds { assert Once(t, d); } else { assert d !in t.posted; }
    }
  }

  /** With a receive completion on its way, ring exit completes it once more. */
  lemma PendingReceiveDoubles(s: State, c: CmdId, k: Kind, b: nat, d: CmdId)
    requires Inv(s) && s.pc == Idle && c !in s.cmds && Claims(s.ctx, b)
    requires d in s.tasks && s.cmds[d] == Cmd(Ref(s.slab, b), Recv)
    ensures CanDouble(SubmitStep(s, c, k, b))
  {
    var t := SubmitStep(s, c, k, b);
    assert Once(s, d);
    var u := Next(t, CancelCmd(d));
    assert u.posted[d] == 1 && d in u.tasks;
    var v := Next(u, Task(d));
    LeadsHere(v);
    LeadsFrom(u, Task(d), v);
    LeadsFrom(t, CancelCmd(d), v);
    assert v.posted[d] == 2;
  }

  /** A command completed once whose work request is still on the adapter and whose record still names it. */
  ghost predicate Primed(s: State, c: CmdId, k: Kind, b: nat) {
    && s.ctx.registered && b < |s.ctx.ops| && s.ctx.ops[b] == Op(c, Some(c), k)
    && b in s.wrs && s.wrs[b] == Armed && s.posted[c] == 1
  }

  lemma PrimedDoubles(s: State, c: CmdId, k: Kind, b: nat)
    requires Primed(s, c, k, b)
    ensures CanDouble(s)
  {
    var t := Next(s, Land(b));
    var u := Next(t, Callback(b));
    var l := Late(Ref(s.slab, b), c);
    var v := if k == Send then Next(u, Collect(l)) else u;
    assert c in v.tasks && v.posted[c] == 1;
    var w := Next(v, Task(c));
    LeadsHere(w);
    LeadsFrom(v, Task(c), w);
    if k == Send { LeadsFrom(u, Collect(l), w); }
    LeadsFrom(t, Callback(b), w);
    LeadsFrom(s, Land(b), w);
    assert w.posted[c] == 2;
  }

  /** With a send callback about to read the record, it finds the new command there and completes that one early. */
  lemma LateSendDoubles(s: State, c: CmdId, k: Kind, b: nat, l: Late)
    requires Inv(s) && s.pc == Idle && c !in s.cmds && Claims(s.ctx, b) && l in s.late && l.ref == Ref(s.slab, b)
    ensures CanDouble(SubmitStep(s, c, k, b))
  {
    var t := SubmitStep(s, c, k, b);
    assert c !in s.posted;
    var u := Next(t, SetUp);
    assert Live(u, l.ref) && u.ctx.ops[b] == Op(c, Some(c), k);
    var v := Next(u, Collect(l));
    var w := Next(v, Task(c));
    var x := Next(w, Post(true));
    PrimedDoubles(x, c, k, b);
    var y, d :| Leads(x, y) && y.posted[d] >= 2;
    LeadsFrom(w, Post(true), y);
    LeadsFrom(v, Task(c), y);
    LeadsFrom(u, Collect(l), y);
    LeadsFrom(t, SetUp, y);
  }

  /** An accepted submission leaves a way to complete some command twice exactly when a receive completion for its
      buffer is on its way or a send callback is about to read its record. */
  lemma EarlyReuseExact(s: State, c: CmdId, k: Kind, b: nat)
    requires Inv(s) && s.pc == Idle && c !in s.cmds && Claims(s.ctx, b)
    ensures CanDouble(SubmitStep(s, c, k, b)) <==> !Clear(s, b)
  {
    if Clear(s, b) {
      SubmitKeeps(s, c, k, b);
      InvNeverDoubles(SubmitStep(s, c, k, b));
    } else if l :| l in s.late && l.ref == Ref(s.slab, b) {
      LateSendDoubles(s, c, k, b, l);
    } else {
      var d :| d in s.tasks && d in s.cmds && s.cmds[d] == Cmd(Ref(s.slab, b), Recv);
      PendingReceiveDoubles(s, c, k, b, d);
    }
  }

  // ---- never completing ----

  /** An uncompleted send that nothing can find any more. */
  ghost predicate Lost(s: State, d: CmdId) {
    && d in s.cmds && s.cmds[d].k == Send && s.posted[d] == 0 && s.tasks[d] == 0
    && !(Submitting(s.pc) && s.pc.c == d)
    && forall i :: 0 <= i < |s.ctx.ops| ==> s.ctx.ops[i].io != Some(d)
  }

  lemma LostBySubmitter(s: State, e: Event, d: CmdId)
    requires Lost(s, d) && Enabled(s, e) && (e.Submit? || e.NoQueue? || e.SetUp? || e.Post?)
    ensures Lost(Next(s, e), d)
  {
  }

  lemma LostByCompletion(s: State, e: Event, d: CmdId)
    requires Lost(s, d) && Enabled(s, e) && (e.Callback? || e.Collect? || e.Task? || e.CancelCmd?)
    ensures Lost(Next(s, e), d)
  {
  }

  lemma LostStep(s: State, e: Event, d: CmdId)
    requires Lost(s, d) && Enabled(s, e)
    ensures Lost(Next(s, e), d)
  {
    if e.Submit? || e.NoQueue? || e.SetUp? || e.Post? {
      LostBySubmitter(s, e, d);
    } else if e.Callback? || e.Collect? || e.Task? || e.CancelCmd? {
      LostByCompletion(s, e, d);
    }
  }

  /** It is never completed, in any continuation with any application. */
  lemma {:induction false} LostForever(s: State, es: seq<Event>, d: CmdId)
    requires Lost(s, d) && Runs(s, es)
    ensures Exec(s, es).posted[d] == 0
    decreases |es|
  {
    if es != [] {
      LostStep(s, es[0], d);
      LostForever(Next(s, es[0]), es[1..], d);
    }
  }

  ghost predicate CanLose(s: State) { exists t, d :: Leads(s, t) && Lost(t, d) }

  lemma InvNeverLoses(s: State)
    requires Inv(s)
    ensures !CanLose(s)
  {
    forall t, d | Leads(s, t) && d in t.cmds ensures !Lost(t, d) {
      LeadsInv(s, t);
      assert Once(t, d);
    }
  }

  /** A successful unregister can lose a command exactly when some send callback has released its buffer and not yet
      read its record. */
  lemma EarlyUnregisterExact(s: State)
    requires Inv(s) && s.pc == Idle && s.ctx.registered && s.ctx.own == {}
    ensures CanLose(Next(s, Unregister)) <==> s.late != {}
  {
    var t := Next(s, Unregister);
    if s.late == {} {
      ShutKeeps(s);
      InvNeverLoses(t);
    } else {
      var l :| l in s.late;
      LateIsLost(s, l);
    }
  }

  lemma LateIsLost(s: State, l: Late)
    requires Inv(s) && s.pc == Idle && s.ctx.registered && s.ctx.own == {} && l in s.late
    ensures CanLose(Next(s, Unregister))
  {
    var t := Next(s, Unregister);
    assert LateOk(s, l) && Once(s, l.c);
    var u := Next(t, Collect(l));
    LeadsHere(u);
    LeadsFrom(t, Collect(l), u);
    assert Lost(u, l.c);
  }

  // ---- finding the record ----

  /** Every completion on its way still finds its own command's record. */
  ghost predicate Found(s: State) { forall c :: c in s.tasks ==> Finds(s, c) }

  /** A record is not prepared for another command, nor the slab given back, under a completion on its way. */
  ghost predicate Careful(s: State, e: Event) {
    match e
    case SetUp => s.pc.Claimed? ==> forall d :: d in s.tasks && d in s.cmds ==> s.cmds[d].ref != Ref(s.slab, s.pc.b)
    case Unregister => s.ctx.registered && s.ctx.own == {} ==> s.tasks == multiset{}
    case _ => true
  }

  lemma FoundSetUp(s: State)
    requires Inv(s) && Found(s) && s.pc.Claimed?
    ensures Found(Next(s, SetUp)) <==> Careful(s, SetUp)
  {
    var t := Next(s, SetUp);
    forall d | d in s.tasks ensures Finds(t, d) <==> s.cmds[d].ref != Ref(s.slab, s.pc.b) {
      assert Finds(s, d) && d != s.pc.c by { assert Once(s, s.pc.c); }
    }
  }

  lemma FoundUnregister(s: State)
    requires Inv(s) && Found(s) && s.pc == Idle
    ensures Found(Next(s, Unregister)) <==> Careful(s, Unregister)
  {
    if s.ctx.registered && s.ctx.own == {} && s.tasks != multiset{} {
      var d :| d in s.tasks;
      assert !Finds(Next(s, Unregister), d);
    }
  }

  lemma FoundCallback(s: State, b: nat)
    requires Inv(s) && Found(s) && b in s.wrs
    ensures Found(CallbackStep(s, b))
  {
    assert RecordOk(s, b);
    forall c | c in CallbackStep(s, b).tasks ensures Finds(CallbackStep(s, b), c) { assert c in s.tasks ==> Finds(s, c); }
  }

  lemma FoundCollect(s: State, l: Late)
    requires Inv(s) && Found(s) && l in s.late
    ensures Found(CollectStep(s, l))
  {
    assert LateOk(s, l);
    forall c | c in CollectStep(s, l).tasks ensures Finds(CollectStep(s, l), c) { assert c in s.tasks ==> Finds(s, c); }
  }

  /** No task is added, and slab, owners and commands are left alone. */
  ghost predicate Framed(s: State, t: State) {
    && (forall c :: c in t.tasks ==> c in s.tasks)
    && t.slab == s.slab && t.ctx.registered == s.ctx.registered && |t.ctx.ops| == |s.ctx.ops|
    && (forall i :: 0 <= i < |s.ctx.ops| ==> t.ctx.ops[i].owner == s.ctx.ops[i].owner)
    && (forall c :: c in s.cmds ==> c in t.cmds && t.cmds[c] == s.cmds[c])
  }

  lemma FoundFrame(s: State, t: State)
    requires Found(s) && Framed(s, t)
    ensures Found(t)
  {
    forall c | c in t.tasks ensures Finds(t, c) { assert Finds(s, c); }
  }

  lemma PostFrame(s: State, ok: bool)
    requires Enabled(s, Post(ok))
    ensures Framed(s, PostStep(s, ok))
  {
  }

  lemma CancelFrame(s: State, c: CmdId)
    requires c in s.cmds
    ensures Framed(s, CancelStep(s, c))
  {
  }

  lemma OthersFrame(s: State, e: Event)
    requires Enabled(s, e) && (e.Submit? || e.NoQueue? || e.Land? || e.Task?)
    ensures Framed(s, Next(s, e))
  {
  }

  lemma FoundShut(s: State, e: Event)
    requires Inv(s) && Found(s) && Enabled(s, e) && (e.Register? || e.Close? || e.Drained?)
    ensures Found(Next(s, e))
  {
    if e.Register? { assert forall c :: c in s.tasks ==> Finds(s, c); } else { AllPosted(s); }
    assert forall c :: c !in s.tasks;
  }

  lemma FoundStep(s: State, e: Event)
    requires Inv(s) && Found(s) && Enabled(s, e) && Reaped(s, e)
    ensures Found(Next(s, e)) <==> Careful(s, e)
  {
    match e
    case SetUp => FoundSetUp(s);
    case Unregister => FoundUnregister(s);
    case Callback(b) => FoundCallback(s, b);
    case Collect(l) => FoundCollect(s, l);
    case Register(_) => FoundShut(s, e);
    case Close => FoundShut(s, e);
    case Drained => FoundShut(s, e);
    case Post(ok) => PostFrame(s, ok); FoundFrame(s, PostStep(s, ok));
    case CancelCmd(c) => CancelFrame(s, c); FoundFrame(s, CancelStep(s, c));
    case _ => OthersFrame(s, e); FoundFrame(s, Next(s, e));
  }

  ghost predicate AlwaysFound(s: State, es: seq<Event>)
    requires Legal(s, es)
    decreases |es|
  {
    Found(s) && (es == [] || AlwaysFound(Next(s, es[0]), es[1..]))
  }

  ghost predicate AlwaysCareful(s: State, es: seq<Event>)
    requires Legal(s, es)
    decreases |es|
  {
    es == [] || (Careful(s, es[0]) && AlwaysCareful(Next(s, es[0]), es[1..]))
  }

  /** Throughout a run every completion on its way finds its own record, exactly when no step of the run prepared that
      record again or gave the pool back while one was on its way. */
  lemma {:induction false} FoundExact(s: State, es: seq<Event>)
    requires Inv(s) && Found(s) && Legal(s, es)
    ensures AlwaysFound(s, es) <==> AlwaysCareful(s, es)
    decreases |es|
  {
    if es != [] {
      FoundStep(s, es[0]);
      StepKeeps(s, es[0]);
      if Careful(s, es[0]) { FoundExact(Next(s, es[0]), es[1..]); }
    }
  }

  /** And then no step ever reads a record that is gone or another command's. */
  lemma {:induction false} CarefulNeverFaults(s: State, es: seq<Event>)
    requires Inv(s) && Found(s) && Legal(s, es) && AlwaysCareful(s, es) && !s.fault
    ensures Found(Exec(s, es)) && !Exec(s, es).fault
    decreases |es|
  {
    if es != [] {
      FoundStep(s, es[0]);
      StepKeeps(s, es[0]);
      FaultFree(s, es[0]);
      CarefulNeverFaults(Next(s, es[0]), es[1..]);
    }
  }

  /** The step reads a record that is gone, or another command's. */
  predicate Misreads(s: State, e: Event) {
    match e
    case Task(c) => c !in s.cmds || !Live(s, s.cmds[c].ref) || s.ctx.ops[s.cmds[c].ref.b].owner != c
    case Collect(l) => !Live(s, l.ref) || s.ctx.ops[l.ref.b].io != Some(l.c)
    case CancelCmd(c) => c in s.cmds && !Live(s, s.cmds[c].ref)
    case _ => false
  }

  /** The fault is remembered from the first such step on. */
  lemma FaultExact(s: State, e: Event)
    requires Enabled(s, e)
    ensures Next(s, e).fault <==> s.fault || Misreads(s, e)
  {
  }

  lemma {:induction false} FaultStays(s: State, es: seq<Event>)
    requires Runs(s, es) && s.fault
    ensures Exec(s, es).fault
    decreases |es|
  {
    if es != [] {
      FaultExact(s, es[0]);
      FaultStays(Next(s, es[0]), es[1..]);
    }
  }

  /** A callback reads its record once, and hands over whatever command the record then names. */
  lemma CollectMeans(s: State, l: Late)
    requires l in s.late
    ensures var t := Next(s, Collect(l));
            && t.late == s.late - {l} && t.posted == s.posted && t.ctx == s.ctx
            && t.tasks == if Live(s, l.ref) then s.tasks + One(s.ctx.ops[l.ref.b].io) else s.tasks
  {
  }

  lemma CancelFindsRecord(s: State, c: CmdId)
    requires Inv(s) && Found(s) && Enabled(s, CancelCmd(c))
    ensures Live(s, s.cmds[c].ref)
  {
    assert Once(s, c);
    if c in s.tasks { assert Finds(s, c); }
  }

  lemma FaultFree(s: State, e: Event)
    requires Inv(s) && Found(s) && Enabled(s, e) && !s.fault
    ensures !Next(s, e).fault
  {
    match e
    case Collect(l) => assert LateOk(s, l);
    case CancelCmd(c) => CancelFindsRecord(s, c);
    case _ =>
  }

  /** Task work reads its own command's record in every careful run from the start. */
  lemma TaskReadsItsOwn(es: seq<Event>, c: CmdId)
    requires Legal(Start(), es) && AlwaysCareful(Start(), es) && c in Exec(Start(), es).tasks
    ensures Finds(Exec(Start(), es), c) && Exec(Start(), es).posted[c] == 0
  {
    CarefulNeverFaults(Start(), es);
    RunKeeps(Start(), es);
    assert Once(Exec(Start(), es), c);
  }

  // ---- a completion on its way ----

  lemma {:induction false} ExecSnoc(s: State, es: seq<Event>, e: Event)
    requires Legal(s, es) && Enabled(Exec(s, es), e) && Reaped(Exec(s, es), e)
    ensures Legal(s, es + [e]) && Exec(s, es + [e]) == Next(Exec(s, es), e)
    decreases |es|
  {
    if es == [] {
      RunsCons(s, e, []);
      assert es + [e] == [e] + [];
    } else {
      ExecSnoc(Next(s, es[0]), es[1..], e);
      RunsCons(s, es[0], es[1..] + [e]);
      assert es + [e] == [es[0]] + (es[1..] + [e]);
    }
  }

  lemma ReachableNext(s: State, e: Event)
    requires Reachable(s) && Enabled(s, e) && Reaped(s, e)
    ensures Reachable(Next(s, e))
  {
    var es :| Legal(Start(), es) && Exec(Start(), es) == s;
    ExecSnoc(Start(), es, e);
  }

  lemma Registered1() returns (s: State)
    ensures Reachable(s)
    ensures s == State(Ctx(true, {}, [Op(0, None, Send)]), 1, Idle, map[], {}, map[], multiset{}, multiset{}, false)
  {
    s := Start();
    assert Reachable(s) by { assert Legal(Start(), []) && Exec(Start(), []) == s; }
    ReachableNext(s, Register(1));
    s := Next(s, Register(1));
    assert s.ctx.ops == [Op(0, None, Send)];
  }

  lemma Posted1(k: Kind) returns (s: State)
    ensures Reachable(s)
    ensures s == State(Ctx(true, {0}, [Op(1, Some(1), k)]), 1, Idle, map[0 := Armed], {}, map[1 := Cmd(Ref(1, 0), k)],
                       multiset{}, multiset{}, false)
  {
    s := Registered1();
    ReachableNext(s, Submit(1, k, 0));
    s := Next(s, Submit(1, k, 0));
    ReachableNext(s, SetUp);
    s := Next(s, SetUp);
    ReachableNext(s, Post(true));
    s := Next(s, Post(true));
  }

  /** Ring exit with a receive still armed: it is cancelled, the file closed, and the close has to wait for its drain. */
  lemma CloseWithArmedReceive() returns (s: State)
    ensures Reachable(s) && Enabled(s, Close) && s.wrs == map[0 := Armed] && s.posted == multiset{1}
    ensures Next(s, Close).pc == Closing && Next(s, Close).ctx.registered && !Enabled(Next(s, Close), Drained)
  {
    s := Posted1(Recv);
    ReachableNext(s, CancelCmd(1));
    s := Next(s, CancelCmd(1));
    assert 0 in s.wrs && s.ctx.ops[0].kind == Recv;
  }

  /** The adapter is done and the callback has run: a receive's completion is on its way, a send's callback about to
      read its record. In both states no bit is set. */
  lemma CompletionOnItsWay(k: Kind) returns (s: State)
    ensures Reachable(s) && s.pc == Idle && s.ctx == Ctx(true, {}, [Op(1, Some(1), k)]) && s.slab == 1
    ensures s.cmds == map[1 := Cmd(Ref(1, 0), k)]
    ensures if k == Send then s.late == {Late(Ref(1, 0), 1)} && s.tasks == multiset{}
            else s.late == {} && s.tasks == multiset{1}
  {
    s := Posted1(k);
    ReachableNext(s, Land(0));
    s := Next(s, Land(0));
    ReachableNext(s, Callback(0));
    s := Next(s, Callback(0));
  }

  /** So each of the three failures has an input: there a reuse of the buffer can complete a command twice, an
      unregister takes a receive's record away, and it loses a send. */
  lemma TooEarly(k: Kind) returns (s: State)
    ensures Reachable(s) && Inv(s) && s.pc == Idle && 2 !in s.cmds && Claims(s.ctx, 0)
    ensures CanDouble(SubmitStep(s, 2, k, 0))
    ensures k == Recv ==> Reaped(s, Unregister) && s.tasks != multiset{} && !Found(Next(s, Unregister))
    ensures k == Recv ==> Enabled(Next(s, Unregister), Task(1)) && Next(Next(s, Unregister), Task(1)).fault
    ensures k == Send ==> CanLose(Next(s, Unregister))
  {
    s := CompletionOnItsWay(k);
    ReachableInv(s);
    assert !Clear(s, 0) by {
      if k == Recv { assert 1 in s.tasks && s.cmds[1] == Cmd(Ref(s.slab, 0), Recv); }
    }
    EarlyReuseExact(s, 2, k, 0);
    EarlyUnregisterExact(s);
    if k == Recv { assert 1 in s.tasks && !Finds(Next(s, Unregister), 1); }
  }
}
