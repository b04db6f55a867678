/** Every interleaving of submit, failed post, adapter completion or flush, task work, ring-exit cancel,
    unregister and close on one command context. */
module CmdProtocol {
  import opened Base
  import opened CmdCtx

  /** A posted work request: on the adapter's queue, or finished with its completion callback still to run. */
  datatype Wr = Armed | Landed

  /** Who holds the context mutex: nobody, a submission before or after its record is set up, or a close that waits
      for its receive queues to drain. */
  datatype Pc = Idle | Claimed(c: CmdId, k: Kind, b: nat) | Ready(c: CmdId, k: Kind, b: nat) | Closing

  /** A completion record's place: which registration's slab, and which buffer. */
  datatype Ref = Ref(slab: nat, b: nat)

  datatype Cmd = Cmd(ref: Ref, k: Kind)

  /** A send callback, of command `c`, between giving its buffer back and reading the record. */
  datatype Late = Late(ref: Ref, c: CmdId)

  /** `late` are the send callbacks that have yet to read their record; `tasks` are completions handed to the
      submitter's task; `posted` counts completions delivered per command; `fault` remembers that some step read a
      record that was gone or another command's. */
  datatype State = State(ctx: Ctx, slab: nat, pc: Pc, wrs: map<nat, Wr>, late: set<Late>, cmds: map<CmdId, Cmd>,
                         tasks: multiset<CmdId>, posted: multiset<CmdId>, fault: bool)

  datatype Event =
    | Register(count: nat)
    | Submit(c: CmdId, k: Kind, b: nat)
    | NoQueue
    | SetUp
    | Post(ok: bool)
    | Land(b: nat)
    | Callback(b: nat)
    | Collect(l: Late)
    | Task(c: CmdId)
    | CancelCmd(c: CmdId)
    | Unregister
    | Close
    | Drained

  function Start(): State { State(Closed(), 0, Idle, map[], {}, map[], multiset{}, multiset{}, false) }

  function One(o: Option<CmdId>): multiset<CmdId> { match o case None => multiset{} case Some(c) => multiset{c} }

  /** The record is still there. */
  predicate Live(s: State, r: Ref) { s.ctx.registered && r.slab == s.slab && r.b < |s.ctx.ops| }

  /** The record is still there and still this command's. */
  predicate Finds(s: State, c: CmdId) {
    c in s.cmds && Live(s, s.cmds[c].ref) && s.ctx.ops[s.cmds[c].ref.b].owner == c
  }

  /** After the drain no receive is on the adapter's queue or waiting for its callback. */
  predicate RecvDrained(s: State) {
    forall b :: b in s.wrs ==> b < |s.ctx.ops| && s.ctx.ops[b].kind == Send
  }

  /** What may happen next. io_uring cancels only an uncompleted receive that was marked cancelable, and closes the
      file only after every command completed. */
  predicate Enabled(s: State, e: Event) {
    match e
    case Register(_) => s.pc == Idle && !s.ctx.registered
    case Submit(c, _, _) => s.pc == Idle && c !in s.cmds
    case NoQueue => s.pc.Claimed?
    case SetUp => s.pc.Claimed? && s.pc.b < |s.ctx.ops|
    case Post(_) => s.pc.Ready? && s.pc.b < |s.ctx.ops|
    case Land(b) => b in s.wrs && s.wrs[b] == Armed
    case Callback(b) => b in s.wrs && s.wrs[b] == Landed && b < |s.ctx.ops|
    case Collect(l) => l in s.late
    case Task(c) => c in s.tasks
    case CancelCmd(c) => c in s.cmds && s.cmds[c].k == Recv && s.posted[c] == 0 && !(s.pc.Claimed? && s.pc.c == c)
    case Unregister => s.pc == Idle
    case Close => s.pc == Idle && forall c :: c in s.cmds ==> s.posted[c] > 0
    case Drained => s.pc == Closing && RecvDrained(s)
  }

  function Next(s: State, e: Event): State
    requires Enabled(s, e)
  {
    match e
    case Register(count) => s.(ctx := Fresh(count), slab := s.slab + 1)
    case Submit(c, k, b) => SubmitStep(s, c, k, b)
    case NoQueue => s.(ctx := Release(s.ctx, s.pc.b), pc := Idle, posted := s.posted + multiset{s.pc.c})
    case SetUp => s.(ctx := Prepare(s.ctx, s.pc.b, s.pc.c, s.pc.k), pc := Ready(s.pc.c, s.pc.k, s.pc.b))
    case Post(ok) => PostStep(s, ok)
    case Land(b) => s.(wrs := s.wrs[b := Landed])
    case Callback(b) => CallbackStep(s, b)
    case Collect(l) => CollectStep(s, l)
    case Task(c) =>
      s.(tasks := s.tasks - multiset{c}, posted := s.posted + multiset{c}, fault := s.fault || !Finds(s, c))
    case CancelCmd(c) => CancelStep(s, c)
    case Unregister => if s.ctx.registered && s.ctx.own == {} then s.(ctx := Closed()) else s
    case Close => if s.ctx.own == {} then s.(ctx := Closed()) else s.(pc := Closing)
    case Drained => s.(ctx := Closed(), pc := Idle)
  }

  /** A submission the claim turns away is answered at once and leaves nothing behind. */
  function SubmitStep(s: State, c: CmdId, k: Kind, b: nat): State {
    if Claims(s.ctx, b)
    then s.(ctx := Claim(s.ctx, b), pc := Claimed(c, k, b), cmds := s.cmds[c := Cmd(Ref(s.slab, b), k)])
    else s
  }

  /** A failed send is completed by its return value; a failed receive through its record, since a cancel may
      have taken it over meanwhile. */
  function PostStep(s: State, ok: bool): State
    requires s.pc.Ready? && s.pc.b < |s.ctx.ops|
  {
    var b := s.pc.b;
    if ok then s.(pc := Idle, wrs := s.wrs[b := Armed])
    else if s.pc.k == Send then s.(ctx := Release(s.ctx, b), pc := Idle, posted := s.posted + multiset{s.pc.c})
    else
      var (ctx, io) := RecvPostFailed(s.ctx, b);
      s.(ctx := ctx, pc := Idle, posted := s.posted + One(io))
  }

  /** A receive's callback reads the record under the lock that releases the buffer; a send's only afterwards. */
  function CallbackStep(s: State, b: nat): State
    requires b < |s.ctx.ops|
  {
    if s.ctx.ops[b].kind == Send
    then s.(ctx := Release(s.ctx, b), wrs := s.wrs - {b}, late := s.late + {Late(Ref(s.slab, b), s.ctx.ops[b].owner)})
    else
      var (ctx, io) := Done(s.ctx, b);
      s.(ctx := ctx, wrs := s.wrs - {b}, tasks := s.tasks + One(io))
  }

  function CollectStep(s: State, l: Late): State {
    if Live(s, l.ref) then
      var io := s.ctx.ops[l.ref.b].io;
      s.(late := s.late - {l}, tasks := s.tasks + One(io), fault := s.fault || io != Some(l.c))
    else s.(late := s.late - {l}, fault := true)
  }

  function CancelStep(s: State, c: CmdId): State
    requires c in s.cmds
  {
    if Live(s, s.cmds[c].ref) then
      var (ctx, mine) := Cancel(s.ctx, s.cmds[c].ref.b);
      s.(ctx := ctx, posted := if mine then s.posted + multiset{c} else s.posted)
    else s.(fault := true)
  }

  /** No receive completion for the buffer is on its way, and no send callback is about to read its record. */
  ghost predicate Clear(s: State, b: nat) {
    && (forall l :: l in s.late ==> l.ref != Ref(s.slab, b))
    && forall d :: d in s.tasks && d in s.cmds ==> s.cmds[d] != Cmd(Ref(s.slab, b), Recv)
  }

  /** What is asked of the application: not to submit a buffer again or to unregister too early. Reaping a buffer's
      completions before its reuse is enough (ReapingSuffices). */
  ghost predicate Reaped(s: State, e: Event) {
    match e
    case Submit(_, _, b) => Claims(s.ctx, b) ==> Clear(s, b)
    case Unregister => s.ctx.registered && s.ctx.own == {} ==> s.late == {}
    case _ => true
  }

  /** A run with any application. */
  ghost predicate Runs(s: State, es: seq<Event>)
    decreases |es|
  {
    es == [] || (Enabled(s, es[0]) && Runs(Next(s, es[0]), es[1..]))
  }

  ghost predicate Behaves(s: State, es: seq<Event>)
    requires Runs(s, es)
    decreases |es|
  {
    es == [] || (Reaped(s, es[0]) && Behaves(Next(s, es[0]), es[1..]))
  }

  /** A run in which the application does what is asked of it. */
  ghost predicate Legal(s: State, es: seq<Event>) { Runs(s, es) && Behaves(s, es) }

  ghost function Exec(s: State, es: seq<Event>): State
    requires Runs(s, es)
    decreases |es|
  {
    if es == [] then s else Exec(Next(s, es[0]), es[1..])
  }

  // ---- what every step keeps ----

  predicate Submitting(pc: Pc) { pc.Claimed? || pc.Ready? }

  function Busy(pc: Pc): set<nat> { if Submitting(pc) then {pc.b} else {} }

  /** The kernel owns exactly the buffers being submitted or on the adapter, and only of a registered pool. */
  ghost predicate Owning(s: State) {
    && s.ctx.own == s.wrs.Keys + Busy(s.pc)
    && (forall b :: b in s.ctx.own ==> s.ctx.registered && b < |s.ctx.ops|)
    && (Submitting(s.pc) ==> s.pc.b !in s.wrs) && (!s.ctx.registered ==> s.ctx.ops == [])
  }

  ghost predicate RecordOk(s: State, b: nat) {
    && b < |s.ctx.ops|
    && var op := s.ctx.ops[b];
       && op.owner in s.cmds && s.cmds[op.owner] == Cmd(Ref(s.slab, b), op.kind)
       && (op.io == None || op.io == Some(op.owner)) && (op.kind == Send ==> op.io.Some?)
  }

  /** A buffer whose record is set up belongs to the command the record names. */
  ghost predicate Named(s: State) {
    && (Submitting(s.pc) ==> s.pc.c in s.cmds && s.cmds[s.pc.c] == Cmd(Ref(s.slab, s.pc.b), s.pc.k))
    && (forall b :: b in s.ctx.own && !(s.pc.Claimed? && s.pc.b == b) ==> RecordOk(s, b))
    && (s.pc.Ready? ==> s.pc.b < |s.ctx.ops| && s.ctx.ops[s.pc.b].owner == s.pc.c)
    && (forall c :: c in s.cmds ==> s.cmds[c].ref.slab <= s.slab)
  }

  ghost predicate LateOk(s: State, l: Late) {
    RecordOk(s, l.ref.b) && s.ctx.ops[l.ref.b].owner == l.c && s.ctx.ops[l.ref.b].kind == Send
  }

  /** Completions on their way: a late send's record is still its own, a receive's buffer is not taken again. */
  ghost predicate OnTheWay(s: State) {
    && (forall l :: l in s.late ==> Live(s, l.ref) && l.ref.b !in s.ctx.own && LateOk(s, l))
    && (forall c :: c in s.tasks ==> c in s.cmds)
    && (forall c :: c in s.tasks && s.cmds[c].k == Recv && s.cmds[c].ref.slab == s.slab ==> s.cmds[c].ref.b !in s.ctx.own)
  }

  /** The command is still reachable from the submission in progress or from its buffer's record. */
  ghost predicate Held(s: State, c: CmdId)
    requires c in s.cmds
  {
    var r := s.cmds[c].ref;
    || (s.pc.Claimed? && s.pc.c == c)
    || (r.slab == s.slab && ((r.b in s.ctx.own && !(s.pc.Claimed? && s.pc.b == r.b)) || Late(r, c) in s.late)
        && r.b < |s.ctx.ops| && s.ctx.ops[r.b].io == Some(c))
  }

  /** Each accepted command is in exactly one place: held, on its way, or completed once. */
  ghost predicate Once(s: State, c: CmdId)
    requires c in s.cmds
  {
    s.posted[c] + s.tasks[c] + (if Held(s, c) then 1 else 0) == 1
  }

  ghost predicate Shape(s: State) {
    && Owning(s) && Named(s) && OnTheWay(s)
    && (forall c :: c in s.posted ==> c in s.cmds)
    && (s.pc == Closing ==> forall c :: c in s.cmds ==> s.posted[c] > 0)
  }

  ghost predicate Inv(s: State) { Shape(s) && forall c :: c in s.cmds ==> Once(s, c) }

  lemma RegisterKeeps(s: State, e: Event)
    requires Inv(s) && Enabled(s, e) && e.Register?
    ensures Inv(Next(s, e))
  {
    var t := Next(s, e);
    forall c | c in t.cmds ensures Once(t, c) { assert Once(s, c); }
  }

  lemma SubmitShape(s: State, c: CmdId, k: Kind, b: nat)
    requires Inv(s) && s.pc == Idle && c !in s.cmds && Claims(s.ctx, b) && Clear(s, b)
    ensures Shape(SubmitStep(s, c, k, b))
  {
    var t := SubmitStep(s, c, k, b);
    assert Owning(t);
    assert Named(t) by {
      forall j | j in t.ctx.own && j != b ensures RecordOk(t, j) { assert RecordOk(s, j); }
    }
    assert OnTheWay(t) by {
      forall l | l in t.late ensures LateOk(t, l) { assert LateOk(s, l); }
      forall d | d in t.tasks ensures d in s.cmds && t.cmds[d] == s.cmds[d] { assert d != c; }
    }
  }

  lemma SubmitOnce(s: State, c: CmdId, k: Kind, b: nat, d: CmdId)
    requires Inv(s) && s.pc == Idle && c !in s.cmds && Claims(s.ctx, b) && Clear(s, b)
    requires d in s.cmds || d == c
    ensures Once(SubmitStep(s, c, k, b), d)
  {
    var t := SubmitStep(s, c, k, b);
    if d == c {
      assert c !in s.posted && c !in s.tasks;
    } else {
      assert Once(s, d) && Held(t, d) == Held(s, d);
    }
  }

  /** Accepted or turned away, a submission of a clear buffer keeps the invariant. */
  lemma SubmitKeeps(s: State, c: CmdId, k: Kind, b: nat)
    requires Inv(s) && s.pc == Idle && c !in s.cmds && (Claims(s.ctx, b) ==> Clear(s, b))
    ensures Inv(SubmitStep(s, c, k, b))
  {
    if Claims(s.ctx, b) {
      SubmitShape(s, c, k, b);
      forall d | d in SubmitStep(s, c, k, b).cmds ensures Once(SubmitStep(s, c, k, b), d) { SubmitOnce(s, c, k, b, d); }
    }
  }

  lemma NoQueueKeeps(s: State, e: Event)
    requires Inv(s) && Enabled(s, e) && e.NoQueue?
    ensures Inv(Next(s, e))
  {
    var t := Next(s, e);
    forall b | b in t.ctx.own ensures RecordOk(t, b) { assert RecordOk(s, b); }
    forall c | c in t.cmds ensures Once(t, c) { assert Once(s, c); }
  }

  lemma SetUpKeeps(s: State, e: Event)
    requires Inv(s) && Enabled(s, e) && e.SetUp?
    ensures Inv(Next(s, e))
  {
    var t := Next(s, e);
    forall c | c in t.cmds ensures Once(t, c) { assert Once(s, c); }
  }

  lemma PostOkKeeps(s: State)
    requires Inv(s) && s.pc.Ready?
    ensures Inv(PostStep(s, true))
  {
    var t := PostStep(s, true);
    assert t.wrs.Keys == s.wrs.Keys + {s.pc.b};
    forall c | c in t.cmds ensures Once(t, c) { assert Once(s, c); }
  }

  lemma SendPostFails(s: State)
    requires Inv(s) && s.pc.Ready? && s.pc.k == Send
    ensures Inv(PostStep(s, false))
  {
    var t := PostStep(s, false);
    assert RecordOk(s, s.pc.b);
    forall c | c in t.cmds ensures Once(t, c) { assert Once(s, c); }
  }

  /** Clearing the link of an owned receive's record. */
  lemma TakeKeeps(s: State, b: nat, posted: multiset<CmdId>)
    requires Owning(s) && Named(s) && OnTheWay(s)
    requires b in s.ctx.own && !(s.pc.Claimed? && s.pc.b == b) && s.ctx.ops[b].kind == Recv
    ensures var t := s.(ctx := TakeIo(s.ctx, b), posted := posted); Owning(t) && Named(t) && OnTheWay(t)
  {
    var t := s.(ctx := TakeIo(s.ctx, b), posted := posted);
    forall j | j in t.ctx.own && !(t.pc.Claimed? && t.pc.b == j) ensures RecordOk(t, j) { assert RecordOk(s, j); }
    forall l | l in t.late ensures LateOk(t, l) { assert LateOk(s, l); }
  }

  lemma RecvPostShape(s: State)
    requires Inv(s) && s.pc.Ready? && s.pc.k == Recv
    ensures Shape(PostStep(s, false))
  {
    var b := s.pc.b;
    assert RecordOk(s, b);
    TakeKeeps(s, b, s.posted);
    var u, t := s.(ctx := TakeIo(s.ctx, b)), PostStep(s, false);
    assert t == u.(ctx := Release(u.ctx, b), pc := Idle, posted := t.posted);
    forall j | j in t.ctx.own ensures RecordOk(t, j) { assert RecordOk(u, j); }
    forall l | l in t.late ensures LateOk(t, l) { assert LateOk(u, l); }
  }

  lemma RecvPostFails(s: State)
    requires Inv(s) && s.pc.Ready? && s.pc.k == Recv
    ensures Inv(PostStep(s, false))
  {
    var t := PostStep(s, false);
    RecvPostShape(s);
    assert RecordOk(s, s.pc.b);
    forall c | c in t.cmds ensures Once(t, c) { assert Once(s, c); }
  }

  lemma PostKeeps(s: State, e: Event)
    requires Inv(s) && Enabled(s, e) && e.Post?
    ensures Inv(Next(s, e))
  {
    if e.ok { PostOkKeeps(s); } else if s.pc.k == Send { SendPostFails(s); } else { RecvPostFails(s); }
  }

  lemma LandKeeps(s: State, e: Event)
    requires Inv(s) && Enabled(s, e) && e.Land?
    ensures Inv(Next(s, e))
  {
    var t := Next(s, e);
    assert t.wrs.Keys == s.wrs.Keys;
    forall c | c in t.cmds ensures Once(t, c) { assert Once(s, c); }
  }

  /** Releasing one buffer leaves every other record as it was. */
  lemma OthersKeep(s: State, t: State, b: nat)
    requires Named(s) && b in s.wrs && Owning(s)
    requires t == s.(ctx := Release(s.ctx, b), wrs := s.wrs - {b}, late := t.late, tasks := t.tasks)
    ensures Owning(t) && Named(t)
  {
    assert t.wrs.Keys == s.wrs.Keys - {b};
    forall j | j in t.ctx.own && !(t.pc.Claimed? && t.pc.b == j) ensures RecordOk(t, j) { assert RecordOk(s, j); }
  }

  lemma SendCallbackShape(s: State, b: nat)
    requires Inv(s) && b in s.wrs && s.ctx.ops[b].kind == Send
    ensures Shape(CallbackStep(s, b))
  {
    var t := CallbackStep(s, b);
    assert RecordOk(s, b);
    OthersKeep(s, t, b);
    forall l | l in t.late ensures LateOk(t, l) { assert LateOk(s, l); }
  }

  lemma RecvCallbackShape(s: State, b: nat)
    requires Inv(s) && b in s.wrs && s.ctx.ops[b].kind == Recv
    ensures Shape(CallbackStep(s, b))
  {
    var t := CallbackStep(s, b);
    assert RecordOk(s, b);
    OthersKeep(s, t, b);
    assert OnTheWay(t) by {
      forall l | l in t.late ensures LateOk(t, l) { assert LateOk(s, l); }
      forall c | c in t.tasks ensures c in s.tasks || c == s.ctx.ops[b].owner { }
    }
  }

  lemma CallbackOnce(s: State, b: nat, c: CmdId)
    requires Inv(s) && b in s.wrs && c in s.cmds
    ensures Once(CallbackStep(s, b), c)
  {
    assert RecordOk(s, b);
    assert Once(s, c);
  }

  lemma CallbackKeeps(s: State, b: nat)
    requires Inv(s) && b in s.wrs
    ensures Inv(CallbackStep(s, b))
  {
    if s.ctx.ops[b].kind == Send { SendCallbackShape(s, b); } else { RecvCallbackShape(s, b); }
    forall c | c in s.cmds ensures Once(CallbackStep(s, b), c) { CallbackOnce(s, b, c); }
  }

  lemma CollectKeeps(s: State, l: Late)
    requires Inv(s) && l in s.late
    ensures Inv(CollectStep(s, l))
  {
    var t := CollectStep(s, l);
    assert LateOk(s, l);
    forall c | c in t.cmds ensures Once(t, c) { assert Once(s, c); }
  }

  lemma TaskKeeps(s: State, e: Event)
    requires Inv(s) && Enabled(s, e) && e.Task?
    ensures Inv(Next(s, e))
  {
    var t := Next(s, e);
    forall c | c in t.cmds ensures Once(t, c) { assert Once(s, c); }
  }

  /** A cancel that takes the completion over finds its own command's record. */
  lemma CancelFinds(s: State, c: CmdId)
    requires Inv(s) && Enabled(s, CancelCmd(c)) && Live(s, s.cmds[c].ref) && s.cmds[c].ref.b in s.ctx.own
    ensures Held(s, c) && RecordOk(s, s.cmds[c].ref.b) && s.ctx.ops[s.cmds[c].ref.b].owner == c
    ensures !(s.pc.Claimed? && s.pc.b == s.cmds[c].ref.b) && s.pc != Closing
  {
    assert Once(s, c);
  }

  lemma CancelShape(s: State, c: CmdId)
    requires Inv(s) && Enabled(s, CancelCmd(c))
    ensures Shape(CancelStep(s, c))
  {
    var r := s.cmds[c].ref;
    if Live(s, r) && r.b in s.ctx.own {
      CancelFinds(s, c);
      TakeKeeps(s, r.b, s.posted + multiset{c});
    }
  }

  lemma CancelOnce(s: State, c: CmdId, d: CmdId)
    requires Inv(s) && Enabled(s, CancelCmd(c)) && d in s.cmds
    ensures Once(CancelStep(s, c), d)
  {
    assert Once(s, d);
    if Live(s, s.cmds[c].ref) && s.cmds[c].ref.b in s.ctx.own { CancelFinds(s, c); }
  }

  lemma CancelKeeps(s: State, c: CmdId)
    requires Inv(s) && Enabled(s, CancelCmd(c))
    ensures Inv(CancelStep(s, c))
  {
    CancelShape(s, c);
    forall d | d in s.cmds ensures Once(CancelStep(s, c), d) { CancelOnce(s, c, d); }
  }

  /** What is on its way, or a send on the adapter, is a command not yet completed. */
  lemma WorkIsOpen(s: State)
    requires Inv(s)
    ensures forall b :: b in s.wrs && s.ctx.ops[b].kind == Send ==>
              s.ctx.ops[b].owner in s.cmds && s.posted[s.ctx.ops[b].owner] == 0
    ensures forall l :: l in s.late ==> l.c in s.cmds && s.cmds[l.c].ref == l.ref && s.posted[l.c] == 0
    ensures forall c :: c in s.tasks ==> c in s.cmds && s.posted[c] == 0
  {
    forall b | b in s.wrs && s.ctx.ops[b].kind == Send
      ensures s.ctx.ops[b].owner in s.cmds && s.posted[s.ctx.ops[b].owner] == 0
    {
      assert RecordOk(s, b) && Once(s, s.ctx.ops[b].owner);
    }
    forall l | l in s.late ensures l.c in s.cmds && s.cmds[l.c].ref == l.ref && s.posted[l.c] == 0 {
      assert LateOk(s, l) && Once(s, l.c);
    }
    forall c | c in s.tasks ensures c in s.cmds && s.posted[c] == 0 { assert Once(s, c); }
  }

  /** Once every command has completed, nothing is on its way and only receives are on the adapter. */
  lemma AllPosted(s: State)
    requires Inv(s) && forall c :: c in s.cmds ==> s.posted[c] > 0
    ensures s.tasks == multiset{} && s.late == {} && forall b :: b in s.wrs ==> s.ctx.ops[b].kind == Recv
  {
    WorkIsOpen(s);
    assert forall c :: c !in s.tasks;
    assert forall l :: l !in s.late;
  }

  /** Giving the pool back when no bit is set and no send callback is late. */
  lemma ShutKeeps(s: State)
    requires Inv(s) && !Submitting(s.pc) && s.ctx.own == {} && s.late == {}
    ensures Inv(s.(ctx := Closed(), pc := Idle))
  {
    var t := s.(ctx := Closed(), pc := Idle);
    forall c | c in t.cmds ensures Once(t, c) { assert Once(s, c); }
  }

  /** When the drain a close waited for is over, no bit is set and nothing is on its way. */
  lemma DrainedIsEmpty(s: State)
    requires Inv(s) && s.pc == Closing && RecvDrained(s)
    ensures s.wrs == map[] && s.ctx.own == {} && s.late == {} && s.tasks == multiset{}
  {
    AllPosted(s);
    assert forall b :: b !in s.wrs;
    assert s.wrs.Keys == {};
  }

  lemma CloseKeeps(s: State, e: Event)
    requires Inv(s) && Enabled(s, e) && (e.Close? || e.Drained?)
    ensures Inv(Next(s, e))
  {
    if e.Drained? { DrainedIsEmpty(s); } else { AllPosted(s); }
    if e.Drained? || s.ctx.own == {} {
      ShutKeeps(s);
    } else {
      forall c | c in s.cmds ensures Once(Next(s, e), c) { assert Once(s, c); }
    }
  }

  lemma StepKeeps(s: State, e: Event)
    requires Inv(s) && Enabled(s, e) && Reaped(s, e)
    ensures Inv(Next(s, e))
  {
    match e
    case Register(_) => RegisterKeeps(s, e);
    case Submit(c, k, b) => SubmitKeeps(s, c, k, b);
    case NoQueue => NoQueueKeeps(s, e);
    case SetUp => SetUpKeeps(s, e);
    case Post(_) => PostKeeps(s, e);
    case Land(_) => LandKeeps(s, e);
    case Callback(b) => CallbackKeeps(s, b);
    case Collect(l) => CollectKeeps(s, l);
    case Task(_) => TaskKeeps(s, e);
    case CancelCmd(c) => CancelKeeps(s, c);
    case Unregister => if s.ctx.registered && s.ctx.own == {} { ShutKeeps(s); }
    case Close => CloseKeeps(s, e);
    case Drained => CloseKeeps(s, e);
  }

  lemma {:induction false} RunKeeps(s: State, es: seq<Event>)
    requires Inv(s) && Legal(s, es)
    ensures Inv(Exec(s, es))
    decreases |es|
  {
    if es != [] {
      StepKeeps(s, es[0]);
      RunKeeps(Next(s, es[0]), es[1..]);
    }
  }

  ghost predicate Reachable(s: State) { exists es :: Legal(Start(), es) && Exec(Start(), es) == s }

  lemma ReachableInv(s: State)
    requires Reachable(s)
    ensures Inv(s)
  {
    var es :| Legal(Start(), es) && Exec(Start(), es) == s;
    RunKeeps(Start(), es);
  }

  // ---- what that gives ----

  /** Something of the command is still in progress: its submission, a work request or send callback of its own, or
      task work. Another command in the same buffer does not count. */
  ghost predicate InProgress(s: State, c: CmdId) {
    || (Submitting(s.pc) && s.pc.c == c) || c in s.tasks
    || (exists b :: b in s.wrs && b < |s.ctx.ops| && s.ctx.ops[b].owner == c) || (exists l :: l in s.late && l.c == c)
  }

  /** Exactly-once completion: never twice, and once as soon as nothing of the command is in progress. */
  lemma CompletedOnce(s: State, c: CmdId)
    requires Reachable(s) && c in s.cmds
    ensures s.posted[c] <= 1 && (!InProgress(s, c) ==> s.posted[c] == 1)
  {
    ReachableInv(s);
    assert Once(s, c);
  }

  /** An application that submits a buffer again, or unregisters, only after all the commands concerned completed
      does all that is asked of it. */
  lemma ReapingSuffices(s: State, b: nat)
    requires Inv(s)
    ensures (forall c :: c in s.cmds && s.cmds[c].ref == Ref(s.slab, b) ==> s.posted[c] > 0) ==> Clear(s, b)
    ensures (forall c :: c in s.cmds && s.cmds[c].ref.slab == s.slab ==> s.posted[c] > 0) ==> s.late == {}
  {
    WorkIsOpen(s);
    if forall c :: c in s.cmds && s.cmds[c].ref.slab == s.slab ==> s.posted[c] > 0 {
      assert forall l :: l !in s.late;
    }
  }

  lemma RunsCons(s: State, e: Event, es: seq<Event>)
    requires Enabled(s, e) && Runs(Next(s, e), es)
    ensures Runs(s, [e] + es) && Exec(s, [e] + es) == Exec(Next(s, e), es)
    ensures Reaped(s, e) && Behaves(Next(s, e), es) ==> Legal(s, [e] + es)
  {
    assert ([e] + es)[1..] == es;
  }
}
