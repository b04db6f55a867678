/**
 * The kernel's reorder buffer: a search tree of pending frames, a list of
 * drained ones, a cursor and two counters, all updated in place
 * (kernel/urp_reorder.c). Each method is proved equal to the function of the
 * same name in module Reorder. The red-black rotations are left out; only the
 * search order matters here.
 */
module ReorderTree {
  import opened Base
  import R = Reorder

  datatype Tree = Leaf | Node(left: Tree, frame: R.Frame, right: Tree)

  ghost function Contents(t: Tree): R.Pending {
    match t
    case Leaf => map[]
    case Node(l, f, r) => (Contents(l) + Contents(r))[f.seqno := f.payload]
  }

  ghost predicate Below(t: Tree, k: u64) { forall j :: j in Contents(t) ==> j < k }

  ghost predicate Above(t: Tree, k: u64) { forall j :: j in Contents(t) ==> k < j }

  ghost predicate Search(t: Tree) {
    t.Node? ==>
      Search(t.left) && Search(t.right) && Below(t.left, t.frame.seqno) && Above(t.right, t.frame.seqno)
  }

  /** Attach a node where the lookup fell off the tree. */
  function Link(t: Tree, f: R.Frame): Tree {
    match t
    case Leaf => Node(Leaf, f, Leaf)
    case Node(l, g, r) =>
      if f.seqno < g.seqno then Node(Link(l, f), g, r) else Node(l, g, Link(r, f))
  }

  lemma UpdateLeft(l: R.Pending, r: R.Pending, g: R.Frame, k: u64, p: Payload)
    requires k !in r && k != g.seqno
    ensures (l[k := p] + r)[g.seqno := g.payload] == (l + r)[g.seqno := g.payload][k := p]
  {
  }

  lemma UpdateRight(l: R.Pending, r: R.Pending, g: R.Frame, k: u64, p: Payload)
    requires k != g.seqno
    ensures (l + r[k := p])[g.seqno := g.payload] == (l + r)[g.seqno := g.payload][k := p]
  {
  }

  lemma {:induction false} LinkInserts(t: Tree, f: R.Frame)
    requires Search(t) && f.seqno !in Contents(t)
    ensures Search(Link(t, f)) && Contents(Link(t, f)) == Contents(t)[f.seqno := f.payload]
  {
    if t.Node? {
      if f.seqno < t.frame.seqno {
        LinkInserts(t.left, f);
        UpdateLeft(Contents(t.left), Contents(t.right), t.frame, f.seqno, f.payload);
      } else {
        LinkInserts(t.right, f);
        UpdateRight(Contents(t.left), Contents(t.right), t.frame, f.seqno, f.payload);
      }
    }
  }

  function First(t: Tree): R.Frame
    requires t.Node?
  {
    if t.left.Leaf? then t.frame else First(t.left)
  }

  function EraseFirst(t: Tree): Tree
    requires t.Node?
  {
    if t.left.Leaf? then t.right else Node(EraseFirst(t.left), t.frame, t.right)
  }

  lemma {:induction false} FirstIsLeast(t: Tree)
    requires Search(t) && t.Node?
    ensures First(t).seqno in Contents(t) && Contents(t)[First(t).seqno] == First(t).payload
    ensures forall k :: k in Contents(t) ==> First(t).seqno <= k
  {
    if t.left.Node? {
      FirstIsLeast(t.left);
      assert First(t).seqno !in Contents(t.right);
    }
  }

  lemma RemoveLeft(l: R.Pending, r: R.Pending, g: R.Frame, k: u64)
    requires k !in r && k != g.seqno
    ensures ((l - {k}) + r)[g.seqno := g.payload] == (l + r)[g.seqno := g.payload] - {k}
  {
  }

  lemma {:induction false} EraseFirstRemoves(t: Tree)
    requires Search(t) && t.Node?
    ensures Search(EraseFirst(t)) && Contents(EraseFirst(t)) == Contents(t) - {First(t).seqno}
  {
    if t.left.Node? {
      EraseFirstRemoves(t.left);
      FirstIsLeast(t.left);
      RemoveLeft(Contents(t.left), Contents(t.right), t.frame, First(t).seqno);
    } else {
      assert t.frame.seqno !in Contents(t.right);
    }
  }

  class TreeBuffer {
    var pending: Tree
    var drained: seq<R.Frame>
    var nextExpected: u64
    var pendingCount: nat
    var drainCount: nat
    var maxBuffered: nat

    ghost predicate Valid()
      reads this
    {
      && Search(pending)
      && pendingCount == |Contents(pending)|
      && drainCount == |drained|
    }

    ghost function Value(): R.Buffer
      reads this
    {
      R.Buffer(Contents(pending), drained, nextExpected, maxBuffered)
    }

    constructor (initial: u64, max: nat)
      ensures Valid() && Value() == R.Buffer(map[], [], initial, max)
    {
      pending, drained, nextExpected := Leaf, [], initial;
      pendingCount, drainCount, maxBuffered := 0, 0, max;
    }

    /** urp_reorder_alloc refuses a zero cap, and fails without memory. */
    static method Alloc(initial: u64, max: nat, memory: bool) returns (b: TreeBuffer?)
      ensures b == null <==> max == 0 || !memory
      ensures b != null ==> fresh(b) && b.Valid() && b.Value() == R.Buffer(map[], [], initial, max)
    {
      if max == 0 || !memory { return null; }
      b := new TreeBuffer(initial, max);
    }

    /** Walk down from the root until the key or an empty link is met. */
    method Lookup(seqno: u64) returns (found: bool)
      requires Valid()
      ensures found <==> seqno in Contents(pending)
    {
      var link := pending;
      while link.Node?
        invariant Search(link)
        invariant seqno in Contents(pending) <==> seqno in Contents(link)
        decreases link
      {
        if seqno < link.frame.seqno {
          link := link.left;
        } else if seqno > link.frame.seqno {
          link := link.right;
        } else {
          return true;
        }
      }
      found := false;
    }

    /** rb_first: follow left links. */
    static method LeftMost(t: Tree) returns (f: R.Frame)
      requires t.Node?
      ensures f == First(t)
    {
      var node := t;
      while node.left.Node?
        invariant node.Node? && First(node) == First(t)
        decreases node
      {
        node := node.left;
      }
      f := node.frame;
    }

    /** Queue the least frame if it is the expected one and memory for it is available. */
    method MoveFirst(memory: bool) returns (moved: bool)
      requires Valid() && pending.Node?
      modifies this
      ensures Valid()
      ensures moved == (memory && R.Ready(old(Contents(pending)), old(nextExpected)))
      ensures Value() == if moved then R.Moved(old(Value())) else old(Value())
      ensures moved ==> pendingCount < old(pendingCount)
    {
      var first := LeftMost(pending);
      FirstIsLeast(pending);
      if first.seqno != nextExpected || !memory {
        return false;
      }
      EraseFirstRemoves(pending);
      R.RemoveSize(Contents(pending), first.seqno);
      drained := drained + [first];
      drainCount := drainCount + 1;
      pending := EraseFirst(pending);
      pendingCount := pendingCount - 1;
      if nextExpected != U64_MAX {
        nextExpected := nextExpected + 1;
      }
      moved := true;
    }

    /** Move the contiguous prefix to the drained list until a gap or a failed allocation. */
    method DrainPrefix(alloc: R.Alloc)
      requires Valid()
      modifies this
      ensures Valid() && Value() == R.Drain(old(Value()), alloc)
    {
      var left := alloc;
      while pending.Node?
        invariant Valid()
        invariant R.Drain(old(Value()), alloc) == R.Drain(Value(), left)
        decreases pendingCount
      {
        R.DrainStep(Value(), left);
        var moved := MoveFirst(R.HasMemory(left));
        if !moved {
          return;
        }
        left := R.Spend(left);
      }
      R.DrainStep(Value(), left);
    }

    /** Link a new node where the lookup fell off the tree and count it. */
    method LinkNode(seqno: u64, payload: Payload)
      requires Valid() && seqno !in Contents(pending)
      modifies this`pending, this`pendingCount
      ensures Valid() && Contents(pending) == old(Contents(pending))[seqno := payload]
    {
      var f := R.Frame(seqno, payload);
      var tree := Link(pending, f);
      LinkInserts(pending, f);
      R.AddSize(Contents(pending), seqno, payload);
      assert |Contents(tree)| == pendingCount + 1;
      pending, pendingCount := tree, pendingCount + 1;
    }

    method Insert(seqno: u64, payload: Payload, alloc: R.Alloc) returns (code: R.Code)
      requires Valid()
      modifies this
      ensures Valid()
      ensures Value() == R.Insert(old(Value()), seqno, payload, alloc).0
      ensures code == R.Insert(old(Value()), seqno, payload, alloc).1
    {
      if seqno < nextExpected {
        return R.Exist;
      }
      var found := Lookup(seqno);
      if found {
        return R.Exist;
      }
      if pendingCount >= maxBuffered && seqno != nextExpected {
        return R.NoBufs;
      }
      if alloc.Scarce? && !alloc.nodeOk {
        return R.NoMem;
      }
      LinkNode(seqno, payload);
      DrainPrefix(alloc);
      code := R.Ok;
    }

    method Advance(alloc: R.Alloc)
      requires Valid()
      modifies this
      ensures Valid() && Value() == R.Advance(old(Value()), alloc)
    {
      ghost var b0 := Value();
      if nextExpected != U64_MAX {
        nextExpected := nextExpected + 1;
      }
      assert Value() == b0.(next := R.Bump(b0.next));
      DrainPrefix(alloc);
    }

    /** Pop the oldest drained frame into a buffer of `cap` bytes; report the length it needs. */
    method DrainNext(cap: nat) returns (code: R.Code, frame: R.Frame, len: nat)
      requires Valid()
      modifies this`drained, this`drainCount
      ensures Valid()
      ensures drained == R.DrainNext(old(Value()), cap).0.drained
      ensures code == R.DrainNext(old(Value()), cap).1
      ensures code == R.Ok ==> frame == old(drained)[0]
      ensures old(drained) != [] ==> len == |old(drained)[0].payload|
    {
      if drained == [] {
        return R.NoEnt, R.Frame(0, []), cap;
      }
      frame, len := drained[0], |drained[0].payload|;
      if cap < len {
        return R.NoBufs, frame, len;
      }
      drained := drained[1..];
      drainCount := drainCount - 1;
      code := R.Ok;
    }

    method GapCount() returns (n: nat)
      requires Valid()
      ensures n == |Value().pending|
    {
      n := pendingCount;
    }
  }
}
