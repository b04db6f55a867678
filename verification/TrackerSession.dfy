/** A benchmark session over the tracker: originals are numbered by a 64-bit counter cut to 32 bits and sent in
    order, a busy slot makes the sender back off, and echoes come in any order. */
module TrackerSession {
  import opened Base
  import opened T = Tracker

  /** How many originals to queue: the free window and what remains bound it, and one of the two is used up. */
  function BatchPlan(window: u32, inflight: u32, remaining: u64): (n: u32)
    ensures n <= remaining && (n > 0 ==> inflight + n <= window)
    ensures n == remaining || inflight + n >= window
  {
    if inflight >= window then 0 else if remaining < window - inflight then remaining else window - inflight
  }

  datatype Session = Session(tracker: State, next: nat)

  datatype Move = Try(t: u64) | Got(n: u32, now: u64)

  function Cut(i: nat): u32 { i % U32_MODULUS }

  function Play(x: Session, m: Move): (r: Session)
    requires x.tracker.slots != []
    ensures |r.tracker.slots| == |x.tracker.slots|
  {
    match m
    case Try(t) => var (s, ok) := Sent(x.tracker, Cut(x.next), t); Session(s, if ok then x.next + 1 else x.next)
    case Got(n, now) => x.(tracker := Echo(x.tracker, n, now).0)
  }

  function PlayAll(x: Session, moves: seq<Move>): (r: Session)
    requires x.tracker.slots != []
    ensures |r.tracker.slots| == |x.tracker.slots|
    decreases |moves|
  {
    if moves == [] then x else PlayAll(Play(x, moves[0]), moves[1..])
  }

  function Start(window: u32): Session { Session(Init(window), 0) }

  /** A number sent as the i-th original is outstanding. */
  ghost predicate Pending(s: State, i: int)
    requires Inv(s)
  {
    0 <= i && Cut(i) in Outstanding(s.slots)
  }

  ghost predicate Recent(k: u32, next: nat, w: nat) { exists i: nat :: next - w <= i < next && k == Cut(i) }

  /** Everything outstanding is among the last `window` originals. */
  ghost predicate AllRecent(x: Session) {
    Inv(x.tracker) && forall k :: k in Outstanding(x.tracker.slots) ==> Recent(k, x.next, |x.tracker.slots|)
  }

  predicate Refused(x: Session)
    requires x.tracker.slots != []
  {
    x.tracker.slots[Cut(x.next) % |x.tracker.slots|].busy
  }

  // ---- arithmetic of slots ----

  lemma DivUnique(x: int, w: nat, q: int, r: nat)
    requires r < w && x == q * w + r
    ensures x % w == r
  {
    if x / w < q {
      MulStep(q - 1 - x / w, w);
    } else if x / w > q {
      MulStep(x / w - 1 - q, w);
    }
    assert x == x / w * w + x % w;
  }

  lemma MulStep(d: int, w: nat)
    requires d >= 0
    ensures d * w >= 0 && (d + 1) * w == d * w + w
  {
  }

  lemma ModShift(y: nat, w: nat, c: int)
    requires w > 0
    ensures (c * w + y) % w == y % w
  {
    assert c * w + y / w * w == (c + y / w) * w;
    DivUnique(c * w + y, w, c + y / w, y % w);
  }

  /** Cutting to 32 bits moves no number to another slot when the window divides 2^32. */
  lemma CutKeepsSlot(i: nat, w: nat)
    requires w > 0 && U32_MODULUS % w == 0
    ensures Cut(i) % w == i % w
  {
    var a, q := i / U32_MODULUS, U32_MODULUS / w;
    assert U32_MODULUS == q * w;
    assert a * U32_MODULUS == a * q * w by { assert a * (q * w) == a * q * w; }
    ModShift(Cut(i), w, a * q);
  }

  /** Within `w` of each other, only equal numbers share a slot; exactly `w` apart, they always do. */
  lemma SameSlot(i: nat, n: nat, w: nat)
    requires w > 0 && n - w <= i < n
    ensures i % w == n % w <==> i == n - w
  {
    if i == n - w {
      ModShift(i, w, 1);
    } else if i % w == n % w {
      var d := n / w - i / w;
      assert n - i == d * w by { assert n / w * w - i / w * w == d * w; }
      if d >= 1 { MulStep(d - 1, w); } else { MulStep(-d, w); }
    }
  }

  /** Refusal means that some outstanding number sits in the slot. */
  lemma RefusalHasHolder(x: Session)
    requires Inv(x.tracker)
    ensures Refused(x) <==>
              exists k :: k in Outstanding(x.tracker.slots) && k % |x.tracker.slots| == Cut(x.next) % |x.tracker.slots|
    ensures forall t :: Sent(x.tracker, Cut(x.next), t).1 <==> !Refused(x)
  {
    SlotFree(x.tracker.slots, Cut(x.next) % |x.tracker.slots|);
  }

  // ---- a window that divides 2^32 ----

  /** The sender backs off exactly when the original sent `window` ago is still out. */
  lemma BackoffMeans(x: Session)
    requires AllRecent(x) && U32_MODULUS % |x.tracker.slots| == 0
    ensures Refused(x) <==> Pending(x.tracker, x.next - |x.tracker.slots|)
  {
    var w, n, out := |x.tracker.slots|, x.next, Outstanding(x.tracker.slots);
    RefusalHasHolder(x);
    CutKeepsSlot(n, w);
    if Refused(x) {
      var k :| k in out && k % w == Cut(n) % w;
      var i: nat :| n - w <= i < n && k == Cut(i);
      CutKeepsSlot(i, w);
      SameSlot(i, n, w);
    }
    if Pending(x.tracker, n - w) {
      CutKeepsSlot(n - w, w);
      SameSlot(n - w, n, w);
    }
  }

  /** One send later a recent number is still recent, unless it was the oldest; the number just sent is recent. */
  lemma RecentShift(k: u32, n: nat, w: nat)
    requires w > 0 && (k == Cut(n) || (Recent(k, n, w) && (n >= w ==> k != Cut(n - w))))
    ensures Recent(k, n + 1, w)
  {
    if k == Cut(n) {
      assert n + 1 - w <= n < n + 1;
    } else {
      var i: nat :| n - w <= i < n && k == Cut(i);
      assert i != n - w;
      assert n + 1 - w <= i < n + 1;
    }
  }

  lemma TryKeepsRecent(x: Session, t: u64)
    requires AllRecent(x) && U32_MODULUS % |x.tracker.slots| == 0
    ensures AllRecent(Play(x, Try(t)))
  {
    var w, n, out, y := |x.tracker.slots|, x.next, Outstanding(x.tracker.slots), Play(x, Try(t));
    assert Inv(y.tracker)
      && (y == x || (y.next == n + 1 && !Refused(x) && Outstanding(y.tracker.slots) == out[Cut(n) := t])) by {
      SentMeans(x.tracker, Cut(n), t);
      RefusalHasHolder(x);
    }
    if y != x {
      assert n >= w ==> Cut(n - w) !in out by { BackoffMeans(x); }
      forall k | k in Outstanding(y.tracker.slots) ensures Recent(k, n + 1, w) { RecentShift(k, n, w); }
    }
  }

  lemma {:induction false} SessionRecent(x: Session, moves: seq<Move>)
    requires AllRecent(x) && U32_MODULUS % |x.tracker.slots| == 0
    ensures AllRecent(PlayAll(x, moves))
    decreases |moves|
  {
    if moves != [] {
      match moves[0] {
        case Try(t) => TryKeepsRecent(x, t);
        case Got(n, now) => EchoMeans(x.tracker, n, now);
      }
      SessionRecent(Play(x, moves[0]), moves[1..]);
    }
  }

  // ---- any other window ----

  /** Exactly the originals from `base` on are outstanding, none of them past the wrap. */
  ghost predicate Row(x: Session, base: nat) {
    && Inv(x.tracker) && base <= x.next <= U32_MODULUS
    && forall j :: j in Outstanding(x.tracker.slots) <==> base <= j < x.next
  }

  lemma RowFree(x: Session, base: nat)
    requires Row(x, base) && x.next < U32_MODULUS && x.next - base < |x.tracker.slots|
    ensures !Refused(x)
  {
    var w, out := |x.tracker.slots|, Outstanding(x.tracker.slots);
    assert Cut(x.next) == x.next;
    forall k | k in out ensures k % w != x.next % w { SameSlot(k, x.next, w); }
    SlotFree(x.tracker.slots, x.next % w);
  }

  lemma RowTry(x: Session, base: nat)
    requires Row(x, base) && x.next < U32_MODULUS && x.next - base < |x.tracker.slots|
    ensures Row(Play(x, Try(1)), base) && Play(x, Try(1)).next == x.next + 1
  {
    RowFree(x, base);
    assert Cut(x.next) == x.next;
    SentMeans(x.tracker, x.next, 1);
    var out, was := Outstanding(Play(x, Try(1)).tracker.slots), Outstanding(x.tracker.slots);
    assert out == was[x.next := 1];
    forall j ensures j in out <==> base <= j < x.next + 1 {
      assert j in was <==> base <= j < x.next;
    }
  }

  lemma RowGot(x: Session, base: nat)
    requires Row(x, base) && base < x.next
    ensures Row(Play(x, Got(base, 1)), base + 1) && Play(x, Got(base, 1)).next == x.next
  {
    EchoMeans(x.tracker, base, 1);
  }

  /** `k` more originals are accepted while they fit the window. */
  lemma {:induction false} SendRow(x: Session, base: nat, k: nat) returns (moves: seq<Move>)
    requires Row(x, base) && x.next + k <= U32_MODULUS && x.next + k - base <= |x.tracker.slots|
    ensures Row(PlayAll(x, moves), base) && PlayAll(x, moves).next == x.next + k
    decreases k
  {
    moves := [];
    if k > 0 {
      RowTry(x, base);
      var more := SendRow(Play(x, Try(1)), base, k - 1);
      moves := [Try(1)] + more;
      assert moves[1..] == more;
    }
  }

  /** The session that sends its next `n` originals one at a time, each after the echo of the one before. */
  lemma {:induction false} OneByOne(x: Session, n: nat) returns (moves: seq<Move>)
    requires Row(x, x.next) && x.next + n <= U32_MODULUS
    ensures Row(PlayAll(x, moves), x.next + n) && PlayAll(x, moves).next == x.next + n
    decreases n
  {
    moves := [];
    if n > 0 {
      RowTry(x, x.next);
      var y := Play(x, Try(1));
      RowGot(y, x.next);
      var z := Play(y, Got(x.next, 1));
      var more := OneByOne(z, n - 1);
      moves := [Try(1)] + ([Got(x.next, 1)] + more);
      assert moves[1..] == [Got(x.next, 1)] + more && moves[1..][1..] == more;
      assert PlayAll(x, moves) == PlayAll(y, moves[1..]) == PlayAll(z, more);
    }
  }

  lemma {:induction false} PlayConcat(x: Session, a: seq<Move>, b: seq<Move>)
    requires x.tracker.slots != []
    ensures PlayAll(x, a + b) == PlayAll(PlayAll(x, a), b)
    decreases |a|
  {
    if a == [] {
      assert a + b == b;
    } else {
      PlayConcat(Play(x, a[0]), a[1..], b);
      assert (a + b)[1..] == a[1..] + b;
    }
  }

  /** What the sender's back-off is said to mean, at the end of a session. */
  ghost predicate BackoffIsOldest(w: u32, moves: seq<Move>)
    requires w > 0
  {
    var x := PlayAll(Start(w), moves);
    Inv(x.tracker) && (Refused(x) ==> Pending(x.tracker, x.next - w))
  }

  /** A session in send order up to the wrap, with everything since the last multiple of the window outstanding. */
  lemma UpToWrap(w: u32) returns (moves: seq<Move>)
    requires w > 0 && U32_MODULUS % w != 0
    ensures var x := PlayAll(Start(w), moves);
            |x.tracker.slots| == w && Row(x, U32_MODULUS - U32_MODULUS % w) && x.next == U32_MODULUS
  {
    var r := U32_MODULUS % w;
    InitInv(w);
    var first := OneByOne(Start(w), U32_MODULUS - r);
    var y := PlayAll(Start(w), first);
    var row := SendRow(y, U32_MODULUS - r, r);
    moves := first + row;
    PlayConcat(Start(w), first, row);
  }

  /** At the wrap, original 2^32 meets one that was sent fewer than `window` ago. */
  lemma WrapCollides(w: u32) returns (moves: seq<Move>)
    requires w > 0 && U32_MODULUS % w != 0
    ensures !BackoffIsOldest(w, moves)
  {
    moves := UpToWrap(w);
    WrapRow(PlayAll(Start(w), moves), U32_MODULUS % w);
  }

  /** The last multiple of the window below 2^32 shares slot 0 with the wrapped number 0. */
  lemma WrapSlot(w: nat)
    requires 0 < w
    ensures (U32_MODULUS - U32_MODULUS % w) % w == 0
  {
    DivUnique(U32_MODULUS - U32_MODULUS % w, w, U32_MODULUS / w, 0);
  }

  lemma HolderRefuses(x: Session, k: u32)
    requires Inv(x.tracker) && k in Outstanding(x.tracker.slots)
    requires k % |x.tracker.slots| == Cut(x.next) % |x.tracker.slots|
    ensures Refused(x)
  {
    OutstandingHas(x.tracker.slots, k);
  }

  lemma WrapRow(x: Session, r: nat)
    requires x.tracker.slots != [] && r == U32_MODULUS % |x.tracker.slots| != 0 && |x.tracker.slots| < U32_MODULUS
    requires Row(x, U32_MODULUS - r) && x.next == U32_MODULUS
    ensures Refused(x) && !Pending(x.tracker, x.next - |x.tracker.slots|)
  {
    var w, k := |x.tracker.slots|, U32_MODULUS - r;
    assert r < w;
    WrapSlot(w);
    DivUnique(Cut(x.next), w, 0, 0);
    HolderRefuses(x, k);
    assert Cut(x.next - w) == U32_MODULUS - w < k;
  }

  /** In every session a refused send means the original sent `window` ago is still out, if and only if
      the window divides 2^32. */
  lemma BackoffExact(w: u32)
    requires w > 0
    ensures (forall moves :: BackoffIsOldest(w, moves)) <==> U32_MODULUS % w == 0
  {
    if U32_MODULUS % w == 0 {
      forall moves ensures BackoffIsOldest(w, moves) {
        InitInv(w);
        SessionRecent(Start(w), moves);
        BackoffMeans(PlayAll(Start(w), moves));
      }
    } else {
      var moves := WrapCollides(w);
    }
  }
}
