/** What deframing means: a parser of whole byte streams, the effect of feeding one chunk to a
    deframer that holds some staged bytes, and how the two relate over every cutting of a stream.
    The header decoder is a parameter here; DeframeLaws supplies the benchmark's. */
module Deframe {
  import opened Base
  import W = BenchWire

  type Reader = seq<byte> -> W.Decoded

  /** A reader looks at the first 24 bytes only. */
  ghost predicate Local(read: Reader) {
    forall a, b :: |a| >= W.HDR_SIZE ==> read(a + b) == read(a)
  }

  /** A reader accepts no payload above the capacity. */
  ghost predicate Fits(read: Reader, cap: nat) {
    forall s :: read(s).Good? ==> read(s).hdr.payloadLen <= cap
  }

  datatype Msg = Msg(hdr: W.Hdr, payload: seq<byte>)

  datatype End = More(rest: seq<byte>) | Failed(error: W.DecodeError)

  datatype Parsed = Parsed(msgs: seq<Msg>, end: End)

  function Cons(m: Msg, p: Parsed): Parsed { Parsed([m] + p.msgs, p.end) }

  function Prepend(ms: seq<Msg>, p: Parsed): Parsed { Parsed(ms + p.msgs, p.end) }

  function Size(m: Msg): nat { W.HDR_SIZE + |m.payload| }

  function Total(ms: seq<Msg>): nat { if ms == [] then 0 else Size(ms[0]) + Total(ms[1..]) }

  /** Enough bytes for the header and the payload it announces. */
  predicate Complete(s: seq<byte>, h: W.Hdr) { |s| >= W.HDR_SIZE + h.payloadLen }

  function MsgAt(s: seq<byte>, h: W.Hdr): Msg
    requires Complete(s, h)
  {
    Msg(h, s[W.HDR_SIZE..W.HDR_SIZE + h.payloadLen])
  }

  function Beyond(s: seq<byte>, h: W.Hdr): (rest: seq<byte>)
    requires Complete(s, h)
    ensures |rest| < |s|
  {
    s[W.HDR_SIZE + h.payloadLen..]
  }

  /** The reference: take messages off the front of the whole stream until an error or a shortage. */
  function Parse(s: seq<byte>, read: Reader): Parsed
    decreases |s|
  {
    if |s| < W.HDR_SIZE then Parsed([], More(s))
    else match read(s)
      case Bad(e) => Parsed([], Failed(e))
      case Good(h) => if Complete(s, h) then Cons(MsgAt(s, h), Parse(Beyond(s, h), read)) else Parsed([], More(s))
  }

  /** One chunk fed to a deframer that has `staged` bytes waiting. Only a message that begins and ends
      inside the chunk is delivered in place; any other must fit the assembly buffer. */
  function Feed(staged: seq<byte>, chunk: seq<byte>, read: Reader, asmCap: nat): Parsed
    decreases |staged| + |chunk|
  {
    var s := staged + chunk;
    if |s| < W.HDR_SIZE then Parsed([], More(s))
    else match read(s)
      case Bad(e) => Parsed([], Failed(e))
      case Good(h) =>
        if (staged != [] || !Complete(s, h)) && h.payloadLen > asmCap then Parsed([], Failed(W.OverCap))
        else if Complete(s, h) then Cons(MsgAt(s, h), Feed([], Beyond(s, h), read, asmCap))
        else Parsed([], More(s))
  }

  /** What the feed leaves staged: the leftover, or a refused header if it had been copied aside before it was looked
      at. A header that does not decode is refused in place when the chunk holds all of it. */
  function Kept(staged: seq<byte>, chunk: seq<byte>, read: Reader, asmCap: nat): seq<byte>
    decreases |staged| + |chunk|
  {
    var s := staged + chunk;
    if |s| < W.HDR_SIZE then s
    else match read(s)
      case Bad(_) => if staged == [] then [] else s[..W.HDR_SIZE]
      case Good(h) =>
        if (staged != [] || !Complete(s, h)) && h.payloadLen > asmCap then s[..W.HDR_SIZE]
        else if Complete(s, h) then Kept([], Beyond(s, h), read, asmCap)
        else s
  }

  /** A staged header that is refused whenever it is looked at. */
  ghost predicate Refuses(hdr: seq<byte>, read: Reader, asmCap: nat, e: W.DecodeError) {
    && |hdr| == W.HDR_SIZE
    && match read(hdr)
       case Bad(x) => e == x
       case Good(h) => h.payloadLen > asmCap && e == W.OverCap
  }

  /** Of the messages one feed delivers, only the first can have begun in an earlier chunk. */
  function Spanned(staged: seq<byte>, msgs: seq<Msg>): nat { if staged != [] && msgs != [] then 1 else 0 }

  /** Chunk after chunk, stopping at the first error. */
  function Run(staged: seq<byte>, chunks: seq<seq<byte>>, read: Reader, asmCap: nat): Parsed
    decreases |chunks|
  {
    if chunks == [] then Parsed([], More(staged))
    else
      var p := Feed(staged, chunks[0], read, asmCap);
      if p.end.Failed? then p else Prepend(p.msgs, Run(p.end.rest, chunks[1..], read, asmCap))
  }

  /** msgs_reassembled after such a run. */
  function RunSpanned(staged: seq<byte>, chunks: seq<seq<byte>>, read: Reader, asmCap: nat): nat
    decreases |chunks|
  {
    if chunks == [] then 0
    else
      var p := Feed(staged, chunks[0], read, asmCap);
      Spanned(staged, p.msgs) + if p.end.Failed? then 0 else RunSpanned(p.end.rest, chunks[1..], read, asmCap)
  }

  /** Staged bytes never hold a whole message. */
  ghost predicate Partial(s: seq<byte>, read: Reader) { Parse(s, read) == Parsed([], More(s)) }

  /** What is left over is partial, and the messages and the leftover account for every byte. */
  lemma {:induction false} ParseAccounts(s: seq<byte>, read: Reader)
    ensures var p := Parse(s, read);
            p.end.More? ==> Partial(p.end.rest, read) && |s| == Total(p.msgs) + |p.end.rest|
    ensures Total(Parse(s, read).msgs) <= |s|
    decreases |s|
  {
    if |s| >= W.HDR_SIZE {
      var d := read(s);
      if d.Good? && Complete(s, d.hdr) {
        ParseAccounts(Beyond(s, d.hdr), read);
      }
    }
  }

  /** What a stream parses to once `b` follows the bytes that parsed to `p`. */
  function Extend(p: Parsed, b: seq<byte>, read: Reader): Parsed {
    if p.end.Failed? then p else Prepend(p.msgs, Parse(p.end.rest + b, read))
  }

  /** More bytes never change what was already parsed. */
  lemma {:induction false} ParseConcat(a: seq<byte>, b: seq<byte>, read: Reader)
    requires Local(read)
    ensures Parse(a + b, read) == Extend(Parse(a, read), b, read)
    decreases |a|
  {
    if |a| >= W.HDR_SIZE {
      assert read(a + b) == read(a);
      var d := read(a);
      if d.Good? && Complete(a, d.hdr) {
        ParseConcat(Beyond(a, d.hdr), b, read);
        var q := Parse(Beyond(a, d.hdr), read);
        assert Beyond(a + b, d.hdr) == Beyond(a, d.hdr) + b;
        assert MsgAt(a + b, d.hdr) == MsgAt(a, d.hdr);
        if q.end.More? {
          ConsPrepend(MsgAt(a, d.hdr), q.msgs, Parse(q.end.rest + b, read));
        }
      }
    }
  }

  lemma ConsPrepend(m: Msg, ms: seq<Msg>, p: Parsed)
    ensures Cons(m, Prepend(ms, p)) == Prepend([m] + ms, p)
  {
  }

  /** With an assembly buffer as large as any acceptable payload, one feed is one parse. */
  lemma {:induction false} FeedIsParse(staged: seq<byte>, chunk: seq<byte>, read: Reader, asmCap: nat)
    requires Fits(read, asmCap)
    ensures Feed(staged, chunk, read, asmCap) == Parse(staged + chunk, read)
    decreases |staged| + |chunk|
  {
    var s := staged + chunk;
    if |s| >= W.HDR_SIZE {
      var d := read(s);
      if d.Good? && Complete(s, d.hdr) {
        FeedIsParse([], Beyond(s, d.hdr), read, asmCap);
        assert [] + Beyond(s, d.hdr) == Beyond(s, d.hdr);
      }
    }
  }

  /** Every cutting of a stream parses like the stream. */
  lemma {:induction false} RunIsParse(staged: seq<byte>, chunks: seq<seq<byte>>, read: Reader, asmCap: nat)
    requires Local(read) && Fits(read, asmCap) && Partial(staged, read)
    ensures Run(staged, chunks, read, asmCap) == Parse(staged + Flatten(chunks), read)
    decreases |chunks|
  {
    if chunks == [] {
      assert staged + Flatten(chunks) == staged;
    } else {
      var a, b := staged + chunks[0], Flatten(chunks[1..]);
      FeedIsParse(staged, chunks[0], read, asmCap);
      ParseConcat(a, b, read);
      assert staged + Flatten(chunks) == a + b;
      ParseAccounts(a, read);
      var p := Parse(a, read);
      if p.end.More? {
        RunIsParse(p.end.rest, chunks[1..], read, asmCap);
      }
    }
  }

  // ---- after an error ----

  /** What is kept is the leftover, or after an error nothing or the refused header. */
  lemma {:induction false} KeptMeans(staged: seq<byte>, chunk: seq<byte>, read: Reader, asmCap: nat)
    requires Local(read)
    ensures var p, k := Feed(staged, chunk, read, asmCap), Kept(staged, chunk, read, asmCap);
            match p.end case More(rest) => k == rest case Failed(e) => k == [] || Refuses(k, read, asmCap, e)
    decreases |staged| + |chunk|
  {
    var s := staged + chunk;
    if |s| >= W.HDR_SIZE {
      assert s == s[..W.HDR_SIZE] + s[W.HDR_SIZE..];
      assert read(s) == read(s[..W.HDR_SIZE]);
      if read(s).Good? && Complete(s, read(s).hdr) { KeptMeans([], Beyond(s, read(s).hdr), read, asmCap); }
    }
  }

  /** A refused header stays, and is refused again, whatever follows. */
  lemma RefusedAgain(hdr: seq<byte>, chunk: seq<byte>, read: Reader, asmCap: nat, e: W.DecodeError)
    requires Local(read) && Refuses(hdr, read, asmCap, e)
    ensures Feed(hdr, chunk, read, asmCap) == Parsed([], Failed(e)) && Kept(hdr, chunk, read, asmCap) == hdr
  {
    assert read(hdr + chunk) == read(hdr) && (hdr + chunk)[..W.HDR_SIZE] == hdr;
  }

  /** Every later chunk fails the same way and delivers nothing. */
  ghost predicate Poisons(staged: seq<byte>, read: Reader, asmCap: nat, e: W.DecodeError) {
    forall x :: x != [] ==> Feed(staged, x, read, asmCap) == Parsed([], Failed(e))
  }

  /** An error poisons the stream exactly when the refused header was kept. */
  lemma PoisonExact(staged: seq<byte>, chunk: seq<byte>, read: Reader, asmCap: nat, e: W.DecodeError)
    requires Local(read) && Feed(staged, chunk, read, asmCap).end == Failed(e)
    ensures Poisons(Kept(staged, chunk, read, asmCap), read, asmCap, e) <==> Kept(staged, chunk, read, asmCap) != []
  {
    var k := Kept(staged, chunk, read, asmCap);
    KeptMeans(staged, chunk, read, asmCap);
    if k != [] {
      forall x | x != [] ensures Feed(k, x, read, asmCap) == Parsed([], Failed(e)) { RefusedAgain(k, x, read, asmCap, e); }
    } else {
      var one: seq<byte> := [0];
      assert k + one == one;
      assert Feed(k, one, read, asmCap).end.More?;
      assert !Poisons(k, read, asmCap, e);
    }
  }

  /** It was not kept exactly when it does not decode and lies wholly in the chunk: nothing was staged, or the staged
      bytes went into a delivered message. */
  lemma {:induction false} ForgottenExact(staged: seq<byte>, chunk: seq<byte>, read: Reader, asmCap: nat)
    requires Feed(staged, chunk, read, asmCap).end.Failed?
    ensures var ms := Feed(staged, chunk, read, asmCap).msgs;
            && Total(ms) <= |staged + chunk|
            && (Kept(staged, chunk, read, asmCap) == [] <==>
                  (staged == [] || ms != []) && read((staged + chunk)[Total(ms)..]).Bad?)
    decreases |staged| + |chunk|
  {
    var s := staged + chunk;
    assert s[0..] == s;
    if read(s).Good? && Complete(s, read(s).hdr) && !(staged != [] && read(s).hdr.payloadLen > asmCap) {
      var h := read(s).hdr;
      var p := Feed([], Beyond(s, h), read, asmCap);
      ForgottenExact([], Beyond(s, h), read, asmCap);
      assert [] + Beyond(s, h) == Beyond(s, h);
      assert ([MsgAt(s, h)] + p.msgs)[1..] == p.msgs;
      assert Beyond(s, h)[Total(p.msgs)..] == s[Size(MsgAt(s, h)) + Total(p.msgs)..];
    }
  }

  // ---- printing ----

  function Bytes(m: Msg): seq<byte> { W.Encode(m.hdr) + m.payload }

  function Print(ms: seq<Msg>): seq<byte> {
    if ms == [] then [] else Bytes(ms[0]) + Print(ms[1..])
  }

  /** A message the reader recognises by its encoded header. */
  ghost predicate Readable(m: Msg, read: Reader) {
    |m.payload| == m.hdr.payloadLen && read(W.Encode(m.hdr)) == W.Good(m.hdr)
  }

  lemma ParseFront(m: Msg, rest: seq<byte>, read: Reader)
    requires Local(read) && Readable(m, read)
    ensures Parse(Bytes(m) + rest, read) == Cons(m, Parse(rest, read))
  {
  }

  /** Parsing undoes printing, whatever follows. */
  lemma {:induction false} ParsePrint(ms: seq<Msg>, tail: seq<byte>, read: Reader)
    requires Local(read) && forall m :: m in ms ==> Readable(m, read)
    ensures Parse(Print(ms) + tail, read) == Prepend(ms, Parse(tail, read))
  {
    if ms == [] {
      assert Print(ms) + tail == tail;
    } else {
      var m, rest := ms[0], Print(ms[1..]) + tail;
      assert Print(ms) + tail == Bytes(m) + rest;
      ParseFront(m, rest, read);
      ParsePrint(ms[1..], tail, read);
      assert Cons(m, Prepend(ms[1..], Parse(tail, read))) == Prepend(ms, Parse(tail, read)) by {
        ConsPrepend(m, ms[1..], Parse(tail, read));
        assert [m] + ms[1..] == ms;
      }
    }
  }

  /** A reader that accepts only encodings of what it returns. */
  ghost predicate Faithful(read: Reader) {
    forall s :: read(s).Good? ==> |s| >= W.HDR_SIZE && s[..W.HDR_SIZE] == W.Encode(read(s).hdr)
  }

  lemma FrontBytes(s: seq<byte>, read: Reader, h: W.Hdr)
    requires Local(read) && Faithful(read) && read(s) == W.Good(h) && Complete(s, h)
    ensures Readable(MsgAt(s, h), read) && s == Bytes(MsgAt(s, h)) + Beyond(s, h)
  {
    var e, tail := W.Encode(h), s[W.HDR_SIZE..];
    assert s == e + tail;
    assert read(e + tail) == read(e);
    assert tail == MsgAt(s, h).payload + Beyond(s, h);
    assert s == (e + MsgAt(s, h).payload) + Beyond(s, h);
  }

  /** The messages, printed, are the front of the stream, and with the leftover all of it. */
  predicate Spells(p: Parsed, s: seq<byte>) {
    Print(p.msgs) <= s && (p.end.More? ==> Print(p.msgs) + p.end.rest == s)
  }

  lemma SpellsCons(m: Msg, q: Parsed, rest: seq<byte>)
    requires Spells(q, rest)
    ensures Spells(Cons(m, q), Bytes(m) + rest)
  {
  }

  /** And printing undoes parsing. */
  lemma {:induction false} PrintParse(s: seq<byte>, read: Reader)
    requires Local(read) && Faithful(read)
    ensures Spells(Parse(s, read), s)
    ensures forall m :: m in Parse(s, read).msgs ==> Readable(m, read)
    decreases |s|
  {
    if |s| >= W.HDR_SIZE {
      var d := read(s);
      if d.Good? && Complete(s, d.hdr) {
        var m, rest := MsgAt(s, d.hdr), Beyond(s, d.hdr);
        PrintParse(rest, read);
        FrontBytes(s, read, d.hdr);
        SpellsCons(m, Parse(rest, read), rest);
      }
    }
  }

  // ---- what counts as reassembled ----

  /** The stream positions at which the pieces begin. */
  function Cuts(at: nat, chunks: seq<seq<byte>>): set<nat>
    decreases |chunks|
  {
    if chunks == [] then {} else {at} + Cuts(at + |chunks[0]|, chunks[1..])
  }

  ghost predicate CutInside(from: nat, to: nat, cuts: set<nat>) { exists c :: c in cuts && from < c < to }

  /** How many messages, laid end to end from `pos`, have a cut strictly inside them. */
  ghost function Straddlers(ms: seq<Msg>, pos: nat, cuts: set<nat>): nat {
    if ms == [] then 0
    else (if CutInside(pos, pos + Size(ms[0]), cuts) then 1 else 0) + Straddlers(ms[1..], pos + Size(ms[0]), cuts)
  }

  lemma {:induction false} CutsFrom(at: nat, chunks: seq<seq<byte>>)
    ensures forall c :: c in Cuts(at, chunks) ==> c >= at
    decreases |chunks|
  {
    if chunks != [] { CutsFrom(at + |chunks[0]|, chunks[1..]); }
  }

  /** A cut at or before the first message is inside none. */
  lemma {:induction false} EarlyCut(ms: seq<Msg>, pos: nat, c: nat, cuts: set<nat>)
    requires c <= pos
    ensures Straddlers(ms, pos, {c} + cuts) == Straddlers(ms, pos, cuts)
  {
    if ms != [] {
      EarlyCut(ms[1..], pos + Size(ms[0]), c, cuts);
      assert CutInside(pos, pos + Size(ms[0]), {c} + cuts) <==> CutInside(pos, pos + Size(ms[0]), cuts);
    }
  }

  /** Messages that end before every cut are not straddled. */
  lemma {:induction false} LateCuts(ms: seq<Msg>, more: seq<Msg>, pos: nat, cuts: set<nat>)
    requires forall c :: c in cuts ==> c >= pos + Total(ms)
    ensures Straddlers(ms + more, pos, cuts) == Straddlers(more, pos + Total(ms), cuts)
  {
    if ms == [] {
      assert ms + more == more;
    } else {
      LateCuts(ms[1..], more, pos + Size(ms[0]), cuts);
      assert (ms + more)[1..] == ms[1..] + more && (ms + more)[0] == ms[0];
      assert !CutInside(pos, pos + Size(ms[0]), cuts);
    }
  }

  /** One chunk's messages: the first straddles iff bytes were staged, the others never. */
  lemma FeedStraddlers(staged: seq<byte>, ms: seq<Msg>, more: seq<Msg>, pos: nat, later: set<nat>)
    requires ms != [] && |staged| < Size(ms[0])
    requires forall c :: c in later ==> c >= pos + Total(ms)
    ensures Straddlers(ms + more, pos, {pos + |staged|} + later)
         == Spanned(staged, ms) + Straddlers(more, pos + Total(ms), later)
  {
    var cuts, next := {pos + |staged|} + later, pos + Size(ms[0]);
    assert (ms + more)[1..] == ms[1..] + more && (ms + more)[0] == ms[0];
    EarlyCut(ms[1..] + more, next, pos + |staged|, later);
    LateCuts(ms[1..], more, next, later);
    assert CutInside(pos, next, cuts) <==> staged != [] by {
      assert pos + |staged| in cuts;
    }
  }

  /** When a chunk completes nothing, its start adds nothing to the cut that follows it. */
  lemma IdleCut(staged: seq<byte>, chunk: seq<byte>, ms: seq<Msg>, pos: nat, later: set<nat>)
    requires ms != [] ==> |staged + chunk| < Size(ms[0]) && pos + |staged| + |chunk| in later
    ensures Straddlers(ms, pos, {pos + |staged|} + later) == Straddlers(ms, pos, later)
  {
    if ms != [] {
      var here, next := pos + |staged|, pos + Size(ms[0]);
      assert CutInside(pos, next, later) ==> CutInside(pos, next, {here} + later);
      if staged != [] {
        assert CutInside(pos, next, later);
      }
      EarlyCut(ms[1..], next, here, later);
    }
  }

  /** The messages that follow those of the first chunk. */
  function After(p: Parsed, b: seq<byte>, read: Reader): seq<Msg> {
    if p.end.Failed? then [] else Parse(p.end.rest + b, read).msgs
  }

  /** Where one chunk leaves the parser: the messages so far and to come, and where the next cuts lie. */
  ghost predicate Shape(staged: seq<byte>, chunk: seq<byte>, ms: seq<Msg>, more: seq<Msg>, pos: nat, later: set<nat>) {
    && (forall c :: c in later ==> c >= pos + Total(ms))
    && (ms != [] ==> |staged| < Size(ms[0]))
    && (ms == [] && more != [] ==> |staged + chunk| < Size(more[0]) && pos + |staged| + |chunk| in later)
  }

  lemma ShapeStraddlers(staged: seq<byte>, chunk: seq<byte>, ms: seq<Msg>, more: seq<Msg>, pos: nat, later: set<nat>,
                        all: seq<Msg>, cuts: set<nat>)
    requires Shape(staged, chunk, ms, more, pos, later) && all == ms + more && cuts == {pos + |staged|} + later
    ensures Straddlers(all, pos, cuts) == Spanned(staged, ms) + Straddlers(more, pos + Total(ms), later)
  {
    if ms == [] {
      assert ms + more == more;
      IdleCut(staged, chunk, more, pos, later);
    } else {
      FeedStraddlers(staged, ms, more, pos, later);
    }
  }

  /** Partial bytes end strictly inside the message they begin. */
  lemma PartialEndsInside(staged: seq<byte>, chunk: seq<byte>, read: Reader)
    requires Local(read) && Partial(staged, read)
    ensures var ms := Parse(staged + chunk, read).msgs; ms != [] ==> |staged| < Size(ms[0])
  {
  }

  lemma ChunkShape(staged: seq<byte>, chunks: seq<seq<byte>>, pos: nat, read: Reader)
    requires Local(read) && chunks != [] && Partial(staged, read)
    ensures var p := Parse(staged + chunks[0], read);
            Shape(staged, chunks[0], p.msgs, After(p, Flatten(chunks[1..]), read), pos,
                  Cuts(pos + |staged| + |chunks[0]|, chunks[1..]))
  {
    var a := staged + chunks[0];
    var p := Parse(a, read);
    ParseAccounts(a, read);
    CutsFrom(pos + |staged| + |chunks[0]|, chunks[1..]);
    PartialEndsInside(staged, chunks[0], read);
    if p.msgs == [] && p.end.More? {
      PartialEndsInside(a, Flatten(chunks[1..]), read);
      if chunks[1..] == [] {
        assert a + Flatten(chunks[1..]) == a;
      }
    }
  }

  lemma FirstChunk(staged: seq<byte>, chunks: seq<seq<byte>>, read: Reader)
    requires Local(read) && chunks != []
    ensures var p := Parse(staged + chunks[0], read);
            Parse(staged + Flatten(chunks), read).msgs == p.msgs + After(p, Flatten(chunks[1..]), read)
  {
    var a, b := staged + chunks[0], Flatten(chunks[1..]);
    assert staged + Flatten(chunks) == a + b;
    ParseConcat(a, b, read);
  }

  /** The straddlers of a stream: those of its first chunk, then the rest. */
  lemma StraddlersStep(staged: seq<byte>, chunks: seq<seq<byte>>, p: Parsed, all: seq<Msg>, pos: nat, read: Reader)
    requires Local(read) && chunks != [] && Partial(staged, read)
    requires p == Parse(staged + chunks[0], read) && all == Parse(staged + Flatten(chunks), read).msgs
    ensures Straddlers(all, pos, Cuts(pos + |staged|, chunks)) == Spanned(staged, p.msgs)
              + Straddlers(After(p, Flatten(chunks[1..]), read), pos + Total(p.msgs),
                           Cuts(pos + |staged| + |chunks[0]|, chunks[1..]))
  {
    var later, more := Cuts(pos + |staged| + |chunks[0]|, chunks[1..]), After(p, Flatten(chunks[1..]), read);
    assert Cuts(pos + |staged|, chunks) == {pos + |staged|} + later;
    assert all == p.msgs + more by { FirstChunk(staged, chunks, read); }
    assert Shape(staged, chunks[0], p.msgs, more, pos, later) by { ChunkShape(staged, chunks, pos, read); }
    ShapeStraddlers(staged, chunks[0], p.msgs, more, pos, later, all, Cuts(pos + |staged|, chunks));
  }

  lemma SpannedStep(staged: seq<byte>, chunks: seq<seq<byte>>, p: Parsed, read: Reader, asmCap: nat)
    requires Fits(read, asmCap) && chunks != [] && p == Parse(staged + chunks[0], read)
    ensures RunSpanned(staged, chunks, read, asmCap) == Spanned(staged, p.msgs) + TailSpanned(p, chunks, read, asmCap)
  {
    FeedIsParse(staged, chunks[0], read, asmCap);
  }

  /** What the chunks after the first add to the counter. */
  function TailSpanned(p: Parsed, chunks: seq<seq<byte>>, read: Reader, asmCap: nat): nat
    requires chunks != []
  {
    if p.end.Failed? then 0 else RunSpanned(p.end.rest, chunks[1..], read, asmCap)
  }

  /** The counter over a run from staged bytes that begin at stream position `pos`. */
  lemma {:induction false} RunStraddlers(staged: seq<byte>, chunks: seq<seq<byte>>, pos: nat, all: seq<Msg>,
                                         read: Reader, asmCap: nat)
    requires Local(read) && Fits(read, asmCap) && Partial(staged, read)
    requires all == Parse(staged + Flatten(chunks), read).msgs
    ensures RunSpanned(staged, chunks, read, asmCap) == Straddlers(all, pos, Cuts(pos + |staged|, chunks))
    decreases |chunks|, 1
  {
    if chunks == [] {
      assert staged + Flatten(chunks) == staged;
    } else {
      var p := Parse(staged + chunks[0], read);
      TailStraddlers(staged, chunks, p, pos, read, asmCap);
      SpannedStep(staged, chunks, p, read, asmCap);
      StraddlersStep(staged, chunks, p, all, pos, read);
    }
  }

  lemma {:induction false} TailStraddlers(staged: seq<byte>, chunks: seq<seq<byte>>, p: Parsed, pos: nat,
                                          read: Reader, asmCap: nat)
    requires Local(read) && Fits(read, asmCap) && chunks != [] && p == Parse(staged + chunks[0], read)
    ensures TailSpanned(p, chunks, read, asmCap)
         == Straddlers(After(p, Flatten(chunks[1..]), read), pos + Total(p.msgs),
                       Cuts(pos + |staged| + |chunks[0]|, chunks[1..]))
    decreases |chunks|, 0
  {
    if p.end.More? {
      ParseAccounts(staged + chunks[0], read);
      assert pos + Total(p.msgs) + |p.end.rest| == pos + |staged| + |chunks[0]|;
      RunStraddlers(p.end.rest, chunks[1..], pos + Total(p.msgs), After(p, Flatten(chunks[1..]), read), read, asmCap);
    }
  }

  /** Over a whole run the counter is the number of delivered messages that a chunk boundary cuts. */
  lemma CounterIsStraddlers(chunks: seq<seq<byte>>, read: Reader, asmCap: nat)
    requires Local(read) && Fits(read, asmCap)
    ensures RunSpanned([], chunks, read, asmCap) == Straddlers(Run([], chunks, read, asmCap).msgs, 0, Cuts(0, chunks))
  {
    var all := Run([], chunks, read, asmCap).msgs;
    assert all == Parse([] + Flatten(chunks), read).msgs by { RunIsParse([], chunks, read, asmCap); }
    RunStraddlers([], chunks, 0, all, read, asmCap);
  }
}
