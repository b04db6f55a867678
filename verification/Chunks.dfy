/** The chunk walks as the driver runs them, over separately allocated chunks, and the loop that picks the
    chunk geometry for a slot. */
module Chunks {
  import opened Base
  import opened Memory
  import opened Framing

  const CHUNK_TARGET: nat := 65536

  /** PAGE_SIZE << k */
  function ChunkAt(page: nat, k: nat): (c: nat)
    requires page > 0
    ensures c >= page
  {
    if k == 0 then page else 2 * ChunkAt(page, k - 1)
  }

  /** Each order doubles: four of them from a 4 KiB page make the 64 KiB target. */
  lemma ChunkDoubles(page: nat, k: nat)
    requires page > 0
    ensures ChunkAt(page, 0) == page && ChunkAt(page, k + 1) == ChunkAt(page, k) + ChunkAt(page, k)
    ensures ChunkAt(4096, 4) == 65536
  {
    assert ChunkAt(4096, 4) == 2 * ChunkAt(4096, 3) && ChunkAt(4096, 3) == 2 * ChunkAt(4096, 2);
  }

  /** get_order: the least power of two pages, from order `k` up, that covers `size` bytes. */
  function Order(page: nat, size: nat, k: nat := 0): (r: nat)
    requires page > 0
    ensures r >= k && ChunkAt(page, r) >= size && (r > k ==> ChunkAt(page, r - 1) < size)
    decreases size - ChunkAt(page, k)
  {
    if ChunkAt(page, k) >= size then k else Order(page, size, k + 1)
  }

  /** How many chunks of `c` bytes the slot takes. */
  function Count(size: nat, c: nat): nat
    requires c > 0
  {
    (size + c - 1) / c
  }

  /** They cover the slot, and one fewer would not. */
  lemma CountCovers(size: nat, c: nat)
    requires c > 0 && size > 0
    ensures Count(size, c) >= 1 && Count(size, c) * c >= size > (Count(size, c) - 1) * c
  {
  }

  lemma CountAtMost(size: nat, c: nat, m: nat)
    requires c > 0 && size > 0 && m * c >= size
    ensures Count(size, c) <= m
  {
    CountCovers(size, c);
    var n := Count(size, c);
    if n > m {
      MulMono(m, n - 1, c);
    }
  }

  function StartOrder(page: nat, size: nat): nat
    requires page > 0
  {
    Min(Order(page, size), Order(page, CHUNK_TARGET))
  }

  /** The geometry: enough chunks and no spare one, within the device's entry budget, of the smallest chunk
      from the 64 KiB target upward that meets it. */
  ghost predicate Geometry(size: nat, budget: nat, page: nat, n: nat, k: nat)
    requires page > 0
  {
    && 1 <= n <= budget && n * ChunkAt(page, k) >= size > (n - 1) * ChunkAt(page, k)
    && k >= StartOrder(page, size)
    && (k > StartOrder(page, size) ==> Count(size, ChunkAt(page, k - 1)) > budget)
  }

  /** Larger chunks are never more. */
  lemma CountShrinks(size: nat, c: nat, d: nat)
    requires 0 < c <= d && size > 0
    ensures Count(size, d) <= Count(size, c)
  {
    CountCovers(size, c);
    MulMono(c, d, Count(size, c));
    CountAtMost(size, d, Count(size, c));
  }

  /** The loop starts at the least order whose chunk holds the slot or 64 KiB. */
  lemma StartIsLeast(page: nat, size: nat, j: nat)
    requires page > 0
    ensures ChunkAt(page, StartOrder(page, size)) >= Min(size, 65536)
    ensures ChunkAt(page, j) >= Min(size, 65536) ==> StartOrder(page, size) <= j
  {
    if j < StartOrder(page, size) {
      ChunkGrows(page, j, Order(page, size) - 1);
      ChunkGrows(page, j, Order(page, 65536) - 1);
    }
  }

  /** The loop leaves an order only because its count, and so that of every lower one, is over the budget. */
  lemma LowerIsOver(size: nat, budget: nat, page: nat, k: nat, j: nat)
    requires page > 0 && size > 0 && j < k && Count(size, ChunkAt(page, k - 1)) > budget
    ensures Count(size, ChunkAt(page, j)) > budget
  {
    ChunkGrows(page, j, k - 1);
    CountShrinks(size, ChunkAt(page, j), ChunkAt(page, k - 1));
  }

  /** The resolved order is the least whose chunk holds the slot or 64 KiB and whose count meets the budget. */
  lemma GeometryLeast(size: nat, budget: nat, page: nat, n: nat, k: nat)
    requires page > 0 && size > 0 && Geometry(size, budget, page, n, k)
    ensures ChunkAt(page, k) >= Min(size, 65536)
    ensures forall j :: ChunkAt(page, j) >= Min(size, 65536) && Count(size, ChunkAt(page, j)) <= budget ==> k <= j
  {
    StartIsLeast(page, size, 0);
    ChunkGrows(page, StartOrder(page, size), k);
    forall j: nat | ChunkAt(page, j) >= Min(size, 65536) && Count(size, ChunkAt(page, j)) <= budget ensures k <= j {
      if j < k {
        StartIsLeast(page, size, j);
        LowerIsOver(size, budget, page, k, j);
      }
    }
  }

  /** What the loop's exit gives. */
  lemma LoopResolves(size: nat, budget: nat, page: nat, order: nat)
    requires size > 0 && page > 0 && budget >= 1 && order >= StartOrder(page, size)
    requires order > StartOrder(page, size) ==> Count(size, ChunkAt(page, order - 1)) > budget
    requires Count(size, ChunkAt(page, order)) <= budget || ChunkAt(page, order) >= size
    ensures Geometry(size, budget, page, Count(size, ChunkAt(page, order)), order)
  {
    var c := ChunkAt(page, order);
    CountCovers(size, c);
    if c >= size { CountAtMost(size, c, 1); }
  }

  method ResolveChunks(size: nat, maxSge: nat, page: nat) returns (n: nat, c: nat, order: nat)
    requires size > 0 && page > 0
    ensures Geometry(size, Max(1, maxSge), page, n, order) && c == ChunkAt(page, order)
    ensures c >= Min(size, 65536) && n == Count(size, c) <= Max(1, maxSge)
    ensures forall j ::
              ChunkAt(page, j) >= Min(size, 65536) && Count(size, ChunkAt(page, j)) <= Max(1, maxSge) ==> order <= j
  {
    order := StartOrder(page, size);
    c := ChunkAt(page, order);
    n := Count(size, c);
    var budget := if maxSge == 0 then 1 else maxSge;
    while n > budget && c < size
      invariant order >= StartOrder(page, size) && c == ChunkAt(page, order) && n == Count(size, c)
      invariant order > StartOrder(page, size) ==> Count(size, ChunkAt(page, order - 1)) > budget
      decreases size - c
    {
      order := order + 1;
      c := ChunkAt(page, order);
      n := Count(size, c);
    }
    LoopResolves(size, budget, page, order);
    GeometryLeast(size, budget, page, n, order);
  }

  /** Slots up to 1 MiB need at most 16 chunks, well inside the 32-entry arrays, whatever the budget. */
  lemma GeometryFits(size: nat, budget: nat, page: nat, n: nat, k: nat)
    requires page > 0 && 0 < size <= 1048576 && Geometry(size, budget, page, n, k)
    ensures n <= 16
    ensures size <= CHUNK_TARGET ==> n == 1
  {
    ChunkGrows(page, StartOrder(page, size), k);
    var c := ChunkAt(page, k);
    assert c >= CHUNK_TARGET || c >= size;
    if n > 16 {
      MulMono(16, n - 1, c);
    }
    if size <= CHUNK_TARGET && n > 1 {
      MulMono(1, n - 1, c);
    }
  }

  lemma {:induction false} ChunkGrows(page: nat, i: nat, k: nat)
    requires page > 0 && i <= k
    ensures ChunkAt(page, i) <= ChunkAt(page, k)
    decreases k
  {
    if i < k {
      ChunkGrows(page, i, k - 1);
    }
  }

  // ---- walking the chunks ----

  /** A buffer's chunks: separate allocations of one size. */
  ghost predicate Buffer(chunks: seq<array<byte>>, c: nat) {
    && (forall i :: 0 <= i < |chunks| ==> chunks[i].Length == c)
    && (forall i, j :: 0 <= i < j < |chunks| ==> chunks[i] != chunks[j])
  }

  ghost function View(chunks: seq<array<byte>>): (rows: Rows)
    reads chunks
  {
    seq(|chunks|, i requires 0 <= i < |chunks| reads chunks => chunks[i][..])
  }

  method PutChunk(chunks: seq<array<byte>>, ghost c: nat, j: nat, off: nat, bytes: seq<byte>)
    requires Buffer(chunks, c) && j < |chunks| && off + |bytes| <= c
    modifies chunks
    ensures View(chunks) == old(View(chunks))[j := Patch(old(View(chunks))[j], off, bytes)]
  {
    CopyInto(chunks[j], off, bytes);
    forall i | 0 <= i < |chunks| && i != j ensures chunks[i][..] == old(chunks[i][..]) {
    }
  }

  /** How many of `len` bytes the loop copies into `n` chunks from offset `off` of the first. */
  function Copied(n: nat, c: nat, off: nat, len: nat): nat
    requires off <= c
  {
    if n == 0 || len == 0 then 0
    else
      var k := Min(c - off, len);
      k + Copied(n - 1, c, 0, len - k)
  }

  /** It is the smaller of what is asked and what fits. */
  lemma {:induction false} CopiedIsRoom(n: nat, c: nat, off: nat, len: nat)
    requires off <= c
    ensures Copied(n, c, off, len) == Room(n, c, off, len)
    decreases n
  {
    if n > 0 && len > 0 {
      RoomStep(n, c, off, len);
      CopiedIsRoom(n - 1, c, 0, len - Min(c - off, len));
    }
  }

  /** Chunks before `j` are done, the rest and the bytes `left` lead to `goal`, and `copied` counts towards `total`. */
  ghost predicate Scattering(rows: Rows, j: nat, off: nat, left: seq<byte>, copied: nat, c: nat, goal: Rows, total: nat) {
    && Chunked(rows, c) && off <= c && j <= |rows|
    && rows[..j] + Scatter(rows[j..], off, left, c) == goal
    && copied + Copied(|rows| - j, c, off, |left|) == total
  }

  lemma ScatterTurn(rows: Rows, j: nat, off: nat, left: seq<byte>, copied: nat, c: nat, goal: Rows, total: nat, n: nat)
    requires Scattering(rows, j, off, left, copied, c, goal, total) && j < |rows| && left != []
    requires n == Min(c - off, |left|)
    ensures Scattering(rows[j := Patch(rows[j], off, left[..n])], j + 1, 0, left[n..], copied + n, c, goal, total)
  {
  }

  lemma ScatterStarts(rows: Rows, src: seq<byte>, c: nat)
    requires Chunked(rows, c) && FRAME_HDR <= c
    ensures Scattering(rows, 0, FRAME_HDR, src, 0, c, Scatter(rows, FRAME_HDR, src, c), Copied(|rows|, c, FRAME_HDR, |src|))
  {
  }

  lemma ScatterEnds(rows: Rows, j: nat, off: nat, left: seq<byte>, copied: nat, c: nat, goal: Rows, total: nat)
    requires Scattering(rows, j, off, left, copied, c, goal, total) && (j == |rows| || left == [])
    ensures rows == goal && copied == total
  {
  }

  /** The loop body: fill chunk `j` from its offset. */
  method ScatterChunk(chunks: seq<array<byte>>, c: nat, j: nat, off: nat, src: seq<byte>, copied: nat,
                      ghost goal: Rows, ghost total: nat)
    returns (n: nat)
    requires Buffer(chunks, c) && j < |chunks| && copied < |src|
    requires Scattering(View(chunks), j, off, src[copied..], copied, c, goal, total)
    modifies chunks
    ensures copied + n <= |src|
    ensures Scattering(View(chunks), j + 1, 0, src[copied + n..], copied + n, c, goal, total)
  {
    ghost var rows, left := View(chunks), src[copied..];
    n := Min(c - off, |src| - copied);
    ScatterTurn(rows, j, off, left, copied, c, goal, total, n);
    assert left[..n] == src[copied..copied + n] && left[n..] == src[copied + n..];
    PutChunk(chunks, c, j, off, src[copied..copied + n]);
    assert View(chunks) == rows[j := Patch(rows[j], off, left[..n])];
  }

  method ScatterPayload(chunks: seq<array<byte>>, c: nat, src: seq<byte>) returns (copied: nat)
    requires Buffer(chunks, c) && FRAME_HDR <= c
    modifies chunks
    ensures View(chunks) == Scatter(old(View(chunks)), FRAME_HDR, src, c)
    ensures copied == Room(|chunks|, c, FRAME_HDR, |src|)
  {
    ghost var goal, total := Scatter(View(chunks), FRAME_HDR, src, c), Copied(|chunks|, c, FRAME_HDR, |src|);
    var j: nat, off: nat := 0, FRAME_HDR;
    copied := 0;
    assert src[0..] == src;
    ScatterStarts(View(chunks), src, c);
    CopiedIsRoom(|chunks|, c, FRAME_HDR, |src|);
    while copied < |src| && j < |chunks|
      invariant j <= |chunks| && copied <= |src| && off <= c
      invariant Scattering(View(chunks), j, off, src[copied..], copied, c, goal, total)
      decreases |chunks| - j
    {
      var n := ScatterChunk(chunks, c, j, off, src, copied, goal, total);
      copied, off, j := copied + n, 0, j + 1;
    }
    assert |View(chunks)| == |chunks| && (copied == |src| ==> src[copied..] == []);
    ScatterEnds(View(chunks), j, off, src[copied..], copied, c, goal, total);
  }

  ghost predicate Gathering(rows: Rows, j: nat, off: nat, done: seq<byte>, left: nat, c: nat, goal: seq<byte>) {
    && Chunked(rows, c) && off <= c && j <= |rows| && done + Gather(rows[j..], off, left, c) == goal
  }

  lemma GatherStarts(rows: Rows, len: nat, c: nat)
    requires Chunked(rows, c) && FRAME_HDR <= c
    ensures Gathering(rows, 0, FRAME_HDR, [], len, c, Gather(rows, FRAME_HDR, len, c))
  {
  }

  lemma GatherEnds(rows: Rows, j: nat, off: nat, done: seq<byte>, left: nat, c: nat, goal: seq<byte>)
    requires Gathering(rows, j, off, done, left, c, goal) && (j == |rows| || left == 0)
    ensures done == goal
  {
  }

  lemma GatherTurn(rows: Rows, j: nat, off: nat, done: seq<byte>, left: nat, c: nat, goal: seq<byte>, n: nat)
    requires Gathering(rows, j, off, done, left, c, goal) && j < |rows| && left > 0 && n == Min(c - off, left)
    ensures Gathering(rows, j + 1, 0, done + rows[j][off..off + n], left - n, c, goal)
  {
  }

  method GatherChunk(chunks: seq<array<byte>>, c: nat, j: nat, off: nat, dst: array<byte>, copied: nat, len: nat,
                     ghost goal: seq<byte>)
    returns (n: nat)
    requires Buffer(chunks, c) && j < |chunks| && copied < len <= dst.Length && dst !in chunks
    requires Gathering(View(chunks), j, off, dst[..copied], len - copied, c, goal)
    modifies dst
    ensures copied + n <= len && View(chunks) == old(View(chunks))
    ensures Gathering(View(chunks), j + 1, 0, dst[..copied + n], len - (copied + n), c, goal)
    ensures dst[copied + n..] == old(dst[copied + n..])
  {
    ghost var rows, done := View(chunks), dst[..copied];
    n := Min(c - off, len - copied);
    GatherTurn(rows, j, off, done, len - copied, c, goal, n);
    assert chunks[j][..] == rows[j];
    CopyInto(dst, copied, chunks[j][..][off..off + n]);
    assert dst[..copied + n] == done + rows[j][off..off + n];
  }

  lemma StillThere(a: seq<byte>, b: seq<byte>, k: nat, n: nat)
    requires k + n <= |a| == |b| && a[k..] == b[k..]
    ensures a[k + n..] == b[k + n..]
  {
    assert a[k..][n..] == a[k + n..] && b[k..][n..] == b[k + n..];
  }

  method GatherPayload(chunks: seq<array<byte>>, c: nat, dst: array<byte>, len: nat) returns (copied: nat)
    requires Buffer(chunks, c) && FRAME_HDR <= c && len <= dst.Length && dst !in chunks
    modifies dst
    ensures copied == Room(|chunks|, c, FRAME_HDR, len)
    ensures dst[..copied] == Gather(View(chunks), FRAME_HDR, len, c) && dst[copied..] == old(dst[copied..])
  {
    ghost var rows, dst0 := View(chunks), dst[..];
    ghost var goal := Gather(rows, FRAME_HDR, len, c);
    var j: nat, off: nat := 0, FRAME_HDR;
    copied := 0;
    GatherStarts(rows, len, c);
    assert dst[..0] == [];
    while copied < len && j < |chunks|
      invariant j <= |chunks| && copied <= len && off <= c && View(chunks) == rows
      invariant dst[copied..] == dst0[copied..]
      invariant Gathering(rows, j, off, dst[..copied], len - copied, c, goal)
      decreases |chunks| - j
    {
      ghost var before := dst[..];
      var n := GatherChunk(chunks, c, j, off, dst, copied, len, goal);
      StillThere(before, dst0, copied, n);
      assert dst[copied + n..] == before[copied + n..];
      copied, off, j := copied + n, 0, j + 1;
    }
    GatherEnds(rows, j, off, dst[..copied], len - copied, c, goal);
    GatherClips(rows, FRAME_HDR, len, c);
  }

  /** urp_frame_fill_kvecs_len: the list for `len` payload bytes of a buffer of `n` chunks. */
  method FillKvecs(n: nat, c: nat, len: nat) returns (kv: seq<Kvec>)
    requires FRAME_HDR <= c
    ensures kv == Kvecs(0, n, c, FRAME_HDR, len) && |kv| <= n
  {
    kv := [];
    var off: nat, remaining: nat, j: nat := FRAME_HDR, len, 0;
    KvecsInRows(0, n, c, FRAME_HDR, len);
    while j < n && remaining > 0
      invariant j <= n && off <= c && remaining >= 0
      invariant kv + Kvecs(j, n, c, off, remaining) == Kvecs(0, n, c, FRAME_HDR, len)
      decreases n - j
    {
      var take := Min(remaining, c - off);
      assert kv + ([Kvec(j, off, take)] + Kvecs(j + 1, n, c, 0, remaining - take))
          == (kv + [Kvec(j, off, take)]) + Kvecs(j + 1, n, c, 0, remaining - take);
      kv := kv + [Kvec(j, off, take)];
      remaining, off, j := remaining - take, 0, j + 1;
    }
  }

  /** The entries a send posts: lengths written into the buffer's entry array, and how many are used. */
  method SendEntries(sges: array<nat>, c: nat, len: nat) returns (n: nat)
    modifies sges
    ensures n <= sges.Length && sges[..n] == SendLens(sges.Length, c, len) && sges[n..] == old(sges[n..])
  {
    n := 0;
    var remaining: nat := len;
    while n < sges.Length && remaining > 0
      invariant n <= sges.Length && sges[n..] == old(sges[n..])
      invariant sges[..n] + SendLens(sges.Length - n, c, remaining) == SendLens(sges.Length, c, len)
      decreases sges.Length - n
    {
      var clen := Min(remaining, c);
      ghost var front, tail := sges[..n], SendLens(sges.Length - (n + 1), c, remaining - clen);
      sges[n] := clen;
      assert sges[..n + 1] == front + [clen] && front + ([clen] + tail) == (front + [clen]) + tail;
      remaining, n := remaining - clen, n + 1;
    }
  }

  /** The entries a receive posts: every chunk, adding up to the slot. */
  method RecvEntries(sges: array<nat>, c: nat, size: nat)
    modifies sges
    ensures sges[..] == RecvLens(sges.Length, c, size)
    ensures sges.Length * c >= size ==> Sum(sges[..]) == size
  {
    var remaining: nat := size;
    for j := 0 to sges.Length
      invariant sges[..j] + RecvLens(sges.Length - j, c, remaining) == RecvLens(sges.Length, c, size)
    {
      var clen := Min(remaining, c);
      ghost var front, tail := sges[..j], RecvLens(sges.Length - (j + 1), c, remaining - clen);
      sges[j] := clen;
      assert sges[..j + 1] == front + [clen] && front + ([clen] + tail) == (front + [clen]) + tail;
      remaining := remaining - clen;
    }
    assert sges[..] == sges[..sges.Length];
    RecvLensSum(sges.Length, c, size);
  }
}
