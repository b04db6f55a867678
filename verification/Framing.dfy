/** The chunked frame layout: a frame's bytes lie end to end in separately allocated chunks of equal size,
    the 20-byte header first. Every routine that walks the chunks is measured against that one byte string. */
module Framing {
  import opened Base
  import opened Memory

  type Rows = seq<seq<byte>>

  ghost predicate Chunked(rows: Rows, c: nat) { forall i :: 0 <= i < |rows| ==> |rows[i]| == c }

  /** Lay `src` over the chunks from offset `off` of the first. */
  function Scatter(rows: Rows, off: nat, src: seq<byte>, c: nat): (r: Rows)
    requires Chunked(rows, c) && off <= c
    ensures Chunked(r, c) && |r| == |rows|
  {
    if rows == [] || src == [] then rows
    else
      var n := Min(c - off, |src|);
      [Patch(rows[0], off, src[..n])] + Scatter(rows[1..], 0, src[n..], c)
  }

  function Gather(rows: Rows, off: nat, len: nat, c: nat): seq<byte>
    requires Chunked(rows, c) && off <= c
  {
    if rows == [] || len == 0 then []
    else
      var n := Min(c - off, len);
      rows[0][off..off + n] + Gather(rows[1..], 0, len - n, c)
  }

  /** How much of `len` bytes fits behind `off` in `n` chunks. */
  function Room(n: nat, c: nat, off: nat, len: nat): nat { Max(0, Min(len, n * c - off)) }

  lemma {:induction false} FlatSize(rows: Rows, c: nat)
    requires Chunked(rows, c)
    ensures |Flatten(rows)| == |rows| * c
  {
    if rows != [] {
      FlatSize(rows[1..], c);
      MulSucc(|rows| - 1, c);
    }
  }

  lemma FlatCons(row: seq<byte>, rows: Rows)
    ensures Flatten([row] + rows) == row + Flatten(rows)
  {
  }

  /** Gathering reads a stretch of the frame's byte string. */
  lemma {:induction false} GatherIsSlice(rows: Rows, off: nat, len: nat, c: nat)
    requires Chunked(rows, c) && off <= c && off + len <= |Flatten(rows)|
    ensures Gather(rows, off, len, c) == Flatten(rows)[off..off + len]
    decreases |rows|
  {
    var flat := Flatten(rows);
    if rows != [] && len > 0 {
      var n, rest := Min(c - off, len), Flatten(rows[1..]);
      GatherIsSlice(rows[1..], 0, len - n, c);
      assert flat[off..off + n] == rows[0][off..off + n];
      assert flat[off + n..off + len] == rest[..len - n] by {
        if n < len { assert off + n == c; }
      }
      assert flat[off..off + len] == flat[off..off + n] + flat[off + n..off + len];
    }
  }

  /** Scattering overwrites a stretch of it and nothing else. */
  lemma {:induction false} ScatterIsPatch(rows: Rows, off: nat, src: seq<byte>, c: nat)
    requires Chunked(rows, c) && off <= c && off + |src| <= |Flatten(rows)|
    ensures Flatten(Scatter(rows, off, src, c)) == Patch(Flatten(rows), off, src)
    decreases |rows|
  {
    if rows == [] || src == [] {
      assert Patch(Flatten(rows), off, src) == Flatten(rows);
    } else {
      var n, rest := Min(c - off, |src|), Flatten(rows[1..]);
      ScatterIsPatch(rows[1..], 0, src[n..], c);
      FlatCons(Patch(rows[0], off, src[..n]), Scatter(rows[1..], 0, src[n..], c));
      PatchAcross(rows[0], rest, off, src, n);
    }
  }

  /** Patching a row and then the rest is patching the whole. */
  lemma PatchAcross(row: seq<byte>, rest: seq<byte>, off: nat, src: seq<byte>, n: nat)
    requires off <= |row| && n == Min(|row| - off, |src|) && off + |src| <= |row| + |rest|
    ensures Patch(row, off, src[..n]) + Patch(rest, 0, src[n..]) == Patch(row + rest, off, src)
  {
  }

  /** Beyond the capacity nothing more is copied. */
  lemma {:induction false} ScatterClips(rows: Rows, off: nat, src: seq<byte>, c: nat)
    requires Chunked(rows, c) && off <= c
    ensures Scatter(rows, off, src, c) == Scatter(rows, off, src[..Room(|rows|, c, off, |src|)], c)
    decreases |rows|
  {
    if rows != [] && src != [] {
      var k, n := Room(|rows|, c, off, |src|), Min(c - off, |src|);
      RoomStep(|rows|, c, off, |src|);
      ScatterClips(rows[1..], 0, src[n..], c);
      assert k >= n;
      assert src[..k][..n] == src[..n] && src[..k][n..] == src[n..][..k - n];
      if k == 0 {
        assert Patch(rows[0], off, src[..0]) == rows[0];
        assert Scatter(rows[1..], 0, src[n..], c) == rows[1..];
        assert rows == [rows[0]] + rows[1..];
      }
    }
  }

  lemma RoomStep(n: nat, c: nat, off: nat, len: nat)
    requires n > 0 && off <= c
    ensures var k := Min(c - off, len); Room(n, c, off, len) == k + Room(n - 1, c, 0, len - k)
  {
  }

  lemma {:induction false} GatherClips(rows: Rows, off: nat, len: nat, c: nat)
    requires Chunked(rows, c) && off <= c
    ensures Gather(rows, off, len, c) == Gather(rows, off, Room(|rows|, c, off, len), c)
    ensures |Gather(rows, off, len, c)| == Room(|rows|, c, off, len)
    decreases |rows|
  {
    if rows != [] && len > 0 {
      var n := Min(c - off, len);
      RoomStep(|rows|, c, off, len);
      GatherClips(rows[1..], 0, len - n, c);
    }
  }

  // ---- scatter/gather entries ----

  /** The send entries: as many chunks as the framed length needs, the last one short. */
  function SendLens(n: nat, c: nat, len: nat): seq<nat> {
    if n == 0 || len == 0 then [] else [Min(len, c)] + SendLens(n - 1, c, len - Min(len, c))
  }

  /** The receive entries: every chunk, together no more than the slot. */
  function RecvLens(n: nat, c: nat, size: nat): seq<nat> {
    if n == 0 then [] else [Min(size, c)] + RecvLens(n - 1, c, size - Min(size, c))
  }

  /** No entry is empty, and there is none to spare: all but the last are full. */
  lemma {:induction false} SendLensFull(n: nat, c: nat, len: nat)
    requires c > 0
    ensures var l := SendLens(n, c, len);
            && |l| <= n && (forall i :: 0 <= i < |l| ==> 0 < l[i] <= c) && (forall i :: 0 <= i < |l| - 1 ==> l[i] == c)
    decreases n
  {
    if n > 0 && len > 0 {
      var k, rest := Min(len, c), SendLens(n - 1, c, len - Min(len, c));
      SendLensFull(n - 1, c, len - k);
      assert rest != [] ==> k == c;
      forall i | 0 <= i < |[k] + rest| ensures 0 < ([k] + rest)[i] <= c && (i < |rest| ==> ([k] + rest)[i] == c) {
        if i > 0 { assert ([k] + rest)[i] == rest[i - 1]; }
      }
    }
  }

  function Sum(lens: seq<nat>): nat { if lens == [] then 0 else lens[0] + Sum(lens[1..]) }

  lemma {:induction false} RecvLensSum(n: nat, c: nat, size: nat)
    ensures |RecvLens(n, c, size)| == n && Sum(RecvLens(n, c, size)) == Min(size, n * c)
    decreases n
  {
    if n > 0 {
      var k := Min(size, c);
      RecvLensSum(n - 1, c, size - k);
      MulSucc(n - 1, c);
      assert RecvLens(n, c, size)[1..] == RecvLens(n - 1, c, size - k);
    }
  }

  ghost predicate Within(lens: seq<nat>, n: nat, c: nat) {
    |lens| <= n && forall i :: 0 <= i < |lens| ==> lens[i] <= c
  }

  lemma {:induction false} LensWithin(n: nat, c: nat, len: nat)
    ensures Within(SendLens(n, c, len), n, c) && Within(RecvLens(n, c, len), n, c)
    decreases n
  {
    if n > 0 {
      LensWithin(n - 1, c, len - Min(len, c));
    }
  }

  /** The bytes the entries put on the wire. */
  function Wire(rows: Rows, lens: seq<nat>, c: nat): seq<byte>
    requires Chunked(rows, c) && Within(lens, |rows|, c)
  {
    if lens == [] then [] else rows[0][..lens[0]] + Wire(rows[1..], lens[1..], c)
  }

  /** They are the first `len` bytes of the frame. */
  lemma {:induction false} WireIsPrefix(rows: Rows, len: nat, c: nat)
    requires Chunked(rows, c) && len <= |Flatten(rows)| && Within(SendLens(|rows|, c, len), |rows|, c)
    ensures Wire(rows, SendLens(|rows|, c, len), c) == Flatten(rows)[..len]
    decreases |rows|
  {
    if rows != [] && len > 0 {
      var k := Min(len, c);
      LensWithin(|rows| - 1, c, len - k);
      WireIsPrefix(rows[1..], len - k, c);
      assert SendLens(|rows|, c, len)[1..] == SendLens(|rows| - 1, c, len - k);
      assert Flatten(rows)[..len] == rows[0][..k] + Flatten(rows[1..])[..len - k];
    }
  }

  /** Where the adapter puts an arriving message: entry after entry, each filled to its length. */
  function Land(rows: Rows, lens: seq<nat>, wire: seq<byte>, c: nat): (r: Rows)
    requires Chunked(rows, c) && Within(lens, |rows|, c)
    ensures Chunked(r, c) && |r| == |rows|
  {
    if lens == [] || wire == [] then rows
    else
      var k := Min(lens[0], |wire|);
      [Patch(rows[0], 0, wire[..k])] + Land(rows[1..], lens[1..], wire[k..], c)
  }

  /** A message no longer than the slot lands at the front of the frame, untouched. */
  lemma {:induction false} LandIsPatch(rows: Rows, size: nat, wire: seq<byte>, c: nat)
    requires Chunked(rows, c) && |wire| <= size <= |Flatten(rows)| && Within(RecvLens(|rows|, c, size), |rows|, c)
    ensures Flatten(Land(rows, RecvLens(|rows|, c, size), wire, c)) == Patch(Flatten(rows), 0, wire)
    decreases |rows|
  {
    if rows == [] || wire == [] {
      assert Patch(Flatten(rows), 0, wire) == Flatten(rows);
    } else {
      var e := Min(size, c);
      var k := Min(e, |wire|);
      var lens, row := RecvLens(|rows| - 1, c, size - e), Patch(rows[0], 0, wire[..k]);
      LensWithin(|rows| - 1, c, size - e);
      var tail := Land(rows[1..], lens, wire[k..], c);
      assert Land(rows, RecvLens(|rows|, c, size), wire, c) == [row] + tail by { LandCons(rows, e, lens, wire, c); }
      assert size - e <= |Flatten(rows[1..])|;
      assert Flatten(tail) == Patch(Flatten(rows[1..]), 0, wire[k..]) by { LandIsPatch(rows[1..], size - e, wire[k..], c); }
      FlatCons(row, tail);
      PatchAcross(rows[0], Flatten(rows[1..]), 0, wire, k);
    }
  }

  lemma LandCons(rows: Rows, e: nat, lens: seq<nat>, wire: seq<byte>, c: nat)
    requires Chunked(rows, c) && rows != [] && wire != [] && e <= c
    requires Within([e] + lens, |rows|, c) && Within(lens, |rows| - 1, c)
    ensures var k := Min(e, |wire|);
            Land(rows, [e] + lens, wire, c) == [Patch(rows[0], 0, wire[..k])] + Land(rows[1..], lens, wire[k..], c)
  {
  }

  // ---- kvec lists ----

  datatype Kvec = Kvec(chunk: nat, off: nat, len: nat)

  function Kvecs(j: nat, n: nat, c: nat, off: nat, len: nat): seq<Kvec>
    requires j <= n && off <= c
    decreases n - j
  {
    if j == n || len == 0 then []
    else
      var k := Min(len, c - off);
      [Kvec(j, off, k)] + Kvecs(j + 1, n, c, 0, len - k)
  }

  ghost predicate InRows(kv: seq<Kvec>, n: nat, c: nat) {
    forall i :: 0 <= i < |kv| ==> kv[i].chunk < n && kv[i].off + kv[i].len <= c
  }

  /** The bytes a kvec list names, in order. */
  function Named(rows: Rows, kv: seq<Kvec>, c: nat): seq<byte>
    requires Chunked(rows, c) && InRows(kv, |rows|, c)
  {
    if kv == [] then [] else rows[kv[0].chunk][kv[0].off..kv[0].off + kv[0].len] + Named(rows, kv[1..], c)
  }

  lemma {:induction false} KvecsInRows(j: nat, n: nat, c: nat, off: nat, len: nat)
    requires j <= n && off <= c
    ensures var kv := Kvecs(j, n, c, off, len);
            InRows(kv, n, c) && |kv| <= n - j && (len > 0 && j < n ==> kv != [])
    decreases n - j
  {
    if j < n && len > 0 {
      var k := Min(len, c - off);
      KvecsInRows(j + 1, n, c, 0, len - k);
      var rest := Kvecs(j + 1, n, c, 0, len - k);
      forall i | 0 <= i < |[Kvec(j, off, k)] + rest|
        ensures var v := ([Kvec(j, off, k)] + rest)[i]; v.chunk < n && v.off + v.len <= c
      {
        if i > 0 { assert ([Kvec(j, off, k)] + rest)[i] == rest[i - 1]; }
      }
    }
  }

  /** No entry is empty if the first chunk has room. */
  lemma {:induction false} KvecsFull(j: nat, n: nat, c: nat, off: nat, len: nat)
    requires j <= n && off < c
    ensures forall v :: v in Kvecs(j, n, c, off, len) ==> v.len > 0
    decreases n - j
  {
    if j < n && len > 0 { KvecsFull(j + 1, n, c, 0, len - Min(len, c - off)); }
  }

  lemma NamedCons(rows: Rows, k: Kvec, rest: seq<Kvec>, c: nat)
    requires Chunked(rows, c) && InRows(rest, |rows|, c) && InRows([k] + rest, |rows|, c)
    requires k.chunk < |rows| && k.off + k.len <= c
    ensures Named(rows, [k] + rest, c) == rows[k.chunk][k.off..k.off + k.len] + Named(rows, rest, c)
  {
  }

  lemma GatherFrom(rows: Rows, j: nat, off: nat, len: nat, c: nat)
    requires Chunked(rows, c) && off <= c && j < |rows| && len > 0
    ensures var k := Min(len, c - off);
            Gather(rows[j..], off, len, c) == rows[j][off..off + k] + Gather(rows[j + 1..], 0, len - k, c)
  {
  }

  /** The list names exactly the bytes a gather would copy. */
  lemma {:induction false} KvecsNameGather(rows: Rows, j: nat, off: nat, len: nat, c: nat)
    requires Chunked(rows, c) && off <= c && j <= |rows| && InRows(Kvecs(j, |rows|, c, off, len), |rows|, c)
    ensures Named(rows, Kvecs(j, |rows|, c, off, len), c) == Gather(rows[j..], off, len, c)
    decreases |rows| - j
  {
    if j < |rows| && len > 0 {
      var k := Min(len, c - off);
      KvecsInRows(j + 1, |rows|, c, 0, len - k);
      GatherFrom(rows, j, off, len, c);
      NamedCons(rows, Kvec(j, off, k), Kvecs(j + 1, |rows|, c, 0, len - k), c);
      KvecsNameGather(rows, j + 1, 0, len - k, c);
    }
  }
}
