/** Little-endian byte codecs, shared by the benchmark header and the frame header. */
module LittleEndian {
  import opened Base

  /** `n` bytes of `v`, least significant first; higher bytes are cut off. */
  function Put(v: nat, n: nat): (s: seq<byte>)
    ensures |s| == n
  {
    if n == 0 then [] else [v % 256] + Put(v / 256, n - 1)
  }

  function Get(s: seq<byte>): nat {
    if s == [] then 0 else s[0] + 256 * Get(s[1..])
  }

  function Pow256(n: nat): (p: nat)
    ensures p > 0
  {
    if n == 0 then 1 else 256 * Pow256(n - 1)
  }

  lemma Widths()
    ensures Pow256(2) == 0x1_0000 && Pow256(4) == U32_MODULUS && Pow256(8) == U64_MODULUS
  {
  }

  /** `v` stands at `off` in `n` bytes, the least significant first. */
  ghost predicate At(s: seq<byte>, off: nat, v: nat, n: nat) {
    off + n <= |s| && forall i :: 0 <= i < n ==> s[off + i] == v / Pow256(i) % 256
  }

  lemma DivDiv(v: nat, p: nat)
    requires p > 0
    ensures v / 256 / p == v / (256 * p)
  {
    var q, r := v / (256 * p), v % (256 * p);
    assert v == 256 * (p * q) + r && r < 256 * p;
    assert v / 256 == p * q + r / 256 && r / 256 < p;
    QuotientOf(v / 256, p, q, r / 256);
  }

  lemma QuotientOf(x: nat, p: nat, q: nat, r: nat)
    requires r < p && x == p * q + r
    ensures x / p == q
  {
    assert x == x / p * p + x % p;
    if x / p < q {
      MulMono(x / p + 1, q, p);
    } else if x / p > q {
      MulMono(q + 1, x / p, p);
    }
  }

  lemma {:induction false} PutAt(v: nat, n: nat)
    ensures At(Put(v, n), 0, v, n)
  {
    if n != 0 {
      PutAt(v / 256, n - 1);
      forall i | 0 <= i < n ensures Put(v, n)[i] == v / Pow256(i) % 256 {
        if i > 0 {
          assert Put(v, n)[i] == Put(v / 256, n - 1)[i - 1];
          DivDiv(v, Pow256(i - 1));
        }
      }
    }
  }

  /** A value put between other bytes stands there. */
  lemma PutBetween(a: seq<byte>, v: nat, n: nat, b: seq<byte>)
    ensures At(a + Put(v, n) + b, |a|, v, n)
  {
    PutAt(v, n);
    forall i | 0 <= i < n ensures (a + Put(v, n) + b)[|a| + i] == v / Pow256(i) % 256 {
      assert (a + Put(v, n) + b)[|a| + i] == Put(v, n)[i];
    }
  }

  lemma {:induction false} GetBound(s: seq<byte>)
    ensures Get(s) < Pow256(|s|)
  {
    if s != [] { GetBound(s[1..]); }
  }

  lemma {:induction false} GetPut(v: nat, n: nat)
    requires v < Pow256(n)
    ensures Get(Put(v, n)) == v
  {
    if n != 0 {
      GetPut(v / 256, n - 1);
      assert Put(v, n)[1..] == Put(v / 256, n - 1);
    }
  }

  lemma {:induction false} PutGet(s: seq<byte>)
    ensures Put(Get(s), |s|) == s
  {
    if s != [] {
      PutGet(s[1..]);
      assert Get(s) % 256 == s[0] && Get(s) / 256 == Get(s[1..]);
    }
  }
}
