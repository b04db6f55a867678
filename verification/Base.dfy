/** Machine integers, bytes and the few sequence facts the other modules share. */
module Base {

  const U64_MODULUS: int := 0x1_0000_0000_0000_0000
  const U64_MAX: int := 0xFFFF_FFFF_FFFF_FFFF
  const U32_MODULUS: int := 0x1_0000_0000

  /** The frame header's size on the wire. */
  const FRAME_HDR: nat := 20

  type byte = x: int | 0 <= x < 0x100
  type u16 = x: int | 0 <= x < 0x1_0000
  type u32 = x: int | 0 <= x < 0x1_0000_0000
  type u64 = x: int | 0 <= x < 0x1_0000_0000_0000_0000

  type Payload = seq<byte>

  datatype Option<+T> = None | Some(value: T)

  function Min(a: int, b: int): int { if a < b then a else b }

  function Max(a: int, b: int): int { if a < b then b else a }

  /** The concatenation of a list of byte strings. */
  function Flatten<T>(parts: seq<seq<T>>): (r: seq<T>)
  {
    if parts == [] then [] else parts[0] + Flatten(parts[1..])
  }

  lemma {:induction false} FlattenConcat<T>(a: seq<seq<T>>, b: seq<seq<T>>)
    ensures Flatten(a + b) == Flatten(a) + Flatten(b)
  {
    if a == [] {
      assert a + b == b;
    } else {
      FlattenConcat(a[1..], b);
      assert (a + b)[1..] == a[1..] + b;
      assert a[0] + (Flatten(a[1..]) + Flatten(b)) == (a[0] + Flatten(a[1..])) + Flatten(b);
    }
  }

  lemma FlattenSnoc<T>(a: seq<seq<T>>, x: seq<T>)
    ensures Flatten(a + [x]) == Flatten(a) + x
  {
    FlattenConcat(a, [x]);
    assert Flatten([x]) == x + Flatten([]);
  }

  /** A prefix of the parts flattens to a prefix of the bytes. */
  lemma FlattenPrefix<T>(a: seq<seq<T>>, n: nat)
    requires n <= |a|
    ensures Flatten(a) == Flatten(a[..n]) + Flatten(a[n..])
    ensures Flatten(a[..n]) <= Flatten(a)
  {
    FlattenConcat(a[..n], a[n..]);
    assert a == a[..n] + a[n..];
  }

  lemma MulMono(a: nat, b: nat, m: nat)
    requires a <= b
    ensures a * m <= b * m
  {
  }

  lemma MulSucc(n: nat, m: nat)
    ensures (n + 1) * m == n * m + m
  {
  }

  lemma ModSmall(x: int)
    requires 0 <= x < U64_MODULUS
    ensures x % U64_MODULUS == x
  {
  }
}
