/** The per-buffer ownership bitmap: 64-bit words whose bit i % 64 of word i / 64 is set while buffer i belongs
    to the kernel. */
module Ownership {
  const BPW: nat := 64

  function Pow2(k: nat): (p: nat)
    ensures p > 0
  {
    if k == 0 then 1 else 2 * Pow2(k - 1)
  }

  /** Bit b of a word: `w & (1 << b)`. */
  predicate Bit(w: nat, b: nat) { if b == 0 then w % 2 == 1 else Bit(w / 2, b - 1) }

  /** `w | (1 << b)` for a bit known clear. */
  lemma {:induction false} SetBit(w: nat, b: nat, i: nat)
    requires !Bit(w, b)
    ensures Bit(w + Pow2(b), i) <==> i == b || Bit(w, i)
    decreases b
  {
    if b > 0 {
      assert (w + Pow2(b)) / 2 == w / 2 + Pow2(b - 1);
      if i > 0 { SetBit(w / 2, b - 1, i - 1); }
    }
  }

  /** `w & ~(1 << b)` for a bit known set. */
  lemma {:induction false} ClearBit(w: nat, b: nat, i: nat)
    requires Bit(w, b)
    ensures w >= Pow2(b) && (Bit(w - Pow2(b), i) <==> i != b && Bit(w, i))
    decreases b
  {
    if b > 0 {
      ClearBit(w / 2, b - 1, if i > 0 then i - 1 else 0);
      assert (w - Pow2(b)) / 2 == w / 2 - Pow2(b - 1);
    }
  }

  lemma {:induction false} SetFits(w: nat, b: nat, n: nat)
    requires w < Pow2(n) && b < n && !Bit(w, b)
    ensures w + Pow2(b) < Pow2(n)
    decreases b
  {
    var half := Pow2(n - 1);
    assert Pow2(n) == 2 * half && w == 2 * (w / 2) + w % 2;
    if b > 0 {
      SetFits(w / 2, b - 1, n - 1);
      assert Pow2(b) == 2 * Pow2(b - 1);
    }
  }

  lemma {:induction false} NoBits(b: nat)
    ensures !Bit(0, b)
  {
    if b > 0 { NoBits(b - 1); }
  }

  /** A word is nonzero exactly when one of its bits is set. */
  lemma {:induction false} NonZero(w: nat, n: nat)
    requires w < Pow2(n)
    ensures w != 0 <==> exists b :: 0 <= b < n && Bit(w, b)
    decreases n
  {
    if w == 0 {
      forall b | 0 <= b < n ensures !Bit(w, b) { NoBits(b); }
    } else if w % 2 == 1 {
      assert 0 <= 0 < n && Bit(w, 0);
      assert exists b :: 0 <= b < n && Bit(w, b);
    } else {
      NonZero(w / 2, n - 1);
      var b :| 0 <= b < n - 1 && Bit(w / 2, b);
      assert 0 <= b + 1 < n && Bit(w, b + 1);
      assert exists c :: 0 <= c < n && Bit(w, c);
    }
  }

  function Words(count: nat): nat { (count + BPW - 1) / BPW }

  datatype OwnCode = OwnOk | ERange | EBusy | EInval

  class Bitmap {
    const own: array<nat>
    const count: nat

    ghost predicate Valid()
      reads own
    {
      && own.Length == Words(count)
      && (forall w :: 0 <= w < own.Length ==> own[w] < Pow2(BPW))
      && (forall w, b :: 0 <= w < own.Length && 0 <= b < BPW && BPW * w + b >= count ==> !Bit(own[w], b))
    }

    ghost predicate Has(i: nat)
      reads own
    {
      i / BPW < own.Length && Bit(own[i / BPW], i % BPW)
    }

    /** The buffers the kernel owns. */
    ghost function Owned(): set<nat>
      reads own
    {
      set i: nat | i < count && Has(i)
    }

    constructor (count: nat)
      ensures Valid() && Owned() == {} && this.count == count && fresh(own)
    {
      this.count := count;
      own := new nat[Words(count)](_ => 0);
      new;
      forall b ensures !Bit(0, b) { NoBits(b); }
    }

    /** Setting or clearing one bit changes one buffer's ownership. */
    twostate lemma OneBit(idx: nat)
      requires idx < count && old(Valid())
      requires forall w :: 0 <= w < own.Length && w != idx / BPW ==> own[w] == old(own[w])
      requires idx / BPW < own.Length && own[idx / BPW] < Pow2(BPW)
      requires forall b: nat :: b != idx % BPW ==> (Bit(own[idx / BPW], b) <==> Bit(old(own[idx / BPW]), b))
      ensures Valid()
      ensures Owned() == if Has(idx) then old(Owned()) + {idx} else old(Owned()) - {idx}
    {
      assert BPW * (idx / BPW) + idx % BPW == idx;
      forall i: nat | i != idx ensures Has(i) <==> old(Has(i)) {
        if i / BPW == idx / BPW { assert i % BPW != idx % BPW; }
      }
    }

    method Claim(idx: nat) returns (code: OwnCode)
      requires Valid()
      modifies own
      ensures Valid()
      ensures code == if idx >= count then ERange else if idx in old(Owned()) then EBusy else OwnOk
      ensures Owned() == if code == OwnOk then old(Owned()) + {idx} else old(Owned())
    {
      if idx >= count {
        return ERange;
      }
      var w, b := idx / BPW, idx % BPW;
      if Bit(own[w], b) {
        return EBusy;
      }
      ghost var was := own[w];
      SetFits(was, b, BPW);
      forall i: nat ensures Bit(was + Pow2(b), i) <==> i == b || Bit(was, i) { SetBit(was, b, i); }
      own[w] := own[w] + Pow2(b);
      OneBit(idx);
      code := OwnOk;
    }

    method Release(idx: nat) returns (code: OwnCode)
      requires Valid()
      modifies own
      ensures Valid()
      ensures code == if idx >= count then ERange else if idx in old(Owned()) then OwnOk else EInval
      ensures Owned() == old(Owned()) - {idx}
    {
      if idx >= count {
        return ERange;
      }
      var w, b := idx / BPW, idx % BPW;
      if !Bit(own[w], b) {
        return EInval;
      }
      ghost var was := own[w];
      ClearBit(was, b, 0);
      forall i: nat ensures Bit(was - Pow2(b), i) <==> i != b && Bit(was, i) { ClearBit(was, b, i); }
      own[w] := own[w] - Pow2(b);
      OneBit(idx);
      code := OwnOk;
    }

    method IsKernel(idx: nat) returns (r: bool)
      requires Valid()
      ensures r <==> idx in Owned()
    {
      if idx >= count {
        return false;
      }
      r := Bit(own[idx / BPW], idx % BPW);
    }

    /** Any word nonzero: exact, because the unused bits of the last word stay clear. */
    method AnyKernel() returns (r: bool)
      requires Valid()
      ensures r <==> Owned() != {}
    {
      for w := 0 to own.Length
        invariant forall i: nat :: i / BPW < w ==> !Has(i)
      {
        NonZero(own[w], BPW);
        if own[w] != 0 {
          ghost var b :| 0 <= b < BPW && Bit(own[w], b);
          assert Has(BPW * w + b) by { assert (BPW * w + b) / BPW == w && (BPW * w + b) % BPW == b; }
          assert BPW * w + b in Owned();
          return true;
        }
        forall i: nat | i / BPW == w ensures !Has(i) { NoBits(i % BPW); }
      }
      assert forall i: nat :: !Has(i);
      r := false;
    }
  }
}
