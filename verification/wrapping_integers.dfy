/** 32-bit sequence numbers and their 64-bit "absolute" counterparts
    (libsponge/wrapping_integers.hh and libsponge/wrapping_integers.cc).
    Every C++ conversion that can wrap is written out with Mod32 or Mod64. */
module WrappingIntegers {
  const TWO16: int := 0x1_0000
  const TWO31: int := 0x8000_0000
  const TWO32: int := 0x1_0000_0000
  const TWO63: int := 0x8000_0000_0000_0000
  const TWO64: int := 0x1_0000_0000_0000_0000

  type byte = n: nat | n < 0x100
  type uint16 = n: nat | n < 0x1_0000
  type uint32 = n: nat | n < 0x1_0000_0000
  type uint64 = n: nat | n < 0x1_0000_0000_0000_0000

  function Mod16(n: int): uint16 { n % 0x1_0000 }

  function Mod32(n: int): uint32 { n % 0x1_0000_0000 }

  function Mod64(n: int): uint64 { n % 0x1_0000_0000_0000_0000 }

  /** Numbers in range are unaffected. */
  lemma InRange(n: int)
    ensures 0 <= n < TWO32 ==> Mod32(n) == n
    ensures 0 <= n < TWO64 ==> Mod64(n) == n
  {
  }

  lemma ModAdd(a: int, b: int)
    ensures Mod32(Mod32(a) + b) == Mod32(a + b)
  {
  }

  lemma MulMono(a: nat, b: nat, d: nat)
    requires a <= b
    ensures a * d <= b * d
  {
    assert 0 <= (b - a) * d;
  }

  lemma DivIs(v: nat, d: nat, q: nat, r: nat)
    requires d > 0 && v == q * d + r && r < d
    ensures v / d == q
  {
    var k := v / d;
    assert v == k * d + v % d;
    if k != q {
      MulMono(if k < q then k + 1 else q + 1, if k < q then q else k, d);
    }
  }

  function Min(a: nat, b: nat): nat { if a < b then a else b }

  function Max(a: nat, b: nat): nat { if a < b then b else a }

  function Pow2(k: nat): (p: nat)
    ensures p > 0
  {
    if k == 0 then 1 else 2 * Pow2(k - 1)
  }

  function Distance(a: int, b: int): nat { if a < b then b - a else a - b }

  /** The 32-bit number that stands for absolute number `n`. */
  function Wrap(n: nat, isn: uint32): uint32 { Mod32(isn + Mod32(n)) }

  /** The source's `abs`: the argument is reinterpreted as signed.  Negating the least
      signed value would overflow, so no caller may pass it. */
  function Abs64(i: uint64): (r: nat)
    requires i != TWO63
    ensures i < TWO63 ==> r == i
    ensures TWO63 < i ==> r == TWO64 - i
  {
    if i < TWO63 then i else TWO64 - i
  }

  /** Subtracting in 64 bits and taking the signed magnitude gives the true distance
      when the operands are less than 2^63 apart. */
  lemma Abs64OfDifference(a: uint64, b: uint64)
    requires Distance(a, b) < TWO63
    ensures Mod64(a - b) != TWO63
    ensures Abs64(Mod64(a - b)) == Distance(a, b)
  {
    if a < b {
      assert (a - b) % TWO64 == a - b + TWO64;
    }
  }

  /** The source's distance computation, in wrapping 64-bit arithmetic. */
  function Diff64(checkpoint: uint64, candidate: uint64): (r: nat)
    requires Distance(checkpoint, candidate) < TWO63
    ensures r == Distance(checkpoint, candidate)
  {
    Abs64OfDifference(checkpoint, candidate);
    Abs64(Mod64(checkpoint - candidate))
  }

  /** The absolute number that wraps to `n` and lies closest to `checkpoint`: the number in
      the checkpoint's own block of 2^32, or its neighbour in the block before or after. */
  function Unwrap(n: uint32, isn: uint32, checkpoint: uint64): (r: uint64)
  {
    BlockStart(checkpoint);
    var seqno := Mod32(n - isn);
    var center := checkpoint - checkpoint % TWO32 + seqno;
    var centerDiff := Diff64(checkpoint, center);
    if TWO32 - 1 < checkpoint && Diff64(checkpoint, center - TWO32) < centerDiff then
      center - TWO32
    else if checkpoint < TWO64 - TWO32 && Diff64(checkpoint, center + TWO32) < centerDiff then
      center + TWO32
    else
      center
  }

  /** Two numbers wrap alike exactly when they differ by a multiple of 2^32. */
  lemma WrapCongruence(v: nat, w: nat, isn: uint32)
    ensures Wrap(v, isn) == Wrap(w, isn) <==> (v - w) % TWO32 == 0
    ensures Wrap(v, isn) == Wrap(w, isn) && v != w ==> TWO32 <= Distance(v, w)
  {
  }

  /** The number Unwrap picks really wraps to its argument, and no 64-bit number that does
      lies closer to the checkpoint. */
  lemma UnwrapIsNearest(n: uint32, isn: uint32, checkpoint: uint64)
    ensures Wrap(Unwrap(n, isn, checkpoint), isn) == n
    ensures forall v: uint64 :: Wrap(v, isn) == n ==>
              Distance(Unwrap(n, isn, checkpoint), checkpoint) <= Distance(v, checkpoint)
  {
    var u := Unwrap(n, isn, checkpoint);
    UnwrapWraps(n, isn, checkpoint);
    forall v: uint64 | Wrap(v, isn) == n
      ensures Distance(u, checkpoint) <= Distance(v, checkpoint)
    {
      WrapCongruence(u, v, isn);
      NearestOfThree(n, isn, checkpoint, v);
    }
  }

  lemma SameResidue(q: int, r: uint32)
    ensures (q * TWO32 + r) % TWO32 == r
    ensures (q * TWO32 + r) / TWO32 == q
  {
  }

  /** What Unwrap picks has the wanted remainder, in the checkpoint's block or next to it. */
  lemma UnwrapPicks(n: uint32, isn: uint32, checkpoint: uint64)
    ensures var center := checkpoint - checkpoint % TWO32 + Mod32(n - isn);
            var u := Unwrap(n, isn, checkpoint);
            u == center || u == center - TWO32 || u == center + TWO32
  {
    hide Mod32, Mod64, Abs64;
  }

  lemma UnwrapWraps(n: uint32, isn: uint32, checkpoint: uint64)
    ensures Wrap(Unwrap(n, isn, checkpoint), isn) == n
  {
    hide Unwrap;
    var seqno := Mod32(n - isn);
    var q := checkpoint / TWO32;
    UnwrapPicks(n, isn, checkpoint);
    assert checkpoint - checkpoint % TWO32 == q * TWO32;
    SameResidue(q - 1, seqno);
    SameResidue(q, seqno);
    SameResidue(q + 1, seqno);
    assert Mod32(Unwrap(n, isn, checkpoint)) == seqno;
    assert Mod32(isn + seqno) == n;
  }

  lemma NearestOfThree(n: uint32, isn: uint32, checkpoint: uint64, v: uint64)
    requires Wrap(v, isn) == n
    ensures Distance(Unwrap(n, isn, checkpoint), checkpoint) <= Distance(v, checkpoint)
  {
    hide Unwrap;
    var r, c, q, k := Mod32(n - isn), checkpoint % TWO32, checkpoint / TWO32, v / TWO32;
    assert Mod32(v) == r;
    assert checkpoint == q * TWO32 + c && v == k * TWO32 + r;
    NearestCandidate(n, isn, checkpoint, q, c);
    Nearest(r, c, q, k);
  }

  /** None of the three candidates in 64 bits is nearer than the one picked. */
  lemma NearestCandidate(n: uint32, isn: uint32, checkpoint: uint64, q: nat, c: uint32)
    requires checkpoint == q * TWO32 + c && c == checkpoint % TWO32
    ensures var d := Distance(Unwrap(n, isn, checkpoint), checkpoint);
            var r := Mod32(n - isn);
            && d <= Distance(q * TWO32 + r, checkpoint)
            && (q >= 1 ==> d <= Distance((q - 1) * TWO32 + r, checkpoint))
            && (q + 1 < TWO32 ==> d <= Distance((q + 1) * TWO32 + r, checkpoint))
  {
    hide Mod32, Mod64, Abs64;
  }

  /** The same in blocks: number `r` of block `k` against the candidates around block `q`. */
  lemma Nearest(r: uint32, c: uint32, q: nat, k: nat)
    ensures k < q - 1 ==> Distance((q - 1) * TWO32 + r, q * TWO32 + c) <= Distance(k * TWO32 + r, q * TWO32 + c)
    ensures k > q + 1 ==> Distance((q + 1) * TWO32 + r, q * TWO32 + c) <= Distance(k * TWO32 + r, q * TWO32 + c)
  {
  }

  /** Round trip: a number less than 2^31 away from the checkpoint survives wrapping. */
  lemma UnwrapOfWrap(v: uint64, isn: uint32, checkpoint: uint64)
    requires Distance(v, checkpoint) < TWO31
    ensures Unwrap(Wrap(v, isn), isn, checkpoint) == v
  {
    var u := Unwrap(Wrap(v, isn), isn, checkpoint);
    UnwrapIsNearest(Wrap(v, isn), isn, checkpoint);
    assert Distance(u, checkpoint) <= Distance(v, checkpoint);
    WrapCongruence(u, v, isn);
  }

  /** Where the block of 2^32 numbers around a checkpoint starts. */
  lemma BlockStart(checkpoint: uint64)
    ensures checkpoint - checkpoint % TWO32 <= TWO64 - TWO32
    ensures TWO32 <= checkpoint ==> TWO32 <= checkpoint - checkpoint % TWO32
    ensures checkpoint < TWO64 - TWO32 ==> checkpoint - checkpoint % TWO32 <= TWO64 - 2 * TWO32
  {
    var q := checkpoint / TWO32;
    assert checkpoint == q * TWO32 + checkpoint % TWO32;
  }
}
