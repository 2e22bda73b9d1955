/** The Internet checksum (libsponge/util/util.cc:87-108, RFC 1071). */
module Checksums {
  import opened WrappingIntegers
  import opened Parsers

  /** The sum of the bytes of `data` taken in pairs, the first of a pair counting 256-fold;
      `odd` tells that the first byte of `data` is the second of its pair. */
  function SumBytes(data: seq<byte>, odd: bool): nat {
    if data == [] then 0
    else (if odd then data[0] else 256 * data[0]) + SumBytes(data[1..], !odd)
  }

  /** Carries added back in until 16 bits are left. */
  function Fold(n: nat): nat {
    if n <= 0xFFFF then n else Fold(n / 0x1_0000 + n % 0x1_0000)
  }

  function Complement(n: nat): uint16
    requires n <= 0xFFFF
  {
    0xFFFF - n
  }

  /** The checksum of a sum. */
  function ValueOf(sum: nat): uint16 {
    FoldIsResidue(sum);
    Complement(Fold(sum))
  }

  class InternetChecksum {
    var sum: uint32
    var odd: bool

    constructor (initial: uint32)
      ensures sum == initial && !odd
    {
      sum, odd := initial, false;
    }

    method Add(data: seq<byte>)
      modifies this
      ensures sum == Mod32(old(sum) + SumBytes(data, old(odd)))
      ensures odd == (old(odd) != (|data| % 2 == 1))
    {
      hide Mod32;
      ghost var start, parity := sum, odd;
      for i := 0 to |data|
        invariant odd == (parity != (i % 2 == 1))
        invariant Mod32(sum + SumBytes(data[i..], odd)) == Mod32(start + SumBytes(data, parity))
      {
        assert data[i..][1..] == data[i + 1..];
        var val: nat := data[i];
        if !odd {
          val := val * 256;
        }
        ModAdd(sum + val, SumBytes(data[i + 1..], !odd));
        sum := Mod32(sum + val);
        odd := !odd;
      }
      InRange(sum);
    }

    method Value() returns (r: uint16)
      ensures r == ValueOf(sum)
    {
      var ret: nat := sum;
      while ret > 0xFFFF
        invariant Fold(ret) == Fold(sum)
        decreases ret
      {
        ret := ret / 0x1_0000 + ret % 0x1_0000;
      }
      r := 0xFFFF - ret;
    }
  }

  /** Folding keeps the value modulo 65535, fits in 16 bits, and is 0 only for 0. */
  lemma {:induction false} FoldIsResidue(n: nat)
    ensures Fold(n) <= 0xFFFF
    ensures Fold(n) % 0xFFFF == n % 0xFFFF
    ensures Fold(n) == 0 <==> n == 0
  {
    if n > 0xFFFF {
      var q, r := n / 0x1_0000, n % 0x1_0000;
      FoldIsResidue(q + r);
      assert n == q * 0xFFFF + (q + r);
      AddMultiple(q, q + r);
    }
  }

  lemma {:induction false} AddMultiple(q: nat, r: nat)
    ensures (q * 0xFFFF + r) % 0xFFFF == r % 0xFFFF
  {
    if q > 0 {
      AddMultiple(q - 1, r);
      assert q * 0xFFFF + r == ((q - 1) * 0xFFFF + r) + 0xFFFF;
    }
  }

  /** Adding the checksum of a sum to the sum makes the checksum vanish. */
  lemma ChecksumVerifies(n: nat)
    ensures ValueOf(n + ValueOf(n)) == 0
  {
    FoldIsResidue(n);
    var c := 0xFFFF - Fold(n);
    FoldIsResidue(n + c);
    var q := n / 0xFFFF;
    var d := Fold(n) / 0xFFFF;
    assert n + c == (q + 1 - d) * 0xFFFF;
    AddMultiple(q + 1 - d, 0);
    assert (n + c) % 0xFFFF == 0;
  }

  lemma {:induction false} SumConcat(a: seq<byte>, b: seq<byte>, odd: bool)
    ensures SumBytes(a + b, odd) == SumBytes(a, odd) + SumBytes(b, odd != (|a| % 2 == 1))
  {
    if a == [] {
      assert a + b == b;
    } else {
      assert (a + b)[1..] == a[1..] + b;
      SumConcat(a[1..], b, !odd);
    }
  }

  lemma {:induction false} SumBound(data: seq<byte>, odd: bool)
    ensures SumBytes(data, odd) <= 65280 * |data|
  {
    if data != [] {
      SumBound(data[1..], !odd);
    }
  }

  lemma SumOfWord(c: uint16)
    ensures SumBytes(ToBytes(c, 2), false) == c
  {
    var b := ToBytes(c, 2);
    assert ToBytes(c / 256, 1) == ToBytes(c / 256 / 256, 0) + [c / 256 % 256];
    assert b == [c / 256, c % 256];
    assert b[1..] == [c % 256];
    assert SumBytes([c % 256], true) == c % 256 + SumBytes([], false);
  }

  lemma SumOfDouble(v: uint32)
    ensures SumBytes(ToBytes(v, 4), false) == v / TWO16 + v % TWO16
  {
    var hi: uint16, lo: uint16 := v / TWO16, v % TWO16;
    DoubleIsWords(v);
    hide ToBytes;
    SumConcat(ToBytes(hi, 2), ToBytes(lo, 2), false);
    SumOfWord(hi);
    SumOfWord(lo);
  }

  lemma DoubleIsWords(v: uint32)
    ensures ToBytes(v, 4) == ToBytes(v / TWO16, 2) + ToBytes(v % TWO16, 2)
  {
    assert v / 256 / 256 == v / TWO16;
    assert ToBytes(v, 4) == ToBytes(v / 256, 3) + [v % 256];
    assert ToBytes(v / 256, 3) == ToBytes(v / 256 / 256, 2) + [v / 256 % 256];
    var lo := v % TWO16;
    assert lo % 256 == v % 256 && lo / 256 == v / 256 % 256;
    assert ToBytes(lo, 2) == ToBytes(lo / 256, 1) + [lo % 256];
    assert ToBytes(lo / 256, 1) == ToBytes(lo / 256 / 256, 0) + [lo / 256 % 256];
  }

  /** The sum of bytes taken in pairs is the sum of 16-bit words in network byte order, an odd
      byte at the end counting as a word with a zero behind it. */
  lemma SumIsOfWords(data: seq<byte>)
    ensures SumBytes(data, false) ==
            if data == [] then 0
            else if |data| == 1 then FromBytes([data[0], 0])
            else FromBytes(data[..2]) + SumBytes(data[2..], false)
  {
    if |data| == 1 {
      PairValue(data[0], 0);
      assert data[1..] == [];
    } else if |data| > 1 {
      PairValue(data[0], data[1]);
      assert data[..2] == [data[0], data[1]] && data[1..][1..] == data[2..];
    }
  }

  lemma PairValue(a: byte, b: byte)
    ensures FromBytes([a, b]) == 256 * a + b
  {
    assert [a, b][..1] == [a] && [a][..0] == [];
    assert FromBytes([a]) == 256 * FromBytes([]) + a;
  }
}
