/** Reading and writing integers in network byte order (libsponge/util/parser.cc). */
module Parsers {
  import opened WrappingIntegers

  datatype ParseResult =
    | NoError | BadChecksum | PacketTooShort | WrongIPVersion | HeaderTooShort | TruncatedPacket

  datatype Parsed<+T> = Ok(value: T) | Err(error: ParseResult)

  /** The value of a big-endian sequence of bytes. */
  function FromBytes(b: seq<byte>): nat {
    if b == [] then 0 else 256 * FromBytes(b[..|b| - 1]) + b[|b| - 1]
  }

  /** The low `n` bytes of `v`, most significant first. */
  function ToBytes(v: nat, n: nat): (b: seq<byte>)
    ensures |b| == n
  {
    if n == 0 then [] else ToBytes(v / 256, n - 1) + [v % 256]
  }

  function Pow256(n: nat): (p: nat)
    ensures p > 0
  {
    if n == 0 then 1 else 256 * Pow256(n - 1)
  }

  /** Reading back what was written. */
  lemma {:induction false} BytesRoundTrip(v: nat, n: nat)
    requires v < Pow256(n)
    ensures FromBytes(ToBytes(v, n)) == v
  {
    if n > 0 {
      BytesRoundTrip(v / 256, n - 1);
      var b := ToBytes(v, n);
      assert b[..n - 1] == ToBytes(v / 256, n - 1);
    }
  }

  lemma {:induction false} FromBytesBound(b: seq<byte>)
    ensures FromBytes(b) < Pow256(|b|)
  {
    if b != [] {
      FromBytesBound(b[..|b| - 1]);
    }
  }

  /** Network byte order: the first byte counts most. */
  lemma {:induction false} FirstCountsMost(b: seq<byte>)
    requires b != []
    ensures FromBytes(b) == b[0] * Pow256(|b| - 1) + FromBytes(b[1..])
  {
    var n := |b| - 1;
    if n > 0 {
      var front, rest := b[..n], b[1..];
      FirstCountsMost(front);
      assert rest[..n - 1] == front[1..] && rest[n - 1] == b[n];
      calc {
        FromBytes(b);
        256 * FromBytes(front) + b[n];
        256 * (b[0] * Pow256(n - 1) + FromBytes(front[1..])) + b[n];
        256 * (b[0] * Pow256(n - 1)) + FromBytes(rest);
        { Times256(b[0], Pow256(n - 1)); }
        b[0] * Pow256(n) + FromBytes(rest);
      }
    } else {
      assert b[..0] == [] && b[1..] == [];
    }
  }

  lemma Times256(a: nat, p: nat)
    ensures 256 * (a * p) == a * (256 * p)
  {
  }

  lemma Pow256Values()
    ensures Pow256(1) == 0x100 && Pow256(2) == 0x1_0000 && Pow256(4) == 0x1_0000_0000
  {
    assert Pow256(3) == 0x100_0000;
  }

  /** Field number: the `n` bytes at offset `at`, or 0 when the data is too short. */
  function Field(b: seq<byte>, at: nat, n: nat): nat {
    if at + n <= |b| then FromBytes(b[at..at + n]) else 0
  }

  lemma FieldBound(b: seq<byte>, at: nat, n: nat)
    ensures Field(b, at, n) < Pow256(n)
  {
    if at + n <= |b| {
      FromBytesBound(b[at..at + n]);
    }
  }

  lemma FieldsFit(b: seq<byte>)
    ensures forall at: nat :: Field(b, at, 1) < 0x100 && Field(b, at, 2) < 0x1_0000 && Field(b, at, 4) < 0x1_0000_0000
  {
    Pow256Values();
    forall at: nat ensures Field(b, at, 1) < 0x100 && Field(b, at, 2) < 0x1_0000 && Field(b, at, 4) < 0x1_0000_0000 {
      FieldBound(b, at, 1);
      FieldBound(b, at, 2);
      FieldBound(b, at, 4);
    }
  }

  lemma WholeField(b: seq<byte>, at: nat, n: nat)
    requires at + n <= |b|
    ensures Field(b, at, n) == FromBytes(b[at..at + n])
  {
  }

  lemma OneByte(b: seq<byte>, at: nat)
    requires at < |b|
    ensures Field(b, at, 1) == b[at]
  {
    var one := [b[at]];
    assert b[at..at + 1] == one && one[..0] == [];
    assert FromBytes(one) == 256 * FromBytes(one[..0]) + one[0];
  }

  // ----- Flag bits and padding -----

  function Bit(b: bool, weight: nat): nat { if b then weight else 0 }

  predicate HasBit(n: nat, weight: nat)
    requires weight > 0
  {
    (n / weight) % 2 == 1
  }

  function Zeros(n: nat): seq<byte> { seq(n, _ => 0) }

  // ----- Headers as lists of numbers with widths -----

  datatype Num = Num(value: nat, width: nat)

  function Layout(nums: seq<Num>): (b: seq<byte>) {
    if nums == [] then [] else Layout(nums[..|nums| - 1]) + ToBytes(nums[|nums| - 1].value, nums[|nums| - 1].width)
  }

  /** Where number `k` of a layout starts. */
  function Offset(nums: seq<Num>, k: nat): nat
    requires k <= |nums|
  {
    if k == 0 then 0 else Offset(nums, k - 1) + nums[k - 1].width
  }

  lemma OffsetZero(nums: seq<Num>)
    ensures Offset(nums, 0) == 0
  {
  }

  lemma {:induction false} LayoutLength(nums: seq<Num>, k: nat)
    requires k <= |nums|
    ensures |Layout(nums[..k])| == Offset(nums, k)
  {
    if k > 0 {
      LayoutLength(nums, k - 1);
      assert nums[..k][..k - 1] == nums[..k - 1];
    }
  }

  lemma {:induction false} LayoutPrefix(nums: seq<Num>, k: nat)
    requires k <= |nums|
    ensures Layout(nums[..k]) <= Layout(nums)
    decreases |nums| - k
  {
    if k == |nums| {
      assert nums[..k] == nums;
    } else {
      LayoutPrefix(nums, k + 1);
      assert nums[..k + 1][..k] == nums[..k];
    }
  }

  lemma LayoutExtend(nums: seq<Num>, k: nat)
    requires k < |nums|
    ensures Layout(nums[..k + 1]) == Layout(nums[..k]) + ToBytes(nums[k].value, nums[k].width)
  {
    assert nums[..k + 1][..k] == nums[..k];
  }

  lemma SliceAfter(front: seq<byte>, piece: seq<byte>, whole: seq<byte>, rest: seq<byte>)
    requires front + piece <= whole
    ensures (whole + rest)[|front|..|front| + |piece|] == piece
  {
    assert (front + piece)[|front|..] == piece;
    assert (whole + rest)[..|front| + |piece|] == front + piece;
  }

  /** Every number that fits its width is read back from its place in a layout, whatever
      follows the layout. */
  lemma LayoutField(nums: seq<Num>, k: nat, rest: seq<byte>)
    requires k < |nums| && nums[k].value < Pow256(nums[k].width)
    ensures Field(Layout(nums) + rest, Offset(nums, k), nums[k].width) == nums[k].value
  {
    hide Layout, ToBytes, FromBytes, Pow256;
    LayoutLength(nums, k);
    LayoutLength(nums, k + 1);
    LayoutPrefix(nums, k + 1);
    LayoutExtend(nums, k);
    SliceAfter(Layout(nums[..k]), ToBytes(nums[k].value, nums[k].width), Layout(nums), rest);
    BytesRoundTrip(nums[k].value, nums[k].width);
  }

  class NetParser {
    var buffer: seq<byte>
    var error: ParseResult

    constructor (buffer: seq<byte>)
      ensures this.buffer == buffer && error == NoError
    {
      this.buffer, error := buffer, NoError;
    }

    method CheckSize(n: nat)
      modifies this`error
      ensures error == if n > |buffer| then PacketTooShort else old(error)
    {
      if n > |buffer| {
        error := PacketTooShort;
      }
    }

    /** Reads `n` bytes as one integer; after an error, 0. */
    method ParseInt(n: nat) returns (v: nat)
      modifies this
      ensures error == if n > |old(buffer)| then PacketTooShort else old(error)
      ensures error == NoError ==> v == FromBytes(old(buffer)[..n]) && buffer == old(buffer)[n..]
      ensures error != NoError ==> v == 0 && buffer == old(buffer)
      ensures v < Pow256(n)
    {
      CheckSize(n);
      v := 0;
      if error != NoError {
        return;
      }
      for i := 0 to n
        invariant v == FromBytes(buffer[..i])
        invariant buffer == old(buffer) && error == NoError
      {
        assert buffer[..i + 1][..i] == buffer[..i];
        v := 256 * v + buffer[i];
      }
      FromBytesBound(buffer[..n]);
      buffer := buffer[n..];
    }

    method RemovePrefix(n: nat)
      modifies this
      ensures error == if n > |old(buffer)| then PacketTooShort else old(error)
      ensures buffer == if error == NoError then old(buffer)[n..] else old(buffer)
    {
      CheckSize(n);
      if error != NoError {
        return;
      }
      buffer := buffer[n..];
    }
  }

  /** The parser has consumed the first `at` bytes of `b`, or run into its end. */
  ghost predicate At(p: NetParser, b: seq<byte>, at: nat)
    reads p
  {
    if p.error == NoError then at <= |b| && p.buffer == b[at..] else p.error == PacketTooShort && |b| < at
  }

  method ReadField(p: NetParser, ghost b: seq<byte>, ghost at: nat, n: nat) returns (v: nat)
    requires At(p, b, at)
    modifies p
    ensures At(p, b, at + n)
    ensures v == Field(b, at, n) && v < Pow256(n)
  {
    if p.error == NoError && at + n <= |b| {
      assert p.buffer[..n] == b[at..at + n];
    }
    v := p.ParseInt(n);
  }

  /** Appends the `n` low bytes of `v` to `s`, most significant first. */
  method UnparseInt(s: seq<byte>, v: nat, n: nat) returns (r: seq<byte>)
    ensures r == s + ToBytes(v, n)
  {
    hide Pow256;
    r := s;
    for i := 0 to n
      invariant r == s + ToBytes(v / Pow256(n - i), i)
    {
      var p := Pow256(n - i - 1);
      Pow256Step(n - i - 1);
      ToBytesStep(v, p, i);
      r := r + [(v / p) % 256];
    }
    Pow256Step(0);
  }

  /** Writes a whole layout, number by number. */
  method UnparseAll(nums: seq<Num>) returns (r: seq<byte>)
    ensures r == Layout(nums)
  {
    r := [];
    for k := 0 to |nums|
      invariant r == Layout(nums[..k])
    {
      LayoutExtend(nums, k);
      r := UnparseInt(r, nums[k].value, nums[k].width);
    }
    assert nums[..|nums|] == nums;
  }

  lemma Pow256Step(k: nat)
    ensures Pow256(0) == 1 && Pow256(k + 1) == 256 * Pow256(k)
  {
  }

  lemma ToBytesStep(v: nat, p: nat, i: nat)
    requires p > 0
    ensures ToBytes(v / (256 * p), i) + [(v / p) % 256] == ToBytes(v / p, i + 1)
  {
    DivTwice(v, p);
  }

  lemma DivTwice(v: nat, p: nat)
    requires p > 0
    ensures v / (256 * p) == (v / p) / 256
  {
    var q, r := v / p, v % p;
    var a, b := q / 256, q % 256;
    assert v == q * p + r;
    Distribute(a, b, p);
    DivIs(v, 256 * p, a, b * p + r);
  }

  lemma Distribute(a: nat, b: nat, p: nat)
    requires b < 256
    ensures (256 * a + b) * p == a * (256 * p) + b * p
    ensures b * p <= 255 * p
  {
    assert 0 <= (255 - b) * p;
  }
}
