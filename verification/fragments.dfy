/** Lists of out-of-order fragments: what coalescing and sorted insertion compute
    (libsponge/stream_reassembler.cc:26-62 and 120-147). */
module Fragments {
  import opened WrappingIntegers
  import opened Options

  /** The indices from `lo` up to but not including `hi`. */
  ghost function Interval(lo: nat, hi: nat): (s: set<nat>)
    ensures forall i :: i in s <==> lo <= i < hi
    ensures |s| == if lo <= hi then hi - lo else 0
    decreases hi
  {
    if hi <= lo then {} else Interval(lo, hi - 1) + {hi - 1}
  }

  /** A run of bytes and the stream index of its first byte (ByteString). */
  datatype Fragment = Fragment(index: nat, str: seq<byte>) {
    function Right(): nat { index + |str| }

    /** The stream indices the fragment holds. */
    ghost function Held(): set<nat> { Interval(index, Right()) }

    /** The fragment is the piece of `stream` that its index names. */
    ghost predicate PieceOf(stream: seq<byte>) {
      Right() <= |stream| && str == stream[index..Right()]
    }
  }

  /** Both fragments as one, when they overlap or touch. */
  function Coalesce(a: Fragment, b: Fragment): Option<Fragment> {
    if a.index <= b.index && a.Right() >= b.Right() then Some(a)
    else if b.index <= a.index && b.Right() >= a.Right() then Some(b)
    else if a.index < b.index && a.Right() >= b.index then
      Some(Fragment(a.index, a.str + b.str[a.Right() - b.index..]))
    else if b.index < a.index && b.Right() >= a.index then
      Some(Fragment(b.index, b.str + a.str[b.Right() - a.index..]))
    else None
  }

  /** Merges `r` with as many fragments of the front of `rest` as it reaches. */
  function Absorb(r: Fragment, rest: seq<Fragment>): (fs: seq<Fragment>)
    ensures fs != []
    decreases |rest|
  {
    if rest != [] && Coalesce(r, rest[0]).Some? then Absorb(Coalesce(r, rest[0]).value, rest[1..])
    else [r] + rest
  }

  /** Where the insertion loop puts `b`. */
  function Insert(fs: seq<Fragment>, b: Fragment): (r: seq<Fragment>)
    decreases |fs|
  {
    if fs == [] then [b]
    else if b.Right() < fs[0].index then [b] + fs
    else if Coalesce(b, fs[0]).Some? then Absorb(Coalesce(b, fs[0]).value, fs[1..])
    else [fs[0]] + Insert(fs[1..], b)
  }

  /** Fragments in increasing order, each separated from the next by a missing index. */
  ghost predicate Separated(fs: seq<Fragment>) {
    fs == [] || (StartAfter(fs[1..], fs[0].Right()) && Separated(fs[1..]))
  }

  ghost predicate StartAfter(fs: seq<Fragment>, n: int) {
    forall f :: f in fs ==> n < f.index
  }

  ghost predicate EndBy(fs: seq<Fragment>, n: int) {
    forall f :: f in fs ==> f.Right() <= n
  }

  ghost predicate PiecesOf(fs: seq<Fragment>, stream: seq<byte>) {
    forall f :: f in fs ==> f.PieceOf(stream)
  }

  /** The set of stream indices a list holds. */
  ghost function HeldBy(fs: seq<Fragment>): set<nat> {
    if fs == [] then {} else fs[0].Held() + HeldBy(fs[1..])
  }

  /** The number of bytes stored in a list. */
  function TotalSize(fs: seq<Fragment>): nat {
    if fs == [] then 0 else |fs[0].str| + TotalSize(fs[1..])
  }

  /** Coalescing succeeds exactly when no index is missing between the two fragments; the
      result holds the union of their indices and is a piece of any stream both come from. */
  lemma CoalesceIsUnion(a: Fragment, b: Fragment)
    ensures Coalesce(a, b).Some? <==> a.index <= b.Right() && b.index <= a.Right()
    ensures Coalesce(a, b).Some? ==>
              var r := Coalesce(a, b).value;
              && r.index == Min(a.index, b.index)
              && (r.Right() == a.Right() || r.Right() == b.Right())
              && a.Right() <= r.Right() && b.Right() <= r.Right()
              && r.Held() == a.Held() + b.Held()
  {
  }

  lemma CoalesceIsPiece(a: Fragment, b: Fragment, stream: seq<byte>)
    requires Coalesce(a, b).Some? && a.PieceOf(stream) && b.PieceOf(stream)
    ensures Coalesce(a, b).value.PieceOf(stream)
  {
    var r := Coalesce(a, b).value;
    CoalesceIsUnion(a, b);
    assert r.str == stream[r.index..r.Right()];
  }

  lemma {:induction false} AbsorbStarts(r: Fragment, rest: seq<Fragment>, n: int)
    requires StartAfter(rest, n) && n < r.index
    ensures StartAfter(Absorb(r, rest), n)
    decreases |rest|
  {
    if rest != [] && Coalesce(r, rest[0]).Some? {
      assert rest[0] in rest;
      CoalesceIsUnion(r, rest[0]);
      AbsorbStarts(Coalesce(r, rest[0]).value, rest[1..], n);
    }
  }

  /** Absorbing keeps the list separated ... */
  lemma {:induction false} AbsorbSeparates(r: Fragment, rest: seq<Fragment>)
    requires Separated(rest) && StartAfter(rest, r.index)
    ensures Separated(Absorb(r, rest))
    decreases |rest|
  {
    if rest != [] {
      CoalesceIsUnion(r, rest[0]);
      assert rest[0] in rest;
      if Coalesce(r, rest[0]).Some? {
        AbsorbSeparates(Coalesce(r, rest[0]).value, rest[1..]);
      } else {
        assert ([r] + rest)[1..] == rest;
      }
    }
  }

  /** ... and holds the union of the indices. */
  lemma {:induction false} AbsorbIsUnion(r: Fragment, rest: seq<Fragment>)
    ensures HeldBy(Absorb(r, rest)) == r.Held() + HeldBy(rest)
    decreases |rest|
  {
    if rest != [] && Coalesce(r, rest[0]).Some? {
      CoalesceIsUnion(r, rest[0]);
      AbsorbIsUnion(Coalesce(r, rest[0]).value, rest[1..]);
    } else {
      assert ([r] + rest)[1..] == rest;
    }
  }

  lemma {:induction false} InsertStarts(fs: seq<Fragment>, b: Fragment, n: int)
    requires StartAfter(fs, n) && n < b.index
    ensures StartAfter(Insert(fs, b), n)
    decreases |fs|
  {
    if fs != [] && fs[0].index <= b.Right() {
      assert fs[0] in fs;
      if Coalesce(b, fs[0]).Some? {
        CoalesceIsUnion(b, fs[0]);
        AbsorbStarts(Coalesce(b, fs[0]).value, fs[1..], n);
      } else {
        InsertStarts(fs[1..], b, n);
      }
    }
  }

  /** Inserting keeps the list separated ... */
  lemma {:induction false} InsertSeparates(fs: seq<Fragment>, b: Fragment)
    requires Separated(fs)
    ensures Separated(Insert(fs, b))
    decreases |fs|
  {
    if fs != [] {
      CoalesceIsUnion(b, fs[0]);
      if b.Right() < fs[0].index {
        assert ([b] + fs)[1..] == fs;
      } else if Coalesce(b, fs[0]).Some? {
        AbsorbSeparates(Coalesce(b, fs[0]).value, fs[1..]);
      } else {
        InsertSeparates(fs[1..], b);
        InsertStarts(fs[1..], b, fs[0].Right());
        assert Insert(fs, b)[1..] == Insert(fs[1..], b);
      }
    }
  }

  /** ... and holds the union of the indices. */
  lemma {:induction false} InsertIsUnion(fs: seq<Fragment>, b: Fragment)
    ensures HeldBy(Insert(fs, b)) == HeldBy(fs) + b.Held()
    decreases |fs|
  {
    if fs == [] {
      HeldByCons(b, []);
    } else if b.Right() < fs[0].index {
      HeldByCons(b, fs);
    } else if Coalesce(b, fs[0]).Some? {
      var r := Coalesce(b, fs[0]).value;
      assert r.Held() == b.Held() + fs[0].Held() by { CoalesceIsUnion(b, fs[0]); }
      AbsorbIsUnion(r, fs[1..]);
    } else {
      InsertIsUnion(fs[1..], b);
      HeldByCons(fs[0], Insert(fs[1..], b));
    }
  }

  lemma HeldByCons(f: Fragment, fs: seq<Fragment>)
    ensures HeldBy([f] + fs) == f.Held() + HeldBy(fs)
  {
    assert ([f] + fs)[1..] == fs;
  }

  lemma {:induction false} AbsorbBounded(r: Fragment, rest: seq<Fragment>, n: int)
    requires r.Right() <= n && EndBy(rest, n)
    ensures EndBy(Absorb(r, rest), n)
    decreases |rest|
  {
    if rest != [] && Coalesce(r, rest[0]).Some? {
      assert rest[0] in rest;
      AbsorbBounded(Coalesce(r, rest[0]).value, rest[1..], n);
    }
  }

  lemma {:induction false} InsertBounded(fs: seq<Fragment>, b: Fragment, n: int)
    requires b.Right() <= n && EndBy(fs, n)
    ensures EndBy(Insert(fs, b), n)
    decreases |fs|
  {
    if fs != [] && fs[0].index <= b.Right() {
      assert fs[0] in fs;
      if Coalesce(b, fs[0]).Some? {
        AbsorbBounded(Coalesce(b, fs[0]).value, fs[1..], n);
      } else {
        InsertBounded(fs[1..], b, n);
      }
    }
  }

  lemma {:induction false} AbsorbKeepsPieces(r: Fragment, rest: seq<Fragment>, stream: seq<byte>)
    requires r.PieceOf(stream) && PiecesOf(rest, stream)
    ensures PiecesOf(Absorb(r, rest), stream)
    decreases |rest|
  {
    if rest != [] && Coalesce(r, rest[0]).Some? {
      CoalesceIsPiece(r, rest[0], stream);
      AbsorbKeepsPieces(Coalesce(r, rest[0]).value, rest[1..], stream);
    }
  }

  /** Inserting a piece of a stream among pieces of it leaves pieces of it. */
  lemma {:induction false} InsertKeepsPieces(fs: seq<Fragment>, b: Fragment, stream: seq<byte>)
    requires b.PieceOf(stream) && PiecesOf(fs, stream)
    ensures PiecesOf(Insert(fs, b), stream)
    decreases |fs|
  {
    if fs != [] && fs[0].index <= b.Right() {
      if Coalesce(b, fs[0]).Some? {
        CoalesceIsPiece(b, fs[0], stream);
        AbsorbKeepsPieces(Coalesce(b, fs[0]).value, fs[1..], stream);
      } else {
        InsertKeepsPieces(fs[1..], b, stream);
      }
    }
  }

  /** In a separated list no index is stored twice: the stored bytes are as many as the
      distinct indices held. */
  lemma {:induction false} TotalSizeIsCardinality(fs: seq<Fragment>)
    requires Separated(fs)
    ensures TotalSize(fs) == |HeldBy(fs)|
  {
    if fs != [] {
      TotalSizeIsCardinality(fs[1..]);
      HeldRange(fs[1..], fs[0].Right());
    }
  }

  /** Everything held lies between the bounds of the fragments. */
  lemma {:induction false} HeldRange(fs: seq<Fragment>, n: int)
    requires StartAfter(fs, n)
    ensures forall i :: i in HeldBy(fs) ==> n < i
  {
    if fs != [] {
      HeldRange(fs[1..], n);
    }
  }

  lemma {:induction false} HeldBound(fs: seq<Fragment>, n: int)
    requires EndBy(fs, n)
    ensures forall i :: i in HeldBy(fs) ==> i < n
  {
    if fs != [] {
      HeldBound(fs[1..], n);
    }
  }

  /** A separated list between `lo` and `hi` stores at most the bytes in between. */
  lemma TotalSizeBound(fs: seq<Fragment>, lo: nat, hi: nat)
    requires Separated(fs) && StartAfter(fs, lo) && EndBy(fs, hi) && lo <= hi
    ensures TotalSize(fs) <= hi - lo
  {
    TotalSizeIsCardinality(fs);
    HeldRange(fs, lo);
    HeldBound(fs, hi);
    SubsetCardinality(HeldBy(fs), Interval(lo, hi));
  }

  lemma {:induction false} SubsetCardinality(a: set<nat>, b: set<nat>)
    requires a <= b
    ensures |a| <= |b|
  {
    if a != {} {
      var x :| x in a;
      SubsetCardinality(a - {x}, b - {x});
    }
  }
}
