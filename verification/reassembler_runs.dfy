/** What the reassembler promises over whole runs of pushes and reads. */
module ReassemblerRuns {
  import opened WrappingIntegers
  import opened ByteStreams
  import opened Fragments
  import opened Options
  import opened Reassembly

  /** The shape every reachable reassembler has: fragments sorted, separated by missing
      indices, and all beyond the next index to be written. */
  ghost predicate Ordered(r: Reassembler) {
    r.Valid() && Separated(r.fragments) && StartAfter(r.fragments, r.index)
  }

  /** `r` was fed pieces of `stream` only, and its reader has taken `left` so far. */
  ghost predicate Follows(r: Reassembler, left: seq<byte>, stream: seq<byte>) {
    && r.index <= |stream|
    && left + r.output.buffer == stream[..r.index]
    && PiecesOf(r.fragments, stream)
  }

  // ----- One push, whatever its position -----

  /** The state in which Flush is called: the front fragment may be next in line. */
  ghost predicate ReadyToFlush(r: Reassembler) {
    r.Valid() && Separated(r.fragments) && StartAfter(r.fragments, r.index - 1)
  }

  lemma FlushOrders(r: Reassembler)
    requires ReadyToFlush(r)
    ensures Ordered(r.Flush())
  {
    if r.fragments != [] {
      assert r.fragments[0] in r.fragments;
      assert forall f :: f in r.fragments ==> f == r.fragments[0] || f in r.fragments[1..];
    }
  }

  lemma FlushFollows(r: Reassembler, left: seq<byte>, stream: seq<byte>)
    requires r.Valid() && Follows(r, left, stream)
    ensures Follows(r.Flush(), left, stream)
  {
    if r.fragments != [] && r.fragments[0].index == r.index {
      var b := r.fragments[0];
      var n := r.output.Taken(b.str);
      assert b in r.fragments;
      assert stream[..r.index] + b.str[..n] == stream[..r.index + n];
      assert left + (r.output.buffer + b.str[..n]) == left + r.output.buffer + b.str[..n];
    }
  }

  lemma SliceOfSlice(s: seq<byte>, i: nat, j: nat, k: nat, n: nat)
    requires i <= j <= |s| && k <= n <= j - i
    ensures s[i..j][k..n] == s[i + k..i + n]
  {
    assert forall x :: 0 <= x < n - k ==> s[i..j][k..n][x] == s[i..j][k + x] == s[i + k..i + n][x];
  }

  lemma TrimIsPiece(r: Reassembler, stream: seq<byte>, data: seq<byte>, at: nat)
    requires Fragment(at, data).PieceOf(stream) && r.Trim(data, at).Some?
    ensures r.Trim(data, at).value.PieceOf(stream)
  {
    hide Mod64;
    var b := r.Trim(data, at).value;
    assert Fragment(at, data).Right() == at + |data|;
    assert b.str == data[b.index - at..b.Right() - at];
    SliceOfSlice(stream, at, at + |data|, b.index - at, b.Right() - at);
  }

  lemma PushOrders(r: Reassembler, data: seq<byte>, at: nat, last: bool)
    requires Ordered(r)
    ensures Ordered(r.Push(data, at, last))
  {
    var m := r.MarkEnd(at + |data|, last);
    var p := m.PushUnassembled(data, at);
    if m.Trim(data, at).Some? {
      InsertSeparates(m.fragments, m.Trim(data, at).value);
      InsertStarts(m.fragments, m.Trim(data, at).value, m.index - 1);
    }
    FlushOrders(p);
  }

  lemma PushFollows(r: Reassembler, left: seq<byte>, stream: seq<byte>, data: seq<byte>, at: nat, last: bool)
    requires r.Valid() && Follows(r, left, stream)
    requires Fragment(at, data).PieceOf(stream)
    ensures Follows(r.Push(data, at, last), left, stream)
  {
    var m := r.MarkEnd(at + |data|, last);
    assert Follows(m, left, stream);
    if !r.Ignores(data, at) {
      var p := m.PushUnassembled(data, at);
      assert r.Push(data, at, last) == p.Flush() && p.Valid();
      hide *;
      InsertFollows(m, left, stream, data, at);
      FlushFollows(p, left, stream);
    }
  }

  lemma InsertFollows(r: Reassembler, left: seq<byte>, stream: seq<byte>, data: seq<byte>, at: nat)
    requires Follows(r, left, stream) && Fragment(at, data).PieceOf(stream)
    ensures Follows(r.PushUnassembled(data, at), left, stream)
  {
    if r.Trim(data, at).Some? {
      TrimIsPiece(r, stream, data, at);
      hide Reassembler.Trim, PiecesOf;
      InsertKeepsPieces(r.fragments, r.Trim(data, at).value, stream);
    }
  }

  /** No push of a piece of the stream, wherever it starts and however it is cut, disturbs
      the order of the fragments or puts a wrong byte into the output. */
  lemma PushKeeps(r: Reassembler, left: seq<byte>, stream: seq<byte>, data: seq<byte>, at: nat, last: bool)
    requires Ordered(r) && Follows(r, left, stream)
    requires Fragment(at, data).PieceOf(stream)
    ensures Ordered(r.Push(data, at, last)) && Follows(r.Push(data, at, last), left, stream)
  {
    PushOrders(r, data, at, last);
    PushFollows(r, left, stream, data, at, last);
  }

  // ----- Pushes that start inside the window refine a set of indices -----

  /** Every index the reassembler knows the byte of: written to the output, or held. */
  ghost function Known(r: Reassembler): set<nat> {
    Interval(0, r.index) + HeldBy(r.fragments)
  }

  ghost predicate LeastMissing(n: nat, s: set<nat>) {
    n !in s && forall i: nat :: i < n ==> i in s
  }

  /** All fragments fit below the window's end. */
  ghost predicate Windowed(r: Reassembler) {
    && Ordered(r)
    && r.WindowEnd() < TWO64
    && EndBy(r.fragments, r.WindowEnd())
  }

  /** The next index to write is the least index not known. */
  lemma IndexIsLeastMissing(r: Reassembler)
    requires Ordered(r)
    ensures LeastMissing(r.index, Known(r))
  {
    HeldRange(r.fragments, r.index);
  }

  /** What is buffered and what is held stay within the capacity together. */
  lemma StaysInCapacity(r: Reassembler)
    requires Windowed(r)
    ensures |r.output.buffer| + TotalSize(r.fragments) <= r.capacity
  {
    TotalSizeBound(r.fragments, r.index, r.WindowEnd());
  }

  lemma IntervalSplit(a: nat, b: nat)
    requires a <= b
    ensures Interval(0, b) == Interval(0, a) + Interval(a, b)
  {
  }

  lemma FlushRefines(r: Reassembler)
    requires ReadyToFlush(r) && EndBy(r.fragments, r.WindowEnd())
    ensures Known(r.Flush()) == Known(r)
    ensures r.Flush().output.Valid() && r.Flush().WindowEnd() == r.WindowEnd()
    ensures EndBy(r.Flush().fragments, r.WindowEnd())
  {
    hide Interval, Separated;
    if r.fragments != [] && r.fragments[0].index == r.index {
      var b := r.fragments[0];
      assert b in r.fragments && b.Right() <= r.WindowEnd();
      assert r.output.Taken(b.str) == |b.str|;
      IntervalSplit(r.index, b.Right());
    }
  }

  lemma InsertRefines(r: Reassembler, data: seq<byte>, at: nat)
    requires Windowed(r) && at <= r.WindowEnd() && !r.Ignores(data, at)
    ensures var p := r.PushUnassembled(data, at);
            && ReadyToFlush(p) && p.output == r.output && p.index == r.index && EndBy(p.fragments, r.WindowEnd())
            && Known(p) == Known(r) + Interval(at, Min(at + |data|, r.WindowEnd()))
  {
    var b := r.Trim(data, at).value;
    var p := r.PushUnassembled(data, at);
    assert p == r.(fragments := Insert(r.fragments, b));
    ClippedIsUnion(r, b, data, at);
    InsertReady(r, b);
    assert EndBy(r.fragments, r.WindowEnd());
    hide *;
    InsertBounded(r.fragments, b, r.WindowEnd());
    InsertKnows(r, b);
  }

  lemma InsertReady(r: Reassembler, b: Fragment)
    requires Ordered(r) && r.index <= b.index
    ensures ReadyToFlush(r.(fragments := Insert(r.fragments, b)))
  {
    hide Insert, Separated;
    InsertSeparates(r.fragments, b);
    InsertStarts(r.fragments, b, r.index - 1);
  }

  lemma InsertKnows(r: Reassembler, b: Fragment)
    ensures Known(r.(fragments := Insert(r.fragments, b))) == Interval(0, r.index) + b.Held() + HeldBy(r.fragments)
  {
    InsertIsUnion(r.fragments, b);
  }

  /** A push that starts no later than the window's end adds to the known indices exactly
      the piece clipped to the window, and never moves the window's end. */
  lemma PushRefines(r: Reassembler, data: seq<byte>, at: nat, last: bool)
    requires Windowed(r) && at <= r.WindowEnd()
    ensures Windowed(r.Push(data, at, last)) && r.Push(data, at, last).WindowEnd() == r.WindowEnd()
    ensures Known(r.Push(data, at, last)) == Known(r) + Interval(at, Min(at + |data|, r.WindowEnd()))
  {
    hide Separated, HeldBy, Reassembler.PushUnassembled, Reassembler.Flush;
    var m := r.MarkEnd(at + |data|, last);
    assert Windowed(m) && m.WindowEnd() == r.WindowEnd() && Known(m) == Known(r);
    PushOrders(r, data, at, last);
    if r.Ignores(data, at) {
      assert Interval(at, Min(at + |data|, r.WindowEnd())) <= Interval(0, r.index);
    } else {
      InsertRefines(m, data, at);
      FlushRefines(m.PushUnassembled(data, at));
    }
  }

  /** Bytes before the next index are known already, so trimming them changes no union. */
  lemma ClippedIsUnion(r: Reassembler, b: Fragment, data: seq<byte>, at: nat)
    requires r.output.Valid() && r.output.capacity == r.capacity && at <= r.WindowEnd() < TWO64
    requires r.Trim(data, at) == Some(b)
    ensures b.Right() == Min(at + |data|, r.WindowEnd())
    ensures Interval(0, r.index) + b.Held() == Interval(0, r.index) + Interval(at, Min(at + |data|, r.WindowEnd()))
  {
    hide Mod64;
    InRange(r.WindowEnd() - b.index);
    assert r.index + r.capacity - |r.output.buffer| - b.index == r.WindowEnd() - b.index;
  }

  // ----- Whole runs -----

  datatype Op = PushOp(data: seq<byte>, at: nat, last: bool) | ReadOp(len: nat)

  /** A reassembler and what its reader has taken. */
  datatype State = State(r: Reassembler, left: seq<byte>)

  function Step(s: State, op: Op): (s': State)
    requires s.r.output.Valid()
    ensures s'.r.output.Valid()
  {
    match op
    case PushOp(data, at, last) => s.(r := s.r.Push(data, at, last))
    case ReadOp(len) => State(s.r.(output := s.r.output.Read(len)), s.left + s.r.output.Peek(len))
  }

  function Run(capacity: nat, ops: seq<Op>): (s: State)
    ensures s.r.output.Valid()
  {
    if ops == [] then State(EmptyReassembler(capacity), [])
    else Step(Run(capacity, ops[..|ops| - 1]), ops[|ops| - 1])
  }

  /** Every push is a piece of `stream`, and only its end is marked as the end. */
  ghost predicate FromStream(ops: seq<Op>, stream: seq<byte>) {
    forall op :: op in ops && op.PushOp? ==>
      && Fragment(op.at, op.data).PieceOf(stream)
      && (op.last ==> op.at + |op.data| == |stream|)
  }

  /** The union of all pieces pushed. */
  ghost function Pushed(ops: seq<Op>): set<nat> {
    if ops == [] then {}
    else
      var op := ops[|ops| - 1];
      Pushed(ops[..|ops| - 1]) + if op.PushOp? then Interval(op.at, op.at + |op.data|) else {}
  }

  lemma StepKeeps(s: State, op: Op, stream: seq<byte>)
    requires Ordered(s.r) && Follows(s.r, s.left, stream)
    requires FromStream([op], stream)
    ensures Ordered(Step(s, op).r) && Follows(Step(s, op).r, Step(s, op).left, stream)
  {
    match op
    case PushOp(data, at, last) =>
      assert op in [op] && s.r.Valid();
      hide Ordered, Follows, Reassembler.Push;
      PushKeeps(s.r, s.left, stream, data, at, last);
    case ReadOp(len) =>
      hide Separated, PiecesOf, StartAfter;
      ReadConserves(s.r.output, s.left, len);
  }

  lemma ReadConserves(output: Stream, left: seq<byte>, len: nat)
    requires output.Valid()
    ensures (left + output.Peek(len)) + output.Read(len).buffer == left + output.buffer
  {
  }

  /** For every run of pushes of one stream's pieces and reads, with no assumption on where
      the pieces start: fragments stay sorted and separated, the stored bytes are as many as
      the distinct indices held, and what was read followed by what is buffered is a prefix
      of the stream. */
  lemma {:induction false} RunIsSafe(capacity: nat, ops: seq<Op>, stream: seq<byte>)
    requires FromStream(ops, stream)
    ensures var s := Run(capacity, ops);
            && Ordered(s.r)
            && Follows(s.r, s.left, stream)
            && TotalSize(s.r.fragments) == |HeldBy(s.r.fragments)|
            && s.left + s.r.output.buffer <= stream
  {
    if ops != [] {
      var before := ops[..|ops| - 1];
      RunIsSafe(capacity, before, stream);
      StepKeeps(Run(capacity, before), ops[|ops| - 1], stream);
    }
    TotalSizeIsCardinality(Run(capacity, ops).r.fragments);
  }

  // ----- The memory limit -----

  predicate WithinCapacity(r: Reassembler) { |r.output.buffer| + TotalSize(r.fragments) <= r.capacity }

  /** Every push of the run starts inside the window it meets. */
  ghost predicate StartsInWindow(capacity: nat, ops: seq<Op>) {
    ops == [] ||
    var before, op := ops[..|ops| - 1], ops[|ops| - 1];
    && StartsInWindow(capacity, before)
    && (op.PushOp? ==> op.at <= Run(capacity, before).r.WindowEnd())
  }

  /** In every such run, whatever the pieces hold, the memory limit is kept: buffered and
      held bytes together never exceed the capacity. */
  lemma {:induction false} RunStaysInCapacity(capacity: nat, ops: seq<Op>)
    requires StartsInWindow(capacity, ops)
    requires Run(capacity, ops).r.WindowEnd() < TWO64
    ensures var r := Run(capacity, ops).r;
            && Windowed(r) && r.capacity == capacity
            && |r.output.buffer| + TotalSize(r.fragments) <= capacity
  {
    if ops != [] {
      var before, op := ops[..|ops| - 1], ops[|ops| - 1];
      var r := Run(capacity, before).r;
      if op.PushOp? {
        PushAdvances(r, op.data, op.at, op.last);
      }
      RunStaysInCapacity(capacity, before);
      if op.PushOp? {
        PushRefines(r, op.data, op.at, op.last);
      }
    }
    StaysInCapacity(Run(capacity, ops).r);
  }

  /** A piece that starts past the window is not cut at all: the subtraction wraps. */
  lemma PastWindowKeptWhole(r: Reassembler, data: seq<byte>, at: nat)
    requires r.Valid() && r.WindowEnd() < at && at + |data| < TWO64
    ensures r.Trim(data, at) == Some(Fragment(at, data))
  {
    var bound := r.index + r.capacity - |r.output.buffer| - at;
    assert bound == r.WindowEnd() - at;
    assert Mod64(bound) == bound + TWO64;
    assert data[..|data|] == data;
  }

  lemma FirstBytePushed()
    ensures var r := EmptyReassembler(1);
            r.Push([7], 0, false) == r.(output := r.output.(buffer := [7], written := 1), index := 1)
  {
    var r := EmptyReassembler(1);
    var one: seq<byte> := [7];
    InRange(1);
    assert one[..1] == one;
    assert r.Trim(one, 0) == Some(Fragment(0, one));
    assert r.PushUnassembled(one, 0).fragments == [Fragment(0, one)];
    assert [] + one[..1] == one;
  }

  lemma FarPieceHeld(r: Reassembler, data: seq<byte>, at: nat)
    requires r.Valid() && r.fragments == [] && r.WindowEnd() < at <= r.index + r.capacity && at + |data| < TWO64
    requires data != []
    ensures r.Push(data, at, false) == r.(fragments := [Fragment(at, data)])
  {
    PastWindowKeptWhole(r, data, at);
    hide Reassembler.Trim;
  }

  /** So the memory limit is broken by two pushes into a reassembler of capacity 1. */
  lemma CapacityWitness()
    ensures var r := Run(1, [PushOp([7], 0, false), PushOp([8, 9, 10], 2, false)]).r;
            |r.output.buffer| + TotalSize(r.fragments) == 4
  {
    hide Reassembler.Push;
    var a, b := PushOp([7], 0, false), PushOp([8, 9, 10], 2, false);
    FirstBytePushed();
    FarPieceHeld(EmptyReassembler(1).Push([7], 0, false), [8, 9, 10], 2);
    assert [a, b][..1] == [a] && [a][..0] == [];
    assert Run(1, [a]) == Step(Run(1, []), a);
    assert Run(1, [a, b]).r.fragments == [Fragment(2, [8, 9, 10])];
    assert TotalSize([Fragment(2, [8, 9, 10])]) == 3 + TotalSize([]);
  }

  /** The last index at which a substring is looked at at all: one past that, only its end
      mark counts; up to it, a byte past the window is held. */
  lemma FarPieces(r: Reassembler, data: seq<byte>, at: nat, last: bool)
    requires Ordered(r) && at + |data| < TWO64 && r.WindowEnd() < at && data != []
    ensures at > r.index + r.capacity ==>
              r.Push(data, at, last).fragments == r.fragments && r.Push(data, at, last).index == r.index
    ensures at <= r.index + r.capacity ==>
              forall i: nat :: at <= i < at + |data| && r.WindowEnd() !in HeldBy(r.fragments) ==>
                i in HeldBy(r.Push(data, at, last).fragments)
  {
    if at <= r.index + r.capacity {
      FarPieceIsHeld(r, data, at, last);
    }
  }

  lemma FarPieceIsHeld(r: Reassembler, data: seq<byte>, at: nat, last: bool)
    requires Ordered(r) && at + |data| < TWO64 && r.WindowEnd() < at <= r.index + r.capacity && data != []
    ensures forall i: nat :: at <= i < at + |data| && r.WindowEnd() !in HeldBy(r.fragments) ==>
              i in HeldBy(r.Push(data, at, last).fragments)
  {
    var m := r.MarkEnd(at + |data|, last);
    PastWindowKeptWhole(m, data, at);
    hide Reassembler.Trim;
    InsertIsUnion(m.fragments, Fragment(at, data));
    var p := m.PushUnassembled(data, at);
    hide Insert, HeldBy, Reassembler.Flush;
    forall i: nat | at <= i < at + |data| && r.WindowEnd() !in HeldBy(r.fragments)
      ensures i in HeldBy(p.Flush().fragments)
    {
      FlushKeepsFar(p, r.WindowEnd(), i);
    }
  }

  /** The indices of a substring that are kept: those not yet written, cut at the window's end
      unless the substring starts past it. */
  ghost function Kept(r: Reassembler, data: seq<byte>, at: nat): set<nat>
    requires r.output.Valid()
  {
    if r.Ignores(data, at) then {}
    else if at <= r.WindowEnd() then Interval(Max(at, r.index), Min(at + |data|, r.WindowEnd()))
    else Interval(at, at + |data|)
  }

  /** `held` fits beside what is buffered, or it is one run from the next index on, of which
      the output takes what fits and the rest is thrown away. */
  ghost predicate Fits(r: Reassembler, held: set<nat>) {
    |r.output.buffer| + |held| <= r.capacity || exists n: nat :: held == Interval(r.index, n)
  }

  lemma HeldWithoutFirst(fs: seq<Fragment>)
    requires Separated(fs) && fs != []
    ensures |HeldBy(fs)| == |fs[0].str| + TotalSize(fs[1..])
    ensures TotalSize(fs[1..]) == 0 <==> HeldBy(fs) == fs[0].Held()
  {
    TotalSizeIsCardinality(fs);
    TotalSizeIsCardinality(fs[1..]);
    HeldRange(fs[1..], fs[0].Right());
    if HeldBy(fs) == fs[0].Held() {
      assert forall i :: i in HeldBy(fs[1..]) ==> i in HeldBy(fs);
      assert HeldBy(fs[1..]) == {};
    }
  }

  /** Held indices that are one run from `n` on are all in the first fragment. */
  lemma RunIsFirst(fs: seq<Fragment>, n: nat, m: nat)
    requires Separated(fs) && StartAfter(fs, n - 1) && HeldBy(fs) == Interval(n, m) && n < m
    ensures fs != [] && fs[0].index == n && HeldBy(fs) == fs[0].Held()
  {
    assert n in HeldBy(fs);
    HeldRange(fs[1..], fs[0].Right());
    assert fs[0] in fs;
    assert n in fs[0].Held();
    assert fs[0].Right() !in HeldBy(fs);
  }

  lemma FlushWithinIff(r: Reassembler)
    requires ReadyToFlush(r)
    ensures WithinCapacity(r.Flush()) <==> Fits(r, HeldBy(r.fragments))
  {
    TotalSizeIsCardinality(r.fragments);
    if r.fragments != [] && r.fragments[0].index == r.index {
      HeldWithoutFirst(r.fragments);
    }
    hide HeldBy, Separated, TotalSize;
    if n: nat :| HeldBy(r.fragments) == Interval(r.index, n) {
      if r.index < n {
        RunIsFirst(r.fragments, r.index, n);
      }
    }
  }

  lemma PushHolds(r: Reassembler, data: seq<byte>, at: nat)
    requires Ordered(r) && r.WindowEnd() < TWO64 && at + |data| < TWO64 && !r.Ignores(data, at)
    ensures ReadyToFlush(r.PushUnassembled(data, at))
    ensures HeldBy(r.PushUnassembled(data, at).fragments) == HeldBy(r.fragments) + Kept(r, data, at)
  {
    var b := r.Trim(data, at).value;
    if at <= r.WindowEnd() {
      ClippedIsUnion(r, b, data, at);
      assert b.index == Max(at, r.index);
    } else {
      PastWindowKeptWhole(r, data, at);
    }
    hide Interval, Separated, HeldBy, Insert, Reassembler.Trim;
    InsertReady(r, b);
    InsertIsUnion(r.fragments, b);
  }

  /** Exactly which pushes keep the memory limit, whatever was pushed before: those whose kept
      indices fit together with the ones held already. */
  lemma LimitKeptIff(r: Reassembler, data: seq<byte>, at: nat, last: bool)
    requires Ordered(r) && WithinCapacity(r) && r.WindowEnd() < TWO64 && at + |data| < TWO64
    ensures WithinCapacity(r.Push(data, at, last)) <==> Fits(r, HeldBy(r.fragments) + Kept(r, data, at))
  {
    if r.Ignores(data, at) {
      TotalSizeIsCardinality(r.fragments);
      assert HeldBy(r.fragments) + {} == HeldBy(r.fragments);
    } else {
      var m := r.MarkEnd(at + |data|, last);
      var p := m.PushUnassembled(data, at);
      assert r.Push(data, at, last) == p.Flush();
      MarkedAlike(r, data, at, last);
      hide *;
      PushHolds(m, data, at);
      FlushWithinIff(p);
    }
  }

  /** Marking the end changes nothing that the limit depends on. */
  lemma MarkedAlike(r: Reassembler, data: seq<byte>, at: nat, last: bool)
    requires Ordered(r)
    ensures var m := r.MarkEnd(at + |data|, last);
            && Ordered(m) && m.WindowEnd() == r.WindowEnd() && m.fragments == r.fragments
            && m.Ignores(data, at) == r.Ignores(data, at) && Kept(m, data, at) == Kept(r, data, at)
            && forall held :: Fits(m.PushUnassembled(data, at), held) == Fits(r, held)
  {
    hide Reassembler.Trim, Separated;
  }

  /** The limit is kept at every point of the run. */
  ghost predicate AlwaysWithin(capacity: nat, ops: seq<Op>) {
    WithinCapacity(Run(capacity, ops).r) && (ops == [] || AlwaysWithin(capacity, ops[..|ops| - 1]))
  }

  /** Every push fits where it is made. */
  ghost predicate AllFit(capacity: nat, ops: seq<Op>) {
    ops == [] ||
    var before, op := ops[..|ops| - 1], ops[|ops| - 1];
    var r := Run(capacity, before).r;
    && AllFit(capacity, before)
    && (op.PushOp? ==> Fits(r, HeldBy(r.fragments) + Kept(r, op.data, op.at)))
  }

  /** The memory limit, over every run of pushes and reads: it is kept throughout if and only
      if every push fits. */
  lemma {:induction false} RunStaysInCapacityIff(capacity: nat, ops: seq<Op>)
    requires Run(capacity, ops).r.WindowEnd() < TWO64
    requires forall op :: op in ops && op.PushOp? ==> op.at + |op.data| < TWO64
    ensures Ordered(Run(capacity, ops).r)
    ensures AlwaysWithin(capacity, ops) <==> AllFit(capacity, ops)
  {
    if ops != [] {
      var before, op := ops[..|ops| - 1], ops[|ops| - 1];
      var r := Run(capacity, before).r;
      hide Separated, HeldBy, Kept, Reassembler.Push, Fits;
      if op.PushOp? {
        PushAdvances(r, op.data, op.at, op.last);
      }
      RunStaysInCapacityIff(capacity, before);
      if op.PushOp? {
        PushOrders(r, op.data, op.at, op.last);
        if WithinCapacity(r) {
          LimitKeptIff(r, op.data, op.at, op.last);
        }
      }
    }
  }

  /** A held index behind a missing one is still held after a flush. */
  lemma FlushKeepsFar(r: Reassembler, gap: nat, i: nat)
    requires r.output.Valid() && r.index <= gap < i
    requires gap !in HeldBy(r.fragments) && i in HeldBy(r.fragments)
    ensures i in HeldBy(r.Flush().fragments)
  {
  }

  /** Exactly which pushes leave all fragments inside the window. */
  lemma StaysWindowedIff(r: Reassembler, data: seq<byte>, at: nat, last: bool)
    requires Windowed(r) && at + |data| < TWO64
    ensures Windowed(r.Push(data, at, last)) <==> at <= r.WindowEnd() || r.Ignores(data, at)
  {
    if at <= r.WindowEnd() {
      PushRefines(r, data, at, last);
    } else if !r.Ignores(data, at) {
      var m := r.MarkEnd(at + |data|, last);
      PushAdvances(r, data, at, last);
      PushHolds(m, data, at);
      assert at in Kept(m, data, at);
      HeldBound(r.fragments, r.WindowEnd());
      FlushKeepsFar(m.PushUnassembled(data, at), r.WindowEnd(), at);
      hide HeldBy, Reassembler.Flush, Reassembler.PushUnassembled, Separated;
      var p := r.Push(data, at, last);
      if EndBy(p.fragments, p.WindowEnd()) {
        HeldBound(p.fragments, p.WindowEnd());
      }
    }
  }

  lemma StepRefines(s: State, op: Op, stream: seq<byte>)
    requires Windowed(s.r) && Follows(s.r, s.left, stream) && FromStream([op], stream)
    requires s.r.WindowEnd() == |s.left| + s.r.capacity && |stream| <= s.r.capacity && |stream| + s.r.capacity < TWO64
    ensures var s' := Step(s, op);
            && Windowed(s'.r) && s'.r.capacity == s.r.capacity
            && s'.r.WindowEnd() == |s'.left| + s'.r.capacity
            && Known(s'.r) == Known(s.r) + if op.PushOp? then Interval(op.at, op.at + |op.data|) else {}
  {
    hide Separated, HeldBy, Reassembler.Push, PiecesOf, Interval;
    assert |s.left| + |s.r.output.buffer| == s.r.index;
    if op.PushOp? {
      assert op in [op];
      assert Min(op.at + |op.data|, s.r.WindowEnd()) == op.at + |op.data|;
      PushRefines(s.r, op.data, op.at, op.last);
      PushAdvances(s.r, op.data, op.at, op.last);
    }
  }

  /** When the whole stream fits in the capacity, a run's known indices are the union of the
      pieces pushed, in whatever order and however often they came. */
  lemma {:induction false} RunRefinesUnion(capacity: nat, ops: seq<Op>, stream: seq<byte>)
    requires FromStream(ops, stream) && |stream| <= capacity && |stream| + capacity < TWO64
    ensures var s := Run(capacity, ops);
            && Windowed(s.r)
            && s.r.WindowEnd() == |s.left| + capacity
            && s.r.capacity == capacity
            && Known(s.r) == Pushed(ops)
  {
    hide Separated, HeldBy, Step;
    if ops != [] {
      var before, op := ops[..|ops| - 1], ops[|ops| - 1];
      RunRefinesUnion(capacity, before, stream);
      RunIsSafe(capacity, before, stream);
      StepRefines(Run(capacity, before), op, stream);
    } else {
      StartRefines(capacity);
    }
  }

  lemma StartRefines(capacity: nat)
    requires capacity < TWO64
    ensures Windowed(EmptyReassembler(capacity)) && Known(EmptyReassembler(capacity)) == {}
  {
  }

  /** Any order and duplication of pieces that cover the stream outputs exactly the stream. */
  lemma RunDeliversAll(capacity: nat, ops: seq<Op>, stream: seq<byte>)
    requires FromStream(ops, stream) && |stream| <= capacity && |stream| + capacity < TWO64
    requires Interval(0, |stream|) <= Pushed(ops)
    ensures var s := Run(capacity, ops); s.left + s.r.output.buffer == stream
  {
    RunIsSafe(capacity, ops, stream);
    RunRefinesUnion(capacity, ops, stream);
    IndexIsLeastMissing(Run(capacity, ops).r);
  }

  // ----- The end of the stream -----

  /** How the end mark, the assembled length and the closed output relate. */
  ghost predicate EndMarked(r: Reassembler, length: nat) {
    && (r.eofSet ==> r.eof == length)
    && (r.output.ended ==> r.eofSet && length <= r.index + 1)
    && (r.eofSet && r.index == length ==> r.output.ended)
  }

  lemma FlushMarks(r: Reassembler, length: nat)
    requires r.output.Valid() && EndMarked(r, length)
    ensures EndMarked(r.Flush(), length) && r.Flush().eofSet == r.eofSet
  {
  }

  lemma PushMarks(r: Reassembler, length: nat, data: seq<byte>, at: nat, last: bool)
    requires r.output.Valid() && r.index <= length && EndMarked(r, length)
    requires last ==> at + |data| == length
    ensures EndMarked(r.Push(data, at, last), length)
    ensures r.Push(data, at, last).eofSet <==> r.eofSet || last
  {
    var m := r.MarkEnd(at + |data|, last);
    FlushMarks(m.PushUnassembled(data, at), length);
  }

  ghost predicate SawEnd(ops: seq<Op>) {
    exists op :: op in ops && op.PushOp? && op.last
  }

  /** For every run over pieces of one stream: once the end was seen and every byte is
      assembled the output has ended, and an ended output lacks at most one byte. */
  lemma {:induction false} RunEnds(capacity: nat, ops: seq<Op>, stream: seq<byte>)
    requires FromStream(ops, stream)
    ensures var r := Run(capacity, ops).r;
            && EndMarked(r, |stream|)
            && (r.eofSet <==> SawEnd(ops))
            && (SawEnd(ops) && r.index == |stream| ==> r.output.ended)
            && (r.output.ended ==> SawEnd(ops) && |stream| - 1 <= r.index)
  {
    if ops != [] {
      var before, op := ops[..|ops| - 1], ops[|ops| - 1];
      RunEnds(capacity, before, stream);
      RunIsSafe(capacity, before, stream);
      assert op in ops && Run(capacity, before).r.index <= |stream|;
      hide Ordered, Follows, Step, SawEnd, FromStream;
      assert ops == before + [op];
      SawEndAppend(before, op);
      StepMarks(Run(capacity, before), op, |stream|);
    }
  }

  lemma SawEndAppend(ops: seq<Op>, op: Op)
    ensures SawEnd(ops + [op]) <==> SawEnd(ops) || (op.PushOp? && op.last)
  {
    assert op in ops + [op];
  }

  lemma StepMarks(s: State, op: Op, length: nat)
    requires s.r.output.Valid() && s.r.index <= length && EndMarked(s.r, length)
    requires op.PushOp? && op.last ==> op.at + |op.data| == length
    ensures EndMarked(Step(s, op).r, length)
    ensures Step(s, op).r.eofSet <==> s.r.eofSet || (op.PushOp? && op.last)
  {
    hide Reassembler.Push;
    if op.PushOp? {
      PushMarks(s.r, length, op.data, op.at, op.last);
    }
  }

  /** The guard in set_eof is off by one: an end-marked piece that meets it with one byte
      still missing ends the output without that byte, unless it brings the byte itself
      and the output has room for it. */
  ghost predicate EndsEarly(r: Reassembler, length: nat, data: seq<byte>, at: nat, last: bool)
    requires r.output.Valid()
  {
    last && r.index + 1 == length && (|data| == 0 || r.output.Room() == 0)
  }

  lemma FrontHolds(fs: seq<Fragment>, n: nat)
    requires Separated(fs) && StartAfter(fs, n - 1) && n in HeldBy(fs)
    ensures fs[0].index == n && |fs[0].str| > 0
  {
    assert fs[0] in fs;
    HeldRange(fs[1..], fs[0].Right());
  }

  /** A push that brings the next index, with room for it, advances. */
  lemma NextByteAdvances(r: Reassembler, data: seq<byte>, at: nat, last: bool)
    requires Ordered(r) && r.capacity < TWO64
    requires at <= r.index < at + |data| && r.output.Room() > 0
    ensures r.index < r.Push(data, at, last).index
  {
    var m := r.MarkEnd(at + |data|, last);
    var b := m.Trim(data, at).value;
    assert b.index == r.index && |b.str| > 0;
    InsertSeparates(m.fragments, b);
    InsertStarts(m.fragments, b, m.index - 1);
    InsertIsUnion(m.fragments, b);
    assert r.index in b.Held();
    FrontHolds(Insert(m.fragments, b), r.index);
    var p := m.PushUnassembled(data, at);
    assert p.Flush().index == p.index + p.output.Taken(p.fragments[0].str);
  }

  /** Without room nothing is written. */
  lemma NoRoomStays(r: Reassembler, data: seq<byte>, at: nat, last: bool)
    requires r.output.Valid() && r.output.Room() == 0
    ensures r.Push(data, at, last).index == r.index
  {
  }

  /** Exactly when ending is premature: a push that ends the output leaves all bytes
      assembled if and only if it is not one of the early ones. */
  lemma EndIsExactIff(r: Reassembler, left: seq<byte>, stream: seq<byte>, data: seq<byte>, at: nat, last: bool)
    requires Ordered(r) && Follows(r, left, stream) && EndMarked(r, |stream|) && r.capacity < TWO64
    requires Fragment(at, data).PieceOf(stream) && (last ==> at + |data| == |stream|)
    requires !r.output.ended && r.Push(data, at, last).output.ended
    ensures r.Push(data, at, last).index == |stream| <==> !EndsEarly(r, |stream|, data, at, last)
  {
    PushFollows(r, left, stream, data, at, last);
    if EndsEarly(r, |stream|, data, at, last) {
      if |data| > 0 {
        NoRoomStays(r, data, at, last);
      }
    } else if last && r.index + 1 == |stream| {
      NextByteAdvances(r, data, at, last);
    } else {
      EndedByWriting(r, data, at, last);
    }
  }

  /** If set_eof's guard does not fire, the output ends only by reaching the end mark. */
  lemma EndedByWriting(r: Reassembler, data: seq<byte>, at: nat, last: bool)
    requires r.output.Valid() && !r.output.ended && r.Push(data, at, last).output.ended
    requires last ==> r.index + 1 != at + |data|
    ensures var p := r.Push(data, at, last);
            p.index == p.eof || (last && at + |data| <= r.index)
  {
  }

  /** A run in which no push ends early. */
  ghost predicate NeverEarly(capacity: nat, ops: seq<Op>, stream: seq<byte>) {
    ops == [] ||
    var before, op := ops[..|ops| - 1], ops[|ops| - 1];
    && NeverEarly(capacity, before, stream)
    && (op.PushOp? ==> !EndsEarly(Run(capacity, before).r, |stream|, op.data, op.at, op.last))
  }

  ghost predicate WholeAtEnd(s: State, stream: seq<byte>) {
    s.r.output.ended ==> s.left + s.r.output.buffer == stream
  }

  lemma StepEndsExactly(s: State, op: Op, stream: seq<byte>)
    requires Ordered(s.r) && Follows(s.r, s.left, stream) && EndMarked(s.r, |stream|) && s.r.capacity < TWO64
    requires FromStream([op], stream) && WholeAtEnd(s, stream)
    requires op.PushOp? ==> !EndsEarly(s.r, |stream|, op.data, op.at, op.last)
    ensures WholeAtEnd(Step(s, op), stream) && Step(s, op).r.capacity == s.r.capacity
  {
    assert op in [op];
    assert s.r.Valid();
    StepKeeps(s, op, stream);
    hide Reassembler.Push, Ordered, EndsEarly, EndMarked, PiecesOf;
    if op.PushOp? {
      PushAdvances(s.r, op.data, op.at, op.last);
      if !s.r.output.ended && Step(s, op).r.output.ended {
        EndIsExactIff(s.r, s.left, stream, op.data, op.at, op.last);
      }
    }
  }

  /** In such a run, an ended output holds the whole stream. */
  lemma {:induction false} RunEndsExactly(capacity: nat, ops: seq<Op>, stream: seq<byte>)
    requires FromStream(ops, stream) && capacity < TWO64 && NeverEarly(capacity, ops, stream)
    ensures var s := Run(capacity, ops);
            && s.r.capacity == capacity
            && (s.r.output.ended ==> s.left + s.r.output.buffer == stream)
  {
    if ops != [] {
      var before, op := ops[..|ops| - 1], ops[|ops| - 1];
      assert FromStream(before, stream) && FromStream([op], stream);
      hide Ordered, Follows, EndMarked, EndsEarly, Step, FromStream;
      RunEndsExactly(capacity, before, stream);
      RunIsSafe(capacity, before, stream);
      RunEnds(capacity, before, stream);
      StepEndsExactly(Run(capacity, before), op, stream);
    }
  }

  /** Two pushes show the early end: of the stream [7], the bare end mark arrives first. */
  lemma EarlyEndWitness()
    ensures var s := Run(10, [PushOp([], 1, true)]);
            && FromStream([PushOp([], 1, true)], [7])
            && s.r.output.ended && s.r.index == 0
  {
    var ops := [PushOp([], 1, true)];
    assert ops[..0] == [];
    assert Run(10, ops) == Step(Run(10, []), ops[0]);
  }
}
