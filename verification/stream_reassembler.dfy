/** The reassembler of out-of-order substrings
    (libsponge/stream_reassembler.hh and libsponge/stream_reassembler.cc). */
module Reassembly {
  import opened WrappingIntegers
  import opened ByteStreams
  import opened Fragments
  import opened Options

  datatype Reassembler = Reassembler(
    output: Stream,
    capacity: nat,
    index: nat,
    eof: nat,
    eofSet: bool,
    fragments: seq<Fragment>
  ) {
    /** What holds of the output between any two calls. */
    ghost predicate Valid() {
      && output.Valid()
      && output.capacity == capacity
      && output.written == index
    }

    /** The index just past the window: the first byte there would be no room to buffer. */
    function WindowEnd(): nat
      requires output.Valid()
    {
      index + output.Room()
    }

    function SetEof(e: nat): Reassembler {
      this.(eof := e, eofSet := true,
            output := if e <= index + 1 then output.EndInput() else output)
    }

    function WriteToOutput(b: Fragment): (r: Reassembler)
      requires output.Valid()
      ensures r.output.Valid()
    {
      var next := index + output.Taken(b.str);
      var out := output.Write(b.str);
      this.(index := next, output := if next == eof && eofSet then out.EndInput() else out)
    }

    function Flush(): (r: Reassembler)
      requires output.Valid()
      ensures r.output.Valid()
    {
      if fragments != [] && fragments[0].index == index then
        WriteToOutput(fragments[0]).(fragments := fragments[1..])
      else
        this
    }

    /** What is left of a substring once the bytes already written and those beyond the
        capacity are cut off; the capacity is computed in wrapping 64-bit arithmetic. */
    function Trim(data: seq<byte>, at: nat): Option<Fragment> {
      if at < index && |data| <= index - at then None
      else
        var b := if at < index then Fragment(index, data[index - at..]) else Fragment(at, data);
        var rightBound := Mod64(index + capacity - |output.buffer| - b.index);
        Some(Fragment(b.index, b.str[..Min(rightBound, |b.str|)]))
    }

    function PushUnassembled(data: seq<byte>, at: nat): Reassembler {
      match Trim(data, at)
      case None => this
      case Some(b) => this.(fragments := Insert(fragments, b))
    }

    /** Substrings that are empty, wholly written already or wholly beyond the capacity. */
    predicate Ignores(data: seq<byte>, at: nat) {
      at + |data| <= index || at > index + capacity || |data| == 0
    }

    function MarkEnd(e: nat, last: bool): Reassembler {
      if last then SetEof(e) else this
    }

    function Push(data: seq<byte>, at: nat, last: bool): (r: Reassembler)
      requires output.Valid()
      ensures r.output.Valid()
    {
      var m := MarkEnd(at + |data|, last);
      if Ignores(data, at) then m else m.PushUnassembled(data, at).Flush()
    }
  }

  function EmptyReassembler(capacity: nat): (r: Reassembler)
    ensures r.Valid()
  {
    Reassembler(EmptyStream(capacity), capacity, 0, TWO64 - 1, false, [])
  }

  /** Nothing assembled is taken back, an ended output stays ended, and the window's end
      stays put. */
  ghost predicate Advances(r: Reassembler, p: Reassembler)
    requires r.output.Valid() && p.output.Valid()
  {
    && (r.Valid() ==> p.Valid())
    && p.capacity == r.capacity
    && r.index <= p.index
    && (r.output.ended ==> p.output.ended)
    && p.output.error == r.output.error
    && p.WindowEnd() == r.WindowEnd()
  }

  lemma FlushAdvances(r: Reassembler)
    requires r.output.Valid()
    ensures Advances(r, r.Flush())
  {
  }

  /** Whatever is pushed, the reassembler only advances. */
  lemma PushAdvances(r: Reassembler, data: seq<byte>, at: nat, last: bool)
    requires r.output.Valid()
    ensures Advances(r, r.Push(data, at, last))
  {
    hide Insert, Reassembler.Trim, Reassembler.Flush;
    FlushAdvances(r.MarkEnd(at + |data|, last).PushUnassembled(data, at));
  }

  /** What insertion does at fragment `i`. */
  lemma InsertAt(fs: seq<Fragment>, i: nat, b: Fragment)
    requires i < |fs|
    ensures Insert(fs[i..], b) ==
            if b.Right() < fs[i].index then [b] + fs[i..]
            else if Coalesce(b, fs[i]).Some? then Absorb(Coalesce(b, fs[i]).value, fs[i + 1..])
            else [fs[i]] + Insert(fs[i + 1..], b)
  {
    assert fs[i..][1..] == fs[i + 1..];
  }

  lemma InsertLast(b: Fragment)
    ensures Insert([], b) == [b]
  {
  }

  class StreamReassembler {
    const output: ByteStream
    var capacity: nat
    var index: nat
    var eof: nat
    var eofSet: bool
    var fragments: seq<Fragment>

    function View(): Reassembler
      reads this, output
    {
      Reassembler(output.View(), capacity, index, eof, eofSet, fragments)
    }

    constructor (capacity: nat)
      ensures fresh(output)
      ensures View() == EmptyReassembler(capacity)
    {
      output := new ByteStream(capacity);
      this.capacity := capacity;
      index, eof, eofSet, fragments := 0, TWO64 - 1, false, [];
    }

    /** Coalesces two fragments; `res` is meaningful only when `ok`. */
    method TryCoalesce(a: Fragment, b: Fragment) returns (ok: bool, res: Fragment)
      ensures ok <==> Coalesce(a, b).Some?
      ensures ok ==> res == Coalesce(a, b).value
      ensures !ok ==> res == a
    {
      res := a;
      var aRight := a.index + |a.str|;
      var bRight := b.index + |b.str|;
      if a.index <= b.index && aRight >= bRight {
        return true, a;
      } else if b.index <= a.index && bRight >= aRight {
        return true, b;
      } else if a.index < b.index && aRight >= b.index {
        return true, Fragment(a.index, a.str + b.str[aRight - b.index..]);
      } else if b.index < a.index && bRight >= a.index {
        return true, Fragment(b.index, b.str + a.str[bRight - a.index..]);
      }
      ok := false;
    }

    method SetEof(e: nat)
      modifies this, output
      ensures View() == old(View()).SetEof(e)
    {
      eof, eofSet := e, true;
      if eof <= index + 1 {
        output.EndInput();
      }
    }

    method WriteToOutput(b: Fragment)
      requires output.View().Valid()
      modifies this, output
      ensures View() == old(View()).WriteToOutput(b)
    {
      var n := output.Write(b.str);
      index := index + n;
      if index == eof && eofSet {
        output.EndInput();
      }
    }

    method FlushToOutput()
      requires output.View().Valid()
      modifies this, output
      ensures View() == old(View()).Flush()
    {
      if fragments == [] {
        return;
      }
      var b := fragments[0];
      if b.index == index {
        WriteToOutput(b);
        fragments := fragments[1..];
      }
    }

    /** Replaces fragment `i` by `merged`, swallowing the following fragments as far as the
        merged one reaches. */
    method AbsorbFollowing(i: nat, merged: Fragment)
      requires i < |fragments|
      modifies this`fragments
      ensures fragments == old(fragments[..i]) + Absorb(merged, old(fragments[i + 1..]))
    {
      ghost var fs := fragments;
      ghost var gone := 0;
      var res, more := merged, true;
      while i + 1 < |fragments| && more
        invariant i + 1 + gone <= |fs|
        invariant fragments == fs[..i + 1] + fs[i + 1 + gone..]
        invariant Absorb(merged, fs[i + 1..]) ==
                  if more then Absorb(res, fs[i + 1 + gone..]) else [res] + fs[i + 1 + gone..]
        decreases |fragments|, more
      {
        assert fs[i + 1 + gone..][1..] == fs[i + 2 + gone..];
        more, res := TryCoalesce(res, fragments[i + 1]);
        if more {
          fragments := fragments[..i + 1] + fragments[i + 2..];
          gone := gone + 1;
        }
      }
      fragments := fragments[i := res];
    }

    /** The insertion loop over the fragment list. */
    method InsertFragment(b: Fragment)
      modifies this`fragments
      ensures fragments == Insert(old(fragments), b)
    {
      hide Coalesce, Absorb, Insert;
      ghost var fs := fragments;
      assert fs[..0] + Insert(fs[0..], b) == Insert(fs, b);
      var i := 0;
      while i < |fragments|
        invariant 0 <= i <= |fragments|
        invariant fragments == fs
        invariant Insert(fs, b) == fs[..i] + Insert(fs[i..], b)
      {
        InsertAt(fs, i, b);
        if b.index + |b.str| < fragments[i].index {
          assert fs[..i] + [b] + fs[i..] == fs[..i] + ([b] + fs[i..]);
          fragments := fragments[..i] + [b] + fragments[i..];
          return;
        }
        var ok, res := TryCoalesce(b, fragments[i]);
        if ok {
          AbsorbFollowing(i, res);
          return;
        }
        assert fs[..i] + ([fs[i]] + Insert(fs[i + 1..], b)) == fs[..i + 1] + Insert(fs[i + 1..], b);
        i := i + 1;
      }
      assert fs[i..] == [] && fs[..i] == fs;
      InsertLast(b);
      fragments := fragments + [b];
    }

    method PushUnassembled(data: seq<byte>, at: nat)
      modifies this`fragments
      ensures View() == old(View()).PushUnassembled(data, at)
    {
      var b := Fragment(at, data);
      if at < index {
        var begin := index - at;
        if begin < |data| {
          b := Fragment(at + begin, data[begin..]);
        } else {
          return;
        }
      }
      var rightBound := Mod64(index + capacity - |output.buffer| - b.index);
      b := Fragment(b.index, b.str[..Min(rightBound, |b.str|)]);
      InsertFragment(b);
    }

    method PushSubstring(data: seq<byte>, at: nat, last: bool)
      requires output.View().Valid()
      modifies this, output
      ensures View() == old(View()).Push(data, at, last)
    {
      var lastIndex := at + |data|;
      if last {
        SetEof(lastIndex);
      }
      if lastIndex <= index || at > index + capacity || |data| == 0 {
        return;
      }
      PushUnassembled(data, at);
      FlushToOutput();
    }

    method UnassembledBytes() returns (n: nat)
      ensures n == TotalSize(fragments)
    {
      n := 0;
      for i := 0 to |fragments|
        invariant n + TotalSize(fragments[i..]) == TotalSize(fragments)
      {
        n := n + |fragments[i].str|;
        assert fragments[i..][1..] == fragments[i + 1..];
      }
    }
  }
}
