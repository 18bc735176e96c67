/**
 The integer range generators of flow/generate.go. Each generator is a method
 whose loop follows the Go closure, driving a consumer; its contract says the
 consumer ends exactly as if the generator's values had been drained into it.
 Go's `int` is modelled by the unbounded `int`.
 */
module FlowGenerate {
  import opened FlowSeq

  /** The values `b, b + 1, ..., e - 1`; empty when `b >= e`. */
  function Upward(b: int, e: int): (r: seq<int>)
    ensures |r| == if b < e then e - b else 0
    ensures forall i :: 0 <= i < |r| ==> r[i] == b + i
    decreases e - b
  {
    if b >= e then [] else [b] + Upward(b + 1, e)
  }

  /** The values `e - 1, e - 2, ..., b`; empty when `b >= e`. */
  function Downward(b: int, e: int): (r: seq<int>)
    ensures |r| == if b < e then e - b else 0
    ensures forall i :: 0 <= i < |r| ==> r[i] == e - 1 - i
    decreases e - b
  {
    if e <= b then [] else [e - 1] + Downward(b, e - 1)
  }

  function Reverse<V>(s: seq<V>): (r: seq<V>)
    ensures |r| == |s|
    ensures forall i :: 0 <= i < |s| ==> r[i] == s[|s| - 1 - i]
  {
    if |s| == 0 then [] else Reverse(s[1..]) + [s[0]]
  }

  /** Since: `val := start; for { if !yield(val) { return }; val += 1 }`. The
      generator never ends by itself, so it is the consumer that stops it,
      after `reach` calls that deliver `start, start + 1, ...`. */
  method Since(start: int, c: Consumer<int>) returns (out: Consumer<int>, stopped: bool)
    requires c.Valid()
    ensures stopped
    ensures (out, stopped) == Drain(Upward(start, start + c.reach), c)
    ensures out.got == c.got + Upward(start, start + c.Room())
    ensures out.calls == c.calls + c.reach
  {
    SinceObserved(start, c);
    out := c;
    var val := start;
    while true
      invariant start <= val
      invariant val - start < c.reach
      invariant (out, false) == Drain(Upward(start, val), c)
      decreases c.reach - (val - start)
    {
      SinceStep(start, val, c);
      var step := Yield(out, val);
      out := step.0;
      if !step.1 {
        return out, true;
      }
      val := val + 1;
    }
  }

  /** One turn of the loop of Since, after `val - start` values the consumer
      kept asking for. */
  lemma {:induction false} SinceStep(start: int, val: int, c: Consumer<int>)
    requires c.Valid() && start <= val
    requires val - start < c.reach
    requires !Drain(Upward(start, val), c).1
    ensures var step := Yield(Drain(Upward(start, val), c).0, val);
      && Drain(Upward(start, val + 1), c) == (step.0, !step.1)
      && (step.1 ==> val + 1 - start < c.reach)
      && (!step.1 ==> val + 1 == start + c.reach)
  {
    var q := Upward(start, val + 1);
    UpwardSnoc(start, val);
    DrainSnoc(Upward(start, val), val, c);
    assert |q| == val + 1 - start;
    DrainObserves(q, c);
  }

  /** What Since delivers once its consumer has stopped it. */
  lemma {:induction false} SinceObserved(start: int, c: Consumer<int>)
    requires c.Valid()
    ensures Drain(Upward(start, start + c.reach), c).1
    ensures Drain(Upward(start, start + c.reach), c).0.got == c.got + Upward(start, start + c.Room())
    ensures Drain(Upward(start, start + c.reach), c).0.calls == c.calls + c.reach
  {
    ForwardObserved(start, start + c.reach, c);
    DrainCalls(Upward(start, start + c.reach), c);
  }

  /** Forward: `idx := begin; for { if idx >= end { return }; if !yield(idx) { return }; idx += 1 }`. */
  method Forward(begin: int, end: int, c: Consumer<int>) returns (out: Consumer<int>, stopped: bool)
    requires c.Valid()
    ensures (out, stopped) == Drain(Upward(begin, end), c)
    ensures begin + c.Room() <= end ==> out.got == c.got + Upward(begin, begin + c.Room())
    ensures end < begin + c.Room() ==> out.got == c.got + Upward(begin, end)
    ensures stopped <==> end - begin >= c.reach
  {
    ForwardObserved(begin, end, c);
    out := c;
    var idx := begin;
    while true
      invariant begin <= idx && (idx <= end || idx == begin)
      invariant (out, false) == Drain(Upward(begin, idx), c)
      decreases end - idx
    {
      if idx >= end {
        assert idx == end || Upward(begin, idx) == [] == Upward(begin, end);
        return out, false;
      }
      DrainSnoc(Upward(begin, idx), idx, c);
      UpwardSnoc(begin, idx);
      var step := Yield(out, idx);
      out := step.0;
      if !step.1 {
        UpwardSplit(begin, idx + 1, end);
        DrainStopsEarly(Upward(begin, idx + 1), Upward(idx + 1, end), c);
        return out, true;
      }
      idx := idx + 1;
    }
  }

  /** Backward: `idx := end; for { if idx <= begin { return }; if !yield(idx - 1) { return }; idx -= 1 }`. */
  method Backward(begin: int, end: int, c: Consumer<int>) returns (out: Consumer<int>, stopped: bool)
    requires c.Valid()
    ensures (out, stopped) == Drain(Downward(begin, end), c)
    ensures begin <= end - c.Room() ==> out.got == c.got + Downward(end - c.Room(), end)
    ensures end - c.Room() < begin ==> out.got == c.got + Downward(begin, end)
    ensures stopped <==> end - begin >= c.reach
  {
    BackwardObserved(begin, end, c);
    out := c;
    var idx := end;
    while true
      invariant idx <= end && (begin <= idx || idx == end)
      invariant (out, false) == Drain(Downward(idx, end), c)
      decreases idx - begin
    {
      if idx <= begin {
        assert idx == begin || Downward(idx, end) == [] == Downward(begin, end);
        return out, false;
      }
      DrainSnoc(Downward(idx, end), idx - 1, c);
      DownwardSnoc(idx - 1, end);
      var step := Yield(out, idx - 1);
      out := step.0;
      if !step.1 {
        DownwardSplit(begin, idx - 1, end);
        DrainStopsEarly(Downward(idx - 1, end), Downward(begin, idx - 1), c);
        return out, true;
      }
      idx := idx - 1;
    }
  }

  /** A consumer with room for k values receives the first k values of
      Forward, which are the k smallest of the range, or the whole range
      when it is shorter. */
  lemma {:induction false} ForwardObserved(b: int, e: int, c: Consumer<int>)
    requires c.Valid()
    ensures b + c.Room() <= e ==> Drain(Upward(b, e), c).0.got == c.got + Upward(b, b + c.Room())
    ensures e < b + c.Room() ==> Drain(Upward(b, e), c).0.got == c.got + Upward(b, e)
    ensures Drain(Upward(b, e), c).1 <==> e - b >= c.reach
  {
    var s := Upward(b, e);
    assert |s| == Max(e - b, 0);
    if b + c.Room() <= e {
      UpwardPrefix(b, e, c.Room());
      DrainObservesAs(s, c, Upward(b, b + c.Room()));
    } else {
      DrainObservesAs(s, c, s);
    }
  }

  /** A consumer with room for k values receives the first k values of
      Backward, which are the k largest of the range, or the whole range
      when it is shorter. */
  lemma {:induction false} BackwardObserved(b: int, e: int, c: Consumer<int>)
    requires c.Valid()
    ensures b <= e - c.Room() ==> Drain(Downward(b, e), c).0.got == c.got + Downward(e - c.Room(), e)
    ensures e - c.Room() < b ==> Drain(Downward(b, e), c).0.got == c.got + Downward(b, e)
    ensures Drain(Downward(b, e), c).1 <==> e - b >= c.reach
  {
    var s := Downward(b, e);
    assert |s| == Max(e - b, 0);
    if b <= e - c.Room() {
      DownwardPrefix(b, e, c.Room());
      DrainObservesAs(s, c, Downward(e - c.Room(), e));
    } else {
      DrainObservesAs(s, c, s);
    }
  }

  lemma UpwardPrefix(b: int, e: int, m: nat)
    requires m <= Max(e - b, 0)
    ensures |Upward(b, e)| == Max(e - b, 0)
    ensures Upward(b, e)[..m] == Upward(b, b + m)
  {
    var s, t := Upward(b, e)[..m], Upward(b, b + m);
    assert |s| == |t|;
    forall i | 0 <= i < m
      ensures s[i] == t[i]
    {
    }
  }

  lemma DownwardPrefix(b: int, e: int, m: nat)
    requires m <= Max(e - b, 0)
    ensures |Downward(b, e)| == Max(e - b, 0)
    ensures Downward(b, e)[..m] == Downward(e - m, e)
  {
    var s, t := Downward(b, e)[..m], Downward(e - m, e);
    assert |s| == |t|;
    forall i | 0 <= i < m
      ensures s[i] == t[i]
    {
    }
  }

  lemma UpwardSnoc(b: int, v: int)
    requires b <= v
    ensures Upward(b, v + 1) == Upward(b, v) + [v]
  {
  }

  lemma UpwardSplit(b: int, m: int, e: int)
    requires b <= m <= e
    ensures Upward(b, e) == Upward(b, m) + Upward(m, e)
  {
  }

  lemma DownwardSnoc(v: int, e: int)
    requires v < e
    ensures Downward(v, e) == Downward(v + 1, e) + [v]
  {
  }

  lemma DownwardSplit(b: int, m: int, e: int)
    requires b <= m <= e
    ensures Downward(b, e) == Downward(m, e) + Downward(b, m)
  {
  }

  /** Backward yields what Forward yields, in reverse order. */
  lemma {:induction false} BackwardReversesForward(b: int, e: int)
    ensures Downward(b, e) == Reverse(Upward(b, e))
  {
    var down, up := Downward(b, e), Upward(b, e);
    var back := Reverse(up);
    assert |down| == |back|;
    forall i | 0 <= i < |down|
      ensures down[i] == back[i]
    {
      assert back[i] == up[|up| - 1 - i];
    }
  }

  /** Forward is strictly increasing within `[b, e)`, so it yields every value
      at most once; Backward is strictly decreasing within the same range. */
  lemma GeneratorsOrdered(b: int, e: int)
    ensures forall i, j :: 0 <= i < j < |Upward(b, e)| ==> Upward(b, e)[i] < Upward(b, e)[j]
    ensures forall i :: 0 <= i < |Upward(b, e)| ==> b <= Upward(b, e)[i] < e
    ensures forall i, j :: 0 <= i < j < |Downward(b, e)| ==> Downward(b, e)[i] > Downward(b, e)[j]
    ensures forall i :: 0 <= i < |Downward(b, e)| ==> b <= Downward(b, e)[i] < e
    ensures forall v :: b <= v < e ==> v in Upward(b, e) && v in Downward(b, e)
  {
    forall v | b <= v < e
      ensures v in Upward(b, e) && v in Downward(b, e)
    {
      assert Upward(b, e)[v - b] == v;
      assert Downward(b, e)[e - 1 - v] == v;
    }
  }

  /** The cases of flow/generate_test.go. */
  lemma TestedRanges()
    ensures Upward(0, 3) == [0, 1, 2] && Upward(2, 0) == []
    ensures Downward(0, 3) == [2, 1, 0] && Downward(2, 0) == []
    ensures Upward(5, 5 + 0) == [] && Upward(0, 0 + 3) == [0, 1, 2]
    ensures Upward(-2, -2 + 5) == [-2, -1, 0, 1, 2]
  {
  }

  /** The cases of TestSince in flow/generate_test.go, whose loop body checks
      `count == take` before recording: it records `take` values and breaks on
      the next call, so Since yields `take + 1` times. Case "Empty". */
  lemma TestedSinceEmpty()
    ensures var r := Drain(Upward(5, 6), Lookahead(0)); r.1 && r.0.got == [] && r.0.calls == 1
  {
    SinceCase(5, 0);
  }

  /** Case "Simple" of TestSince. */
  lemma TestedSinceSimple()
    ensures var r := Drain(Upward(0, 4), Lookahead(3)); r.1 && r.0.got == [0, 1, 2] && r.0.calls == 4
  {
    SinceCase(0, 3);
    assert Upward(0, 3) == [0, 1, 2];
  }

  /** Case "FromNegative" of TestSince. */
  lemma TestedSinceFromNegative()
    ensures var r := Drain(Upward(-2, 4), Lookahead(5)); r.1 && r.0.got == [-2, -1, 0, 1, 2] && r.0.calls == 6
  {
    SinceCase(-2, 5);
    assert Upward(-2, 3) == [-2, -1, 0, 1, 2];
  }

  /** Since under the consumer of TestSince: `take` values recorded, and
      stopped on call `take + 1`. */
  lemma SinceCase(start: int, take: nat)
    ensures var r := Drain(Upward(start, start + (take + 1)), Lookahead(take));
      r.1 && r.0.got == Upward(start, start + take) && r.0.calls == take + 1
  {
    var c: Consumer<int> := Lookahead(take);
    assert c.reach == take + 1 && c.Room() == take;
    SinceObserved(start, c);
    assert c.got + Upward(start, start + take) == Upward(start, start + take);
  }

  /** The consumer of TestSince over `Forward(0, 3)` with `take = 3` records
      `[0, 1, 2]` and is never asked to break: the producer ends first. */
  lemma TestedLookaheadForward()
    ensures var r := Drain(Upward(0, 3), Lookahead(3)); !r.1 && r.0.got == [0, 1, 2] && r.0.calls == 3
  {
    ForwardObserved(0, 3, Lookahead(3));
    DrainCalls(Upward(0, 3), Lookahead(3));
    assert Upward(0, 3) == [0, 1, 2];
  }
}
