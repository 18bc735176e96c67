/**
 The rotating container of row/row.go: a copied, fixed sequence of items read
 from a movable start position (the pivot), which an admitted `Rotate` moves
 one place to the left.

 The mutex, the goroutine and channel plumbing and the rate limiter's clock are
 not modelled: the limiter's decision reaches `Rotate` as the `admitted` flag,
 a channel is the sequence of values sent on it plus whether it was closed, and
 a context's cancellation is the number of sends after which it is observed.
 `time.Duration` is an integer count of nanoseconds.
 */
module Rows {

  const Millisecond: int := 1_000_000

  /** The interval of a row built without options. */
  const DefaultInterval: int := 100 * Millisecond

  /** The configuration of the `rate.Sometimes` limiter guarding rotation:
      at most one effective rotation per `duration`, or every `n`-th call. */
  datatype Gate = Interval(duration: int) | Every(n: nat)

  /** An option of `FromSlice`; the only one is `WithInterval`. */
  datatype OptFunc = WithInterval(value: int)

  datatype Row<T> = Row(items: seq<T>, pivot: nat, gate: Gate)

  /** The outcome of an operation that may panic. */
  datatype Built<T> = Built(row: Row<T>) | Panicked(message: string)

  /** A channel after its producer is done or blocked for good: the values
      received from it, in order, and whether it was closed. */
  datatype Chan<T> = Chan(sent: seq<T>, closed: bool)

  /** How a run of `Takes` unfolds, as seen by its producer:
      - `Background`: the context is never cancelled and the consumer
        receives everything;
      - `CancelAfter(sends)`: the consumer keeps receiving until the
        producer's check, made after `sends` values, sees the cancellation;
      - `Abandoned(receives)`: the consumer stops receiving after `receives`
        values and cancels only after the producer's next check has passed,
        so the following unbuffered send blocks forever and the channel is
        never closed. */
  datatype Context = Background | CancelAfter(sends: nat) | Abandoned(receives: nat)

  /** The pivot indexes an item, or the row is empty and the pivot is 0. */
  predicate Valid<T>(r: Row<T>)
  {
    r.pivot < |r.items| || (|r.items| == 0 && r.pivot == 0)
  }

  /** `s` rotated left by `k` places. */
  function RotateLeft<T>(s: seq<T>, k: nat): seq<T>
    requires k <= |s|
  {
    s[k..] + s[..k]
  }

  /** What every read of the row produces: the items from the pivot on,
      wrapping around to the front. */
  function View<T>(r: Row<T>): seq<T>
    requires Valid(r)
  {
    RotateLeft(r.items, r.pivot)
  }

  /** `x % n` for `0 <= x < 2 * n`, without the division. */
  function Wrap(x: nat, n: nat): nat
  {
    if x < n then x else x - n
  }

  lemma ModWrap(x: nat, n: nat)
    requires 0 < n && x < 2 * n
    ensures x % n == Wrap(x, n)
  {
    if x >= n {
      assert x == n + (x - n);
    }
  }

  /** The view puts `items[(pivot + i) % N]` at position `i`, so it holds
      exactly the items, each as often as in `items`. */
  lemma ViewIndex<T>(r: Row<T>)
    requires Valid(r)
    ensures |View(r)| == |r.items|
    ensures forall i :: 0 <= i < |r.items| ==> View(r)[i] == r.items[(r.pivot + i) % |r.items|]
    ensures multiset(View(r)) == multiset(r.items)
    ensures |r.items| == 0 ==> View(r) == []
  {
    var n := |r.items|;
    forall i | 0 <= i < n
      ensures View(r)[i] == r.items[(r.pivot + i) % n]
    {
      ModWrap(r.pivot + i, n);
    }
    assert r.items == r.items[..r.pivot] + r.items[r.pivot..];
  }

  /** One step of the read loop of row.go: `items[idx]` is the next value of
      the view, and `(idx + 1) % N` is where the following one lives. */
  lemma WalkStep<T>(r: Row<T>, count: nat, idx: nat)
    requires Valid(r) && count < |r.items| && idx == Wrap(r.pivot + count, |r.items|)
    ensures idx < |r.items| && r.items[idx] == View(r)[count]
    ensures View(r)[..count + 1] == View(r)[..count] + [r.items[idx]]
    ensures count + 1 < |r.items| ==> (idx + 1) % |r.items| == Wrap(r.pivot + count + 1, |r.items|)
  {
    var n := |r.items|;
    ModWrap(idx + 1, n);
  }

  /** The limiter a non-negative `WithInterval` value selects: zero means
      every call, anything else an interval of that many nanoseconds. */
  function GateFor(value: int): Gate
  {
    if value == 0 then Every(1) else Interval(value)
  }

  /** The closure returned by `WithInterval(value)` applied to `r`: a negative
      value panics, otherwise the value selects the limiter; the items and
      the pivot are untouched. */
  function ApplyInterval<T>(r: Row<T>, value: int): (b: Built<T>)
    ensures b.Panicked? <==> value < 0
    ensures b.Built? ==> b.row.items == r.items && b.row.pivot == r.pivot
    ensures value == 0 ==> b.Built? && b.row.gate == Every(1)
    ensures value > 0 ==> b.Built? && b.row.gate == Interval(value)
  {
    if value < 0 then Panicked("got negative interval value")
    else Built(r.(gate := GateFor(value)))
  }

  /** The options applied one after another; the first negative interval
      panics, otherwise the last option decides the limiter. */
  function ApplyOptions<T>(r: Row<T>, opts: seq<OptFunc>): (b: Built<T>)
    ensures b.Panicked? <==> exists i :: 0 <= i < |opts| && opts[i].value < 0
    ensures b.Built? ==> b.row.items == r.items && b.row.pivot == r.pivot
    ensures b.Built? ==> b.row.gate == if |opts| == 0 then r.gate else GateFor(opts[|opts| - 1].value)
    decreases |opts|
  {
    if |opts| == 0 then Built(r)
    else
      match ApplyInterval(r, opts[0].value)
      case Panicked(m) => Panicked(m)
      case Built(next) =>
        var rest := ApplyOptions(next, opts[1..]);
        assert forall i :: 0 < i < |opts| ==> opts[i] == opts[1..][i - 1];
        rest
  }

  /** FromSlice: a copy of `items` with the pivot at 0 and a 100 ms limiter,
      then the options in order. */
  function FromSlice<T>(items: seq<T>, opts: seq<OptFunc>): (b: Built<T>)
    ensures b.Panicked? <==> exists i :: 0 <= i < |opts| && opts[i].value < 0
    ensures b.Built? ==> b.row.items == items && b.row.pivot == 0 && Valid(b.row)
    ensures b.Built? ==> View(b.row) == items
    ensures b.Built? && |opts| == 0 ==> b.row.gate == Interval(DefaultInterval)
    ensures b.Built? && |opts| > 0 ==> b.row.gate == GateFor(opts[|opts| - 1].value)
  {
    ApplyOptions(Row(items, 0, Interval(DefaultInterval)), opts)
  }

  /** ToSlice: a fresh slice of length N filled by walking the items from the
      pivot, wrapping modulo N. */
  method ToSlice<T>(r: Row<T>) returns (out: seq<T>)
    requires Valid(r)
    ensures |out| == |r.items|
    ensures forall i :: 0 <= i < |out| ==> out[i] == r.items[(r.pivot + i) % |r.items|]
    ensures out == View(r)
  {
    ViewIndex(r);
    var size := |r.items|;
    out := [];
    var idx, count := r.pivot, 0;
    while count < size
      invariant 0 <= count <= size
      invariant count < size ==> idx == Wrap(r.pivot + count, size)
      invariant out == View(r)[..count]
    {
      out := out + [r.items[idx]];
      WalkStep(r, count, idx);
      idx, count := (idx + 1) % size, count + 1;
    }
  }

  /** Items: the same walk sent into a channel buffered for all N items,
      which is then closed. */
  method Items<T>(r: Row<T>) returns (ch: Chan<T>)
    requires Valid(r)
    ensures ch.closed
    ensures ch.sent == View(r)
  {
    ViewIndex(r);
    var size := |r.items|;
    var sent: seq<T> := [];
    var idx, count := r.pivot, 0;
    while count < size
      invariant 0 <= count <= size
      invariant count < size ==> idx == Wrap(r.pivot + count, size)
      invariant sent == View(r)[..count]
    {
      sent := sent + [r.items[idx]];
      WalkStep(r, count, idx);
      idx, count := (idx + 1) % size, count + 1;
    }
    ch := Chan(sent, true);
  }

  /** Takes: the same walk, but the producer checks the context before every
      send and returns (closing the channel) once it is done. The send itself
      is not guarded by the context, so a consumer that stops receiving
      before the cancellation is seen leaves the producer blocked and the
      channel open. */
  method Takes<T>(r: Row<T>, ctx: Context) returns (ch: Chan<T>)
    requires Valid(r)
    ensures ch.closed <==> !ctx.Abandoned? || ctx.receives >= |r.items|
    ensures |ch.sent| <= |r.items| && ch.sent == View(r)[..|ch.sent|]
    ensures ctx.Background? ==> ch.sent == View(r)
    ensures ctx.CancelAfter? ==> |ch.sent| == if ctx.sends < |r.items| then ctx.sends else |r.items|
    ensures ctx.Abandoned? ==> |ch.sent| == if ctx.receives < |r.items| then ctx.receives else |r.items|
  {
    ViewIndex(r);
    var size := |r.items|;
    var sent: seq<T> := [];
    var idx, count := r.pivot, 0;
    while count < size
      invariant 0 <= count <= size
      invariant ctx.CancelAfter? ==> count <= ctx.sends
      invariant ctx.Abandoned? ==> count <= ctx.receives
      invariant count < size ==> idx == Wrap(r.pivot + count, size)
      invariant sent == View(r)[..count]
    {
      if ctx.CancelAfter? && count >= ctx.sends {
        return Chan(sent, true);
      }
      if ctx.Abandoned? && count >= ctx.receives {
        return Chan(sent, false);
      }
      sent := sent + [r.items[idx]];
      WalkStep(r, count, idx);
      idx, count := (idx + 1) % size, count + 1;
    }
    ch := Chan(sent, true);
  }

  /** Rotate after the limiter has decided. An admitted rotation computes
      `(pivot + 1) % N`, which divides by zero on an empty row, so it needs
      N > 0; a refused one changes nothing. */
  function Rotate<T>(r: Row<T>, admitted: bool): (r': Row<T>)
    requires Valid(r)
    requires admitted ==> |r.items| > 0
    ensures Valid(r')
    ensures r'.items == r.items && r'.gate == r.gate
    ensures !admitted ==> r' == r
  {
    if admitted then r.(pivot := (r.pivot + 1) % |r.items|) else r
  }

  /** An admitted rotation turns every later read into the earlier read
      rotated left by one place: the first item moves to the back. */
  lemma RotateShiftsView<T>(r: Row<T>)
    requires Valid(r) && |r.items| > 0
    ensures Rotate(r, true).pivot < |r.items|
    ensures View(Rotate(r, true)) == RotateLeft(View(r), 1)
    ensures View(Rotate(r, true)) == View(r)[1..] + [View(r)[0]]
  {
    RotateStep(r.items, r.pivot);
  }

  /** Moving the rotation point one place rotates the view one place. */
  lemma RotateStep<T>(s: seq<T>, p: nat)
    requires p < |s|
    ensures RotateLeft(s, (p + 1) % |s|) == RotateLeft(RotateLeft(s, p), 1)
  {
    ModWrap(p + 1, |s|);
    var v := RotateLeft(s, p);
    assert v[1..] + v[..1] == s[p + 1..] + s[..p] + [s[p]];
    if p + 1 == |s| {
      assert s[..p] + [s[p]] == s;
    } else {
      assert s[..p + 1] == s[..p] + [s[p]];
    }
  }

  /** Rotate as written, for every row: an admitted rotation of an empty row
      is Go's integer divide by zero. */
  function RotateChecked<T>(r: Row<T>, admitted: bool): (b: Built<T>)
    requires Valid(r)
    ensures b.Panicked? <==> admitted && |r.items| == 0
    ensures b.Built? ==> b.row == Rotate(r, admitted)
  {
    if admitted && |r.items| == 0 then Panicked("runtime error: integer divide by zero")
    else Built(Rotate(r, admitted))
  }

  /** `k` admitted rotations in a row. */
  function Rotations<T>(r: Row<T>, k: nat): (r': Row<T>)
    requires Valid(r) && |r.items| > 0
    ensures Valid(r') && r'.items == r.items && r'.gate == r.gate
  {
    if k == 0 then r else Rotate(Rotations(r, k - 1), true)
  }

  /** After `k` admitted rotations the pivot has advanced by `k` modulo N and
      every read is the items rotated left by that much. */
  lemma {:induction false} RotationsAdvance<T>(r: Row<T>, k: nat)
    requires Valid(r) && |r.items| > 0
    ensures Rotations(r, k).pivot == (r.pivot + k) % |r.items|
    ensures View(Rotations(r, k)) == RotateLeft(r.items, (r.pivot + k) % |r.items|)
  {
    RotationsPivot(r, k);
  }

  lemma {:induction false} RotationsPivot<T>(r: Row<T>, k: nat)
    requires Valid(r) && |r.items| > 0
    ensures Rotations(r, k).pivot == (r.pivot + k) % |r.items|
  {
    var n := |r.items|;
    if k == 0 {
      ModWrap(r.pivot, n);
    } else {
      var before := Rotations(r, k - 1);
      RotationsPivot(r, k - 1);
      var x: nat := r.pivot + k - 1;
      assert before.pivot == x % n;
      ModSucc(x, n);
      assert Rotations(r, k).pivot == (before.pivot + 1) % n;
    }
  }

  lemma ModSucc(x: nat, n: nat)
    requires n > 0
    ensures ((x % n) + 1) % n == (x + 1) % n
  {
    var q, m := x / n, x % n;
    assert x == q * n + m;
    if m + 1 < n {
      DivMod(x + 1, n, q, m + 1);
      DivMod(m + 1, n, 0, m + 1);
    } else {
      assert x + 1 == (q + 1) * n;
      DivMod(x + 1, n, q + 1, 0);
      DivMod(m + 1, n, 1, 0);
    }
  }

  /** Euclidean division is unique. */
  lemma DivMod(x: int, n: int, q: int, m: int)
    requires n > 0 && 0 <= m < n && x == q * n + m
    ensures x % n == m
  {
    var q', m' := x / n, x % n;
    assert x == q' * n + m';
    assert (q - q') * n == m' - m;
    if q > q' {
      MulAtLeast(q - q', n);
    } else if q < q' {
      MulAtLeast(q' - q, n);
    }
  }

  lemma MulAtLeast(a: int, n: int)
    requires a >= 1 && n > 0
    ensures a * n >= n
  {
  }

  /** Rotations compose: `a` rotations followed by `b` are `a + b`. */
  lemma {:induction false} RotationsCompose<T>(r: Row<T>, a: nat, b: nat)
    requires Valid(r) && |r.items| > 0
    ensures Rotations(Rotations(r, a), b) == Rotations(r, a + b)
  {
    if b > 0 {
      RotationsCompose(r, a, b - 1);
    }
  }

  /** N admitted rotations bring the row back to where it was. */
  lemma FullCycle<T>(r: Row<T>)
    requires Valid(r) && |r.items| > 0
    ensures Rotations(r, |r.items|) == r
  {
    var back := Rotations(r, |r.items|);
    CyclePivot(r, |r.items|);
    assert back == Row(r.items, r.pivot, r.gate);
  }

  /** Within one cycle the pivot advances without reducing modulo N more
      than once. */
  lemma {:induction false} CyclePivot<T>(r: Row<T>, k: nat)
    requires Valid(r) && |r.items| > 0 && k <= |r.items|
    ensures Rotations(r, k).pivot == Wrap(r.pivot + k, |r.items|)
  {
    if k > 0 {
      CyclePivot(r, k - 1);
      ModWrap(Rotations(r, k - 1).pivot + 1, |r.items|);
    }
  }

  function CountAdmitted(admits: seq<bool>): nat
  {
    if |admits| == 0 then 0 else (if admits[0] then 1 else 0) + CountAdmitted(admits[1..])
  }

  /** A series of Rotate calls with the limiter's decisions `admits`. */
  function Replay<T>(r: Row<T>, admits: seq<bool>): (r': Row<T>)
    requires Valid(r)
    requires |r.items| > 0 || true !in admits
    ensures Valid(r') && r'.items == r.items && r'.gate == r.gate
    decreases |admits|
  {
    if |admits| == 0 then r
    else
      assert admits[0] ==> |r.items| > 0;
      assert forall i :: 0 < i < |admits| ==> admits[i] == admits[1..][i - 1];
      Replay(Rotate(r, admits[0]), admits[1..])
  }

  /** Only admitted calls move the pivot, each by exactly one place: the
      series ends where as many plain rotations end. */
  lemma {:induction false} ReplayCountsAdmitted<T>(r: Row<T>, admits: seq<bool>)
    requires Valid(r) && |r.items| > 0
    ensures Replay(r, admits) == Rotations(r, CountAdmitted(admits))
    decreases |admits|
  {
    if |admits| > 0 {
      var next := Rotate(r, admits[0]);
      ReplayCountsAdmitted(next, admits[1..]);
      if admits[0] {
        assert next == Rotations(r, 1);
        RotationsCompose(r, 1, CountAdmitted(admits[1..]));
      }
    }
  }

  /** An empty row reads as empty. The limiter admits the first `Rotate`
      after construction whatever its interval, so that first call on an
      empty row is the divide-by-zero panic. */
  lemma EmptyRowReadsEmpty<T>(items: seq<T>, opts: seq<OptFunc>)
    requires items == [] && FromSlice(items, opts).Built?
    ensures View(FromSlice(items, opts).row) == []
    ensures RotateChecked(FromSlice(items, opts).row, true).Panicked?
  {
  }

  lemma {:induction false} ReplayRefused<T>(r: Row<T>, admits: seq<bool>)
    requires Valid(r) && true !in admits
    ensures Replay(r, admits) == r
    decreases |admits|
  {
    if |admits| > 0 {
      assert admits[0] == false;
      assert true !in admits[1..];
      ReplayRefused(r, admits[1..]);
    }
  }

  /** The scenarios of row/row_test.go on `[1, 2, 3]`. */
  lemma TestedRotations()
    ensures FromSlice([1, 2, 3], [WithInterval(0)]).Built?
    ensures var r := FromSlice([1, 2, 3], [WithInterval(0)]).row;
      && View(Rotations(r, 1)) == [2, 3, 1]
      && View(Rotations(r, 2)) == [3, 1, 2]
      && View(Rotations(r, 3)) == [1, 2, 3]
  {
    var r := FromSlice([1, 2, 3], [WithInterval(0)]).row;
    assert r == Row([1, 2, 3], 0, Every(1));
    var r1 := Rotate(r, true);
    var r2 := Rotate(r1, true);
    var r3 := Rotate(r2, true);
    assert r1.pivot == 1 && r2.pivot == 2 && r3.pivot == 0;
    assert Rotations(r, 1) == r1;
    assert Rotations(r, 2) == r2;
    assert Rotations(r, 3) == r3;
    assert View(r1) == [2, 3] + [1];
    assert View(r2) == [3] + [1, 2];
    assert View(r3) == [1, 2, 3];
  }
}
