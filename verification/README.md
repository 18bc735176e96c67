# Rotating row and iterator helpers, modelled in Dafny

This project models two parts of the Go module `mice`:

- **`row`**: the generic `Row[T]` container. It holds a private copy of its
  items and a pivot. Every read (`ToSlice`, `Items`, `Takes`) walks the
  items from the pivot, wrapping modulo N. An effective `Rotate` moves the
  pivot one place, so the next read is the previous one rotated left by
  one. Rotation is throttled by a `rate.Sometimes` limiter, configured
  through `WithInterval`.
- **`flow`**: single-pass iterator combinators over Go's range-over-func
  iterators (`Empty`, `Pack`, `Chain`, `Take`, `Drop` and their `*2`
  forms), the integer generators `Since`, `Forward` and `Backward`, and the
  short-circuit folds `Any` and `All`.

Files:

- `row.dfy` (module `Rows`): the container as an immutable `Row(items, pivot, gate)`.
  A read is the reference view `View(r) = RotateLeft(items, pivot)`. Rotation is
  a function of the limiter's verdict.
- `flow_seq.dfy` (module `FlowSeq`): the yield protocol. A finite iterator is
  the sequence of values it yields. A consumer is a `yield` callback given by
  two budgets: `limit`, the number of values it records, and `reach`, the
  number of calls it answers before it answers `false`. A loop that breaks on
  the value that fills it has `reach = max(room, 1)` (`Fresh`). A loop that
  checks `count == take` before recording has `reach = room + 1`
  (`Lookahead`): it is called once more and breaks on a value it does not
  keep. `Drain(s, c)` is the canonical producer
  `for v := range s { if !yield(v) { return } }`. The observed output is
  always a prefix.
- `flow_iter.dfy`, `flow_generate.dfy`, `flow_circuit.dfy` (modules `FlowIter`,
  `FlowGenerate`, `FlowCircuit`): each combinator is a method whose loop
  follows its Go closure. Its contract says the consumer ends exactly as if
  the combinator's value sequence had been drained into it, so it covers
  every consumer budget.

`row/row.go:119` has no guard for an empty row: an admitted rotation
evaluates `% 0`, Go's integer-divide-by-zero panic. So `Rows.Rotate`
requires a non-empty row when the rotation is admitted, and
`Rows.RotateChecked` shows the panic: it panics exactly in that case and
agrees with `Rotate` in every other.

## Model

| member | source | states |
|---|---|---|
| Rows.ApplyInterval | row/row.go:27-37 | A negative interval panics, zero selects every-call mode (`Every: 1`), a positive interval selects interval mode with that duration; items and pivot are untouched |
| Rows.ApplyOptions | row/row.go:55-57 | Options apply in order: the result panics iff some interval is negative; otherwise items and pivot are kept and the last option alone decides the limiter |
| Rows.FromSlice | row/row.go:42-60 | Construction keeps a copy equal to the input with pivot 0, so the first read is the input itself (empty for empty input); the limiter is 100 ms interval mode unless an option is given, in which case the last option wins; any negative interval panics |
| Rows.ViewIndex | row/row.go:101-108 | Position i of the rotated view holds `items[(pivot + i) % N]`; the view has length N, is a permutation of the items and is empty when N = 0 |
| Rows.ToSlice | row/row.go:101-108 | The modular walk fills a slice of length N with `out[i] = items[(pivot + i) % N]`, equal to the rotated view |
| Rows.Items | row/row.go:63-71 | The channel receives exactly the rotated view, in order, and is closed |
| Rows.Takes | row/row.go:81-96 | The channel always carries a prefix of the rotated view. Without cancellation it is the whole view, closed. Cancelled after k sends it carries min(k, N) items, closed. If the consumer stops receiving after k items before the producer's check sees the cancellation, the next send blocks forever: it carries min(k, N) items and is closed only if k >= N |
| Rows.Rotate | row/row.go:114-121 | An admitted rotation needs N > 0 (no guard before `% len`); items and limiter never change, the pivot stays a valid index, and a refused rotation changes nothing |
| Rows.RotateShiftsView | row/row.go:110-121 | After an admitted rotation the read is the previous read rotated left by one: the first item moves to the back |
| Rows.RotateChecked | row/row.go:119 | Rotation as written panics exactly when it is admitted on an empty row, and otherwise agrees with Rotate |
| Rows.RotationsAdvance | row/row.go:119 | After k admitted rotations the pivot is `(pivot + k) % N` and every read is the items rotated left by that amount |
| Rows.RotationsCompose | row/row.go:119 | a admitted rotations followed by b more equal a + b admitted rotations |
| Rows.FullCycle | row/row.go:119 | N admitted rotations return the row to its starting state |
| Rows.ReplayCountsAdmitted | row/row.go:114-121 | A series of Rotate calls ends where as many plain rotations as admitted calls end: refused calls change nothing and each admitted call advances by exactly one |
| Rows.EmptyRowReadsEmpty | row/row_test.go:12-39 | A row built from an empty or nil slice reads as empty; if admitted (`rate.Sometimes` always runs its first `Do`, as the test at lines 30-39 relies on), that rotation of an empty row panics |
| Rows.ReplayRefused | row/row.go:110-121 | Throttled attempts do nothing: a series of Rotate calls none of which the limiter admits leaves the row unchanged |
| Rows.TestedRotations | row/row_test.go:58-80 | From `[1, 2, 3]` with interval 0: one, two and three rotations read `[2, 3, 1]`, `[3, 1, 2]` and `[1, 2, 3]` |
| FlowSeq.DrainObserves | flow/iter.go:34-40 | Draining into a consumer records the first `Room()` values (all of them if fewer), calls `yield` `min(reach, len)` times, and reports a stop exactly when there are at least `reach` values |
| FlowSeq.DrainObservesPrefix | flow/example_test.go:42-49 | A consumer that stops after k items has observed exactly the first k values, and nothing further is yielded |
| FlowSeq.DrainAppend | flow/iter.go:34-40 | Ranging over one sequence and then another, with a consumer the first did not stop, is ranging over the second with the consumer as the first left it |
| FlowSeq.DrainStopsEarly | flow/iter.go:36-38 | Once the consumer has answered `false`, values that would come later are never yielded |
| FlowIter.Empty | flow/iter.go:6-9 | Empty never calls `yield`: the consumer is unchanged |
| FlowIter.Empty2 | flow/iter.go:11-14 | Empty2 never calls `yield` |
| FlowIter.Pack | flow/iter.go:17-21 | Pack yields exactly `[v]`: one `yield` call, recorded if the consumer has room |
| FlowIter.Pack2 | flow/iter.go:23-27 | Pack2 yields exactly the single pair `(k, v)`, with one `yield` call |
| FlowIter.Chain | flow/iter.go:32-42 | Chain drives the consumer exactly as the concatenation s1 ++ ... ++ sn in argument order (nothing for no arguments); a consumer stopping after k items sees the first k elements and nothing more is yielded |
| FlowIter.Chain2 | flow/iter.go:44-54 | Chain2 behaves as Chain on the sequences of key/value pairs |
| FlowIter.Take | flow/iter.go:57-70 | Take yields the first `min(max(n, 0), len(s))` values of s: all of them if s is short, none if n <= 0; a consumer with room k sees the first min(k, that) of them |
| FlowIter.Take2 | flow/iter.go:72-85 | Take2 behaves as Take on the key/value pairs |
| FlowIter.Drop | flow/iter.go:88-101 | Drop yields s without its first `max(n, 0)` values, and nothing when n >= len(s); a consumer with room k sees the first k of those |
| FlowIter.Drop2 | flow/iter.go:103-116 | Drop2 behaves as Drop on the key/value pairs |
| FlowIter.TakeDropSplit | flow/iter.go:57-101 | For a consumer that wants every value, what Take yields followed by what Drop yields is the whole sequence; n <= 0 takes nothing and drops nothing; n >= len takes everything and leaves nothing |
| FlowIter.TestedTakeDrop | flow/iter_test.go:35-95 | The test cases, as a consumer collects them: Take and Drop on `[1..5]` with 3 give `[1, 2, 3]` and `[4, 5]`, on `[1, 2, 3]` with 5 give `[1, 2, 3]` and nothing |
| FlowIter.ExampleTraversal | flow/example_test.go:15-49 | The tree traversal built from Empty, Pack and Chain yields `[1..5]`; a consumer that breaks at 4 sees `[1, 2, 3, 4]` after exactly four `yield` calls |
| FlowGenerate.Since | flow/generate.go:6-16 | Since never ends by itself: the consumer always stops it. A consumer with room k receives `start, ..., start + k - 1`, including for negative start, after `reach` calls: k for a consumer that breaks on its k-th value, k + 1 for one that checks its count before recording |
| FlowGenerate.Forward | flow/generate.go:19-32 | Forward drives the consumer exactly as `b, b + 1, ..., e - 1`, of length `max(e - b, 0)`, which is empty when b >= e |
| FlowGenerate.Backward | flow/generate.go:35-48 | Backward drives the consumer exactly as `e - 1, e - 2, ..., b`, which is empty when b >= e |
| FlowGenerate.ForwardObserved | flow/generate.go:19-32 | A consumer with room k receives the k smallest values `b, ..., b + k - 1` (all of them if the range is shorter), and stops Forward exactly when the range has at least `reach` values |
| FlowGenerate.BackwardObserved | flow/generate.go:35-48 | A consumer with room k receives the k largest values `e - 1, ..., e - k` (all of them if the range is shorter), and stops Backward exactly when the range has at least `reach` values |
| FlowGenerate.BackwardReversesForward | flow/generate.go:19-48 | Backward's values are the reverse of Forward's |
| FlowGenerate.GeneratorsOrdered | flow/generate.go:23-45 | Forward is strictly increasing and Backward strictly decreasing; all their values lie in [b, e) and each value of [b, e) appears, once |
| FlowGenerate.TestedRanges | flow/generate_test.go:9-116 | The test cases: Forward(0,3), Backward(0,3), the empty ranges, and Since from 5, 0 and -2 |
| FlowGenerate.SinceCase | flow/generate_test.go:102-110 | Since under the test's counting consumer (check `count == take`, then record) records `start, ..., start + take - 1` and is stopped on call take + 1 |
| FlowGenerate.TestedSinceEmpty | flow/generate_test.go:81-86 | Since(5) with take 0: nothing recorded, one call, stopped |
| FlowGenerate.TestedSinceSimple | flow/generate_test.go:87-92 | Since(0) with take 3: `[0, 1, 2]` recorded, four calls, stopped |
| FlowGenerate.TestedSinceFromNegative | flow/generate_test.go:93-98 | Since(-2) with take 5: `[-2, -1, 0, 1, 2]` recorded, six calls, stopped |
| FlowGenerate.TestedLookaheadForward | flow/generate.go:19-32 | The same counting consumer with take 3 over Forward(0, 3) records `[0, 1, 2]` in three calls and is never asked to break: the range ends first |
| FlowCircuit.Any | flow/circuit.go:6-13 | Any is true iff some condition is true (false on empty input), and it consumes conditions only up to and including the first true one |
| FlowCircuit.All | flow/circuit.go:16-23 | All is true iff every condition is true (true on empty input), and it consumes conditions only up to and including the first false one |
| FlowCircuit.AllIsNotAnyOfNegation | flow/circuit.go:6-23 | `All(s) == !Any(map(not, s))`, and both stop after the same number of conditions |

## Left out

- `async/group.go`: concurrent jobs over `errgroup`, context cancellation and concurrent slot writes are concurrency and external-library behaviour. That module is not part of this model.
- The admission logic of `rate.Sometimes` depends on wall-clock time and concurrent callers in a library that is not part of this model. Its decision reaches `Rotate` as the `admitted` flag. So the "100 concurrent rotates give one effective rotation" scenario (row/row_test.go:40-57) is not modelled. Only the limiter's configuration (`Gate`) is modelled.
- `sync.Mutex`, goroutine scheduling and channel buffering are left out. A channel is the values received from it plus the closed flag. A `Takes` producer blocked forever on its unbuffered send is modelled by its outcome only, an unclosed channel under the `Abandoned` context. This happens whenever the consumer stops receiving before the producer's check sees a cancellation, even if the context is cancelled afterwards. The leaked goroutine itself is not modelled.
- The reads of `pivot` without the lock in `Items`, `Takes` and `ToSlice` (row/row.go:66, 86, 104) are a data race. Each read here sees one pivot value.
- `Since` adds to a fixed-width Go `int` (flow/generate.go:13), which can overflow. The model uses unbounded integers.
- FlowSeq.Drain: a consumer is modelled by its two budgets, the values it records and the calls it answers. Consumers whose decision to stop depends on the values themselves, like the example's `val == 4`, are represented by the budgets that stop at the same point. A consumer that never stops would make `Since` loop forever; no finite `reach` models that.
- Rows.FromSlice: only the package's own option, `WithInterval`, is modelled. `OptFunc` is an exported function type, so a caller may pass any closure; one that calls `Rotate` or changes the items would break the stated construction result. Caller-written options are not modelled.
- `Chain`, `Take`, `Drop`, `Any` and `All` are modelled over finite input iterators only, each given as the sequence of values it yields. `Take` pulls one value past `count` from its source before returning (flow/iter.go:59-63). That extra pull is what lets `Take(Since(s), n)` stop, and it cannot be observed once the input is a sequence. The model does not state it.
- Benchmarks, the pointer-identity test (row/row_test.go:91-165) and the package prose in flow/doc.go are left out.
