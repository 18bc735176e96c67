/**
 The push protocol of a Go range-over-func iterator (`iter.Seq[V]`), reduced to
 what one sequential consumer observes.

 A finite iterator is represented by the values it yields when drained; the
 consumer is a budgeted `yield` callback that records values while it has room
 and answers `false` as soon as it wants no more. Every producer in the flow
 package is then compared against `Drain`, the canonical producer
 `for v := range s { if !yield(v) { return } }`.
 */
module FlowSeq {

  function Min(a: int, b: int): int { if a <= b then a else b }

  function Max(a: int, b: int): int { if a <= b then b else a }

  /** A consumer that wants at most `limit` values. `got` is what it has
      recorded so far and `calls` counts every invocation of its `yield`;
      `reach` is how many more calls it takes, the last of which it answers
      `false`.

      Breaking out of a range loop comes in two common shapes. An eager
      consumer answers `false` together with the value that fills it, like a
      body that appends and then breaks once it has enough: its reach is its
      room (at least one call). A lookahead consumer accepts the value that
      fills it and only notices it is full on the next one, which it drops
      while answering `false`, like a body that starts with
      `if count == take { break }`: its reach is one more than its room. */
  datatype Consumer<V> = Consumer(limit: nat, got: seq<V>, calls: nat, reach: nat) {

    /** Within its limit, and willing to take a call for every value it still
        has room for. */
    predicate Valid() { |got| <= limit && 1 <= reach && limit - |got| <= reach }

    /** How many more values the consumer is willing to record. */
    function Room(): nat
      requires Valid()
    {
      limit - |got|
    }
  }

  /** An eager consumer that has seen nothing yet and stops after `k` values. */
  function Fresh<V>(k: nat): Consumer<V>
  {
    Consumer(k, [], 0, Max(k, 1))
  }

  /** A lookahead consumer that has seen nothing yet and keeps `k` values. */
  function Lookahead<V>(k: nat): Consumer<V>
  {
    Consumer(k, [], 0, k + 1)
  }

  /** One call `yield(v)`: the value is recorded if there is room, and the
      answer says whether the consumer wants another one. A value that comes
      when the consumer is already full is dropped. */
  function Yield<V>(c: Consumer<V>, v: V): (res: (Consumer<V>, bool))
    requires c.Valid()
    ensures res.0.Valid() && res.0.limit == c.limit
  {
    var got := if |c.got| < c.limit then c.got + [v] else c.got;
    (Consumer(c.limit, got, c.calls + 1, if c.reach > 1 then c.reach - 1 else 1), c.reach > 1)
  }

  /** Feeds `s` to `c` in order, returning as soon as `yield` answers `false`.
      The flag says whether the consumer stopped the producer. */
  function Drain<V>(s: seq<V>, c: Consumer<V>): (res: (Consumer<V>, bool))
    requires c.Valid()
    ensures res.0.Valid() && res.0.limit == c.limit
    decreases |s|
  {
    if |s| == 0 then (c, false)
    else
      var step := Yield(c, s[0]);
      if !step.1 then (step.0, true) else Drain(s[1..], step.0)
  }

  /** What a drained consumer has observed: the first `Room()` values (all of
      them when fewer are available), after at most `reach` calls of
      `yield`; the producer is stopped exactly when the values outlast the
      consumer's reach. */
  lemma DrainObserves<V>(s: seq<V>, c: Consumer<V>)
    requires c.Valid()
    ensures Drain(s, c).0.got == c.got + s[..Min(c.Room(), |s|)]
    ensures Drain(s, c).0.calls == c.calls + Min(c.reach, |s|)
    ensures Drain(s, c).1 <==> |s| >= c.reach
  {
    DrainRecords(s, c);
    DrainCalls(s, c);
  }

  /** The values a drained consumer records. */
  lemma {:induction false} DrainRecords<V>(s: seq<V>, c: Consumer<V>)
    requires c.Valid()
    ensures Drain(s, c).0.got == c.got + s[..Min(c.Room(), |s|)]
    decreases |s|
  {
    RecordsStep(c.got, s, Min(c.Room(), |s|));
    if |s| > 0 {
      var step := Yield(c, s[0]);
      if step.1 {
        DrainRecords(s[1..], step.0);
      }
    }
  }

  /** The recorded prefix, peeled one value at a time. */
  lemma RecordsStep<V>(g: seq<V>, s: seq<V>, m: nat)
    requires m <= |s|
    ensures m == 0 ==> g + s[..m] == g
    ensures m == 1 ==> g + s[..m] == g + [s[0]]
    ensures m > 0 ==> g + s[..m] == (g + [s[0]]) + s[1..][..m - 1]
  {
    if m > 0 {
      assert s[..m] == [s[0]] + s[1..][..m - 1];
    }
  }

  /** A consumer with room for all of `s` records all of it. */
  lemma DrainWhole<V>(s: seq<V>, c: Consumer<V>)
    requires c.Valid() && |s| <= c.Room()
    ensures Drain(s, c).0.got == c.got + s
  {
    DrainRecords(s, c);
    RecordsAll(c.got, s);
  }

  lemma RecordsAll<V>(g: seq<V>, s: seq<V>)
    ensures g + s[..|s|] == g + s
  {
    assert s[..|s|] == s;
  }

  /** How often a drained consumer is called, and when it stops the
      producer. */
  lemma {:induction false} DrainCalls<V>(s: seq<V>, c: Consumer<V>)
    requires c.Valid()
    ensures Drain(s, c).0.calls == c.calls + Min(c.reach, |s|)
    ensures Drain(s, c).1 <==> |s| >= c.reach
    decreases |s|
  {
    if |s| > 0 {
      var step := Yield(c, s[0]);
      if step.1 {
        DrainCalls(s[1..], step.0);
      }
    }
  }

  /** `DrainObserves` with the observed prefix named `t`. */
  lemma DrainObservesAs<V>(s: seq<V>, c: Consumer<V>, t: seq<V>)
    requires c.Valid() && t == s[..Min(c.Room(), |s|)]
    ensures Drain(s, c).0.got == c.got + t
    ensures Drain(s, c).1 <==> |s| >= c.reach
  {
    DrainObserves(s, c);
  }

  /** A consumer with budget `k` observes exactly the first `k` values. */
  lemma DrainObservesPrefix<V>(s: seq<V>, k: nat)
    ensures Drain(s, Fresh(k)).0.got == s[..Min(k, |s|)]
    ensures Drain(s, Fresh(k)).0.calls == Min(Max(k, 1), |s|)
    ensures Drain(s, Fresh(k)).1 <==> |s| >= Max(k, 1)
  {
    DrainObserves(s, Fresh(k));
  }

  /** Draining one more value after a run the consumer did not stop is one
      more `yield`. */
  lemma {:induction false} DrainSnoc<V>(p: seq<V>, v: V, c: Consumer<V>)
    requires c.Valid()
    requires !Drain(p, c).1
    ensures Drain(p + [v], c) == (var step := Yield(Drain(p, c).0, v); (step.0, !step.1))
    decreases |p|
  {
    if |p| > 0 {
      var step := Yield(c, p[0]);
      HeadAppend(p, [v]);
      DrainSnoc(p[1..], v, step.0);
    }
  }

  /** Draining `p` and then `q` into a consumer that `p` did not stop is
      draining `q` into the consumer as `p` left it. */
  lemma {:induction false} DrainAppend<V>(p: seq<V>, q: seq<V>, c: Consumer<V>)
    requires c.Valid()
    requires !Drain(p, c).1
    ensures Drain(p + q, c) == Drain(q, Drain(p, c).0)
    decreases |p|
  {
    if |p| > 0 {
      var step := Yield(c, p[0]);
      HeadAppend(p, q);
      DrainAppend(p[1..], q, step.0);
    } else {
      assert p + q == q;
    }
  }

  /** Once the consumer has stopped the producer, nothing that would have come
      later is yielded. */
  lemma {:induction false} DrainStopsEarly<V>(p: seq<V>, q: seq<V>, c: Consumer<V>)
    requires c.Valid()
    requires Drain(p, c).1
    ensures Drain(p + q, c) == Drain(p, c)
    decreases |p|
  {
    var step := Yield(c, p[0]);
    HeadAppend(p, q);
    if step.1 {
      DrainStopsEarly(p[1..], q, step.0);
    }
  }

  lemma HeadAppend<V>(p: seq<V>, q: seq<V>)
    requires |p| > 0
    ensures (p + q)[0] == p[0] && (p + q)[1..] == p[1..] + q
  {
  }
}
