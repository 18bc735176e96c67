/**
 The iterator combinators of flow/iter.go. Each combinator is a method whose
 loop follows the Go closure step for step, driving a consumer `c`; its
 contract says the consumer ends exactly as if the combinator's value
 sequence had been drained into it (`FlowSeq.Drain`), so early termination is
 covered for every consumer budget.

 A two-valued iterator (`iter.Seq2[K, V]`) is modelled by its sequence of
 `(key, value)` pairs, with `yield(k, v)` recording the pair.
 */
module FlowIter {
  import opened FlowSeq

  /** The values of the iterators `sequences[0]`, `sequences[1]`, ... one after
      the other. */
  function Concat<V>(sequences: seq<seq<V>>): seq<V>
  {
    if |sequences| == 0 then [] else sequences[0] + Concat(sequences[1..])
  }

  lemma {:induction false} ConcatAppend<V>(ss: seq<seq<V>>, ts: seq<seq<V>>)
    ensures Concat(ss + ts) == Concat(ss) + Concat(ts)
    ensures |Concat(ss + ts)| == |Concat(ss)| + |Concat(ts)|
    decreases |ss|
  {
    if |ss| == 0 {
      assert ss + ts == ts;
    } else {
      assert (ss + ts)[1..] == ss[1..] + ts;
      ConcatAppend(ss[1..], ts);
    }
  }

  /** The number of leading values `Take` keeps and `Drop` removes: a
      negative count means none, a count beyond the end means all. */
  function Clamp(count: int, len: nat): (k: nat)
    ensures k <= len
  {
    Min(Max(count, 0), len)
  }

  /** Empty: the closure never calls `yield`. */
  method Empty<V>(c: Consumer<V>) returns (out: Consumer<V>, stopped: bool)
    requires c.Valid()
    ensures (out, stopped) == Drain([], c)
    ensures out.got == c.got && out.calls == c.calls
  {
    out, stopped := c, false;
  }

  /** Pack: one call `yield(v)`, whose answer is ignored. */
  method Pack<V>(v: V, c: Consumer<V>) returns (out: Consumer<V>, stopped: bool)
    requires c.Valid()
    ensures (out, stopped) == Drain([v], c)
    ensures out.got == c.got + (if c.Room() > 0 then [v] else [])
    ensures out.calls == c.calls + 1
  {
    var step := Yield(c, v);
    out, stopped := step.0, !step.1;
  }

  /** Chain: ranges over each sequence in argument order and returns as soon
      as `yield` answers `false`, so the consumer sees a prefix of the
      concatenation and nothing after it stops. */
  method Chain<V>(sequences: seq<seq<V>>, c: Consumer<V>) returns (out: Consumer<V>, stopped: bool)
    requires c.Valid()
    ensures (out, stopped) == Drain(Concat(sequences), c)
    ensures out.got == c.got + Concat(sequences)[..Min(c.Room(), |Concat(sequences)|)]
    ensures stopped <==> |Concat(sequences)| >= c.reach
  {
    DrainObserves(Concat(sequences), c);
    out := c;
    var i := 0;
    while i < |sequences|
      invariant 0 <= i <= |sequences|
      invariant (out, false) == Drain(Concat(sequences[..i]), c)
    {
      var done := Concat(sequences[..i]);
      ConcatPrefixSnoc(sequences, i);
      out, stopped := Forwarding(sequences[i], out);
      DrainAppend(done, sequences[i], c);
      if stopped {
        ConcatSplit(sequences, i);
        DrainStopsEarly(done + sequences[i], Concat(sequences[i + 1..]), c);
        return;
      }
      i := i + 1;
    }
    assert sequences[..i] == sequences;
    stopped := false;
  }

  /** The inner loop of Chain: `for val := range s { if !yield(val) { return } }`
      continuing with the consumer as the earlier sequences left it. */
  method Forwarding<V>(s: seq<V>, cur: Consumer<V>) returns (out: Consumer<V>, stopped: bool)
    requires cur.Valid()
    ensures (out, stopped) == Drain(s, cur)
  {
    out := cur;
    var j := 0;
    while j < |s|
      invariant 0 <= j <= |s|
      invariant (out, false) == Drain(s[..j], cur)
    {
      DrainSnoc(s[..j], s[j], cur);
      PrefixSnoc(s, j);
      var step := Yield(out, s[j]);
      out := step.0;
      if !step.1 {
        StopsWithinPrefix(s, j + 1, |s|, cur);
        WholePrefix(s);
        return out, true;
      }
      j := j + 1;
    }
    WholePrefix(s);
    stopped := false;
  }

  /** The concatenation of the first `i + 1` sequences extends that of the
      first `i` by the `i`-th. */
  lemma ConcatPrefixSnoc<V>(sequences: seq<seq<V>>, i: nat)
    requires i < |sequences|
    ensures Concat(sequences[..i + 1]) == Concat(sequences[..i]) + sequences[i]
  {
    var pre, next := sequences[..i], sequences[..i + 1];
    assert next == pre + [sequences[i]];
    ConcatSnoc(pre, sequences[i]);
  }

  lemma ConcatSnoc<V>(pre: seq<seq<V>>, s: seq<V>)
    ensures Concat(pre + [s]) == Concat(pre) + s
  {
    ConcatAppend(pre, [s]);
    ConcatSingle(s);
  }

  lemma ConcatSingle<V>(s: seq<V>)
    ensures Concat([s]) == s
  {
    var one := [s];
    assert one[0] == s && one[1..] == [];
    assert Concat(one[1..]) == [];
  }

  /** The concatenation split after its `i`-th sequence. */
  lemma ConcatSplit<V>(sequences: seq<seq<V>>, i: nat)
    requires i < |sequences|
    ensures Concat(sequences) == (Concat(sequences[..i]) + sequences[i]) + Concat(sequences[i + 1..])
  {
    var s, pre, post := sequences[i], sequences[..i], sequences[i + 1..];
    SplitAt(sequences, i);
    ConcatAppend(pre, [s] + post);
    ConcatCons(s, post);
  }

  lemma SplitAt<V>(sequences: seq<seq<V>>, i: nat)
    requires i < |sequences|
    ensures sequences == sequences[..i] + ([sequences[i]] + sequences[i + 1..])
  {
  }

  lemma ConcatCons<V>(s: seq<V>, post: seq<seq<V>>)
    ensures Concat([s] + post) == s + Concat(post)
  {
    var tail := [s] + post;
    assert tail[0] == s && tail[1..] == post;
  }

  /** Chain2 yields the pairs of its sequences in argument order: Chain over
      the pair sequences. */
  method Chain2<K, V>(sequences: seq<seq<(K, V)>>, c: Consumer<(K, V)>)
    returns (out: Consumer<(K, V)>, stopped: bool)
    requires c.Valid()
    ensures (out, stopped) == Drain(Concat(sequences), c)
    ensures out.got == c.got + Concat(sequences)[..Min(c.Room(), |Concat(sequences)|)]
    ensures stopped <==> |Concat(sequences)| >= c.reach
  {
    out, stopped := Chain(sequences, c);
  }

  method Empty2<K, V>(c: Consumer<(K, V)>) returns (out: Consumer<(K, V)>, stopped: bool)
    requires c.Valid()
    ensures (out, stopped) == Drain([], c)
    ensures out.got == c.got && out.calls == c.calls
  {
    out, stopped := Empty(c);
  }

  method Pack2<K, V>(k: K, v: V, c: Consumer<(K, V)>) returns (out: Consumer<(K, V)>, stopped: bool)
    requires c.Valid()
    ensures (out, stopped) == Drain([(k, v)], c)
    ensures out.got == c.got + (if c.Room() > 0 then [(k, v)] else [])
    ensures out.calls == c.calls + 1
  {
    out, stopped := Pack((k, v), c);
  }

  /** Take: counts every value pulled from `s` and returns before forwarding
      the one that would exceed `count`. */
  method Take<V>(s: seq<V>, count: int, c: Consumer<V>) returns (out: Consumer<V>, stopped: bool)
    requires c.Valid()
    ensures (out, stopped) == Drain(s[..Clamp(count, |s|)], c)
    ensures out.got == c.got + s[..Min(c.Room(), Clamp(count, |s|))]
    ensures stopped <==> Clamp(count, |s|) >= c.reach
  {
    ObservedPrefix(s, Clamp(count, |s|), c);
    out := c;
    var n := 0;
    var i := 0;
    while i < |s|
      invariant 0 <= i <= |s| && n == i
      invariant i <= Max(count, 0)
      invariant (out, false) == Drain(s[..i], c)
    {
      n := n + 1;
      if n > count {
        TakeBound(s, count, i);
        return out, false;
      }
      DrainSnoc(s[..i], s[i], c);
      PrefixSnoc(s, i);
      var step := Yield(out, s[i]);
      out := step.0;
      if !step.1 {
        StopsWithinPrefix(s, i + 1, Clamp(count, |s|), c);
        return out, true;
      }
      i := i + 1;
    }
    TakeBound(s, count, i);
    stopped := false;
  }

  /** What a consumer sees of the first `k` values of `s`. */
  lemma ObservedPrefix<V>(s: seq<V>, k: nat, c: Consumer<V>)
    requires k <= |s| && c.Valid()
    ensures Drain(s[..k], c).0.got == c.got + s[..Min(c.Room(), k)]
    ensures Drain(s[..k], c).1 <==> k >= c.reach
  {
    DrainObserves(s[..k], c);
    assert s[..k][..Min(c.Room(), k)] == s[..Min(c.Room(), k)];
  }

  /** What a consumer sees of `s` without its first `d` values. */
  lemma ObservedSuffix<V>(s: seq<V>, d: nat, c: Consumer<V>)
    requires d <= |s| && c.Valid()
    ensures Drain(s[d..], c).0.got == c.got + s[d..d + Min(c.Room(), |s| - d)]
    ensures Drain(s[d..], c).1 <==> |s| - d >= c.reach
  {
    DrainObserves(s[d..], c);
    assert s[d..][..Min(c.Room(), |s| - d)] == s[d..d + Min(c.Room(), |s| - d)];
  }

  lemma PrefixSnoc<V>(s: seq<V>, i: nat)
    requires i < |s|
    ensures s[..i + 1] == s[..i] + [s[i]]
  {
  }

  /** Where the loop of Take ends: at the end of `s`, or with the counter
      one past `count`. */
  lemma TakeBound<V>(s: seq<V>, count: int, i: nat)
    requires i <= |s| && i <= Max(count, 0)
    requires i == |s| || i + 1 > count
    ensures s[..i] == s[..Clamp(count, |s|)]
  {
  }

  /** A run stopped by the consumer inside the first `m` values of `s` is the
      run over those `m` values. */
  lemma StopsWithinPrefix<V>(s: seq<V>, i: nat, m: nat, c: Consumer<V>)
    requires i <= m <= |s|
    requires c.Valid() && Drain(s[..i], c).1
    ensures Drain(s[..m], c) == Drain(s[..i], c)
  {
    SliceSplit(s, i, m);
    DrainStopsEarly(s[..i], s[i..m], c);
  }

  /** Nothing drained leaves the consumer as it was. */
  lemma DrainNothing<V>(s: seq<V>, c: Consumer<V>)
    requires c.Valid()
    ensures Drain(s[..0], c) == (c, false)
  {
    assert s[..0] == [];
  }

  lemma WholePrefix<V>(s: seq<V>)
    ensures s[..|s|] == s
  {
  }

  lemma SliceSplit<V>(s: seq<V>, i: nat, m: nat)
    requires i <= m <= |s|
    ensures s[..i] + s[i..m] == s[..m]
  {
  }

  method Take2<K, V>(s: seq<(K, V)>, count: int, c: Consumer<(K, V)>)
    returns (out: Consumer<(K, V)>, stopped: bool)
    requires c.Valid()
    ensures (out, stopped) == Drain(s[..Clamp(count, |s|)], c)
    ensures out.got == c.got + s[..Min(c.Room(), Clamp(count, |s|))]
    ensures stopped <==> Clamp(count, |s|) >= c.reach
  {
    out, stopped := Take(s, count, c);
  }

  /** Drop: counts every value pulled from `s`, skips the first `count` and
      forwards the rest. */
  method Drop<V>(s: seq<V>, count: int, c: Consumer<V>) returns (out: Consumer<V>, stopped: bool)
    requires c.Valid()
    ensures (out, stopped) == Drain(s[Clamp(count, |s|)..], c)
    ensures var d := Clamp(count, |s|); out.got == c.got + s[d..d + Min(c.Room(), |s| - d)]
    ensures stopped <==> |s| - Clamp(count, |s|) >= c.reach
  {
    out, stopped := Dropping(s, count, c);
    ObservedSuffix(s, Clamp(count, |s|), c);
  }

  /** The loop of Drop: `n` counts every value pulled from `s`; the first
      `count` are skipped and the rest forwarded. */
  method Dropping<V>(s: seq<V>, count: int, c: Consumer<V>) returns (out: Consumer<V>, stopped: bool)
    requires c.Valid()
    ensures (out, stopped) == Drain(s[Clamp(count, |s|)..], c)
  {
    ghost var d := Clamp(count, |s|);
    ghost var rest := s[d..];
    DrainNothing(rest, c);
    out := c;
    var n := 0;
    var i := 0;
    while i < |s|
      invariant 0 <= i <= |s| && n == i
      invariant i <= d ==> out == c
      invariant d <= i ==> (out, false) == Drain(rest[..i - d], c)
    {
      n := n + 1;
      if n <= count {
        i := i + 1;
        continue;
      }
      ghost var j := i - d;
      DrainSnoc(rest[..j], rest[j], c);
      PrefixSnoc(rest, j);
      var step := Yield(out, s[i]);
      out := step.0;
      if !step.1 {
        StopsWithinPrefix(rest, j + 1, |rest|, c);
        WholePrefix(rest);
        return out, true;
      }
      i := i + 1;
    }
    WholePrefix(rest);
    stopped := false;
  }

  method Drop2<K, V>(s: seq<(K, V)>, count: int, c: Consumer<(K, V)>)
    returns (out: Consumer<(K, V)>, stopped: bool)
    requires c.Valid()
    ensures (out, stopped) == Drain(s[Clamp(count, |s|)..], c)
    ensures var d := Clamp(count, |s|); out.got == c.got + s[d..d + Min(c.Room(), |s| - d)]
    ensures stopped <==> |s| - Clamp(count, |s|) >= c.reach
  {
    out, stopped := Drop(s, count, c);
  }

  /** For a consumer that wants every value, what `Take` yields followed by
      what `Drop` yields is the whole sequence, for every count; a count of
      at most zero takes nothing and drops nothing, one of at least `|s|`
      takes everything and leaves nothing. */
  lemma {:induction false} TakeDropSplit<V>(s: seq<V>, count: int, k: nat)
    requires k >= |s|
    ensures var d := Clamp(count, |s|);
      Drain(s[..d], Fresh(k)).0.got + Drain(s[d..], Fresh(k)).0.got == s
    ensures count <= 0 ==> Drain(s[..Clamp(count, |s|)], Fresh(k)).0.got == []
    ensures count <= 0 ==> Drain(s[Clamp(count, |s|)..], Fresh(k)).0.got == s
    ensures count >= |s| ==> Drain(s[..Clamp(count, |s|)], Fresh(k)).0.got == s
    ensures count >= |s| ==> Drain(s[Clamp(count, |s|)..], Fresh(k)).0.got == []
  {
    var d := Clamp(count, |s|);
    SplitObserved(s, d, k);
    Halves(s, d);
  }

  lemma Halves<V>(s: seq<V>, d: nat)
    requires d <= |s|
    ensures s[..d] + s[d..] == s
    ensures d == 0 ==> s[..d] == [] && s[d..] == s
    ensures d == |s| ==> s[..d] == s && s[d..] == []
  {
  }

  /** Both sides of a split, each seen whole by a consumer with room for all
      of `s`. */
  lemma SplitObserved<V>(s: seq<V>, d: nat, k: nat)
    requires d <= |s| <= k
    ensures Drain(s[..d], Fresh(k)).0.got == s[..d]
    ensures Drain(s[d..], Fresh(k)).0.got == s[d..]
  {
    var f: Consumer<V> := Fresh(k);
    DrainWhole(s[..d], f);
    DrainWhole(s[d..], f);
  }

  /** The cases of flow/iter_test.go, seen by a consumer that wants every
      value. */
  lemma TestedTakeDrop()
    ensures var s := [1, 2, 3, 4, 5];
      Drain(s[..Clamp(3, |s|)], Fresh(5)).0.got == [1, 2, 3] && Drain(s[Clamp(3, |s|)..], Fresh(5)).0.got == [4, 5]
    ensures var s := [1, 2, 3];
      Drain(s[..Clamp(5, |s|)], Fresh(3)).0.got == [1, 2, 3] && Drain(s[Clamp(5, |s|)..], Fresh(3)).0.got == []
  {
    var s, t := [1, 2, 3, 4, 5], [1, 2, 3];
    TakeDropSplit(s, 3, 5);
    ObservedPrefix(s, 3, Fresh(5));
    assert s[..3] == [1, 2, 3];
    TakeDropSplit(t, 5, 3);
  }

  /** The in-order traversal of flow/example_test.go, built from Empty, Pack
      and Chain, under a consumer that breaks after its fourth value: it sees
      `[1, 2, 3, 4]` and the traversal calls `yield` no further. */
  lemma ExampleTraversal()
    ensures Concat([Concat([Concat([[], [1], []]), [2], []]), [3], Concat([Concat([[], [4], []]), [5], []])])
         == [1, 2, 3, 4, 5]
    ensures Drain([1, 2, 3, 4, 5], Fresh(4)).0.got == [1, 2, 3, 4]
    ensures Drain([1, 2, 3, 4, 5], Fresh(4)).0.calls == 4
  {
    ExampleInorder();
    ExampleBreak();
  }

  lemma ExampleInorder()
    ensures Concat([Concat([Concat([[], [1], []]), [2], []]), [3], Concat([Concat([[], [4], []]), [5], []])])
         == [1, 2, 3, 4, 5]
  {
    Concat3([], [1], []);
    Concat3([], [4], []);
    Concat3([1], [2], []);
    Concat3([4], [5], []);
    Concat3([1, 2], [3], [4, 5]);
  }

  lemma ExampleBreak()
    ensures Drain([1, 2, 3, 4, 5], Fresh(4)).0.got == [1, 2, 3, 4]
    ensures Drain([1, 2, 3, 4, 5], Fresh(4)).0.calls == 4
  {
    var inorder := [1, 2, 3, 4, 5];
    assert inorder[..4] == [1, 2, 3, 4];
    DrainObservesPrefix(inorder, 4);
  }

  lemma Concat3<V>(a: seq<V>, b: seq<V>, c: seq<V>)
    ensures Concat([a, b, c]) == a + b + c
  {
    ConcatCons(a, [b, c]);
    assert [a, b, c] == [a] + [b, c];
    ConcatCons(b, [c]);
    assert [b, c] == [b] + [c];
    ConcatSingle(c);
  }
}
