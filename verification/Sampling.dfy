/** The bucket walk of the active expiry cycle: which keys a sample holds. */
module Sampling {
  import opened ByteStrings

  /** The buckets of a hash index, each with its keys in iteration order. */
  type Layout = seq<seq<Bytes>>

  function Flatten(layout: Layout): seq<Bytes>
  {
    if layout == [] then [] else Flatten(layout[..|layout| - 1]) + layout[|layout| - 1]
  }

  /** The buckets hold exactly `keys`, each once. */
  ghost predicate Arranges(layout: Layout, keys: set<Bytes>)
  {
    multiset(Flatten(layout)) == multiset(keys)
  }

  ghost predicate Distinct(s: seq<Bytes>)
  {
    forall i, j :: 0 <= i < j < |s| ==> s[i] != s[j]
  }

  function KeySet(s: seq<Bytes>): set<Bytes> { set k | k in s }

  function FirstN(s: seq<Bytes>, n: nat): seq<Bytes> { if |s| <= n then s else s[..n] }

  function Min(a: nat, b: nat): nat { if a <= b then a else b }

  lemma {:induction false} FlattenSplit(a: Layout, b: Layout)
    ensures Flatten(a + b) == Flatten(a) + Flatten(b)
    decreases |b|
  {
    if b == [] {
      assert a + b == a;
    } else {
      assert (a + b)[..|a + b| - 1] == a + b[..|b| - 1];
      FlattenSplit(a, b[..|b| - 1]);
    }
  }

  function Rotated(layout: Layout, cursor: nat): Layout
    requires cursor <= |layout|
  {
    layout[cursor..] + layout[..cursor]
  }

  /** Starting the walk at the cursor and wrapping once meets the same keys. */
  lemma {:induction false} RotatedArranges(layout: Layout, cursor: nat, keys: set<Bytes>)
    requires cursor <= |layout| && Arranges(layout, keys)
    ensures Arranges(Rotated(layout, cursor), keys)
  {
    FlattenSplit(layout[..cursor], layout[cursor..]);
    FlattenSplit(layout[cursor..], layout[..cursor]);
    assert layout == layout[..cursor] + layout[cursor..];
  }

  lemma {:induction false} CountedOnce(s: seq<Bytes>)
    requires forall k :: multiset(s)[k] <= 1
    ensures Distinct(s)
  {
    forall i, j | 0 <= i < j < |s| ensures s[i] != s[j] {
      var front := s[..j];
      assert s == front + [s[j]] + s[j + 1..];
      assert multiset(s) == multiset(front) + multiset{s[j]} + multiset(s[j + 1..]);
      assert multiset(s)[s[j]] <= 1;
      assert multiset(front)[s[j]] == 0;
      assert front[i] == s[i];
      assert s[i] in multiset(front);
    }
  }

  /** The first `n` keys of an arrangement are distinct, and as many as asked
      for or there are. */
  lemma {:induction false} SampleOf(layout: Layout, keys: set<Bytes>, n: nat)
    requires Arranges(layout, keys)
    ensures var sample := FirstN(Flatten(layout), n);
            && |sample| == Min(n, |keys|)
            && Distinct(sample)
            && forall k :: k in sample ==> k in keys
  {
    var all := Flatten(layout);
    var sample := FirstN(all, n);
    assert |all| == |multiset(all)| == |keys|;
    assert all == sample + all[|sample|..];
    assert multiset(all) == multiset(sample) + multiset(all[|sample|..]);
    forall k ensures multiset(sample)[k] <= 1 {
      assert multiset(sample)[k] <= multiset(keys)[k];
    }
    CountedOnce(sample);
    forall k | k in sample ensures k in keys {
      assert k in multiset(sample);
      assert k in multiset(keys);
    }
  }

  function Dropping(s: seq<Bytes>, dead: set<Bytes>): seq<Bytes>
  {
    if s == [] then []
    else
      var last := s[|s| - 1];
      Dropping(s[..|s| - 1], dead) + if last in dead then [] else [last]
  }

  /** Erasing keys from an index leaves the other keys in their buckets. */
  function Erased(layout: Layout, dead: set<Bytes>): Layout
  {
    seq(|layout|, i requires 0 <= i < |layout| => Dropping(layout[i], dead))
  }

  lemma {:induction false} DroppingCounts(s: seq<Bytes>, dead: set<Bytes>, k: Bytes)
    ensures multiset(Dropping(s, dead))[k] == if k in dead then 0 else multiset(s)[k]
  {
    if s != [] {
      DroppingCounts(s[..|s| - 1], dead, k);
      assert s == s[..|s| - 1] + [s[|s| - 1]];
    }
  }

  lemma {:induction false} ErasedCounts(layout: Layout, dead: set<Bytes>, k: Bytes)
    ensures multiset(Flatten(Erased(layout, dead)))[k] ==
            if k in dead then 0 else multiset(Flatten(layout))[k]
  {
    if layout != [] {
      var front := layout[..|layout| - 1];
      var last := layout[|layout| - 1];
      var erased := Erased(layout, dead);
      ErasedCounts(front, dead, k);
      DroppingCounts(last, dead, k);
      assert erased[..|erased| - 1] == Erased(front, dead);
      assert erased[|erased| - 1] == Dropping(last, dead);
    }
  }

  lemma {:induction false} ErasedArranges(layout: Layout, keys: set<Bytes>, dead: set<Bytes>)
    requires Arranges(layout, keys)
    ensures Arranges(Erased(layout, dead), keys - dead)
  {
    forall k: Bytes
      ensures multiset(Flatten(Erased(layout, dead)))[k] == multiset(keys - dead)[k]
    {
      ErasedCounts(layout, dead, k);
      assert multiset(Flatten(layout))[k] == multiset(keys)[k];
    }
  }

  lemma {:induction false} FlattenPrefix(layout: Layout, n: nat)
    requires n <= |layout|
    ensures |Flatten(layout[..n])| <= |Flatten(layout)|
    ensures Flatten(layout) == Flatten(layout[..n]) + Flatten(layout[n..])
  {
    assert layout == layout[..n] + layout[n..];
    FlattenSplit(layout[..n], layout[n..]);
  }

  lemma {:induction false} FlattenNext(layout: Layout, n: nat)
    requires n < |layout|
    ensures Flatten(layout[..n + 1]) == Flatten(layout[..n]) + layout[n]
  {
    assert layout[..n + 1][..n] == layout[..n];
  }

  /** The inner loop: take keys from one bucket until there are `n`. */
  method TakeFrom(bucket: seq<Bytes>, taken: seq<Bytes>, n: nat) returns (sample: seq<Bytes>)
    requires |taken| <= n
    ensures sample == FirstN(taken + bucket, n)
  {
    sample := taken;
    var i := 0;
    while i < |bucket| && |sample| < n
      invariant 0 <= i <= |bucket| && |sample| <= n
      invariant sample == taken + bucket[..i]
    {
      assert bucket[..i + 1] == bucket[..i] + [bucket[i]];
      sample := sample + [bucket[i]];
      i := i + 1;
    }
    assert taken + bucket == sample + bucket[i..];
  }

  /** A walk over the buckets that needs `n` keys stops after this many: no fewer
      would do, unless they run out first. */
  ghost predicate StopsAfter(walk: Layout, n: nat, visited: nat)
  {
    && visited <= |walk|
    && (visited < |walk| ==> |Flatten(walk[..visited])| >= n)
    && forall v :: 0 <= v < visited ==> |Flatten(walk[..v])| < n
  }

  /** A cursor past the last bucket starts over. */
  function StartOf(layout: Layout, cursor: nat): (start: nat)
    ensures start <= |layout|
  {
    if cursor >= |layout| then 0 else cursor
  }

  /** The walk left the cursor just past the last bucket it visited. */
  ghost predicate MovesOn(layout: Layout, cursor: nat, n: nat, cursor': nat)
    requires layout != []
  {
    var start := StartOf(layout, cursor);
    exists visited :: StopsAfter(Rotated(layout, start), n, visited) && cursor' == (start + visited) % |layout|
  }

  /** The keys a sample of `n` holds. */
  function Sample(layout: Layout, cursor: nat, n: nat): seq<Bytes>
  {
    FirstN(Flatten(Rotated(layout, StartOf(layout, cursor))), n)
  }

  /** sample_expiring on a non-empty index: walk the buckets from the cursor,
      wrapping at most once, until `n` keys are collected, and leave the cursor
      just past the last bucket visited. */
  method Collect(layout: Layout, cursor: nat, n: nat) returns (sample: seq<Bytes>, cursor': nat)
    requires layout != []
    ensures sample == Sample(layout, cursor, n)
    ensures MovesOn(layout, cursor, n, cursor') && cursor' < |layout|
  {
    hide Flatten;
    var buckets := |layout|;
    var start := if cursor >= buckets then 0 else cursor;
    ghost var rotated := Rotated(layout, start);
    sample := [];
    FlattenNothing(rotated);
    var visited := 0;
    while visited < buckets && |sample| < n
      invariant 0 <= visited <= buckets
      invariant sample == FirstN(Flatten(rotated[..visited]), n)
      invariant forall v :: 0 <= v < visited ==> |Flatten(rotated[..v])| < n
    {
      WrapIndex(start, visited, buckets);
      var bucket := layout[(start + visited) % buckets];
      assert bucket == rotated[visited];
      sample := TakeFrom(bucket, sample, n);
      FlattenNext(rotated, visited);
      visited := visited + 1;
    }
    FlattenPrefix(rotated, visited);
    assert rotated[..buckets] == rotated;
    assert StopsAfter(rotated, n, visited);
    cursor' := (start + visited) % buckets;
  }

  lemma {:induction false} FlattenNothing(layout: Layout)
    ensures Flatten(layout[..0]) == []
  {}

  lemma {:induction false} WrapIndex(start: nat, visited: nat, buckets: nat)
    requires start < buckets && visited < buckets
    ensures (start + visited) % buckets ==
            if start + visited < buckets then start + visited else start + visited - buckets
  {}
}
