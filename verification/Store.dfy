/** The store: two maps and a bucket cursor, updated in place.  Every operation
    is specified by what it does to the view at the time of the call. */
module Storage {
  import opened ByteStrings
  import opened Keyspace
  import Sampling
  import Glob

  datatype ExpiryConfig = ExpiryConfig(sampleSize: nat, continueThresholdPct: nat, maxPasses: nat)

  class Store {
    var entries: map<Bytes, Bytes>
    var expires: map<Bytes, int>
    var cursor: nat

    ghost function Contents(): Db
      reads this
    {
      Db(entries, expires)
    }

    ghost predicate Valid()
      reads this
    {
      Consistent(Contents())
    }

    ghost function Live(now: nat): View
      reads this
    {
      ViewOf(Contents(), now)
    }

    constructor ()
      ensures Valid() && forall t: nat :: Live(t) == map[]
    {
      entries, expires, cursor := map[], map[], 0;
    }

    predicate IsExpired(key: Bytes, now: nat)
      reads this
    {
      key in expires && now >= expires[key]
    }

    method Remove(key: Bytes)
      requires Valid()
      modifies this
      ensures Valid() && Contents() == Without(old(Contents()), {key})
      ensures cursor == old(cursor)
    {
      entries := entries - {key};
      expires := expires - {key};
      assert expires.Values <= old(expires.Values);
    }

    method Get(key: Bytes, now: nat) returns (value: Option<Bytes>)
      requires Valid()
      modifies this
      ensures Valid() && Live(now) == old(Live(now))
      ensures value == if key in Live(now) then Some(Live(now)[key].value) else None
    {
      if key !in entries {
        return None;
      }
      if IsExpired(key, now) {
        ReapingIsInvisible(Contents(), {key}, now, now);
        Remove(key);
        return None;
      }
      value := Some(entries[key]);
    }

    method Set(key: Bytes, value: Bytes, expireAt: int, now: nat)
      requires Valid()
      modifies this
      ensures Valid()
      ensures Live(now) == Put(old(Live(now)), key, Entry(value, ToDeadline(expireAt)), now)
    {
      StoredView(Contents(), key, value, expireAt, now);
      entries := entries[key := value];
      if expireAt == NO_EXPIRY {
        expires := expires - {key};
      } else {
        expires := expires[key := expireAt];
      }
      assert Contents() == Stored(old(Contents()), key, value, expireAt);
    }

    method Erase(key: Bytes, now: nat) returns (wasLive: bool)
      requires Valid()
      modifies this
      ensures Valid() && Live(now) == old(Live(now)) - {key}
      ensures wasLive <==> key in old(Live(now))
    {
      if key !in entries {
        return false;
      }
      wasLive := !IsExpired(key, now);
      Remove(key);
    }

    method Contains(key: Bytes, now: nat) returns (present: bool)
      requires Valid()
      modifies this
      ensures Valid() && Live(now) == old(Live(now))
      ensures present <==> key in Live(now)
    {
      var value := Get(key, now);
      present := value.Some?;
    }

    /** -2 for no key, -1 for no deadline, otherwise the milliseconds left. */
    method Pttl(key: Bytes, now: nat) returns (ms: int)
      requires Valid()
      modifies this
      ensures Valid() && Live(now) == old(Live(now))
      ensures ms == if key !in Live(now) then -2
                    else if Live(now)[key].deadline.None? then -1
                    else Live(now)[key].deadline.value - now
      ensures ms >= 0 <==> key in Live(now) && Live(now)[key].deadline.Some?
    {
      if key !in entries {
        return -2;
      }
      if IsExpired(key, now) {
        ReapingIsInvisible(Contents(), {key}, now, now);
        Remove(key);
        return -2;
      }
      if key !in expires {
        return -1;
      }
      ms := expires[key] - now;
    }

    method ExpireAt(key: Bytes, deadline: int, now: nat) returns (applied: bool)
      requires Valid()
      modifies this
      ensures Valid()
      ensures applied <==> key in old(Live(now))
      ensures Live(now) == MoveDeadline(old(Live(now)), key, Some(deadline), now)
    {
      if key !in entries {
        return false;
      }
      if IsExpired(key, now) {
        ReapingIsInvisible(Contents(), {key}, now, now);
        Remove(key);
        return false;
      }
      if deadline <= now {
        Remove(key);
        return true;
      }
      expires := expires[key := deadline];
      assert expires.Values <= old(expires.Values) + {deadline};
      applied := true;
    }

    method Persist(key: Bytes, now: nat) returns (applied: bool)
      requires Valid()
      modifies this
      ensures Valid()
      ensures applied <==> key in old(Live(now)) && old(Live(now))[key].deadline.Some?
      ensures Live(now) == MoveDeadline(old(Live(now)), key, None, now)
    {
      if key !in entries {
        return false;
      }
      if IsExpired(key, now) {
        ReapingIsInvisible(Contents(), {key}, now, now);
        Remove(key);
        return false;
      }
      applied := key in expires;
      expires := expires - {key};
      assert expires.Values <= old(expires.Values);
    }

    method Clear()
      modifies this
      ensures Valid() && forall t: nat :: Live(t) == map[]
    {
      entries, expires, cursor := map[], map[], 0;
    }

    method RemoveAll(dead: seq<Bytes>, now: nat)
      requires Valid()
      requires forall k :: k in dead ==> Expired(Contents(), k, now)
      modifies this
      ensures Valid() && Contents() == Without(old(Contents()), Sampling.KeySet(dead))
      ensures Live(now) == old(Live(now))
      ensures cursor == old(cursor)
    {
      ghost var before := Contents();
      for i := 0 to |dead|
        invariant Valid() && Contents() == Without(before, Sampling.KeySet(dead[..i]))
        invariant cursor == old(cursor)
      {
        assert Sampling.KeySet(dead[..i + 1]) == Sampling.KeySet(dead[..i]) + {dead[i]};
        Remove(dead[i]);
      }
      assert dead[..|dead|] == dead;
      ReapingIsInvisible(before, Sampling.KeySet(dead), now, now);
    }

    /** The live keys the pattern accepts, each once, in no particular order. */
    method Keys(pattern: Bytes, now: nat) returns (out: seq<Bytes>)
      requires Valid()
      modifies this
      ensures Valid() && Live(now) == old(Live(now))
      ensures forall k :: k in out <==>
                k in Live(now) && Glob.Matches(Glob.Tokens(pattern, 0), 0, k, 0)
      ensures Sampling.Distinct(out)
    {
      hide Glob.Matches;
      out := [];
      var dead: seq<Bytes> := [];
      var todo := entries.Keys;
      while todo != {}
        invariant todo <= entries.Keys
        invariant forall k :: k in dead ==> Expired(Contents(), k, now)
        invariant forall k :: k in out <==>
                    k in Live(now) && k !in todo && Glob.Matches(Glob.Tokens(pattern, 0), 0, k, 0)
        invariant Sampling.Distinct(out)
        invariant Contents() == old(Contents())
        decreases |todo|
      {
        var key :| key in todo;
        todo := todo - {key};
        if IsExpired(key, now) {
          dead := dead + [key];
          continue;
        }
        var accepted, _ := Glob.GlobMatch(pattern, key);
        if accepted {
          out := out + [key];
        }
      }
      RemoveAll(dead, now);
    }

    /** The number of live keys. */
    method Size(now: nat) returns (n: nat)
      requires Valid()
      ensures n == |Live(now)|
    {
      hide ViewOf;
      var expired := 0;
      ghost var dead: set<Bytes> := {};
      var todo := expires.Keys;
      while todo != {}
        invariant todo <= expires.Keys
        invariant dead == set k | k in expires && k !in todo && Expired(Contents(), k, now)
        invariant expired == |dead|
        decreases |todo|
      {
        var key :| key in todo;
        todo := todo - {key};
        if now >= expires[key] {
          expired := expired + 1;
          dead := dead + {key};
        }
      }
      LiveCount(Contents(), dead, now);
      n := |entries| - expired;
    }

    /** Every live key once, with its absolute deadline. */
    method Snapshot(now: nat) returns (out: seq<Record>)
      requires Valid()
      ensures Lists(out, Live(now))
    {
      hide Lists;
      out := [];
      var todo := entries.Keys;
      ListsNothing(map k | k in Live(now) && k !in todo :: Live(now)[k]);
      while todo != {}
        invariant todo <= entries.Keys
        invariant Lists(out, map k | k in Live(now) && k !in todo :: Live(now)[k])
        decreases |todo|
      {
        var key :| key in todo;
        ghost var before := map k | k in Live(now) && k !in todo :: Live(now)[k];
        ghost var previous := out;
        todo := todo - {key};
        var deadline := if key in expires then expires[key] else NO_EXPIRY;
        if deadline != NO_EXPIRY && now >= deadline {
          assert (map k | k in Live(now) && k !in todo :: Live(now)[k]) == before;
          continue;
        }
        assert key in expires ==> expires[key] in expires.Values;
        out := out + [Record(key, entries[key], deadline)];
        ListsOneMore(previous, before, Record(key, entries[key], deadline));
        assert (map k | k in Live(now) && k !in todo :: Live(now)[k])
            == before[key := Entry(entries[key], ToDeadline(deadline))];
      }
      assert (map k | k in Live(now) && k !in todo :: Live(now)[k]) == Live(now);
    }

    /** Nothing is stored for a record that is dead by the time it is loaded. */
    method LoadRecord(record: Record, now: nat)
      requires Valid()
      modifies this
      ensures Valid()
      ensures Live(now) == Loaded(old(Live(now)), [record], now)
    {
      assert [record][..0] == [];
      if record.expireAt != NO_EXPIRY && now >= record.expireAt {
        return;
      }
      Set(record.key, record.value, record.expireAt, now);
    }

    /** The dead among the sampled keys, copied out before anything is erased. */
    method DeadAmong(sampled: seq<Bytes>, now: nat) returns (dead: seq<Bytes>)
      requires Sampling.Distinct(sampled)
      ensures Sampling.Distinct(dead) && |dead| <= |sampled|
      ensures forall k :: k in dead <==> k in sampled && Expired(Contents(), k, now)
      ensures AllExpired(Contents(), now) && (forall k :: k in sampled ==> k in expires) ==>
                dead == sampled
    {
      dead := [];
      for i := 0 to |sampled|
        invariant Sampling.Distinct(dead) && |dead| <= i
        invariant forall k :: k in dead <==> k in sampled[..i] && Expired(Contents(), k, now)
        invariant AllExpired(Contents(), now) && (forall k :: k in sampled ==> k in expires) ==>
                    dead == sampled[..i]
      {
        var key := sampled[i];
        assert sampled[..i + 1] == sampled[..i] + [key];
        assert key !in sampled[..i];
        if key in expires && now >= expires[key] {
          dead := dead + [key];
        }
      }
      assert sampled[..|sampled|] == sampled;
    }

    /** sample_expiring: the keys from the cursor on, which then moves past them. */
    method SampleExpiring(sampleSize: nat, layout: Sampling.Layout) returns (sample: seq<Bytes>)
      requires Sampling.Arranges(layout, expires.Keys) && expires != map[]
      modifies this`cursor
      ensures sample == Sampling.Sample(layout, old(cursor), sampleSize)
      ensures Resumes(layout, old(cursor), sampleSize, cursor)
      ensures Sampling.Distinct(sample) && |sample| == Sampling.Min(sampleSize, |expires|)
      ensures forall k :: k in sample ==> k in expires
    {
      hide Sampling.Flatten;
      hide Sampling.MovesOn;
      sample := [];
      if sampleSize > 0 {
        NonEmptyLayout(layout, expires.Keys);
        ghost var start := Sampling.StartOf(layout, cursor);
        Sampling.RotatedArranges(layout, start, expires.Keys);
        Sampling.SampleOf(Sampling.Rotated(layout, start), expires.Keys, sampleSize);
        sample, cursor := Sampling.Collect(layout, cursor, sampleSize);
      }
    }

    /** One sampling pass: reaps the dead keys of one sample. */
    method OnePass(sampleSize: nat, now: nat, layout: Sampling.Layout)
      returns (dead: seq<Bytes>, sampled: nat)
      requires Valid() && Sampling.Arranges(layout, expires.Keys) && expires != map[]
      modifies this
      ensures Valid() && Live(now) == old(Live(now))
      ensures Sampling.Distinct(dead) && |dead| <= sampled
      ensures Reaped(old(Contents()), Contents(), Sampling.KeySet(dead), now)
      ensures sampled == Sampling.Min(sampleSize, |old(expires)|)
      ensures AllExpired(old(Contents()), now) ==> |dead| == sampled
      ensures DeadOfSample(dead, old(Contents()), Sampling.Sample(layout, old(cursor), sampleSize), now)
      ensures Resumes(layout, old(cursor), sampleSize, cursor)
    {
      hide Sampling.Sample;
      hide Resumes;
      var sample := SampleExpiring(sampleSize, layout);
      sampled := |sample|;
      dead := DeadAmong(sample, now);
      RemoveAll(dead, now);
    }

    /** Passes until a sample is mostly alive, the index is empty or the passes are used
        up.  `layout` is how the index happens to sit in its buckets at the start. */
    method ActiveExpireCycle(cfg: ExpiryConfig, now: nat, layout: Sampling.Layout)
      returns (total: nat, ghost passes: seq<Pass>)
      requires Valid() && Sampling.Arranges(layout, expires.Keys)
      modifies this
      ensures Valid() && Live(now) == old(Live(now))
      ensures Reaped(old(Contents()), Contents(), old(expires.Keys) - expires.Keys, now)
      ensures total == |old(expires)| - |expires|
      ensures total <= Times(cfg.maxPasses, cfg.sampleSize)
      ensures AllExpired(old(Contents()), now) && cfg.continueThresholdPct < 100 ==>
                total == Sampling.Min(Times(cfg.maxPasses, cfg.sampleSize), |old(expires)|)
      ensures Paced(passes, cfg, |old(expires)|) && Finished(passes, cfg, |old(expires)|)
    {
      hide Times;
      hide Paced;
      hide MostlyDead;
      hide DeadOfSample;
      hide Resumes;
      hide AllExpired;
      hide Sampling.Sample;
      hide Sampling.Distinct;
      hide Sampling.KeySet;
      hide Sampling.Erased;
      hide Threshold;
      hide CycleProgress;
      hide Reaped;
      hide ViewOf;
      hide Consistent;
      hide Sampling.Arranges;
      total, passes := 0, [];
      var here := layout;
      ghost var before := Contents();
      CycleStart(before, cfg, now);
      NoPassYet(cfg, |before.expires|);
      var pass := 0;
      while pass < cfg.maxPasses
        invariant 0 <= pass <= cfg.maxPasses
        invariant Valid() && Live(now) == old(Live(now))
        invariant Sampling.Arranges(here, expires.Keys)
        invariant CycleProgress(before, Contents(), total, pass, cfg, now)
        invariant Paced(passes, cfg, |before.expires|) && |passes| == pass
        invariant LeftAfter(passes, |before.expires|) == |expires|
        invariant passes != [] ==> MostlyDead(passes[pass - 1], cfg)
      {
        CycleMayStop(before, Contents(), total, pass, cfg, now);
        if expires == map[] {
          return;
        }
        ghost var middle := Contents();
        var dead, sampled := OnePass(cfg.sampleSize, now, here);
        CycleStep(before, middle, Contents(), dead, total, pass, cfg, now);
        CycleMayStop(before, Contents(), total + |dead|, pass + 1, cfg, now);
        PassCounts(middle, Contents(), dead, now);
        ghost var latest := Pass(|middle.expires|, sampled, |dead|);
        OneMorePass(passes, latest, cfg, |before.expires|);
        ShareExactly(latest, cfg);
        passes := passes + [latest];
        if sampled == 0 {
          return;
        }
        ghost var gone := Sampling.KeySet(dead);
        Sampling.ErasedArranges(here, middle.expires.Keys, gone);
        ReapedKeys(middle, Contents(), gone, now);
        here := Sampling.Erased(here, Sampling.KeySet(dead));
        total := total + |dead|;
        pass := pass + 1;
        var threshold := Threshold(sampled, cfg.continueThresholdPct);
        if |dead| <= threshold {
          ThresholdBelow(sampled, cfg.continueThresholdPct);
          return;
        }
      }
      CycleMayStop(before, Contents(), total, pass, cfg, now);
    }

    /** A sweep of the index that stops once it has found `limit` dead keys. */
    method ReapExpired(limit: nat, now: nat) returns (n: nat)
      requires Valid()
      modifies this
      ensures Valid() && Live(now) == old(Live(now))
      ensures Reaped(old(Contents()), Contents(), old(expires.Keys) - expires.Keys, now)
      ensures n == |old(expires)| - |expires|
      ensures n == Sampling.Min(limit, |set k | k in old(expires) && Expired(old(Contents()), k, now)|)
    {
      var dead: seq<Bytes> := [];
      var todo := expires.Keys;
      ghost var all := set k | k in expires && Expired(Contents(), k, now);
      while todo != {} && |dead| < limit
        invariant todo <= expires.Keys && |dead| <= limit
        invariant Sampling.Distinct(dead)
        invariant forall k :: k in dead <==> k in all && k !in todo
        decreases |todo|
      {
        var key :| key in todo;
        todo := todo - {key};
        if now >= expires[key] {
          dead := dead + [key];
        }
      }
      ghost var gone := Sampling.KeySet(dead);
      DistinctCounts(dead);
      SubsetCounts(gone, all);
      assert todo == {} ==> gone == all;
      RemoveAll(dead, now);
      ReapedCounts(old(Contents()), Contents(), gone, now);
      n := |dead|;
    }

    /** With nothing but dead keys in the index, repeating the cycle empties it:
        the loop below ends. */
    method CycleUntilClean(cfg: ExpiryConfig, now: nat)
      requires Valid() && AllExpired(Contents(), now)
      requires cfg.sampleSize > 0 && cfg.maxPasses > 0 && cfg.continueThresholdPct < 100
      modifies this
      ensures Valid() && Live(now) == old(Live(now))
      ensures expires == map[]
    {
      while expires != map[]
        invariant Valid() && Live(now) == old(Live(now)) && AllExpired(Contents(), now)
        decreases |expires|
      {
        var layout := SomeLayout(expires.Keys);
        Scaled(0, cfg.maxPasses - 1, cfg.sampleSize);
        Scaled(cfg.maxPasses - 1, cfg.maxPasses - 1, cfg.sampleSize);
        ghost var size := |expires|;
        assert size > 0 by {
          assert expires.Keys != {};
        }
        var total, passes := ActiveExpireCycle(cfg, now, layout);
      }
    }
  }

  /** Exactly the sampled keys that are dead. */
  ghost predicate DeadOfSample(dead: seq<Bytes>, db: Db, sample: seq<Bytes>, t: int)
  {
    forall k :: k in dead <==> k in sample && Expired(db, k, t)
  }

  /** The next pass begins just past the buckets this one visited. */
  ghost predicate Resumes(layout: Sampling.Layout, cursor: nat, sampleSize: nat, cursor': nat)
  {
    if sampleSize == 0 then cursor' == cursor
    else layout != [] && Sampling.MovesOn(layout, cursor, sampleSize, cursor')
  }

  lemma {:induction false} NonEmptyLayout(layout: Sampling.Layout, keys: set<Bytes>)
    requires Sampling.Arranges(layout, keys) && keys != {}
    ensures layout != []
  {
    var k :| k in keys;
    assert k in multiset(keys);
  }

  lemma {:induction false} DistinctCounts(s: seq<Bytes>)
    requires Sampling.Distinct(s)
    ensures |Sampling.KeySet(s)| == |s|
  {
    if s != [] {
      var front := s[..|s| - 1];
      var last := s[|s| - 1];
      DistinctCounts(front);
      assert Sampling.KeySet(s) == Sampling.KeySet(front) + {last};
      assert last !in front;
    }
  }

  lemma {:induction false} SubsetCounts(a: set<Bytes>, b: set<Bytes>)
    requires a <= b
    ensures |a| <= |b|
  {
    assert b == a + (b - a);
  }

  /** Where a cycle stands after some passes over what was `before`. */
  ghost predicate CycleProgress(
    before: Db, after: Db, total: nat, passes: nat, cfg: ExpiryConfig, t: int)
  {
    var bound := Times(passes, cfg.sampleSize);
    && Reaped(before, after, before.expires.Keys - after.expires.Keys, t)
    && total == |before.expires| - |after.expires|
    && total <= bound
    && (AllExpired(before, t) && cfg.continueThresholdPct < 100 ==>
          total == Sampling.Min(bound, |before.expires|))
  }

  lemma {:induction false} CycleStart(db: Db, cfg: ExpiryConfig, t: int)
    ensures CycleProgress(db, db, 0, 0, cfg, t)
  {
    ReapedNothing(db, t);
    assert db.expires.Keys - db.expires.Keys == {};
  }

  lemma {:induction false} CycleStep(
    before: Db, middle: Db, after: Db, dead: seq<Bytes>,
    total: nat, passes: nat, cfg: ExpiryConfig, t: int)
    requires CycleProgress(before, middle, total, passes, cfg, t)
    requires Reaped(middle, after, Sampling.KeySet(dead), t) && Sampling.Distinct(dead)
    requires |dead| <= Sampling.Min(cfg.sampleSize, |middle.expires|)
    requires AllExpired(middle, t) ==> |dead| == Sampling.Min(cfg.sampleSize, |middle.expires|)
    ensures CycleProgress(before, after, total + |dead|, passes + 1, cfg, t)
    ensures AllExpired(before, t) ==> AllExpired(middle, t)
  {
    hide AllExpired;
    hide Reaped;
    hide Times;
    hide Sampling.KeySet;
    hide Sampling.Distinct;
    PassReaps(before, middle, after, dead, t);
    Scaled(passes, passes, cfg.sampleSize);
  }

  lemma {:induction false} PassReaps(before: Db, middle: Db, after: Db, dead: seq<Bytes>, t: int)
    requires Reaped(before, middle, before.expires.Keys - middle.expires.Keys, t)
    requires Reaped(middle, after, Sampling.KeySet(dead), t) && Sampling.Distinct(dead)
    ensures Reaped(before, after, before.expires.Keys - after.expires.Keys, t)
    ensures |after.expires| == |middle.expires| - |dead| && |middle.expires| <= |before.expires|
    ensures AllExpired(before, t) ==> AllExpired(middle, t)
  {
    hide AllExpired;
    hide Reaped;
    hide Sampling.KeySet;
    hide Sampling.Distinct;
    var gone := before.expires.Keys - middle.expires.Keys;
    var more := Sampling.KeySet(dead);
    DistinctCounts(dead);
    ReapedAgain(before, middle, after, gone, more, t);
    ReapedCounts(before, after, gone + more, t);
    ReapedCounts(before, middle, gone, t);
    ReapedCounts(middle, after, more, t);
  }

  /** What progress amounts to, however many passes were allowed. */
  lemma {:induction false} CycleMayStop(before: Db, after: Db, total: nat, passes: nat, cfg: ExpiryConfig, t: int)
    requires CycleProgress(before, after, total, passes, cfg, t) && passes <= cfg.maxPasses
    ensures var most := Times(cfg.maxPasses, cfg.sampleSize);
            && Reaped(before, after, before.expires.Keys - after.expires.Keys, t)
            && total == |before.expires| - |after.expires|
            && total <= most
            && ((passes == cfg.maxPasses || cfg.sampleSize == 0 || after.expires == map[])
                && AllExpired(before, t) && cfg.continueThresholdPct < 100 ==>
                  total == Sampling.Min(most, |before.expires|))
  {
    Scaled(passes, cfg.maxPasses, cfg.sampleSize);
    Scaled(cfg.maxPasses, cfg.maxPasses, cfg.sampleSize);
  }

  /** One pass: the keys with deadlines it found, how many it sampled, how many of
      those were dead. */
  datatype Pass = Pass(found: nat, sampled: nat, dead: nat)

  /** More of the sample is dead than the configured share. */
  predicate MostlyDead(p: Pass, cfg: ExpiryConfig) { 100 * p.dead > p.sampled * cfg.continueThresholdPct }

  function LeftAfter(passes: seq<Pass>, keys: nat): int
  {
    if passes == [] then keys else passes[|passes| - 1].found - passes[|passes| - 1].dead
  }

  /** Each pass takes up where the last left off, and is followed by another only
      when more of its sample was dead than the configured share and keys are left. */
  predicate Paced(passes: seq<Pass>, cfg: ExpiryConfig, keys: nat)
  {
    && |passes| <= cfg.maxPasses
    && (forall i :: 0 <= i < |passes| ==>
          && passes[i].found == LeftAfter(passes[..i], keys)
          && passes[i].sampled == Sampling.Min(cfg.sampleSize, passes[i].found)
          && passes[i].dead <= passes[i].sampled)
    && (forall i :: 0 <= i < |passes| - 1 ==> MostlyDead(passes[i], cfg) && passes[i].dead < passes[i].found)
  }

  /** With passes to spare, the last was not followed by another for that reason. */
  predicate Finished(passes: seq<Pass>, cfg: ExpiryConfig, keys: nat)
  {
    |passes| < cfg.maxPasses ==>
      LeftAfter(passes, keys) == 0 || (passes != [] && !MostlyDead(passes[|passes| - 1], cfg))
  }

  lemma {:induction false} PassCounts(before: Db, after: Db, dead: seq<Bytes>, t: int)
    requires Sampling.Distinct(dead) && Reaped(before, after, Sampling.KeySet(dead), t)
    ensures |after.expires| == |before.expires| - |dead|
  {
    hide Reaped;
    DistinctCounts(dead);
    ReapedCounts(before, after, Sampling.KeySet(dead), t);
  }

  lemma {:induction false} OneMorePass(passes: seq<Pass>, p: Pass, cfg: ExpiryConfig, keys: nat)
    requires Paced(passes, cfg, keys) && |passes| < cfg.maxPasses
    requires p.found == LeftAfter(passes, keys) && p.found > 0
    requires passes != [] ==> MostlyDead(passes[|passes| - 1], cfg)
    requires p.sampled == Sampling.Min(cfg.sampleSize, p.found) && p.dead <= p.sampled
    ensures Paced(passes + [p], cfg, keys)
  {
    var more := passes + [p];
    assert more[..|passes|] == passes;
    forall i | 0 <= i < |passes|
      ensures more[..i] == passes[..i] && more[i] == passes[i]
    {
    }
  }

  lemma {:induction false} NoPassYet(cfg: ExpiryConfig, keys: nat)
    ensures Paced([], cfg, keys)
  {}

  /** The share is exact: rounding the threshold down changes nothing. */
  lemma {:induction false} ShareExactly(p: Pass, cfg: ExpiryConfig)
    requires p.dead <= p.sampled
    ensures MostlyDead(p, cfg) <==> p.dead > Threshold(p.sampled, cfg.continueThresholdPct)
    ensures MostlyDead(p, cfg) ==> p.sampled > 0
  {
    var x := p.sampled * cfg.continueThresholdPct;
    assert x == 100 * (x / 100) + x % 100;
  }

  /** How many of a sample may be dead without another pass being worthwhile. */
  function Threshold(sampled: nat, pct: nat): nat { sampled * pct / 100 }

  lemma {:induction false} ThresholdBelow(sampled: nat, pct: nat)
    requires sampled > 0
    ensures pct < 100 ==> Threshold(sampled, pct) < sampled
  {
    if pct < 100 {
      SmallerFactor(sampled, pct);
    }
  }

  lemma {:induction false} SmallerFactor(a: nat, b: nat)
    requires b < 100
    ensures a * b <= a * 99
  {
    if a > 0 {
      SmallerFactor(a - 1, b);
      assert a * b == (a - 1) * b + b;
    }
  }

  /** One way the index can sit in its buckets. */
  method SomeLayout(keys: set<Bytes>) returns (layout: Sampling.Layout)
    ensures Sampling.Arranges(layout, keys)
  {
    var bucket: seq<Bytes> := [];
    var todo := keys;
    while todo != {}
      invariant todo <= keys && multiset(bucket) == multiset(keys - todo)
      decreases |todo|
    {
      var key :| key in todo;
      todo := todo - {key};
      assert keys - todo == (keys - todo - {key}) + {key};
      bucket := bucket + [key];
    }
    layout := [bucket];
    assert Sampling.Flatten(layout) == Sampling.Flatten([]) + bucket;
    assert keys - {} == keys;
  }
}
