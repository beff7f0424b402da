/** The keyspace as clients can observe it: a timed map from live keys to their
    value and optional deadline.  Keys that are dead but still stored do not
    exist here, so reaping them, lazily or actively, is no step at all. */
module Keyspace {
  import opened ByteStrings

  datatype Entry = Entry(value: Bytes, deadline: Option<int>)

  type View = map<Bytes, Entry>

  predicate Alive(e: Entry, t: int) { e.deadline.None? || t < e.deadline.value }

  /** What is left of a view once the clock shows `t`. */
  function Fade(v: View, t: int): View { map k | k in v && Alive(v[k], t) :: v[k] }

  /** Every key of `a` is in `b`, with the same value and the same deadline. */
  ghost predicate Within(a: View, b: View) { forall k :: k in a ==> k in b && a[k] == b[k] }

  /** `v` has nothing dead in it at `t`. */
  ghost predicate Current(v: View, t: int) { forall k :: k in v ==> Alive(v[k], t) }

  lemma {:induction false} FadeTwice(v: View, t: int, t': int)
    requires t <= t'
    ensures Fade(Fade(v, t), t') == Fade(v, t')
  {}

  lemma {:induction false} FadeCurrent(v: View, t: int)
    ensures Current(Fade(v, t), t)
    ensures Current(v, t) ==> Fade(v, t) == v
  {}

  lemma {:induction false} FadeWithin(a: View, b: View, t: int)
    requires Within(a, b)
    ensures Within(Fade(a, t), Fade(b, t))
  {}

  // ------------------------------------------------------------------
  // The operations of a timed map
  // ------------------------------------------------------------------

  /** Store an entry; one that is already dead leaves nothing behind. */
  function Put(v: View, k: Bytes, e: Entry, t: int): View
  {
    if Alive(e, t) then v[k := e] else v - {k}
  }

  /** Move the deadline of a key, if it is there. */
  function MoveDeadline(v: View, k: Bytes, deadline: Option<int>, t: int): View
  {
    if k in v then Put(v, k, v[k].(deadline := deadline), t) else v
  }

  // ------------------------------------------------------------------
  // How a store holds it
  // ------------------------------------------------------------------

  const NO_EXPIRY: int := -1

  /** The two maps of a store: values, and deadlines of the keys that have one. */
  datatype Db = Db(entries: map<Bytes, Bytes>, expires: map<Bytes, int>)

  /** The index covers stored keys only and never holds the no-expiry mark. */
  ghost predicate Consistent(db: Db)
  {
    && db.expires.Keys <= db.entries.Keys
    && NO_EXPIRY !in db.expires.Values
  }

  predicate Expired(db: Db, k: Bytes, t: int) { k in db.expires && t >= db.expires[k] }

  function DeadlineOf(db: Db, k: Bytes): Option<int>
  {
    if k in db.expires then Some(db.expires[k]) else None
  }

  function ViewOf(db: Db, t: int): View
  {
    map k | k in db.entries && !Expired(db, k, t) :: Entry(db.entries[k], DeadlineOf(db, k))
  }

  /** Later views of a store are determined by the present one. */
  lemma {:induction false} ViewFades(db: Db, t: int, t': int)
    requires t <= t'
    ensures ViewOf(db, t') == Fade(ViewOf(db, t), t')
  {}

  lemma {:induction false} ViewIsCurrent(db: Db, t: int)
    ensures Current(ViewOf(db, t), t)
  {}

  function Without(db: Db, dead: set<Bytes>): Db
  {
    Db(db.entries - dead, db.expires - dead)
  }

  /** Reaping dead keys is invisible, now and at every later time. */
  lemma {:induction false} ReapingIsInvisible(db: Db, dead: set<Bytes>, t: int, t': int)
    requires Consistent(db) && t <= t'
    requires forall k :: k in dead ==> Expired(db, k, t)
    ensures Consistent(Without(db, dead))
    ensures ViewOf(Without(db, dead), t') == ViewOf(db, t')
  {
    assert Without(db, dead).expires.Keys <= Without(db, dead).entries.Keys;
    assert Without(db, dead).expires.Values <= db.expires.Values;
  }

  /** Writing an entry and its deadline, or no deadline, as Store::set does. */
  function Stored(db: Db, k: Bytes, value: Bytes, expireAt: int): Db
  {
    Db(db.entries[k := value],
       if expireAt == NO_EXPIRY then db.expires - {k} else db.expires[k := expireAt])
  }

  lemma {:induction false} StoredView(db: Db, k: Bytes, value: Bytes, expireAt: int, t: int)
    requires Consistent(db)
    ensures Consistent(Stored(db, k, value, expireAt))
    ensures ViewOf(Stored(db, k, value, expireAt), t)
         == Put(ViewOf(db, t), k, Entry(value, ToDeadline(expireAt)), t)
  {
    hide Stored;
    hide ViewOf;
    StoredConsistent(db, k, value, expireAt);
    StoredShows(db, k, value, expireAt, t);
  }

  lemma {:induction false} StoredConsistent(db: Db, k: Bytes, value: Bytes, expireAt: int)
    requires Consistent(db)
    ensures Consistent(Stored(db, k, value, expireAt))
  {
    var after := Stored(db, k, value, expireAt);
    assert after.expires.Values <= db.expires.Values + {expireAt};
    assert expireAt == NO_EXPIRY ==> after.expires.Values <= db.expires.Values;
  }

  lemma {:induction false} StoredShows(db: Db, k: Bytes, value: Bytes, expireAt: int, t: int)
    ensures ViewOf(Stored(db, k, value, expireAt), t)
         == Put(ViewOf(db, t), k, Entry(value, ToDeadline(expireAt)), t)
  {
    var after, view := Stored(db, k, value, expireAt), ViewOf(db, t);
    forall other | other != k
      ensures other in ViewOf(after, t) <==> other in view
      ensures other in view ==> ViewOf(after, t)[other] == view[other]
    {
    }
  }

  /** `after` is `before` with `dead` reaped, all of them expired at `t`. */
  ghost predicate Reaped(before: Db, after: Db, dead: set<Bytes>, t: int)
  {
    && (forall k :: k in dead ==> Expired(before, k, t))
    && after == Without(before, dead)
  }

  ghost predicate AllExpired(db: Db, t: int) { forall k :: k in db.expires ==> Expired(db, k, t) }

  lemma {:induction false} ReapedCounts(before: Db, after: Db, dead: set<Bytes>, t: int)
    requires Reaped(before, after, dead, t)
    ensures dead == before.expires.Keys - after.expires.Keys
    ensures |after.expires| == |before.expires| - |dead|
  {
    var keys := before.expires.Keys;
    assert dead <= keys;
    assert after.expires.Keys == keys - dead;
    Difference(keys, dead);
  }

  lemma {:induction false} ReapedKeys(before: Db, after: Db, dead: set<Bytes>, t: int)
    requires Reaped(before, after, dead, t)
    ensures after.expires.Keys == before.expires.Keys - dead
  {}

  lemma {:induction false} Difference(all: set<Bytes>, part: set<Bytes>)
    requires part <= all
    ensures |all - part| == |all| - |part|
  {
    assert all == (all - part) + part;
  }

  lemma {:induction false} LiveCount(db: Db, dead: set<Bytes>, t: int)
    requires Consistent(db) && dead == set k | k in db.expires && Expired(db, k, t)
    ensures |ViewOf(db, t)| == |db.entries| - |dead|
  {
    assert ViewOf(db, t).Keys == db.entries.Keys - dead;
    Difference(db.entries.Keys, dead);
  }

  lemma {:induction false} ReapedNothing(db: Db, t: int)
    ensures Reaped(db, db, {}, t)
    ensures forall after :: Reaped(db, after, {}, t) ==> after == db
  {
    assert Without(db, {}) == db;
  }

  lemma {:induction false} ReapedAgain(before: Db, middle: Db, after: Db, dead: set<Bytes>, more: set<Bytes>, t: int)
    requires Reaped(before, middle, dead, t) && Reaped(middle, after, more, t)
    ensures Reaped(before, after, dead + more, t)
    ensures dead !! more
    ensures AllExpired(before, t) ==> AllExpired(middle, t)
  {
    assert before.entries - dead - more == before.entries - (dead + more);
    assert before.expires - dead - more == before.expires - (dead + more);
  }

  // ------------------------------------------------------------------
  // Records: a view written out as a list
  // ------------------------------------------------------------------

  datatype Record = Record(key: Bytes, value: Bytes, expireAt: int)

  function ToDeadline(expireAt: int): Option<int>
  {
    if expireAt == NO_EXPIRY then None else Some(expireAt)
  }

  function RecordEntry(r: Record): Entry { Entry(r.value, ToDeadline(r.expireAt)) }

  /** `records` lists each key of `v` exactly once, and nothing else. */
  ghost predicate Lists(records: seq<Record>, v: View)
  {
    && (forall i, j :: 0 <= i < j < |records| ==> records[i].key != records[j].key)
    && (forall i :: 0 <= i < |records| ==>
          records[i].key in v && v[records[i].key] == RecordEntry(records[i]))
    && (forall k :: k in v ==> exists i :: 0 <= i < |records| && records[i].key == k)
  }

  lemma {:induction false} ListsNothing(v: View)
    requires v == map[]
    ensures Lists([], v)
  {}

  lemma {:induction false} ListsOneMore(records: seq<Record>, v: View, r: Record)
    requires Lists(records, v) && r.key !in v
    ensures Lists(records + [r], v[r.key := RecordEntry(r)])
  {
    var more := records + [r];
    var v' := v[r.key := RecordEntry(r)];
    forall k | k in v'
      ensures exists i :: 0 <= i < |more| && more[i].key == k
    {
      if k in v {
        var i :| 0 <= i < |records| && records[i].key == k;
        assert more[i].key == k;
      } else {
        assert more[|records|].key == k;
      }
    }
  }

  /** The view left by loading records one after the other at time `t`: those
      whose deadline has passed are dropped. */
  function Loaded(v: View, records: seq<Record>, t: int): View
    decreases |records|
  {
    if records == [] then v
    else
      var last := records[|records| - 1];
      var before := Loaded(v, records[..|records| - 1], t);
      if Alive(RecordEntry(last), t) then before[last.key := RecordEntry(last)] else before
  }

  lemma {:induction false} LoadedAt(records: seq<Record>, v: View, t: int)
    requires forall i, j :: 0 <= i < j < |records| ==> records[i].key != records[j].key
    requires forall i :: 0 <= i < |records| ==>
               records[i].key in v && v[records[i].key] == RecordEntry(records[i])
    ensures Within(Loaded(map[], records, t), Fade(v, t))
    ensures forall i :: 0 <= i < |records| && Alive(RecordEntry(records[i]), t) ==>
              records[i].key in Loaded(map[], records, t)
    ensures forall k :: k in Loaded(map[], records, t) ==>
              exists i :: 0 <= i < |records| && records[i].key == k
    decreases |records|
  {
    if records != [] {
      LoadedAt(records[..|records| - 1], v, t);
    }
  }

  /** Loading the records of a view into an empty store gives that view as it
      looks by then. */
  lemma {:induction false} LoadingRestores(records: seq<Record>, v: View, t: int)
    requires Lists(records, v)
    ensures Loaded(map[], records, t) == Fade(v, t)
  {
    LoadedAt(records, v, t);
    forall k | k in Fade(v, t) ensures k in Loaded(map[], records, t) {
      var i :| 0 <= i < |records| && records[i].key == k;
    }
  }
}
