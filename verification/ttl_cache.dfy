/**
 * The generic time-to-live cache `Cache[T]`.
 *
 * The store maps string keys to `(value, inserted_at)` pairs.  Expiry is lazy:
 * an entry is removed only when a read finds it stale.  The wall clock is made
 * explicit: every operation that consulted `datetime.now()` takes `now`, an
 * integer number of microseconds, and the ttl is an integer in the same unit.
 * Values are `Option<V>` because a Python value may itself be `None`.
 */
module TtlCache {
  import opened Wrappers

  /** `timedelta(minutes=5)`, the constructor's default, in microseconds. */
  const DefaultTtl: int := 5 * 60 * 1_000_000

  datatype Entry<V> = Entry(value: Option<V>, insertedAt: int)

  datatype Cache<V> = Cache(store: map<string, Entry<V>>, ttl: int)

  /** What `get` hands back, together with the cache as it is afterwards. */
  datatype Read<V> = Read(value: Option<V>, cache: Cache<V>)

  /** What `key in cache` hands back, together with the cache as it is afterwards. */
  datatype Probe<V> = Probe(found: bool, cache: Cache<V>)

  /** The age test of `get`: an entry is served only while younger than the ttl. */
  predicate Fresh<V>(c: Cache<V>, e: Entry<V>, now: int)
  {
    now - e.insertedAt < c.ttl
  }

  /** The entries a read at time `now` would serve: the observable contents of the cache. */
  function Live<V>(c: Cache<V>, now: int): map<string, Option<V>>
  {
    map k | k in c.store && Fresh(c, c.store[k], now) :: c.store[k].value
  }

  /** Keys still stored although a read at `now` would evict them. */
  function Stale<V>(c: Cache<V>, now: int): set<string>
  {
    set k | k in c.store && !Fresh(c, c.store[k], now)
  }

  /** `Cache(ttl)`: a new cache holds nothing. */
  function Empty<V>(ttl: int): (c: Cache<V>)
    ensures Len(c) == 0
    ensures c.ttl == ttl
    ensures forall key, now :: Get(c, key, now).value == None
  {
    Cache(map[], ttl)
  }

  /** `cache.get(key)` at time `now`. */
  function Get<V>(c: Cache<V>, key: string, now: int): (r: Read<V>)
    // the value is what the live view holds for the key, a stored None reading as absent
    ensures r.value == Flatten(Lookup(Live(c, now), key))
    // a read never changes what a read at the same instant can observe
    ensures Live(r.cache, now) == Live(c, now)
    ensures r.cache.ttl == c.ttl
    // only the key read can disappear, and nothing else is touched
    ensures r.cache.store.Keys <= c.store.Keys
    ensures forall k :: k in c.store && k != key ==> k in r.cache.store && r.cache.store[k] == c.store[k]
    // a stale entry for the key is evicted; otherwise the key's entry is kept as it was
    ensures key in c.store && !Fresh(c, c.store[key], now) ==> r.cache.store == c.store - {key}
    ensures key in r.cache.store ==> r.cache.store[key] == c.store[key]
  {
    if key in c.store then
      var e := c.store[key];
      if Fresh(c, e, now) then Read(e.value, c)
      else Read(None, c.(store := c.store - {key}))
    else
      Read(None, c)
  }

  /** `cache.set(key, value)` at time `now`. */
  function Set<V>(c: Cache<V>, key: string, value: Option<V>, now: int): (c': Cache<V>)
    ensures c'.ttl == c.ttl
    ensures key in c'.store && c'.store[key] == Entry(value, now)
    ensures c'.store.Keys == c.store.Keys + {key}
    ensures forall k :: k in c.store && k != key ==> c'.store[k] == c.store[k]
    ensures key in c.store ==> Len(c') == Len(c)
    ensures key !in c.store ==> Len(c') == Len(c) + 1
  {
    c.(store := c.store[key := Entry(value, now)])
  }

  /** `key in cache` at time `now`: defined through `get`, so it evicts exactly as `get` does. */
  function Contains<V>(c: Cache<V>, key: string, now: int): (r: Probe<V>)
    ensures r.found <==> key in Live(c, now) && Live(c, now)[key].Some?
    ensures r.cache == Get(c, key, now).cache
  {
    var g := Get(c, key, now);
    Probe(g.value != None, g.cache)
  }

  /** `len(cache)`: every stored entry, stale or not. */
  function Len<V>(c: Cache<V>): (n: nat)
    ensures forall now :: n == |Live(c, now).Keys| + |Stale(c, now)|
  {
    LenCountsStale(c);
    |c.store|
  }

  // ---------------------------------------------------------------------------
  // Properties of single calls
  // ---------------------------------------------------------------------------

  /** A value set at `t` is returned by a read at `t'` while `t' - t < ttl`. */
  lemma SetThenGet<V>(c: Cache<V>, key: string, value: Option<V>, t: int, t': int)
    requires t' - t < c.ttl
    ensures Get(Set(c, key, value, t), key, t').value == value
    ensures Get(Set(c, key, value, t), key, t').cache == Set(c, key, value, t)
  {
  }

  /** A read that finds a stale entry returns `None`, evicts it, and nothing else changes. */
  lemma GetExpired<V>(c: Cache<V>, key: string, now: int)
    requires key in c.store
    requires now - c.store[key].insertedAt >= c.ttl
    ensures Get(c, key, now).value == None
    ensures key !in Get(c, key, now).cache.store
    ensures Len(Get(c, key, now).cache) == Len(c) - 1
    ensures Get(c, key, now).cache == c.(store := c.store - {key})
  {
  }

  /** After `set` at `t`, a read at `t'` with `t' - t >= ttl` removes the entry again. */
  lemma SetThenExpire<V>(c: Cache<V>, key: string, value: Option<V>, t: int, t': int)
    requires t' - t >= c.ttl
    ensures Get(Set(c, key, value, t), key, t').value == None
    ensures Get(Set(c, key, value, t), key, t').cache.store == c.store - {key}
  {
  }

  /** A read of a key that is not stored returns `None` and leaves the cache as it was. */
  lemma GetMissing<V>(c: Cache<V>, key: string, now: int)
    requires key !in c.store
    ensures Get(c, key, now) == Read(None, c)
  {
  }

  /** A stored `None` is indistinguishable from an absent key for `in`. */
  lemma StoredNoneReadsAbsent<V>(c: Cache<V>, key: string, t: int, t': int)
    requires t' - t < c.ttl
    ensures !Contains(Set(c, key, None, t), key, t').found
  {
  }

  /** `set` changes the observable contents by exactly the one binding (when the ttl is positive). */
  lemma SetUpdatesLive<V>(c: Cache<V>, key: string, value: Option<V>, now: int)
    ensures c.ttl > 0 ==> Live(Set(c, key, value, now), now) == Live(c, now)[key := value]
    ensures c.ttl <= 0 ==> Live(Set(c, key, value, now), now) == Live(c, now) - {key}
  {
    LiveAfterWrite(c, c.(store := c.store[key := Entry(value, now)]), key, value, now);
  }

  lemma LiveAfterWrite<V>(c: Cache<V>, c': Cache<V>, key: string, value: Option<V>, now: int)
    requires c' == c.(store := c.store[key := Entry(value, now)])
    ensures c.ttl > 0 ==> Live(c', now) == Live(c, now)[key := value]
    ensures c.ttl <= 0 ==> Live(c', now) == Live(c, now) - {key}
  {
    var live, live' := Live(c, now), Live(c', now);
    assert forall k :: k != key ==> (k in live' <==> k in live);
  }

  /** At every instant the stored keys split into the live ones and the stale ones. */
  lemma LenCountsStale<V>(c: Cache<V>)
    ensures forall now :: |c.store| == |Live(c, now).Keys| + |Stale(c, now)|
  {
    forall now ensures |c.store| == |Live(c, now).Keys| + |Stale(c, now)| {
      var live := Live(c, now).Keys;
      var stale := Stale(c, now);
      assert c.store.Keys == live + stale;
      assert live !! stale;
    }
  }

  // ---------------------------------------------------------------------------
  // Sequences of calls
  // ---------------------------------------------------------------------------

  /** One call on the cache, stamped with the clock reading it would see. */
  datatype Op<V> =
    | SetOp(key: string, value: Option<V>, at: int)
    | GetOp(key: string, at: int)
    | ContainsOp(key: string, at: int)

  /** The cache after performing `ops` in order. */
  function Replay<V>(c: Cache<V>, ops: seq<Op<V>>): Cache<V>
    decreases |ops|
  {
    if |ops| == 0 then c
    else
      var c1 := match ops[0]
        case SetOp(k, v, t) => Set(c, k, v, t)
        case GetOp(k, t) => Get(c, k, t).cache
        case ContainsOp(k, t) => Contains(c, k, t).cache;
      Replay(c1, ops[1..])
  }

  /** The keys written by the `set` calls of a trace. */
  function SetKeys<V>(ops: seq<Op<V>>): set<string>
    decreases |ops|
  {
    if |ops| == 0 then {}
    else (if ops[0].SetOp? then {ops[0].key} else {}) + SetKeys(ops[1..])
  }

  predicate NoReads<V>(ops: seq<Op<V>>)
  {
    forall i :: 0 <= i < |ops| ==> ops[i].SetOp?
  }

  predicate NoWrites<V>(ops: seq<Op<V>>)
  {
    forall i :: 0 <= i < |ops| ==> !ops[i].SetOp?
  }

  /**
   * Without reads nothing expires: the stored keys after a run of `set` calls
   * are the old ones plus the ones written, whatever the clock said.
   */
  lemma {:induction false} LenWithoutReads<V>(c: Cache<V>, ops: seq<Op<V>>)
    requires NoReads(ops)
    ensures Replay(c, ops).store.Keys == c.store.Keys + SetKeys(ops)
    ensures Len(Replay(c, ops)) == |c.store.Keys + SetKeys(ops)|
    ensures Len(Replay(c, ops)) >= Len(c)
    decreases |ops|
  {
    if |ops| > 0 {
      var c1 := Set(c, ops[0].key, ops[0].value, ops[0].at);
      assert NoReads(ops[1..]) by {
        forall i | 0 <= i < |ops[1..]| ensures ops[1..][i].SetOp? {
          assert ops[1..][i] == ops[i + 1];
        }
      }
      LenWithoutReads(c1, ops[1..]);
      assert Replay(c, ops) == Replay(c1, ops[1..]);
    }
    assert |c.store.Keys| <= |c.store.Keys + SetKeys(ops)| by {
      SubsetCard(c.store.Keys, c.store.Keys + SetKeys(ops));
    }
  }

  /** Reads only ever evict: a run of `get` and `in` calls never adds or changes an entry. */
  lemma {:induction false} ReadsOnlyEvict<V>(c: Cache<V>, ops: seq<Op<V>>)
    requires NoWrites(ops)
    ensures Replay(c, ops).ttl == c.ttl
    ensures Replay(c, ops).store.Keys <= c.store.Keys
    ensures forall k :: k in Replay(c, ops).store ==> Replay(c, ops).store[k] == c.store[k]
    ensures Len(Replay(c, ops)) <= Len(c)
    decreases |ops|
  {
    if |ops| > 0 {
      var c1 := if ops[0].GetOp? then Get(c, ops[0].key, ops[0].at).cache
                else Contains(c, ops[0].key, ops[0].at).cache;
      assert NoWrites(ops[1..]) by {
        forall i | 0 <= i < |ops[1..]| ensures !ops[1..][i].SetOp? {
          assert ops[1..][i] == ops[i + 1];
        }
      }
      ReadsOnlyEvict(c1, ops[1..]);
      assert Replay(c, ops) == Replay(c1, ops[1..]);
    }
    SubsetCard(Replay(c, ops).store.Keys, c.store.Keys);
  }

  lemma SubsetCard<T>(a: set<T>, b: set<T>)
    requires a <= b
    ensures |a| <= |b|
  {
    assert b == a + (b - a);
  }
}
