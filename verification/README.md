# TTL cache, retry wrapper and payload validation of `test_theme.py`

`test_theme.py` is a syntax-highlighting showcase. Three pieces of it have
behaviour that can be stated precisely, and this project models them in Dafny:

- `Cache[T]`: a time-to-live cache. It maps string keys to `(value, inserted_at)`.
  `get` serves an entry only while `now - inserted_at < ttl` and evicts a stale
  entry on that read. `key in cache` is `get(key) is not None`. `len(cache)`
  counts stored entries, stale ones included. Module `TtlCache`
  (`ttl_cache.dfy`).
- The `retry(max_attempts)` decorator's wrapper loop. It invokes the operation
  up to `max_attempts` times and sleeps `2 ** attempt` after each failure but
  the last. The last failure is re-raised. It returns `None` when the loop never
  runs. Module `RetryDecorator` (`retry.dfy`).
- `JSONProcessor.validate`: a payload is valid when it is non-empty and holds the
  keys `"id"`, `"type"` and `"payload"`. Module `JsonProcessor`
  (`validation.dfy`).

`Wrappers` (`wrappers.dfy`) holds `Option`, which stands for Python's `None`.

Modelling choices:

- The clock is explicit. Every cache call that read `datetime.now()` takes
  `now`, an integer count of microseconds. The ttl is an integer in the same
  unit; the default `timedelta(minutes=5)` is `DefaultTtl`. No monotonic clock
  is assumed, just as `datetime.now()` promises none.
- Cache values are `Option<V>`, because a Python value may itself be `None`.
  `Get` returns `Option<V>`, so a stored `None` and a missing key read alike, as
  in the source.
- The wrapped operation is a function `op: nat -> Attempt<R, E>`. `op(i)` is the
  outcome of its i-th invocation. Sleeping is replaced by the returned list of
  delays. `Run` records how the call ends, how many invocations it made and the
  delays in order.
- An invocation ends in one of three ways: a value, an `Exception` (caught by
  `except Exception` and retried), or a `BaseException` outside `Exception`,
  such as `KeyboardInterrupt` or `asyncio.CancelledError`. The last is not
  caught, so it leaves the loop at once (`Abort`, `AbortStopsAtOnce`).
- `retry` accepts `max_attempts <= 0`; the loop then never runs and the wrapper
  returns `None` without calling the operation (`NeverInvoked`).
- A read at the instant of `set` finds the value only when `ttl > 0`, because
  `get` compares `now - inserted_at < ttl` and never checks the ttl's sign
  (`SetThenGet`, `SetUpdatesLive`).

## Model

| member | source | states |
|---|---|---|
| TtlCache.Empty | test_theme.py:184-186 | a new cache stores nothing, so `len` is 0 and no read at any time finds a value |
| TtlCache.Get | test_theme.py:188-195 | the value read is the one the live view (entries younger than the ttl) holds for the key, with a stored `None` reading as absent; the live view at that instant is unchanged; a stale entry for the key is evicted, a fresh one is kept unchanged, and every other entry is kept as it was |
| TtlCache.Set | test_theme.py:197-199 | the key now maps to `(value, now)`; every other entry is untouched; the key set gains exactly the key; `len` grows by 1 when the key was absent and stays the same otherwise |
| TtlCache.Contains | test_theme.py:201-203 | `in` is true exactly when the live view holds a non-`None` value for the key, and it leaves the cache as `get` would |
| TtlCache.SetThenGet | test_theme.py:188-199 | after `set(k, v)` at `t`, `get(k)` at `t'` with `t' - t < ttl` returns `v` and changes nothing |
| TtlCache.GetExpired | test_theme.py:190-195 | a read of a stale entry returns `None`, removes exactly that key and makes `len` drop by exactly 1 |
| TtlCache.SetThenExpire | test_theme.py:188-199 | after `set(k, v)` at `t`, `get(k)` at `t'` with `t' - t >= ttl` returns `None` and leaves the store as it was before the `set`, minus `k` |
| TtlCache.GetMissing | test_theme.py:188-195 | a read of a key that is not stored returns `None` and leaves the cache unchanged |
| TtlCache.StoredNoneReadsAbsent | test_theme.py:201-203 | a fresh entry whose value is `None` makes `in` report false |
| TtlCache.SetUpdatesLive | test_theme.py:197-199 | with a positive ttl, `set` changes what reads observe by exactly the one binding; with a ttl of 0 or less, the key becomes unreadable at once |
| TtlCache.Len | test_theme.py:205-207 | at every instant, `len` is the number of live entries plus the number of stale entries not yet evicted; with `GetExpired` it drops by exactly 1 when a read evicts |
| TtlCache.LenCountsStale | test_theme.py:205-207 | at every instant, the stored entries split into those a read would serve and those it would evict |
| TtlCache.LenWithoutReads | test_theme.py:197-207 | after any run of `set` calls, the stored keys are the old keys plus the keys written, whatever the clock readings; `len` never drops |
| TtlCache.ReadsOnlyEvict | test_theme.py:188-203 | a run of `get` and `in` calls never adds or alters an entry, only removes some, so `len` never grows |
| RetryDecorator.RetryFrom | test_theme.py:50-57 | from iteration `attempt` on, the wrapper makes between 1 and the remaining number of invocations; all but the last raised an `Exception`; a success at the last one is returned, an `Exception` there is re-raised only when the attempts are used up, and a `BaseException` outside `Exception` escapes at once; the delays are `2**attempt, 2**(attempt+1), ...`, one per retried failure |
| RetryDecorator.Retry | test_theme.py:45-59 | with `max_attempts >= 1` the operation runs between 1 and `max_attempts` times, and the delays slept are `2**0, ..., 2**(n-2)` for n invocations |
| RetryDecorator.Backoff | test_theme.py:56 | the schedule has one delay per retry; the first delay is 1 and each later delay doubles the one before |
| RetryDecorator.AllFail | test_theme.py:50-56 | if every invocation fails, the operation runs exactly `max_attempts` times, the last failure is re-raised unchanged, and `max_attempts - 1` delays are slept |
| RetryDecorator.FirstSuccess | test_theme.py:50-56 | if the first success is at invocation k (from 0) and k < `max_attempts`, the operation runs exactly k + 1 times and that value is returned |
| RetryDecorator.AbortStopsAtOnce | test_theme.py:50-53 | a `BaseException` outside `Exception` at invocation k, after k retried failures, escapes unchanged after k + 1 invocations and k delays, even with attempts left |
| RetryDecorator.NeverInvoked | test_theme.py:50-57 | with `max_attempts <= 0` the operation is never invoked, nothing is slept and the result is `None` |
| RetryDecorator.ReturnsNoneOnlyWhenNeverRun | test_theme.py:50-57 | the wrapper's own `None` (as opposed to the operation's) occurs only when `max_attempts <= 0` |
| RetryDecorator.TotalBackoff | test_theme.py:56 | the first n delays add up to `2**n - 1`, the total slept by a call with n + 1 invocations |
| JsonProcessor.AllPresent | test_theme.py:142-143 | the field test holds exactly when every listed field is a key of the payload |
| JsonProcessor.Validate | test_theme.py:137-143 | a payload is valid exactly when `"id"`, `"type"` and `"payload"` are all keys of it; an empty payload is invalid |
| JsonProcessor.ExtraKeysIgnored | test_theme.py:139-143 | adding keys other than the three required ones never changes the verdict |
| JsonProcessor.MissingFieldRejected | test_theme.py:142-143 | a payload lacking any one required field is rejected |

## Left out

- `datetime.now()` and `timedelta`: replaced by an integer microsecond clock passed as `now` and an integer ttl; wall-clock behaviour is not modelled.
- `asyncio.sleep`, `async`/`await` and the event loop: scheduling plumbing; backoff is represented only by the returned list of delays.
- Exception classes in `retry`: an `Exception` subclass is retried whatever its class, and a `BaseException` outside `Exception` is never caught; beyond that split an error is an opaque value `E`.
- `JSONProcessor.process`: it builds a result around a live timestamp and sleeps; its only decision is the `TypeError` guard, which is a dynamic type check with no meaning for a typed map, plus `validate`, which is modelled.
- `JSONProcessor.fetch_remote_data`: a simulated network call returning canned data.
- `JSONProcessor.parse_config` and `JSONProcessor.from_file`: wrappers over Python's `json` library and file I/O.
- `DataProcessor.clear_cache`: clears a dictionary that no modelled operation reads.
- `Configuration`, `Status` and the module constants: plain defaults without behaviour; `DEFAULT_TIMEOUT` is a float.
- `main` and the `__main__` block: console printing and syntax showcase snippets.
