/**
 * `LinearCache`: a list of mapped objects, looked up linearly by input,
 * with per-entry lock flags, use counters and ids drawn from a seed.
 * Building an output (`map`) and destroying one are calls into the
 * graphics driver; the builder is a parameter and every destroyed output
 * is recorded in a log.
 */
module LinearCaches {
  import opened Options

  /** One cached object (`LinearCache::Object`). */
  datatype Entry<I, O> = Entry(input: I, output: O, locked: bool, initialized: bool, counter: nat, id: nat)

  // ---------------------------------------------------------------------
  // The state invariant: ids are below the seed and distinct
  // ---------------------------------------------------------------------

  predicate DistinctIds<I, O>(m: seq<Entry<I, O>>) {
    forall i, j :: 0 <= i < j < |m| ==> m[i].id != m[j].id
  }

  predicate IdsBelow<I, O>(m: seq<Entry<I, O>>, seed: nat) {
    forall i :: 0 <= i < |m| ==> 1 <= m[i].id < seed
  }

  /** Ids start at 1, every id was drawn from the seed, and no two entries share one. */
  predicate Consistent<I, O>(m: seq<Entry<I, O>>, seed: nat) {
    1 <= seed && IdsBelow(m, seed) && DistinctIds(m)
  }

  // ---------------------------------------------------------------------
  // get
  // ---------------------------------------------------------------------

  /** An entry `get` may return for `input`: unlocked, with an equal input. */
  predicate Free<I(==), O>(e: Entry<I, O>, input: I) {
    !e.locked && e.input == input
  }

  /** The first entry `get` may return for `input`, if any. */
  function FirstFree<I(==), O>(m: seq<Entry<I, O>>, input: I): (r: Option<nat>)
    ensures r.Some? ==> r.value < |m| && Free(m[r.value], input)
    ensures r.Some? ==> forall j :: 0 <= j < r.value ==> !Free(m[j], input)
    ensures r.None? ==> forall j :: 0 <= j < |m| ==> !Free(m[j], input)
  {
    if m == [] then None
    else if Free(m[0], input) then Some(0)
    else match FirstFree(m[1..], input)
      case None => None
      case Some(i) => Some(i + 1)
  }

  /** A hit as the source writes it: the output is rebuilt when the entry is not initialised, but the flag is left false. */
  function HitAsWritten<I, O>(e: Entry<I, O>, input: I, lock: bool, mapper: I -> O): Entry<I, O> {
    e.(output := if e.initialized then e.output else mapper(input), locked := lock, counter := e.counter + 1)
  }

  /** A hit that also marks the rebuilt entry initialised, so that it is destroyed later. */
  function Hit<I, O>(e: Entry<I, O>, input: I, lock: bool, mapper: I -> O): Entry<I, O> {
    HitAsWritten(e, input, lock, mapper).(initialized := true)
  }

  /** The state after a `get`, with what it returns and what it writes through `lock`. */
  datatype Got<I, O> = Got(mapped: seq<Entry<I, O>>, seed: nat, output: O, lockId: Option<nat>)

  /** `get(input, lock)` on the list `m` with seed `seed`; `fixed` says whether a rebuilt entry is marked initialised. */
  function GetWith<I(==), O>(m: seq<Entry<I, O>>, seed: nat, input: I, lock: bool, mapper: I -> O, fixed: bool): Got<I, O> {
    match FirstFree(m, input)
    case Some(i) =>
      var e := if fixed then Hit(m[i], input, lock, mapper) else HitAsWritten(m[i], input, lock, mapper);
      Got(m[i := e], seed, e.output, if lock then Some(e.id) else None)
    case None =>
      Got(m + [Entry(input, mapper(input), lock, true, 1, seed)], seed + 1, mapper(input), if lock then Some(seed) else None)
  }

  /** `get` as written (LinearCache.h:44-45). */
  function GetResultAsWritten<I(==), O>(m: seq<Entry<I, O>>, seed: nat, input: I, lock: bool, mapper: I -> O): Got<I, O> {
    GetWith(m, seed, input, lock, mapper, false)
  }

  /** `get` with the rebuilt entry marked initialised. */
  function GetResult<I(==), O>(m: seq<Entry<I, O>>, seed: nat, input: I, lock: bool, mapper: I -> O): Got<I, O> {
    GetWith(m, seed, input, lock, mapper, true)
  }

  /**
   * On a hit, the first unlocked entry with an equal input is returned with
   * its counter one higher, locked exactly when a lock was asked for, and its
   * id is written through the lock; nothing else changes.
   */
  lemma GetHit<I, O>(m: seq<Entry<I, O>>, seed: nat, input: I, lock: bool, mapper: I -> O, i: nat)
    requires i < |m| && Free(m[i], input) && forall j :: 0 <= j < i ==> !Free(m[j], input)
    ensures var g := GetResult(m, seed, input, lock, mapper);
      |g.mapped| == |m| && g.seed == seed &&
      (forall j :: 0 <= j < |m| && j != i ==> g.mapped[j] == m[j]) &&
      g.mapped[i].input == input && g.mapped[i].id == m[i].id && g.mapped[i].initialized &&
      g.mapped[i].counter == m[i].counter + 1 && g.mapped[i].locked == lock &&
      g.output == g.mapped[i].output && (m[i].initialized ==> g.output == m[i].output) &&
      g.lockId == (if lock then Some(m[i].id) else None)
  {
  }

  /** On a miss, a new initialised entry with counter 1 and the seed as its id is appended, and the seed moves on. */
  lemma GetMiss<I, O>(m: seq<Entry<I, O>>, seed: nat, input: I, lock: bool, mapper: I -> O)
    requires forall j :: 0 <= j < |m| ==> !Free(m[j], input)
    ensures var g := GetResult(m, seed, input, lock, mapper);
      g.mapped == m + [Entry(input, mapper(input), lock, true, 1, seed)] && g.seed == seed + 1 &&
      g.output == mapper(input) && g.lockId == (if lock then Some(seed) else None)
  {
  }

  /** `get` never hands out a locked entry: the entry it returns was unlocked and holds the input. */
  lemma GetNeverLocked<I, O>(m: seq<Entry<I, O>>, seed: nat, input: I, lock: bool, mapper: I -> O)
    ensures var g := GetResult(m, seed, input, lock, mapper);
      exists k :: 0 <= k < |g.mapped| && g.mapped[k].input == input && g.mapped[k].output == g.output &&
        (k < |m| ==> !m[k].locked)
  {
    var g := GetResult(m, seed, input, lock, mapper);
    match FirstFree(m, input)
    case Some(i) =>
      assert g.mapped[i].input == input && g.mapped[i].output == g.output;
    case None =>
      assert g.mapped[|m|].input == input && g.mapped[|m|].output == g.output;
  }

  /** `get` keeps ids below the seed and distinct. */
  lemma GetConsistent<I, O>(m: seq<Entry<I, O>>, seed: nat, input: I, lock: bool, mapper: I -> O)
    requires Consistent(m, seed)
    ensures var g := GetResult(m, seed, input, lock, mapper); Consistent(g.mapped, g.seed)
  {
    var g := GetResult(m, seed, input, lock, mapper);
    if FirstFree(m, input).None? {
      assert forall i :: 0 <= i < |m| ==> g.mapped[i] == m[i];
    }
  }

  // ---------------------------------------------------------------------
  // unlock
  // ---------------------------------------------------------------------

  /** `unlock(id)`: the lock flag cleared on the entries with that id; nothing else changes. */
  function Unlocked<I, O>(m: seq<Entry<I, O>>, id: nat): (r: seq<Entry<I, O>>)
    ensures |r| == |m|
    ensures forall i :: 0 <= i < |m| ==> r[i] == if m[i].id == id then m[i].(locked := false) else m[i]
  {
    if m == [] then [] else [if m[0].id == id then m[0].(locked := false) else m[0]] + Unlocked(m[1..], id)
  }

  /**
   * Locking and then unlocking round-trips: after `get(input, &id)` and
   * `unlock(id)`, the next `get(input)` hits the same entry, returns the same
   * output and leaves the seed alone.
   */
  lemma UnlockReopens<I, O>(m: seq<Entry<I, O>>, seed: nat, input: I, mapper: I -> O, lock: bool)
    requires Consistent(m, seed)
    ensures var g := GetResult(m, seed, input, true, mapper);
      g.lockId.Some? &&
      var h := GetResult(Unlocked(g.mapped, g.lockId.value), g.seed, input, lock, mapper);
      h.output == g.output && h.seed == g.seed
  {
    var g := GetResult(m, seed, input, true, mapper);
    var k := match FirstFree(m, input) case Some(i) => i case None => |m|;
    var u := Unlocked(g.mapped, g.lockId.value);
    assert g.mapped[k].id == g.lockId.value && g.mapped[k].initialized;
    assert forall j :: 0 <= j < |g.mapped| && j != k ==> g.mapped[j].id != g.lockId.value && g.mapped[j] == (if j < |m| then m[j] else g.mapped[j]);
    assert Free(u[k], input);
    assert forall j :: 0 <= j < k ==> !Free(u[j], input);
    GetHit(u, g.seed, input, lock, mapper, k);
  }

  // ---------------------------------------------------------------------
  // releaseAll
  // ---------------------------------------------------------------------

  /** An entry that `releaseAll(forced)` destroys: initialised, and unlocked unless forced. */
  predicate Releasable<I, O>(e: Entry<I, O>, forced: bool) {
    e.initialized && (!e.locked || forced)
  }

  /** The first loop of `releaseAll` on one entry. */
  function Released<I, O>(e: Entry<I, O>, forced: bool): Entry<I, O> {
    if Releasable(e, forced) then e.(initialized := false, locked := false) else e
  }

  /** The first loop of `releaseAll` over the list. */
  function ReleasedAll<I, O>(m: seq<Entry<I, O>>, forced: bool): (r: seq<Entry<I, O>>)
    ensures |r| == |m|
    ensures forall i :: 0 <= i < |m| ==> r[i] == Released(m[i], forced)
  {
    if m == [] then [] else [Released(m[0], forced)] + ReleasedAll(m[1..], forced)
  }

  /** The outputs the first loop destroys, in list order. */
  function ReleasedOutputs<I, O>(m: seq<Entry<I, O>>, forced: bool): seq<O> {
    if m == [] then []
    else ReleasedOutputs(m[..|m| - 1], forced) + if Releasable(m[|m| - 1], forced) then [m[|m| - 1].output] else []
  }

  /** `remove_if(!initialized)`: the initialised entries, in order. */
  function Initialized<I, O>(m: seq<Entry<I, O>>): (r: seq<Entry<I, O>>)
    ensures |r| <= |m|
  {
    if m == [] then [] else (if m[0].initialized then [m[0]] else []) + Initialized(m[1..])
  }

  /** The entries `releaseAll(forced)` keeps: the initialised locked ones, and none when forced. */
  function Kept<I, O>(m: seq<Entry<I, O>>, forced: bool): seq<Entry<I, O>> {
    if m == [] then [] else (if m[0].initialized && m[0].locked && !forced then [m[0]] else []) + Kept(m[1..], forced)
  }

  /** After both steps, exactly the initialised locked entries survive, unchanged (none when forced). */
  lemma {:induction false} ReleaseAllKeeps<I, O>(m: seq<Entry<I, O>>, forced: bool)
    ensures Initialized(ReleasedAll(m, forced)) == Kept(m, forced)
  {
    if m != [] {
      var r := ReleasedAll(m, forced);
      assert r[1..] == ReleasedAll(m[1..], forced);
      ReleaseAllKeeps(m[1..], forced);
    }
  }

  /** A forced release (the destructor) empties the list. */
  lemma {:induction false} ForcedReleaseEmpties<I, O>(m: seq<Entry<I, O>>)
    ensures Kept(m, true) == []
  {
    if m != [] {
      ForcedReleaseEmpties(m[1..]);
    }
  }

  /** A forced release destroys the output of every initialised entry. */
  lemma {:induction false} ForcedReleaseDestroys<I, O>(m: seq<Entry<I, O>>, k: nat)
    requires k < |m| && m[k].initialized
    ensures m[k].output in ReleasedOutputs(m, true)
  {
    var n := |m| - 1;
    if k < n {
      assert m[..n][k] == m[k];
      ForcedReleaseDestroys(m[..n], k);
    }
  }

  lemma {:induction false} InitializedMembers<I, O>(m: seq<Entry<I, O>>)
    ensures forall e :: e in Initialized(m) ==> e in m
  {
    if m != [] {
      InitializedMembers(m[1..]);
    }
  }

  /** Dropping entries keeps ids distinct and below the seed. */
  lemma {:induction false} InitializedConsistent<I, O>(m: seq<Entry<I, O>>, seed: nat)
    requires Consistent(m, seed)
    ensures Consistent(Initialized(m), seed)
  {
    if m != [] {
      InitializedConsistent(m[1..], seed);
      InitializedMembers(m[1..]);
      var r := Initialized(m);
      var tail := Initialized(m[1..]);
      forall e | e in tail
        ensures e.id != m[0].id
      {
        var j :| 0 <= j < |m[1..]| && m[1..][j] == e;
        assert m[j + 1] == e;
      }
      if m[0].initialized {
        assert r == [m[0]] + tail;
        forall i, j | 0 <= i < j < |r|
          ensures r[i].id != r[j].id
        {
          if i == 0 {
            assert r[j] == tail[j - 1] && r[j] in tail;
          } else {
            assert r[i] == tail[i - 1] && r[j] == tail[j - 1];
          }
        }
        assert r[0] == m[0];
      } else {
        assert r == tail;
      }
    }
  }

  // ---------------------------------------------------------------------
  // compress
  // ---------------------------------------------------------------------

  /** The number of initialised entries (`count_if(initialized)`). */
  function InitCount<I, O>(m: seq<Entry<I, O>>): nat {
    if m == [] then 0 else (if m[0].initialized then 1 else 0) + InitCount(m[1..])
  }

  /** An entry `compress` may free: initialised and unlocked. */
  predicate Evictable<I, O>(e: Entry<I, O>) {
    e.initialized && !e.locked
  }

  /** The number of entries `compress` may free. */
  function EvictableCount<I, O>(m: seq<Entry<I, O>>): nat {
    if m == [] then 0 else (if Evictable(m[0]) then 1 else 0) + EvictableCount(m[1..])
  }

  /** An entry after `compress` frees it. */
  function Freed<I, O>(e: Entry<I, O>): Entry<I, O> {
    e.(initialized := false, locked := false)
  }

  /** The list and the destroyed outputs after the freeing loop. */
  datatype Eviction<I, O> = Eviction(mapped: seq<Entry<I, O>>, destroyed: seq<O>)

  /**
   * The freeing loop of `compress` over `m`, with `count` initialised entries
   * left to account for: free evictable entries in order, and stop as soon as
   * the count reaches the cache size.
   */
  function Evict<I, O>(m: seq<Entry<I, O>>, count: int, size: nat): (r: Eviction<I, O>)
    ensures |r.mapped| == |m|
  {
    if m == [] then Eviction([], [])
    else if Evictable(m[0]) then
      if count - 1 <= size then Eviction([Freed(m[0])] + m[1..], [m[0].output])
      else
        var rest := Evict(m[1..], count - 1, size);
        Eviction([Freed(m[0])] + rest.mapped, [m[0].output] + rest.destroyed)
    else
      var rest := Evict(m[1..], count, size);
      Eviction([m[0]] + rest.mapped, rest.destroyed)
  }

  /** `sorted` is `m` reordered by ascending counter, one of the orders `std::sort` may leave. */
  ghost predicate SortsByCounter<I, O>(m: seq<Entry<I, O>>, sorted: seq<Entry<I, O>>) {
    multiset(sorted) == multiset(m) &&
    forall a, b :: 0 <= a < b < |sorted| ==> sorted[a].counter <= sorted[b].counter
  }

  /** `compress`: nothing when at most `size` entries are initialised; otherwise sort, then free. */
  function Compressed<I, O>(m: seq<Entry<I, O>>, sorted: seq<Entry<I, O>>, size: nat): Eviction<I, O>
    requires SortsByCounter(m, sorted)
  {
    if InitCount(m) <= size then Eviction(m, [])
    else Evict(sorted, InitCount(m), size)
  }

  /** Freeing takes away exactly `min(count - size, evictable)` initialised entries. */
  lemma {:induction false} EvictCount<I, O>(m: seq<Entry<I, O>>, count: int, size: nat)
    requires count > size
    ensures var r := Evict(m, count, size);
      InitCount(r.mapped) == InitCount(m) - (if count - size <= EvictableCount(m) then count - size else EvictableCount(m))
  {
    if m != [] {
      var r := Evict(m, count, size);
      assert r.mapped[1..] == if Evictable(m[0]) && count - 1 <= size then m[1..] else Evict(m[1..], if Evictable(m[0]) then count - 1 else count, size).mapped;
      if Evictable(m[0]) {
        if count - 1 > size {
          EvictCount(m[1..], count - 1, size);
        }
      } else {
        EvictCount(m[1..], count, size);
      }
    }
  }

  /** Freeing leaves locked and uninitialised entries alone and either keeps or frees each other entry. */
  lemma {:induction false} EvictPointwise<I, O>(m: seq<Entry<I, O>>, count: int, size: nat)
    ensures var r := Evict(m, count, size);
      forall i :: 0 <= i < |m| ==> r.mapped[i] == m[i] || (Evictable(m[i]) && r.mapped[i] == Freed(m[i]))
  {
    if m != [] {
      var r := Evict(m, count, size);
      if Evictable(m[0]) {
        if count - 1 > size {
          EvictPointwise(m[1..], count - 1, size);
          assert forall i :: 1 <= i < |m| ==> r.mapped[i] == Evict(m[1..], count - 1, size).mapped[i - 1];
        } else {
          assert forall i :: 1 <= i < |m| ==> r.mapped[i] == m[i];
        }
      } else {
        EvictPointwise(m[1..], count, size);
        assert forall i :: 1 <= i < |m| ==> r.mapped[i] == Evict(m[1..], count, size).mapped[i - 1];
      }
    }
  }

  /** Entries are freed in list order: every freed entry comes before every evictable entry left. */
  predicate FreedFirst<I, O>(m: seq<Entry<I, O>>, r: seq<Entry<I, O>>)
    requires |r| == |m|
  {
    forall i, j :: 0 <= i < |m| && 0 <= j < |m| && Evictable(m[i]) && !r[i].initialized && Evictable(r[j]) ==> i < j
  }

  lemma {:induction false} EvictInOrder<I, O>(m: seq<Entry<I, O>>, count: int, size: nat)
    ensures FreedFirst(m, Evict(m, count, size).mapped)
  {
    if m != [] {
      var r := Evict(m, count, size);
      if Evictable(m[0]) && count - 1 <= size {
        assert forall i :: 1 <= i < |m| ==> r.mapped[i] == m[i];
      } else {
        var c := if Evictable(m[0]) then count - 1 else count;
        var t := Evict(m[1..], c, size);
        EvictInOrder(m[1..], c, size);
        assert r.mapped[0] == if Evictable(m[0]) then Freed(m[0]) else m[0];
        assert forall i :: 1 <= i < |m| ==> r.mapped[i] == t.mapped[i - 1] && m[i] == m[1..][i - 1];
        forall i, j | 0 <= i < |m| && 0 <= j < |m| && Evictable(m[i]) && !r.mapped[i].initialized && Evictable(r.mapped[j])
          ensures i < j
        {
          if j == 0 {
            assert false;
          } else if i > 0 {
            assert Evictable(m[1..][i - 1]) && !t.mapped[i - 1].initialized && Evictable(t.mapped[j - 1]);
            assert i - 1 < j - 1;
          }
        }
      }
    }
  }

  /** `compress` frees the least-used entries first: no freed entry has a higher counter than an evictable entry it kept. */
  lemma LeastUsedFreedFirst<I, O>(m: seq<Entry<I, O>>, sorted: seq<Entry<I, O>>, size: nat)
    requires SortsByCounter(m, sorted) && InitCount(m) > size
    ensures var r := Compressed(m, sorted, size).mapped;
      forall i, j :: 0 <= i < |r| && 0 <= j < |r| && Evictable(sorted[i]) && !r[i].initialized && Evictable(r[j]) ==>
        r[i].counter <= r[j].counter
  {
    EvictInOrder(sorted, InitCount(m), size);
    EvictPointwise(sorted, InitCount(m), size);
  }

  /** The first element of `s` found in its permutation `t`, and what is left of both. */
  lemma PickOut<T>(s: seq<T>, t: seq<T>) returns (j: nat, rest: seq<T>)
    requires multiset(s) == multiset(t) && s != []
    ensures j < |t| && t[j] == s[0] && rest == t[..j] + t[j + 1..]
    ensures multiset(s[1..]) == multiset(rest)
  {
    assert s[0] in multiset(t);
    j :| 0 <= j < |t| && t[j] == s[0];
    rest := t[..j] + t[j + 1..];
    assert t == t[..j] + [t[j]] + t[j + 1..];
    assert multiset(t) == multiset(t[..j]) + multiset{t[j]} + multiset(t[j + 1..]);
    assert multiset(rest) == multiset(t[..j]) + multiset(t[j + 1..]);
    assert s == [s[0]] + s[1..];
    assert multiset(s) == multiset(s[1..]) + multiset{s[0]};
    assert multiset(s[1..]) == multiset(s) - multiset{s[0]};
    assert multiset(rest) == multiset(t) - multiset{t[j]};
  }

  lemma {:induction false} CountsAppend<I, O>(a: seq<Entry<I, O>>, b: seq<Entry<I, O>>)
    ensures InitCount(a + b) == InitCount(a) + InitCount(b)
    ensures EvictableCount(a + b) == EvictableCount(a) + EvictableCount(b)
  {
    if a != [] {
      assert (a + b)[1..] == a[1..] + b;
      CountsAppend(a[1..], b);
    } else {
      assert a + b == b;
    }
  }

  /** Counting over `t` is counting over `t` without its element `j`, plus that element. */
  lemma CountsRemoveAt<I, O>(t: seq<Entry<I, O>>, j: nat)
    requires j < |t|
    ensures var rest := t[..j] + t[j + 1..];
      InitCount(t) == InitCount(rest) + (if t[j].initialized then 1 else 0) &&
      EvictableCount(t) == EvictableCount(rest) + (if Evictable(t[j]) then 1 else 0)
  {
    assert t == t[..j] + ([t[j]] + t[j + 1..]);
    CountsAppend(t[..j], [t[j]] + t[j + 1..]);
    CountsAppend([t[j]], t[j + 1..]);
    CountsAppend(t[..j], t[j + 1..]);
  }

  /** Reordering does not change how many entries are initialised or evictable. */
  lemma {:induction false} CountsOfPermutation<I, O>(s: seq<Entry<I, O>>, t: seq<Entry<I, O>>)
    requires multiset(s) == multiset(t)
    ensures InitCount(s) == InitCount(t) && EvictableCount(s) == EvictableCount(t)
    decreases |s|
  {
    if s == [] {
      assert |t| == |multiset(t)| == 0;
    } else {
      var j, rest := PickOut(s, t);
      CountsOfPermutation(s[1..], rest);
      CountsRemoveAt(t, j);
    }
  }

  /** Reordering keeps ids distinct and below the seed. */
  lemma {:induction false} ConsistentPermutation<I, O>(s: seq<Entry<I, O>>, t: seq<Entry<I, O>>, seed: nat)
    requires multiset(s) == multiset(t) && Consistent(t, seed)
    ensures Consistent(s, seed)
    decreases |s|
  {
    forall i | 0 <= i < |s|
      ensures 1 <= s[i].id < seed
    {
      assert s[i] in multiset(t);
    }
    if s != [] {
      var j, rest := PickOut(s, t);
      assert forall k :: 0 <= k < |rest| ==> rest[k] == if k < j then t[k] else t[k + 1];
      ConsistentPermutation(s[1..], rest, seed);
      forall k | 1 <= k < |s|
        ensures s[k].id != s[0].id
      {
        assert s[1..][k - 1] in multiset(rest);
        var q :| 0 <= q < |rest| && rest[q] == s[k];
      }
    }
  }

  /** `compress` ends with at most `size` initialised entries, or with none left to free, having freed no more than needed. */
  lemma CompressReachesSize<I, O>(m: seq<Entry<I, O>>, sorted: seq<Entry<I, O>>, size: nat)
    requires SortsByCounter(m, sorted) && InitCount(m) > size
    ensures var r := Compressed(m, sorted, size).mapped;
      InitCount(r) == if InitCount(m) - EvictableCount(m) <= size then size else InitCount(m) - EvictableCount(m)
  {
    CountsOfPermutation(sorted, m);
    EvictCount(sorted, InitCount(m), size);
  }

  /** `compress` keeps ids distinct and below the seed. */
  lemma CompressConsistent<I, O>(m: seq<Entry<I, O>>, sorted: seq<Entry<I, O>>, size: nat, seed: nat)
    requires SortsByCounter(m, sorted) && Consistent(m, seed)
    ensures Consistent(Compressed(m, sorted, size).mapped, seed)
  {
    if InitCount(m) > size {
      ConsistentPermutation(sorted, m, seed);
      EvictPointwise(sorted, InitCount(m), size);
    }
  }

  lemma {:induction false} InitCountBounds<I, O>(m: seq<Entry<I, O>>)
    ensures EvictableCount(m) <= InitCount(m) <= |m|
  {
    if m != [] {
      InitCountBounds(m[1..]);
    }
  }

  // ---------------------------------------------------------------------
  // The cache object
  // ---------------------------------------------------------------------

  class LinearCache<I(==), O> {
    /** `CacheSize`, the template argument. */
    const size: nat
    var mapped: seq<Entry<I, O>>
    var seed: nat
    /** Every output handed to the mapper's `destroy`, in order. */
    var destroyed: seq<O>

    ghost predicate Valid()
      reads this
    {
      Consistent(mapped, seed)
    }

    constructor(cacheSize: nat)
      ensures size == cacheSize && mapped == [] && seed == 1 && destroyed == []
      ensures Valid()
    {
      size := cacheSize;
      mapped := [];
      seed := 1;
      destroyed := [];
    }

    /** `get(input, lock)`: `lock` says whether a lock out-parameter was passed, and `lockId` is what is written through it. */
    method Get(input: I, lock: bool, mapper: I -> O) returns (out: O, lockId: Option<nat>)
      requires Valid()
      modifies this`mapped, this`seed
      ensures Valid()
      ensures Got(mapped, seed, out, lockId) == GetResult(old(mapped), old(seed), input, lock, mapper)
    {
      GetConsistent(mapped, seed, input, lock, mapper);
      var i := 0;
      while i < |mapped|
        invariant 0 <= i <= |mapped|
        invariant forall j :: 0 <= j < i ==> !Free(mapped[j], input)
      {
        if !mapped[i].locked && mapped[i].input == input {
          var e := mapped[i];
          if !e.initialized {
            e := e.(output := mapper(input), initialized := true);
          }
          e := e.(locked := lock);
          lockId := if lock then Some(e.id) else None;
          e := e.(counter := e.counter + 1);
          mapped := mapped[i := e];
          return e.output, lockId;
        }
        i := i + 1;
      }
      var made := mapper(input);
      mapped := mapped + [Entry(input, made, lock, true, 1, seed)];
      lockId := if lock then Some(seed) else None;
      seed := seed + 1;
      out := made;
    }

    /** `unlock(id)`. */
    method Unlock(id: nat)
      requires Valid()
      modifies this`mapped
      ensures Valid()
      ensures mapped == Unlocked(old(mapped), id)
    {
      for i := 0 to |mapped|
        invariant |mapped| == |old(mapped)|
        invariant forall k :: 0 <= k < i ==> mapped[k] == if old(mapped)[k].id == id then old(mapped)[k].(locked := false) else old(mapped)[k]
        invariant forall k :: i <= k < |mapped| ==> mapped[k] == old(mapped)[k]
      {
        if mapped[i].id == id {
          mapped := mapped[i := mapped[i].(locked := false)];
        }
      }
    }

    /** `releaseAll(forced)`: destroy the releasable outputs, then drop every uninitialised entry. */
    method ReleaseAll(forced: bool)
      requires Valid()
      modifies this`mapped, this`destroyed
      ensures Valid()
      ensures mapped == Initialized(ReleasedAll(old(mapped), forced))
      ensures destroyed == old(destroyed) + ReleasedOutputs(old(mapped), forced)
    {
      var ms, outs := ReleaseEach(mapped, forced);
      assert forall k :: 0 <= k < |ms| ==> ms[k].id == mapped[k].id;
      assert Consistent(ms, seed);
      InitializedConsistent(ms, seed);
      mapped, destroyed := Initialized(ms), destroyed + outs;
    }

    /**
     * `compress()`; `sorted` is the list as `std::sort` leaves it, which the
     * model takes as given since `std::sort` is not stable.
     */
    method Compress(sorted: seq<Entry<I, O>>)
      requires Valid() && SortsByCounter(mapped, sorted)
      modifies this`mapped, this`destroyed
      ensures Valid()
      ensures var r := Compressed(old(mapped), sorted, size); mapped == r.mapped && destroyed == old(destroyed) + r.destroyed
    {
      CompressConsistent(mapped, sorted, size, seed);
      var count := InitCount(mapped);
      if count > size {
        var ms, outs := FreeInOrder(sorted, count, size);
        mapped, destroyed := ms, destroyed + outs;
      }
    }
  }

  /** The first loop of `releaseAll`: free every releasable entry, collecting the destroyed outputs. */
  method ReleaseEach<I, O>(m: seq<Entry<I, O>>, forced: bool) returns (ms: seq<Entry<I, O>>, outs: seq<O>)
    ensures ms == ReleasedAll(m, forced) && outs == ReleasedOutputs(m, forced)
  {
    ms, outs := m, [];
    for i := 0 to |m|
      invariant |ms| == |m|
      invariant forall k :: 0 <= k < i ==> ms[k] == Released(m[k], forced)
      invariant forall k :: i <= k < |m| ==> ms[k] == m[k]
      invariant outs == ReleasedOutputs(m[..i], forced)
    {
      assert m[..i + 1][..i] == m[..i];
      if ms[i].initialized && (!ms[i].locked || forced) {
        outs := outs + [ms[i].output];
        ms := ms[i := ms[i].(initialized := false, locked := false)];
      }
    }
    assert m[..|m|] == m;
  }

  /** One step of `Evict` at position `i` of `s`. */
  lemma EvictAt<I, O>(s: seq<Entry<I, O>>, i: nat, count: int, size: nat)
    requires i < |s|
    ensures var e, next := Evict(s[i..], count, size), Evict(s[i + 1..], if Evictable(s[i]) then count - 1 else count, size);
      if !Evictable(s[i]) then e == Eviction([s[i]] + next.mapped, next.destroyed)
      else if count - 1 <= size then e == Eviction([Freed(s[i])] + s[i + 1..], [s[i].output])
      else e == Eviction([Freed(s[i])] + next.mapped, [s[i].output] + next.destroyed)
  {
    assert s[i..][0] == s[i] && s[i..][1..] == s[i + 1..];
  }

  /** The freeing loop of `compress` over the sorted list, starting from `count` initialised entries. */
  /** `Evict` over the entries of `s` from index `i` on, indexed rather than sliced. */
  ghost function EvictFrom<I, O>(s: seq<Entry<I, O>>, i: nat, count: int, size: nat): Eviction<I, O>
    requires i <= |s|
    decreases |s| - i
  {
    if i == |s| then Eviction([], [])
    else if Evictable(s[i]) then
      if count - 1 <= size then Eviction([Freed(s[i])] + s[i + 1..], [s[i].output])
      else
        var rest := EvictFrom(s, i + 1, count - 1, size);
        Eviction([Freed(s[i])] + rest.mapped, [s[i].output] + rest.destroyed)
    else
      var rest := EvictFrom(s, i + 1, count, size);
      Eviction([s[i]] + rest.mapped, rest.destroyed)
  }

  lemma {:induction false} EvictFromSlice<I, O>(s: seq<Entry<I, O>>, i: nat, count: int, size: nat)
    requires i <= |s|
    ensures EvictFrom(s, i, count, size) == Evict(s[i..], count, size)
    decreases |s| - i
  {
    if i < |s| {
      EvictFromSlice(s, i + 1, count - 1, size);
      EvictFromSlice(s, i + 1, count, size);
      EvictAt(s, i, count, size);
    }
  }

  /** One entry of `compress`'s loop that stays mapped: it is kept as it is. */
  lemma KeepStep<I, O>(s: seq<Entry<I, O>>, i: nat, left: int, size: nat, ms: seq<Entry<I, O>>, ms': seq<Entry<I, O>>, final: seq<Entry<I, O>>)
    requires i < |s| && !Evictable(s[i]) && ms' == ms + [s[i]]
    requires ms + EvictFrom(s, i, left, size).mapped == final
    ensures ms' + EvictFrom(s, i + 1, left, size).mapped == final
  {
    var next := EvictFrom(s, i + 1, left, size);
    assert ms + ([s[i]] + next.mapped) == ms' + next.mapped;
  }

  /** One entry of `compress`'s loop that is freed while more entries remain to be freed. */
  lemma FreeStep<I, O>(s: seq<Entry<I, O>>, i: nat, left: int, size: nat, ms: seq<Entry<I, O>>, outs: seq<O>, ms': seq<Entry<I, O>>, outs': seq<O>, final: Eviction<I, O>)
    requires i < |s| && Evictable(s[i]) && left - 1 > size && ms' == ms + [Freed(s[i])] && outs' == outs + [s[i].output]
    requires ms + EvictFrom(s, i, left, size).mapped == final.mapped && outs + EvictFrom(s, i, left, size).destroyed == final.destroyed
    ensures ms' + EvictFrom(s, i + 1, left - 1, size).mapped == final.mapped
    ensures outs' + EvictFrom(s, i + 1, left - 1, size).destroyed == final.destroyed
  {
    var next := EvictFrom(s, i + 1, left - 1, size);
    assert ms + ([Freed(s[i])] + next.mapped) == ms' + next.mapped;
    assert outs + ([s[i].output] + next.destroyed) == outs' + next.destroyed;
  }

  method FreeInOrder<I, O>(sorted: seq<Entry<I, O>>, count: int, size: nat) returns (ms: seq<Entry<I, O>>, outs: seq<O>)
    ensures Eviction(ms, outs) == Evict(sorted, count, size)
  {
    ghost var final := EvictFrom(sorted, 0, count, size);
    EvictFromSlice(sorted, 0, count, size);
    assert sorted[0..] == sorted;
    ms, outs := [], [];
    var left := count;
    var i := 0;
    while i < |sorted|
      invariant 0 <= i <= |sorted|
      invariant ms + EvictFrom(sorted, i, left, size).mapped == final.mapped
      invariant outs + EvictFrom(sorted, i, left, size).destroyed == final.destroyed
      decreases |sorted| - i
    {
      var e := sorted[i];
      ghost var ms0, outs0 := ms, outs;
      if e.initialized && !e.locked {
        if left - 1 <= size {
          assert ms + ([Freed(e)] + sorted[i + 1..]) == ms + [Freed(e)] + sorted[i + 1..];
          ms := ms + [Freed(e)] + sorted[i + 1..];
          outs := outs + [e.output];
          return;
        }
        ms := ms + [Freed(e)];
        outs := outs + [e.output];
        FreeStep(sorted, i, left, size, ms0, outs0, ms, outs, final);
        left := left - 1;
      } else {
        ms := ms + [e];
        KeepStep(sorted, i, left, size, ms0, ms, final.mapped);
      }
      i := i + 1;
    }
  }

  // ---------------------------------------------------------------------
  // Finding: a rebuilt entry stays uninitialised (LinearCache.h:44-45)
  // ---------------------------------------------------------------------

  /**
   * As written: `get` on an entry that `compress` freed rebuilds its output
   * but leaves it uninitialised, so a forced `releaseAll` drops the entry
   * without destroying that output.
   */
  lemma RebuiltOutputLeaksAsWritten<I, O>(input: I, old_output: O, mapper: I -> O)
    ensures var m := [Entry(input, old_output, false, false, 3, 1)];
      var g := GetResultAsWritten(m, 2, input, false, mapper);
      g.output == mapper(input) && !g.mapped[0].initialized &&
      ReleasedOutputs(g.mapped, true) == [] && Kept(g.mapped, true) == []
  {
    var m := [Entry(input, old_output, false, false, 3, 1)];
    assert FirstFree(m, input) == Some(0);
    var g := GetResultAsWritten(m, 2, input, false, mapper);
    assert g.mapped[..0] == [];
  }

  /** With the entry marked initialised, a forced `releaseAll` destroys whatever `get` returned. */
  lemma GetOutputDestroyedOnRelease<I, O>(m: seq<Entry<I, O>>, seed: nat, input: I, lock: bool, mapper: I -> O)
    ensures var g := GetResult(m, seed, input, lock, mapper);
      g.output in ReleasedOutputs(g.mapped, true)
  {
    var g := GetResult(m, seed, input, lock, mapper);
    match FirstFree(m, input)
    case Some(i) =>
      ForcedReleaseDestroys(g.mapped, i);
    case None =>
      ForcedReleaseDestroys(g.mapped, |m|);
  }
}
