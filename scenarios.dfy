/**
 * Scenarios from TaskMultiplexerTests.cs and the behaviours around them, each
 * one interleaving of the multiplexer's atomic steps: every caller begins
 * while the entries it meets are still pending (the factories in the tests
 * take five seconds), then the entries settle, then the callers read their
 * results.
 */
module Scenarios {
  import opened Wrappers
  import opened Registry
  import opened TaskMultiplexing

  /** `n` callers ask for `key` on a fresh multiplexer: the first one creates the entry, the others join it. */
  method CallersShareEntry<V>(m: TaskMultiplexer<int, V>, key: int, n: nat) returns (ids: seq<EntryId>)
    requires m.Valid() && m.registry == map[] && m.entries == [] && m.invocations == [] && n > 0
    modifies m
    ensures m.Valid() && m.invocations == []
    ensures m.registry == map[key := 0] && m.entries == [Entry(Single, [key], true, true, Pending)]
    ensures |ids| == n && forall i :: 0 <= i < n ==> ids[i] == 0
  {
    var id := m.BeginSingle(key);
    ids := [id];
    while |ids| < n
      invariant m.Valid() && m.invocations == []
      invariant m.registry == map[key := 0] && m.entries == [Entry(Single, [key], true, true, Pending)]
      invariant |ids| <= n && forall i :: 0 <= i < |ids| ==> ids[i] == 0
    {
      id := m.BeginSingle(key);
      ids := ids + [id];
    }
  }

  /** Every caller awaiting one settled entry reads the value it holds for `key`. */
  method ReadShared<V>(m: TaskMultiplexer<int, V>, ids: seq<EntryId>, key: int, values: map<int, V>)
      returns (results: seq<Result<Option<V>, Exception>>)
    requires 0 < |m.entries| && m.entries[0].status == Succeeded(values) && key in values
    requires forall i :: 0 <= i < |ids| ==> ids[i] == 0
    ensures |results| == |ids|
    ensures forall i :: 0 <= i < |results| ==> results[i] == Success(Some(values[key]))
  {
    results := [];
    for i := 0 to |ids|
      invariant |results| == i
      invariant forall j :: 0 <= j < i ==> results[j] == Success(Some(values[key]))
    {
      var r := m.FinishSingle(ids[i], key);
      results := results + [r];
    }
  }

  /**
   * Ten callers ask for key 1 while its entry is pending: all ten share the
   * entry, the factory runs once and every caller gets its value.
   */
  method TenCallersOneKey() returns (invocationCount: nat, results: seq<Result<Option<string>, Exception>>)
    ensures invocationCount == 1
    ensures |results| == 10
    ensures forall i :: 0 <= i < |results| ==> results[i] == Success(Some("1"))
  {
    var m := new TaskMultiplexer<int, string>();
    var ids := CallersShareEntry(m, 1, 10);
    m.SettleSingle(0, Success("1"));
    results := ReadShared(m, ids, 1, map[1 := "1"]);
    invocationCount := |m.invocations|;
  }

  /**
   * A factory failure reaches every caller awaiting the entry, and is not
   * cached: the next request for the key calls the factory again.
   */
  method FailureIsNotCached() returns (first: Result<Option<string>, Exception>, second: Result<Option<string>, Exception>,
                                       retried: Result<Option<string>, Exception>, invocationCount: nat)
    ensures first == Failure(Exception("timeout")) && second == Failure(Exception("timeout"))
    ensures retried == Success(Some("1"))
    ensures invocationCount == 2
  {
    var m := new TaskMultiplexer<int, string>();
    var a := m.BeginSingle(1);
    var b := m.BeginSingle(1);
    m.SettleSingle(a, Failure(Exception("timeout")));
    first := m.FinishSingle(a, 1);
    second := m.FinishSingle(b, 1);
    var c := m.BeginSingle(1);
    assert c == 1;
    m.SettleSingle(c, Success("1"));
    retried := m.FinishSingle(c, 1);
    invocationCount := |m.invocations|;
  }

  /**
   * A single-key caller that joins a batch entry whose factory leaves its key
   * out gets the default value, and no error.
   */
  method MissingKeyYieldsDefault() returns (single: Result<Option<string>, Exception>)
    ensures single == Success(None)
  {
    var m := new TaskMultiplexer<int, string>();
    var call := m.BeginBatch([1, 2]);
    UnregisteredAllFresh([1, 2], map[]);
    var id := m.BeginSingle(2);
    m.SettleBatch(call.id, Success(map[1 := "1"]));
    single := m.FinishSingle(id, 2);
  }

  /** The entry of a caller that won keys and whose batch factory has not yet run. */
  predicate AwaitingFactory<K, V>(e: Entry<K, V>)
  {
    e.kind == Batch && e.armed && e.status.Pending?
  }

  /**
   * The entry of a caller that joined every key it asked for: its install
   * loop is over, it owns no key and it is not armed, so no step can give it
   * a key or call its batch factory.
   */
  predicate JoinedOnly<K, V>(e: Entry<K, V>)
  {
    e.kind == Batch && e.closed && e.keys == [] && !e.armed
  }

  /** A caller of the pair scenario requests [j, j + 5], neither registered, and wins both. */
  method WinPair(m: TaskMultiplexer<int, int>, j: int)
    requires m.Valid() && j !in m.registry && j + 5 !in m.registry
    modifies m
    ensures m.Valid() && m.invocations == old(m.invocations)
    ensures |m.entries| == |old(m.entries)| + 1
    ensures forall i :: 0 <= i < |old(m.entries)| ==> m.entries[i] == old(m.entries)[i]
    ensures m.entries[|old(m.entries)|] == Entry(Batch, [j, j + 5], true, true, Pending)
    ensures forall k :: k in m.registry <==> k in old(m.registry) || k == j || k == j + 5
    ensures forall k :: k in old(m.registry) ==> m.registry[k] == old(m.registry)[k]
    ensures m.registry[j] == |old(m.entries)| && m.registry[j + 5] == |old(m.entries)|
  {
    UnregisteredAllFresh([j, j + 5], m.registry);
    var call := m.BeginBatch([j, j + 5]);
  }

  /**
   * A caller of the pair scenario requests [j, j + 5], both registered, joins
   * both and wins no key, so its batch factory has nothing to compute.
   */
  method JoinPair(m: TaskMultiplexer<int, int>, j: int) returns (won: seq<int>)
    requires m.Valid() && j in m.registry && j + 5 in m.registry
    modifies m
    ensures m.Valid() && m.invocations == old(m.invocations)
    ensures m.entries == old(m.entries) + [Entry(Batch, [], true, false, Pending)]
    ensures forall k :: k in m.registry <==> k in old(m.registry)
    ensures forall k :: k in m.registry ==> m.registry[k] == old(m.registry)[k]
    ensures won == []
  {
    UnregisteredEmpty([j, j + 5], m.registry);
    var call := m.BeginBatch([j, j + 5]);
    won := m.entries[call.id].keys;
  }

  /** The first five callers request [t, t + 5] for t = 0..4 on a fresh multiplexer and win both keys. */
  method WinFivePairs(m: TaskMultiplexer<int, int>)
    requires m.Valid() && m.registry == map[] && m.entries == [] && m.invocations == []
    modifies m
    ensures m.Valid() && m.invocations == [] && |m.entries| == 5
    ensures forall k :: k in m.registry <==> 0 <= k < 10
    ensures forall j :: 0 <= j < 5 ==> AwaitingFactory(m.entries[j])
  {
    for t := 0 to 5
      invariant m.Valid() && m.invocations == [] && |m.entries| == t
      invariant forall k :: k in m.registry <==> 0 <= k < t || 5 <= k < t + 5
      invariant forall j :: 0 <= j < t ==> AwaitingFactory(m.entries[j])
    {
      WinPair(m, t);
    }
  }

  /** Appending to a concatenation appends to its second part. */
  lemma AppendedAfter<T>(front: seq<T>, back: seq<T>, last: T)
    ensures (front + back) + [last] == front + (back + [last])
  {
  }

  /** The last five callers request [t - 5, t] for t = 5..9 while all ten keys are pending: they join and win nothing. */
  method JoinFivePairs(m: TaskMultiplexer<int, int>) returns (won: seq<int>)
    requires m.Valid() && m.invocations == [] && |m.entries| == 5
    requires forall k :: k in m.registry <==> 0 <= k < 10
    requires forall j :: 0 <= j < 5 ==> AwaitingFactory(m.entries[j])
    modifies m
    ensures m.Valid() && m.invocations == [] && |m.entries| == 10
    ensures forall j :: 0 <= j < 5 ==> AwaitingFactory(m.entries[j])
    ensures forall j :: 5 <= j < 10 ==> JoinedOnly(m.entries[j])
    ensures won == []
  {
    won := [];
    ghost var winners := m.entries;
    ghost var joiners: seq<Entry<int, int>> := [];
    for t := 5 to 10
      invariant m.Valid() && m.invocations == [] && |joiners| == t - 5
      invariant forall k :: k in m.registry <==> 0 <= k < 10
      invariant m.entries == winners + joiners
      invariant forall j :: 0 <= j < |joiners| ==> JoinedOnly(joiners[j])
      invariant won == []
    {
      AppendedAfter(winners, joiners, Entry(Batch, [], true, false, Pending));
      var w := JoinPair(m, t - 5);
      joiners := joiners + [Entry(Batch, [], true, false, Pending)];
      won := won + w;
    }
  }

  /**
   * Ten callers request the pairs [t % 5, t % 5 + 5] for t = 0..9 while the
   * first five are pending: the first five win both their keys, the last five
   * join two keys each and win none, so exactly five batch factory calls
   * happen, one per winning caller. (The values stand for the keys' strings.)
   */
  method TenPairRequests() returns (invocationCount: nat, wonByJoiners: seq<int>)
    ensures invocationCount == 5
    ensures wonByJoiners == []
  {
    var m := new TaskMultiplexer<int, int>();
    WinFivePairs(m);
    wonByJoiners := JoinFivePairs(m);
    for s := 0 to 5
      invariant m.Valid() && |m.invocations| == s && |m.entries| == 10
      invariant forall j :: s <= j < 5 ==> AwaitingFactory(m.entries[j])
    {
      m.SettleBatch(s, Success(map[s := s, s + 5 := s + 5]));
    }
    invocationCount := |m.invocations|;
  }

  /** Both [0, 5] callers build their entries and offer key 0: the first wins it, the second joins it. */
  method SplitFirstKey<V>(m: TaskMultiplexer<int, V>) returns (first: BatchCall<int>, second: BatchCall<int>)
    requires m.Valid() && m.registry == map[] && m.entries == [] && m.invocations == []
    modifies m
    ensures m.Valid() && m.invocations == [] && m.registry == map[0 := 0]
    ensures |m.entries| == 2 && m.entries[0] == Entry(Batch, [0], false, false, Pending) && m.entries[1] == Entry(Batch, [], false, false, Pending)
    ensures first == InFlight(0, map[]) && second == InFlight(1, map[0 := 0])
  {
    first := m.CreateBatch();
    second := m.CreateBatch();
    ghost var none: seq<int> := [];
    assert none + [0] == [0];
    first := m.Offer(first, 0);
    second := m.Offer(second, 0);
  }

  /** Then the second caller offers key 5 and wins it, the first joins it, and both arm with the one key they won. */
  method SplitSecondKey<V>(m: TaskMultiplexer<int, V>, first: BatchCall<int>, second: BatchCall<int>)
      returns (first': BatchCall<int>, second': BatchCall<int>)
    requires m.Valid() && m.invocations == [] && m.registry == map[0 := 0]
    requires |m.entries| == 2 && m.entries[0] == Entry(Batch, [0], false, false, Pending) && m.entries[1] == Entry(Batch, [], false, false, Pending)
    requires first == InFlight(0, map[]) && second == InFlight(1, map[0 := 0])
    modifies m
    ensures m.Valid() && m.invocations == []
    ensures |m.entries| == 2 && m.entries[0] == Entry(Batch, [0], true, true, Pending) && m.entries[1] == Entry(Batch, [5], true, true, Pending)
    ensures first' == InFlight(0, map[5 := 1]) && second' == InFlight(1, map[0 := 0])
  {
    ghost var none: seq<int> := [];
    assert none + [5] == [5];
    second' := m.Offer(second, 5);
    first' := m.Offer(first, 5);
    m.Arm(first');
    m.Arm(second');
  }

  /**
   * Two callers request [0, 5] at the same time and their install loops
   * interleave: the first wins 0, the second joins 0 and wins 5, the first
   * joins 5. Each owns one key, so the one pair costs two batch factory calls,
   * one per key: the count of five in the pair test depends on its timing.
   */
  method InterleavedPairSplits() returns (invocations: seq<Invocation<int>>)
    ensures invocations == [ValuesFactory(0, [0]), ValuesFactory(1, [5])]
  {
    var m := new TaskMultiplexer<int, string>();
    var first, second := SplitFirstKey(m);
    first, second := SplitSecondKey(m, first, second);
    m.SettleBatch(0, Success(map[0 := "0"]));
    m.SettleBatch(1, Success(map[5 := "5"]));
    invocations := m.invocations;
  }

  /**
   * A key repeated in one batch request is won on each occurrence, so the
   * batch factory receives it as often as it was requested.
   */
  method RepeatedKeyReachesFactoryTwice() returns (invocation: Invocation<int>)
    ensures invocation == ValuesFactory(0, [7, 7])
  {
    var m := new TaskMultiplexer<int, string>();
    var call := m.BeginBatch([7, 7]);
    UnregisteredAllFresh([7, 7], map[]);
    m.SettleBatch(call.id, Success(map[7 := "7"]));
    invocation := m.invocations[0];
  }
}
