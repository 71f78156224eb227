/**
 * TaskMultiplexer<TKey, T> (TaskMultiplexer.cs) as a sequential state machine.
 *
 * Every public call of the source is split into the atomic steps that other
 * callers can interleave with: a `GetOrAdd` on the registry, the arming of a
 * batch entry's key list (`TaskCompletionSource.SetResult`), the settlement of
 * an entry (its factory runs once, then its keys are evicted in `finally`),
 * and the awaiting caller reading the settled outcome. The registry (`Tasks`)
 * is a map from key to entry identity; the entries (the `Lazy` objects) are
 * a table indexed by identity.
 */
module TaskMultiplexing {
  import opened Wrappers
  import opened Registry

  /** An exception thrown by a value factory. */
  datatype Exception = Exception(message: string)

  /** Which `CreateLazyValuesTask` overload built the entry. */
  datatype Kind = Single | Batch

  /** The entry's task: not yet settled, or settled with a value map or an exception. */
  datatype Status<K, V> = Pending | Succeeded(values: map<K, V>) | Failed(error: Exception)

  /**
   * A shared entry. `keys` are the keys it owns: `[key]` for a single-key
   * entry, and for a batch entry the `newKeys` list its creating call builds
   * (repetitions kept). `closed` says that list is final: always for a
   * single-key entry, and for a batch entry once its call's install loop has
   * ended. `armed` says the factory's argument is known: always for a
   * single-key entry, after `SetResult(newKeys)` for a batch entry, which
   * happens only when the list is not empty.
   */
  datatype Entry<K, V> = Entry(kind: Kind, keys: seq<K>, closed: bool, armed: bool, status: Status<K, V>)

  /** One call of a caller-supplied factory, with the argument it received. */
  datatype Invocation<K> = ValueFactory(id: EntryId, key: K) | ValuesFactory(id: EntryId, keys: seq<K>)

  /** The factory call an entry makes when it runs. */
  function FactoryCall<K, V>(id: EntryId, e: Entry<K, V>): (r: Invocation<K>)
    requires e.kind == Single ==> |e.keys| == 1
    ensures r.id == id
    ensures r.ValueFactory? <==> e.kind == Single
    ensures r.ValueFactory? ==> r.key in e.keys
    ensures r.ValuesFactory? ==> r.keys == e.keys
  {
    if e.kind == Single then ValueFactory(id, e.keys[0]) else ValuesFactory(id, e.keys)
  }

  /** The status an entry settles with, from what its factory produced. */
  function Settled<K, V>(outcome: Result<map<K, V>, Exception>): (s: Status<K, V>)
    ensures !s.Pending?
    ensures s.Succeeded? <==> outcome.Success?
    ensures s.Succeeded? ==> s.values == outcome.value
    ensures s.Failed? ==> s.error == outcome.error
  {
    match outcome
    case Success(values) => Succeeded(values)
    case Failure(e) => Failed(e)
  }

  /**
   * The invariant of the multiplexer: a key is registered exactly when a
   * pending entry owns it, and then it is registered to that entry; an entry
   * settles only once armed, and is armed only with some key and once its key
   * list is final; and the factory log holds at most one call per entry, only
   * for a settled entry, and with that entry's argument.
   */
  ghost predicate Consistent<K, V>(registry: map<K, EntryId>, entries: seq<Entry<K, V>>, invocations: seq<Invocation<K>>)
  {
    && (forall k :: k in registry ==>
          registry[k] < |entries| && entries[registry[k]].status.Pending? && k in entries[registry[k]].keys)
    && (forall id, k :: 0 <= id < |entries| && entries[id].status.Pending? && k in entries[id].keys ==>
          k in registry && registry[k] == id)
    && (forall id :: 0 <= id < |entries| && entries[id].kind == Single ==> |entries[id].keys| == 1 && entries[id].armed)
    && (forall id :: 0 <= id < |entries| && entries[id].armed ==> entries[id].closed)
    && (forall id :: 0 <= id < |entries| && entries[id].armed ==> entries[id].keys != [])
    && (forall id :: 0 <= id < |entries| && !entries[id].status.Pending? ==> entries[id].armed)
    && (forall i :: 0 <= i < |invocations| ==>
          && invocations[i].id < |entries|
          && !entries[invocations[i].id].status.Pending?
          && invocations[i] == FactoryCall(invocations[i].id, entries[invocations[i].id]))
    && (forall i, j :: 0 <= i < j < |invocations| ==> invocations[i].id != invocations[j].id)
  }

  /** At most one computation is in flight per key: two pending entries never share a key. */
  lemma OneComputationPerKey<K, V>(registry: map<K, EntryId>, entries: seq<Entry<K, V>>, invocations: seq<Invocation<K>>,
                                   a: EntryId, b: EntryId, k: K)
    requires Consistent(registry, entries, invocations)
    requires a < |entries| && entries[a].status.Pending? && k in entries[a].keys
    requires b < |entries| && entries[b].status.Pending? && k in entries[b].keys
    ensures a == b
  {
    assert k in registry && registry[k] == a;
    assert registry[k] == b;
  }

  /** A `GetOrAdd` of a fresh single-key entry (the single-key path) keeps the invariant. */
  lemma JoinKeepsConsistent<K, V>(registry: map<K, EntryId>, entries: seq<Entry<K, V>>, invocations: seq<Invocation<K>>, key: K)
    requires Consistent(registry, entries, invocations)
    ensures var installed := GetOrAdd(registry, key, |entries|);
      Consistent(installed.registry,
                 if installed.entry == |entries| then entries + [Entry(Single, [key], true, true, Pending)] else entries,
                 invocations)
  {
    var installed := GetOrAdd(registry, key, |entries|);
    if installed.entry == |entries| {
      var entries' := entries + [Entry(Single, [key], true, true, Pending)];
      assert key !in registry;
      forall id, k | 0 <= id < |entries'| && entries'[id].status.Pending? && k in entries'[id].keys
        ensures k in installed.registry && installed.registry[k] == id
      {
        if id < |entries| {
          assert entries'[id] == entries[id];
        }
      }
    }
  }

  /** A new batch entry that owns no key yet keeps the invariant. */
  lemma CreateKeepsConsistent<K, V>(registry: map<K, EntryId>, entries: seq<Entry<K, V>>, invocations: seq<Invocation<K>>)
    requires Consistent(registry, entries, invocations)
    ensures Consistent(registry, entries + [Entry(Batch, [], false, false, Pending)], invocations)
  {
  }

  /**
   * One `GetOrAdd` of the batch install loop keeps the invariant: a key the
   * batch entry, still open, wins is appended to its key list.
   */
  lemma OfferKeepsConsistent<K, V>(registry: map<K, EntryId>, entries: seq<Entry<K, V>>, invocations: seq<Invocation<K>>,
                                   id: EntryId, key: K)
    requires Consistent(registry, entries, invocations)
    requires id < |entries| && entries[id].kind == Batch && !entries[id].closed
    ensures var installed := GetOrAdd(registry, key, id);
      Consistent(installed.registry,
                 if installed.entry == id then entries[id := entries[id].(keys := entries[id].keys + [key])] else entries,
                 invocations)
  {
    var installed := GetOrAdd(registry, key, id);
    if installed.entry == id {
      var entries' := entries[id := entries[id].(keys := entries[id].keys + [key])];
      assert entries[id].status.Pending?;
      forall k | k in installed.registry
        ensures installed.registry[k] < |entries'| && entries'[installed.registry[k]].status.Pending?
        ensures k in entries'[installed.registry[k]].keys
      {
        if k != key {
          assert k in registry;
        }
      }
      forall i | 0 <= i < |invocations|
        ensures invocations[i] == FactoryCall(invocations[i].id, entries'[invocations[i].id])
      {
        assert invocations[i].id != id;
      }
    }
  }

  /** Closing an open batch entry, armed exactly when it owns some key, keeps the invariant. */
  lemma ArmKeepsConsistent<K, V>(registry: map<K, EntryId>, entries: seq<Entry<K, V>>, invocations: seq<Invocation<K>>,
                                 id: EntryId)
    requires Consistent(registry, entries, invocations)
    requires id < |entries| && entries[id].kind == Batch && !entries[id].closed
    ensures Consistent(registry, entries[id := entries[id].(closed := true, armed := entries[id].keys != [])], invocations)
  {
  }

  /** Updating a sequence twice at one index keeps the second value only. */
  lemma UpdatedTwice<T>(s: seq<T>, i: nat, first: T, second: T)
    requires i < |s|
    ensures s[i := first][i := second] == s[i := second]
  {
  }

  /** Updating the element just appended is appending the new value. */
  lemma AppendedThenUpdated<T>(s: seq<T>, appended: T, updated: T)
    ensures (s + [appended])[|s| := updated] == s + [updated]
  {
  }

  /**
   * Settling an armed pending entry keeps the invariant once exactly its keys
   * are evicted and its factory call is logged; the keys evicted are exactly
   * those registered to it.
   */
  lemma SettleKeepsConsistent<K, V>(registry: map<K, EntryId>, entries: seq<Entry<K, V>>, invocations: seq<Invocation<K>>,
                                    id: EntryId, status: Status<K, V>, registry': map<K, EntryId>)
    requires Consistent(registry, entries, invocations)
    requires id < |entries| && entries[id].armed && entries[id].status.Pending? && !status.Pending?
    requires forall k :: k in registry' <==> k in registry && k !in entries[id].keys
    requires forall k :: k in registry' ==> registry'[k] == registry[k]
    ensures Consistent(registry', entries[id := entries[id].(status := status)],
                       invocations + [FactoryCall(id, entries[id])])
    ensures forall k :: k in registry' <==> k in registry && registry[k] != id
  {
    var entries' := entries[id := entries[id].(status := status)];
    var invocations' := invocations + [FactoryCall(id, entries[id])];
    forall i | 0 <= i < |invocations|
      ensures invocations[i].id != id
    {
    }
    forall i | 0 <= i < |invocations'|
      ensures invocations'[i].id < |entries'| && !entries'[invocations'[i].id].status.Pending?
      ensures invocations'[i] == FactoryCall(invocations'[i].id, entries'[invocations'[i].id])
    {
      if i < |invocations| {
        assert invocations'[i] == invocations[i];
      }
    }
    forall k | k in registry'
      ensures registry'[k] < |entries'| && entries'[registry'[k]].status.Pending? && k in entries'[registry'[k]].keys
    {
      assert registry[k] != id;
    }
    forall j, k | 0 <= j < |entries'| && entries'[j].status.Pending? && k in entries'[j].keys
      ensures k in registry' && registry'[k] == j
    {
      assert j != id && entries'[j] == entries[j];
      assert registry[k] == j;
    }
    forall k | k in registry && registry[k] != id
      ensures k !in entries[id].keys
    {
    }
  }

  /**
   * A batch call after its install loop: `NoKeys` for an empty key list;
   * otherwise the call's own entry and the entries it joined, one per
   * requested key found registered (`existingValuesTasks`).
   */
  datatype BatchCall<K> = NoKeys | InFlight(id: EntryId, existing: map<K, EntryId>)

  class TaskMultiplexer<K(==), V> {
    /** `Tasks`: the key each in-flight entry is registered under. */
    var registry: map<K, EntryId>
    /** Every entry ever built, indexed by identity. */
    var entries: seq<Entry<K, V>>
    /** Every factory call made so far, in order. */
    var invocations: seq<Invocation<K>>

    ghost predicate Valid()
      reads this
    {
      Consistent(registry, entries, invocations)
    }

    /** `call` refers to a batch entry of this multiplexer and to entries it holds. */
    ghost predicate Tracks(call: BatchCall<K>)
      reads this
    {
      call.InFlight? ==>
        && call.id < |entries|
        && entries[call.id].kind == Batch
        && (forall k :: k in call.existing ==> call.existing[k] < |entries|)
    }

    constructor ()
      ensures Valid()
      ensures registry == map[] && entries == [] && invocations == []
    {
      registry := map[];
      entries := [];
      invocations := [];
    }

    /**
     * The first step of single-key `GetMultiplexed`: `GetOrAdd` with a fresh
     * single-key entry. A registered key returns its entry and changes
     * nothing; an absent key gets a new pending entry that owns it alone.
     */
    method BeginSingle(key: K) returns (id: EntryId)
      requires Valid()
      modifies this
      ensures Valid()
      ensures id < |entries| && key in registry && registry[key] == id
      ensures invocations == old(invocations)
      ensures key in old(registry) ==>
        id == old(registry)[key] && registry == old(registry) && entries == old(entries)
      ensures key !in old(registry) ==>
        && id == |old(entries)|
        && entries == old(entries) + [Entry(Single, [key], true, true, Pending)]
        && registry == old(registry)[key := id]
    {
      JoinKeepsConsistent(registry, entries, invocations, key);
      var installed := GetOrAdd(registry, key, |entries|);
      if installed.entry == |entries| {
        entries := entries + [Entry(Single, [key], true, true, Pending)];
      }
      registry := installed.registry;
      id := installed.entry;
    }

    /**
     * The single-key entry's task: the factory is called once with its key,
     * its value (or exception) becomes the entry's outcome as a one-key map,
     * and the key is evicted whatever the outcome.
     */
    method SettleSingle(id: EntryId, outcome: Result<V, Exception>)
      requires Valid()
      requires id < |entries| && entries[id].kind == Single && entries[id].status.Pending?
      modifies this
      ensures Valid()
      ensures invocations == old(invocations) + [ValueFactory(id, old(entries)[id].keys[0])]
      ensures entries == old(entries)[id := old(entries)[id].(status :=
        Settled(match outcome case Success(v) => Success(map[old(entries)[id].keys[0] := v])
                              case Failure(e) => Failure(e)))]
      ensures old(entries)[id].keys[0] !in registry
      ensures forall k :: k in registry <==> k in old(registry) && old(registry)[k] != id
      ensures forall k :: k in registry ==> registry[k] == old(registry)[k]
    {
      ghost var registry0, entries0, invocations0 := registry, entries, invocations;
      var key := entries[id].keys[0];
      invocations := invocations + [ValueFactory(id, key)];
      var values := match outcome case Success(v) => Success(map[key := v]) case Failure(e) => Failure(e);
      entries := entries[id := entries[id].(status := Settled(values))];
      Remove(key);
      SettleKeepsConsistent(registry0, entries0, invocations0, id, Settled(values), registry);
    }

    /**
     * The rest of single-key `GetMultiplexed`, once the entry has settled: a
     * failure is rethrown to the caller; otherwise the key's value, or
     * `None` (the source's `default`) when the value map lacks the key.
     */
    method FinishSingle(id: EntryId, key: K) returns (r: Result<Option<V>, Exception>)
      requires id < |entries| && !entries[id].status.Pending?
      ensures r.Failure? <==> entries[id].status.Failed?
      ensures r.Failure? ==> r.error == entries[id].status.error
      ensures r == Success(None) <==> entries[id].status.Succeeded? && key !in entries[id].status.values
      ensures forall v :: r == Success(Some(v)) <==>
        entries[id].status.Succeeded? && key in entries[id].status.values && entries[id].status.values[key] == v
    {
      match entries[id].status
      case Failed(e) =>
        r := Failure(e);
      case Succeeded(values) =>
        r := Success(if key in values then Some(values[key]) else None);
    }

    /** Creating the batch call's candidate entry; nothing is registered yet. */
    method CreateBatch() returns (call: BatchCall<K>)
      requires Valid()
      modifies this
      ensures Valid() && Tracks(call)
      ensures call == InFlight(|old(entries)|, map[])
      ensures entries == old(entries) + [Entry(Batch, [], false, false, Pending)]
      ensures registry == old(registry) && invocations == old(invocations)
    {
      CreateKeepsConsistent(registry, entries, invocations);
      call := InFlight(|entries|, map[]);
      entries := entries + [Entry(Batch, [], false, false, Pending)];
    }

    /**
     * One iteration of the batch install loop: `GetOrAdd` the call's own
     * entry for `key`. If that returns the call's entry, the key is appended
     * to the entry's key list (again, when repeated); otherwise the entry
     * found is recorded for the key.
     */
    method Offer(call: BatchCall<K>, key: K) returns (next: BatchCall<K>)
      requires Valid() && Tracks(call) && call.InFlight? && !entries[call.id].closed
      modifies this
      ensures Valid() && Tracks(next) && next.InFlight? && next.id == call.id
      ensures invocations == old(invocations)
      ensures var installed := GetOrAdd(old(registry), key, call.id);
        && registry == installed.registry
        && (installed.entry == call.id ==>
              && entries == old(entries)[call.id := old(entries)[call.id].(keys := old(entries)[call.id].keys + [key])]
              && next == call)
        && (installed.entry != call.id ==>
              && entries == old(entries)
              && next == call.(existing := call.existing[key := installed.entry]))
    {
      OfferKeepsConsistent(registry, entries, invocations, call.id, key);
      var installed := GetOrAdd(registry, key, call.id);
      registry := installed.registry;
      if installed.entry == call.id {
        entries := entries[call.id := entries[call.id].(keys := entries[call.id].keys + [key])];
        next := call;
      } else {
        next := call.(existing := call.existing[key := installed.entry]);
      }
    }

    /**
     * The end of the install loop: the entry's key list is final, and
     * `SetResult(newKeys)` is done only when the call won some key: this is
     * what lets the entry's task call the factory. An entry that won nothing
     * is closed unarmed, so its task never runs.
     */
    method Arm(call: BatchCall<K>)
      requires Valid() && Tracks(call) && call.InFlight? && !entries[call.id].closed
      modifies this
      ensures Valid()
      ensures registry == old(registry) && invocations == old(invocations)
      ensures entries == old(entries)[call.id := old(entries)[call.id].(closed := true, armed := old(entries)[call.id].keys != [])]
    {
      ArmKeepsConsistent(registry, entries, invocations, call.id);
      entries := entries[call.id := entries[call.id].(closed := true, armed := entries[call.id].keys != [])];
    }

    /**
     * Batch `GetMultiplexed` up to the point where it awaits: no state change
     * for an empty key list; otherwise a new entry, the install loop over the
     * keys in order, and the arming of the entry with the keys it won.
     */
    method BeginBatch(keys: seq<K>) returns (call: BatchCall<K>)
      requires Valid()
      modifies this
      ensures Valid() && Tracks(call)
      ensures invocations == old(invocations)
      ensures keys == [] ==> call == NoKeys && registry == old(registry) && entries == old(entries)
      ensures keys != [] ==>
        var newKeys := Unregistered(keys, old(registry));
        && call.InFlight? && call.id == |old(entries)|
        && entries == old(entries) + [Entry(Batch, newKeys, true, newKeys != [], Pending)]
        && (forall k :: k in keys ==> (k in newKeys <==> k !in call.existing))
        && (forall k :: k in call.existing <==> k in keys && k in old(registry))
        && (forall k :: k in call.existing ==> call.existing[k] == old(registry)[k])
        && (forall k :: k in registry <==> k in old(registry) || k in keys)
        && (forall k :: k in old(registry) ==> registry[k] == old(registry)[k])
        && (forall k :: k in keys && k !in old(registry) ==> registry[k] == call.id)
    {
      if keys == [] {
        return NoKeys;
      }
      ghost var entries0 := entries;
      call := CreateBatch();
      call := InstallKeys(call, keys);
      ghost var installed := entries[call.id];
      AppendedThenUpdated(entries0, Entry(Batch, [], false, false, Pending), installed);
      AppendedThenUpdated(entries0, installed, installed.(closed := true, armed := installed.keys != []));
      Arm(call);
    }

    /**
     * The install loop of batch `GetMultiplexed`: one `Offer` of the call's
     * open entry per key, in order, which is the fold `PartitionKeys` over
     * the keys starting from the registry the loop began with.
     */
    method InstallKeys(call: BatchCall<K>, keys: seq<K>) returns (next: BatchCall<K>)
      requires Valid() && Tracks(call) && call.InFlight? && call.existing == map[]
      requires entries[call.id] == Entry(Batch, [], false, false, Pending)
      modifies this
      ensures Valid() && Tracks(next) && next.InFlight? && next.id == call.id
      ensures invocations == old(invocations)
      ensures var newKeys := Unregistered(keys, old(registry));
        && entries == old(entries)[call.id := Entry(Batch, newKeys, false, false, Pending)]
        && (forall k :: k in keys ==> (k in newKeys <==> k !in next.existing))
        && (forall k :: k in next.existing <==> k in keys && k in old(registry))
        && (forall k :: k in next.existing ==> next.existing[k] == old(registry)[k])
        && (forall k :: k in registry <==> k in old(registry) || k in keys)
        && (forall k :: k in old(registry) ==> registry[k] == old(registry)[k])
        && (forall k :: k in keys && k !in old(registry) ==> registry[k] == call.id)
    {
      next := call;
      var i := 0;
      while i < |keys|
        invariant 0 <= i <= |keys|
        invariant Valid() && Tracks(next) && next.InFlight? && next.id == call.id
        invariant invocations == old(invocations)
        invariant var p := PartitionKeys(old(registry), keys[..i], call.id);
          && registry == p.registry
          && next.existing == p.existing
          && entries == old(entries)[call.id := Entry(Batch, p.newKeys, false, false, Pending)]
      {
        PartitionKeysStep(old(registry), keys, i, call.id);
        ghost var newKeys := PartitionKeys(old(registry), keys[..i], call.id).newKeys;
        UpdatedTwice(old(entries), call.id, Entry(Batch, newKeys, false, false, Pending),
                     Entry(Batch, newKeys + [keys[i]], false, false, Pending));
        next := Offer(next, keys[i]);
        i := i + 1;
      }
      assert keys[..i] == keys;
      assert forall k :: k in old(registry) ==> old(registry)[k] != call.id;
      PartitionIsExact(old(registry), keys, call.id);
    }

    /**
     * The batch entry's task, once armed: the factory is called once with the
     * entry's key list, its value map (or exception) becomes the entry's
     * outcome, and every key of the list is evicted whatever the outcome.
     */
    method SettleBatch(id: EntryId, outcome: Result<map<K, V>, Exception>)
      requires Valid()
      requires id < |entries| && entries[id].kind == Batch && entries[id].armed && entries[id].status.Pending?
      modifies this
      ensures Valid()
      ensures invocations == old(invocations) + [ValuesFactory(id, old(entries)[id].keys)]
      ensures entries == old(entries)[id := old(entries)[id].(status := Settled(outcome))]
      ensures forall k :: k in old(entries)[id].keys ==> k !in registry
      ensures forall k :: k in registry <==> k in old(registry) && old(registry)[k] != id
      ensures forall k :: k in registry ==> registry[k] == old(registry)[k]
    {
      ghost var registry0, entries0, invocations0 := registry, entries, invocations;
      var keys := entries[id].keys;
      invocations := invocations + [ValuesFactory(id, keys)];
      entries := entries[id := entries[id].(status := Settled(outcome))];
      RemoveKeys(keys);
      SettleKeepsConsistent(registry0, entries0, invocations0, id, Settled(outcome), registry);
    }

    /**
     * The rest of batch `GetMultiplexed`, once the call's own entry has
     * settled and, unless that entry failed, every joined entry has too. A
     * failure of the call's own entry is rethrown at once; otherwise the
     * whole value map of the own entry is copied (extra keys included), then
     * each joined entry is awaited in turn, rethrowing its failure or copying
     * the value of the one key it was joined for, when present. Requested keys
     * that no result holds are absent.
     */
    method FinishBatch(call: BatchCall<K>) returns (r: Result<map<K, V>, Exception>)
      requires Tracks(call)
      requires call.InFlight? && entries[call.id].keys != [] ==> !entries[call.id].status.Pending?
      requires call.InFlight? && !(entries[call.id].keys != [] && entries[call.id].status.Failed?) ==>
                 forall k :: k in call.existing ==> !entries[call.existing[k]].status.Pending?
      ensures call == NoKeys ==> r == Success(map[])
      ensures call.InFlight? ==>
        var own := entries[call.id];
        var ownFailed := own.keys != [] && own.status.Failed?;
        && (r.Failure? <==> ownFailed || exists k :: k in call.existing && entries[call.existing[k]].status.Failed?)
        && (r.Failure? && ownFailed ==> r.error == own.status.error)
        && (r.Failure? && !ownFailed ==>
              exists k :: k in call.existing && entries[call.existing[k]].status == Failed(r.error))
      ensures call.InFlight? && r.Success? ==>
        var own := OwnValues(call);
        && (forall k :: k in r.value <==> k in own || JoinedHas(call, k))
        && (forall k :: JoinedHas(call, k) ==> r.value[k] == entries[call.existing[k]].status.values[k])
        && (forall k :: k in own && !JoinedHas(call, k) ==> r.value[k] == own[k])
    {
      if call == NoKeys {
        return Success(map[]);
      }
      var values: map<K, V> := map[];
      var own := entries[call.id];
      if own.keys != [] {
        if own.status.Failed? {
          return Failure(own.status.error);
        }
        values := own.status.values;
      }
      var remaining := call.existing.Keys;
      while remaining != {}
        invariant remaining <= call.existing.Keys
        invariant forall k :: k in call.existing && k !in remaining ==> entries[call.existing[k]].status.Succeeded?
        invariant forall k :: k in values <==> k in OwnValues(call) || (k !in remaining && JoinedHas(call, k))
        invariant forall k :: k !in remaining && JoinedHas(call, k) ==>
          values[k] == entries[call.existing[k]].status.values[k]
        invariant forall k :: k in OwnValues(call) && !(k !in remaining && JoinedHas(call, k)) ==>
          values[k] == OwnValues(call)[k]
        decreases remaining
      {
        var key :| key in remaining;
        match entries[call.existing[key]].status
        case Failed(e) =>
          return Failure(e);
        case Succeeded(joined) =>
          if key in joined {
            values := values[key := joined[key]];
          }
        remaining := remaining - {key};
      }
      r := Success(values);
    }

    /** The value map the call's own entry contributes: empty when it won no key. */
    ghost function OwnValues(call: BatchCall<K>): map<K, V>
      reads this
      requires Tracks(call) && call.InFlight?
    {
      var own := entries[call.id];
      if own.keys != [] && own.status.Succeeded? then own.status.values else map[]
    }

    /** The entry joined for `k` settled with a value for `k`. */
    ghost predicate JoinedHas(call: BatchCall<K>, k: K)
      reads this
      requires Tracks(call) && call.InFlight?
    {
      k in call.existing && entries[call.existing[k]].status.Succeeded? && k in entries[call.existing[k]].status.values
    }

    /** `Remove(TKey)`: unconditional, idempotent eviction of one key. */
    method Remove(key: K)
      modifies this`registry
      ensures registry == TryRemove(old(registry), key)
    {
      registry := TryRemove(registry, key);
    }

    /** `Remove(IEnumerable<TKey>)`: evicts every key of the list, in order. */
    method RemoveKeys(keys: seq<K>)
      modifies this`registry
      ensures forall k :: k in registry <==> k in old(registry) && k !in keys
      ensures forall k :: k in registry ==> registry[k] == old(registry)[k]
    {
      for i := 0 to |keys|
        invariant forall k :: k in registry <==> k in old(registry) && k !in keys[..i]
        invariant forall k :: k in registry ==> registry[k] == old(registry)[k]
      {
        assert keys[..i + 1] == keys[..i] + [keys[i]];
        Remove(keys[i]);
      }
      assert keys[..|keys|] == keys;
    }
  }
}
