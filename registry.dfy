/**
 * The registry of in-flight computations (the `Tasks` dictionary of
 * TaskMultiplexer.cs) as a value: a map from key to the identity of the
 * shared entry computing it, with the two atomic primitives the multiplexer
 * uses on it (insert-if-absent and unconditional removal), and the fold that
 * the batch path's install loop performs over its key list.
 */
module Registry {

  /** The identity of an entry (the reference identity of a `Lazy<Task<...>>`). */
  type EntryId = nat

  /** What one `GetOrAdd` leaves behind: the new registry and the entry it returned. */
  datatype Installed<K> = Installed(registry: map<K, EntryId>, entry: EntryId)

  /**
   * ConcurrentDictionary.GetOrAdd as one atomic step: the entry already
   * registered for `key` is returned and nothing changes; otherwise
   * `candidate` is installed for `key` alone and returned.
   */
  function GetOrAdd<K>(registry: map<K, EntryId>, key: K, candidate: EntryId): (r: Installed<K>)
    ensures key in r.registry && r.registry[key] == r.entry
    ensures key in registry ==> r.entry == registry[key] && r.registry == registry
    ensures key !in registry ==> r.entry == candidate && r.registry.Keys == registry.Keys + {key}
    ensures forall k :: k in registry ==> k in r.registry && r.registry[k] == registry[k]
  {
    if key in registry then Installed(registry, registry[key])
    else Installed(registry[key := candidate], candidate)
  }

  /**
   * ConcurrentDictionary.TryRemove with the removed value discarded: the key is
   * gone afterwards, every other mapping is kept, and removing an absent key
   * changes nothing.
   */
  function TryRemove<K>(registry: map<K, EntryId>, key: K): (r: map<K, EntryId>)
    ensures key !in r
    ensures r.Keys == registry.Keys - {key}
    ensures forall k :: k in r ==> r[k] == registry[k]
    ensures key !in registry ==> r == registry
  {
    registry - {key}
  }

  /** The keys of `keys` that `registry` does not hold, in order, repetitions kept. */
  function Unregistered<K>(keys: seq<K>, registry: map<K, EntryId>): seq<K>
  {
    if keys == [] then []
    else
      var rest := Unregistered(keys[..|keys| - 1], registry);
      if keys[|keys| - 1] in registry then rest else rest + [keys[|keys| - 1]]
  }

  /** A key is won by some occurrence exactly when it is requested and not registered. */
  lemma {:induction false} UnregisteredMembers<K>(keys: seq<K>, registry: map<K, EntryId>)
    ensures forall k :: k in Unregistered(keys, registry) <==> k in keys && k !in registry
  {
    if keys != [] {
      var init := keys[..|keys| - 1];
      assert keys == init + [keys[|keys| - 1]];
      UnregisteredMembers(init, registry);
    }
  }

  /**
   * With none of the requested keys registered, every occurrence is won: the
   * whole list, repetitions included (no deduplication happens).
   */
  lemma {:induction false} UnregisteredAllFresh<K>(keys: seq<K>, registry: map<K, EntryId>)
    requires forall k :: k in keys ==> k !in registry
    ensures Unregistered(keys, registry) == keys
  {
    if keys != [] {
      var init := keys[..|keys| - 1];
      assert keys == init + [keys[|keys| - 1]];
      UnregisteredAllFresh(init, registry);
    }
  }

  /** Nothing is won exactly when every requested key is already registered. */
  lemma UnregisteredEmpty<K>(keys: seq<K>, registry: map<K, EntryId>)
    ensures Unregistered(keys, registry) == [] <==> forall k :: k in keys ==> k in registry
  {
  }

  /**
   * The state of the batch path's install loop: the registry so far, the keys
   * this call won (`newKeys`, in order, repetitions kept) and the entries it
   * found already registered (`existingValuesTasks`, one per key).
   */
  datatype Partition<K> = Partition(registry: map<K, EntryId>, newKeys: seq<K>, existing: map<K, EntryId>)

  /**
   * One iteration of the install loop: `GetOrAdd` the candidate for `key`;
   * the key is won when that returns the candidate itself (which it also does
   * for a key this call already won), and joined otherwise.
   */
  function Offered<K>(p: Partition<K>, key: K, candidate: EntryId): Partition<K>
  {
    var installed := GetOrAdd(p.registry, key, candidate);
    if installed.entry == candidate then p.(registry := installed.registry, newKeys := p.newKeys + [key])
    else p.(registry := installed.registry, existing := p.existing[key := installed.entry])
  }

  /** The install loop over `keys`, in order, as a left fold of `Offered`. */
  function PartitionKeys<K>(registry: map<K, EntryId>, keys: seq<K>, candidate: EntryId): Partition<K>
  {
    if keys == [] then Partition(registry, [], map[])
    else Offered(PartitionKeys(registry, keys[..|keys| - 1], candidate), keys[|keys| - 1], candidate)
  }

  lemma PartitionKeysStep<K>(registry: map<K, EntryId>, keys: seq<K>, i: nat, candidate: EntryId)
    requires i < |keys|
    ensures PartitionKeys(registry, keys[..i + 1], candidate)
         == Offered(PartitionKeys(registry, keys[..i], candidate), keys[i], candidate)
  {
    assert keys[..i + 1][..i] == keys[..i];
  }

  /**
   * With a fresh candidate, the install loop splits the requested keys
   * exactly: the keys won are the unregistered ones (repetitions kept), each
   * now routed to the candidate; the keys joined are the registered ones,
   * each paired with the entry it was registered to; no key is both; and the
   * mappings that were there before are untouched.
   */
  lemma {:induction false} PartitionIsExact<K>(registry: map<K, EntryId>, keys: seq<K>, candidate: EntryId)
    requires forall k :: k in registry ==> registry[k] != candidate
    ensures var p := PartitionKeys(registry, keys, candidate);
      && p.newKeys == Unregistered(keys, registry)
      && (forall k :: k in keys ==> (k in p.newKeys <==> k !in p.existing))
      && (forall k :: k in p.existing <==> k in keys && k in registry)
      && (forall k :: k in p.existing ==> p.existing[k] == registry[k])
      && (forall k :: k in p.registry <==> k in registry || k in keys)
      && (forall k :: k in registry ==> p.registry[k] == registry[k])
      && (forall k :: k in keys && k !in registry ==> p.registry[k] == candidate)
  {
    UnregisteredMembers(keys, registry);
    if keys != [] {
      var init := keys[..|keys| - 1];
      var key := keys[|keys| - 1];
      assert keys == init + [key];
      PartitionIsExact(registry, init, candidate);
      UnregisteredMembers(init, registry);
      var p := PartitionKeys(registry, init, candidate);
      if key in registry {
        assert p.registry[key] == registry[key] != candidate;
      } else if key in init {
        assert p.registry[key] == candidate;
      }
    }
  }

  /**
   * A batch entry's cleanup removes its key list one `TryRemove` at a time.
   * When the list repeats a key (entry 0 won 7 twice), a single-key caller
   * can run between the two removals: the first frees 7, the caller installs
   * its entry 1 for it, and the second removal evicts entry 1's registration
   * while entry 1 is still computing. The next caller then installs entry 2,
   * so two computations of 7 are in flight at once.
   */
  lemma RepeatedKeyEvictsNewOwner()
    ensures var afterFirst := TryRemove(map[7 := 0], 7);
            var single := GetOrAdd(afterFirst, 7, 1);
            var afterSecond := TryRemove(single.registry, 7);
            var next := GetOrAdd(afterSecond, 7, 2);
            && single.entry == 1
            && 7 !in afterSecond
            && next.entry == 2
  {
  }
}
