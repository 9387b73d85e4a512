/** The duplicate cache (switchyardd/src/dedup.rs, `Dedup`).

    Every entry carries the time-to-live in force when it was recorded, and every peek prunes.
    The cache is proved to answer as the full list of records would. */
module DedupCache {
  import opened Common

  datatype Sighting = Sighting(key: string, time: int, ttl: nat)

  datatype Stamp = Stamp(time: int, ttl: nat)

  /** The most recent record of `key`. */
  function Latest(records: seq<Sighting>, key: string): Option<Sighting> {
    if records == [] then None
    else if records[|records| - 1].key == key then Some(records[|records| - 1])
    else Latest(records[..|records| - 1], key)
  }

  /** What `is_duplicate` promises: the most recent record of the key is younger than the
      time-to-live it was recorded under. */
  predicate Duplicate(records: seq<Sighting>, key: string, now: int) {
    var r := Latest(records, key);
    r.Some? && now - r.value.time < r.value.ttl
  }

  lemma {:induction false} LatestSnoc(records: seq<Sighting>, r: Sighting, key: string)
    ensures Latest(records + [r], key) == if r.key == key then Some(r) else Latest(records, key)
  {
    assert (records + [r])[..|records|] == records;
  }

  /** It is a record of the key, and nothing later on the list is. */
  lemma {:induction false} LatestIsLatest(records: seq<Sighting>, key: string) returns (n: nat)
    ensures Latest(records, key).Some? ==>
              n < |records| && records[n] == Latest(records, key).value && records[n].key == key
    ensures Latest(records, key).None? ==> n == 0
    ensures forall i | (if Latest(records, key).Some? then n + 1 else 0) <= i < |records| :: records[i].key != key
  {
    if records == [] {
      n := 0;
    } else if records[|records| - 1].key == key {
      n := |records| - 1;
    } else {
      n := LatestIsLatest(records[..|records| - 1], key);
    }
  }

  class Dedup {
    var ttl: nat
    var seen: map<string, Stamp>
    /** Every record ever made, and the time of the last call. */
    ghost var records: seq<Sighting>
    ghost var clock: int

    ghost predicate Valid()
      reads this
    {
      && (forall i | 0 <= i < |records| :: records[i].time <= clock)
      && (forall k | k in seen :: Latest(records, k) == Some(Sighting(k, seen[k].time, seen[k].ttl)))
      && (forall k :: k !in seen ==> !Duplicate(records, k, clock))
    }

    constructor (ttl: nat, ghost now: int)
      ensures Valid() && this.ttl == ttl && records == [] && clock == now
    {
      this.ttl := ttl;
      seen := map[];
      records := [];
      clock := now;
    }

    method SetTtl(ttl: nat)
      requires Valid()
      modifies this
      ensures Valid() && this.ttl == ttl && records == old(records) && clock == old(clock)
    {
      this.ttl := ttl;
    }

    /** A peek answers from the whole record history and leaves that history alone, so no peek
        changes a later answer. */
    method IsDuplicate(key: string, now: int) returns (r: bool)
      requires Valid() && clock <= now
      modifies this
      ensures Valid() && clock == now && ttl == old(ttl) && records == old(records)
      ensures r == Duplicate(records, key, now)
    {
      clock := now;
      seen := map k | k in seen && now - seen[k].time < seen[k].ttl :: seen[k];
      r := key in seen;
    }

    method Record(key: string, now: int)
      requires Valid() && clock <= now
      modifies this
      ensures Valid() && clock == now && ttl == old(ttl)
      ensures records == old(records) + [Sighting(key, now, ttl)]
    {
      clock := now;
      seen := seen[key := Stamp(now, ttl)];
      records := records + [Sighting(key, now, ttl)];
      forall k ensures Latest(records, k)
                    == if k == key then Some(Sighting(key, now, ttl)) else Latest(old(records), k)
      {
        LatestSnoc(old(records), Sighting(key, now, ttl), k);
      }
    }
  }
}
