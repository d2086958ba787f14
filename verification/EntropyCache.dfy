/**
 The size-bounded, age-bounded directory of src/entropy_cache.cc with its small persisted summary. Every file
 operation appends the disk it leaves to a log, so a property of the whole log holds at every point where the
 process could die. The cache lock is mutual exclusion: one operation of the class at a time.
 */
module EntropyCache {
  import opened Wrappers
  import opened CacheEntries

  /** Twenty days, in seconds. */
  const MAX_AGE: nat := 1_728_000
  const SWEEP_INTERVAL: nat := 86400

  datatype Accounting = Accounting(bytes: nat, entries: nat, nextExpiry: nat, dirty: bool)

  /** accounting.json: missing, unreadable, or a record. */
  datatype AccountingFile = Absent | Malformed | Record(account: Accounting)

  /** What a crash leaves behind. */
  datatype Disk = Disk(entries: Entries, accounting: AccountingFile, lastSweep: Option<nat>)

  /** How a write can end: not attempted, an exception, no room made, or stored. */
  datatype Outcome = Skipped | Failed | Refused | Stored

  /** An unreadable time counts as zero. */
  function Expiry(e: Entry): (time: nat)
    ensures time > 0
  {
    (match e.used case Some(t) => t case None => 0) + MAX_AGE
  }

  /** Only a readable time can make an entry stale. */
  predicate Expired(e: Entry, now: nat) {
    e.used.Some? && now >= e.used.value && now - e.used.value >= MAX_AGE
  }

  /** An entry with a readable time expires when its expiry comes; any other never does, whatever its expiry. */
  lemma ExpiredMeaning(e: Entry, now: nat)
    ensures Expired(e, now) <==> e.used.Some? && Expiry(e) <= now
  {
  }

  /** A sweep is due a day after the last one, or when nobody knows of one. */
  predicate SweepWanted(d: Disk, now: nat) {
    d.lastSweep.None? || (now >= d.lastSweep.value && now - d.lastSweep.value >= SWEEP_INTERVAL)
  }

  /** The summary says how many entries there are, how large, and no expiry is earlier than it says. */
  ghost predicate Accurate(a: Accounting, m: Entries) {
    && a.bytes == SumBytes(m)
    && a.entries == |m|
    && (forall k :: k in m ==> 0 < a.nextExpiry <= Expiry(m[k]))
  }

  /** A record the next process would take at its word. */
  predicate Trusted(d: Disk) {
    d.accounting.Record? && !d.accounting.account.dirty
  }

  /** What holds of the disk at every moment. */
  ghost predicate Safe(d: Disk, ceiling: nat) {
    && (Trusted(d) ==> Accurate(d.accounting.account, d.entries))
    && SumBytes(d.entries) <= ceiling
  }

  /** No entry is newer than the clock. */
  predicate Clocked(d: Disk, now: nat) {
    forall k :: k in d.entries && d.entries[k].used.Some? ==> d.entries[k].used.value <= now
  }

  ghost predicate AllSafe(log: seq<Disk>, ceiling: nat, now: nat) {
    forall i :: 0 <= i < |log| ==> Safe(log[i], ceiling) && Clocked(log[i], now)
  }

  /** Removing entries keeps the earliest expiry a lower bound. */
  lemma AccurateAfterRemoval(a: Accounting, m: Entries, k: Key)
    requires k in m && Accurate(a, m)
    ensures SumBytes(m - {k}) == a.bytes - m[k].bytes && |m - {k}| == a.entries - 1
    ensures a.bytes >= m[k].bytes && a.entries > 0
    ensures Accurate(a.(bytes := a.bytes - m[k].bytes, entries := a.entries - 1), m - {k})
  {
    SumDrop(m, k);
  }

  /** Storing an entry that expires no earlier than the new bound. */
  lemma AccurateAfterInsert(a: Accounting, m: Entries, k: Key, e: Entry, bound: nat)
    requires Accurate(a, m - {k})
    requires 0 < bound <= Expiry(e) && (a.nextExpiry == 0 || bound <= a.nextExpiry)
    ensures Accurate(Accounting(a.bytes + e.bytes, a.entries + 1, bound, false), m[k := e])
  {
    SumInsert(m, k, e);
    forall j | j in m && j != k ensures bound <= Expiry(m[j]) {
      assert j in m - {k};
    }
  }

  class Cache {
    var disk: Disk
    var now: nat
    /** Every state the disk has been in, oldest first. */
    var log: seq<Disk>
    const limit: nat
    /** Bytes the entries may reach: the limit, or what was found at the start if that was more. */
    ghost const ceiling: nat
    /** Whether entries can be deleted; otherwise each deletion may fail. */
    const deletable: bool
    /** Whether everything else works: writing and touching files; otherwise each such operation may fail. */
    const writable: bool

    ghost predicate Valid()
      reads this
    {
      && log != [] && log[|log| - 1] == disk
      && limit <= ceiling
      && AllSafe(log, ceiling, now)
    }

    constructor (found: Disk, time: nat, limit: nat, deletable: bool, writable: bool)
      requires Trusted(found) ==> Accurate(found.accounting.account, found.entries)
      requires Clocked(found, time)
      ensures Valid() && disk == found && log == [found] && now == time
      ensures this.limit == limit && this.deletable == deletable && this.writable == writable
      ensures ceiling == if SumBytes(found.entries) > limit then SumBytes(found.entries) else limit
    {
      disk, now, log := found, time, [found];
      this.limit, this.deletable, this.writable := limit, deletable, writable;
      ceiling := if SumBytes(found.entries) > limit then SumBytes(found.entries) else limit;
    }

    // ----- Single file operations; each may fail, leaving the disk as it was

    /** The clock never goes back. */
    method Now() returns (t: nat)
      requires Valid()
      modifies `now
      ensures Valid() && old(now) <= now == t
    {
      t :| now <= t;
      now := t;
    }

    method Commit(d: Disk)
      requires Valid() && Safe(d, ceiling) && Clocked(d, now)
      modifies `disk, `log
      ensures Valid() && disk == d && log == old(log) + [d]
    {
      disk, log := d, log + [d];
    }

    method SaveAccounting(a: Accounting) returns (ok: bool)
      requires Valid() && (a.dirty || Accurate(a, disk.entries))
      modifies `disk, `log
      ensures Valid() && old(log) <= log
      ensures disk == if ok then old(disk).(accounting := Record(a)) else old(disk)
      ensures writable ==> ok
    {
      ok := *;
      ok := ok || writable;
      if ok {
        Commit(disk.(accounting := Record(a)));
      }
    }

    method InvalidateAccounting() returns (ok: bool)
      requires Valid()
      modifies `disk, `log
      ensures Valid() && old(log) <= log
      ensures disk == if ok then old(disk).(accounting := Absent) else old(disk)
      ensures writable ==> ok
    {
      ok := *;
      ok := ok || writable;
      if ok {
        Commit(disk.(accounting := Absent));
      }
    }

    method RemoveEntry(k: Key) returns (removed: bool)
      requires Valid() && !Trusted(disk)
      modifies `disk, `log
      ensures Valid() && old(log) <= log
      ensures disk == if removed then old(disk).(entries := old(disk.entries) - {k}) else old(disk)
      ensures removed ==> k in old(disk.entries)
      ensures deletable && k in old(disk.entries) ==> removed
    {
      removed := *;
      removed := k in disk.entries && (deletable || removed);
      if removed {
        SumDrop(disk.entries, k);
        Commit(disk.(entries := disk.entries - {k}));
      }
    }

    /** AtomicWriteFile of an entry: one rename. */
    method WriteEntry(k: Key, size: nat) returns (ok: bool)
      requires Valid() && !Trusted(disk) && SumBytes(disk.entries - {k}) + size <= ceiling
      modifies `disk, `log, `now
      ensures Valid() && old(log) <= log && old(now) <= now
      ensures !ok ==> disk == old(disk)
      ensures ok ==> disk == old(disk).(entries := old(disk.entries)[k := Entry(size, Some(now))])
      ensures writable ==> ok
    {
      ok := *;
      ok := ok || writable;
      var t := Now();
      if ok {
        SumInsert(disk.entries, k, Entry(size, Some(t)));
        Commit(disk.(entries := disk.entries[k := Entry(size, Some(t))]));
      }
    }

    /** last_write_time; a failure is ignored, as is a missing file. */
    method TouchEntry(k: Key)
      requires Valid()
      modifies `disk, `log, `now
      ensures Valid() && old(log) <= log && old(now) <= now
      ensures disk == old(disk)
           || (k in old(disk.entries)
               && disk == old(disk).(entries := old(disk.entries)[k := Entry(old(disk.entries[k].bytes), Some(now))]))
      ensures writable && k in old(disk.entries) ==> disk.entries[k].used == Some(now)
    {
      var ok: bool := *;
      var t := Now();
      if (ok || writable) && k in disk.entries {
        var e := Entry(disk.entries[k].bytes, Some(t));
        SumInsert(disk.entries, k, e);
        SumDrop(disk.entries, k);
        assert Clocked(disk, t);
        Commit(disk.(entries := disk.entries[k := e]));
      }
    }

    method RecordSweep() returns (ok: bool)
      requires Valid()
      modifies `disk, `log, `now
      ensures Valid() && old(log) <= log && old(now) <= now
      ensures disk == if ok then old(disk).(lastSweep := Some(now)) else old(disk)
      ensures writable ==> ok
    {
      ok := *;
      ok := ok || writable;
      var t := Now();
      if ok {
        Commit(disk.(lastSweep := Some(t)));
      }
    }

    // ----- Reading the directory and the summary

    /** A directory scan, in any order. */
    method List() returns (list: seq<EntryInfo>)
      ensures IsListing(list, disk.entries)
    {
      list := Scan(disk.entries);
    }

    method RebuildAccounting() returns (a: Accounting)
      ensures Accurate(a, disk.entries) && !a.dirty
      ensures a.nextExpiry == 0 <==> disk.entries == map[]
    {
      var list := List();
      a := Summarize(list, disk.entries);
    }

    method LoadAccounting() returns (a: Accounting)
      requires Valid()
      ensures Accurate(a, disk.entries) && !a.dirty
    {
      match disk.accounting {
        case Record(r) =>
          if || (r.entries == 0 && (r.bytes != 0 || r.nextExpiry != 0))
             || (r.entries != 0 && (r.bytes == 0 || r.nextExpiry == 0))
             || r.dirty
          {
            a := RebuildAccounting();
          } else {
            a := r;
          }
        case _ =>
          a := RebuildAccounting();
      }
    }

    // ----- Removing entries while the summary is not trusted

    /** Sweep: drops expired entries, then recounts. False stands for an exception. */
    method Sweep(recordSweep: bool) returns (ok: bool, a: Accounting)
      requires Valid() && !Trusted(disk)
      modifies `disk, `log, `now
      ensures Valid() && old(log) <= log && old(now) <= now
      ensures disk.accounting == old(disk.accounting)
      ensures Within(disk.entries, old(disk.entries)) && OnlyExpiredGone(old(disk.entries), disk.entries, now)
      ensures deletable ==> NoneExpired(disk.entries, old(now))
      ensures ok ==> Accurate(a, disk.entries) && !a.dirty
      ensures ok && recordSweep ==> SweptSince(disk, old(now))
      ensures writable ==> ok
    {
      var list := List();
      var i := 0;
      a := Accounting(0, 0, 0, true);
      ghost var start := now;
      while i < |list|
        invariant i <= |list| && Valid() && old(log) <= log && start <= now
        invariant disk == old(disk).(entries := disk.entries)
        invariant Sweeping(list, old(disk.entries), disk.entries, start, now, deletable, i)
      {
        var t := Now();
        ghost var m := disk.entries;
        var removed := false;
        if Expired(list[i].entry, t) {
          removed := RemoveEntry(list[i].key);
        }
        SweepingStep(list, old(disk.entries), m, start, t, deletable, i, removed);
        i := i + 1;
      }
      SweptAll(list, old(disk.entries), disk.entries, start, now, deletable);
      // CleanTemporaries can fail too
      ok := *;
      ok := ok || writable;
      if ok {
        a := RebuildAccounting();
        if recordSweep {
          ok := this.RecordSweep();
        }
      }
    }

    /** One round of the eviction loops. */
    method TryEvict(
      list: seq<EntryInfo>, i: nat, spared: Option<Key>, account: Accounting, ghost room: nat, ghost before: Entries)
      returns (a: Accounting)
      requires Valid() && !Trusted(disk) && IsListing(list, before) && i < |list| && account.bytes > room
      requires Evicting(list, before, disk.entries, spared, account, room, deletable, i)
      modifies `disk, `log
      ensures Valid() && old(log) <= log
      ensures disk == old(disk).(entries := disk.entries)
      ensures Evicting(list, before, disk.entries, spared, a, room, deletable, i + 1)
    {
      var e := list[i];
      a := account;
      var removed := false;
      if spared != Some(e.key) {
        removed := RemoveEntry(e.key);
      }
      if removed {
        EvictingRemove(list, before, old(disk.entries), spared, a, room, deletable, i);
        a := a.(bytes := a.bytes - e.entry.bytes, entries := a.entries - 1);
      } else {
        EvictingKeep(list, before, disk.entries, spared, a, room, deletable, i);
      }
    }

    /** The eviction loops: oldest first, sparing one key, until the rest fits the room or nothing is left to try. */
    method Evict(account: Accounting, spared: Option<Key>, room: nat) returns (a: Accounting)
      requires Valid() && !Trusted(disk) && Accurate(account, Others(disk.entries, spared))
      modifies `disk, `log
      ensures Valid() && old(log) <= log
      ensures disk == old(disk).(entries := disk.entries)
      ensures Within(disk.entries, old(disk.entries))
      ensures spared.Some? && spared.value in old(disk.entries) ==> spared.value in disk.entries
      ensures Accurate(a, Others(disk.entries, spared))
      ensures account.bytes <= room ==> disk == old(disk)
      ensures deletable ==> a.bytes <= room
      ensures deletable ==> EvictedOldest(old(disk.entries), disk.entries, spared)
      ensures disk.entries != old(disk.entries) ==> NotTooMany(old(disk.entries), disk.entries, a.bytes, room)
    {
      a := account;
      var list := List();
      SortedListing(list, disk.entries);
      list := SortByUse(list);
      var i := 0;
      ghost var before := disk.entries;
      while i < |list| && a.bytes > room
        invariant i <= |list| && Valid() && old(log) <= log
        invariant disk == old(disk).(entries := disk.entries)
        invariant Evicting(list, before, disk.entries, spared, a, room, deletable, i)
        invariant if i == 0 then disk == old(disk) && a == account else account.bytes > room
      {
        a := TryEvict(list, i, spared, a, room, before);
        i := i + 1;
      }
      EvictedAll(list, before, disk.entries, spared, a, room, deletable, i);
    }

    // ----- The operations of the cache

    /** SweepDue at some moment. */
    method SweepDue() returns (due: bool)
      requires Valid()
      modifies `now
      ensures Valid() && old(now) <= now && (due <==> SweepWanted(disk, now))
    {
      var t := Now();
      due := disk.lastSweep.None? || (t >= disk.lastSweep.value && t - disk.lastSweep.value >= SWEEP_INTERVAL);
    }

    /** MarkDirty, and then a sweep if one is due or some entry may have expired. */
    method BeginWrite() returns (ok: bool, a: Accounting)
      requires Valid()
      modifies `disk, `log, `now
      ensures Valid() && old(log) <= log && old(now) <= now
      ensures Within(disk.entries, old(disk.entries)) && OnlyExpiredGone(old(disk.entries), disk.entries, now)
      ensures ok ==> !Trusted(disk) && Accurate(a, disk.entries)
      ensures ok && deletable ==> NoneExpired(disk.entries, old(now))
      ensures ok && SweepWanted(old(disk), old(now)) ==> SweptSince(disk, old(now))
      ensures writable ==> ok
    {
      a := LoadAccounting();
      ok := SaveAccounting(a.(dirty := true));
      if !ok {
        return;
      }
      var due := SweepDue();
      var t := Now();
      if due || (a.nextExpiry != 0 && a.nextExpiry <= t) {
        ok, a := Sweep(true);
      } else {
        NothingExpired(a, disk.entries, old(now));
      }
    }

    /** Takes the entry that is about to be replaced out of the account. */
    method ForgetTarget(target: Key, account: Accounting) returns (a: Accounting)
      requires Valid() && Accurate(account, disk.entries)
      ensures Accurate(a, Others(disk.entries, Some(target)))
    {
      a := account;
      if target in disk.entries {
        var previous := disk.entries[target].bytes;
        if a.entries == 0 || previous > a.bytes {
          a := RebuildAccounting();
        }
        AccurateAfterRemoval(a, disk.entries, target);
        a := a.(bytes := a.bytes - previous, entries := a.entries - 1);
      } else {
        assert Others(disk.entries, Some(target)) == disk.entries;
      }
    }

    /** AtomicWriteFile and then TouchEntry: one entry, with whatever time the two left on it. */
    method StoreEntry(target: Key, size: nat) returns (ok: bool, stored: Entry)
      requires Valid() && !Trusted(disk) && SumBytes(disk.entries - {target}) + size <= ceiling
      modifies `disk, `log, `now
      ensures Valid() && old(log) <= log && old(now) <= now
      ensures stored.bytes == size
      ensures disk == if ok then old(disk).(entries := old(disk.entries)[target := stored]) else old(disk)
      ensures ok ==> UsedSince(stored, old(now))
      ensures writable ==> ok
    {
      stored := Entry(size, None);
      ok := WriteEntry(target, size);
      if ok {
        ghost var written := disk.entries[target];
        TouchEntry(target);
        stored := disk.entries[target];
        assert old(disk.entries)[target := written][target := stored] == old(disk.entries)[target := stored];
      }
    }

    /** Publishes the entry and the summary that counts it. */
    method Publish(target: Key, size: nat, account: Accounting) returns (ok: bool)
      requires Valid() && !Trusted(disk) && Accurate(account, Others(disk.entries, Some(target)))
      requires account.bytes + size <= ceiling
      modifies `disk, `log, `now
      ensures Valid() && old(log) <= log && old(now) <= now
      ensures Others(disk.entries, Some(target)) == Others(old(disk.entries), Some(target))
      ensures disk.lastSweep == old(disk.lastSweep)
      ensures target in old(disk.entries) ==> target in disk.entries
      ensures ok ==> Trusted(disk) && disk.accounting.account.bytes == account.bytes + size
      ensures ok ==> target in disk.entries && disk.entries[target].bytes == size
      ensures ok ==> UsedSince(disk.entries[target], old(now))
      ensures writable ==> ok
    {
      var stored;
      ok, stored := StoreEntry(target, size);
      OthersUpdate(old(disk.entries), target, stored);
      if !ok {
        return;
      }
      var expires := Expiry(disk.entries[target]);
      var bound := if account.nextExpiry == 0 || expires < account.nextExpiry then expires else account.nextExpiry;
      AccurateAfterInsert(account, old(disk.entries), target, stored, bound);
      ok := SaveAccounting(Accounting(account.bytes + size, account.entries + 1, bound, false));
    }

    /** Evicts what has to go for the new entry to fit. */
    method MakeRoom(target: Key, size: nat, account: Accounting) returns (a: Accounting)
      requires Valid() && !Trusted(disk) && Accurate(account, disk.entries) && size <= limit
      modifies `disk, `log
      ensures Valid() && old(log) <= log
      ensures disk == old(disk).(entries := disk.entries)
      ensures Within(disk.entries, old(disk.entries))
      ensures MadeRoom(old(disk.entries), disk.entries, Some(target), limit - size, deletable)
      ensures Accurate(a, Others(disk.entries, Some(target)))
      ensures deletable ==> a.bytes <= limit - size
    {
      a := ForgetTarget(target, account);
      if a.bytes > limit - size {
        a := Evict(a, Some(target), limit - size);
      }
    }

    /**
     WriteEntropyCache, for an entry that encodes to the given size. What it removes has either expired, or makes room:
     then oldest first, and nothing once the new entry fits. The ghost result is what the expired entries leave.
     */
    method Write(target: Key, size: nat) returns (outcome: Outcome, ghost swept: Entries)
      requires Valid()
      modifies `disk, `log, `now
      ensures Valid() && old(log) <= log && old(now) <= now
      ensures Within(swept, old(disk.entries)) && OnlyExpiredGone(old(disk.entries), swept, now)
      ensures MadeRoom(swept, disk.entries, Some(target), limit - size, deletable)
      ensures outcome.Skipped? <==> size > limit
      ensures outcome.Skipped? ==> disk == old(disk)
      ensures outcome.Stored? ==>
                && target in disk.entries && disk.entries[target].bytes == size
                && Trusted(disk) && SumBytes(disk.entries) <= limit
      ensures outcome.Stored? ==> UsedSince(disk.entries[target], old(now))
      ensures outcome.Stored? && deletable ==> NoneExpired(Others(disk.entries, Some(target)), old(now))
      ensures outcome.Refused? ==> !deletable
      ensures outcome.Failed? ==> !writable
      ensures outcome.Stored? && SweepWanted(old(disk), old(now)) ==> SweptSince(disk, old(now))
    {
      swept := disk.entries;
      if size > limit {
        return Skipped, swept;
      }
      var ok, a := BeginWrite();
      swept := disk.entries;
      if !ok {
        return Failed, swept;
      }
      outcome := Store(target, size, a);
    }

    /** The rest of a write, once expired entries are gone. */
    method Store(target: Key, size: nat, account: Accounting) returns (outcome: Outcome)
      requires Valid() && !Trusted(disk) && Accurate(account, disk.entries) && size <= limit
      modifies `disk, `log, `now
      ensures Valid() && old(log) <= log && old(now) <= now
      ensures MadeRoom(old(disk.entries), disk.entries, Some(target), limit - size, deletable)
      ensures disk.lastSweep == old(disk.lastSweep)
      ensures outcome.Stored? ==>
                && target in disk.entries && disk.entries[target].bytes == size
                && Trusted(disk) && SumBytes(disk.entries) <= limit && UsedSince(disk.entries[target], old(now))
      ensures outcome.Refused? ==> !deletable
      ensures outcome.Failed? ==> !writable
      ensures !outcome.Skipped?
    {
      var a := MakeRoom(target, size, account);
      ghost var left := disk.entries;
      if a.bytes > limit - size {
        a := RebuildAccounting();
        var saved := SaveAccounting(a);
        return if saved then Refused else Failed;
      }
      var ok := Publish(target, size, a);
      RoomForOthers(old(disk.entries), left, disk.entries, target, limit - size, deletable);
      outcome := if ok then Stored else Failed;
    }

    /** The locked half of ReadEntropyCache: a hit refreshes its entry unless that has expired meanwhile. */
    method Refresh(k: Key)
      requires Valid()
      modifies `disk, `log, `now
      ensures Valid() && old(log) <= log && old(now) <= now
      ensures disk == old(disk).(entries := disk.entries)
      ensures disk.entries.Keys == old(disk.entries).Keys
      ensures forall j :: j in disk.entries ==> disk.entries[j].bytes == old(disk.entries)[j].bytes
      ensures forall j :: j in disk.entries && j != k ==> disk.entries[j] == old(disk.entries)[j]
      ensures k in disk.entries && Expired(old(disk.entries)[k], old(now)) ==> disk == old(disk)
      ensures writable && k in disk.entries && !Expired(old(disk.entries)[k], now) ==> UsedSince(disk.entries[k], old(now))
    {
      var t := Now();
      if k !in disk.entries || !Expired(disk.entries[k], t) {
        TouchEntry(k);
      }
    }

    /**
     ReadEntropyCache, given whether the entry's content is acceptable. A hit is an acceptable entry that has not
     expired, and only a hit refreshes a time.
     */
    method Read(k: Key, acceptable: bool) returns (hit: bool)
      requires Valid()
      modifies `disk, `log, `now
      ensures Valid() && old(log) <= log && old(now) <= now
      ensures disk.entries.Keys <= old(disk.entries).Keys
      ensures hit ==> acceptable && k in old(disk.entries) && !Expired(old(disk.entries)[k], old(now))
      ensures acceptable && k in old(disk.entries) && !Expired(old(disk.entries)[k], now) ==> hit
      ensures hit && writable && !Expired(old(disk.entries)[k], now) && now - old(now) < MAX_AGE ==>
                k in disk.entries && UsedSince(disk.entries[k], old(now))
      ensures MaintainedIfDue(old(disk), disk, old(now), writable && deletable)
      ensures var refreshed := if hit then Some(k) else None;
              && Within(Others(disk.entries, refreshed), old(disk.entries))
              && OnlyExpiredGone(Others(old(disk.entries), refreshed), disk.entries, now)
    {
      hit := false;
      if k in disk.entries && acceptable {
        var t := Now();
        hit := !Expired(disk.entries[k], t);
      }
      if hit {
        Refresh(k);
      }
      Maintain();
    }

    /** MaybeMaintain: every failure is swallowed. */
    method Maintain()
      requires Valid()
      modifies `disk, `log, `now
      ensures Valid() && old(log) <= log && old(now) <= now
      ensures Within(disk.entries, old(disk.entries)) && OnlyExpiredGone(old(disk.entries), disk.entries, now)
      ensures !SweepWanted(old(disk), now) ==> disk == old(disk)
      ensures MaintainedIfDue(old(disk), disk, old(now), writable && deletable)
    {
      var due := SweepDue();
      if !due {
        return;
      }
      var a := LoadAccounting();
      var ok := SaveAccounting(a.(dirty := true));
      if !ok {
        return;
      }
      ok, a := Sweep(true);
      if ok {
        ok := SaveAccounting(a);
      }
    }

    /**
     PruneEntropyCache; false stands for an exception. The ghost result is what the expired entries leave, from which
     the rest is evicted.
     */
    method Prune(force: bool) returns (ok: bool, ghost swept: Entries)
      requires Valid()
      modifies `disk, `log, `now
      ensures Valid() && old(log) <= log && old(now) <= now
      ensures Within(swept, old(disk.entries)) && OnlyExpiredGone(old(disk.entries), swept, now)
      ensures MadeRoom(swept, disk.entries, None, limit, deletable)
      ensures ok && (force || SweepWanted(old(disk), old(now))) && deletable ==>
                SumBytes(disk.entries) <= limit && NoneExpired(disk.entries, old(now))
      ensures !force && !SweepWanted(old(disk), now) ==> ok && disk == old(disk)
      ensures writable ==> ok
      ensures writable && (force || SweepWanted(old(disk), old(now))) ==> SweptSince(disk, old(now)) && Trusted(disk)
    {
      swept := disk.entries;
      var due := SweepDue();
      if !force && !due {
        return true, swept;
      }
      var a := LoadAccounting();
      ok := InvalidateAccounting();
      if !ok {
        return;
      }
      ok, a := Sweep(false);
      swept := disk.entries;
      if !ok {
        return;
      }
      a := Evict(a, None, limit);
      RecordPruned();
    }

    /** The end of a prune, whose failures are swallowed: a record that is missing only has to be rebuilt. */
    method RecordPruned()
      requires Valid()
      modifies `disk, `log, `now
      ensures Valid() && old(log) <= log && old(now) <= now
      ensures disk.entries == old(disk.entries)
      ensures writable ==> SweptSince(disk, old(now)) && Trusted(disk)
    {
      var recorded := RecordSweep();
      if recorded {
        var a := RebuildAccounting();
        recorded := SaveAccounting(a);
      }
    }

    /** ClearEntropyCache; false stands for an exception. */
    method Clear() returns (ok: bool)
      requires Valid()
      modifies `disk, `log, `now
      ensures Valid() && old(log) <= log && old(now) <= now
      ensures Within(disk.entries, old(disk.entries))
      ensures ok ==> disk.entries == map[]
      ensures writable && deletable ==> ok
    {
      ok := InvalidateAccounting();
      if !ok {
        return;
      }
      var list := List();
      var i := 0;
      ghost var before := disk.entries;
      while i < |list|
        invariant i <= |list| && Valid() && old(log) <= log && old(now) <= now && !Trusted(disk)
        invariant Clearing(list, before, disk.entries, i)
      {
        ghost var m := disk.entries;
        var removed := RemoveEntry(list[i].key);
        if !removed {
          return false;
        }
        ClearingStep(list, before, m, i);
        i := i + 1;
      }
      AllOthersGone(list, before, disk.entries, None);
      // CleanTemporaries can fail
      ok := *;
      ok := ok || writable;
      if ok {
        var saved := SaveAccounting(Accounting(0, 0, 0, false));
      }
    }

    /** GetEntropyCacheStatus without provenance: the summary alone, and it tells the truth. */
    method Status() returns (entries: nat, bytes: nat)
      requires Valid()
      ensures entries == |disk.entries| && bytes == SumBytes(disk.entries)
    {
      var a := LoadAccounting();
      entries, bytes := a.entries, a.bytes;
    }

    // ----- Runs with crashes

    /**
     Any sequence of operations, each of which may be cut short by a crash after any of its file operations.
     The log then holds exactly the disks the run went through, and all of them are safe: whatever process
     comes next finds a summary it may trust, and never more bytes than the ceiling.
     */
    method Run(program: seq<Op>)
      requires Valid()
      modifies this
      ensures Valid() && old(log) <= log
      ensures forall i :: 0 <= i < |log| ==> Safe(log[i], ceiling)
    {
      for n := 0 to |program|
        invariant Valid() && old(log) <= log
      {
        var start := |log|;
        Perform(program[n]);
        var crashed: bool := *;
        if crashed {
          var kept: nat :| start <= kept <= |log|;
          log := log[..kept];
          disk := log[kept - 1];
        }
      }
    }

    method Perform(op: Op)
      requires Valid()
      modifies `disk, `log, `now
      ensures Valid() && old(log) <= log
    {
      match op {
        case OpWrite(k, size) => var outcome, _ := Write(k, size);
        case OpRead(k, acceptable) => var hit := Read(k, acceptable);
        case OpRefresh(k) => Refresh(k);
        case OpMaintain => Maintain();
        case OpPrune(force) => var ok, _ := Prune(force);
        case OpClear => var ok := Clear();
      }
    }
  }

  /** What a process may ask for; a reader's refresh also stands alone, since its lookup holds no lock. */
  datatype Op =
    | OpWrite(key: Key, size: nat)
    | OpRead(key: Key, acceptable: bool)
    | OpRefresh(key: Key)
    | OpMaintain
    | OpPrune(force: bool)
    | OpClear

  /** The entry's time is no earlier. */
  predicate UsedSince(e: Entry, time: nat) {
    e.used.Some? && e.used.value >= time
  }

  predicate SweptSince(d: Disk, time: nat) {
    d.lastSweep.Some? && d.lastSweep.value >= time
  }

  /** If a sweep was due and nothing fails, it has been done: it is on record, and nothing expired is left. */
  predicate MaintainedIfDue(before: Disk, after: Disk, time: nat, works: bool) {
    SweepWanted(before, time) && works ==>
      SweptSince(after, time) && NoneExpired(after.entries, time) && Trusted(after)
  }

  /** When the summary names no expiry up to t, nothing had expired by then. */
  lemma NothingExpired(a: Accounting, m: Entries, t: nat)
    requires Accurate(a, m) && !(a.nextExpiry != 0 && a.nextExpiry <= t)
    ensures NoneExpired(m, t)
  {
  }

  predicate Within(part: Entries, m: Entries) {
    forall k :: k in part ==> k in m && part[k] == m[k]
  }

  lemma KeysPrefix(list: seq<EntryInfo>, i: nat)
    requires i < |list| && forall i, j :: 0 <= i < j < |list| ==> list[i].key != list[j].key
    ensures list[i].key !in Keys(list[..i])
    ensures Keys(list[..i + 1]) == Keys(list[..i]) + {list[i].key}
  {
    assert list[..i + 1] == list[..i] + [list[i]];
    KeysAppend(list[..i], list[i]);
  }

  lemma AddEntryAccurate(a: Accounting, m: Entries, k: Key, e: Entry)
    requires Accurate(a, m) && k !in m
    ensures Accurate(AddEntry(a, e), m[k := e]) && AddEntry(a, e).nextExpiry != 0
  {
    assert m - {k} == m;
    AccurateAfterInsert(a, m, k, e, AddEntry(a, e).nextExpiry);
  }

  /** The first i scanned entries are summarized. */
  ghost predicate Summarized(list: seq<EntryInfo>, m: Entries, i: nat, a: Accounting, seen: Entries)
    requires i <= |list|
  {
    && seen.Keys == Keys(list[..i]) && Within(seen, m)
    && Accurate(a, seen) && !a.dirty
    && (a.nextExpiry == 0 <==> seen == map[])
  }

  function AddEntry(a: Accounting, e: Entry): Accounting {
    var bound := if a.nextExpiry == 0 || Expiry(e) < a.nextExpiry then Expiry(e) else a.nextExpiry;
    Accounting(a.bytes + e.bytes, a.entries + 1, bound, false)
  }

  lemma SummarizedStep(list: seq<EntryInfo>, m: Entries, i: nat, a: Accounting, seen: Entries)
    requires IsListing(list, m) && i < |list| && Summarized(list, m, i, a, seen)
    ensures Summarized(list, m, i + 1, AddEntry(a, list[i].entry), seen[list[i].key := list[i].entry])
  {
    var k, e := list[i].key, list[i].entry;
    assert k !in seen && Keys(list[..i + 1]) == Keys(list[..i]) + {k} by {
      KeysPrefix(list, i);
    }
    assert Within(seen[k := e], m) && seen[k := e].Keys == seen.Keys + {k} && seen[k := e] != map[] by {
      WithinGrows(seen, m, k);
    }
    assert Accurate(AddEntry(a, e), seen[k := e]) && AddEntry(a, e).nextExpiry != 0 by {
      AddEntryAccurate(a, seen, k, e);
    }
  }

  lemma SummarizedAll(list: seq<EntryInfo>, m: Entries, a: Accounting, seen: Entries)
    requires IsListing(list, m) && Summarized(list, m, |list|, a, seen)
    ensures seen == m
  {
    assert list[..|list|] == list;
  }

  /** The loop of RebuildAccounting over a directory scan. */
  method Summarize(list: seq<EntryInfo>, ghost m: Entries) returns (a: Accounting)
    requires IsListing(list, m)
    ensures Accurate(a, m) && !a.dirty
    ensures a.nextExpiry == 0 <==> m == map[]
  {
    a := Accounting(0, 0, 0, false);
    ghost var seen: Entries := map[];
    for i := 0 to |list|
      invariant Summarized(list, m, i, a, seen)
    {
      SummarizedStep(list, m, i, a, seen);
      var x := Expiry(list[i].entry);
      a := a.(bytes := a.bytes + list[i].entry.bytes, entries := a.entries + 1,
              nextExpiry := if a.nextExpiry == 0 || x < a.nextExpiry then x else a.nextExpiry);
      seen := seen[list[i].key := list[i].entry];
    }
    SummarizedAll(list, m, a, seen);
  }

  lemma WithinGrows(part: Entries, m: Entries, k: Key)
    requires Within(part, m) && k in m && k !in part
    ensures Within(part[k := m[k]], m)
    ensures part[k := m[k]].Keys == part.Keys + {k}
    ensures part[k := m[k]] != map[]
  {
    assert k in part[k := m[k]];
  }

  method Scan(m: Entries) returns (list: seq<EntryInfo>)
    ensures IsListing(list, m)
  {
    list := [];
    var rest := m.Keys;
    ghost var done: Entries := map[];
    while rest != {}
      invariant rest <= m.Keys && done.Keys == m.Keys - rest && Within(done, m)
      invariant IsListing(list, done)
      decreases |rest|
    {
      var k :| k in rest;
      ListingGrows(list, done, EntryInfo(k, m[k]));
      list := list + [EntryInfo(k, m[k])];
      done := done[k := m[k]];
      rest := rest - {k};
    }
    assert done == m;
  }

  lemma ListingGrows(list: seq<EntryInfo>, m: Entries, e: EntryInfo)
    requires IsListing(list, m) && e.key !in m
    ensures IsListing(list + [e], m[e.key := e.entry])
  {
    KeysAppend(list, e);
    assert m[e.key := e.entry].Keys == m.Keys + {e.key};
  }

  predicate NoneExpired(m: Entries, t: nat) {
    forall k :: k in m ==> !Expired(m[k], t)
  }

  function Others(m: Entries, spared: Option<Key>): Entries {
    if spared.Some? then m - {spared.value} else m
  }

  /** No entry was evicted while an older one stayed; an unreadable time is the oldest. */
  predicate EvictedOldest(before: Entries, after: Entries, spared: Option<Key>) {
    forall gone, kept | gone in before && kept in before && gone !in after && kept in after && spared != Some(kept) ::
      before[gone].used.Some? ==>
        before[kept].used.Some? && before[gone].used.value <= before[kept].used.value
  }

  /** Some evicted entry would not have fitted beside what is left. */
  predicate NotTooMany(before: Entries, after: Entries, bytes: nat, room: int) {
    exists k :: k in before && k !in after && bytes + before[k].bytes > room
  }

  /**
   Entries have been evicted for the rest to fit a room: never the spared one, the oldest first if deletions work, and
   no more than needed.
   */
  ghost predicate MadeRoom(before: Entries, after: Entries, spared: Option<Key>, room: int, deletable: bool) {
    && Within(Others(after, spared), before)
    && (spared.Some? && spared.value in before ==> spared.value in after)
    && (deletable ==> EvictedOldest(before, after, spared))
    && (Others(after, spared) != Others(before, spared) ==>
          NotTooMany(before, after, SumBytes(Others(after, spared)), room))
  }

  /** Storing the spared entry changes nothing about the others. */
  lemma RoomForOthers(before: Entries, left: Entries, after: Entries, target: Key, room: int, deletable: bool)
    requires MadeRoom(before, left, Some(target), room, deletable)
    requires Others(after, Some(target)) == Others(left, Some(target))
    requires target in left ==> target in after
    ensures MadeRoom(before, after, Some(target), room, deletable)
  {
    forall k | k != target ensures k in after <==> k in left {
      assert k in after <==> k in Others(after, Some(target));
      assert k in left <==> k in Others(left, Some(target));
    }
  }

  lemma OthersUpdate(m: Entries, k: Key, e: Entry)
    ensures Others(m[k := e], Some(k)) == Others(m, Some(k)) == m - {k}
    ensures Within(m - {k}, m)
  {
  }

  lemma OthersDrop(m: Entries, spared: Option<Key>, k: Key)
    requires k in m && spared != Some(k)
    ensures Others(m - {k}, spared) == Others(m, spared) - {k}
    ensures k in Others(m, spared) && Others(m, spared)[k] == m[k]
  {
  }

  predicate OnlyExpiredGone(before: Entries, after: Entries, now: nat) {
    forall k :: k in before && k !in after ==> Expired(before[k], now)
  }

  /** Progress of the sweep: the first i scanned entries have been considered. */
  predicate Sweeping(
    list: seq<EntryInfo>, before: Entries, m: Entries, start: nat, now: nat, deletable: bool, i: nat)
    requires i <= |list|
  {
    && Within(m, before) && OnlyExpiredGone(before, m, now)
    && (forall j :: i <= j < |list| ==> list[j].key in m)
    && (deletable ==> forall j :: 0 <= j < i && list[j].key in m ==> !Expired(list[j].entry, start))
  }

  lemma SweepingStep(
    list: seq<EntryInfo>, before: Entries, m: Entries, start: nat, t: nat, deletable: bool, i: nat, removed: bool)
    requires IsListing(list, before) && i < |list| && start <= t
    requires Sweeping(list, before, m, start, t, deletable, i)
    requires removed ==> Expired(list[i].entry, t)
    requires !removed && deletable ==> !Expired(list[i].entry, t)
    ensures Sweeping(list, before, if removed then m - {list[i].key} else m, start, t, deletable, i + 1)
  {
  }

  lemma SweptAll(list: seq<EntryInfo>, before: Entries, m: Entries, start: nat, now: nat, deletable: bool)
    requires IsListing(list, before) && Sweeping(list, before, m, start, now, deletable, |list|)
    ensures deletable ==> NoneExpired(m, start)
  {
    forall k | k in m && deletable ensures !Expired(m[k], start) {
      assert k in Keys(list);
    }
  }

  /** Progress of an eviction: the first i entries, oldest first, have been tried. */
  ghost predicate Evicting(
    list: seq<EntryInfo>, before: Entries, m: Entries, spared: Option<Key>, a: Accounting, room: nat,
    deletable: bool, i: nat)
    requires i <= |list|
  {
    && Within(m, before)
    && (spared.Some? && spared.value in before ==> spared.value in m)
    && Accurate(a, Others(m, spared))
    && (forall j :: i <= j < |list| ==> list[j].key in m)
    && (deletable ==> forall j :: 0 <= j < i && list[j].key in m ==> spared == Some(list[j].key))
    && (m != before ==> NotTooMany(before, m, a.bytes, room))
  }

  lemma EvictingKeep(
    list: seq<EntryInfo>, before: Entries, m: Entries, spared: Option<Key>, a: Accounting, room: nat,
    deletable: bool, i: nat)
    requires i < |list| && Evicting(list, before, m, spared, a, room, deletable, i)
    requires deletable ==> spared == Some(list[i].key)
    ensures Evicting(list, before, m, spared, a, room, deletable, i + 1)
  {
  }

  lemma EvictingRemove(
    list: seq<EntryInfo>, before: Entries, m: Entries, spared: Option<Key>, a: Accounting, room: nat,
    deletable: bool, i: nat)
    requires IsListing(list, before) && i < |list| && a.bytes > room && spared != Some(list[i].key)
    requires Evicting(list, before, m, spared, a, room, deletable, i)
    ensures a.bytes >= list[i].entry.bytes && a.entries > 0
    ensures Evicting(list, before, m - {list[i].key}, spared,
                     a.(bytes := a.bytes - list[i].entry.bytes, entries := a.entries - 1), room, deletable, i + 1)
  {
    var k := list[i].key;
    OthersDrop(m, spared, k);
    AccurateAfterRemoval(a, Others(m, spared), k);
    assert k in before && k !in m - {k};
  }

  lemma EvictedAll(
    list: seq<EntryInfo>, before: Entries, m: Entries, spared: Option<Key>, a: Accounting, room: nat,
    deletable: bool, i: nat)
    requires IsListing(list, before) && OldestFirst(list) && i <= |list| && (i == |list| || a.bytes <= room)
    requires Evicting(list, before, m, spared, a, room, deletable, i)
    ensures deletable ==> EvictedOldest(before, m, spared) && a.bytes <= room
  {
    if deletable {
      EvictionOrder(list, before, m, spared, i);
      if i == |list| {
        AllOthersGone(list, before, m, spared);
      }
    }
  }

  lemma EvictionOrder(list: seq<EntryInfo>, before: Entries, after: Entries, spared: Option<Key>, i: nat)
    requires IsListing(list, before) && OldestFirst(list) && Within(after, before) && i <= |list|
    requires forall j :: i <= j < |list| ==> list[j].key in after
    requires forall j :: 0 <= j < i && list[j].key in after ==> spared == Some(list[j].key)
    ensures EvictedOldest(before, after, spared)
  {
    forall gone, kept | gone in before && kept in before && gone !in after && kept in after && spared != Some(kept)
      ensures NoLater(before[gone].used, before[kept].used)
    {
      assert gone in Keys(list) && kept in Keys(list);
      var g :| 0 <= g < |list| && list[g].key == gone;
      var h :| 0 <= h < |list| && list[h].key == kept;
      assert g < i <= h;
    }
  }

  /** Progress of clearing: the first i entries are gone, the others are not. */
  predicate Clearing(list: seq<EntryInfo>, before: Entries, m: Entries, i: nat)
    requires i <= |list|
  {
    && Within(m, before)
    && (forall j :: i <= j < |list| ==> list[j].key in m)
    && (forall j :: 0 <= j < i ==> list[j].key !in m)
  }

  lemma ClearingStep(list: seq<EntryInfo>, before: Entries, m: Entries, i: nat)
    requires IsListing(list, before) && i < |list| && Clearing(list, before, m, i)
    ensures Clearing(list, before, m - {list[i].key}, i + 1)
  {
  }

  lemma AllOthersGone(list: seq<EntryInfo>, before: Entries, after: Entries, spared: Option<Key>)
    requires IsListing(list, before) && Within(after, before)
    requires forall j :: 0 <= j < |list| && list[j].key in after ==> spared == Some(list[j].key)
    ensures Others(after, spared) == map[]
  {
    forall k | k in after ensures spared == Some(k) {
      assert k in Keys(list);
    }
  }
}
