/** Directory contents of the entropy cache, and sums over them. */
module CacheEntries {
  import opened Wrappers
  import opened Sorting

  type Key = string

  /** One .cbor file: its size, and its modification time where that can be read. */
  datatype Entry = Entry(bytes: nat, used: Option<nat>)

  type Entries = map<Key, Entry>

  /** An entry as a directory scan reports it. */
  datatype EntryInfo = EntryInfo(key: Key, entry: Entry)

  ghost function SumBytes(m: Entries): nat {
    if m == map[] then 0
    else
      var k :| k in m;
      m[k].bytes + SumBytes(m - {k})
  }

  /** The sum does not depend on the order of summation. */
  lemma {:induction false} SumRemove(m: Entries, k: Key)
    requires k in m
    ensures SumBytes(m) == m[k].bytes + SumBytes(m - {k})
    decreases |m|
  {
    var j :| j in m && SumBytes(m) == m[j].bytes + SumBytes(m - {j});
    if j != k {
      SumRemove(m - {j}, k);
      SumRemove(m - {k}, j);
      assert m - {j} - {k} == m - {k} - {j};
    }
  }

  lemma SumInsert(m: Entries, k: Key, e: Entry)
    ensures SumBytes(m[k := e]) == SumBytes(m - {k}) + e.bytes
    ensures |m[k := e]| == |m - {k}| + 1
  {
    SumRemove(m[k := e], k);
    assert m[k := e] - {k} == m - {k};
    CountInsert(m, k, e);
  }

  lemma CountInsert(m: Entries, k: Key, e: Entry)
    ensures |m[k := e]| == |m - {k}| + 1
  {
    assert m[k := e].Keys == (m - {k}).Keys + {k};
  }

  lemma SumDrop(m: Entries, k: Key)
    ensures SumBytes(m - {k}) == SumBytes(m) - if k in m then m[k].bytes else 0
    ensures |m - {k}| == |m| - if k in m then 1 else 0
  {
    if k in m {
      SumRemove(m, k);
      assert (m - {k}).Keys == m.Keys - {k};
    } else {
      assert m - {k} == m;
    }
  }

  function Keys(list: seq<EntryInfo>): set<Key> {
    set i | 0 <= i < |list| :: list[i].key
  }

  /** The list names each entry once. */
  ghost predicate IsListing(list: seq<EntryInfo>, m: Entries) {
    && Keys(list) == m.Keys
    && (forall i :: 0 <= i < |list| ==> list[i].key in m && m[list[i].key] == list[i].entry)
    && (forall i, j :: 0 <= i < j < |list| ==> list[i].key != list[j].key)
  }

  /** The order of last use: unknown times come first. */
  predicate NoLater(a: Option<nat>, b: Option<nat>) {
    a.None? || (b.Some? && a.value <= b.value)
  }

  predicate OldestFirst(list: seq<EntryInfo>) {
    forall i, j :: 0 <= i < j < |list| ==> NoLater(list[i].entry.used, list[j].entry.used)
  }

  predicate UsedNoLater(a: EntryInfo, b: EntryInfo) {
    NoLater(a.entry.used, b.entry.used)
  }

  /** The list in the order of last use. */
  function SortByUse(list: seq<EntryInfo>): seq<EntryInfo> {
    Sort(list, UsedNoLater)
  }

  lemma SortByUseSorts(list: seq<EntryInfo>)
    ensures OldestFirst(SortByUse(list)) && multiset(SortByUse(list)) == multiset(list)
  {
    SortSorts(list, UsedNoLater);
    var sorted := SortByUse(list);
    forall i, j | 0 <= i < j < |sorted| ensures NoLater(sorted[i].entry.used, sorted[j].entry.used) {
      assert UsedNoLater(sorted[i], sorted[j]);
    }
  }

  /** Reordering a listing gives a listing. */
  lemma SortedListing(list: seq<EntryInfo>, m: Entries)
    requires IsListing(list, m)
    ensures IsListing(SortByUse(list), m) && OldestFirst(SortByUse(list))
  {
    SortByUseSorts(list);
    SameElementsListing(list, SortByUse(list), m);
  }

  lemma SameElementsListing(list: seq<EntryInfo>, other: seq<EntryInfo>, m: Entries)
    requires IsListing(list, m) && multiset(other) == multiset(list)
    ensures IsListing(other, m)
  {
    forall i | 0 <= i < |other| ensures other[i].key in m && m[other[i].key] == other[i].entry {
      assert other[i] in multiset(other);
      assert other[i] in list;
    }
    forall k | k in m.Keys ensures k in Keys(other) {
      var i :| 0 <= i < |list| && list[i].key == k;
      assert list[i] in multiset(list);
      assert list[i] in other;
    }
    forall i, j | 0 <= i < j < |other| ensures other[i].key != other[j].key {
      if other[i].key == other[j].key {
        assert other[i] == other[j];
        OnceInListing(list, m, other[i]);
        TwiceInSeq(other, i, j);
      }
    }
  }

  lemma {:induction false} OnceInListing(list: seq<EntryInfo>, m: Entries, e: EntryInfo)
    requires forall i, j :: 0 <= i < j < |list| ==> list[i].key != list[j].key
    ensures multiset(list)[e] <= 1
  {
    if list != [] {
      OnceInListing(list[1..], m, e);
      assert list == [list[0]] + list[1..];
      if list[0] == e {
        assert e !in list[1..];
      }
    }
  }

  lemma TwiceInSeq(list: seq<EntryInfo>, i: nat, j: nat)
    requires i < j < |list| && list[i] == list[j]
    ensures multiset(list)[list[i]] >= 2
  {
    assert list == list[..j] + [list[j]] + list[j + 1..];
    assert list[i] in list[..j];
  }

  lemma KeysAppend(list: seq<EntryInfo>, e: EntryInfo)
    ensures Keys(list + [e]) == Keys(list) + {e.key}
  {
    var all := list + [e];
    assert all[|list|] == e;
    forall k | k in Keys(list) ensures k in Keys(all) {
      var i :| 0 <= i < |list| && list[i].key == k;
      assert all[i] == list[i];
    }
  }
}
