/**
 The nesting depth of a position among structural events, and the sweep of src/core.cc:212-264 that computes it
 with a heap of ends and a multiset of active depths.
 */
module Sweep {
  import opened Sequences
  import opened Tokens
  import opened Sorting

  /** The event's scope covers the position. */
  predicate Active(e: StructuralEvent, s: nat) {
    e.scopeStart <= s < e.byteOffset
  }

  /** The greatest depth among the events whose scopes cover the position, or zero. */
  function DepthAt(events: seq<StructuralEvent>, s: nat): nat {
    if events == [] then 0
    else
      var rest := DepthAt(events[1..], s);
      if Active(events[0], s) && events[0].depth > rest then events[0].depth else rest
  }

  predicate IsDepth(events: seq<StructuralEvent>, s: nat, d: nat) {
    && (forall i :: 0 <= i < |events| && Active(events[i], s) ==> events[i].depth <= d)
    && (d == 0 || exists i :: 0 <= i < |events| && Active(events[i], s) && events[i].depth == d)
  }

  lemma {:induction false} DepthMeaning(events: seq<StructuralEvent>, s: nat)
    ensures IsDepth(events, s, DepthAt(events, s))
  {
    if events != [] {
      var rest := DepthAt(events[1..], s);
      DepthMeaning(events[1..], s);
      if rest > 0 {
        var i :| 0 <= i < |events[1..]| && Active(events[1..][i], s) && events[1..][i].depth == rest;
        assert events[i + 1] == events[1..][i];
      }
      forall i | 0 <= i < |events| && Active(events[i], s) ensures events[i].depth <= DepthAt(events, s) {
        if i > 0 {
          assert events[i] == events[1..][i - 1];
        }
      }
    }
  }

  /** Depth depends on the set of events only. */
  lemma DepthUnique(events: seq<StructuralEvent>, other: seq<StructuralEvent>, s: nat, d: nat)
    requires forall e :: e in events <==> e in other
    requires IsDepth(other, s, d)
    ensures d == DepthAt(events, s)
  {
    var c := DepthAt(events, s);
    DepthMeaning(events, s);
    if c > 0 {
      var i :| 0 <= i < |events| && Active(events[i], s) && events[i].depth == c;
      assert events[i] in other;
      var j :| 0 <= j < |other| && other[j] == events[i];
    }
    if d > 0 {
      var i :| 0 <= i < |other| && Active(other[i], s) && other[i].depth == d;
      assert other[i] in events;
      var j :| 0 <= j < |events| && events[j] == other[i];
    }
  }

  // ----- Events in the order of scope starts

  predicate StartsBefore(a: StructuralEvent, b: StructuralEvent) {
    a.scopeStart <= b.scopeStart
  }

  function SortByStart(events: seq<StructuralEvent>): seq<StructuralEvent> {
    Sort(events, StartsBefore)
  }

  predicate StartsAscend(events: seq<StructuralEvent>) {
    forall i, j :: 0 <= i < j < |events| ==> events[i].scopeStart <= events[j].scopeStart
  }

  lemma SortByStartSorts(events: seq<StructuralEvent>)
    ensures StartsAscend(SortByStart(events))
    ensures forall x :: x in SortByStart(events) <==> x in events
  {
    SortSorts(events, StartsBefore);
    var sorted := SortByStart(events);
    forall i, j | 0 <= i < j < |sorted| ensures sorted[i].scopeStart <= sorted[j].scopeStart {
      assert StartsBefore(sorted[i], sorted[j]);
    }
  }

  // ----- The containers

  /** An entry of the heap: where an event ends, and its depth. */
  datatype EndDepth = EndDepth(end: nat, depth: nat)

  predicate Below(a: EndDepth, b: EndDepth) {
    a.end < b.end || (a.end == b.end && a.depth <= b.depth)
  }

  /** The heap as the ascending sequence of its entries; the top comes first. */
  predicate IsHeap(q: seq<EndDepth>) {
    forall i, j :: 0 <= i < j < |q| ==> Below(q[i], q[j])
  }

  function Emplace(x: EndDepth, q: seq<EndDepth>): seq<EndDepth> {
    if q == [] then [x] else if Below(x, q[0]) then [x] + q else [q[0]] + Emplace(x, q[1..])
  }

  /** The depths in the heap, with repetition. */
  function DepthsOf(q: seq<EndDepth>): multiset<nat> {
    if q == [] then multiset{} else DepthsOf(q[1..]) + multiset{q[0].depth}
  }

  lemma {:induction false} EmplaceKeeps(x: EndDepth, q: seq<EndDepth>)
    requires IsHeap(q)
    ensures IsHeap(Emplace(x, q))
    ensures forall y :: y in Emplace(x, q) <==> y == x || y in q
    ensures DepthsOf(Emplace(x, q)) == DepthsOf(q) + multiset{x.depth}
  {
    if q == [] {
      assert [x][1..] == [];
    } else if Below(x, q[0]) {
      assert ([x] + q)[1..] == q;
    } else {
      EmplaceKeeps(x, q[1..]);
      var rest := Emplace(x, q[1..]);
      assert ([q[0]] + rest)[1..] == rest;
      assert forall y :: y in q <==> y == q[0] || y in q[1..];
      forall i | 0 <= i < |rest| ensures Below(q[0], rest[i]) {
        assert rest[i] in rest;
      }
    }
  }

  // The multiset of active depths is an ascending sequence.

  function InsertDepth(d: nat, a: seq<nat>): seq<nat> {
    if a == [] then [d] else if d <= a[0] then [d] + a else [a[0]] + InsertDepth(d, a[1..])
  }

  /** Erases one equal element, if there is one. */
  function EraseDepth(d: nat, a: seq<nat>): seq<nat> {
    if a == [] then [] else if a[0] == d then a[1..] else [a[0]] + EraseDepth(d, a[1..])
  }

  lemma {:induction false} InsertDepthKeeps(d: nat, a: seq<nat>)
    ensures multiset(InsertDepth(d, a)) == multiset(a) + multiset{d}
  {
    if a != [] && d > a[0] {
      InsertDepthKeeps(d, a[1..]);
      assert a == [a[0]] + a[1..];
    }
  }

  /** Insertion keeps the order, and any lower bound. */
  lemma {:induction false} InsertDepthAscends(d: nat, a: seq<nat>, low: nat)
    requires Ascending(a) && low <= d && (a != [] ==> low <= a[0])
    ensures Ascending(InsertDepth(d, a)) && forall i :: 0 <= i < |InsertDepth(d, a)| ==> low <= InsertDepth(d, a)[i]
  {
    if a != [] && d > a[0] {
      InsertDepthAscends(d, a[1..], a[0]);
    }
  }

  lemma {:induction false} EraseDepthCounts(d: nat, a: seq<nat>)
    ensures multiset(EraseDepth(d, a)) == multiset(a) - multiset{d}
  {
    if a != [] {
      assert multiset(a) == multiset{a[0]} + multiset(a[1..]) by {
        assert a == [a[0]] + a[1..];
      }
      if a[0] != d {
        EraseDepthCounts(d, a[1..]);
      }
    }
  }

  lemma {:induction false} EraseDepthKeeps(d: nat, a: seq<nat>)
    requires Ascending(a)
    ensures Ascending(EraseDepth(d, a))
    ensures forall x :: x in EraseDepth(d, a) ==> x in a
  {
    if a != [] && a[0] != d {
      EraseDepthKeeps(d, a[1..]);
      var rest := EraseDepth(d, a[1..]);
      forall i | 0 <= i < |rest| ensures a[0] <= rest[i] {
        assert rest[i] in a[1..];
      }
    }
  }

  // ----- The sweep

  function EndOf(e: StructuralEvent): EndDepth {
    EndDepth(e.byteOffset, e.depth)
  }

  /** The first k events have been entered, and entries ending at or before some point up to s have been dropped. */
  ghost predicate Swept(events: seq<StructuralEvent>, k: nat, ending: seq<EndDepth>, active: seq<nat>, s: nat) {
    && k <= |events|
    && IsHeap(ending) && Ascending(active) && multiset(active) == DepthsOf(ending)
    && (forall j :: 0 <= j < k ==> events[j].scopeStart <= s)
    && (forall x :: x in ending ==> exists j :: 0 <= j < k && x == EndOf(events[j]))
    && (forall j :: 0 <= j < k && s < events[j].byteOffset ==> EndOf(events[j]) in ending)
  }

  lemma SweptLater(
    events: seq<StructuralEvent>, k: nat, ending: seq<EndDepth>, active: seq<nat>, s: nat, later: nat)
    requires Swept(events, k, ending, active, s) && s <= later
    ensures Swept(events, k, ending, active, later)
  {
  }

  lemma EnterOne(events: seq<StructuralEvent>, k: nat, ending: seq<EndDepth>, active: seq<nat>, s: nat)
    requires Swept(events, k, ending, active, s) && k < |events| && events[k].scopeStart <= s
    ensures Swept(events, k + 1, Emplace(EndOf(events[k]), ending), InsertDepth(events[k].depth, active), s)
  {
    EmplaceKeeps(EndOf(events[k]), ending);
    InsertDepthKeeps(events[k].depth, active);
    InsertDepthAscends(events[k].depth, active, 0);
  }

  lemma DropOne(events: seq<StructuralEvent>, k: nat, ending: seq<EndDepth>, active: seq<nat>, s: nat)
    requires Swept(events, k, ending, active, s) && ending != [] && ending[0].end <= s
    ensures Swept(events, k, ending[1..], EraseDepth(ending[0].depth, active), s)
    ensures ending[0].depth in active
  {
    EraseDepthKeeps(ending[0].depth, active);
    EraseDepthCounts(ending[0].depth, active);
    assert ending[0].depth in DepthsOf(ending);
    assert forall x :: x in ending <==> x == ending[0] || x in ending[1..];
  }

  /** Brings the containers to position s: events that have begun enter, events that have ended leave by depth value. */
  method Advance(
    events: seq<StructuralEvent>, from: nat, heap: seq<EndDepth>, depths: seq<nat>, ghost before: nat, s: nat)
    returns (k: nat, ending: seq<EndDepth>, active: seq<nat>)
    requires StartsAscend(events) && Swept(events, from, heap, depths, before) && before <= s
    ensures Swept(events, k, ending, active, s)
    ensures forall j :: k <= j < |events| ==> s < events[j].scopeStart
    ensures forall x :: x in ending ==> s < x.end
  {
    k, ending, active := from, heap, depths;
    SweptLater(events, k, ending, active, before, s);
    while k < |events| && events[k].scopeStart <= s
      invariant Swept(events, k, ending, active, s)
    {
      EnterOne(events, k, ending, active, s);
      ending := Emplace(EndOf(events[k]), ending);
      active := InsertDepth(events[k].depth, active);
      k := k + 1;
    }
    while ending != [] && ending[0].end <= s
      invariant Swept(events, k, ending, active, s)
      decreases |ending|
    {
      DropOne(events, k, ending, active, s);
      active := EraseDepth(ending[0].depth, active);
      ending := ending[1..];
    }
  }

  lemma {:induction false} DepthsOfMembers(q: seq<EndDepth>, d: nat)
    ensures d in DepthsOf(q) <==> exists x :: x in q && x.depth == d
  {
    if q != [] {
      DepthsOfMembers(q[1..], d);
      assert forall x :: x in q <==> x == q[0] || x in q[1..];
      if d == q[0].depth {
        assert q[0] in q;
      }
    }
  }

  /** What the program reads off the containers is the depth of the position. */
  lemma SweptDepth(events: seq<StructuralEvent>, k: nat, ending: seq<EndDepth>, active: seq<nat>, s: nat)
    requires Swept(events, k, ending, active, s)
    requires forall j :: k <= j < |events| ==> s < events[j].scopeStart
    requires forall x :: x in ending ==> s < x.end
    ensures IsDepth(events, s, if active == [] then 0 else active[|active| - 1])
  {
    var d := if active == [] then 0 else active[|active| - 1];
    forall i | 0 <= i < |events| && Active(events[i], s) ensures events[i].depth <= d {
      assert EndOf(events[i]) in ending;
      DepthsOfMembers(ending, events[i].depth);
      assert events[i].depth in multiset(active);
      var m :| 0 <= m < |active| && active[m] == events[i].depth;
    }
    if d > 0 {
      assert d in multiset(active);
      DepthsOfMembers(ending, d);
      var x :| x in ending && x.depth == d;
      var j :| 0 <= j < k && x == EndOf(events[j]);
      assert Active(events[j], s);
    }
  }
}
