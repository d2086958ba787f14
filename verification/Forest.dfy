/**
 The shape that nesting depths give to a sequence of units: each unit's parent is the latest earlier one that is
 strictly shallower. Everything here is about the list of depths alone.
 */
module Forest {
  import opened Wrappers
  import opened Sequences

  /** The latest position before j that is shallower than position i. */
  function ShallowerBefore(ds: seq<nat>, i: nat, j: nat): (p: Option<nat>)
    requires j <= i < |ds|
    ensures p.Some? ==> p.value < j
  {
    if j == 0 then None else if ds[j - 1] < ds[i] then Some(j - 1) else ShallowerBefore(ds, i, j - 1)
  }

  function Parent(ds: seq<nat>, i: nat): (p: Option<nat>)
    requires i < |ds|
    ensures p.Some? ==> p.value < i
  {
    ShallowerBefore(ds, i, i)
  }

  /** p is shallower than i, and nothing between them is. */
  predicate IsParent(ds: seq<nat>, i: nat, p: Option<nat>)
    requires i < |ds|
  {
    match p
    case None => forall m :: 0 <= m < i ==> ds[m] >= ds[i]
    case Some(q) => q < i && ds[q] < ds[i] && forall m :: q < m < i ==> ds[m] >= ds[i]
  }

  lemma {:induction false} ShallowerBeforeMeaning(ds: seq<nat>, i: nat, j: nat)
    requires j <= i < |ds|
    requires forall m :: j <= m < i ==> ds[m] >= ds[i]
    ensures IsParent(ds, i, ShallowerBefore(ds, i, j))
  {
    if j > 0 && ds[j - 1] >= ds[i] {
      ShallowerBeforeMeaning(ds, i, j - 1);
    }
  }

  /** Being the parent is this property and determines it. */
  lemma ParentMeaning(ds: seq<nat>, i: nat, p: Option<nat>)
    requires i < |ds|
    ensures IsParent(ds, i, p) <==> p == Parent(ds, i)
  {
    ShallowerBeforeMeaning(ds, i, i);
  }

  /** Two for a root, and one more than the parent's for any other unit. */
  function Level(ds: seq<nat>, i: nat): nat
    requires i < |ds|
  {
    var p := Parent(ds, i);
    if p.None? then 2 else Level(ds, p.value) + 1
  }

  /** Everything from behind j up to i is deeper than j, so that i lies beneath j. */
  predicate Encloses(ds: seq<nat>, j: nat, i: nat)
    requires i < |ds|
  {
    j < i && forall k :: j < k <= i ==> ds[j] < ds[k]
  }

  /** How many of the first n positions enclose i. */
  function EnclosingCount(ds: seq<nat>, i: nat, n: nat): nat
    requires n <= i < |ds|
  {
    if n == 0 then 0 else EnclosingCount(ds, i, n - 1) + if Encloses(ds, n - 1, i) then 1 else 0
  }

  /** Up to its parent's own, what encloses a unit is what encloses its parent. */
  lemma {:induction false} SameEnclosing(ds: seq<nat>, i: nat, p: nat, n: nat)
    requires i < |ds| && IsParent(ds, i, Some(p)) && n <= p
    ensures EnclosingCount(ds, i, n) == EnclosingCount(ds, p, n)
  {
    if n > 0 {
      SameEnclosing(ds, i, p, n - 1);
    }
  }

  /** Nothing between its parent and a unit encloses it. */
  lemma {:induction false} NoneEncloses(ds: seq<nat>, i: nat, m: nat, n: nat)
    requires m <= n <= i < |ds| && forall k :: m <= k < i ==> ds[k] >= ds[i]
    ensures EnclosingCount(ds, i, n) == EnclosingCount(ds, i, m)
  {
    if m < n {
      NoneEncloses(ds, i, m, n - 1);
    }
  }

  /** The level is two more than the number of units that a unit lies beneath. */
  lemma {:induction false} LevelCounts(ds: seq<nat>, i: nat)
    requires i < |ds|
    ensures Level(ds, i) == 2 + EnclosingCount(ds, i, i)
    decreases i
  {
    var p := Parent(ds, i);
    ParentMeaning(ds, i, p);
    if p.None? {
      NoneEncloses(ds, i, 0, i);
    } else {
      var q := p.value;
      LevelCounts(ds, q);
      SameEnclosing(ds, i, q, q);
      NoneEncloses(ds, i, q + 1, i);
      assert Encloses(ds, q, i);
    }
  }

  /** The positions below n whose parent is p, in order. */
  function Children(ds: seq<nat>, p: Option<nat>, n: nat): (kids: seq<nat>)
    requires n <= |ds|
    ensures forall k :: 0 <= k < |kids| ==> kids[k] < n
    ensures forall k :: 0 <= k < |kids| && p.Some? ==> p.value < kids[k]
  {
    if n == 0 then []
    else
      var front := Children(ds, p, n - 1);
      if Parent(ds, n - 1) == p then front + [n - 1] else front
  }

  /** The first position from j on that is no deeper than i: where the subtree of i ends. */
  function NoDeeperFrom(ds: seq<nat>, i: nat, j: nat): (e: nat)
    requires i < |ds| && j <= |ds|
    ensures j <= e <= |ds|
    ensures forall m :: j <= m < e ==> ds[m] > ds[i]
    ensures e < |ds| ==> ds[e] <= ds[i]
    decreases |ds| - j
  {
    if j == |ds| || ds[j] <= ds[i] then j else NoDeeperFrom(ds, i, j + 1)
  }

  function SubtreeEnd(ds: seq<nat>, i: nat): (e: nat)
    requires i < |ds|
    ensures i < e <= |ds|
  {
    NoDeeperFrom(ds, i, i + 1)
  }

  /** Everything from a up to b hangs below p, and b is where p's subtree ends; without p, that is the whole list. */
  predicate IsBlock(ds: seq<nat>, p: Option<nat>, a: nat, b: nat) {
    && a <= b <= |ds|
    && (p.None? ==> b == |ds|)
    && (p.Some? ==> p.value < a && p.value < |ds| && b == SubtreeEnd(ds, p.value))
    && (a < b ==> Parent(ds, a) == p)
  }

  /** The siblings from a on: each begins where the subtree of the one before ends. */
  function Siblings(ds: seq<nat>, a: nat, b: nat): seq<nat>
    requires a <= b <= |ds|
    decreases |ds| - a
  {
    if a == b || SubtreeEnd(ds, a) > b then [] else [a] + Siblings(ds, SubtreeEnd(ds, a), b)
  }

  /** In a block, the first subtree ends inside, its positions have other parents, and another sibling follows or none. */
  lemma BlockStep(ds: seq<nat>, p: Option<nat>, a: nat, b: nat)
    requires IsBlock(ds, p, a, b) && a < b
    ensures SubtreeEnd(ds, a) <= b && IsBlock(ds, p, SubtreeEnd(ds, a), b)
    ensures forall m :: a < m < SubtreeEnd(ds, a) ==> Parent(ds, m) != p
    ensures IsBlock(ds, Some(a), a + 1, SubtreeEnd(ds, a))
  {
    var e := SubtreeEnd(ds, a);
    ParentMeaning(ds, a, p);
    forall m | a < m < e ensures Parent(ds, m) != p {
      ParentMeaning(ds, m, Parent(ds, m));
    }
    if e < b {
      ParentMeaning(ds, e, p);
    }
    if a + 1 < e {
      ParentMeaning(ds, a + 1, Some(a));
    }
  }

  lemma {:induction false} ChildrenSkip(ds: seq<nat>, p: Option<nat>, m: nat, n: nat)
    requires m <= n <= |ds| && forall k :: m <= k < n ==> Parent(ds, k) != p
    ensures Children(ds, p, n) == Children(ds, p, m)
    decreases n
  {
    if m < n {
      ChildrenSkip(ds, p, m, n - 1);
    }
  }

  /** The children collected up to the end of a block are those collected before it and then the block's siblings. */
  lemma {:induction false} ChildrenAreSiblings(ds: seq<nat>, p: Option<nat>, a: nat, b: nat)
    requires IsBlock(ds, p, a, b)
    ensures Children(ds, p, b) == Children(ds, p, a) + Siblings(ds, a, b)
    decreases b - a
  {
    if a < b {
      var e := SubtreeEnd(ds, a);
      BlockStep(ds, p, a, b);
      ChildrenSkip(ds, p, a + 1, e);
      ChildrenAreSiblings(ds, p, e, b);
      Assoc(Children(ds, p, a), [a], Siblings(ds, e, b));
    }
  }

  lemma {:induction false} NoChildrenBefore(ds: seq<nat>, p: nat, n: nat)
    requires n <= |ds| && n <= p + 1
    ensures Children(ds, Some(p), n) == []
  {
    if n > 0 {
      NoChildrenBefore(ds, p, n - 1);
    }
  }

  /** Nothing after the end of its subtree has p as parent. */
  lemma NoChildrenAfter(ds: seq<nat>, p: nat)
    requires p < |ds|
    ensures Children(ds, Some(p), |ds|) == Children(ds, Some(p), SubtreeEnd(ds, p))
  {
    var e := SubtreeEnd(ds, p);
    forall m | e <= m < |ds| ensures Parent(ds, m) != Some(p) {
      ParentMeaning(ds, m, Some(p));
    }
    ChildrenSkip(ds, Some(p), e, |ds|);
  }

  /** A unit's children are the chain of siblings right after it, up to where its subtree ends. */
  lemma ChildrenOfUnit(ds: seq<nat>, p: nat)
    requires p < |ds|
    ensures Children(ds, Some(p), |ds|) == Siblings(ds, p + 1, SubtreeEnd(ds, p))
  {
    if p + 1 < SubtreeEnd(ds, p) {
      ParentMeaning(ds, p + 1, Some(p));
    }
    NoChildrenBefore(ds, p, p + 1);
    NoChildrenAfter(ds, p);
    ChildrenAreSiblings(ds, Some(p), p + 1, SubtreeEnd(ds, p));
  }

  lemma RootsAreSiblings(ds: seq<nat>)
    ensures Children(ds, None, |ds|) == Siblings(ds, 0, |ds|)
  {
    ChildrenAreSiblings(ds, None, 0, |ds|);
  }
}
