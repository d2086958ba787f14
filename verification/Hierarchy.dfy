/** Nesting semantic units into a tree and totalling it: src/core.cc:14-31, 277-345 and 360-368. */
module Hierarchy {
  import opened Wrappers
  import opened Sequences
  import opened Units
  import opened Forest

  datatype Unit = Unit(start: nat, end: nat, level: nat, branching: nat, children: seq<Unit>)

  /** A unit while the tree is under construction; children are indices into the arena. */
  datatype ArenaUnit = ArenaUnit(start: nat, end: nat, depth: nat, level: nat, children: seq<nat>)

  function Depths(units: seq<SemanticUnit>): (ds: seq<nat>)
    ensures |ds| == |units|
  {
    seq(|units|, i requires 0 <= i < |units| => units[i].depth)
  }

  // ----- The tree that the depths describe

  /** The greatest end among the units from a up to b. */
  function LastEnd(units: seq<SemanticUnit>, a: nat, b: nat): nat
    requires a < b <= |units|
    decreases b - a
  {
    if a + 1 == b then units[a].end else Max(units[a].end, LastEnd(units, a + 1, b))
  }

  /** It is one of their ends, and no other is greater. */
  lemma {:induction false} LastEndMeaning(units: seq<SemanticUnit>, a: nat, b: nat)
    requires a < b <= |units|
    ensures exists k :: a <= k < b && units[k].end == LastEnd(units, a, b)
    ensures forall k :: a <= k < b ==> units[k].end <= LastEnd(units, a, b)
    decreases b - a
  {
    if a + 1 < b {
      LastEndMeaning(units, a + 1, b);
      var k :| a + 1 <= k < b && units[k].end == LastEnd(units, a + 1, b);
      var last := if units[a].end > units[k].end then a else k;
      assert units[last].end == LastEnd(units, a, b);
    } else {
      assert units[a].end == LastEnd(units, a, b);
    }
  }

  /** The unit at i with everything beneath it. */
  function Tree(units: seq<SemanticUnit>, i: nat): Unit
    requires i < |units|
    decreases |units| - i, 1
  {
    var ds := Depths(units);
    var kids := Children(ds, Some(i), |units|);
    Unit(units[i].start, LastEnd(units, i, SubtreeEnd(ds, i)), Level(ds, i), |kids|, Trees(units, kids, i + 1))
  }

  function Trees(units: seq<SemanticUnit>, kids: seq<nat>, low: nat): (trees: seq<Unit>)
    requires low <= |units| && forall k :: 0 <= k < |kids| ==> low <= kids[k] < |units|
    ensures |trees| == |kids|
    decreases |units| - low, 2, |kids|
  {
    if kids == [] then [] else Trees(units, kids[..|kids| - 1], low) + [Tree(units, kids[|kids| - 1])]
  }

  /** The tree as a list of roots. */
  function ForestOf(units: seq<SemanticUnit>): seq<Unit> {
    Trees(units, Children(Depths(units), None, |units|), 0)
  }

  // ----- Preorder

  /** A unit without its children. */
  datatype Entry = Entry(start: nat, end: nat, level: nat, branching: nat)

  function Preorder(u: Unit): seq<Entry>
    decreases u, 0
  {
    [Entry(u.start, u.end, u.level, u.branching)] + PreorderAll(u.children)
  }

  function PreorderAll(us: seq<Unit>): seq<Entry>
    decreases us, 1
  {
    if us == [] then [] else PreorderAll(us[..|us| - 1]) + Preorder(us[|us| - 1])
  }

  /** What the tree should say about the unit at i. */
  function EntryAt(units: seq<SemanticUnit>, i: nat): Entry
    requires i < |units|
  {
    var ds := Depths(units);
    Entry(units[i].start, LastEnd(units, i, SubtreeEnd(ds, i)), Level(ds, i), |Children(ds, Some(i), |units|)|)
  }

  function Entries(units: seq<SemanticUnit>, a: nat, b: nat): (entries: seq<Entry>)
    requires a <= b <= |units|
    ensures |entries| == b - a
  {
    seq(b - a, k requires 0 <= k < b - a => EntryAt(units, a + k))
  }

  lemma EntriesJoin(units: seq<SemanticUnit>, a: nat, b: nat, c: nat)
    requires a <= b <= c <= |units|
    ensures Entries(units, a, b) + Entries(units, b, c) == Entries(units, a, c)
  {
  }

  lemma {:induction false} PreorderAllConcat(a: seq<Unit>, b: seq<Unit>)
    ensures PreorderAll(a + b) == PreorderAll(a) + PreorderAll(b)
    decreases |b|
  {
    if b == [] {
      assert a + b == a;
    } else {
      var front, u := b[..|b| - 1], b[|b| - 1];
      PreorderAllConcat(a, front);
      assert a + b == (a + front) + [u];
      PreorderAllAppend(a + front, u);
      Assoc(PreorderAll(a), PreorderAll(front), Preorder(u));
    }
  }

  lemma PreorderAllAppend(us: seq<Unit>, u: Unit)
    ensures PreorderAll(us + [u]) == PreorderAll(us) + Preorder(u)
  {
    assert (us + [u])[..|us|] == us;
  }

  lemma {:induction false} TreesConcat(units: seq<SemanticUnit>, a: seq<nat>, b: seq<nat>, low: nat)
    requires low <= |units|
    requires forall k :: 0 <= k < |a| ==> low <= a[k] < |units|
    requires forall k :: 0 <= k < |b| ==> low <= b[k] < |units|
    ensures Trees(units, a + b, low) == Trees(units, a, low) + Trees(units, b, low)
    decreases |b|
  {
    if b == [] {
      assert a + b == a;
    } else {
      var front := b[..|b| - 1];
      TreesConcat(units, a, front, low);
      assert (a + b)[..|a + b| - 1] == a + front;
      Assoc(Trees(units, a, low), Trees(units, front, low), [Tree(units, b[|b| - 1])]);
    }
  }

  lemma {:induction false} SiblingsBounds(ds: seq<nat>, a: nat, b: nat)
    requires a <= b <= |ds|
    ensures forall k :: 0 <= k < |Siblings(ds, a, b)| ==> a <= Siblings(ds, a, b)[k] < |ds|
    decreases |ds| - a
  {
    if !(a == b || SubtreeEnd(ds, a) > b) {
      SiblingsBounds(ds, SubtreeEnd(ds, a), b);
    }
  }

  lemma {:induction false} PreorderOfTree(units: seq<SemanticUnit>, i: nat)
    requires i < |units|
    ensures Preorder(Tree(units, i)) == Entries(units, i, SubtreeEnd(Depths(units), i))
    decreases |units| - i, 1
  {
    var ds := Depths(units);
    var e := SubtreeEnd(ds, i);
    ChildrenOfUnit(ds, i);
    var kids := Siblings(ds, i + 1, e);
    if i + 1 < e {
      ParentMeaning(ds, i + 1, Some(i));
    }
    PreorderOfSiblings(units, Some(i), i + 1, e, i + 1);
    FirstEntry(units, i, e);
  }

  lemma FirstEntry(units: seq<SemanticUnit>, i: nat, e: nat)
    requires i < e <= |units|
    ensures Entries(units, i, e) == [EntryAt(units, i)] + Entries(units, i + 1, e)
  {
    EntriesJoin(units, i, i + 1, e);
    assert Entries(units, i, i + 1) == [EntryAt(units, i)];
  }

  lemma {:induction false} PreorderOfSiblings(units: seq<SemanticUnit>, p: Option<nat>, a: nat, b: nat, low: nat)
    requires low <= a && IsBlock(Depths(units), p, a, b)
    ensures forall k :: 0 <= k < |Siblings(Depths(units), a, b)| ==> low <= Siblings(Depths(units), a, b)[k] < |units|
    ensures PreorderAll(Trees(units, Siblings(Depths(units), a, b), low)) == Entries(units, a, b)
    decreases |units| - a, 2
  {
    var ds := Depths(units);
    SiblingsBounds(ds, a, b);
    if a < b {
      var e := SubtreeEnd(ds, a);
      BlockStep(ds, p, a, b);
      var rest := Siblings(ds, e, b);
      PreorderOfTree(units, a);
      PreorderOfSiblings(units, p, e, b, low);
      FirstTree(units, a, rest, low);
      EntriesJoin(units, a, e, b);
    }
  }

  lemma FirstTree(units: seq<SemanticUnit>, a: nat, rest: seq<nat>, low: nat)
    requires low <= a < |units|
    requires forall k :: 0 <= k < |rest| ==> low <= rest[k] < |units|
    ensures PreorderAll(Trees(units, [a] + rest, low)) == Preorder(Tree(units, a)) + PreorderAll(Trees(units, rest, low))
  {
    TreesConcat(units, [a], rest, low);
    PreorderAllConcat(Trees(units, [a], low), Trees(units, rest, low));
    OneTree(units, a, low);
  }

  lemma OneTree(units: seq<SemanticUnit>, a: nat, low: nat)
    requires low <= a < |units|
    ensures PreorderAll(Trees(units, [a], low)) == Preorder(Tree(units, a))
  {
    var one := [Tree(units, a)];
    assert Trees(units, [a], low) == one;
    assert one[..0] == [] && PreorderAll([]) == [];
  }

  /**
   Read in preorder the forest is the input sequence: every unit once, in place, with the last end of its subtree,
   its level, and the number of units whose parent it is.
   */
  lemma ForestReadsBack(units: seq<SemanticUnit>)
    ensures PreorderAll(ForestOf(units)) == Entries(units, 0, |units|)
  {
    var ds := Depths(units);
    RootsAreSiblings(ds);
    if units != [] {
      ParentMeaning(ds, 0, None);
    }
    PreorderOfSiblings(units, None, 0, |units|, 0);
  }

  // ----- Building the arena

  /** The stack is a path of units from a root down to the unit before k, each the parent of the next. */
  predicate StackOk(ds: seq<nat>, stack: seq<nat>, k: nat) {
    && k <= |ds|
    && (forall s :: 0 <= s < |stack| ==>
          stack[s] < k && Parent(ds, stack[s]) == Top(stack[..s]))
  }

  function Top(stack: seq<nat>): Option<nat> {
    if stack == [] then None else Some(stack[|stack| - 1])
  }

  lemma StackPop(ds: seq<nat>, stack: seq<nat>, k: nat)
    requires StackOk(ds, stack, k) && stack != []
    ensures StackOk(ds, stack[..|stack| - 1], k)
    ensures Parent(ds, stack[|stack| - 1]) == Top(stack[..|stack| - 1])
  {
    var front := stack[..|stack| - 1];
    forall s | 0 <= s < |front| ensures front[s] < k && Parent(ds, front[s]) == Top(front[..s]) {
      assert front[s] == stack[s] && front[..s] == stack[..s];
    }
  }

  lemma StackPush(ds: seq<nat>, stack: seq<nat>, k: nat)
    requires StackOk(ds, stack, k) && k < |ds| && Top(stack) == Parent(ds, k)
    ensures StackOk(ds, stack + [k], k + 1) && Top(stack + [k]) == Some(k)
  {
    var longer := stack + [k];
    forall s | 0 <= s < |longer| ensures longer[s] < k + 1 && Parent(ds, longer[s]) == Top(longer[..s]) {
      if s < |stack| {
        assert longer[s] == stack[s] && longer[..s] == stack[..s];
      } else {
        assert longer[..s] == stack;
      }
    }
  }

  /** Popping what is not shallower leaves the parent of the next unit on top. */
  method PopTo(ds: seq<nat>, stack0: seq<nat>, k: nat) returns (stack: seq<nat>)
    requires k < |ds| && StackOk(ds, stack0, k) && Top(stack0) == (if k == 0 then None else Some(k - 1))
    ensures StackOk(ds, stack, k) && Top(stack) == Parent(ds, k)
  {
    stack := stack0;
    while stack != [] && ds[stack[|stack| - 1]] >= ds[k]
      invariant StackOk(ds, stack, k) && NoneShallower(ds, AfterTop(stack), k)
      decreases |stack|
    {
      PopOne(ds, stack, k);
      stack := stack[..|stack| - 1];
    }
    ParentMeaning(ds, k, Top(stack));
  }

  function AfterTop(stack: seq<nat>): nat {
    if stack == [] then 0 else stack[|stack| - 1] + 1
  }

  /** From position a up to k nothing is shallower than k. */
  predicate NoneShallower(ds: seq<nat>, a: nat, k: nat)
    requires k < |ds|
  {
    forall m :: a <= m < k ==> ds[m] >= ds[k]
  }

  lemma PopOne(ds: seq<nat>, stack: seq<nat>, k: nat)
    requires k < |ds| && StackOk(ds, stack, k) && stack != [] && ds[stack[|stack| - 1]] >= ds[k]
    requires NoneShallower(ds, AfterTop(stack), k)
    ensures StackOk(ds, stack[..|stack| - 1], k) && NoneShallower(ds, AfterTop(stack[..|stack| - 1]), k)
  {
    var top := stack[|stack| - 1];
    StackPop(ds, stack, k);
    ParentMeaning(ds, top, Parent(ds, top));
  }

  /** What the arena holds about unit i once k units have been read. */
  function ArenaAt(units: seq<SemanticUnit>, i: nat, k: nat): ArenaUnit
    requires i < k <= |units|
  {
    var ds := Depths(units);
    ArenaUnit(units[i].start, units[i].end, units[i].depth, Level(ds, i), Children(ds, Some(i), k))
  }

  predicate ArenaOk(units: seq<SemanticUnit>, arena: seq<ArenaUnit>) {
    |arena| <= |units| && forall i :: 0 <= i < |arena| ==> arena[i] == ArenaAt(units, i, |arena|)
  }

  /** Appending the next unit, and listing it with its parent, keeps the arena's account. */
  lemma ArenaGrows(units: seq<SemanticUnit>, arena: seq<ArenaUnit>, next: seq<ArenaUnit>)
    requires ArenaOk(units, arena) && |arena| < |units| == |Depths(units)| && |next| == |arena| + 1
    requires var k, ds := |arena|, Depths(units);
             && next[k] == ArenaUnit(units[k].start, units[k].end, units[k].depth, Level(ds, k), [])
             && forall i :: 0 <= i < k ==>
                  next[i] == if Parent(ds, k) == Some(i) then arena[i].(children := arena[i].children + [k]) else arena[i]
    ensures ArenaOk(units, next)
  {
    NoChildrenBefore(Depths(units), |arena|, |next|);
  }

  /** What is known once k units have been read: the arena, the roots, and the path down to the last of them. */
  ghost predicate Filling(units: seq<SemanticUnit>, arena: seq<ArenaUnit>, roots: seq<nat>, stack: seq<nat>, k: nat) {
    && k == |arena| <= |units| && ArenaOk(units, arena)
    && roots == Children(Depths(units), None, k)
    && StackOk(Depths(units), stack, k) && Top(stack) == (if k == 0 then None else Some(k - 1))
  }

  method FillArena(units: seq<SemanticUnit>) returns (arena: seq<ArenaUnit>, roots: seq<nat>)
    ensures |arena| == |units| && ArenaOk(units, arena)
    ensures roots == Children(Depths(units), None, |units|)
  {
    var stack: seq<nat> := [];
    arena, roots := [], [];
    for k := 0 to |units|
      invariant Filling(units, arena, roots, stack, k)
    {
      arena, roots, stack := ReadUnit(units, arena, roots, stack, k);
    }
  }

  /** One round of FillArena. */
  method ReadUnit(units: seq<SemanticUnit>, arena0: seq<ArenaUnit>, roots0: seq<nat>, stack0: seq<nat>, k: nat)
    returns (arena: seq<ArenaUnit>, roots: seq<nat>, stack: seq<nat>)
    requires k < |units| && Filling(units, arena0, roots0, stack0, k)
    ensures Filling(units, arena, roots, stack, k + 1)
  {
    stack := PopTo(Depths(units), stack0, k);
    arena := AddUnit(units, arena0, stack, k);
    roots := if stack == [] then roots0 + [k] else roots0;
    OneMoreRoot(Depths(units), k);
    StackPush(Depths(units), stack, k);
    stack := stack + [k];
  }

  lemma OneMoreRoot(ds: seq<nat>, k: nat)
    requires k < |ds|
    ensures Children(ds, None, k + 1) == Children(ds, None, k) + if Parent(ds, k) == None then [k] else []
  {
  }

  /** Enters unit k beneath the unit on top of the stack, if there is one. */
  method AddUnit(units: seq<SemanticUnit>, arena0: seq<ArenaUnit>, stack: seq<nat>, k: nat)
    returns (arena: seq<ArenaUnit>)
    requires |arena0| == k < |units| && ArenaOk(units, arena0)
    requires StackOk(Depths(units), stack, k) && Top(stack) == Parent(Depths(units), k)
    ensures |arena| == k + 1 && ArenaOk(units, arena)
  {
    var semantic := units[k];
    var level := if stack == [] then 2 else arena0[stack[|stack| - 1]].level + 1;
    arena := arena0 + [ArenaUnit(semantic.start, semantic.end, semantic.depth, level, [])];
    if stack != [] {
      var top := stack[|stack| - 1];
      arena := arena[top := arena[top].(children := arena[top].children + [k])];
    }
    ArenaGrows(units, arena0, arena);
  }

  // ----- Ends

  /** The end of a unit after its children's ends have been taken in, one by one. */
  function EndFrom(units: seq<SemanticUnit>, own: nat, kids: seq<nat>): nat
    requires forall k :: 0 <= k < |kids| ==> kids[k] < |units|
    decreases |kids|
  {
    if kids == [] then own
    else EndFrom(units, Max(own, LastEnd(units, kids[0], SubtreeEnd(Depths(units), kids[0]))), kids[1..])
  }

  lemma {:induction false} LastEndJoin(units: seq<SemanticUnit>, a: nat, b: nat, c: nat)
    requires a < b < c <= |units|
    ensures LastEnd(units, a, c) == Max(LastEnd(units, a, b), LastEnd(units, b, c))
    decreases b - a
  {
    if a + 1 < b {
      LastEndJoin(units, a + 1, b, c);
    }
  }

  lemma {:induction false} SiblingEnds(units: seq<SemanticUnit>, own: nat, p: Option<nat>, a: nat, b: nat)
    requires IsBlock(Depths(units), p, a, b)
    ensures forall k :: 0 <= k < |Siblings(Depths(units), a, b)| ==> Siblings(Depths(units), a, b)[k] < |units|
    ensures EndFrom(units, own, Siblings(Depths(units), a, b)) ==
            if a == b then own else Max(own, LastEnd(units, a, b))
    decreases b - a
  {
    var ds := Depths(units);
    SiblingsBounds(ds, a, b);
    if a < b {
      var e := SubtreeEnd(ds, a);
      BlockStep(ds, p, a, b);
      assert Siblings(ds, a, b)[1..] == Siblings(ds, e, b);
      SiblingEnds(units, Max(own, LastEnd(units, a, e)), p, e, b);
      if e < b {
        LastEndJoin(units, a, e, b);
      }
    }
  }

  /** Taking in the children's ends gives the last end of the subtree. */
  lemma EndOfUnit(units: seq<SemanticUnit>, i: nat)
    requires i < |units|
    ensures EndFrom(units, units[i].end, Children(Depths(units), Some(i), |units|)) ==
            LastEnd(units, i, SubtreeEnd(Depths(units), i))
  {
    var ds := Depths(units);
    var e := SubtreeEnd(ds, i);
    ChildrenOfUnit(ds, i);
    if i + 1 < e {
      ParentMeaning(ds, i + 1, Some(i));
    }
    SiblingEnds(units, units[i].end, Some(i), i + 1, e);
  }

  /** What the arena says about unit i when its end is final. */
  function FinalAt(units: seq<SemanticUnit>, i: nat): ArenaUnit
    requires i < |units|
  {
    ArenaAt(units, i, |units|).(end := LastEnd(units, i, SubtreeEnd(Depths(units), i)))
  }

  predicate EndsFrom(units: seq<SemanticUnit>, arena: seq<ArenaUnit>, n: nat) {
    && |arena| == |units|
    && forall i :: 0 <= i < |arena| ==> arena[i] == if i < n then ArenaAt(units, i, |units|) else FinalAt(units, i)
  }

  method SettleEnds(units: seq<SemanticUnit>, arena0: seq<ArenaUnit>) returns (arena: seq<ArenaUnit>)
    requires |arena0| == |units| && ArenaOk(units, arena0)
    ensures EndsFrom(units, arena, 0)
  {
    arena := arena0;
    var index: nat := |arena|;
    while index > 0
      invariant index <= |units| && EndsFrom(units, arena, index)
    {
      index := index - 1;
      var end := SettleEnd(units, arena, index);
      arena := arena[index := arena[index].(end := end)];
    }
  }

  method SettleEnd(units: seq<SemanticUnit>, arena: seq<ArenaUnit>, index: nat) returns (end: nat)
    requires index < |units| && EndsFrom(units, arena, index + 1)
    ensures end == LastEnd(units, index, SubtreeEnd(Depths(units), index))
  {
    EndOfUnit(units, index);
    var kids := arena[index].children;
    end := arena[index].end;
    var j := 0;
    while j < |kids|
      invariant j <= |kids|
      invariant EndFrom(units, end, kids[j..]) == EndFrom(units, units[index].end, kids)
    {
      assert kids[j..][1..] == kids[j + 1..];
      end := Max(end, arena[kids[j]].end);
      j := j + 1;
    }
  }

  // ----- Materializing

  /** The trees of the listed units, once each of them has been built. */
  method Collect(units: seq<SemanticUnit>, built: seq<Unit>, kids: seq<nat>, low: nat) returns (trees: seq<Unit>)
    requires low <= |units| == |built| && forall k :: 0 <= k < |kids| ==> low <= kids[k] < |units|
    requires forall i :: low <= i < |units| ==> built[i] == Tree(units, i)
    ensures trees == Trees(units, kids, low)
  {
    trees := [];
    var j := 0;
    while j < |kids|
      invariant j <= |kids| && trees == Trees(units, kids[..j], low)
    {
      assert kids[..j + 1][..j] == kids[..j];
      trees := trees + [built[kids[j]]];
      j := j + 1;
    }
    assert kids[..j] == kids;
  }

  method Materialize(units: seq<SemanticUnit>, arena: seq<ArenaUnit>) returns (built: seq<Unit>)
    requires EndsFrom(units, arena, 0)
    ensures |built| == |units| && forall i :: 0 <= i < |units| ==> built[i] == Tree(units, i)
  {
    built := seq(|arena|, i => Unit(0, 0, 0, 0, []));
    var index: nat := |arena|;
    while index > 0
      invariant index <= |units| == |built|
      invariant forall i :: index <= i < |units| ==> built[i] == Tree(units, i)
    {
      index := index - 1;
      var node := arena[index];
      var children := Collect(units, built, node.children, index + 1);
      built := built[index := Unit(node.start, node.end, node.level, |children|, children)];
    }
  }

  /** BuildHierarchyImpl: a single unit may be left to the implicit root. */
  method BuildHierarchy(units: seq<SemanticUnit>, suppressSingleRoot: bool) returns (forest: seq<Unit>)
    ensures forest == Represented(units, suppressSingleRoot)
  {
    if units == [] || (suppressSingleRoot && |units| == 1) {
      return [];
    }
    var arena, roots := FillArena(units);
    arena := SettleEnds(units, arena);
    var built := Materialize(units, arena);
    forest := Collect(units, built, roots, 0);
  }

  function Represented(units: seq<SemanticUnit>, suppressSingleRoot: bool): seq<Unit> {
    if units == [] || (suppressSingleRoot && |units| == 1) then [] else ForestOf(units)
  }

  // ----- Totals

  function SumBranching(us: seq<Unit>): nat
    decreases us, 1
  {
    if us == [] then 0 else SumBranching(us[..|us| - 1]) + BranchingBelow(us[|us| - 1])
  }

  function BranchingBelow(u: Unit): nat
    decreases u, 0
  {
    u.branching + SumBranching(u.children)
  }

  function SumLevels(us: seq<Unit>): nat
    decreases us, 1
  {
    if us == [] then 0 else SumLevels(us[..|us| - 1]) + LevelsBelow(us[|us| - 1])
  }

  function LevelsBelow(u: Unit): nat
    decreases u, 0
  {
    u.level + SumLevels(u.children)
  }

  function Size(us: seq<Unit>): nat
    decreases us, 1
  {
    if us == [] then 0 else Size(us[..|us| - 1]) + 1 + SizeBelow(us[|us| - 1])
  }

  function SizeBelow(u: Unit): nat
    decreases u, 0
  {
    Size(u.children)
  }

  lemma {:induction false} SumsConcat(a: seq<Unit>, b: seq<Unit>)
    ensures SumBranching(a + b) == SumBranching(a) + SumBranching(b)
    ensures SumLevels(a + b) == SumLevels(a) + SumLevels(b)
    ensures Size(a + b) == Size(a) + Size(b)
    decreases |b|
  {
    if b == [] {
      assert a + b == a;
    } else {
      SumsConcat(a, b[..|b| - 1]);
      assert (a + b)[..|a + b| - 1] == a + b[..|b| - 1];
    }
  }

  /** The work list: takes a unit off and puts its children on. */
  method Totals(units: seq<Unit>) returns (branches: nat, levels: nat)
    ensures branches == SumBranching(units) && levels == SumLevels(units)
  {
    branches, levels := 0, 0;
    var pending := units;
    while pending != []
      invariant branches + SumBranching(pending) == SumBranching(units)
      invariant levels + SumLevels(pending) == SumLevels(units)
      decreases Size(pending)
    {
      var unit := pending[|pending| - 1];
      assert Size(pending) == Size(pending[..|pending| - 1]) + 1 + Size(unit.children);
      pending := pending[..|pending| - 1];
      branches := branches + unit.branching;
      levels := levels + unit.level;
      SumsConcat(pending, unit.children);
      pending := pending + unit.children;
    }
  }

  /** In a tree whose branching counts are right, every unit but the given ones is somebody's child. */
  predicate CountsChildren(us: seq<Unit>)
    decreases us, 1
  {
    us == [] || (CountsChildren(us[..|us| - 1]) && CountsBelow(us[|us| - 1]))
  }

  predicate CountsBelow(u: Unit)
    decreases u, 0
  {
    u.branching == |u.children| && CountsChildren(u.children)
  }

  lemma {:induction false} SizeFromBranching(us: seq<Unit>)
    requires CountsChildren(us)
    ensures Size(us) == |us| + SumBranching(us)
    decreases us
  {
    if us != [] {
      SizeFromBranching(us[..|us| - 1]);
      SizeFromBranching(us[|us| - 1].children);
    }
  }

  lemma {:induction false} TreesCount(units: seq<SemanticUnit>, kids: seq<nat>, low: nat)
    requires low <= |units| && forall k :: 0 <= k < |kids| ==> low <= kids[k] < |units|
    ensures CountsChildren(Trees(units, kids, low))
    decreases |units| - low, 1, |kids|
  {
    if kids != [] {
      var last := kids[|kids| - 1];
      var front := kids[..|kids| - 1];
      TreesCount(units, front, low);
      TreeCounts(units, last);
      CountsOneMore(Trees(units, front, low), Tree(units, last));
    }
  }

  lemma {:induction false} TreeCounts(units: seq<SemanticUnit>, i: nat)
    requires i < |units|
    ensures CountsBelow(Tree(units, i))
    decreases |units| - i, 0
  {
    TreesCount(units, Children(Depths(units), Some(i), |units|), i + 1);
  }

  lemma CountsOneMore(us: seq<Unit>, u: Unit)
    requires CountsChildren(us) && CountsBelow(u)
    ensures CountsChildren(us + [u])
  {
    assert (us + [u])[..|us|] == us;
  }

  lemma {:induction false} SizeOfPreorder(us: seq<Unit>)
    ensures |PreorderAll(us)| == Size(us)
    decreases us
  {
    if us != [] {
      SizeOfPreorder(us[..|us| - 1]);
      SizeOfPreorder(us[|us| - 1].children);
    }
  }

  function LevelSum(entries: seq<Entry>): nat {
    if entries == [] then 0 else LevelSum(entries[..|entries| - 1]) + entries[|entries| - 1].level
  }

  lemma {:induction false} LevelSumConcat(a: seq<Entry>, b: seq<Entry>)
    ensures LevelSum(a + b) == LevelSum(a) + LevelSum(b)
    decreases |b|
  {
    if b == [] {
      assert a + b == a;
    } else {
      LevelSumConcat(a, b[..|b| - 1]);
      assert (a + b)[..|a + b| - 1] == a + b[..|b| - 1];
    }
  }

  lemma {:induction false} LevelsOfPreorder(us: seq<Unit>)
    ensures LevelSum(PreorderAll(us)) == SumLevels(us)
    decreases us
  {
    if us != [] {
      var u := us[|us| - 1];
      LevelsOfPreorder(us[..|us| - 1]);
      LevelsOfPreorder(u.children);
      LevelSumConcat(PreorderAll(us[..|us| - 1]), Preorder(u));
      var own := [Entry(u.start, u.end, u.level, u.branching)];
      LevelSumConcat(own, PreorderAll(u.children));
      assert own[..0] == [] && LevelSum(own) == u.level;
    }
  }

  /** The sum of the levels of the units that are represented. */
  function SumOfLevels(units: seq<SemanticUnit>, n: nat): nat
    requires n <= |units|
  {
    if n == 0 then 0 else SumOfLevels(units, n - 1) + Level(Depths(units), n - 1)
  }

  lemma {:induction false} LevelSumOfEntries(units: seq<SemanticUnit>, n: nat)
    requires n <= |units|
    ensures LevelSum(Entries(units, 0, n)) == SumOfLevels(units, n)
  {
    if n > 0 {
      LevelSumOfEntries(units, n - 1);
      assert Entries(units, 0, n)[..n - 1] == Entries(units, 0, n - 1);
    }
  }

  /** The totals of the whole forest, before Analyze adds the implicit root. */
  lemma TotalsOfForest(units: seq<SemanticUnit>)
    ensures |ForestOf(units)| + SumBranching(ForestOf(units)) == |units|
    ensures SumLevels(ForestOf(units)) == SumOfLevels(units, |units|)
  {
    var forest := ForestOf(units);
    ForestReadsBack(units);
    TreesCount(units, Children(Depths(units), None, |units|), 0);
    SizeFromBranching(forest);
    SizeOfPreorder(forest);
    LevelsOfPreorder(forest);
    LevelSumOfEntries(units, |units|);
  }

  /** The units that are not left to the implicit root. */
  function Shown(units: seq<SemanticUnit>, structural: bool): seq<SemanticUnit> {
    if structural && |units| == 1 then [] else units
  }

  /** The counts Analyze reports: one branch per unit shown, and one level for the source besides theirs. */
  method AnalyzeTotals(units: seq<SemanticUnit>, structural: bool, hasSource: bool)
    returns (forest: seq<Unit>, branches: nat, levels: nat)
    ensures forest == Represented(units, structural)
    ensures hasSource || units == [] ==>
              var shown := Shown(units, structural);
              branches == |shown| && levels == SumOfLevels(shown, |shown|) + if hasSource then 1 else 0
  {
    forest := BuildHierarchy(units, structural);
    branches, levels := Totals(forest);
    if hasSource {
      branches := branches + |forest|;
      levels := levels + 1;
    }
    TotalsOfForest(Shown(units, structural));
    TotalsOfForest([]);
    assert ForestOf([]) == [];
  }
}
