/** Overlapping inference windows: src/score_cmd.cc:1696-1764. */
module Windows {
  import opened Wrappers
  import opened Arithmetic

  datatype Plan = Plan(tokenCount: nat, contextSize: nat, stride: nat, windowCount: nat)

  /** Tokens from begin to end are decoded; targets from scoredBegin on are scored. */
  datatype Window = Window(begin: nat, end: nat, scoredBegin: nat)

  /** PlanScoreWindows: None instead of an error. */
  function PlanScoreWindows(tokenCount: nat, contextSize: nat): (plan: Option<Plan>)
    ensures plan.Some? <==> contextSize > 0 && (tokenCount < 2 || contextSize >= 2)
    ensures plan.Some? ==> plan.value.tokenCount == tokenCount && plan.value.contextSize == contextSize
    ensures plan.Some? ==> (plan.value.windowCount == 0 <==> tokenCount < 2)
  {
    if contextSize == 0 then None
    else if tokenCount < 2 then Some(Plan(tokenCount, contextSize, contextSize / 2, 0))
    else if contextSize < 2 then None
    else if tokenCount <= contextSize then Some(Plan(tokenCount, contextSize, contextSize / 2, 1))
    else
      var stride := contextSize / 2;
      Some(Plan(tokenCount, contextSize, stride, 2 + (tokenCount - contextSize - 1) / stride))
  }

  predicate IsPlan(plan: Plan) {
    PlanScoreWindows(plan.tokenCount, plan.contextSize) == Some(plan)
  }

  function EndOf(plan: Plan, begin: nat): nat
    requires begin <= plan.tokenCount
  {
    if plan.tokenCount - begin < plan.contextSize then plan.tokenCount else begin + plan.contextSize
  }

  /** Windows begin inside the source, which the source's unsigned subtractions rely on. */
  lemma BeginsInside(plan: Plan, i: nat)
    requires IsPlan(plan) && i < plan.windowCount
    ensures i * plan.stride < plan.tokenCount
    ensures i + 1 < plan.windowCount ==> i * plan.stride + plan.contextSize < plan.tokenCount
    ensures i + 1 == plan.windowCount ==> plan.tokenCount <= i * plan.stride + plan.contextSize
    ensures i > 0 ==> (i - 1) * plan.stride + plan.stride == i * plan.stride
  {
    if plan.windowCount > 1 {
      var s, rest := plan.stride, plan.tokenCount - plan.contextSize - 1;
      var q := rest / s;
      assert q * s <= rest < q * s + s by {
        assert rest == q * s + rest % s;
      }
      if i <= q {
        AtMostTimes(i, q, s);
      } else {
        assert i * s == q * s + s;
      }
    }
  }

  /** ScoreWindowAt: None instead of the out-of-range error. */
  function ScoreWindowAt(plan: Plan, i: nat): Option<Window>
    requires IsPlan(plan)
  {
    if i >= plan.windowCount then None
    else
      BeginsInside(plan, i);
      var begin := i * plan.stride;
      if i == 0 then Some(Window(0, EndOf(plan, begin), 1))
      else
        BeginsInside(plan, i - 1);
        Some(Window(begin, EndOf(plan, begin), EndOf(plan, (i - 1) * plan.stride)))
  }

  function WindowAt(plan: Plan, i: nat): Window
    requires IsPlan(plan) && i < plan.windowCount
  {
    ScoreWindowAt(plan, i).value
  }

  /**
   Each window fits the context and scores at least one target. All but the first have exactly half a context of
   history, rounded up, and all but the last fill the context, so no window could be left out.
   */
  predicate WindowOk(plan: Plan, i: nat)
    requires IsPlan(plan) && i < plan.windowCount
  {
    var w := WindowAt(plan, i);
    && w.begin < w.scoredBegin < w.end <= plan.tokenCount
    && 2 <= w.end - w.begin <= plan.contextSize
    && (if i == 0 then w.begin == 0 else w.scoredBegin - w.begin == plan.contextSize - plan.contextSize / 2)
    && (i + 1 < plan.windowCount ==> w.end - w.begin == plan.contextSize)
  }

  lemma WindowsFit(plan: Plan, i: nat)
    requires IsPlan(plan) && i < plan.windowCount
    ensures WindowOk(plan, i)
  {
    BeginsInside(plan, i);
    if i > 0 {
      BeginsInside(plan, i - 1);
    }
  }

  /** The targets of the windows follow on from each other, from the second token to the last. */
  lemma WindowsChain(plan: Plan, i: nat)
    requires IsPlan(plan) && i < plan.windowCount
    ensures WindowAt(plan, 0).scoredBegin == 1
    ensures i + 1 < plan.windowCount ==> WindowAt(plan, i + 1).scoredBegin == WindowAt(plan, i).end
    ensures i + 1 == plan.windowCount ==> WindowAt(plan, i).end == plan.tokenCount
  {
    BeginsInside(plan, i);
  }

  predicate Scores(plan: Plan, i: nat, target: nat)
    requires IsPlan(plan) && i < plan.windowCount
  {
    WindowAt(plan, i).scoredBegin <= target < WindowAt(plan, i).end
  }

  lemma {:induction false} WindowsAscend(plan: Plan, i: nat, j: nat)
    requires IsPlan(plan) && i < j < plan.windowCount
    ensures WindowAt(plan, i).end <= WindowAt(plan, j).scoredBegin
    decreases j
  {
    WindowsChain(plan, j - 1);
    if i + 1 < j {
      WindowsAscend(plan, i, j - 1);
      WindowsFit(plan, j - 1);
    }
  }

  lemma {:induction false} FindWindow(plan: Plan, target: nat, last: nat) returns (i: nat)
    requires IsPlan(plan) && last < plan.windowCount && 1 <= target < WindowAt(plan, last).end
    ensures i <= last && Scores(plan, i, target)
    decreases last
  {
    if WindowAt(plan, last).scoredBegin <= target {
      i := last;
    } else {
      assert last > 0;
      WindowsChain(plan, last - 1);
      i := FindWindow(plan, target, last - 1);
    }
  }

  /** Every token but the first is the target of exactly one window. */
  lemma WindowsPartition(plan: Plan, target: nat)
    requires IsPlan(plan)
    ensures 1 <= target < plan.tokenCount <==> exists i :: 0 <= i < plan.windowCount && Scores(plan, i, target)
    ensures forall i, j :: 0 <= i < j < plan.windowCount ==> !(Scores(plan, i, target) && Scores(plan, j, target))
  {
    if 1 <= target < plan.tokenCount {
      WindowsChain(plan, plan.windowCount - 1);
      var i := FindWindow(plan, target, plan.windowCount - 1);
    }
    forall i | 0 <= i < plan.windowCount && Scores(plan, i, target) ensures 1 <= target < plan.tokenCount {
      WindowsFit(plan, i);
      WindowsFit(plan, 0);
      WindowsChain(plan, 0);
      if i > 0 {
        WindowsAscend(plan, 0, i);
      }
    }
    forall i, j | 0 <= i < j < plan.windowCount ensures !(Scores(plan, i, target) && Scores(plan, j, target)) {
      WindowsAscend(plan, i, j);
    }
  }

  /** ContextRequestCapacity: the smallest context that holds the tokens and a batch, or as much as the limit allows. */
  function ContextRequestCapacity(limit: nat, batchSize: nat, required: nat): (capacity: Option<nat>)
    ensures capacity.Some? <==> 0 < required <= limit && batchSize > 0
    ensures capacity.Some? ==> required <= capacity.value <= limit
    ensures capacity.Some? && batchSize > limit ==> capacity.value == limit
    ensures capacity.Some? && batchSize <= limit ==>
              batchSize <= capacity.value && (capacity.value == required || capacity.value == batchSize)
  {
    if limit == 0 || batchSize == 0 || required == 0 || required > limit then None
    else
      var wanted := if required < batchSize then batchSize else required;
      Some(if limit < wanted then limit else wanted)
  }
}
