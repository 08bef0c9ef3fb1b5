/**
 The depth check on agent metadata: an explicit stack and an early exit, against the
 recursive depth. A value is known by its children, so that trees, shared structure and
 cyclic object graphs are all covered.
 */
module JsonDepth {
  import opened Basics

  const MAX_AGENT_METADATA_DEPTH: nat := 8

  /** The length of the longest walk down from v, cut at k. */
  function DepthUpTo<V(!new)>(v: V, children: V -> seq<V>, k: nat): (d: nat)
    ensures d <= k
    decreases k, 1, 0
  {
    if k == 0 then 0 else DeepestOf(children(v), children, k)
  }

  /** The same over several values one level down; 0 if there are none. */
  function DeepestOf<V(!new)>(vs: seq<V>, children: V -> seq<V>, k: nat): (d: nat)
    requires k > 0
    ensures d <= k
    decreases k, 0, |vs|
  {
    if vs == [] then 0 else Max(1 + DepthUpTo(vs[0], children, k - 1), DeepestOf(vs[1..], children, k))
  }

  /** How many values the loop can still visit from v, a bound for its termination. */
  function Weight<V(!new)>(v: V, children: V -> seq<V>, k: nat): nat
    decreases k, 1, 0
  {
    1 + if k == 0 then 0 else WeightOf(children(v), children, k)
  }

  function WeightOf<V(!new)>(vs: seq<V>, children: V -> seq<V>, k: nat): nat
    requires k > 0
    decreases k, 0, |vs|
  {
    if vs == [] then 0 else Weight(vs[0], children, k - 1) + WeightOf(vs[1..], children, k)
  }

  // ---- the loop -------------------------------------------------------------------

  /** Values on the stack lie at depths 0 to limit + 1. */
  ghost predicate ValidStack<V(!new)>(stack: seq<(V, nat)>, limit: nat) {
    forall i :: 0 <= i < |stack| ==> stack[i].1 <= limit + 1
  }

  /** The deepest level reachable from the stack, cut at limit + 1. */
  ghost function Reach<V(!new)>(stack: seq<(V, nat)>, children: V -> seq<V>, limit: nat): (d: nat)
    requires ValidStack(stack, limit)
    ensures d <= limit + 1
  {
    if stack == [] then 0
    else
      var n := |stack| - 1;
      Max(stack[n].1 + DepthUpTo(stack[n].0, children, limit + 1 - stack[n].1), Reach(stack[..n], children, limit))
  }

  ghost function StackWeight<V(!new)>(stack: seq<(V, nat)>, children: V -> seq<V>, limit: nat): nat
    requires ValidStack(stack, limit)
  {
    if stack == [] then 0
    else
      var n := |stack| - 1;
      Weight(stack[n].0, children, limit + 1 - stack[n].1) + StackWeight(stack[..n], children, limit)
  }

  lemma PushOne<V(!new)>(stack: seq<(V, nat)>, v: V, depth: nat, children: V -> seq<V>, limit: nat)
    requires ValidStack(stack, limit) && depth <= limit + 1
    ensures ValidStack(stack + [(v, depth)], limit)
    ensures Reach(stack + [(v, depth)], children, limit)
         == Max(depth + DepthUpTo(v, children, limit + 1 - depth), Reach(stack, children, limit))
    ensures StackWeight(stack + [(v, depth)], children, limit)
         == Weight(v, children, limit + 1 - depth) + StackWeight(stack, children, limit)
  {
    assert (stack + [(v, depth)])[..|stack|] == stack;
  }

  /** What is left to push, seen from the front of the list of children. */
  lemma {:induction false} DeepestSplit<V(!new)>(vs: seq<V>, i: nat, children: V -> seq<V>, k: nat)
    requires k > 0 && i < |vs|
    ensures DeepestOf(vs[..i + 1], children, k)
         == Max(DeepestOf(vs[..i], children, k), 1 + DepthUpTo(vs[i], children, k - 1))
    ensures WeightOf(vs[..i + 1], children, k) == WeightOf(vs[..i], children, k) + Weight(vs[i], children, k - 1)
    decreases i
  {
    if i == 0 {
      assert vs[..1] == [vs[0]] && vs[..1][1..] == [] && vs[..0] == [];
    } else {
      DeepestSplit(vs[1..], i - 1, children, k);
      assert vs[..i + 1][1..] == vs[1..][..i] && vs[..i][1..] == vs[1..][..i - 1];
    }
  }

  lemma PopOne<V(!new)>(stack: seq<(V, nat)>, children: V -> seq<V>, limit: nat)
    requires ValidStack(stack, limit) && stack != []
    ensures var (v, d) := stack[|stack| - 1];
            var rest := stack[..|stack| - 1];
            ValidStack(rest, limit) && d <= limit + 1
            && Reach(stack, children, limit)
                == Max(d + DepthUpTo(v, children, limit + 1 - d), Reach(rest, children, limit))
            && StackWeight(stack, children, limit)
                == Weight(v, children, limit + 1 - d) + StackWeight(rest, children, limit)
  {}

  lemma Unfold<V(!new)>(v: V, children: V -> seq<V>, k: nat)
    ensures k > 0 ==> DepthUpTo(v, children, k) == DeepestOf(children(v), children, k)
                      && Weight(v, children, k) == 1 + WeightOf(children(v), children, k)
    ensures DepthUpTo(v, children, 0) == 0
    ensures k > 0 ==> DeepestOf([], children, k) == 0 && WeightOf([], children, k) == 0
    ensures Reach([], children, k) == 0 && StackWeight([], children, k) == 0
  {}

  /** `jsonDepth`, for any limit. It terminates on every value whose nodes have finitely
      many children each, cyclic or not. */
  method Depth<V(!new)>(root: V, children: V -> seq<V>, limit: nat) returns (depth: nat)
    ensures depth == DepthUpTo(root, children, limit + 1)
  {
    hide DepthUpTo, DeepestOf, Weight, WeightOf, Reach, StackWeight;
    var maxDepth: nat := 0;
    var stack: seq<(V, nat)> := [(root, 0)];
    Unfold(root, children, limit);
    PushOne([], root, 0, children, limit);
    assert [] + [(root, 0)] == stack;
    while stack != []
      invariant ValidStack(stack, limit) && maxDepth <= limit
      invariant Max(maxDepth, Reach(stack, children, limit)) == DepthUpTo(root, children, limit + 1)
      decreases StackWeight(stack, children, limit)
    {
      PopOne(stack, children, limit);
      var (value, d) := stack[|stack| - 1];
      stack := stack[..|stack| - 1];
      ghost var rest, restWeight := Reach(stack, children, limit), StackWeight(stack, children, limit);
      ghost var k := limit + 1 - d;
      Unfold(value, children, k);
      if d > maxDepth {
        maxDepth := d;
      }
      if maxDepth > limit {
        return maxDepth;
      }
      var kids := children(value);
      assert kids[..0] == [];
      for i := 0 to |kids|
        invariant ValidStack(stack, limit)
        invariant Reach(stack, children, limit)
               == Max(if i == 0 then 0 else d + DeepestOf(kids[..i], children, k), rest)
        invariant StackWeight(stack, children, limit) == WeightOf(kids[..i], children, k) + restWeight
      {
        DeepestSplit(kids, i, children, k);
        PushOne(stack, kids[i], d + 1, children, limit);
        stack := stack + [(kids[i], d + 1)];
      }
      assert kids[..|kids|] == kids;
    }
    Unfold(root, children, limit);
    depth := maxDepth;
  }

  /** The check as the schema uses it. */
  method JsonDepth<V(!new)>(root: V, children: V -> seq<V>) returns (depth: nat)
    ensures depth == DepthUpTo(root, children, 9)
  {
    depth := Depth(root, children, MAX_AGENT_METADATA_DEPTH);
  }

  // ---- finite trees ------------------------------------------------------------------

  datatype Json = Scalar | Container(values: seq<Json>)

  function Children(j: Json): seq<Json> {
    match j
    case Scalar => []
    case Container(values) => values
  }

  /** The true depth of a tree. */
  function TreeDepth(j: Json): nat
    decreases j, 0
  {
    match j
    case Scalar => 0
    case Container(values) => ListDepth(values)
  }

  function ListDepth(js: seq<Json>): nat
    decreases js, 1
  {
    if js == [] then 0 else Max(1 + TreeDepth(js[0]), ListDepth(js[1..]))
  }

  /** On a finite tree the check returns the smaller of the true depth and limit + 1. */
  lemma {:induction false} TreeDepthExact(j: Json, k: nat)
    ensures DepthUpTo(j, Children, k) == Min(TreeDepth(j), k)
    decreases j, 0
  {
    if k > 0 {
      match j
      case Scalar =>
      case Container(values) => ListDepthExact(values, k);
    }
  }

  lemma {:induction false} ListDepthExact(js: seq<Json>, k: nat)
    requires k > 0
    ensures DeepestOf(js, Children, k) == Min(ListDepth(js), k)
    decreases js, 1
  {
    if js != [] {
      TreeDepthExact(js[0], k - 1);
      ListDepthExact(js[1..], k);
    }
  }

  // ---- graphs ----------------------------------------------------------------------------

  /** A walk down the graph: each value is a child of the one before. */
  ghost predicate IsWalk<V(!new)>(walk: seq<V>, children: V -> seq<V>) {
    |walk| > 0 && forall i :: 0 < i < |walk| ==> walk[i] in children(walk[i - 1])
  }

  lemma {:induction false} WalkBelow<V(!new)>(walk: seq<V>, children: V -> seq<V>, k: nat)
    requires IsWalk(walk, children) && |walk| - 1 <= k
    ensures DepthUpTo(walk[0], children, k) >= |walk| - 1
    decreases |walk|
  {
    if |walk| > 1 {
      assert walk[1] in children(walk[0]);
      assert IsWalk(walk[1..], children) by {
        assert forall i :: 0 < i < |walk[1..]| ==> walk[1..][i] == walk[i + 1] && walk[1..][i - 1] == walk[i];
      }
      WalkBelow(walk[1..], children, k - 1);
      ChildBelow(children(walk[0]), walk[1], children, k);
    }
  }

  lemma {:induction false} ChildBelow<V(!new)>(vs: seq<V>, v: V, children: V -> seq<V>, k: nat)
    requires k > 0 && v in vs
    ensures DeepestOf(vs, children, k) >= 1 + DepthUpTo(v, children, k - 1)
    decreases |vs|
  {
    if vs[0] != v {
      ChildBelow(vs[1..], v, children, k);
    }
  }

  /** A walk that realises the depth. */
  lemma {:induction false} DeepWalk<V(!new)>(v: V, children: V -> seq<V>, k: nat) returns (walk: seq<V>)
    ensures IsWalk(walk, children) && walk[0] == v && |walk| - 1 == DepthUpTo(v, children, k)
    decreases k
  {
    if k == 0 || children(v) == [] {
      walk := [v];
    } else {
      var c := DeepestChild(children(v), children, k);
      var rest := DeepWalk(c, children, k - 1);
      walk := [v] + rest;
    }
  }

  lemma {:induction false} DeepestChild<V(!new)>(vs: seq<V>, children: V -> seq<V>, k: nat) returns (c: V)
    requires k > 0 && vs != []
    ensures c in vs && DeepestOf(vs, children, k) == 1 + DepthUpTo(c, children, k - 1)
    decreases |vs|
  {
    if |vs| == 1 || 1 + DepthUpTo(vs[0], children, k - 1) >= DeepestOf(vs[1..], children, k) {
      c := vs[0];
    } else {
      c := DeepestChild(vs[1..], children, k);
    }
  }

  /** On any object graph, cyclic ones included, the check exceeds the limit exactly when
      some walk down from the root is longer than the limit. */
  lemma ExceedsIff<V(!new)>(root: V, children: V -> seq<V>, limit: nat)
    ensures DepthUpTo(root, children, limit + 1) > limit
       <==> exists walk :: IsWalk(walk, children) && walk[0] == root && |walk| - 1 == limit + 1
  {
    if DepthUpTo(root, children, limit + 1) > limit {
      var walk := DeepWalk(root, children, limit + 1);
    }
    forall walk | IsWalk(walk, children) && walk[0] == root && |walk| - 1 == limit + 1
      ensures DepthUpTo(root, children, limit + 1) > limit
    {
      WalkBelow(walk, children, limit + 1);
    }
  }

  /** A value that reaches itself is always too deep. */
  lemma CyclesExceed<V(!new)>(cycle: seq<V>, children: V -> seq<V>, limit: nat)
    requires IsWalk(cycle, children) && |cycle| > 1 && cycle[0] == cycle[|cycle| - 1]
    ensures DepthUpTo(cycle[0], children, limit + 1) == limit + 1
  {
    var walk, _ := Around(cycle, children, limit + 2);
    WalkBelow(walk, children, limit + 1);
  }

  /** Going round the cycle for a given number of values, stopping at index `at`. */
  lemma {:induction false} Around<V(!new)>(cycle: seq<V>, children: V -> seq<V>, n: nat) returns (walk: seq<V>, at: nat)
    requires IsWalk(cycle, children) && |cycle| > 1 && cycle[0] == cycle[|cycle| - 1] && n > 0
    ensures IsWalk(walk, children) && |walk| == n && walk[0] == cycle[0]
    ensures at < |cycle| - 1 && walk[n - 1] == cycle[at]
  {
    if n == 1 {
      walk, at := [cycle[0]], 0;
    } else {
      var shorter, i := Around(cycle, children, n - 1);
      assert cycle[i + 1] in children(cycle[i]);
      walk := shorter + [cycle[i + 1]];
      at := if i + 2 == |cycle| then 0 else i + 1;
    }
  }
}
