/**
 Call paths for the statistics: a tree of (call site, function) pairs in which a
 recursive call goes back to the node it recurs to, and the summary of the
 statistics by call site.
 */
module CallPaths {
  import opened Exprs

  /** A call site, none for the program entry, and the function called from it. */
  datatype Key = Key(callSite: Option<nat>, function_: nat)

  /** Nodes are numbered in the order they are made; number 0 is the root, which has no
      key. Children lead to nodes by key. */
  datatype CallNode = CallNode(parent: nat, key: Option<Key>, children: map<Key, nat>, statistics: nat, count: nat)

  type Nodes = seq<CallNode>

  predicate Ordered(ns: Nodes) {
    |ns| > 0 && ns[0].key == None && forall i :: 0 < i < |ns| ==> ns[i].parent < i && ns[i].key.Some?
  }

  /** The node j is i or below it. */
  predicate Under(ns: Nodes, j: nat, i: nat)
    requires Ordered(ns) && j < |ns|
    decreases j
  {
    j == i || (j > 0 && Under(ns, ns[j].parent, i))
  }

  /** No node has a proper ancestor with its own key. */
  predicate NoRepeat(ns: Nodes)
    requires Ordered(ns)
  {
    forall i, j :: 0 < i < |ns| && 0 < j < |ns| && i != j && Under(ns, j, i) ==> ns[i].key != ns[j].key
  }

  /** A child pointer leads to a node with its key: a child, or the node itself or one
      above it when the call is recursive. Every node is the child of its parent. */
  predicate ChildrenOk(ns: Nodes)
    requires Ordered(ns)
  {
    && (forall i, k :: 0 <= i < |ns| && k in ns[i].children ==> ChildOk(ns, i, k))
    && (forall c :: 0 < c < |ns| ==> IsChild(ns, c))
  }

  predicate ChildOk(ns: Nodes, i: nat, k: Key)
    requires Ordered(ns) && i < |ns| && k in ns[i].children
  {
    var c := ns[i].children[k];
    0 < c < |ns| && ns[c].key == Some(k) && (ns[c].parent == i || Under(ns, i, c))
  }

  predicate IsChild(ns: Nodes, c: nat)
    requires Ordered(ns) && 0 < c < |ns|
  {
    var siblings := ns[ns[c].parent].children;
    ns[c].key.value in siblings && siblings[ns[c].key.value] == c
  }

  predicate IsTree(ns: Nodes) { Ordered(ns) && NoRepeat(ns) && ChildrenOk(ns) }

  // ------------------------------------------------------------------- depth

  function Depth(ns: Nodes, j: nat): nat
    requires Ordered(ns) && j < |ns|
    decreases j
  {
    if j == 0 then 0 else 1 + Depth(ns, ns[j].parent)
  }

  /** The keys on the way from a node up to the root. */
  ghost function KeysAbove(ns: Nodes, j: nat): set<Key>
    requires Ordered(ns) && j < |ns|
    decreases j
  {
    if j == 0 then {} else KeysAbove(ns, ns[j].parent) + {ns[j].key.value}
  }

  lemma {:induction false} KeysAboveAre(ns: Nodes, j: nat, k: Key) returns (i: nat)
    requires Ordered(ns) && j < |ns| && k in KeysAbove(ns, j)
    ensures 0 < i < |ns| && Under(ns, j, i) && ns[i].key == Some(k)
    decreases j
  {
    if ns[j].key == Some(k) { i := j; } else { i := KeysAboveAre(ns, ns[j].parent, k); }
  }

  lemma {:induction false} UnderOrder(ns: Nodes, j: nat, i: nat)
    requires Ordered(ns) && j < |ns| && Under(ns, j, i)
    ensures i <= j
    decreases j
  {
    if j != i { UnderOrder(ns, ns[j].parent, i); }
  }

  lemma {:induction false} DepthIsKeys(ns: Nodes, j: nat)
    requires IsTree(ns) && j < |ns|
    ensures |KeysAbove(ns, j)| == Depth(ns, j)
    decreases j
  {
    if j > 0 {
      var p := ns[j].parent;
      DepthIsKeys(ns, p);
      if ns[j].key.value in KeysAbove(ns, p) {
        var i := KeysAboveAre(ns, p, ns[j].key.value);
        UnderOrder(ns, p, i);
      }
    }
  }

  /** Paths are no deeper than there are pairs of a call site and a function. */
  lemma DepthBound(ns: Nodes, j: nat, keys: set<Key>)
    requires IsTree(ns) && j < |ns| && forall i :: 0 < i < |ns| ==> ns[i].key.value in keys
    ensures Depth(ns, j) <= |keys|
  {
    DepthIsKeys(ns, j);
    forall k | k in KeysAbove(ns, j)
      ensures k in keys
    {
      var i := KeysAboveAre(ns, j, k);
    }
    Subset(KeysAbove(ns, j), keys);
  }

  lemma {:induction false} Subset<T>(s: set<T>, t: set<T>)
    requires s <= t
    ensures |s| <= |t|
  {
    if s != {} {
      var x :| x in s;
      Subset(s - {x}, t - {x});
    }
  }

  // --------------------------------------------------------------- new nodes

  lemma {:induction false} UnderMore(ns: Nodes, ns': Nodes, j: nat, i: nat)
    requires Ordered(ns) && Ordered(ns') && |ns| <= |ns'| && j < |ns|
    requires forall k :: 0 <= k < |ns| ==> ns'[k].parent == ns[k].parent
    ensures Under(ns', j, i) <==> Under(ns, j, i)
    decreases j
  {
    if j > 0 && j != i { UnderMore(ns, ns', ns[j].parent, i); }
  }

  /** A call to a function that no node above was called as makes a new node. */
  function NewNode(parent: nat, key: Key): CallNode { CallNode(parent, Some(key), map[], 0, 0) }

  function Linked(ns: Nodes, i: nat, k: Key, c: nat): Nodes
    requires i < |ns|
  {
    ns[i := ns[i].(children := ns[i].children[k := c])]
  }

  lemma LinkedTree(ns: Nodes, i: nat, k: Key, c: nat)
    requires IsTree(ns) && i < |ns| && 0 < c < |ns| && ns[c].key == Some(k) && k !in ns[i].children && Under(ns, i, c)
    ensures IsTree(Linked(ns, i, k, c))
  {
    var ns' := Linked(ns, i, k, c);
    assert Ordered(ns');
    forall a, b | 0 <= a < |ns|
      ensures Under(ns', a, b) <==> Under(ns, a, b)
    {
      UnderMore(ns, ns', a, b);
    }
    forall a, b | 0 <= a < |ns'| && b in ns'[a].children
      ensures ChildOk(ns', a, b)
    {
      if !(a == i && b == k) { assert ChildOk(ns, a, b); }
    }
    forall d | 0 < d < |ns'|
      ensures IsChild(ns', d)
    {
      assert IsChild(ns, d);
    }
  }

  lemma GrownTree(ns: Nodes, i: nat, k: Key)
    requires IsTree(ns) && i < |ns| && k !in ns[i].children
    requires forall a :: 0 < a < |ns| && Under(ns, i, a) ==> ns[a].key != Some(k)
    ensures IsTree(Linked(ns + [NewNode(i, k)], i, k, |ns|))
  {
    var ns' := Linked(ns + [NewNode(i, k)], i, k, |ns|);
    assert Ordered(ns');
    forall a, b | 0 <= a < |ns|
      ensures Under(ns', a, b) <==> Under(ns, a, b)
    {
      UnderMore(ns, ns', a, b);
    }
    assert forall b :: Under(ns', |ns|, b) <==> b == |ns| || Under(ns', i, b);
    GrownNoRepeat(ns, i, k, ns');
    GrownChildren(ns, i, k, ns');
  }

  lemma GrownChildren(ns: Nodes, i: nat, k: Key, ns': Nodes)
    requires IsTree(ns) && i < |ns| && k !in ns[i].children && Ordered(ns')
    requires ns' == Linked(ns + [NewNode(i, k)], i, k, |ns|)
    requires forall a, b :: 0 <= a < |ns| ==> (Under(ns', a, b) <==> Under(ns, a, b))
    ensures ChildrenOk(ns')
  {
    hide Under;
    forall a, b | 0 <= a < |ns'| && b in ns'[a].children
      ensures ChildOk(ns', a, b)
    {
      if a < |ns| && !(a == i && b == k) { assert ChildOk(ns, a, b); }
    }
    forall d | 0 < d < |ns'|
      ensures IsChild(ns', d)
    {
      if d < |ns| { assert IsChild(ns, d); }
    }
  }

  lemma GrownNoRepeat(ns: Nodes, i: nat, k: Key, ns': Nodes)
    requires IsTree(ns) && i < |ns| && Ordered(ns') && |ns'| == |ns| + 1
    requires forall a :: 0 < a < |ns| && Under(ns, i, a) ==> ns[a].key != Some(k)
    requires forall a :: 0 <= a < |ns| ==> ns'[a].key == ns[a].key
    requires ns'[|ns|].key == Some(k)
    requires forall a, b :: 0 <= a < |ns| ==> (Under(ns', a, b) <==> Under(ns, a, b))
    requires forall b :: Under(ns', |ns|, b) <==> b == |ns| || Under(ns, i, b)
    ensures NoRepeat(ns')
  {
    forall a, b | 0 < a < |ns'| && 0 < b < |ns'| && a != b && Under(ns', b, a)
      ensures ns'[a].key != ns'[b].key
    {
      UnderOrder(ns', b, a);
    }
  }

  predicate SameButChildren(a: CallNode, b: CallNode) { a == b.(children := a.children) }

  class CallPathManager {
    var nodes: Nodes
    /** The summary statistics of each node. */
    var summary: seq<nat>

    predicate Valid()
      reads this
    {
      IsTree(nodes) && |summary| == |nodes|
    }

    constructor ()
      ensures Valid() && |nodes| == 1
    {
      nodes, summary := [CallNode(0, None, map[], 0, 0)], [0];
    }

    /** The node above or at a node that has a key, or a new node below it. */
    method ComputeCallPath(parent: nat, key: Key) returns (c: nat)
      requires Valid() && parent < |nodes| && key !in nodes[parent].children
      modifies this
      ensures 0 < c < |nodes| && Ordered(old(nodes)) && |summary| == |nodes|
      ensures if nodes == old(nodes)
              then c < |old(nodes)| && old(nodes)[c].key == Some(key) && Under(old(nodes), parent, c)
              else nodes == old(nodes) + [NewNode(parent, key)] && c == |old(nodes)| &&
                   forall a :: 0 < a < |old(nodes)| && Under(old(nodes), parent, a) ==> old(nodes)[a].key != Some(key)
    {
      var p: nat := parent;
      while p > 0
        invariant p < |nodes| && nodes == old(nodes) && summary == old(summary) && Under(nodes, parent, p)
        invariant forall a :: 0 < a < |nodes| && Under(nodes, parent, a) && !Under(nodes, p, a) ==>
                  nodes[a].key != Some(key)
      {
        if nodes[p].key == Some(key) { return p; }
        UnderParent(nodes, parent, p);
        p := nodes[p].parent;
      }
      c := |nodes|;
      nodes := nodes + [NewNode(parent, key)];
      summary := summary + [0];
    }

    /** The node of a call made from a node. */
    method GetCallPath(parent: Option<nat>, key: Key) returns (c: nat)
      requires Valid() && (parent.Some? ==> parent.value < |nodes|)
      modifies this
      ensures Valid() && |old(nodes)| <= |nodes| && 0 < c < |nodes| && nodes[c].key == Some(key)
      ensures var p := if parent.Some? then parent.value else 0;
              (nodes[c].parent == p || Under(nodes, p, c)) && key in nodes[p].children && nodes[p].children[key] == c
      ensures forall i :: 0 <= i < |old(nodes)| ==> SameButChildren(nodes[i], old(nodes)[i])
      ensures var p := if parent.Some? then parent.value else 0;
              forall i :: 0 <= i < |old(nodes)| ==>
                nodes[i].children == if i == p then old(nodes)[i].children[key := c] else old(nodes)[i].children
      ensures parent.Some? && key in old(nodes)[parent.value].children ==> nodes == old(nodes)
      ensures |nodes| == |old(nodes)| || (c == |old(nodes)| == |nodes| - 1 && nodes[c].children == map[])
      ensures |nodes| == |old(nodes)| || nodes[c].statistics == nodes[c].count == 0
    {
      var p := if parent.Some? then parent.value else 0;
      if key in nodes[p].children {
        assert ChildOk(nodes, p, key);
        return nodes[p].children[key];
      }
      ghost var before := nodes;
      c := ComputeCallPath(p, key);
      if nodes == before {
        LinkedTree(nodes, p, key, c);
      } else {
        GrownTree(before, p, key);
      }
      nodes := Linked(nodes, p, key, c);
      assert ChildOk(nodes, p, key);
    }

    /** The summaries, bottom up, and the table of call sites. The summary of a node below
        the root is the sum over its subtree. The entry of a pair of call site and function
        counts the statistics of every node below such a call exactly once. The root is not
        reset: it adds up over all calls, and is right if and only if it began with the
        root's own statistics. */
    method GetSummaryStatistics() returns (table: map<Key, CallSiteInfo>)
      requires Valid()
      modifies this`summary
      ensures Valid() && Ordered(nodes)
      ensures forall i :: 0 < i < |nodes| ==> summary[i] == SubtreeSum(nodes, i)
      ensures summary[0] + nodes[0].statistics == old(summary[0]) + SubtreeSum(nodes, 0)
      ensures summary[0] == SubtreeSum(nodes, 0) <==> old(summary[0]) == nodes[0].statistics
      ensures forall q :: q in table <==> exists i :: 0 < i < |nodes| && nodes[i].key == Some(q)
      ensures forall q :: q in table ==> table[q] == CallSiteInfo(CountSum(nodes, |nodes|, q), CallSum(nodes, q))
    {
      hide NoRepeat, ChildrenOk, SubtreeSum, CountSum, CallSum;
      summary, table := Summarize(nodes, summary[0]);
    }
  }

  /** A second call counts everything below the root twice in the root's summary. */
  method SummarizeTwice(m: CallPathManager) returns (table: map<Key, CallSiteInfo>)
    requires m.Valid() && m.summary[0] == m.nodes[0].statistics
    modifies m`summary
    ensures m.Valid() && Ordered(m.nodes)
    ensures m.summary[0] == SubtreeSum(m.nodes, 0) <==> SubtreeSum(m.nodes, 0) == m.nodes[0].statistics
  {
    hide *;
    table := m.GetSummaryStatistics();
    table := m.GetSummaryStatistics();
  }

  /** The summary of the root starts from what it was. */
  method Summarize(ns: Nodes, first: nat) returns (summary: seq<nat>, table: map<Key, CallSiteInfo>)
    requires IsTree(ns)
    ensures |summary| == |ns| > 0
    ensures forall i :: 0 < i < |ns| ==> summary[i] == SubtreeSum(ns, i)
    ensures summary[0] + ns[0].statistics == first + SubtreeSum(ns, 0)
    ensures forall q :: q in table <==> exists i :: 0 < i < |ns| && ns[i].key == Some(q)
    ensures forall q :: q in table ==> table[q] == CallSiteInfo(CountSum(ns, |ns|, q), CallSum(ns, q))
  {
    hide *;
    TreeParts(ns, |ns|);
    summary := Statistics(ns)[0 := first];
    table := map[];
    var k := |ns| - 1;
    Start(ns, first, summary);
    while k > 0
      invariant 0 <= k < |ns| == |summary| && Summed(ns, k, first, summary) && Tabled(ns, k, table)
    {
      var p := ns[k].parent;
      var summary' := summary[p := summary[p] + summary[k]];
      SummedStep(ns, k, first, summary, summary');
      TabledStep(ns, k, first, summary, table);
      table := Entered(table, ns[k].key.value, ns[k].count, summary[k]);
      summary := summary';
      k := k - 1;
    }
    Finish(ns, first, summary, table);
  }

  datatype CallSiteInfo = CallSiteInfo(count: nat, statistics: nat)

  function Statistics(ns: Nodes): (s: seq<nat>)
    ensures |s| == |ns| && forall i :: 0 <= i < |s| ==> s[i] == ns[i].statistics
  {
    seq(|ns|, i requires 0 <= i < |ns| => ns[i].statistics)
  }

  /** The entry of a key gets one more node. */
  function Entered(table: map<Key, CallSiteInfo>, q: Key, count: nat, statistics: nat): map<Key, CallSiteInfo> {
    var csi := if q in table then table[q] else CallSiteInfo(0, 0);
    table[q := CallSiteInfo(csi.count + count, csi.statistics + statistics)]
  }

  // -------------------------------------------------------------------- sums

  /** The statistics of the selected nodes among the first n. */
  function StatSum(ns: Nodes, n: nat, sel: nat -> bool): nat
    requires n <= |ns|
  {
    if n == 0 then 0 else StatSum(ns, n - 1, sel) + if sel(n - 1) then ns[n - 1].statistics else 0
  }

  lemma {:induction false} StatSplit(ns: Nodes, n: nat, f: nat -> bool, g: nat -> bool, h: nat -> bool)
    requires n <= |ns| && forall j: nat :: j < n ==> (h(j) <==> f(j) || g(j)) && !(f(j) && g(j))
    ensures StatSum(ns, n, h) == StatSum(ns, n, f) + StatSum(ns, n, g)
  {
    if n > 0 { StatSplit(ns, n - 1, f, g, h); }
  }

  lemma {:induction false} StatSame(ns: Nodes, n: nat, f: nat -> bool, g: nat -> bool)
    requires n <= |ns| && forall j: nat :: j < n ==> (f(j) <==> g(j))
    ensures StatSum(ns, n, f) == StatSum(ns, n, g)
  {
    if n > 0 { StatSame(ns, n - 1, f, g); }
  }

  lemma {:induction false} StatOne(ns: Nodes, n: nat, i: nat)
    requires i < |ns| && n <= |ns|
    ensures StatSum(ns, n, (j: nat) => j == i) == if i < n then ns[i].statistics else 0
  {
    if n > 0 { StatOne(ns, n - 1, i); }
  }

  lemma {:induction false} StatNone(ns: Nodes, n: nat)
    requires n <= |ns|
    ensures StatSum(ns, n, (j: nat) => false) == 0
  {
    if n > 0 { StatNone(ns, n - 1); }
  }

  function UnderSel(ns: Nodes, i: nat): nat -> bool
    requires Ordered(ns)
  {
    (j: nat) => j < |ns| && Under(ns, j, i)
  }

  function GotSel(ns: Nodes, k: nat, i: nat): nat -> bool
    requires Ordered(ns)
  {
    (j: nat) => j < |ns| && Got(ns, j, k, i)
  }

  ghost function CallSel(ns: Nodes, q: Key, k: nat): nat -> bool
    requires Ordered(ns)
  {
    (j: nat) => j < |ns| && Calls(ns, j, q, k)
  }

  ghost function SubtreeSum(ns: Nodes, i: nat): nat
    requires Ordered(ns)
  {
    StatSum(ns, |ns|, UnderSel(ns, i))
  }

  /** The statistics of the nodes at or below a node with a key, each counted once. */
  ghost function CallSum(ns: Nodes, q: Key): nat
    requires Ordered(ns)
  {
    StatSum(ns, |ns|, CallSel(ns, q, 0))
  }

  function CountSum(ns: Nodes, n: nat, q: Key): nat
    requires n <= |ns|
  {
    if n == 0 then 0 else CountSum(ns, n - 1, q) + if ns[n - 1].key == Some(q) then ns[n - 1].count else 0
  }

  /** Whether a node is at or below a node with a key and a number above k. */
  ghost predicate Calls(ns: Nodes, j: nat, q: Key, k: nat)
    requires Ordered(ns) && j < |ns|
  {
    exists i: nat :: k < i < |ns| && Under(ns, j, i) && ns[i].key == Some(q)
  }

  /** Whether the statistics of node j have reached node i when the nodes above number k
      have been added to their parents. */
  predicate Got(ns: Nodes, j: nat, k: nat, i: nat)
    requires Ordered(ns) && j < |ns|
    decreases j
  {
    j == i || (j > k && Got(ns, ns[j].parent, k, i))
  }

  lemma {:induction false} GotSelf(ns: Nodes, j: nat, k: nat)
    requires Ordered(ns) && j < |ns|
    ensures Got(ns, j, k, k) <==> Under(ns, j, k)
    decreases j
  {
    if j > k {
      GotSelf(ns, ns[j].parent, k);
    } else if j < k && Under(ns, j, k) {
      UnderOrder(ns, j, k);
    }
  }

  lemma {:induction false} GotStep(ns: Nodes, j: nat, k: nat, i: nat)
    requires Ordered(ns) && j < |ns| && 0 < k < |ns|
    ensures Got(ns, j, k - 1, i) <==> Got(ns, j, k, i) || (i == ns[k].parent && Got(ns, j, k, k))
    ensures !(Got(ns, j, k, ns[k].parent) && Got(ns, j, k, k))
    decreases j
  {
    if j > k { GotStep(ns, ns[j].parent, k, i); }
  }

  ghost function GotSum(ns: Nodes, k: nat, i: nat): nat
    requires Ordered(ns)
  {
    StatSum(ns, |ns|, GotSel(ns, k, i))
  }

  /** The summaries when the nodes above number k have been added to their parents. */
  ghost predicate Summed(ns: Nodes, k: nat, first: nat, summary: seq<nat>) {
    && Ordered(ns) && |summary| == |ns|
    && (forall i: nat :: 0 < i < |ns| ==> summary[i] == GotSum(ns, k, i))
    && summary[0] + ns[0].statistics == first + GotSum(ns, k, 0)
  }

  ghost predicate Tabled(ns: Nodes, k: nat, table: map<Key, CallSiteInfo>)
    requires k < |ns|
  {
    && IsTree(ns)
    && (forall q :: q in table <==> exists i: nat :: k < i < |ns| && ns[i].key == Some(q))
    && (forall q :: q in table ==>
          table[q].statistics == StatSum(ns, |ns|, CallSel(ns, q, k)) &&
          table[q].count + CountSum(ns, k + 1, q) == CountSum(ns, |ns|, q))
  }

  lemma UnderParent(ns: Nodes, j: nat, p: nat)
    requires Ordered(ns) && j < |ns| && 0 < p < |ns| && Under(ns, j, p)
    ensures Under(ns, j, ns[p].parent)
    ensures forall a :: Under(ns, p, a) <==> a == p || Under(ns, ns[p].parent, a)
  {
    UnderTrans(ns, j, p, ns[p].parent);
  }

  lemma {:induction false} UnderTrans(ns: Nodes, j: nat, c: nat, i: nat)
    requires Ordered(ns) && j < |ns| && c < |ns| && Under(ns, j, c) && Under(ns, c, i)
    ensures Under(ns, j, i)
    decreases j
  {
    if j != c { UnderTrans(ns, ns[j].parent, c, i); }
  }

  /** Two nodes above the same node are one above the other. */
  lemma {:induction false} UnderChain(ns: Nodes, j: nat, i: nat, k: nat)
    requires Ordered(ns) && j < |ns| && Under(ns, j, i) && Under(ns, j, k) && k <= i < |ns|
    ensures Under(ns, i, k)
    decreases j
  {
    if j != i {
      if j == k { UnderOrder(ns, j, i); } else { UnderChain(ns, ns[j].parent, i, k); }
    }
  }

  // ----------------------------------------------------- steps of the summary

  lemma TreeParts(ns: Nodes, n: nat)
    requires IsTree(ns) && n == |ns|
    ensures n > 0 && forall i :: 0 < i < n ==> ns[i].parent < i && ns[i].key.Some?
  {
  }

  lemma Start(ns: Nodes, first: nat, summary: seq<nat>)
    requires IsTree(ns) && summary == Statistics(ns)[0 := first]
    ensures Summed(ns, |ns| - 1, first, summary) && Tabled(ns, |ns| - 1, map[])
  {
    var k := |ns| - 1;
    forall i: nat | i < |ns|
      ensures GotSum(ns, k, i) == ns[i].statistics
    {
      StatSame(ns, |ns|, GotSel(ns, k, i), (j: nat) => j == i);
      StatOne(ns, |ns|, i);
    }
  }

  lemma GotSumStep(ns: Nodes, k: nat, i: nat)
    requires Ordered(ns) && 0 < k < |ns| && i < |ns|
    ensures GotSum(ns, k - 1, i) == GotSum(ns, k, i) + if i == ns[k].parent then GotSum(ns, k, k) else 0
  {
    var f, g, h := GotSel(ns, k, i), GotSel(ns, k, k), GotSel(ns, k - 1, i);
    forall j: nat | j < |ns|
      ensures h(j) <==> f(j) || (i == ns[k].parent && g(j))
      ensures i == ns[k].parent ==> !(f(j) && g(j))
    {
      GotStep(ns, j, k, i);
    }
    if i == ns[k].parent { StatSplit(ns, |ns|, f, g, h); } else { StatSame(ns, |ns|, f, h); }
  }

  lemma SummedStep(ns: Nodes, k: nat, first: nat, summary: seq<nat>, summary': seq<nat>)
    requires 0 < k < |ns| && Summed(ns, k, first, summary)
    requires ns[k].parent < |summary| == |ns| && k < |summary|
    requires summary' == summary[ns[k].parent := summary[ns[k].parent] + summary[k]]
    ensures Summed(ns, k - 1, first, summary')
  {
    hide GotSum;
    forall i: nat | i < |ns|
      ensures GotSum(ns, k - 1, i) == GotSum(ns, k, i) + if i == ns[k].parent then GotSum(ns, k, k) else 0
    {
      GotSumStep(ns, k, i);
    }
  }

  /** One more node with the key: no node is counted twice, since a key does not repeat on
      a path. */
  lemma CallsStep(ns: Nodes, j: nat, q: Key, k: nat)
    requires IsTree(ns) && j < |ns| && 0 < k < |ns|
    ensures Calls(ns, j, q, k - 1) <==> Calls(ns, j, q, k) || (ns[k].key == Some(q) && Under(ns, j, k))
    ensures ns[k].key == Some(q) ==> !(Calls(ns, j, q, k) && Under(ns, j, k))
  {
    if ns[k].key == Some(q) && Calls(ns, j, q, k) && Under(ns, j, k) {
      var i: nat :| k < i < |ns| && Under(ns, j, i) && ns[i].key == Some(q);
      UnderChain(ns, j, i, k);
    }
  }

  ghost function CallSumFrom(ns: Nodes, q: Key, k: nat): nat
    requires Ordered(ns)
  {
    StatSum(ns, |ns|, CallSel(ns, q, k))
  }

  lemma CallSumStep(ns: Nodes, q: Key, k: nat)
    requires IsTree(ns) && 0 < k < |ns|
    ensures CallSumFrom(ns, q, k - 1) == CallSumFrom(ns, q, k) + if ns[k].key == Some(q) then GotSum(ns, k, k) else 0
  {
    var f, g, h := CallSel(ns, q, k), GotSel(ns, k, k), CallSel(ns, q, k - 1);
    forall j: nat | j < |ns|
      ensures h(j) <==> f(j) || (ns[k].key == Some(q) && g(j))
      ensures ns[k].key == Some(q) ==> !(f(j) && g(j))
    {
      CallsStep(ns, j, q, k);
      GotSelf(ns, j, k);
    }
    hide Calls, Got;
    if ns[k].key == Some(q) { StatSplit(ns, |ns|, f, g, h); } else { StatSame(ns, |ns|, f, h); }
  }

  lemma NoCalls(ns: Nodes, q: Key, k: nat)
    requires Ordered(ns) && k < |ns| && forall i: nat :: k < i < |ns| ==> ns[i].key != Some(q)
    ensures CallSumFrom(ns, q, k) == 0 && CountSum(ns, k + 1, q) == CountSum(ns, |ns|, q)
  {
    StatSame(ns, |ns|, CallSel(ns, q, k), (j: nat) => false);
    StatNone(ns, |ns|);
    NoCount(ns, q, k, |ns|);
  }

  lemma {:induction false} NoCount(ns: Nodes, q: Key, k: nat, n: nat)
    requires k < n <= |ns| && forall i: nat :: k < i < n ==> ns[i].key != Some(q)
    ensures CountSum(ns, k + 1, q) == CountSum(ns, n, q)
  {
    if n > k + 1 { NoCount(ns, q, k, n - 1); }
  }

  /** Some node after this one has the key. */
  ghost predicate Listed(ns: Nodes, k: int, q: Key) {
    exists i: nat :: k < i < |ns| && ns[i].key == Some(q)
  }

  /** What the table says about a key, whether it has an entry or not. */
  ghost predicate EntryOk(ns: Nodes, k: nat, table: map<Key, CallSiteInfo>, q: Key)
    requires k < |ns| && Ordered(ns)
  {
    var csi := if q in table then table[q] else CallSiteInfo(0, 0);
    && (q in table <==> Listed(ns, k, q))
    && csi.statistics == CallSumFrom(ns, q, k) && csi.count + CountSum(ns, k + 1, q) == CountSum(ns, |ns|, q)
  }

  lemma EntryOf(ns: Nodes, k: nat, table: map<Key, CallSiteInfo>, q: Key)
    requires k < |ns| && Tabled(ns, k, table)
    ensures EntryOk(ns, k, table, q)
  {
    if q !in table { NoCalls(ns, q, k); }
  }

  lemma TabledOf(ns: Nodes, k: nat, table: map<Key, CallSiteInfo>)
    requires k < |ns| && IsTree(ns) && forall q :: EntryOk(ns, k, table, q)
    ensures Tabled(ns, k, table)
  {
    assert Ordered(ns);
    hide CountSum, StatSum, IsTree;
    forall q
      ensures q in table <==> exists i: nat :: k < i < |ns| && ns[i].key == Some(q)
      ensures q in table ==>
                table[q].statistics == StatSum(ns, |ns|, CallSel(ns, q, k)) &&
                table[q].count + CountSum(ns, k + 1, q) == CountSum(ns, |ns|, q)
    {
      assert EntryOk(ns, k, table, q);
    }
  }

  lemma ListedStep(ns: Nodes, k: nat, q: Key)
    requires 0 < k < |ns|
    ensures Listed(ns, k - 1, q) <==> Listed(ns, k, q) || ns[k].key == Some(q)
  {
  }

  /** One more node: only the entry of its key changes. */
  lemma EntryStep(ns: Nodes, k: nat, table: map<Key, CallSiteInfo>, q: Key)
    requires IsTree(ns) && 0 < k < |ns| && ns[k].key.Some? && EntryOk(ns, k, table, q)
    ensures EntryOk(ns, k - 1, Entered(table, ns[k].key.value, ns[k].count, GotSum(ns, k, k)), q)
  {
    assert Ordered(ns);
    hide GotSum, CallSumFrom, CountSum, Listed, IsTree;
    ListedStep(ns, k, q);
    CallSumStep(ns, q, k);
    CountStep(ns, k, q);
  }

  lemma TabledStep(ns: Nodes, k: nat, first: nat, summary: seq<nat>, table: map<Key, CallSiteInfo>)
    requires 0 < k < |ns| && Summed(ns, k, first, summary) && Tabled(ns, k, table) && |summary| == |ns|
    requires ns[k].key.Some?
    ensures Tabled(ns, k - 1, Entered(table, ns[k].key.value, ns[k].count, summary[k]))
  {
    assert summary[k] == GotSum(ns, k, k) && IsTree(ns);
    var table' := Entered(table, ns[k].key.value, ns[k].count, summary[k]);
    hide EntryOk, Entered, Tabled, GotSum, Summed;
    var j: nat := k - 1;
    forall q
      ensures EntryOk(ns, j, table', q)
    {
      EntryOf(ns, k, table, q);
      EntryStep(ns, k, table, q);
    }
    TabledOf(ns, j, table');
  }

  lemma CountStep(ns: Nodes, k: nat, q: Key)
    requires k < |ns|
    ensures CountSum(ns, k + 1, q) == CountSum(ns, k, q) + if ns[k].key == Some(q) then ns[k].count else 0
  {
  }

  lemma {:induction false} GotAll(ns: Nodes, j: nat, i: nat)
    requires Ordered(ns) && j < |ns|
    ensures Got(ns, j, 0, i) <==> Under(ns, j, i)
    decreases j
  {
    if j > 0 { GotAll(ns, ns[j].parent, i); }
  }

  lemma Finish(ns: Nodes, first: nat, summary: seq<nat>, table: map<Key, CallSiteInfo>)
    requires |ns| > 0 && Summed(ns, 0, first, summary) && Tabled(ns, 0, table)
    ensures Ordered(ns) && IsTree(ns) && |summary| == |ns|
    ensures forall i :: 0 < i < |ns| ==> summary[i] == SubtreeSum(ns, i)
    ensures summary[0] + ns[0].statistics == first + SubtreeSum(ns, 0)
    ensures forall q :: q in table <==> exists i :: 0 < i < |ns| && ns[i].key == Some(q)
    ensures forall q :: q in table ==> table[q] == CallSiteInfo(CountSum(ns, |ns|, q), CallSum(ns, q))
  {
    forall i: nat | i < |ns|
      ensures GotSum(ns, 0, i) == SubtreeSum(ns, i)
    {
      forall j: nat | j < |ns|
        ensures Got(ns, j, 0, i) <==> Under(ns, j, i)
      {
        GotAll(ns, j, i);
      }
      StatSame(ns, |ns|, GotSel(ns, 0, i), UnderSel(ns, i));
    }
    hide GotSum, SubtreeSum;
    forall q | q in table
      ensures table[q] == CallSiteInfo(CountSum(ns, |ns|, q), CallSum(ns, q))
    {
      CountStep(ns, 0, q);
    }
  }
}
