/**
 The reads of an expression, found with a work list that takes every subexpression once.
 Update lists are searched or left alone, as the caller asks.
 */
module ExprReads {
  import opened Exprs

  // -------------------------------------------------------------- occurrence

  function Kids(e: Expr): seq<Expr> {
    match e
    case Const(_, _) => []
    case Read(_, _, i) => [i]
    case Select(c, t, f) => [c, t, f]
    case Concat(h, l) => [h, l]
    case Extract(s, _, _) => [s]
    case ZExt(s, _) => [s]
    case SExt(s, _) => [s]
    case Binary(_, l, r) => [l, r]
    case NotOptimized(s) => [s]
  }

  function UpdateKids(u: UpdateNode): seq<Expr> {
    match u
    case Nil => []
    case Node(next, at, val) => [at, val] + UpdateKids(next)
  }

  ghost predicate IsChild(e: Expr, c: Expr, deep: bool) {
    c in Kids(e) || (deep && e.Read? && c in UpdateKids(e.head))
  }

  /** From an expression to a subexpression, one child at a time. */
  ghost predicate IsPath(e: Expr, path: seq<Expr>, deep: bool) {
    && |path| > 0 && path[0] == e
    && forall k: nat :: k + 1 < |path| ==> IsChild(path[k], path[k + 1], deep)
  }

  /** A subexpression, outside update lists unless these are searched too. */
  ghost predicate Occurs(e: Expr, x: Expr, deep: bool) {
    exists path :: IsPath(e, path, deep) && path[|path| - 1] == x
  }

  lemma OccursSelf(e: Expr, deep: bool)
    ensures Occurs(e, e, deep)
  {
    assert IsPath(e, [e], deep);
  }

  lemma OccursNext(e: Expr, x: Expr, c: Expr, deep: bool)
    requires Occurs(e, x, deep) && IsChild(x, c, deep)
    ensures Occurs(e, c, deep)
  {
    hide IsChild;
    var path :| IsPath(e, path, deep) && path[|path| - 1] == x;
    var more := path + [c];
    forall k: nat | k + 1 < |more| ensures IsChild(more[k], more[k + 1], deep) {
      if k + 1 < |path| { assert IsChild(path[k], path[k + 1], deep); }
    }
    assert IsPath(e, more, deep);
  }

  lemma OccursUnder(e: Expr, c: Expr, x: Expr, deep: bool)
    requires IsChild(e, c, deep) && Occurs(c, x, deep)
    ensures Occurs(e, x, deep)
  {
    hide IsChild;
    var path :| IsPath(c, path, deep) && path[|path| - 1] == x;
    var more := [e] + path;
    forall k: nat | k + 1 < |more| ensures IsChild(more[k], more[k + 1], deep) {
      if k > 0 {
        var j: nat := k - 1;
        assert IsChild(path[j], path[j + 1], deep);
      }
    }
    assert IsPath(e, more, deep);
  }

  /** The first step to a proper subexpression. */
  lemma OccursFirst(e: Expr, x: Expr, deep: bool) returns (c: Expr)
    requires Occurs(e, x, deep) && x != e
    ensures IsChild(e, c, deep) && Occurs(c, x, deep)
  {
    hide IsChild;
    var path :| IsPath(e, path, deep) && path[|path| - 1] == x;
    c := path[1];
    var rest := path[1..];
    forall k: nat | k + 1 < |rest| ensures IsChild(rest[k], rest[k + 1], deep) {
      var j: nat := k + 1;
      assert IsChild(path[j], path[j + 1], deep);
    }
    assert IsPath(c, rest, deep);
    assert IsChild(path[0], path[0 + 1], deep);
  }

  // --------------------------------------------------------------- work list

  function Size(e: Expr): nat {
    match e
    case Const(_, _) => 1
    case Read(_, u, i) => 1 + UpdateSize(u) + Size(i)
    case Select(c, t, f) => 1 + Size(c) + Size(t) + Size(f)
    case Concat(h, l) => 1 + Size(h) + Size(l)
    case Extract(s, _, _) => 1 + Size(s)
    case ZExt(s, _) => 1 + Size(s)
    case SExt(s, _) => 1 + Size(s)
    case Binary(_, l, r) => 1 + Size(l) + Size(r)
    case NotOptimized(s) => 1 + Size(s)
  }

  function UpdateSize(u: UpdateNode): nat {
    match u
    case Nil => 0
    case Node(next, at, val) => Size(at) + Size(val) + UpdateSize(next)
  }

  function Total(s: seq<Expr>): nat { if s == [] then 0 else Total(s[..|s| - 1]) + Size(s[|s| - 1]) }

  predicate Distinct(s: seq<Expr>) { forall j, k :: 0 <= j < k < |s| ==> s[j] != s[k] }

  /** The subexpressions of a list that were not seen yet, constants aside, are on the work
      list and seen. */
  ghost predicate IsPushed(kids: seq<Expr>, stack: seq<Expr>, visited: set<Expr>, stack': seq<Expr>,
                           visited': set<Expr>)
  {
    && stack <= stack' && Distinct(stack'[|stack|..])
    && visited' == visited + (set x | x in stack'[|stack|..])
    && (forall x :: x in stack'[|stack|..] ==> x in kids && !x.Const? && x !in visited)
    && (forall x :: x in kids ==> x.Const? || x in visited')
  }

  method Push(k: Expr, stack: seq<Expr>, visited: set<Expr>) returns (stack': seq<Expr>, visited': set<Expr>)
    ensures IsPushed([k], stack, visited, stack', visited') && Total(stack') <= Total(stack) + Size(k)
  {
    stack', visited' := stack, visited;
    if !k.Const? && k !in visited {
      stack', visited' := stack + [k], visited + {k};
      assert stack'[..|stack|] == stack && stack'[|stack|..] == [k];
    }
  }

  lemma PushedMore(done: seq<Expr>, more: seq<Expr>, s: seq<Expr>, v: set<Expr>, s': seq<Expr>, v': set<Expr>,
                   s'': seq<Expr>, v'': set<Expr>)
    requires IsPushed(done, s, v, s', v') && IsPushed(more, s', v', s'', v'')
    ensures IsPushed(done + more, s, v, s'', v'')
  {
    var one, two := s'[|s|..], s''[|s'|..];
    assert s''[|s|..] == one + two;
    assert forall x :: x in one + two <==> x in one || x in two;
    JoinDistinct(one, two);
  }

  lemma JoinDistinct(s: seq<Expr>, t: seq<Expr>)
    requires Distinct(s) && Distinct(t) && forall x :: x in t ==> x !in s
    ensures Distinct(s + t)
  {
    var all := s + t;
    forall j, k | 0 <= j < k < |all| ensures all[j] != all[k] {
      if j < |s| <= k { assert all[j] in s && all[k] in t; }
    }
  }

  lemma NothingPushed(s: seq<Expr>, v: set<Expr>)
    ensures IsPushed([], s, v, s, v)
  {
  }

  /** The subexpressions of an expression that is not a read. */
  method PushKids(e: Expr, stack: seq<Expr>, visited: set<Expr>) returns (stack': seq<Expr>, visited': set<Expr>)
    requires !e.Read?
    ensures IsPushed(Kids(e), stack, visited, stack', visited') && Total(stack') < Total(stack) + Size(e)
  {
    hide *;
    var kids := Kids(e);
    KidsSize(e);
    NothingPushed(stack, visited);
    assert kids[..0] == [];
    stack', visited' := stack, visited;
    for i := 0 to |kids|
      invariant IsPushed(kids[..i], stack, visited, stack', visited')
      invariant Total(stack') <= Total(stack) + Total(kids[..i])
    {
      ghost var s, v := stack', visited';
      stack', visited' := Push(kids[i], stack', visited');
      PushedMore(kids[..i], [kids[i]], stack, visited, s, v, stack', visited');
      assert kids[..i + 1] == kids[..i] + [kids[i]];
      TotalMore(kids[..i], kids[i]);
    }
    assert kids[..|kids|] == kids;
  }

  lemma TotalMore(s: seq<Expr>, e: Expr)
    ensures Total(s + [e]) == Total(s) + Size(e)
  {
    assert (s + [e])[..|s|] == s;
  }

  lemma KidsSize(e: Expr)
    requires !e.Read?
    ensures Total(Kids(e)) < Size(e) && Total(Kids(e)[..0]) == 0
  {
    assert forall a :: Total([a]) == Size(a) by {
      forall a ensures Total([a]) == Size(a) { TotalMore([], a); assert [] + [a] == [a]; }
    }
    assert forall a, b :: Total([a, b]) == Size(a) + Size(b) by {
      forall a, b ensures Total([a, b]) == Size(a) + Size(b) { TotalMore([a], b); assert [a] + [b] == [a, b]; }
    }
    if e.Select? {
      TotalMore([e.cond, e.trueExpr], e.falseExpr);
      assert [e.cond, e.trueExpr] + [e.falseExpr] == Kids(e);
    }
  }

  /** The indices and values of an update list. */
  method PushUpdates(head: UpdateNode, stack: seq<Expr>, visited: set<Expr>)
    returns (stack': seq<Expr>, visited': set<Expr>)
    ensures IsPushed(UpdateKids(head), stack, visited, stack', visited')
    ensures Total(stack') <= Total(stack) + UpdateSize(head)
  {
    NothingPushed(stack, visited);
    hide IsPushed, Size, Total;
    stack', visited' := stack, visited;
    var un := head;
    ghost var done := [];
    while un.Node?
      invariant IsPushed(done, stack, visited, stack', visited') && done + UpdateKids(un) == UpdateKids(head)
      invariant Total(stack') + UpdateSize(un) <= Total(stack) + UpdateSize(head)
      decreases un
    {
      ghost var s, v := stack', visited';
      stack', visited' := Push(un.at, stack', visited');
      PushedMore(done, [un.at], stack, visited, s, v, stack', visited');
      s, v := stack', visited';
      stack', visited' := Push(un.val, stack', visited');
      PushedMore(done + [un.at], [un.val], stack, visited, s, v, stack', visited');
      assert done + [un.at] + [un.val] + UpdateKids(un.next) == done + UpdateKids(un);
      done := done + [un.at] + [un.val];
      un := un.next;
    }
    assert done + UpdateKids(un) == done;
  }

  /** Everything seen is a subexpression. What is no longer on the work list is among the
      results if it is a read, and its children were seen. */
  ghost predicate Searching(e: Expr, deep: bool, stack: seq<Expr>, visited: set<Expr>, results: seq<Expr>) {
    && (e.Const? || e in visited)
    && (forall x :: x in visited ==> !x.Const? && Occurs(e, x, deep))
    && (forall x :: x in stack ==> x in visited) && Distinct(stack) && Distinct(results)
    && (forall x :: x in results <==> x in visited && x.Read? && x !in stack)
    && (forall x, c :: x in visited && x !in stack && IsChild(x, c, deep) ==> c.Const? || c in visited)
  }

  /** The update lists searched before. */
  ghost predicate Searched(updates: set<UpdateNode>, visited: set<Expr>) {
    forall u, c :: u in updates && c in UpdateKids(u) ==> c.Const? || c in visited
  }

  /** The children of the expression taken from the work list have been seen to. */
  ghost predicate IsExpanded(top: Expr, deep: bool, stack: seq<Expr>, visited: set<Expr>, stack': seq<Expr>,
                             visited': set<Expr>)
  {
    && stack <= stack' && Distinct(stack'[|stack|..])
    && visited' == visited + (set x | x in stack'[|stack|..])
    && (forall x :: x in stack'[|stack|..] ==> IsChild(top, x, deep) && !x.Const? && x !in visited)
    && (forall c :: IsChild(top, c, deep) ==> c.Const? || c in visited')
  }

  lemma Expanded(e: Expr, deep: bool, stack: seq<Expr>, visited: set<Expr>, results: seq<Expr>, stack': seq<Expr>,
                 visited': set<Expr>)
    requires Searching(e, deep, stack, visited, results) && stack != []
    requires IsExpanded(stack[|stack| - 1], deep, stack[..|stack| - 1], visited, stack', visited')
    ensures var top := stack[|stack| - 1];
            Searching(e, deep, stack', visited', if top.Read? then results + [top] else results)
  {
    hide IsChild, Occurs, Distinct;
    var top, rest := stack[|stack| - 1], stack[..|stack| - 1];
    var added := stack'[|rest|..];
    assert stack' == rest + added && stack == rest + [top];
    assert forall x :: x in stack' <==> x in rest || x in added;
    assert forall x :: x in stack <==> x in rest || x == top;
    forall x | x in added ensures Occurs(e, x, deep) {
      OccursNext(e, top, x, deep);
    }
    LastDistinct(stack);
    JoinDistinct(rest, added);
    OneDistinct(top);
    JoinDistinct(results, [top]);
  }

  lemma OneDistinct(e: Expr)
    ensures Distinct([e])
  {
  }

  lemma LastDistinct(s: seq<Expr>)
    requires Distinct(s) && s != []
    ensures Distinct(s[..|s| - 1]) && s[|s| - 1] !in s[..|s| - 1]
  {
  }

  /** Once the work list is empty, every subexpression but the constants has been seen. */
  lemma {:induction false} AllSeen(e: Expr, deep: bool, visited: set<Expr>, results: seq<Expr>, path: seq<Expr>)
    requires Searching(e, deep, [], visited, results) && IsPath(e, path, deep)
    ensures path[|path| - 1].Const? || path[|path| - 1] in visited
    decreases |path|
  {
    hide Occurs;
    if |path| > 1 {
      var before := path[..|path| - 1];
      assert IsPath(e, before, deep);
      AllSeen(e, deep, visited, results, before);
      var k: nat := |path| - 2;
      assert IsChild(path[k], path[k + 1], deep);
    }
  }

  lemma SearchDone(e: Expr, deep: bool, visited: set<Expr>, results: seq<Expr>)
    requires Searching(e, deep, [], visited, results)
    ensures Distinct(results) && forall x: Expr :: x in results <==> x.Read? && Occurs(e, x, deep)
  {
    forall x: Expr | x.Read? && Occurs(e, x, deep) ensures x in results {
      hide Searching, IsPath;
      var path :| IsPath(e, path, deep) && path[|path| - 1] == x;
      AllSeen(e, deep, visited, results, path);
    }
  }

  /** The reads of an expression, each of them once. */
  method FindReads(e: Expr, visitUpdates: bool) returns (results: seq<Expr>)
    ensures forall x: Expr :: x in results <==> x.Read? && Occurs(e, x, visitUpdates)
    ensures Distinct(results)
  {
    hide *;
    var stack: seq<Expr>, visited: set<Expr>, updates: set<UpdateNode> := [], {}, {};
    results := [];
    if !e.Const? {
      visited := visited + {e};
      stack := stack + [e];
    }
    SearchStart(e, visitUpdates, stack, visited);
    while stack != []
      invariant Searching(e, visitUpdates, stack, visited, results) && Searched(updates, visited)
      decreases Total(stack)
    {
      var top := stack[|stack| - 1];
      ghost var was, seen, found := stack, visited, results;
      stack := stack[..|stack| - 1];
      assert was == stack + [top];
      TotalMore(stack, top);
      if top.Read? {
        results := results + [top];
        ReadSize(top);
        stack, visited := Push(top.index, stack, visited);
        ghost var s, v := stack, visited;
        SearchedMore(updates, [top.index], was[..|was| - 1], seen, stack, visited);
        if visitUpdates && top.head !in updates {
          updates := updates + {top.head};
          stack, visited := PushUpdates(top.head, stack, visited);
          NewUpdates(updates, top.head, s, v, stack, visited);
          PushedMore([top.index], UpdateKids(top.head), was[..|was| - 1], seen, s, v, stack, visited);
        }
        ReadExpanded(top, visitUpdates, updates, was[..|was| - 1], seen, stack, visited);
      } else {
        stack, visited := PushKids(top, stack, visited);
        SearchedMore(updates, Kids(top), was[..|was| - 1], seen, stack, visited);
        OtherExpanded(top, visitUpdates, was[..|was| - 1], seen, stack, visited);
      }
      Expanded(e, visitUpdates, was, seen, found, stack, visited);
    }
    SearchDone(e, visitUpdates, visited, results);
  }

  lemma SearchStart(e: Expr, deep: bool, stack: seq<Expr>, visited: set<Expr>)
    requires if e.Const? then stack == [] && visited == {} else stack == [e] && visited == {e}
    ensures Searching(e, deep, stack, visited, []) && Searched({}, visited)
  {
    OccursSelf(e, deep);
  }

  lemma ReadSize(e: Expr)
    requires e.Read?
    ensures Size(e) == 1 + UpdateSize(e.head) + Size(e.index)
  {
  }

  lemma SearchedMore(updates: set<UpdateNode>, kids: seq<Expr>, s: seq<Expr>, v: set<Expr>, s': seq<Expr>,
                     v': set<Expr>)
    requires Searched(updates, v) && IsPushed(kids, s, v, s', v')
    ensures Searched(updates, v')
  {
  }

  lemma NewUpdates(updates: set<UpdateNode>, head: UpdateNode, s: seq<Expr>, v: set<Expr>, s': seq<Expr>,
                   v': set<Expr>)
    requires Searched(updates - {head}, v) && IsPushed(UpdateKids(head), s, v, s', v')
    ensures Searched(updates, v')
  {
    hide UpdateKids;
    forall u, c | u in updates && c in UpdateKids(u) ensures c.Const? || c in v' {
      if u != head { assert u in updates - {head}; }
    }
  }

  /** A read has been seen to when its index was, and its updates now or before. */
  lemma ReadExpanded(top: Expr, deep: bool, updates: set<UpdateNode>, s: seq<Expr>, v: set<Expr>, s': seq<Expr>,
                     v': set<Expr>)
    requires top.Read? && Searched(updates, v') && (deep ==> top.head in updates)
    requires IsPushed([top.index], s, v, s', v') || (deep && IsPushed([top.index] + UpdateKids(top.head), s, v, s', v'))
    ensures IsExpanded(top, deep, s, v, s', v')
  {
    hide UpdateKids;
  }

  lemma OtherExpanded(top: Expr, deep: bool, s: seq<Expr>, v: set<Expr>, s': seq<Expr>, v': set<Expr>)
    requires !top.Read? && IsPushed(Kids(top), s, v, s', v')
    ensures IsExpanded(top, deep, s, v, s', v')
  {
    hide Kids;
  }

  // ----------------------------------------------------- what the reads decide

  /** Two assignments agree on every byte that a read of the expression looks up. */
  ghost predicate AgreeOnReads(e: Expr, sigma: Assignment, tau: Assignment) {
    forall x: Expr :: x.Read? && Occurs(e, x, true) ==>
      sigma(x.root, Eval(x.index, sigma)) == tau(x.root, Eval(x.index, sigma))
  }

  lemma AgreeUnder(e: Expr, c: Expr, sigma: Assignment, tau: Assignment)
    requires AgreeOnReads(e, sigma, tau) && IsChild(e, c, true)
    ensures AgreeOnReads(c, sigma, tau)
  {
    hide IsChild, Occurs, Eval;
    forall x: Expr | x.Read? && Occurs(c, x, true)
      ensures sigma(x.root, Eval(x.index, sigma)) == tau(x.root, Eval(x.index, sigma))
    {
      OccursUnder(e, c, x, true);
    }
  }

  /** The reads found with the update lists decide the value of an expression. */
  lemma {:induction false} ReadsDecide(e: Expr, sigma: Assignment, tau: Assignment)
    requires AgreeOnReads(e, sigma, tau)
    ensures Eval(e, sigma) == Eval(e, tau)
    decreases e
  {
    hide AgreeOnReads, EvalBinary, ConcatBits, ExtractBits, SignExtend;
    forall c | c in Kids(e)
      ensures Eval(c, sigma) == Eval(c, tau)
    {
      KidSmaller(e, c);
      AgreeUnder(e, c, sigma, tau);
      ReadsDecide(c, sigma, tau);
    }
    match e
    case Const(_, _) =>
    case Read(root, u, i) =>
      assert i in Kids(e);
      ReadByte(e, sigma, tau);
      UpdatesDecide(e, u, sigma, tau);
    case Select(c, t, f) => assert c in Kids(e) && t in Kids(e) && f in Kids(e);
    case Concat(h, l) => assert h in Kids(e) && l in Kids(e);
    case Extract(s, _, _) => assert s in Kids(e);
    case ZExt(s, _) => assert s in Kids(e);
    case SExt(s, _) => assert s in Kids(e);
    case Binary(_, l, r) => assert l in Kids(e) && r in Kids(e);
    case NotOptimized(s) => assert s in Kids(e);
  }

  lemma KidSmaller(e: Expr, c: Expr)
    requires c in Kids(e)
    ensures c < e
  {
  }

  lemma ReadByte(e: Expr, sigma: Assignment, tau: Assignment)
    requires e.Read? && AgreeOnReads(e, sigma, tau)
    ensures RootByte(Some(e.root), Eval(e.index, sigma), sigma) == RootByte(Some(e.root), Eval(e.index, sigma), tau)
  {
    OccursSelf(e, true);
  }

  lemma {:induction false} UpdatesDecide(e: Expr, u: UpdateNode, sigma: Assignment, tau: Assignment)
    requires e.Read? && AgreeOnReads(e, sigma, tau)
    requires forall c :: c in UpdateKids(u) ==> c in UpdateKids(e.head)
    requires RootByte(Some(e.root), Eval(e.index, sigma), sigma) == RootByte(Some(e.root), Eval(e.index, sigma), tau)
    ensures Lookup(Some(e.root), u, Eval(e.index, sigma), sigma) == Lookup(Some(e.root), u, Eval(e.index, sigma), tau)
    decreases u
  {
    hide AgreeOnReads;
    if u.Node? {
      assert u.at in UpdateKids(u) && u.val in UpdateKids(u);
      AgreeUnder(e, u.at, sigma, tau);
      AgreeUnder(e, u.val, sigma, tau);
      ReadsDecide(u.at, sigma, tau);
      ReadsDecide(u.val, sigma, tau);
      UpdatesDecide(e, u.next, sigma, tau);
    }
  }
}
