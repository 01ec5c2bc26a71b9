/**
 The process tree: one leaf per execution state, inner nodes for past forks. A
 child pointer carries a tag for each random path searcher, so that a searcher can
 descend to a state of its own. Nodes also count visits and collect rewards.
 */
module ProcessTree {
  import opened Arithmetic
  import opened Exprs

  class PTreeNode {
    var parent: PTreeNode?
    var left: PTreeNode?
    var right: PTreeNode?
    var leftTag: set<nat>
    var rightTag: set<nat>
    /** The execution state of a leaf. */
    var state: Option<nat>
    var visit: nat
    var reward: real
    ghost var depth: nat
    ghost var visits: nat

    constructor (parent: PTreeNode?, state: nat)
      ensures this.parent == parent && this.left == null && this.right == null
      ensures this.leftTag == {} && this.rightTag == {} && this.state == Some(state)
      ensures this.visit == this.visits == 0 && this.reward == 0.0
      ensures this.depth == if parent == null then 0 else parent.depth + 1
    {
      this.parent, this.left, this.right, this.leftTag, this.rightTag := parent, null, null, {}, {};
      this.state, this.visit, this.visits, this.reward := Some(state), 0, 0, 0.0;
      this.depth := if parent == null then 0 else parent.depth + 1;
    }

    method Count(reward: real)
      modifies this`visit, this`visits, this`reward
      ensures FieldsOf(this) == Counted(old(FieldsOf(this)), reward)
    {
      visit := (visit + 1) % UINT32;
      visits := visits + 1;
      this.reward := this.reward + reward;
    }
  }

  // ------------------------------------------------------------- invariants

  /** The fields of a node, and the live nodes of a tree with their fields. */
  datatype Fields = Fields(parent: PTreeNode?, left: PTreeNode?, right: PTreeNode?, leftTag: set<nat>,
                           rightTag: set<nat>, state: Option<nat>, visit: nat, reward: real, depth: nat, visits: nat)

  type Tree = map<PTreeNode, Fields>

  ghost function FieldsOf(n: PTreeNode): Fields
    reads n
  {
    Fields(n.parent, n.left, n.right, n.leftTag, n.rightTag, n.state, n.visit, n.reward, n.depth, n.visits)
  }

  ghost predicate Matches(t: Tree)
    reads t.Keys
  {
    forall n :: n in t ==> FieldsOf(n) == t[n]
  }

  /** Pairs of a searcher and a state it has been told about. */
  type Owners = set<(nat, nat)>

  /** A whole process tree at one moment. */
  datatype View = View(tree: Tree, root: PTreeNode, rootTag: set<nat>, where: map<nat, PTreeNode>, owners: Owners)

  /** Parent and child pointers agree, and lead away from the root. */
  ghost predicate LinkOk(v: View, n: PTreeNode)
    requires n in v.tree
  {
    var t := v.tree;
    var f := t[n];
    && (f.parent == null <==> n == v.root)
    && (f.parent != null ==>
          f.parent in t && t[f.parent].depth < f.depth && (t[f.parent].left == n || t[f.parent].right == n))
    && (f.left != null ==> f.left in t && t[f.left].parent == n && f.left != f.right)
    && (f.right != null ==> f.right in t && t[f.right].parent == n)
  }

  ghost predicate Links(v: View) {
    (v.tree != map[] ==> v.root in v.tree) && forall n :: n in v.tree ==> LinkOk(v, n)
  }

  ghost predicate IsLeaf(f: Fields) { f.left == null && f.right == null }

  /** The leaves are the nodes of the states. */
  ghost predicate LeafOk(v: View, n: PTreeNode)
    requires n in v.tree
  {
    var f := v.tree[n];
    (f.state.Some? <==> IsLeaf(f)) && (f.state.Some? ==> f.state.value in v.where && v.where[f.state.value] == n)
  }

  ghost predicate Leaves(v: View) {
    && (forall n :: n in v.tree ==> LeafOk(v, n))
    && (forall s :: s in v.where ==> v.where[s] in v.tree && v.tree[v.where[s]].state == Some(s))
  }

  /** The tag of the pointer that leads to a node. */
  ghost function Tag(v: View, n: PTreeNode): set<nat>
    requires n in v.tree
  {
    var p := v.tree[n].parent;
    if p == null || p !in v.tree then v.rootTag
    else if v.tree[p].left == n then v.tree[p].leftTag else v.tree[p].rightTag
  }

  /** Whether a searcher should find something at or below a node. */
  ghost predicate Has(f: Fields, owners: Owners, id: nat) {
    (f.state.Some? && (id, f.state.value) in owners) || id in f.leftTag || id in f.rightTag
  }

  ghost predicate TagOk(v: View, n: PTreeNode)
    requires n in v.tree
  {
    var f := v.tree[n];
    && (forall id: nat :: id in Tag(v, n) <==> Has(f, v.owners, id))
    && (f.left == null ==> f.leftTag == {}) && (f.right == null ==> f.rightTag == {})
  }

  ghost predicate Tags(v: View) {
    (forall n :: n in v.tree ==> TagOk(v, n)) && (v.tree == map[] ==> v.rootTag == {})
  }

  ghost function VisitsOf(t: Tree, n: PTreeNode?): nat { if n == null || n !in t then 0 else t[n].visits }

  ghost function RewardOf(t: Tree, n: PTreeNode?): real { if n == null || n !in t then 0.0 else t[n].reward }

  /** A node has been visited at least as often as its children together, and has
      collected at least their rewards. */
  ghost predicate CountOk(t: Tree, n: PTreeNode)
    requires n in t
  {
    && t[n].visit == t[n].visits % UINT32
    && t[n].visits >= VisitsOf(t, t[n].left) + VisitsOf(t, t[n].right)
    && t[n].reward >= 0.0 && t[n].reward >= RewardOf(t, t[n].left) + RewardOf(t, t[n].right)
  }

  ghost predicate Counts(v: View) { forall n :: n in v.tree ==> CountOk(v.tree, n) }

  ghost predicate Known(v: View) { forall o :: o in v.owners ==> o.1 in v.where }

  /** Everything that holds of a tree between operations. */
  ghost predicate Good(v: View) { Links(v) && Leaves(v) && Tags(v) && Counts(v) && Known(v) }

  /** Every node but one has two children or none. */
  ghost predicate FullBut(v: View, n: PTreeNode?) {
    forall m :: m in v.tree && m != n ==> (v.tree[m].left == null <==> v.tree[m].right == null)
  }

  /** Every inner node has two children. */
  ghost predicate Full(v: View) { FullBut(v, null) }

  lemma StateNode(v: View, s: nat)
    requires Good(v) && s in v.where
    ensures var n := v.where[s];
            n in v.tree && v.tree[n].state == Some(s) && IsLeaf(v.tree[n]) && LinkOk(v, n) &&
            v.tree[n].leftTag == {} && v.tree[n].rightTag == {} && v.root in v.tree
  {
    assert LeafOk(v, v.where[s]) && TagOk(v, v.where[s]);
  }

  // ------------------------------------------------------------------ forks

  datatype ForkArgs = ForkArgs(node: PTreeNode, l: PTreeNode, r: PTreeNode, leftState: nat, rightState: nat)

  ghost predicate CanFork(v: View, a: ForkArgs) {
    && a.rightState in v.where && v.where[a.rightState] == a.node && a.leftState !in v.where
    && a.l !in v.tree && a.r !in v.tree && a.l != a.r && a.node in v.tree && IsLeaf(v.tree[a.node])
  }

  ghost function NewLeaf(parent: PTreeNode, depth: nat, state: nat): Fields {
    Fields(parent, null, null, {}, {}, Some(state), 0, 0.0, depth, 0)
  }

  ghost predicate IsForkTree(v: View, a: ForkArgs, t: Tree)
    requires a.node in v.tree
  {
    var f := v.tree[a.node];
    && t.Keys == v.tree.Keys + {a.l, a.r}
    && t[a.node] == f.(state := None, left := a.l, right := a.r, rightTag := Tag(v, a.node))
    && t[a.l] == NewLeaf(a.node, f.depth + 1, a.leftState) && t[a.r] == NewLeaf(a.node, f.depth + 1, a.rightState)
    && (forall n :: n in v.tree && n != a.node ==> t[n] == v.tree[n])
  }

  ghost predicate IsForkWhere(where: map<nat, PTreeNode>, a: ForkArgs, where': map<nat, PTreeNode>) {
    && where'.Keys == where.Keys + {a.leftState, a.rightState}
    && where'[a.leftState] == a.l && where'[a.rightState] == a.r
    && (forall s :: s in where && s != a.rightState ==> where'[s] == where[s])
  }

  ghost predicate IsFork(v: View, a: ForkArgs, v': View)
    requires a.node in v.tree
  {
    && v'.root == v.root && v'.rootTag == v.rootTag && v'.owners == v.owners
    && IsForkTree(v, a, v'.tree) && IsForkWhere(v.where, a, v'.where)
  }

  lemma ForkLinks(v: View, a: ForkArgs, v': View)
    requires Links(v) && CanFork(v, a) && IsFork(v, a, v')
    ensures Links(v')
  {
    assert LinkOk(v, a.node);
    forall n | n in v'.tree
      ensures LinkOk(v', n)
    {
      if n in v.tree { assert LinkOk(v, n); }
    }
  }

  lemma ForkLeaves(v: View, a: ForkArgs, v': View)
    requires Leaves(v) && CanFork(v, a) && IsFork(v, a, v')
    ensures Leaves(v')
  {
    forall n | n in v'.tree
      ensures LeafOk(v', n)
    {
      if n in v.tree { assert LeafOk(v, n); }
    }
  }

  /** A fork leaves the tags of the old pointers alone. */
  lemma ForkTag(v: View, a: ForkArgs, v': View, n: PTreeNode)
    requires CanFork(v, a) && IsFork(v, a, v') && n in v.tree && LinkOk(v, n)
    ensures Tag(v', n) == Tag(v, n)
  {
  }

  lemma ForkTags(v: View, a: ForkArgs, v': View)
    requires Good(v) && CanFork(v, a) && IsFork(v, a, v')
    ensures Tags(v')
  {
    assert TagOk(v, a.node) && LeafOk(v, a.node) && v.tree[a.node].state == Some(a.rightState);
    forall n | n in v'.tree
      ensures TagOk(v', n)
    {
      if n in v.tree {
        assert LinkOk(v, n) && TagOk(v, n);
        ForkTag(v, a, v', n);
      }
    }
  }

  lemma ForkCounts(v: View, a: ForkArgs, v': View)
    requires Links(v) && Counts(v) && CanFork(v, a) && IsFork(v, a, v')
    ensures Counts(v')
  {
    assert CountOk(v'.tree, a.l) && CountOk(v'.tree, a.r);
    assert CountOk(v'.tree, a.node) by { assert CountOk(v.tree, a.node); }
    forall n | n in v.tree && n != a.node
      ensures CountOk(v'.tree, n)
    {
      assert LinkOk(v, n) && CountOk(v.tree, n);
      assert v'.tree[n] == v.tree[n];
      ForkVisits(v, a, v'.tree);
    }
  }

  lemma ForkGood(v: View, a: ForkArgs, v': View)
    requires Good(v) && CanFork(v, a) && IsFork(v, a, v')
    ensures Good(v')
  {
    hide Links, Tags, Counts, Leaves, CanFork;
    ForkLinks(v, a, v');
    ForkLeaves(v, a, v');
    ForkTags(v, a, v');
    ForkCounts(v, a, v');
  }

  ghost function ForkTree(v: View, a: ForkArgs): (t: Tree)
    requires CanFork(v, a)
    ensures IsForkTree(v, a, t)
  {
    var f := v.tree[a.node];
    v.tree[a.node := f.(state := None, left := a.l, right := a.r, rightTag := Tag(v, a.node))]
          [a.l := NewLeaf(a.node, f.depth + 1, a.leftState)]
          [a.r := NewLeaf(a.node, f.depth + 1, a.rightState)]
  }

  function ForkWhere(where: map<nat, PTreeNode>, a: ForkArgs): (where': map<nat, PTreeNode>)
    requires a.leftState !in where && a.rightState in where
    ensures IsForkWhere(where, a, where')
  {
    where[a.leftState := a.l][a.rightState := a.r]
  }

  method Split(node: PTreeNode, tag: set<nat>, leftState: nat, rightState: nat) returns (l: PTreeNode, r: PTreeNode)
    modifies node
    ensures fresh(l) && fresh(r) && l != r && node.left == l && node.right == r && node.state == None
    ensures FieldsOf(node) == old(FieldsOf(node)).(state := None, left := l, right := r, rightTag := tag)
    ensures FieldsOf(l) == NewLeaf(node, old(FieldsOf(node)).depth + 1, leftState)
    ensures FieldsOf(r) == NewLeaf(node, old(FieldsOf(node)).depth + 1, rightState)
  {
    node.state := None;
    l := new PTreeNode(node, leftState);
    node.left := l;
    r := new PTreeNode(node, rightState);
    node.right, node.rightTag := r, tag;
  }

  lemma MatchesRest(t: Tree, n: PTreeNode)
    requires Matches(t) && n in t
    ensures Matches(t - {n}) && FieldsOf(n) == t[n]
  {
  }

  lemma ForkMatches(v: View, a: ForkArgs, v': View)
    requires CanFork(v, a) && IsFork(v, a, v') && Matches(v.tree - {a.node})
    requires var f := v.tree[a.node];
             FieldsOf(a.node) == f.(state := None, left := a.l, right := a.r, rightTag := Tag(v, a.node)) &&
             FieldsOf(a.l) == NewLeaf(a.node, f.depth + 1, a.leftState) &&
             FieldsOf(a.r) == NewLeaf(a.node, f.depth + 1, a.rightState)
    ensures Matches(v'.tree)
  {
    forall n | n in v'.tree
      ensures FieldsOf(n) == v'.tree[n]
    {
      if n in v.tree && n != a.node { assert n in v.tree - {a.node}; }
    }
  }

  // --------------------------------------------------------- moving tags about

  /** The pointer to a node has got another tag, and nothing else has changed. */
  ghost predicate IsRetag(v: View, n: PTreeNode, tag: set<nat>, v': View)
    requires n in v.tree
  {
    var p := v.tree[n].parent;
    && v'.root == v.root && v'.where == v.where && v'.owners == v.owners && v'.tree.Keys == v.tree.Keys
    && (forall m :: m in v.tree && m != p ==> v'.tree[m] == v.tree[m])
    && if p == null || p !in v.tree then v'.rootTag == tag
       else v'.rootTag == v.rootTag &&
            v'.tree[p] == if v.tree[p].left == n then v.tree[p].(leftTag := tag) else v.tree[p].(rightTag := tag)
  }

  /** A node whose tag may be wrong about one searcher. */
  ghost predicate TagOkBut(v: View, n: PTreeNode, id: nat)
    requires n in v.tree
  {
    var f := v.tree[n];
    && (forall id': nat :: id' != id ==> (id' in Tag(v, n) <==> Has(f, v.owners, id')))
    && (f.left == null ==> f.leftTag == {}) && (f.right == null ==> f.rightTag == {})
  }

  /** A good tree, but for the tag of one searcher on the way to one node. */
  ghost predicate Pending(v: View, n: PTreeNode?, id: nat) {
    && Links(v) && Leaves(v) && Counts(v) && Known(v) && (v.tree == map[] ==> v.rootTag == {})
    && (n != null ==> n in v.tree && TagOkBut(v, n, id))
    && (forall m :: m in v.tree && m != n ==> TagOk(v, m))
  }

  lemma PendingDone(v: View, n: PTreeNode?, id: nat)
    requires Pending(v, n, id) && (n != null ==> (id in Tag(v, n) <==> Has(v.tree[n], v.owners, id)))
    ensures Good(v)
  {
    assert n != null ==> TagOk(v, n);
  }

  ghost predicate SameButTags(v: View, v': View) {
    && v'.root == v.root && v'.where == v.where && v'.tree.Keys == v.tree.Keys
    && (forall m :: m in v.tree ==>
          v'.tree[m] == v.tree[m].(leftTag := v'.tree[m].leftTag, rightTag := v'.tree[m].rightTag))
  }

  lemma SameLinks(v: View, v': View)
    requires SameButTags(v, v') && Links(v)
    ensures Links(v')
  {
    forall m | m in v'.tree
      ensures LinkOk(v', m)
    {
      assert LinkOk(v, m);
    }
  }

  lemma SameLeaves(v: View, v': View)
    requires SameButTags(v, v') && Leaves(v)
    ensures Leaves(v')
  {
    forall m | m in v'.tree
      ensures LeafOk(v', m)
    {
      assert LeafOk(v, m);
    }
  }

  lemma SameAgain(v: View, w: View, v': View)
    requires SameButTags(v, w) && SameButTags(w, v')
    ensures SameButTags(v, v') && v'.tree.Keys == v.tree.Keys
  {
  }

  lemma SameVisits(v: View, v': View)
    requires SameButTags(v, v')
    ensures v'.root == v.root && v'.tree.Keys == v.tree.Keys
    ensures forall m :: m in v.tree ==> v'.tree[m].visits == v.tree[m].visits
  {
  }

  lemma SameCounts(v: View, v': View)
    requires SameButTags(v, v') && Counts(v)
    ensures Counts(v')
  {
    forall m | m in v'.tree
      ensures CountOk(v'.tree, m)
    {
      assert CountOk(v.tree, m);
    }
  }

  lemma RetagTag(v: View, n: PTreeNode, tag: set<nat>, v': View, m: PTreeNode)
    requires Links(v) && n in v.tree && m in v.tree && IsRetag(v, n, tag, v')
    ensures Tag(v', m) == if m == n then tag else Tag(v, m)
  {
    assert LinkOk(v, m) && LinkOk(v, n);
    if v.tree[m].parent != null { assert LinkOk(v, v.tree[m].parent); }
  }

  /** One step of a climb towards the root: the tag of a node becomes right, and what
      may be wrong now is the tag of its parent. */
  lemma RetagUp(v: View, n: PTreeNode, id: nat, tag: set<nat>, v': View)
    requires Pending(v, n, id) && IsRetag(v, n, tag, v')
    requires tag == if Has(v.tree[n], v.owners, id) then Tag(v, n) + {id} else Tag(v, n) - {id}
    ensures Pending(v', v.tree[n].parent, id) && SameButTags(v, v')
  {
    assert LinkOk(v, n);
    assert SameButTags(v, v');
    hide Links, Leaves, Counts, TagOk, TagOkBut, Has, Tag;
    SameLinks(v, v');
    SameLeaves(v, v');
    SameCounts(v, v');
    forall m | m in v'.tree
      ensures m != v.tree[n].parent ==> TagOk(v', m)
      ensures m == v.tree[n].parent ==> TagOkBut(v', m, id)
    {
      RetagNode(v, n, id, tag, v', m);
    }
  }

  lemma RetagNode(v: View, n: PTreeNode, id: nat, tag: set<nat>, v': View, m: PTreeNode)
    requires Links(v) && n in v.tree && m in v.tree && IsRetag(v, n, tag, v')
    requires if m == n then TagOkBut(v, n, id) else TagOk(v, m)
    requires tag == if Has(v.tree[n], v.owners, id) then Tag(v, n) + {id} else Tag(v, n) - {id}
    ensures m != v.tree[n].parent ==> TagOk(v', m)
    ensures m == v.tree[n].parent ==> TagOkBut(v', m, id)
  {
    assert LinkOk(v, n);
    RetagTag(v, n, tag, v', m);
    RetagHas(v, n, id, tag, v', m);
    hide IsRetag, Tag, Has, Links;
  }

  /** Only the parent of a node notices another tag on the way to the node. */
  lemma RetagHas(v: View, n: PTreeNode, id: nat, tag: set<nat>, v': View, m: PTreeNode)
    requires n in v.tree && m in v.tree && LinkOk(v, n) && IsRetag(v, n, tag, v')
    requires forall id': nat :: id' != id ==> (id' in tag <==> id' in Tag(v, n))
    ensures forall id': nat :: m != v.tree[n].parent || id' != id ==>
              (Has(v'.tree[m], v'.owners, id') <==> Has(v.tree[m], v.owners, id'))
    ensures m == v.tree[n].parent ==> (id in tag ==> Has(v'.tree[m], v'.owners, id))
    ensures v'.tree[m].left == v.tree[m].left && v'.tree[m].right == v.tree[m].right
    ensures v'.tree[m].left == null ==> v'.tree[m].leftTag == v.tree[m].leftTag
    ensures v'.tree[m].right == null ==> v'.tree[m].rightTag == v.tree[m].rightTag
  {
  }

  class PTree {
    var root: PTreeNode
    var rootTag: set<nat>
    /** The node of each state, as the states themselves record it. */
    var where: map<nat, PTreeNode>
    var registeredIds: nat
    const compress: bool

    /** The nodes that have not been deleted, which states each searcher has been told
        about, and how often rewards have been propagated. */
    ghost var tree: Tree
    ghost var owners: Owners
    ghost var backprops: nat

    ghost function Now(): View
      reads this
    {
      View(tree, root, rootTag, where, owners)
    }

    ghost predicate Valid()
      reads this, tree.Keys
    {
      && Matches(tree) && Good(Now())
      && (root in tree ==> tree[root].visits <= backprops && (!compress ==> tree[root].visits == backprops))
      && (compress ==> Full(Now()))
    }

    constructor (initial: nat, compress: bool)
      ensures Valid() && fresh(tree.Keys) && owners == {} && backprops == 0 && registeredIds == 0
      ensures where == map[initial := root] && tree.Keys == {root} && this.compress == compress
    {
      var n := new PTreeNode(null, initial);
      root, rootTag, where, registeredIds, this.compress := n, {}, map[initial := n], 0, compress;
      tree, owners, backprops := map[n := FieldsOf(n)], {}, 0;
      new;
      FirstGood(Now(), n, initial);
      assert Full(Now());
    }

    /** Searchers are told apart by one of three bits. */
    method GetNextId() returns (r: Option<nat>)
      modifies this`registeredIds
      ensures registeredIds == old(registeredIds) + 1
      ensures r == if old(registeredIds) < 3 then Some(old(registeredIds)) else None
    {
      r := Some(registeredIds);
      registeredIds := registeredIds + 1;
      if registeredIds > 3 { r := None; }
    }

    /** The tag of the pointer to a node, found through its parent. */
    method PointerTag(node: PTreeNode) returns (tag: set<nat>)
      requires Matches(tree) && node in tree && LinkOk(Now(), node)
      ensures tag == Tag(Now(), node)
    {
      tag := rootTag;
      assert FieldsOf(node) == tree[node];
      if node.parent != null {
        assert FieldsOf(node.parent) == tree[node.parent];
        tag := if node.parent.left == node then node.parent.leftTag else node.parent.rightTag;
      }
    }

    method SetPointerTag(node: PTreeNode, tag: set<nat>)
      requires Matches(tree) && node in tree && LinkOk(Now(), node)
      modifies this`rootTag, this`tree, tree.Keys`leftTag, tree.Keys`rightTag
      ensures Matches(tree) && IsRetag(old(Now()), node, tag, Now())
    {
      assert FieldsOf(node) == tree[node];
      var p := node.parent;
      if p == null {
        rootTag := tag;
      } else {
        assert FieldsOf(p) == tree[p];
        if p.left == node { p.leftTag := tag; } else { p.rightTag := tag; }
        tree := tree[p := FieldsOf(p)];
      }
    }

    /** One step of a climb: the pointer to a node gets or loses a tag. */
    method Retag(node: PTreeNode, id: nat, add: bool) returns (parent: PTreeNode?)
      requires Matches(tree) && Pending(Now(), node, id) && (Has(tree[node], owners, id) <==> add)
      requires !add ==> id in Tag(Now(), node)
      modifies this`rootTag, this`tree, tree.Keys`leftTag, tree.Keys`rightTag
      ensures Matches(tree) && Pending(Now(), parent, id) && SameButTags(old(Now()), Now()) && node in tree
      ensures parent != null ==> parent in tree && tree[parent].depth < old(tree)[node].depth
      ensures parent != null ==> tree[parent].state == None
      ensures parent != null ==> if add then Has(tree[parent], owners, id) else id in Tag(Now(), parent)
    {
      hide Pending, Matches, SameButTags, Has, Tag, LinkOk, IsRetag;
      ghost var v := Now();
      PendingAt(v, node, id);
      var tag := PointerTag(node);
      SetPointerTag(node, if add then tag + {id} else tag - {id});
      RetagUp(v, node, id, if add then tag + {id} else tag - {id}, Now());
      RetagParent(v, node, id, if add then tag + {id} else tag - {id}, Now());
      MatchesAt(tree, node);
      parent := node.parent;
    }

    /** A fork: the node becomes an inner node, its state moves to the right leaf with its
        tag, and the new state is on the left, not yet known to any searcher. */
    method Attach(node: PTreeNode, leftState: nat, rightState: nat)
      requires Valid() && rightState in where && where[rightState] == node && leftState !in where
      modifies this`where, this`tree, node
      ensures Valid() && node in old(tree) && node.left != null && node.right != null
      ensures fresh(node.left) && fresh(node.right)
      ensures IsFork(old(Now()), ForkArgs(node, node.left, node.right, leftState, rightState), Now())
    {
      hide Good, Matches, FieldsOf, ForkTree, ForkWhere, IsForkTree, IsForkWhere, LinkOk, CanFork, Tag, FullBut;
      ghost var v := Now();
      StateNode(v, rightState);
      MatchesRest(tree, node);
      ghost var rest := tree - {node};
      var tag := PointerTag(node);
      var l, r := Split(node, tag, leftState, rightState);
      var a := ForkArgs(node, l, r, leftState, rightState);
      MayFork(v, a);
      where := ForkWhere(where, a);
      tree := ForkTree(v, a);
      ForkMatches(v, a, Now());
      ForkGood(v, a, Now());
      ForkVisits(v, a, tree);
      if compress { ForkFull(v, a, Now()); }
    }

    /** A node is deleted and the pointer to it set to null. */
    method Detach(node: PTreeNode) returns (parent: PTreeNode?)
      requires Matches(tree) && node in tree && LinkOk(Now(), node)
      modifies this`tree, tree.Keys`left, tree.Keys`right, tree.Keys`leftTag, tree.Keys`rightTag
      ensures Matches(tree) && IsDetach(old(Now()), node, Now()) && parent == old(tree)[node].parent
    {
      hide Matches, FieldsOf, Cleared, LinkOk, DetachTree, IsDetachTree, CanDetach;
      ghost var v := Now();
      DetachStart(v, node);
      parent := node.parent;
      if parent != null { ClearChild(parent, node); }
      tree := DetachTree(v.tree, node);
      DetachMatches(v.tree, node);
    }

    /** A node with one child is deleted and the child takes its place. */
    method Splice(node: PTreeNode, child: PTreeNode, tag: set<nat>)
      requires Matches(tree) && node in tree && child in tree && OnlyChild(tree[node], child, tag)
      requires LinkOk(Now(), node) && LinkOk(Now(), child)
      modifies this`root, this`rootTag, this`tree, tree.Keys`parent, tree.Keys`left, tree.Keys`right,
               tree.Keys`leftTag, tree.Keys`rightTag
      ensures Matches(tree) && IsSplice(old(Now()), node, child, tag, Now())
    {
      hide Matches, FieldsOf, Replaced, LinkOk, OnlyChild, SpliceTree, IsSpliceTree, CanSplice;
      ghost var v := Now();
      SpliceStart(v, node, child, tag);
      var parent := node.parent;
      Adopt(child, parent);
      if parent == null {
        root, rootTag := child, tag;
      } else {
        ReplaceChild(parent, node, child, tag);
      }
      tree := SpliceTree(v.tree, node, child, tag);
      SpliceMatches(v.tree, node, child, tag);
    }

    /** The leaf of a state is deleted, with every node above it that leads to no other
        state. The result is the first node above that does, if there is one. */
    method Prune(s: nat) returns (n: PTreeNode?)
      requires Valid() && s in where && forall id: nat :: (id, s) !in owners
      modifies this`where, this`tree, tree.Keys`left, tree.Keys`right, tree.Keys`leftTag, tree.Keys`rightTag
      ensures Matches(tree) && Removing(old(Now()), s, Now(), n) && tree.Keys <= old(tree.Keys)
      ensures n != null ==> n in tree && !IsLeaf(tree[n])
      ensures compress ==> FullBut(Now(), n)
    {
      hide Good, Matches, Removing, IsDetach, LinkOk, FullBut, FieldsOf, Tag;
      ghost var v := Now();
      n := where[s];
      where := where - {s};
      RemoveStart(v, s, Now());
      if compress { FullAny(v, Now(), n); }
      while n != null
        invariant Matches(tree) && Removing(v, s, Now(), n) && tree.Keys <= v.tree.Keys
        invariant compress ==> FullBut(Now(), n)
        decreases |tree.Keys|
      {
        RemovingAt(v, s, Now(), n);
        MatchesAt(tree, n);
        if n.left != null || n.right != null { break; }
        ghost var w := Now();
        var p := Detach(n);
        RemoveStep(v, s, w, n, Now());
        if compress { DetachFull(w, n, Now()); }
        n := p;
      }
    }

    /** A state is gone: its leaf is deleted, with every node above it that leads to no
        other state; with compression the node left with one child goes too, unless no node
        is left. */
    method Remove(s: nat) returns (ghost w: View)
      requires Valid() && s in where && forall id: nat :: (id, s) !in owners
      modifies this`where, this`tree, this`root, this`rootTag, tree.Keys`parent, tree.Keys`left, tree.Keys`right,
               tree.Keys`leftTag, tree.Keys`rightTag
      ensures Valid() && where == old(where) - {s}
      ensures Pruned(old(Now()), w)
      ensures if compress && w.tree != map[] then IsSpliced(w, Now()) else Now() == w
    {
      hide Good, Matches, Removing, Pruned, LinkOk, FullBut, FieldsOf, Tag, IsSpliced, IsLeaf;
      ghost var v := Now();
      var n := Prune(s);
      w := Now();
      RemoveDone(v, s, w, n);
      if n != null && compress { Compress(n); }
    }

    method Visit(n: PTreeNode, reward: real) returns (parent: PTreeNode?)
      requires Matches(tree) && n in tree
      modifies this`tree, n`visit, n`visits, n`reward
      ensures Matches(tree) && tree == CountTree(old(tree), n, reward) && parent == old(tree)[n].parent
    {
      hide Matches, FieldsOf, CountTree, Counted;
      MatchesAt(tree, n);
      MatchesRest(tree, n);
      parent := n.parent;
      n.Count(reward);
      CountMatches(tree, n, reward);
      tree := CountTree(tree, n, reward);
    }

    /** A reward goes to a node and to every node above it. */
    method Backpropagate(reward: real, start: PTreeNode)
      requires Valid() && start in tree && reward >= 0.0
      modifies this`tree, this`backprops, tree.Keys`visit, tree.Keys`visits, tree.Keys`reward
      ensures Valid() && backprops == old(backprops) + 1 && tree.Keys == old(tree.Keys)
      ensures Links(old(Now())) && Rewarded(old(Now()), start, null, reward, Now())
    {
      hide Good, Matches, Counting, Rewarded, LinkOk, Links, FieldsOf, CountTree, FullBut;
      ghost var v := Now();
      RewardStart(v, start, reward);
      var n: PTreeNode? := start;
      while n != null
        invariant Matches(tree) && Links(v) && v.root in v.tree
        invariant Counting(Now(), n, reward) && Rewarded(v, start, n, reward, Now())
        invariant tree.Keys == v.tree.Keys && backprops == old(backprops) && (n != null ==> n in tree)
        invariant tree[root].visits == v.tree[root].visits + if n == null then 1 else 0
        decreases if n == null then 0 else 1 + tree[n].depth
      {
        ghost var w := Now();
        CountingAt(w, n, reward);
        var p := Visit(n, reward);
        CountStep(w, n, reward, Now());
        RewardedStep(v, start, n, reward, w, Now());
        n := p;
      }
      CountingDone(Now(), reward);
      if compress { RewardsFull(v, start, reward, Now()); }
      backprops := backprops + 1;
    }

    /** A node with exactly one child is taken out of the tree. */
    method Compress(n: PTreeNode)
      requires Matches(tree) && Good(Now()) && n in tree && tree[n].state == None
      requires !IsLeaf(tree[n]) && (tree[n].left == null || tree[n].right == null) && FullBut(Now(), n)
      modifies this`tree, this`root, this`rootTag, tree.Keys`parent, tree.Keys`left, tree.Keys`right,
               tree.Keys`leftTag, tree.Keys`rightTag
      ensures Matches(tree) && Good(Now()) && owners == old(owners) && tree.Keys == old(tree.Keys) - {n}
      ensures root in tree && old(root) in old(tree) && tree[root].visits <= old(tree[root].visits)
      ensures IsSpliced(old(Now()), Now()) && Full(Now())
    {
      hide Good, Matches, LinkOk, IsSplice, FullBut;
      ghost var w := Now();
      MatchesAt(tree, n);
      var child := if n.left != null then n.left else n.right;
      var tag := if n.left != null then n.leftTag else n.rightTag;
      ChildLinks(w, n, child);
      Splice(n, child, tag);
      SpliceGood(w, n, child, tag, Now());
      SpliceRoot(w, n, child, tag, Now());
      SpliceFull(w, n, child, tag, Now());
    }
  }

  lemma ForkFull(v: View, a: ForkArgs, v': View)
    requires Full(v) && a.node in v.tree && IsFork(v, a, v')
    ensures Full(v')
  {
    hide Tag;
  }

  lemma FullAny(v: View, v': View, n: PTreeNode?)
    requires Full(v) && v'.tree == v.tree
    ensures FullBut(v', n)
  {
  }

  lemma DetachFull(v: View, n: PTreeNode, v': View)
    requires n in v.tree && FullBut(v, n) && IsDetach(v, n, v')
    ensures FullBut(v', v.tree[n].parent)
  {
  }

  /** The node with one child is gone, and its parent has as many children as before. */
  lemma SpliceFull(v: View, n: PTreeNode, c: PTreeNode, tag: set<nat>, v': View)
    requires n in v.tree && LinkOk(v, n) && c in v.tree && FullBut(v, n) && IsSplice(v, n, c, tag, v')
    ensures Full(v')
  {
  }

  lemma SameFull(v: View, v': View)
    requires Full(v) && v'.tree.Keys == v.tree.Keys
    requires forall m :: m in v.tree ==> v'.tree[m].left == v.tree[m].left && v'.tree[m].right == v.tree[m].right
    ensures Full(v')
  {
  }

  lemma TagsFull(v: View, v': View)
    requires Full(v) && SameButTags(v, v')
    ensures Full(v')
  {
    hide FullBut;
    SameFull(v, v');
  }

  lemma RewardsFull(v: View, start: PTreeNode, reward: real, v': View)
    requires Full(v) && Links(v) && Rewarded(v, start, null, reward, v')
    ensures Full(v')
  {
    hide FullBut, Under, Links;
    SameFull(v, v');
  }

  method ClearChild(parent: PTreeNode, node: PTreeNode)
    modifies parent`left, parent`right, parent`leftTag, parent`rightTag
    ensures FieldsOf(parent) == Cleared(old(FieldsOf(parent)), node)
  {
    if node == parent.left {
      parent.left, parent.leftTag := null, {};
    } else {
      parent.right, parent.rightTag := null, {};
    }
  }

  ghost function Cleared(f: Fields, n: PTreeNode): Fields {
    if f.left == n then f.(left := null, leftTag := {}) else f.(right := null, rightTag := {})
  }

  ghost predicate CanDetach(t: Tree, n: PTreeNode) {
    n in t && (t[n].parent != null ==> t[n].parent in t && t[n].parent != n)
  }

  ghost predicate IsDetachTree(t: Tree, n: PTreeNode, t': Tree)
    requires CanDetach(t, n)
  {
    var p := t[n].parent;
    && t'.Keys == t.Keys - {n} && (forall m :: m in t' && m != p ==> t'[m] == t[m])
    && (p != null ==> p in t' && t'[p] == Cleared(t[p], n))
  }

  ghost function DetachTree(t: Tree, n: PTreeNode): (t': Tree)
    requires CanDetach(t, n)
    ensures IsDetachTree(t, n, t')
  {
    var p := t[n].parent;
    if p == null then t - {n} else (t - {n})[p := Cleared(t[p], n)]
  }

  lemma DetachStart(v: View, n: PTreeNode)
    requires Matches(v.tree) && n in v.tree && LinkOk(v, n)
    ensures CanDetach(v.tree, n) && n.parent == v.tree[n].parent
    ensures Matches(v.tree - {n, n.parent})
    ensures n.parent != null ==> n.parent in v.tree && FieldsOf(n.parent) == v.tree[n.parent]
  {
    assert FieldsOf(n) == v.tree[n];
  }

  lemma DetachMatches(t: Tree, n: PTreeNode)
    requires CanDetach(t, n) && Matches(t - {n, t[n].parent})
    requires t[n].parent != null ==> FieldsOf(t[n].parent) == Cleared(t[t[n].parent], n)
    ensures Matches(DetachTree(t, n))
  {
    var t' := DetachTree(t, n);
    forall m | m in t'
      ensures FieldsOf(m) == t'[m]
    {
      if m != t[n].parent { assert m in t - {n, t[n].parent}; }
    }
  }

  method Adopt(child: PTreeNode, parent: PTreeNode?)
    modifies child`parent
    ensures FieldsOf(child) == old(FieldsOf(child)).(parent := parent)
  {
    child.parent := parent;
  }

  method ReplaceChild(parent: PTreeNode, node: PTreeNode, child: PTreeNode, tag: set<nat>)
    modifies parent`left, parent`right, parent`leftTag, parent`rightTag
    ensures FieldsOf(parent) == Replaced(old(FieldsOf(parent)), node, child, tag)
  {
    if node == parent.left {
      parent.left, parent.leftTag := child, tag;
    } else {
      parent.right, parent.rightTag := child, tag;
    }
  }

  ghost predicate CanSplice(t: Tree, n: PTreeNode, c: PTreeNode) {
    n in t && c in t && c != n && c != t[n].parent && (t[n].parent != null ==> t[n].parent in t && t[n].parent != n)
  }

  ghost predicate IsSpliceTree(t: Tree, n: PTreeNode, c: PTreeNode, tag: set<nat>, t': Tree)
    requires CanSplice(t, n, c)
  {
    var p := t[n].parent;
    && t'.Keys == t.Keys - {n} && t'[c] == t[c].(parent := p)
    && (forall m :: m in t' && m != p && m != c ==> t'[m] == t[m])
    && (p != null ==> p in t' && t'[p] == Replaced(t[p], n, c, tag))
  }

  ghost function SpliceTree(t: Tree, n: PTreeNode, c: PTreeNode, tag: set<nat>): (t': Tree)
    requires CanSplice(t, n, c)
    ensures IsSpliceTree(t, n, c, tag, t')
  {
    var p := t[n].parent;
    var t' := (t - {n})[c := t[c].(parent := p)];
    if p == null then t' else t'[p := Replaced(t[p], n, c, tag)]
  }

  lemma SpliceStart(v: View, n: PTreeNode, c: PTreeNode, tag: set<nat>)
    requires Matches(v.tree) && n in v.tree && c in v.tree && OnlyChild(v.tree[n], c, tag)
    requires LinkOk(v, n) && LinkOk(v, c)
    ensures CanSplice(v.tree, n, c) && n.parent == v.tree[n].parent && c != n.parent
    ensures Matches(v.tree - {n, c, n.parent}) && FieldsOf(c) == v.tree[c]
    ensures n.parent != null ==> n.parent in v.tree && FieldsOf(n.parent) == v.tree[n.parent]
  {
    assert FieldsOf(n) == v.tree[n];
  }

  lemma SpliceMatches(t: Tree, n: PTreeNode, c: PTreeNode, tag: set<nat>)
    requires CanSplice(t, n, c) && Matches(t - {n, c, t[n].parent})
    requires FieldsOf(c) == t[c].(parent := t[n].parent)
    requires t[n].parent != null ==> FieldsOf(t[n].parent) == Replaced(t[t[n].parent], n, c, tag)
    ensures Matches(SpliceTree(t, n, c, tag))
  {
    var t' := SpliceTree(t, n, c, tag);
    forall m | m in t'
      ensures FieldsOf(m) == t'[m]
    {
      if m != c && m != t[n].parent { assert m in t - {n, c, t[n].parent}; }
    }
  }

  lemma MatchesAt(t: Tree, n: PTreeNode)
    requires Matches(t) && n in t
    ensures n.parent == t[n].parent && n.left == t[n].left && n.right == t[n].right && n.state == t[n].state
    ensures n.leftTag == t[n].leftTag && n.rightTag == t[n].rightTag
  {
    assert FieldsOf(n) == t[n];
  }

  lemma Announced(v: View, id: nat, s: nat, add: bool, v': View)
    requires Good(v) && s in v.where
    requires v' == v.(owners := if add then v.owners + {(id, s)} else v.owners - {(id, s)})
    ensures Pending(v', v.where[s], id) && SameButTags(v, v')
    ensures v.where[s] in v.tree && (Has(v'.tree[v.where[s]], v'.owners, id) <==> add)
    ensures Tag(v', v.where[s]) == Tag(v, v.where[s])
  {
    StateNode(v, s);
    hide Links, Leaves, Counts, TagOk, TagOkBut;
    SameLinks(v, v');
    SameLeaves(v, v');
    SameCounts(v, v');
    forall m | m in v.tree
      ensures if m == v.where[s] then TagOkBut(v', m, id) else TagOk(v', m)
    {
      AnnouncedAt(v, id, s, v', m);
    }
  }

  lemma AnnouncedAt(v: View, id: nat, s: nat, v': View, m: PTreeNode)
    requires Leaves(v) && s in v.where && m in v.tree && TagOk(v, m)
    requires v'.tree == v.tree && v'.rootTag == v.rootTag
    requires forall o :: o != (id, s) ==> (o in v'.owners <==> o in v.owners)
    ensures if m == v.where[s] then TagOkBut(v', m, id) else TagOk(v', m)
  {
    assert LeafOk(v, m) && Tag(v', m) == Tag(v, m);
    hide Tag;
  }

  lemma OwnedTag(v: View, id: nat, s: nat)
    requires Good(v) && s in v.where && (id, s) in v.owners
    ensures v.where[s] in v.tree && id in Tag(v, v.where[s]) && v.tree[v.where[s]].state == Some(s)
  {
    StateNode(v, s);
    assert TagOk(v, v.where[s]) && Has(v.tree[v.where[s]], v.owners, id);
  }

  lemma Ours(v: View, n: PTreeNode, id: nat, s: nat)
    requires Pending(v, n, id) && (id, s) !in v.owners
    requires v.tree[n].state == None || v.tree[n].state == Some(s)
    ensures var f := v.tree[n];
            Has(f, v.owners, id) <==> (f.left != null && id in f.leftTag) || (f.right != null && id in f.rightTag)
  {
  }

  lemma PendingAt(v: View, n: PTreeNode, id: nat)
    requires Pending(v, n, id)
    ensures n in v.tree && LinkOk(v, n)
  {
  }

  lemma RetagParent(v: View, n: PTreeNode, id: nat, tag: set<nat>, v': View)
    requires Pending(v, n, id) && IsRetag(v, n, tag, v')
    ensures v'.tree.Keys == v.tree.Keys && v'.tree[n].parent == v.tree[n].parent && v'.owners == v.owners
    ensures var p := v.tree[n].parent;
            p != null ==> (p in v'.tree && v'.tree[p].depth < v.tree[n].depth && v'.tree[p].state == None &&
                           (id in tag ==> Has(v'.tree[p], v'.owners, id)) && (id in Tag(v, n) ==> id in Tag(v', p)))
  {
    assert LinkOk(v, n);
    var p := v.tree[n].parent;
    if p != null {
      assert TagOk(v, p) && LeafOk(v, p);
      RetagTag(v, n, tag, v', p);
    }
  }

  class RandomPathSearcher {
    const tree: PTree
    const id: nat

    constructor (tree: PTree, id: nat)
      ensures this.tree == tree && this.id == id
    {
      this.tree, this.id := tree, id;
    }

    /** A state is announced to the searcher: its tag goes on every pointer to the state,
        from the leaf up to the first pointer that already has it. */
    method AddState(s: nat)
      requires tree.Valid() && s in tree.where
      modifies tree`rootTag, tree`tree, tree`owners, tree.tree.Keys`leftTag, tree.tree.Keys`rightTag
      ensures tree.Valid() && tree.owners == old(tree.owners) + {(id, s)} && SameButTags(old(tree.Now()), tree.Now())
    {
      hide Good, Pending, Matches, SameButTags, Has, Tag, LinkOk, IsRetag;
      ghost var v := tree.Now();
      tree.owners := tree.owners + {(id, s)};
      Announced(v, id, s, true, tree.Now());
      var n: PTreeNode? := tree.where[s];
      while n != null
        invariant Matches(tree.tree) && Pending(tree.Now(), n, id) && SameButTags(v, tree.Now())
        invariant tree.tree.Keys == v.tree.Keys && tree.owners == v.owners + {(id, s)}
        invariant n != null ==> n in tree.tree && Has(tree.tree[n], tree.owners, id)
        decreases if n == null then 0 else 1 + tree.tree[n].depth
      {
        PendingAt(tree.Now(), n, id);
        var tag := tree.PointerTag(n);
        if id in tag { break; }
        ghost var w := tree.Now();
        n := tree.Retag(n, id, true);
        SameAgain(v, w, tree.Now());
      }
      PendingDone(tree.Now(), n, id);
      SameVisits(v, tree.Now());
      if tree.compress { TagsFull(v, tree.Now()); }
    }

    /** A state is withdrawn: the tag comes off every pointer that leads to no other state
        of the searcher. */
    method RemoveState(s: nat)
      requires tree.Valid() && s in tree.where && (id, s) in tree.owners
      modifies tree`rootTag, tree`tree, tree`owners, tree.tree.Keys`leftTag, tree.tree.Keys`rightTag
      ensures tree.Valid() && tree.owners == old(tree.owners) - {(id, s)} && SameButTags(old(tree.Now()), tree.Now())
    {
      hide Good, Pending, Matches, SameButTags, Has, Tag, LinkOk, IsRetag;
      ghost var v := tree.Now();
      OwnedTag(v, id, s);
      tree.owners := tree.owners - {(id, s)};
      Announced(v, id, s, false, tree.Now());
      var n: PTreeNode? := tree.where[s];
      while n != null
        invariant Matches(tree.tree) && Pending(tree.Now(), n, id) && SameButTags(v, tree.Now())
        invariant tree.tree.Keys == v.tree.Keys && tree.owners == v.owners - {(id, s)}
        invariant n != null ==> n in tree.tree && id in Tag(tree.Now(), n)
        invariant n != null ==> tree.tree[n].state == None || tree.tree[n].state == Some(s)
        decreases if n == null then 0 else 1 + tree.tree[n].depth
      {
        MatchesAt(tree.tree, n);
        Ours(tree.Now(), n, id, s);
        if (n.left != null && id in n.leftTag) || (n.right != null && id in n.rightTag) { break; }
        ghost var w := tree.Now();
        n := tree.Retag(n, id, false);
        SameAgain(v, w, tree.Now());
      }
      PendingDone(tree.Now(), n, id);
      SameVisits(v, tree.Now());
      if tree.compress { TagsFull(v, tree.Now()); }
    }

    /** The update of a searcher: states are announced, then states are withdrawn. */
    method Update(added: seq<nat>, removed: seq<nat>)
      requires tree.Valid() && (forall k :: 0 <= k < |added| ==> added[k] in tree.where)
      requires forall k :: 0 <= k < |removed| ==>
                 removed[k] in tree.where && ((id, removed[k]) in tree.owners || removed[k] in added)
      requires forall k, l :: 0 <= k < l < |removed| ==> removed[k] != removed[l]
      modifies tree`rootTag, tree`tree, tree`owners, tree.tree.Keys`leftTag, tree.tree.Keys`rightTag
      ensures tree.Valid() && SameButTags(old(tree.Now()), tree.Now())
      ensures tree.owners == old(tree.owners) + Pairs(id, added) - Pairs(id, removed)
    {
      hide Good, Matches, SameButTags;
      ghost var v := tree.Now();
      SameSelf(v);
      for k := 0 to |added|
        invariant tree.Valid() && SameButTags(v, tree.Now()) && tree.tree.Keys == v.tree.Keys
        invariant tree.owners == v.owners + Pairs(id, added[..k])
      {
        ghost var w := tree.Now();
        AddState(added[k]);
        SameAgain(v, w, tree.Now());
        assert added[..k + 1] == added[..k] + [added[k]];
      }
      assert added[..|added|] == added;
      for k := 0 to |removed|
        invariant tree.Valid() && SameButTags(v, tree.Now()) && tree.tree.Keys == v.tree.Keys
        invariant tree.owners == v.owners + Pairs(id, added) - Pairs(id, removed[..k])
      {
        ghost var w := tree.Now();
        RemoveState(removed[k]);
        SameAgain(v, w, tree.Now());
        assert removed[..k + 1] == removed[..k] + [removed[k]];
      }
      assert removed[..|removed|] == removed;
    }

    /** A random descent from the root always ends at a state of the searcher: the one that
        the coins of the drawn words lead to. */
    method SelectState(draw: nat -> nat) returns (s: nat)
      requires tree.Valid() && id in tree.rootTag
      ensures IsSelected(tree.Now(), id, draw, s)
    {
      hide Matches, Good, FieldsOf, Links, Turns, Tag, Selecting, IsSelected, Coin, Pow2, Deeper, PTree.Valid;
      var n, flips, bits, drawn := tree.root, 0, 0, 0;
      ghost var v := tree.Now();
      ValidParts(tree);
      SelectStart(v, id, draw);
      MatchesNode(tree.tree, n);
      while n.state == None
        invariant n in tree.tree && Selecting(v, id, draw, n) && bits < 32 && n.state == tree.tree[n].state
        invariant bits + |Turns(v, id, n)| == 32 * drawn && (bits > 0 ==> flips == draw(drawn - 1))
        decreases Deeper(tree.tree, n)
      {
        SelectAt(v, id, draw, n);
        MatchesNode(tree.tree, n);
        ghost var from := n;
        if !(n.left != null && id in n.leftTag) {
          n := n.right;
        } else if !(n.right != null && id in n.rightTag) {
          n := n.left;
        } else {
          if bits == 0 {
            flips := draw(drawn);
            drawn, bits := drawn + 1, 32;
          }
          bits := bits - 1;
          CoinIs(draw, drawn - 1, bits);
          n := if flips / Pow2(bits) % 2 == 1 then n.left else n.right;
        }
        SelectStep(v, id, draw, from, n);
        DeeperThan(tree.tree, from, n);
        MatchesNode(tree.tree, n);
      }
      SelectEnd(v, id, draw, n);
      s := n.state.value;
    }

    /** A searcher is empty exactly when it owns no state. */
    method Empty() returns (r: bool)
      requires tree.Valid()
      ensures r <==> forall s: nat :: (id, s) !in tree.owners
    {
      r := id !in tree.rootTag;
      EmptyExact(tree.Now(), id);
    }
  }

  lemma ValidParts(tree: PTree)
    requires tree.Valid()
    ensures Matches(tree.tree) && Good(tree.Now()) && Links(tree.Now())
  {
  }

  lemma MatchesNode(t: Tree, n: PTreeNode)
    requires Matches(t) && n in t
    ensures FieldsOf(n) == t[n] && n.left == t[n].left && n.right == t[n].right && n.state == t[n].state
    ensures n.leftTag == t[n].leftTag && n.rightTag == t[n].rightTag
  {
  }

  // --------------------------------------------------------- random descents

  /** The k-th coin: words are drawn one after the other and used from the highest of their
      32 bits down. */
  function Coin(draw: nat -> nat, k: nat): bool { draw(k / 32) / Pow2(31 - k % 32) % 2 == 1 }

  lemma CoinIs(draw: nat -> nat, word: nat, bit: nat)
    requires bit < 32
    ensures Coin(draw, 32 * word + 31 - bit) <==> draw(word) / Pow2(bit) % 2 == 1
  {
    hide Pow2;
    var k := 32 * word + 31 - bit;
    assert k / 32 == word && 31 - k % 32 == bit;
  }

  /** Both pointers of a node lead to states of the searcher. */
  ghost predicate IsChoice(f: Fields, id: nat) {
    f.left != null && id in f.leftTag && f.right != null && id in f.rightTag
  }

  /** The way from the root to a node: at each choice, whether it goes left. */
  ghost function Turns(v: View, id: nat, n: PTreeNode): seq<bool>
    requires Links(v) && n in v.tree
    decreases v.tree[n].depth
  {
    var p := v.tree[n].parent;
    assert LinkOk(v, n);
    if p == null then []
    else Turns(v, id, p) + if IsChoice(v.tree[p], id) then [v.tree[p].left == n] else []
  }

  ghost predicate Spells(draw: nat -> nat, turns: seq<bool>) {
    forall k :: 0 <= k < |turns| ==> turns[k] == Coin(draw, k)
  }

  ghost predicate Owns(v: View, id: nat, s: nat) { (id, s) in v.owners && s in v.where && v.where[s] in v.tree }

  /** The state of the searcher to which the coins lead, and the only one. */
  ghost predicate IsSelected(v: View, id: nat, draw: nat -> nat, s: nat) {
    && Links(v) && Owns(v, id, s) && Spells(draw, Turns(v, id, v.where[s]))
    && forall x: nat :: Owns(v, id, x) && Spells(draw, Turns(v, id, v.where[x])) ==> x == s
  }

  /** A descent on the way: the coins lead to the node, and to no state that is not below. */
  ghost predicate Selecting(v: View, id: nat, draw: nat -> nat, n: PTreeNode) {
    && Good(v) && n in v.tree && id in Tag(v, n) && Spells(draw, Turns(v, id, n))
    && forall x: nat :: Owns(v, id, x) && Spells(draw, Turns(v, id, v.where[x])) ==> Under(v, v.where[x], n)
  }

  lemma SelectStart(v: View, id: nat, draw: nat -> nat)
    requires Good(v) && id in v.rootTag
    ensures v.root in v.tree && Selecting(v, id, draw, v.root) && Turns(v, id, v.root) == []
  {
    hide Tag, Coin, Has;
    RootTag(v, id);
    assert LinkOk(v, v.root);
    forall x: nat | Owns(v, id, x) ensures Under(v, v.where[x], v.root) { AllUnderRoot(v, v.where[x]); }
  }

  lemma SelectAt(v: View, id: nat, draw: nat -> nat, n: PTreeNode)
    requires Selecting(v, id, draw, n)
    ensures Good(v) && n in v.tree && id in Tag(v, n) && Links(v)
    ensures var f := v.tree[n];
            f.state == None ==>
              && ((f.left != null && id in f.leftTag) || (f.right != null && id in f.rightTag))
              && (f.left != null ==> f.left in v.tree) && (f.right != null ==> f.right in v.tree)
  {
    hide Tag, Coin, Has, Spells, Turns, Under, Links, Tags, Leaves, Counts;
    if v.tree[n].state == None { BelowTag(v, n, id); }
  }

  /** The way to a node starts with the way to every node above it. */
  lemma {:induction false} TurnsStart(v: View, id: nat, m: PTreeNode, n: PTreeNode)
    requires Links(v) && m in v.tree && n in v.tree && Under(v, m, n)
    ensures Turns(v, id, n) <= Turns(v, id, m)
    decreases v.tree[m].depth
  {
    assert LinkOk(v, m);
    if m != n { TurnsStart(v, id, v.tree[m].parent, n); }
  }

  lemma {:induction false} ChildAbove(v: View, m: PTreeNode, n: PTreeNode) returns (c: PTreeNode)
    requires Links(v) && m in v.tree && n in v.tree && Under(v, m, n) && m != n
    ensures c in v.tree && v.tree[c].parent == n && Under(v, m, c) && (v.tree[n].left == c || v.tree[n].right == c)
    decreases v.tree[m].depth
  {
    assert LinkOk(v, m);
    var p := v.tree[m].parent;
    if p == n { c := m; } else { c := ChildAbove(v, p, n); }
  }

  /** Where the coins lead from a node. */
  ghost predicate IsNext(v: View, id: nat, draw: nat -> nat, n: PTreeNode, c: PTreeNode)
    requires Links(v) && n in v.tree
  {
    var f := v.tree[n];
    if IsChoice(f, id) then c == if Coin(draw, |Turns(v, id, n)|) then f.left else f.right
    else c == if f.left != null && id in f.leftTag then f.left else f.right
  }

  lemma SelectStep(v: View, id: nat, draw: nat -> nat, n: PTreeNode, c: PTreeNode)
    requires Selecting(v, id, draw, n) && v.tree[n].state == None && IsNext(v, id, draw, n, c)
    ensures c in v.tree && v.tree[c].depth > v.tree[n].depth && Selecting(v, id, draw, c)
    ensures |Turns(v, id, c)| == |Turns(v, id, n)| + if IsChoice(v.tree[n], id) then 1 else 0
  {
    hide Tag, Coin, Has, Under, Tags, Counts, Leaves, Turns, Spells;
    BelowTag(v, n, id);
    assert LinkOk(v, n);
    hide Links, LinkOk;
    TurnsNext(v, id, c);
    SpellsNext(draw, Turns(v, id, n), v.tree[n].left == c, Turns(v, id, c), IsChoice(v.tree[n], id));
    forall x: nat | Owns(v, id, x) && Spells(draw, Turns(v, id, v.where[x]))
      ensures Under(v, v.where[x], c)
    {
      SelectChild(v, id, draw, n, c, x);
    }
  }

  lemma SpellsNext(draw: nat -> nat, turns: seq<bool>, turn: bool, turns': seq<bool>, choice: bool)
    requires Spells(draw, turns) && turns' == turns + (if choice then [turn] else [])
    requires choice ==> turn == Coin(draw, |turns|)
    ensures Spells(draw, turns')
  {
    hide Coin;
  }

  /** The way to a state below goes through the child to which the coins lead. */
  lemma SelectChild(v: View, id: nat, draw: nat -> nat, n: PTreeNode, c: PTreeNode, x: nat)
    requires Good(v) && n in v.tree && v.tree[n].state == None && id in Tag(v, n) && IsNext(v, id, draw, n, c)
    requires Owns(v, id, x) && Spells(draw, Turns(v, id, v.where[x])) && Under(v, v.where[x], n)
    ensures Under(v, v.where[x], c)
  {
    hide Tag, Coin, Has, Under, Tags, Counts, Leaves, Turns;
    StateNode(v, x);
    OwnedTag(v, id, x);
    BelowTag(v, n, id);
    var d := ChildAbove(v, v.where[x], n);
    Climb(v, v.where[x], d, id);
    TurnsStart(v, id, v.where[x], d);
    TurnsNext(v, id, d);
    if IsChoice(v.tree[n], id) {
      var k := |Turns(v, id, n)|;
      assert Turns(v, id, v.where[x])[k] == Turns(v, id, d)[k];
    }
  }

  lemma TurnsNext(v: View, id: nat, c: PTreeNode)
    requires Links(v) && c in v.tree && v.tree[c].parent != null
    ensures var p := v.tree[c].parent;
            p in v.tree &&
            Turns(v, id, c) == Turns(v, id, p) + if IsChoice(v.tree[p], id) then [v.tree[p].left == c] else []
  {
    assert LinkOk(v, c);
  }

  lemma SelectEnd(v: View, id: nat, draw: nat -> nat, n: PTreeNode)
    requires Selecting(v, id, draw, n) && v.tree[n].state != None
    ensures IsSelected(v, id, draw, v.tree[n].state.value)
  {
    hide Tag, Coin, Has, Under, Tags, Counts, Turns, Spells;
    LeafTag(v, n, id);
    assert LeafOk(v, n);
    forall x: nat | Owns(v, id, x) && Spells(draw, Turns(v, id, v.where[x]))
      ensures x == v.tree[n].state.value
    {
      if v.where[x] != n { var c := ChildAbove(v, v.where[x], n); }
      StateNode(v, x);
    }
  }

  /** The n coins from one on as a binary number, the first the highest. */
  function Digits(turns: seq<bool>, from: nat, n: nat): nat {
    if n == 0 then 0
    else 2 * Digits(turns, from, n - 1) + if from + n - 1 < |turns| && turns[from + n - 1] then 1 else 0
  }

  lemma {:induction false} DigitsSize(turns: seq<bool>, from: nat, n: nat)
    ensures Digits(turns, from, n) < Pow2(n)
  {
    if n > 0 { DigitsSize(turns, from, n - 1); }
  }

  lemma {:induction false} DigitAt(turns: seq<bool>, from: nat, n: nat, b: nat)
    requires b < n
    ensures Digits(turns, from, n) / Pow2(b) % 2 == 1 <==> from + n - 1 - b < |turns| && turns[from + n - 1 - b]
    decreases b
  {
    var d := Digits(turns, from, n);
    if b == 0 {
      assert d / 1 == d;
    } else {
      DigitAt(turns, from, n - 1, b - 1);
      assert d / 2 == Digits(turns, from, n - 1);
      HalfDown(d, Pow2(b - 1));
    }
  }

  lemma HalfDown(d: nat, p: nat)
    requires p > 0
    ensures d / (2 * p) == d / 2 / p
  {
    var q, r := d / 2 / p, d / 2 % p;
    DivMod(d / 2, p);
    assert d == q * (2 * p) + (2 * r + d % 2);
    ModUnique(d, 2 * p, q, 2 * r + d % 2);
  }

  /** Every state of a searcher is the one that some draws of 32-bit words select. */
  lemma EveryState(v: View, id: nat, s: nat) returns (draw: nat -> nat)
    requires Good(v) && Owns(v, id, s)
    ensures (forall k: nat :: draw(k) < UINT32) && Spells(draw, Turns(v, id, v.where[s]))
  {
    var turns := Turns(v, id, v.where[s]);
    hide *;
    draw := WordsOf(turns);
    WordsSpell(turns);
  }

  /** Words with these coins. */
  function WordsOf(turns: seq<bool>): nat -> nat { (k: nat) => Digits(turns, 32 * k, 32) }

  lemma WordsSpell(turns: seq<bool>)
    ensures (forall k: nat :: WordsOf(turns)(k) < UINT32) && Spells(WordsOf(turns), turns)
  {
    hide Coin, Digits, Pow2;
    forall k: nat ensures WordsOf(turns)(k) < UINT32 {
      DigitsSize(turns, 32 * k, 32);
      Pow2Values();
    }
    forall k: nat | k < |turns| ensures turns[k] == Coin(WordsOf(turns), k) {
      CoinOfWords(turns, k);
    }
  }

  lemma CoinOfWords(turns: seq<bool>, k: nat)
    requires k < |turns|
    ensures Coin(WordsOf(turns), k) == turns[k]
  {
    hide Digits, Pow2;
    var word, bit := k / 32, 31 - k % 32;
    DigitAt(turns, 32 * word, 32, bit);
    assert WordsOf(turns)(word) == Digits(turns, 32 * word, 32);
    assert 32 * word + 31 - bit == k;
  }

  function Pairs(id: nat, states: seq<nat>): Owners { set s | s in states :: (id, s) }

  lemma SameSelf(v: View)
    ensures SameButTags(v, v)
  {
  }

  // --------------------------------------------------------- what a tag means

  /** The node m is n or below n. */
  ghost predicate Under(v: View, m: PTreeNode, n: PTreeNode)
    requires Links(v) && m in v.tree
    decreases v.tree[m].depth
  {
    assert LinkOk(v, m);
    m == n || (v.tree[m].parent != null && Under(v, v.tree[m].parent, n))
  }

  ghost function Deeper(t: Tree, n: PTreeNode): set<PTreeNode>
    requires n in t
  {
    set m | m in t && t[m].depth > t[n].depth
  }

  lemma DeeperThan(t: Tree, n: PTreeNode, m: PTreeNode)
    requires n in t && m in t && t[m].depth > t[n].depth
    ensures Deeper(t, m) < Deeper(t, n)
  {
    assert m in Deeper(t, n) && m !in Deeper(t, m);
  }

  lemma RootTag(v: View, id: nat)
    requires Good(v) && id in v.rootTag
    ensures v.root in v.tree && id in Tag(v, v.root)
  {
    if v.tree != map[] { assert LinkOk(v, v.root); }
  }

  /** At an inner node one of the two pointers is tagged as the pointer to the node is. */
  lemma BelowTag(v: View, n: PTreeNode, id: nat)
    requires Good(v) && n in v.tree && v.tree[n].state == None && id in Tag(v, n)
    ensures var f := v.tree[n];
            && ((f.left != null && id in f.leftTag) || (f.right != null && id in f.rightTag))
            && (f.left != null ==> f.left in v.tree && v.tree[f.left].depth > f.depth && Tag(v, f.left) == f.leftTag)
            && (f.right != null ==>
                  f.right in v.tree && v.tree[f.right].depth > f.depth && Tag(v, f.right) == f.rightTag)
  {
    assert TagOk(v, n) && LinkOk(v, n) && Has(v.tree[n], v.owners, id);
    var f := v.tree[n];
    if f.left != null { assert LinkOk(v, f.left); }
    if f.right != null { assert LinkOk(v, f.right); }
  }

  lemma LeafTag(v: View, n: PTreeNode, id: nat)
    requires Good(v) && n in v.tree && v.tree[n].state != None && id in Tag(v, n)
    ensures (id, v.tree[n].state.value) in v.owners && v.tree[n].state.value in v.where
    ensures v.where[v.tree[n].state.value] == n
  {
    assert TagOk(v, n) && LeafOk(v, n) && Has(v.tree[n], v.owners, id);
  }

  /** A tagged pointer leads to a state of the searcher. */
  lemma {:induction false} Descend(v: View, n: PTreeNode, id: nat) returns (s: nat)
    requires Good(v) && n in v.tree && id in Tag(v, n)
    ensures (id, s) in v.owners && s in v.where && v.where[s] in v.tree && Under(v, v.where[s], n)
    decreases Deeper(v.tree, n)
  {
    if v.tree[n].state != None {
      LeafTag(v, n, id);
      s := v.tree[n].state.value;
    } else {
      BelowTag(v, n, id);
      var f := v.tree[n];
      var c := if f.left != null && id in f.leftTag then f.left else f.right;
      DeeperThan(v.tree, n, c);
      s := Descend(v, c, id);
      assert LinkOk(v, n) && Under(v, c, n);
      UnderTrans(v, v.where[s], c, n);
    }
  }

  lemma {:induction false} UnderTrans(v: View, m: PTreeNode, c: PTreeNode, n: PTreeNode)
    requires Links(v) && m in v.tree && c in v.tree && Under(v, m, c) && Under(v, c, n)
    ensures Under(v, m, n)
    decreases v.tree[m].depth
  {
    if m != c {
      assert LinkOk(v, m);
      UnderTrans(v, v.tree[m].parent, c, n);
    }
  }

  /** Above a node of a searcher every pointer is tagged. */
  lemma {:induction false} Climb(v: View, m: PTreeNode, n: PTreeNode, id: nat)
    requires Good(v) && m in v.tree && n in v.tree && Under(v, m, n) && id in Tag(v, m)
    ensures id in Tag(v, n)
    decreases v.tree[m].depth
  {
    if m != n {
      var p := v.tree[m].parent;
      assert LinkOk(v, m) && TagOk(v, p);
      assert Has(v.tree[p], v.owners, id);
      Climb(v, p, n, id);
    }
  }

  /** A pointer carries the tag of a searcher if and only if a state of the searcher is at
      or below the node it leads to. */
  lemma TagMeaning(v: View, n: PTreeNode, id: nat)
    requires Good(v) && n in v.tree
    ensures id in Tag(v, n) <==>
            exists s: nat :: (id, s) in v.owners && s in v.where && v.where[s] in v.tree && Under(v, v.where[s], n)
  {
    if id in Tag(v, n) {
      var s := Descend(v, n, id);
    }
    if s: nat :| (id, s) in v.owners && s in v.where && v.where[s] in v.tree && Under(v, v.where[s], n) {
      OwnedTag(v, id, s);
      Climb(v, v.where[s], n, id);
    }
  }

  lemma {:induction false} AllUnderRoot(v: View, n: PTreeNode)
    requires Links(v) && n in v.tree
    ensures v.root in v.tree && Under(v, n, v.root)
    decreases v.tree[n].depth
  {
    assert LinkOk(v, n);
    if n != v.root { AllUnderRoot(v, v.tree[n].parent); }
  }

  /** Every node has a state at or below it. */
  lemma {:induction false} StateBelow(v: View, n: PTreeNode) returns (s: nat)
    requires Good(v) && n in v.tree
    ensures s in v.where
    decreases Deeper(v.tree, n)
  {
    var f := v.tree[n];
    assert LeafOk(v, n) && LinkOk(v, n);
    if f.state.Some? {
      s := f.state.value;
    } else {
      var c := if f.left != null then f.left else f.right;
      assert LinkOk(v, c);
      DeeperThan(v.tree, n, c);
      s := StateBelow(v, c);
    }
  }

  /** The root pointer leads to a node of the tree if and only if a state is left. Once
      the last one is removed it is left on a deleted node, with no searcher's tag. */
  lemma RootLive(v: View)
    requires Good(v)
    ensures v.root in v.tree <==> v.where != map[]
    ensures v.where == map[] ==> v.tree == map[] && v.rootTag == {}
  {
    if v.root in v.tree {
      var s := StateBelow(v, v.root);
    }
    if v.where != map[] {
      var s :| s in v.where;
      assert v.where[s] in v.tree;
    }
  }

  lemma EmptyExact(v: View, id: nat)
    requires Good(v)
    ensures id !in v.rootTag <==> forall s: nat :: (id, s) !in v.owners
  {
    if id in v.rootTag {
      RootTag(v, id);
      var s := Descend(v, v.root, id);
    }
    if s: nat :| (id, s) in v.owners {
      assert (id, s).1 in v.where;
      OwnedTag(v, id, s);
      AllUnderRoot(v, v.where[s]);
      Climb(v, v.where[s], v.root, id);
      assert LinkOk(v, v.root);
    }
  }

  lemma MayFork(v: View, a: ForkArgs)
    requires a.rightState in v.where && v.where[a.rightState] == a.node && a.leftState !in v.where
    requires a.l !in v.tree && a.r !in v.tree && a.l != a.r && a.node in v.tree && IsLeaf(v.tree[a.node])
    ensures CanFork(v, a)
  {
  }

  lemma ForkVisits(v: View, a: ForkArgs, t: Tree)
    requires CanFork(v, a) && IsForkTree(v, a, t)
    ensures forall n :: n in v.tree ==> n in t && t[n].visits == v.tree[n].visits && t[n].reward == v.tree[n].reward
  {
  }

  lemma FirstGood(v: View, n: PTreeNode, initial: nat)
    requires v.tree == map[n := NewLeaf(n, 0, initial).(parent := null)]
    requires v.root == n && v.rootTag == {} && v.owners == {} && v.where == map[initial := n]
    ensures Good(v)
  {
    assert LinkOk(v, n) && LeafOk(v, n) && TagOk(v, n) && CountOk(v.tree, n);
  }

  // --------------------------------------------------------------- removals

  /** A good tree, but for a node that should be a leaf and is not the node of a state. */
  ghost predicate Almost(v: View, n: PTreeNode?) {
    && Links(v) && Tags(v) && Counts(v) && Known(v) && (n != null ==> n in v.tree)
    && (forall m :: m in v.tree && m != n ==> LeafOk(v, m))
    && (forall s :: s in v.where ==> v.where[s] in v.tree && v.tree[v.where[s]].state == Some(s) && v.where[s] != n)
  }

  /** A node is gone, and the pointer to it is null. */
  ghost predicate IsDetach(v: View, n: PTreeNode, v': View)
    requires n in v.tree
  {
    && CanDetach(v.tree, n) && IsDetachTree(v.tree, n, v'.tree)
    && v'.root == v.root && v'.rootTag == v.rootTag && v'.where == v.where && v'.owners == v.owners
  }

  lemma {:induction false} OnlyRoot(v: View, m: PTreeNode)
    requires Links(v) && v.root in v.tree && IsLeaf(v.tree[v.root]) && m in v.tree
    ensures m == v.root
    decreases v.tree[m].depth
  {
    assert LinkOk(v, m);
    if m != v.root { OnlyRoot(v, v.tree[m].parent); }
  }

  lemma DetachLinks(v: View, n: PTreeNode, v': View)
    requires Links(v) && n in v.tree && IsLeaf(v.tree[n]) && IsDetach(v, n, v')
    ensures Links(v') && (v.tree[n].parent == null ==> v'.tree == map[])
  {
    assert LinkOk(v, n);
    if n == v.root {
      forall m | m in v.tree
        ensures m == n
      {
        OnlyRoot(v, m);
      }
      assert v'.tree == map[];
    }
    forall m | m in v'.tree
      ensures LinkOk(v', m)
    {
      assert LinkOk(v, m);
    }
  }

  lemma DetachTags(v: View, n: PTreeNode, v': View)
    requires Links(v) && Tags(v) && n in v.tree && IsLeaf(v.tree[n]) && Tag(v, n) == {} && IsDetach(v, n, v')
    requires v.tree[n].parent == null ==> v'.tree == map[]
    ensures Tags(v')
  {
    assert LinkOk(v, n);
    forall m | m in v'.tree
      ensures TagOk(v', m)
    {
      assert LinkOk(v, m) && TagOk(v, m);
      if v.tree[m].parent != null { assert LinkOk(v, v.tree[m].parent); }
      assert Tag(v', m) == Tag(v, m);
    }
  }

  lemma DetachCounts(v: View, n: PTreeNode, v': View)
    requires Links(v) && Counts(v) && n in v.tree && IsDetach(v, n, v')
    ensures Counts(v')
  {
    assert LinkOk(v, n) && CountOk(v.tree, n);
    forall m | m in v'.tree
      ensures CountOk(v'.tree, m)
    {
      assert LinkOk(v, m) && CountOk(v.tree, m);
    }
  }

  lemma DetachOk(v: View, n: PTreeNode, v': View)
    requires Almost(v, n) && IsLeaf(v.tree[n]) && Tag(v, n) == {} && IsDetach(v, n, v')
    ensures var p := v.tree[n].parent;
            Almost(v', p) && (p != null ==> v'.tree[p].state == None && (IsLeaf(v'.tree[p]) ==> Tag(v', p) == {}))
  {
    DetachLinks(v, n, v');
    DetachTags(v, n, v');
    DetachCounts(v, n, v');
    DetachLeaves(v, n, v');
  }

  lemma DetachLeaves(v: View, n: PTreeNode, v': View)
    requires Almost(v, n) && IsLeaf(v.tree[n]) && Tag(v, n) == {} && IsDetach(v, n, v') && Links(v') && Tags(v')
    ensures forall m :: m in v'.tree && m != v.tree[n].parent ==> LeafOk(v', m)
    ensures forall s :: s in v'.where ==>
              v'.where[s] in v'.tree && v'.tree[v'.where[s]].state == Some(s) && v'.where[s] != v.tree[n].parent
    ensures var p := v.tree[n].parent;
            p != null ==> p in v'.tree && v'.tree[p].state == None && (IsLeaf(v'.tree[p]) ==> Tag(v', p) == {})
  {
    var p := v.tree[n].parent;
    assert LinkOk(v, n);
    if p != null {
      assert LeafOk(v, p) && TagOk(v', p);
    }
    forall m | m in v'.tree && m != p
      ensures LeafOk(v', m)
    {
      assert LeafOk(v, m);
    }
  }

  lemma Withdrawn(v: View, s: nat, v': View)
    requires Good(v) && s in v.where && (forall id: nat :: (id, s) !in v.owners)
    requires v' == v.(where := v.where - {s})
    ensures var n := v.where[s];
            Almost(v', n) && IsLeaf(v'.tree[n]) && Tag(v', n) == {} && Pruned(v, v') && v.root in v.tree
  {
    StateNode(v, s);
    var n := v.where[s];
    assert TagOk(v, n);
    WithdrawnLinks(v, v');
    forall m | m in v.tree && m != n
      ensures LeafOk(v', m)
    {
      assert LeafOk(v, m);
    }
  }

  lemma WithdrawnLinks(v: View, v': View)
    requires Good(v) && v'.tree == v.tree && v'.root == v.root && v'.rootTag == v.rootTag && v'.owners == v.owners
    ensures Links(v') && Tags(v') && Counts(v') && Pruned(v, v')
  {
    forall m | m in v.tree
      ensures LinkOk(v', m) && TagOk(v', m) && v.tree[m] == Cut(v.tree[m], v.tree.Keys)
    {
      assert LinkOk(v, m) && TagOk(v, m) && Tag(v', m) == Tag(v, m);
    }
  }

  /** The middle of a removal: the nodes above the leaf are being deleted. */
  ghost predicate Removing(v: View, s: nat, w: View, n: PTreeNode?) {
    && Links(v) && v.root in v.tree && Almost(w, n) && Pruned(v, w) && w.where == v.where - {s}
    && (n == null ==> w.tree == map[])
    && (n != null && IsLeaf(w.tree[n]) ==> Tag(w, n) == {})
    && (n != null && !IsLeaf(w.tree[n]) ==>
          w.tree[n].state == None && (w.tree[n].left == null || w.tree[n].right == null))
  }

  lemma RemoveStart(v: View, s: nat, w: View)
    requires Good(v) && s in v.where && (forall id: nat :: (id, s) !in v.owners)
    requires w == v.(where := v.where - {s})
    ensures Removing(v, s, w, v.where[s])
  {
    hide Links, Tags, Counts, Leaves, Almost, Pruned;
    Withdrawn(v, s, w);
  }

  lemma RemovingAt(v: View, s: nat, w: View, n: PTreeNode)
    requires Removing(v, s, w, n)
    ensures n in w.tree && LinkOk(w, n)
  {
  }

  lemma RemoveStep(v: View, s: nat, w: View, n: PTreeNode, v': View)
    requires Removing(v, s, w, n) && n in w.tree && IsLeaf(w.tree[n]) && IsDetach(w, n, v')
    ensures Removing(v, s, v', w.tree[n].parent) && v'.tree.Keys == w.tree.Keys - {n}
  {
    hide Links, Almost, Pruned, IsDetach, Tag;
    DetachOk(w, n, v');
    DetachMore(v, w, n, v');
    if w.tree[n].parent == null { RootDetached(w, n, v'); }
  }

  /** Without its root nothing is left of a tree. */
  lemma RootDetached(v: View, n: PTreeNode, v': View)
    requires Almost(v, n) && n in v.tree && v.tree[n].parent == null && IsDetach(v, n, v') && Almost(v', null)
    ensures v'.tree == map[]
  {
    assert LinkOk(v, n);
  }

  lemma RemoveDone(v: View, s: nat, w: View, n: PTreeNode?)
    requires Removing(v, s, w, n) && (n != null ==> n in w.tree && !IsLeaf(w.tree[n]))
    ensures Good(w) && Pruned(v, w) && w.where == v.where - {s} && w.root == v.root && w.owners == v.owners
    ensures n != null ==> w.tree[n].state == None && (w.tree[n].left == null || w.tree[n].right == null)
    ensures w.root in w.tree ==> w.root in v.tree && w.tree[w.root].visits == v.tree[w.root].visits
    ensures n == null <==> w.tree == map[]
  {
    hide Tags, Counts, Known, Links, LeafOk, Tag;
    AlmostDone(w, n);
  }

  /** What one more deletion keeps, and what it leaves of the parent. */
  lemma DetachMore(v: View, w: View, n: PTreeNode, v': View)
    requires Links(v) && Almost(w, n) && Pruned(v, w) && IsDetach(w, n, v')
    ensures Pruned(v, v') && v'.tree.Keys == w.tree.Keys - {n} && n in w.tree
    ensures v'.root == w.root && v'.rootTag == w.rootTag && v'.owners == w.owners && v'.where == w.where
    ensures forall m :: m in v'.tree ==> m in w.tree && v'.tree[m].visits == w.tree[m].visits
    ensures var p := w.tree[n].parent;
            p != null ==> p in v'.tree && (v'.tree[p].left == null || v'.tree[p].right == null)
  {
    PrunedMore(v, w, n, v');
    assert LinkOk(w, n);
  }

  lemma ChildLinks(v: View, n: PTreeNode, c: PTreeNode)
    requires Good(v) && n in v.tree && (v.tree[n].left == c || v.tree[n].right == c)
    ensures LinkOk(v, n) && c in v.tree && LinkOk(v, c)
  {
    assert LinkOk(v, n);
  }

  lemma SpliceRoot(v: View, n: PTreeNode, c: PTreeNode, tag: set<nat>, v': View)
    requires Good(v) && n in v.tree && IsSplice(v, n, c, tag, v')
    ensures v'.root in v'.tree && v'.where == v.where && v'.tree.Keys == v.tree.Keys - {n}
    ensures v.root in v.tree && v'.tree[v'.root].visits <= v.tree[v.root].visits
  {
    assert LinkOk(v, n) && CountOk(v.tree, n);
    if v.tree[n].parent != null { assert v.root != n; }
    SpliceVisits(v, n, c, tag, v');
  }

  lemma AlmostDone(v: View, n: PTreeNode?)
    requires Almost(v, n) && (n != null ==> v.tree[n].state == None && !IsLeaf(v.tree[n]))
    ensures Good(v)
  {
  }

  /** What is left when some nodes are gone: the pointers to them are null. */
  ghost function Cut(f: Fields, live: set<PTreeNode>): Fields {
    var g := if f.left != null && f.left !in live then f.(left := null, leftTag := {}) else f;
    if g.right != null && g.right !in live then g.(right := null, rightTag := {}) else g
  }

  ghost predicate Pruned(v: View, v': View) {
    && v'.root == v.root && v'.rootTag == v.rootTag && v'.owners == v.owners && v'.tree.Keys <= v.tree.Keys
    && (forall m :: m in v'.tree ==> v'.tree[m] == Cut(v.tree[m], v'.tree.Keys))
  }

  lemma PrunedMore(v: View, w: View, n: PTreeNode, v': View)
    requires Links(v) && Pruned(v, w) && Links(w) && n in w.tree && IsDetach(w, n, v')
    ensures Pruned(v, v')
  {
    hide Cut;
    assert LinkOk(w, n);
    forall m | m in v'.tree
      ensures v'.tree[m] == Cut(v.tree[m], v'.tree.Keys)
    {
      assert LinkOk(w, m) && LinkOk(v, m) && w.tree[m] == Cut(v.tree[m], w.tree.Keys);
      CutMore(v.tree[m], w.tree.Keys, n, v'.tree.Keys);
    }
  }

  lemma CutMore(f: Fields, live: set<PTreeNode>, n: PTreeNode, live': set<PTreeNode>)
    requires live' == live - {n} && (f.left != null ==> f.left != f.right)
    ensures var g := Cut(f, live);
            Cut(f, live') == if g.left == n then g.(left := null, leftTag := {})
                             else if g.right == n then g.(right := null, rightTag := {}) else g
  {
  }

  ghost predicate OnlyChild(f: Fields, c: PTreeNode, tag: set<nat>) {
    (f.left == c && f.right == null && f.leftTag == tag) || (f.right == c && f.left == null && f.rightTag == tag)
  }

  ghost function Replaced(f: Fields, n: PTreeNode, c: PTreeNode, tag: set<nat>): Fields {
    if f.left == n then f.(left := c, leftTag := tag) else f.(right := c, rightTag := tag)
  }

  /** A node with one child is gone, and the child is in its place. */
  ghost predicate IsSplice(v: View, n: PTreeNode, c: PTreeNode, tag: set<nat>, v': View)
    requires n in v.tree
  {
    var p := v.tree[n].parent;
    && CanSplice(v.tree, n, c) && OnlyChild(v.tree[n], c, tag) && IsSpliceTree(v.tree, n, c, tag, v'.tree)
    && v'.where == v.where && v'.owners == v.owners
    && v'.root == (if p == null then c else v.root) && v'.rootTag == (if p == null then tag else v.rootTag)
  }

  ghost predicate IsSpliced(v: View, v': View) {
    exists n, c, tag :: n in v.tree && c in v.tree && IsSplice(v, n, c, tag, v')
  }

  lemma SpliceLinks(v: View, n: PTreeNode, c: PTreeNode, tag: set<nat>, v': View)
    requires Links(v) && n in v.tree && IsSplice(v, n, c, tag, v')
    ensures Links(v')
  {
    assert LinkOk(v, n) && LinkOk(v, c);
    forall m | m in v'.tree
      ensures LinkOk(v', m)
    {
      assert LinkOk(v, m);
      if m == v.tree[n].parent { SpliceParentLink(v, n, c, tag, v', m); }
    }
  }

  lemma SpliceParentLink(v: View, n: PTreeNode, c: PTreeNode, tag: set<nat>, v': View, m: PTreeNode)
    requires n in v.tree && IsSplice(v, n, c, tag, v') && m in v'.tree && m == v.tree[n].parent
    requires LinkOk(v, n) && LinkOk(v, c) && LinkOk(v, m)
    ensures LinkOk(v', m)
  {
  }

  lemma SpliceTag(v: View, n: PTreeNode, c: PTreeNode, tag: set<nat>, v': View, m: PTreeNode)
    requires Links(v) && n in v.tree && IsSplice(v, n, c, tag, v') && m in v'.tree
    ensures Tag(v', m) == if m == c then tag else Tag(v, m)
  {
    assert LinkOk(v, n) && LinkOk(v, c) && LinkOk(v, m);
    var p := v.tree[m].parent;
    if p != null { assert LinkOk(v, p); }
  }

  lemma SpliceTags(v: View, n: PTreeNode, c: PTreeNode, tag: set<nat>, v': View)
    requires Links(v) && Tags(v) && n in v.tree && v.tree[n].state == None && IsSplice(v, n, c, tag, v')
    ensures Tags(v')
  {
    assert LinkOk(v, n) && LinkOk(v, c) && TagOk(v, n);
    assert Tag(v, c) == tag && c in v'.tree;
    assert forall id: nat :: id in Tag(v, n) <==> id in tag;
    forall m | m in v'.tree
      ensures TagOk(v', m)
    {
      assert LinkOk(v, m) && TagOk(v, m);
      SpliceTag(v, n, c, tag, v', m);
      SpliceHas(v, n, c, tag, v', m);
      hide IsSplice, Tag, Has, LinkOk, Links;
    }
  }

  lemma SpliceHas(v: View, n: PTreeNode, c: PTreeNode, tag: set<nat>, v': View, m: PTreeNode)
    requires n in v.tree && IsSplice(v, n, c, tag, v') && m in v'.tree && LinkOk(v, n) && LinkOk(v, m) && TagOk(v, m)
    requires forall id: nat :: id in Tag(v, n) <==> id in tag
    ensures forall id: nat :: Has(v'.tree[m], v'.owners, id) <==> Has(v.tree[m], v.owners, id)
    ensures v'.tree[m].left == null ==> v'.tree[m].leftTag == {}
    ensures v'.tree[m].right == null ==> v'.tree[m].rightTag == {}
  {
  }

  lemma SpliceCounts(v: View, n: PTreeNode, c: PTreeNode, tag: set<nat>, v': View)
    requires Links(v) && Counts(v) && n in v.tree && IsSplice(v, n, c, tag, v')
    ensures Counts(v')
  {
    assert LinkOk(v, n) && CountOk(v.tree, n);
    forall m | m in v'.tree
      ensures CountOk(v'.tree, m)
    {
      SpliceCount(v, n, c, tag, v', m);
    }
  }

  lemma SpliceVisits(v: View, n: PTreeNode, c: PTreeNode, tag: set<nat>, v': View)
    requires n in v.tree && IsSplice(v, n, c, tag, v')
    ensures v'.tree.Keys == v.tree.Keys - {n}
    ensures forall k :: k in v'.tree ==>
              v'.tree[k].visit == v.tree[k].visit && v'.tree[k].visits == v.tree[k].visits &&
              v'.tree[k].reward == v.tree[k].reward
    ensures forall k :: k in v'.tree && k != v.tree[n].parent ==>
              v'.tree[k].left == v.tree[k].left && v'.tree[k].right == v.tree[k].right
  {
  }

  lemma SpliceCount(v: View, n: PTreeNode, c: PTreeNode, tag: set<nat>, v': View, m: PTreeNode)
    requires Links(v) && Counts(v) && n in v.tree && IsSplice(v, n, c, tag, v') && m in v'.tree
    ensures CountOk(v'.tree, m)
  {
    hide IsSplice;
    SpliceVisits(v, n, c, tag, v');
    assert LinkOk(v, n) && CountOk(v.tree, n) && LinkOk(v, m) && CountOk(v.tree, m);
    if m == v.tree[n].parent { SpliceParentCount(v, n, c, tag, v', m); }
  }

  lemma SpliceParentCount(v: View, n: PTreeNode, c: PTreeNode, tag: set<nat>, v': View, m: PTreeNode)
    requires n in v.tree && IsSplice(v, n, c, tag, v') && m in v'.tree && m == v.tree[n].parent
    requires LinkOk(v, n) && CountOk(v.tree, n) && LinkOk(v, m) && CountOk(v.tree, m)
    ensures CountOk(v'.tree, m)
  {
    assert VisitsOf(v.tree, c) <= v.tree[n].visits && RewardOf(v.tree, c) <= v.tree[n].reward;
    assert VisitsOf(v'.tree, c) == VisitsOf(v.tree, c) && RewardOf(v'.tree, c) == RewardOf(v.tree, c);
  }

  lemma SpliceLeaves(v: View, n: PTreeNode, c: PTreeNode, tag: set<nat>, v': View)
    requires Links(v) && Leaves(v) && n in v.tree && v.tree[n].state == None && IsSplice(v, n, c, tag, v')
    ensures Leaves(v')
  {
    assert LinkOk(v, n);
    forall m | m in v'.tree
      ensures LeafOk(v', m)
    {
      assert LeafOk(v, m);
    }
  }

  lemma SpliceGood(v: View, n: PTreeNode, c: PTreeNode, tag: set<nat>, v': View)
    requires Good(v) && n in v.tree && v.tree[n].state == None && IsSplice(v, n, c, tag, v')
    ensures Good(v')
  {
    hide Links, Leaves, Tags, Counts;
    SpliceLinks(v, n, c, tag, v');
    SpliceLeaves(v, n, c, tag, v');
    SpliceTags(v, n, c, tag, v');
    SpliceCounts(v, n, c, tag, v');
  }

  // ---------------------------------------------------------------- rewards

  ghost function Counted(f: Fields, reward: real): Fields {
    f.(visit := (f.visit + 1) % UINT32, visits := f.visits + 1, reward := f.reward + reward)
  }

  ghost function CountTree(t: Tree, n: PTreeNode, reward: real): (t': Tree)
    requires n in t
    ensures t'.Keys == t.Keys && t'[n] == Counted(t[n], reward) && forall m :: m in t && m != n ==> t'[m] == t[m]
  {
    t[n := Counted(t[n], reward)]
  }

  lemma CountMatches(t: Tree, n: PTreeNode, reward: real)
    requires n in t && Matches(t - {n}) && FieldsOf(n) == Counted(t[n], reward)
    ensures Matches(CountTree(t, n, reward))
  {
    assert forall m :: m in t && m != n ==> m in t - {n};
  }

  /** A node that still lacks the reward that its children already have. */
  ghost predicate CountShort(t: Tree, n: PTreeNode, reward: real)
    requires n in t
  {
    && t[n].visit == t[n].visits % UINT32 && t[n].reward >= 0.0
    && t[n].visits + 1 >= VisitsOf(t, t[n].left) + VisitsOf(t, t[n].right)
    && t[n].reward + reward >= RewardOf(t, t[n].left) + RewardOf(t, t[n].right)
  }

  ghost predicate Counting(v: View, n: PTreeNode?, reward: real) {
    && Links(v) && Leaves(v) && Tags(v) && Known(v) && reward >= 0.0
    && (n != null ==> n in v.tree && CountShort(v.tree, n, reward))
    && (forall m :: m in v.tree && m != n ==> CountOk(v.tree, m))
  }

  ghost predicate SameButCounts(v: View, v': View) {
    && v'.root == v.root && v'.rootTag == v.rootTag && v'.where == v.where && v'.owners == v.owners
    && v'.tree.Keys == v.tree.Keys
    && (forall m :: m in v.tree ==> SameStructure(v.tree[m], v'.tree[m]))
  }

  ghost predicate SameStructure(f: Fields, g: Fields) {
    f.(visit := 0, visits := 0, reward := 0.0) == g.(visit := 0, visits := 0, reward := 0.0)
  }

  lemma CountedLinks(v: View, v': View)
    requires SameButCounts(v, v') && Links(v)
    ensures Links(v')
  {
    forall m | m in v'.tree
      ensures LinkOk(v', m)
    {
      assert LinkOk(v, m);
    }
  }

  lemma CountedLeaves(v: View, v': View)
    requires SameButCounts(v, v') && Leaves(v)
    ensures Leaves(v')
  {
    forall m | m in v'.tree
      ensures LeafOk(v', m)
    {
      assert LeafOk(v, m);
    }
  }

  lemma CountedTags(v: View, v': View)
    requires SameButCounts(v, v') && Tags(v)
    ensures Tags(v')
  {
    forall m | m in v'.tree
      ensures TagOk(v', m)
    {
      assert TagOk(v, m) && Tag(v', m) == Tag(v, m);
    }
  }

  lemma CountStep(v: View, n: PTreeNode, reward: real, v': View)
    requires Counting(v, n, reward) && v' == v.(tree := CountTree(v.tree, n, reward))
    ensures Counting(v', v.tree[n].parent, reward)
  {
    assert SameButCounts(v, v');
    CountedLinks(v, v');
    CountedLeaves(v, v');
    CountedTags(v, v');
    assert LinkOk(v, n);
    forall m | m in v'.tree
      ensures m != v.tree[n].parent ==> CountOk(v'.tree, m)
      ensures m == v.tree[n].parent ==> CountShort(v'.tree, m, reward)
    {
      CountNode(v, n, reward, v', m);
    }
  }

  lemma CountNode(v: View, n: PTreeNode, reward: real, v': View, m: PTreeNode)
    requires Links(v) && n in v.tree && CountShort(v.tree, n, reward) && reward >= 0.0
    requires v'.tree == CountTree(v.tree, n, reward) && m in v.tree && (m != n ==> CountOk(v.tree, m))
    ensures m != v.tree[n].parent ==> CountOk(v'.tree, m)
    ensures m == v.tree[n].parent ==> CountShort(v'.tree, m, reward)
  {
    hide CountTree, VisitsOf, RewardOf, Links, LinkOk;
    OnlyParent(v, n, m);
    WrapStep(v.tree[n].visits);
    ChildCounts(v.tree, n, reward, v.tree[m].left);
    ChildCounts(v.tree, n, reward, v.tree[m].right);
  }

  /** A node is a child of its parent, on one side, and of no other node. */
  lemma OnlyParent(v: View, n: PTreeNode, m: PTreeNode)
    requires Links(v) && n in v.tree && m in v.tree
    ensures m != v.tree[n].parent ==> v.tree[m].left != n && v.tree[m].right != n
    ensures m == v.tree[n].parent ==> m != n && !(v.tree[m].left == n && v.tree[m].right == n)
  {
    assert LinkOk(v, n) && LinkOk(v, m);
  }

  lemma WrapStep(visits: nat)
    ensures (visits % UINT32 + 1) % UINT32 == (visits + 1) % UINT32
  {
  }

  lemma ChildCounts(t: Tree, n: PTreeNode, reward: real, c: PTreeNode?)
    requires n in t
    ensures VisitsOf(CountTree(t, n, reward), c) == VisitsOf(t, c) + if c == n then 1 else 0
    ensures RewardOf(CountTree(t, n, reward), c) == RewardOf(t, c) + if c == n then reward else 0.0
  {
  }

  lemma CountingAt(v: View, n: PTreeNode, reward: real)
    requires Counting(v, n, reward)
    ensures n in v.tree && v.root in v.tree && (v.tree[n].parent == null <==> n == v.root)
    ensures v.tree[n].parent != null ==> v.tree[n].parent in v.tree && v.tree[v.tree[n].parent].depth < v.tree[n].depth
  {
  }

  lemma CountingDone(v: View, reward: real)
    requires Counting(v, null, reward)
    ensures Good(v)
  {
  }

  /** The nodes from the first one up to, but not including, the second have the reward. */
  ghost predicate Rewarded(v: View, start: PTreeNode, n: PTreeNode?, reward: real, v': View)
    requires Links(v)
  {
    && start in v.tree && (n != null ==> n in v.tree && Under(v, start, n)) && v'.tree.Keys == v.tree.Keys
    && (forall m :: m in v.tree ==>
          v'.tree[m] == if Under(v, start, m) && (n == null || !Under(v, n, m)) then Counted(v.tree[m], reward)
                        else v.tree[m])
  }

  lemma RewardStart(v: View, start: PTreeNode, reward: real)
    requires Good(v) && start in v.tree && reward >= 0.0
    ensures Links(v) && v.root in v.tree && Counting(v, start, reward) && Rewarded(v, start, start, reward, v)
  {
    assert CountOk(v.tree, start);
  }

  lemma RewardedStep(v: View, start: PTreeNode, n: PTreeNode, reward: real, w: View, v': View)
    requires Links(v) && Rewarded(v, start, n, reward, w) && v' == w.(tree := CountTree(w.tree, n, reward))
    ensures w.tree[n].parent == v.tree[n].parent && Rewarded(v, start, v.tree[n].parent, reward, v')
  {
    assert LinkOk(v, n);
    var p := v.tree[n].parent;
    if p != null {
      NotUnderChild(v, p, n);
      assert Under(v, n, p);
      UnderTrans(v, start, n, p);
    }
    forall m | m in v.tree
      ensures Under(v, n, m) <==> m == n || (p != null && Under(v, p, m))
    {
    }
  }

  lemma {:induction false} UnderDepth(v: View, m: PTreeNode, n: PTreeNode)
    requires Links(v) && m in v.tree && n in v.tree && Under(v, m, n)
    ensures m == n || v.tree[n].depth < v.tree[m].depth
    decreases v.tree[m].depth
  {
    if m != n {
      assert LinkOk(v, m);
      UnderDepth(v, v.tree[m].parent, n);
    }
  }

  lemma NotUnderChild(v: View, p: PTreeNode, n: PTreeNode)
    requires Links(v) && n in v.tree && p in v.tree && v.tree[n].parent == p
    ensures !Under(v, p, n)
  {
    assert LinkOk(v, n);
    if Under(v, p, n) { UnderDepth(v, p, n); }
  }

  lemma {:induction false} RootVisits(v: View, n: PTreeNode)
    requires Links(v) && Counts(v) && n in v.tree
    ensures v.root in v.tree && v.tree[n].visits <= v.tree[v.root].visits && v.tree[n].reward <= v.tree[v.root].reward
    decreases v.tree[n].depth
  {
    assert LinkOk(v, n);
    if n != v.root {
      var p := v.tree[n].parent;
      RootVisits(v, p);
      assert LinkOk(v, p) && CountOk(v.tree, p) && CountOk(v.tree, n);
      if v.tree[p].left != null { assert CountOk(v.tree, v.tree[p].left); }
      if v.tree[p].right != null { assert CountOk(v.tree, v.tree[p].right); }
    }
  }

  function VisitField(n: PTreeNode?): nat
    reads n
  {
    if n == null then 0 else n.visit
  }

  lemma NotWrapped(v: View, n: PTreeNode)
    requires Good(v) && n in v.tree && (v.root in v.tree ==> v.tree[v.root].visits < UINT32)
    ensures v.tree[n].visit == v.tree[n].visits
  {
    hide Links, Counts, Tags, Leaves, Known;
    RootVisits(v, n);
    ChildrenOf(v, n);
  }

  lemma ChildrenOf(v: View, n: PTreeNode)
    requires Good(v) && n in v.tree
    ensures var f := v.tree[n];
            && (f.left != null ==> f.left in v.tree) && (f.right != null ==> f.right in v.tree)
            && f.visits >= VisitsOf(v.tree, f.left) + VisitsOf(v.tree, f.right) && f.visit == f.visits % UINT32
  {
    assert LinkOk(v, n) && CountOk(v.tree, n);
  }

  lemma MatchesCount(t: Tree, n: PTreeNode)
    requires Matches(t) && n in t
    ensures n.left == t[n].left && n.right == t[n].right && n.visit == t[n].visit
  {
    assert FieldsOf(n) == t[n];
  }

  /** As long as fewer than 2^32 rewards have been propagated, the 32-bit visit count of a
      node is at least the sum of the counts of its children. */
  lemma VisitsDominate(tree: PTree, n: PTreeNode)
    requires tree.Valid() && n in tree.tree && tree.backprops < UINT32
    ensures n.visit >= VisitField(n.left) + VisitField(n.right)
  {
    hide Good, Matches;
    var v := tree.Now();
    NotWrapped(v, n);
    ChildrenOf(v, n);
    MatchesCount(v.tree, n);
    if n.left != null {
      NotWrapped(v, n.left);
      MatchesCount(v.tree, n.left);
    }
    if n.right != null {
      NotWrapped(v, n.right);
      MatchesCount(v.tree, n.right);
    }
  }

  /** A root with two leaves: since they are there, all rewards went to the right one. */
  ghost predicate TurnShape(v: View, root: PTreeNode, l: PTreeNode, r: PTreeNode, before: nat, since: nat) {
    && Links(v) && v.root == root && root in v.tree && l in v.tree && r in v.tree && root != l && root != r && l != r
    && v.tree[root].parent == null && v.tree[l].parent == root && v.tree[r].parent == root
    && v.tree[root].left == l && v.tree[root].right == r
    && v.tree[root].visits == before + since && v.tree[l].visits == 0 && v.tree[r].visits == since
  }

  lemma TurnRewards(v: View, root: PTreeNode, l: PTreeNode, r: PTreeNode, before: nat, since: nat, leaf: PTreeNode,
                    v': View)
    requires TurnShape(v, root, l, r, before, since) && leaf in {l, r} && Rewarded(v, leaf, null, 0.0, v')
    ensures v'.tree.Keys == v.tree.Keys && v'.tree[root] == Counted(v.tree[root], 0.0)
    ensures v'.tree[l] == if leaf == l then Counted(v.tree[l], 0.0) else v.tree[l]
    ensures v'.tree[r] == if leaf == r then Counted(v.tree[r], 0.0) else v.tree[r]
  {
    assert LinkOk(v, leaf);
    assert Under(v, root, root) && Under(v, leaf, root) && Under(v, leaf, leaf);
    assert !Under(v, root, l) && !Under(v, root, r);
    assert !Under(v, leaf, if leaf == l then r else l);
  }

  lemma TurnStep(v: View, root: PTreeNode, l: PTreeNode, r: PTreeNode, before: nat, since: nat, v': View)
    requires TurnShape(v, root, l, r, before, since) && Rewarded(v, r, null, 0.0, v')
    requires Links(v') && v'.root == v.root
    ensures TurnShape(v', root, l, r, before, since + 1)
  {
    TurnRewards(v, root, l, r, before, since, r, v');
  }

  lemma TurnEnd(tree: PTree, v: View, l: PTreeNode, r: PTreeNode, before: nat)
    requires TurnShape(v, tree.root, l, r, before, UINT32 - 1)
    requires Rewarded(v, l, null, 0.0, tree.Now()) && tree.Valid()
    ensures tree.root in tree.tree
    ensures tree.root.visit < VisitField(tree.root.left) + VisitField(tree.root.right)
  {
    hide Good, Matches, Rewarded, Links;
    var root, t := tree.root, tree.tree;
    TurnRewards(v, root, l, r, before, UINT32 - 1, l, tree.Now());
    ChildrenOf(tree.Now(), root);
    ChildrenOf(tree.Now(), l);
    ChildrenOf(tree.Now(), r);
    MatchesCount(t, root);
    MatchesCount(t, l);
    MatchesCount(t, r);
  }

  lemma TurnParts(tree: PTree, l: PTreeNode, r: PTreeNode, before: nat, since: nat)
    requires TurnShape(tree.Now(), tree.root, l, r, before, since)
    ensures l in tree.tree && r in tree.tree
  {
  }

  lemma TurnStart(tree: PTree, v: View, a: ForkArgs)
    requires tree.Valid() && !tree.compress && a.node == v.root && v.root in v.tree && IsFork(v, a, tree.Now())
    requires a.l !in v.tree && a.r !in v.tree && a.l != a.r
    ensures TurnShape(tree.Now(), tree.root, a.l, a.r, tree.backprops, 0)
  {
    var w := tree.Now();
    assert LinkOk(w, a.node) && LinkOk(w, a.l) && LinkOk(w, a.r);
  }

  /** The bound is exact: for every number of rewards from 2^32 on there is a run after
      which the count of the root is below the sum of its children's. All but the last
      2^32 come before the root forks; of the others all but one go to one child. */
  method VisitsTurn(before: nat) returns (tree: PTree)
    ensures tree.Valid() && tree.backprops == before + UINT32 && tree.root in tree.tree
    ensures tree.root.visit < VisitField(tree.root.left) + VisitField(tree.root.right)
  {
    hide Good, Matches, FieldsOf, TurnShape, IsForkWhere, IsForkTree, Links, Rewarded;
    tree := new PTree(0, false);
    var root := tree.root;
    for k := 0 to before
      invariant fresh(tree) && fresh(tree.tree.Keys) && tree.Valid() && tree.backprops == k && tree.root == root
      invariant tree.tree.Keys == {root} && tree.where == map[0 := root] && !tree.compress
    {
      tree.Backpropagate(0.0, root);
    }
    ghost var start := tree.Now();
    tree.Attach(root, 1, 0);
    var l, r := root.left, root.right;
    LeavesDiffer(start, ForkArgs(root, l, r, 1, 0), tree.Now());
    TurnStart(tree, start, ForkArgs(root, l, r, 1, 0));
    for k := 0 to UINT32 - 1
      invariant fresh(tree) && fresh(tree.tree.Keys) && tree.Valid() && tree.backprops == before + k
      invariant tree.root == root && TurnShape(tree.Now(), root, l, r, before, k)
    {
      TurnParts(tree, l, r, before, k);
      ghost var v := tree.Now();
      tree.Backpropagate(0.0, r);
      GoodLinks(tree.Now());
      TurnStep(v, root, l, r, before, k, tree.Now());
    }
    TurnParts(tree, l, r, before, UINT32 - 1);
    ghost var v := tree.Now();
    tree.Backpropagate(0.0, l);
    TurnEnd(tree, v, l, r, before);
  }

  /** The two new leaves have different states. */
  lemma LeavesDiffer(v: View, a: ForkArgs, v': View)
    requires a.node in v.tree && a.leftState != a.rightState && IsFork(v, a, v')
    ensures a.l != a.r && a.l in v'.tree && a.r in v'.tree && v'.tree.Keys == v.tree.Keys + {a.l, a.r}
  {
  }

  lemma GoodLinks(v: View)
    requires Good(v)
    ensures Links(v)
  {
  }
}
