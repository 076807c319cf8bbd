/** The nodes of regression trees: links between parents and children. */
module Forest {

  /** parent_ of a node: -1, or an index with a flag for left children. */
  datatype Link = NoParent | ChildOf(pid: nat, isLeft: bool)

  /** cleft_ and cright_. A child is pending from AddChilds until it becomes a leaf or gets children. */
  datatype Kids = Pending | NoKids | Kids(left: nat, right: nat)

  /** A node; info holds the leaf value or the split condition, which share their memory. */
  datatype Node = Node(link: Link, kids: Kids, feature: nat, defaultLeft: bool, info: real)

  predicate IsLeaf(n: Node) { n.kids.NoKids? }

  predicate IsRoot(n: Node) { n.link.NoParent? }

  function Count(b: bool): int { if b then 1 else 0 }

  // ----- consistency -----

  /** The nodes that belong to the trees. */
  predicate Live(nodes: seq<Node>, deleted: set<nat>, i: int) { 0 <= i < |nodes| && i !in deleted }

  /** A node's link to its parent is answered by the parent, and its children's links by the children. */
  predicate NodeOk(nodes: seq<Node>, roots: nat, deleted: set<nat>, depth: seq<nat>, i: nat)
    requires i < |nodes| == |depth|
  {
    var n := nodes[i];
    if i in deleted then roots <= i && IsRoot(n) && IsLeaf(n)
    else
      && (i < roots <==> IsRoot(n))
      && (IsRoot(n) ==> depth[i] == 0)
      && (n.link.ChildOf? ==>
        && Live(nodes, deleted, n.link.pid)
        && nodes[n.link.pid].kids.Kids?
        && i == (if n.link.isLeft then nodes[n.link.pid].kids.left else nodes[n.link.pid].kids.right)
        && depth[i] == depth[n.link.pid] + 1)
      && (n.kids.Kids? ==>
        && n.kids.left != n.kids.right
        && Live(nodes, deleted, n.kids.left) && Live(nodes, deleted, n.kids.right)
        && nodes[n.kids.left].link == ChildOf(i, true)
        && nodes[n.kids.right].link == ChildOf(i, false))
  }

  /** The nodes are a forest with the given roots; depth witnesses that there is no cycle. */
  predicate Consistent(nodes: seq<Node>, roots: nat, deleted: set<nat>, depth: seq<nat>) {
    && |depth| == |nodes| && roots <= |nodes|
    && (forall i :: i in deleted ==> i < |nodes|)
    && forall i: nat :: i < |nodes| ==> NodeOk(nodes, roots, deleted, depth, i)
  }

  /** Children have greater numbers than their parents. */
  predicate ChildrenAfter(nodes: seq<Node>) {
    forall p :: 0 <= p < |nodes| && nodes[p].kids.Kids? ==>
      p < nodes[p].kids.left < |nodes| && p < nodes[p].kids.right < |nodes|
  }

  // ----- the operations on the nodes -----

  /** Node p gets the children l and r. */
  function WithChilds(nodes: seq<Node>, p: nat, l: nat, r: nat): seq<Node>
    requires p < |nodes| && l < |nodes| && r < |nodes|
  {
    nodes[p := nodes[p].(kids := Kids(l, r))]
         [l := nodes[l].(link := ChildOf(p, true), kids := Pending)]
         [r := nodes[r].(link := ChildOf(p, false), kids := Pending)]
  }

  /** Both children are taken away from p, which becomes a leaf. */
  function WithoutChilds(nodes: seq<Node>, p: nat, value: real): seq<Node>
    requires p < |nodes| && nodes[p].kids.Kids? && nodes[p].kids.left < |nodes| && nodes[p].kids.right < |nodes|
  {
    var l, r := nodes[p].kids.left, nodes[p].kids.right;
    nodes[l := nodes[l].(link := NoParent)][r := nodes[r].(link := NoParent)][p := nodes[p].(kids := NoKids,
      info := value)]
  }

  /** Adding children keeps the forest. */
  lemma AddChildsKeeps(nodes: seq<Node>, roots: nat, deleted: set<nat>, depth: seq<nat>, p: nat, l: nat, r: nat)
    requires Consistent(nodes, roots, deleted, depth) && Live(nodes, deleted, p) && !nodes[p].kids.Kids?
    requires l != r && l in deleted && r in deleted
    ensures Consistent(WithChilds(nodes, p, l, r), roots, deleted - {l, r}, depth[l := depth[p] + 1][r := depth[p] + 1])
  {
    var after, d, deep := WithChilds(nodes, p, l, r), deleted - {l, r}, depth[l := depth[p] + 1][r := depth[p] + 1];
    assert NodeOk(nodes, roots, deleted, depth, l) && NodeOk(nodes, roots, deleted, depth, r);
    forall i: nat | i < |after| ensures NodeOk(after, roots, d, deep, i) {
      assert NodeOk(nodes, roots, deleted, depth, i);
    }
  }

  /** So does turning a node with two leaves below it into a leaf. */
  lemma ChangeToLeafKeeps(nodes: seq<Node>, roots: nat, deleted: set<nat>, depth: seq<nat>, p: nat, value: real)
    requires Consistent(nodes, roots, deleted, depth) && Live(nodes, deleted, p) && nodes[p].kids.Kids?
    requires Live(nodes, deleted, nodes[p].kids.left) && IsLeaf(nodes[nodes[p].kids.left])
    requires Live(nodes, deleted, nodes[p].kids.right) && IsLeaf(nodes[nodes[p].kids.right])
    ensures var l, r := nodes[p].kids.left, nodes[p].kids.right;
      Consistent(WithoutChilds(nodes, p, value), roots, deleted + {l, r}, depth)
  {
    var l, r := nodes[p].kids.left, nodes[p].kids.right;
    var after, d := WithoutChilds(nodes, p, value), deleted + {l, r};
    assert NodeOk(nodes, roots, deleted, depth, l) && NodeOk(nodes, roots, deleted, depth, r);
    assert NodeOk(nodes, roots, deleted, depth, p);
    forall i: nat | i < |after| ensures NodeOk(after, roots, d, depth, i) {
      assert NodeOk(nodes, roots, deleted, depth, i);
    }
  }

  /** A node that belongs to no tree may be appended. */
  lemma AppendKeeps(nodes: seq<Node>, roots: nat, deleted: set<nat>, depth: seq<nat>, n: Node)
    requires Consistent(nodes, roots, deleted, depth) && IsRoot(n) && IsLeaf(n)
    ensures Consistent(nodes + [n], roots, deleted + {|nodes|}, depth + [0])
  {
    forall i: nat | i < |nodes| + 1 ensures NodeOk(nodes + [n], roots, deleted + {|nodes|}, depth + [0], i) {
      if i < |nodes| { assert NodeOk(nodes, roots, deleted, depth, i); }
    }
  }

  /** Changing what a node stores besides its links keeps the forest. */
  lemma PayloadKeeps(nodes: seq<Node>, roots: nat, deleted: set<nat>, depth: seq<nat>, p: nat, n: Node)
    requires Consistent(nodes, roots, deleted, depth) && Live(nodes, deleted, p)
    requires n.link == nodes[p].link && (n.kids == nodes[p].kids || (!nodes[p].kids.Kids? && !n.kids.Kids?))
    ensures Consistent(nodes[p := n], roots, deleted, depth)
  {
    var after := nodes[p := n];
    forall i: nat | i < |after| ensures NodeOk(after, roots, deleted, depth, i) {
      assert NodeOk(nodes, roots, deleted, depth, i);
    }
  }

  // ----- descendants -----

  /** Node i is r or below it. */
  predicate Under(nodes: seq<Node>, depth: seq<nat>, i: nat, r: nat)
    decreases if i < |depth| then depth[i] else 0
  {
    i == r
    || (i < |nodes| == |depth| && nodes[i].link.ChildOf? && nodes[i].link.pid < |nodes|
        && depth[nodes[i].link.pid] < depth[i] && Under(nodes, depth, nodes[i].link.pid, r))
  }

  /** What is below a node is below one of its children. */
  lemma {:induction false} UnderChild(nodes: seq<Node>, roots: nat, deleted: set<nat>, depth: seq<nat>, i: nat, r: nat)
    requires Consistent(nodes, roots, deleted, depth) && Live(nodes, deleted, i) && Live(nodes, deleted, r)
    requires nodes[r].kids.Kids?
    ensures Under(nodes, depth, i, r)
      <==> i == r || Under(nodes, depth, i, nodes[r].kids.left) || Under(nodes, depth, i, nodes[r].kids.right)
    decreases depth[i]
  {
    assert NodeOk(nodes, roots, deleted, depth, i) && NodeOk(nodes, roots, deleted, depth, r);
    if nodes[i].link.ChildOf? {
      UnderChild(nodes, roots, deleted, depth, nodes[i].link.pid, r);
      var l, k := nodes[r].kids.left, nodes[r].kids.right;
      assert NodeOk(nodes, roots, deleted, depth, l) && NodeOk(nodes, roots, deleted, depth, k);
    }
  }

  /** The links of the nodes that stay decide what is below what. */
  lemma {:induction false} UnderStays(nodes: seq<Node>, after: seq<Node>, roots: nat, deleted: set<nat>,
                                      depth: seq<nat>, i: nat, r: nat)
    requires Consistent(nodes, roots, deleted, depth) && |after| == |nodes| && Live(nodes, deleted, i)
    requires forall j :: Live(nodes, deleted, j) ==> after[j].link == nodes[j].link
    ensures Under(after, depth, i, r) == Under(nodes, depth, i, r)
    decreases depth[i]
  {
    assert NodeOk(nodes, roots, deleted, depth, i);
    if nodes[i].link.ChildOf? { UnderStays(nodes, after, roots, deleted, depth, nodes[i].link.pid, r); }
  }

  lemma UnderItself(nodes: seq<Node>, depth: seq<nat>, r: nat)
    ensures Under(nodes, depth, r, r)
  {
  }

  /** Nothing else is below a node without children. */
  lemma {:induction false} NothingBelow(nodes: seq<Node>, roots: nat, deleted: set<nat>, depth: seq<nat>, r: nat)
    requires Consistent(nodes, roots, deleted, depth) && Live(nodes, deleted, r) && !nodes[r].kids.Kids?
    ensures forall i: nat :: Live(nodes, deleted, i) && i != r ==> !Under(nodes, depth, i, r)
  {
    forall i: nat | Live(nodes, deleted, i) && i != r ensures !Under(nodes, depth, i, r) {
      NotBelow(nodes, roots, deleted, depth, i, r);
    }
  }

  lemma {:induction false} NotBelow(nodes: seq<Node>, roots: nat, deleted: set<nat>, depth: seq<nat>, i: nat, r: nat)
    requires Consistent(nodes, roots, deleted, depth) && Live(nodes, deleted, r) && !nodes[r].kids.Kids?
    requires Live(nodes, deleted, i) && i != r
    ensures !Under(nodes, depth, i, r)
    decreases depth[i]
  {
    assert NodeOk(nodes, roots, deleted, depth, i);
    if nodes[i].link.ChildOf? { NotBelow(nodes, roots, deleted, depth, nodes[i].link.pid, r); }
  }

  /** What is below one child is not below the other, and a node is not below its children. */
  lemma ChildrenApart(nodes: seq<Node>, roots: nat, deleted: set<nat>, depth: seq<nat>, p: nat)
    requires Consistent(nodes, roots, deleted, depth) && Live(nodes, deleted, p) && nodes[p].kids.Kids?
    ensures var l, r := nodes[p].kids.left, nodes[p].kids.right;
      && Live(nodes, deleted, l) && Live(nodes, deleted, r) && depth[l] == depth[r] == depth[p] + 1
      && !Under(nodes, depth, p, l) && !Under(nodes, depth, p, r)
      && !Under(nodes, depth, l, r) && !Under(nodes, depth, r, l)
      && Under(nodes, depth, p, p) && Under(nodes, depth, l, l) && Under(nodes, depth, r, r)
      && (forall i: nat :: i < |nodes| && Under(nodes, depth, i, l) ==> !Under(nodes, depth, i, r))
      && (forall i: nat :: Live(nodes, deleted, i) ==>
        (Under(nodes, depth, i, p) <==> i == p || Under(nodes, depth, i, l) || Under(nodes, depth, i, r)))
  {
    var l, r := nodes[p].kids.left, nodes[p].kids.right;
    assert NodeOk(nodes, roots, deleted, depth, p);
    assert NodeOk(nodes, roots, deleted, depth, l) && NodeOk(nodes, roots, deleted, depth, r);
    UnderItself(nodes, depth, l);
    UnderItself(nodes, depth, r);
    if Under(nodes, depth, p, l) { UnderIsDeeper(nodes, depth, p, l); }
    if Under(nodes, depth, p, r) { UnderIsDeeper(nodes, depth, p, r); }
    forall i: nat | i < |nodes| && Under(nodes, depth, i, l)
      ensures !Under(nodes, depth, i, r)
    {
      UnderOne(nodes, depth, i, l, r);
    }
    forall i: nat | Live(nodes, deleted, i)
      ensures Under(nodes, depth, i, p) <==> i == p || Under(nodes, depth, i, l) || Under(nodes, depth, i, r)
    {
      UnderChild(nodes, roots, deleted, depth, i, p);
    }
  }

  ghost predicate NonePending(nodes: seq<Node>, deleted: set<nat>, depth: seq<nat>, r: nat) {
    forall i: nat :: Live(nodes, deleted, i) && Under(nodes, depth, i, r) ==> !nodes[i].kids.Pending?
  }

  lemma NotPending(nodes: seq<Node>, roots: nat, deleted: set<nat>, depth: seq<nat>, r: nat)
    requires Consistent(nodes, roots, deleted, depth) && Live(nodes, deleted, r)
      && NonePending(nodes, deleted, depth, r)
    ensures !nodes[r].kids.Pending? && NodeOk(nodes, roots, deleted, depth, r)
    ensures nodes[r].kids.Kids? ==>
      NodeOk(nodes, roots, deleted, depth, nodes[r].kids.left)
        && NodeOk(nodes, roots, deleted, depth, nodes[r].kids.right)
  {
    UnderItself(nodes, depth, r);
    assert NodeOk(nodes, roots, deleted, depth, r);
  }

  /** Node r has become a leaf, everything below it has gone, and the rest is as before. */
  ghost predicate Collapsed(before: seq<Node>, deleted: set<nat>, after: seq<Node>, gone: set<nat>, depth: seq<nat>,
                            r: nat) {
    && |after| == |before| && Live(after, gone, r) && Live(before, deleted, r)
    && after[r].link == before[r].link && IsLeaf(after[r])
    && (forall i: nat :: i < |before| && !Live(before, deleted, i) ==> !Live(after, gone, i))
    && forall i: nat :: Live(before, deleted, i) ==>
      if Under(before, depth, i, r) then i == r || !Live(after, gone, i)
        else Live(after, gone, i) && after[i] == before[i]
  }

  lemma LeafIsCollapsed(nodes: seq<Node>, roots: nat, deleted: set<nat>, depth: seq<nat>, r: nat)
    requires Consistent(nodes, roots, deleted, depth) && Live(nodes, deleted, r) && IsLeaf(nodes[r])
    ensures Collapsed(nodes, deleted, nodes, deleted, depth, r)
  {
    NothingBelow(nodes, roots, deleted, depth, r);
  }

  /** While the left subtree is collapsed, the right one stays as it was. */
  lemma LeftIsCollapsed(before: seq<Node>, after: seq<Node>, roots: nat, deleted: set<nat>, gone: set<nat>,
                        depth: seq<nat>, p: nat)
    requires Consistent(before, roots, deleted, depth) && Consistent(after, roots, gone, depth)
    requires Live(before, deleted, p) && before[p].kids.Kids? && NonePending(before, deleted, depth, p)
    requires Collapsed(before, deleted, after, gone, depth, before[p].kids.left)
    ensures var r := before[p].kids.right;
      && Live(after, gone, r) && after[r] == before[r] && Live(after, gone, p) && after[p] == before[p]
      && NonePending(after, gone, depth, r)
      && (forall i: nat :: Live(after, gone, i) ==> Live(before, deleted, i))
      && (forall i: nat, q: nat :: Live(after, gone, i) ==> Under(after, depth, i, q) == Under(before, depth, i, q))
  {
    ChildrenApart(before, roots, deleted, depth, p);
    hide Under;
    forall i: nat, q: nat | Live(after, gone, i) ensures Under(after, depth, i, q) == Under(before, depth, i, q) {
      UnderStays(after, before, roots, gone, depth, i, q);
    }
  }

  /** Both subtrees collapsed, the node itself turned into a leaf. */
  lemma BothAreCollapsed(before: seq<Node>, middle: seq<Node>, last: seq<Node>, roots: nat,
                         deleted: set<nat>, gone: set<nat>, lost: set<nat>, depth: seq<nat>, p: nat, value: real)
    requires Consistent(before, roots, deleted, depth) && Consistent(middle, roots, gone, depth)
    requires Live(before, deleted, p) && before[p].kids.Kids? && NonePending(before, deleted, depth, p)
    requires Collapsed(before, deleted, middle, gone, depth, before[p].kids.left)
    requires Collapsed(middle, gone, last, lost, depth, before[p].kids.right)
    ensures var l, r := before[p].kids.left, before[p].kids.right;
      && Live(last, lost, p) && last[p] == before[p]
      && Live(last, lost, l) && IsLeaf(last[l]) && Live(last, lost, r) && IsLeaf(last[r])
      && Collapsed(before, deleted, WithoutChilds(last, p, value), lost + {l, r}, depth, p)
  {
    ChildrenApart(before, roots, deleted, depth, p);
    LeftIsCollapsed(before, middle, roots, deleted, gone, depth, p);
  }

  /** A node is not below its own child, nor below a node beside it. */
  lemma {:induction false} UnderIsDeeper(nodes: seq<Node>, depth: seq<nat>, i: nat, r: nat)
    requires |depth| == |nodes| && i < |nodes| && r < |nodes| && Under(nodes, depth, i, r)
    ensures i == r || depth[r] < depth[i]
    decreases depth[i]
  {
    if i != r { UnderIsDeeper(nodes, depth, nodes[i].link.pid, r); }
  }

  lemma {:induction false} UnderOne(nodes: seq<Node>, depth: seq<nat>, i: nat, r: nat, s: nat)
    requires |depth| == |nodes| && i < |nodes| && r < |nodes| && s < |nodes| && r != s && depth[r] == depth[s]
    ensures !(Under(nodes, depth, i, r) && Under(nodes, depth, i, s))
    decreases depth[i]
  {
    if Under(nodes, depth, i, r) && Under(nodes, depth, i, s) {
      if i == r { UnderIsDeeper(nodes, depth, i, s); }
      else if i == s { UnderIsDeeper(nodes, depth, i, r); }
      else { UnderOne(nodes, depth, nodes[i].link.pid, r, s); }
    }
  }
}
