/**
  Recursive construction of the NAICS 2022 tree for a tree-select widget,
  and the entry point that cleans a raw table and builds the tree from a
  fresh root.
*/
module NaicsTree {
  import opened Wrappers
  import opened Decimal
  import opened NaicsCleanUp
  import opened NaicsChildren

  /**
    A tree node with the widget's fields value, label, description and
    children (`label` is a reserved word in Dafny, hence `labelText`).
  */
  datatype Node = Node(value: int, labelText: string, description: string, children: Children)

  /** The children entry of a node: absent, or a list of nodes. */
  datatype Children = Absent | Present(nodes: seq<Node>)

  /** The root the builder starts from: the synthetic code 0 above all sectors. */
  function DefaultRoot(): (n: Node)
    ensures n.value == 0 && n.children.Absent?
  {
    Node(0, "NAICS 2022", "Categorisation tree for NAICS 2022 industry classifications", Absent)
  }

  /** A child row as a node that has no children entry yet. */
  function ChildNode(c: Child): Node {
    Node(c.code, c.title, c.description, Absent)
  }

  /** The condition under which a node at `level` gets a children entry. */
  predicate Expands(t: seq<Row>, n: Node, level: int, maxLevel: int) {
    |GetChildren(n.value, t)| > 0 && level < maxLevel
  }

  /**
    The subtree below `node` at depth `level`. The source writes the children
    entry into the node it is handed and returns that node; here the updated
    node is returned as a value. A node that does not expand is returned as
    it came, including any children entry it already had.
  */
  function CreateStreamlitTree(t: seq<Row>, node: Node, level: int, maxLevel: int): (r: Node)
    ensures r.value == node.value && r.labelText == node.labelText && r.description == node.description
    ensures !Expands(t, node, level, maxLevel) ==> r == node
    decreases maxLevel - level
  {
    var kids := GetChildren(node.value, t);
    if |kids| > 0 && level < maxLevel then
      node.(children := Present(seq(|kids|, i requires 0 <= i < |kids| =>
        CreateStreamlitTree(t, ChildNode(kids[i]), level + 1, maxLevel))))
    else
      node
  }

  /** An expanding node's children entry holds the subtree of each child row, one level deeper. */
  lemma ChildSubtrees(t: seq<Row>, node: Node, level: int, maxLevel: int)
    requires Expands(t, node, level, maxLevel)
    ensures var r := CreateStreamlitTree(t, node, level, maxLevel);
      var kids := GetChildren(node.value, t);
      r.children.Present? && |r.children.nodes| == |kids| &&
      forall i :: 0 <= i < |kids| ==>
        r.children.nodes[i] == CreateStreamlitTree(t, ChildNode(kids[i]), level + 1, maxLevel) &&
        r.children.nodes[i].value == kids[i].code &&
        r.children.nodes[i].labelText == kids[i].title &&
        r.children.nodes[i].description == kids[i].description
  {
  }

  /** No path from n down to any node has more than h edges. */
  ghost predicate HeightAtMost(n: Node, h: int)
    decreases n
  {
    match n.children
    case Absent => true
    case Present(cs) => h >= 1 && forall i :: 0 <= i < |cs| ==> HeightAtMost(cs[i], h - 1)
  }

  /**
    Every edge below n leads to a row of the table: the child's code lies in
    the parent's child range, its label is "<code>: <title>" and its
    description is the row's; and no children entry is empty.
  */
  ghost predicate EdgesFromTable(t: seq<Row>, n: Node)
    decreases n
  {
    match n.children
    case Absent => true
    case Present(cs) =>
      |cs| > 0 &&
      forall i :: 0 <= i < |cs| ==>
        InRange(cs[i].value, ChildRange(n.value)) &&
        (exists k :: 0 <= k < |t| && t[k].code == cs[i].value &&
                     cs[i].labelText == IntToString(t[k].code) + ": " + FillNa(t[k].title) &&
                     cs[i].description == FillNa(t[k].description)) &&
        EdgesFromTable(t, cs[i])
  }

  /**
    The rule every node of the tree obeys: it has a children entry exactly
    when it has child rows and lies above `maxLevel`, and that entry holds one
    node per child row, in row order, with the row's code, prefixed title and
    description.
  */
  ghost predicate ObeysChildRule(t: seq<Row>, n: Node, level: int, maxLevel: int)
    decreases n
  {
    var kids := GetChildren(n.value, t);
    (n.children.Present? <==> |kids| > 0 && level < maxLevel) &&
    match n.children
    case Absent => true
    case Present(cs) =>
      |cs| == |kids| &&
      forall i :: 0 <= i < |cs| ==>
        cs[i].value == kids[i].code && cs[i].labelText == kids[i].title &&
        cs[i].description == kids[i].description &&
        ObeysChildRule(t, cs[i], level + 1, maxLevel)
  }

  /** Every node the builder attaches comes from a row of the table. */
  lemma {:induction false} TreeEdgesFromTable(t: seq<Row>, node: Node, level: int, maxLevel: int)
    requires node.children.Absent?
    ensures EdgesFromTable(t, CreateStreamlitTree(t, node, level, maxLevel))
    decreases maxLevel - level
  {
    var r := CreateStreamlitTree(t, node, level, maxLevel);
    if Expands(t, node, level, maxLevel) {
      var kids := GetChildren(node.value, t);
      var idx := MatchIndices(t, ChildRange(node.value));
      ChildSubtrees(t, node, level, maxLevel);
      var cs := r.children.nodes;
      forall i | 0 <= i < |cs|
        ensures InRange(cs[i].value, ChildRange(node.value))
        ensures exists k :: 0 <= k < |t| && t[k].code == cs[i].value &&
                            cs[i].labelText == IntToString(t[k].code) + ": " + FillNa(t[k].title) &&
                            cs[i].description == FillNa(t[k].description)
        ensures EdgesFromTable(t, cs[i])
      {
        var k := idx[i];
        assert t[k].code == cs[i].value;
        TreeEdgesFromTable(t, ChildNode(kids[i]), level + 1, maxLevel);
      }
    }
  }

  /** The tree built from a node without children obeys the child rule at every node. */
  lemma {:induction false} TreeObeysChildRule(t: seq<Row>, node: Node, level: int, maxLevel: int)
    requires node.children.Absent?
    ensures ObeysChildRule(t, CreateStreamlitTree(t, node, level, maxLevel), level, maxLevel)
    decreases maxLevel - level
  {
    var r := CreateStreamlitTree(t, node, level, maxLevel);
    if Expands(t, node, level, maxLevel) {
      var kids := GetChildren(node.value, t);
      ChildSubtrees(t, node, level, maxLevel);
      forall i | 0 <= i < |kids|
        ensures ObeysChildRule(t, r.children.nodes[i], level + 1, maxLevel)
      {
        TreeObeysChildRule(t, ChildNode(kids[i]), level + 1, maxLevel);
      }
    }
  }

  /** Only nodes above `maxLevel` have a children entry. */
  ghost predicate ExpandsAboveOnly(n: Node, level: int, maxLevel: int)
    decreases n
  {
    match n.children
    case Absent => true
    case Present(cs) => level < maxLevel && forall i :: 0 <= i < |cs| ==> ExpandsAboveOnly(cs[i], level + 1, maxLevel)
  }

  lemma {:induction false} ChildRuleExpandsAboveOnly(t: seq<Row>, n: Node, level: int, maxLevel: int)
    requires ObeysChildRule(t, n, level, maxLevel)
    ensures ExpandsAboveOnly(n, level, maxLevel)
    decreases n
  {
    match n.children
    case Absent =>
    case Present(cs) =>
      forall i | 0 <= i < |cs|
        ensures ExpandsAboveOnly(cs[i], level + 1, maxLevel)
      {
        ChildRuleExpandsAboveOnly(t, cs[i], level + 1, maxLevel);
      }
  }

  lemma {:induction false} ExpandsAboveOnlyBoundsHeight(n: Node, level: int, maxLevel: int)
    requires ExpandsAboveOnly(n, level, maxLevel)
    ensures HeightAtMost(n, maxLevel - level)
    decreases n
  {
    match n.children
    case Absent =>
    case Present(cs) =>
      forall i | 0 <= i < |cs|
        ensures HeightAtMost(cs[i], maxLevel - level - 1)
      {
        ExpandsAboveOnlyBoundsHeight(cs[i], level + 1, maxLevel);
      }
  }

  /** From a node without children, no path grows longer than maxLevel - level edges. */
  lemma TreeHeightBound(t: seq<Row>, node: Node, level: int, maxLevel: int)
    requires node.children.Absent?
    ensures HeightAtMost(CreateStreamlitTree(t, node, level, maxLevel), maxLevel - level)
  {
    var r := CreateStreamlitTree(t, node, level, maxLevel);
    TreeObeysChildRule(t, node, level, maxLevel);
    ChildRuleExpandsAboveOnly(t, r, level, maxLevel);
    ExpandsAboveOnlyBoundsHeight(r, level, maxLevel);
  }

  /** The child rule pins the tree down: two trees obeying it from the same root are equal. */
  lemma {:induction false} ChildRuleDeterminesTree(t: seq<Row>, a: Node, b: Node, level: int, maxLevel: int)
    requires ObeysChildRule(t, a, level, maxLevel) && ObeysChildRule(t, b, level, maxLevel)
    requires a.value == b.value && a.labelText == b.labelText && a.description == b.description
    ensures a == b
    decreases a
  {
    match a.children
    case Absent =>
    case Present(cs) =>
      var ds := b.children.nodes;
      forall i | 0 <= i < |cs|
        ensures cs[i] == ds[i]
      {
        ChildRuleDeterminesTree(t, cs[i], ds[i], level + 1, maxLevel);
      }
      assert cs == ds;
  }

  /**
    The tree of a raw table: cleanup, then construction from a fresh default
    root; cleanup's error is passed on and no partial tree is returned.
  */
  function GetNaicsTree(raw: seq<RawRow>, level: int, maxLevel: int): (r: Result<Node, CleanUpError>)
    ensures r.Success? <==> CleanUpDescriptions(raw).Success?
    ensures r.Failure? ==> r.error == CleanUpDescriptions(raw).error
    ensures r.Success? ==>
      var tree := r.value;
      tree.value == 0 && tree.labelText == DefaultRoot().labelText && tree.description == DefaultRoot().description
    ensures r.Success? && maxLevel <= level ==> r.value == DefaultRoot()
  {
    match CleanUpDescriptions(raw)
    case Failure(e) => Failure(e)
    case Success(rows) => Success(CreateStreamlitTree(rows, DefaultRoot(), level, maxLevel))
  }

  /**
    The tree of a cleaned table obeys the child rule, draws every edge from
    the table and is at most maxLevel - level deep.
  */
  lemma NaicsTreeShape(raw: seq<RawRow>, level: int, maxLevel: int)
    requires CleanUpDescriptions(raw).Success?
    ensures var rows := CleanUpDescriptions(raw).value;
      var tree := GetNaicsTree(raw, level, maxLevel).value;
      ObeysChildRule(rows, tree, level, maxLevel) && EdgesFromTable(rows, tree) &&
      HeightAtMost(tree, maxLevel - level)
  {
    var rows := CleanUpDescriptions(raw).value;
    TreeObeysChildRule(rows, DefaultRoot(), level, maxLevel);
    TreeEdgesFromTable(rows, DefaultRoot(), level, maxLevel);
    TreeHeightBound(rows, DefaultRoot(), level, maxLevel);
  }

  /**
    The default root as the source keeps it: one node shared by every call
    that does not pass its own, into which each such call writes its children.
  */
  class SharedDefaultRoot {
    var node: Node

    constructor ()
      ensures node == DefaultRoot()
    {
      node := DefaultRoot();
    }

    /**
      A call that relies on the default root: it builds from the shared root's
      current state and leaves the result there. The result is a copy of that
      new state; a later call does not change it, as it would change the
      shared dict in the source.
    */
    method CreateStreamlitTreeWithDefault(t: seq<Row>, level: int, maxLevel: int) returns (r: Node)
      modifies this
      ensures r == CreateStreamlitTree(t, old(node), level, maxLevel)
      ensures node == r
    {
      r := CreateStreamlitTree(t, node, level, maxLevel);
      node := r;
    }
  }
}
