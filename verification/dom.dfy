/**
 * The parsed page, as the HTML parser hands it over: an immutable ordered tree.
 * A Go `*html.Node` is identified by where it sits in that tree, so a node
 * reference is modelled as an `Item`: the path of child indexes from the document
 * root together with the node found there. Parent tests by pointer identity
 * (`n.Parent == tr`) become relations between paths.
 */
module Dom {
  import opened Outcomes

  datatype NodeType = ErrorNode | TextNode | DocumentNode | ElementNode | CommentNode | DoctypeNode | RawNode

  datatype Attribute = Attribute(namespace: string, key: string, val: string)

  /** `data` is the tag name of an element and the content of a text node. */
  datatype Node = Node(kind: NodeType, data: string, attrs: seq<Attribute>, children: seq<Node>)

  type Path = seq<nat>

  datatype Item = Item(path: Path, node: Node)

  /** The children of a node, in sibling order, as references. */
  function ChildItems(it: Item): (cs: seq<Item>)
    ensures |cs| == |it.node.children|
  {
    seq(|it.node.children|, k requires 0 <= k < |it.node.children| => Item(it.path + [k], it.node.children[k]))
  }

  /** The node reached from `n` by following the child indexes `rel`. */
  function NodeAt(n: Node, rel: Path): Option<Node>
    decreases rel
  {
    if rel == [] then Some(n)
    else if rel[0] < |n.children| then NodeAt(n.children[rel[0]], rel[1..])
    else None
  }

  /** `x` is `root` itself or one of its descendants. */
  predicate InSubtree(root: Item, x: Item)
  {
    |root.path| <= |x.path| && x.path[..|root.path|] == root.path &&
    NodeAt(root.node, x.path[|root.path|..]) == Some(x.node)
  }

  /** `x` is a direct child of the node at `parent` (Go: `x.Parent == parent`). */
  predicate IsChildOf(x: Item, parent: Path)
  {
    |x.path| > 0 && x.path[..|x.path| - 1] == parent
  }

  /** The parent node of `x` inside the page `doc`; None for the document root (Go: `Parent == nil`). */
  function ParentNode(doc: Node, x: Item): Option<Node>
  {
    if |x.path| == 0 then None else NodeAt(doc, x.path[..|x.path| - 1])
  }

  predicate IsElement(n: Node, tag: string)
  {
    n.kind == ElementNode && n.data == tag
  }

  /** The parent of `x` exists and is a `tag` element. */
  predicate ParentIsElement(doc: Node, x: Item, tag: string)
  {
    ParentNode(doc, x).Some? && IsElement(ParentNode(doc, x).value, tag)
  }

  /** Every node is in its own subtree. */
  lemma InSubtreeRefl(x: Item)
    ensures InSubtree(x, x)
  {
    assert x.path[..|x.path|] == x.path;
    assert x.path[|x.path|..] == [];
  }

  /** The subtree of `p` is `p` together with the subtrees of its children. */
  lemma SubtreeUnfold(p: Item, x: Item)
    ensures InSubtree(p, x) <==>
      (x == p || exists k :: 0 <= k < |p.node.children| && InSubtree(ChildItems(p)[k], x))
  {
    var d := |p.path|;
    if InSubtree(p, x) && x != p {
      var rel := x.path[d..];
      assert rel != [];
      var k := rel[0];
      assert k < |p.node.children|;
      var c := ChildItems(p)[k];
      assert c.path == p.path + [k];
      assert x.path[..d + 1] == x.path[..d] + [k];
      assert x.path[d + 1..] == rel[1..];
      assert InSubtree(c, x);
    }
    if x != p && (exists k :: 0 <= k < |p.node.children| && InSubtree(ChildItems(p)[k], x)) {
      var k :| 0 <= k < |p.node.children| && InSubtree(ChildItems(p)[k], x);
      var c := ChildItems(p)[k];
      assert x.path[..d + 1] == p.path + [k];
      assert x.path[..d] == x.path[..d + 1][..d];
      var rel := x.path[d..];
      assert rel[0] == k && rel[1..] == x.path[d + 1..];
      assert NodeAt(p.node, rel) == NodeAt(p.node.children[k], rel[1..]);
    }
  }

  /** Following a path in two steps is following it at once. */
  lemma {:induction false} NodeAtAppend(n: Node, a: Path, b: Path)
    ensures NodeAt(n, a + b) == (if NodeAt(n, a).Some? then NodeAt(NodeAt(n, a).value, b) else None)
    decreases a
  {
    if a != [] {
      assert (a + b)[0] == a[0] && (a + b)[1..] == a[1..] + b;
      if a[0] < |n.children| {
        NodeAtAppend(n.children[a[0]], a[1..], b);
      }
    } else {
      assert a + b == b;
    }
  }

  /** A node placed at its path in `doc` has every subtree member placed at its path too. */
  lemma SubtreePlaced(doc: Node, root: Item, x: Item)
    requires NodeAt(doc, root.path) == Some(root.node)
    requires InSubtree(root, x)
    ensures NodeAt(doc, x.path) == Some(x.node)
  {
    var d := |root.path|;
    assert x.path == root.path + x.path[d..];
    NodeAtAppend(doc, root.path, x.path[d..]);
  }
}
