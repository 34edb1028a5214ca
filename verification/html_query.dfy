/**
 * The tree query engine of api/html.go (copied verbatim at cmd/cli/main.go:390-436):
 * breadth-first search with a FIFO queue, and linear scans of an attribute list.
 */
module HtmlQuery {
  import opened Outcomes
  import opened Dom
  import opened TreeOrder

  /**
   * `findOneNode`: pops the queue front, tests it, and otherwise appends its
   * children. None stands for the "node not found" error.
   */
  method FindOneNode(root: Item, query: Item -> bool) returns (r: Option<Item>)
    ensures r == FirstMatch(LevelOrder(root), query)
  {
    var queue := [root];
    ghost var visited: seq<Item> := [];
    BfsIsLevelOrder(root);
    while queue != []
      invariant visited + Bfs(queue) == LevelOrder(root)
      invariant forall i :: 0 <= i < |visited| ==> !query(visited[i])
      decreases Weight(queue)
    {
      var node := queue[0];
      BfsMeasure(queue);
      assert Bfs(queue) == [node] + Bfs(queue[1..] + ChildItems(node));
      queue := queue[1..];
      if query(node) {
        FirstMatchAfter(visited, [node] + Bfs(queue + ChildItems(node)), query);
        return Some(node);
      }
      queue := queue + ChildItems(node);
      visited := visited + [node];
    }
    FirstMatchAfter(visited, [], query);
    assert visited + [] == visited;
    return None;
  }

  /** A prefix with no match does not change the first match. */
  lemma {:induction false} FirstMatchAfter(a: seq<Item>, b: seq<Item>, q: Item -> bool)
    requires forall i :: 0 <= i < |a| ==> !q(a[i])
    ensures FirstMatch(a + b, q) == FirstMatch(b, q)
    decreases |a|
  {
    if a != [] {
      assert (a + b)[0] == a[0] && (a + b)[1..] == a[1..] + b;
      FirstMatchAfter(a[1..], b, q);
    } else {
      assert a + b == b;
    }
  }

  /**
   * `findAllNodes`: visits every node of the subtree once, in breadth-first
   * order, with no early exit, collecting the accepted ones. The query may
   * update a state of its own as Go closures do; it sees the nodes in exactly
   * the order `Scan` applies it.
   */
  method FindAllNodes<S>(root: Item, query: (S, Item) -> (S, bool), s0: S) returns (nodes: seq<Item>, s: S)
    ensures (s, nodes) == Scan(query, s0, LevelOrder(root))
  {
    var queue := [root];
    nodes, s := [], s0;
    ghost var visited: seq<Item> := [];
    BfsIsLevelOrder(root);
    while queue != []
      invariant visited + Bfs(queue) == LevelOrder(root)
      invariant (s, nodes) == Scan(query, s0, visited)
      decreases Weight(queue)
    {
      var node := queue[0];
      BfsMeasure(queue);
      assert Bfs(queue) == [node] + Bfs(queue[1..] + ChildItems(node));
      queue := queue[1..];
      var step := query(s, node);
      s := step.0;
      if step.1 {
        nodes := nodes + [node];
      }
      queue := queue + ChildItems(node);
      ScanSnoc(query, s0, visited, node);
      visited := visited + [node];
    }
    assert visited + [] == visited;
  }

  lemma ScanSnoc<S>(query: (S, Item) -> (S, bool), s0: S, items: seq<Item>, x: Item)
    ensures var prev := Scan(query, s0, items);
      var step := query(prev.0, x);
      Scan(query, s0, items + [x]) == (step.0, if step.1 then prev.1 + [x] else prev.1)
  {
    assert (items + [x])[..|items|] == items;
  }

  /** The value of the first attribute named `k`; later duplicates are never looked at. */
  function FirstAttr(attrs: seq<Attribute>, k: string): Option<string>
    decreases |attrs|
  {
    if attrs == [] then None
    else if attrs[0].key == k then Some(attrs[0].val)
    else FirstAttr(attrs[1..], k)
  }

  /** FirstAttr is decided by the earliest attribute with the key, and is None exactly when the key is absent. */
  lemma {:induction false} FirstAttrSpec(attrs: seq<Attribute>, k: string)
    ensures FirstAttr(attrs, k).None? <==> forall i :: 0 <= i < |attrs| ==> attrs[i].key != k
    ensures FirstAttr(attrs, k).Some? ==>
      exists i :: 0 <= i < |attrs| && attrs[i].key == k && attrs[i].val == FirstAttr(attrs, k).value &&
                  forall j :: 0 <= j < i ==> attrs[j].key != k
    decreases |attrs|
  {
    if attrs != [] && attrs[0].key != k {
      FirstAttrSpec(attrs[1..], k);
      assert forall i :: 1 <= i < |attrs| ==> attrs[i] == attrs[1..][i - 1];
      if FirstAttr(attrs, k).Some? {
        var i :| 0 <= i < |attrs[1..]| && attrs[1..][i].key == k && attrs[1..][i].val == FirstAttr(attrs, k).value &&
                 forall j :: 0 <= j < i ==> attrs[1..][j].key != k;
        assert attrs[i + 1] == attrs[1..][i];
        assert forall j :: 0 <= j < i + 1 ==> attrs[j].key != k;
      }
    }
  }

  /** `attrIs`: true iff the first attribute named `k` has value `v`; false when there is none. */
  method AttrIs(n: Node, k: string, v: string) returns (b: bool)
    ensures b <==> FirstAttr(n.attrs, k) == Some(v)
  {
    var i := 0;
    while i < |n.attrs|
      invariant 0 <= i <= |n.attrs|
      invariant FirstAttr(n.attrs, k) == FirstAttr(n.attrs[i..], k)
    {
      assert n.attrs[i..][1..] == n.attrs[i + 1..];
      if n.attrs[i].key == k {
        return n.attrs[i].val == v;
      }
      i := i + 1;
    }
    return false;
  }

  /** `getAttr`: the value of the first attribute named `k` with true, or ("", false). */
  method GetAttr(n: Node, k: string) returns (v: string, ok: bool)
    ensures ok <==> FirstAttr(n.attrs, k).Some?
    ensures v == if ok then FirstAttr(n.attrs, k).value else ""
  {
    var i := 0;
    while i < |n.attrs|
      invariant 0 <= i <= |n.attrs|
      invariant FirstAttr(n.attrs, k) == FirstAttr(n.attrs[i..], k)
    {
      assert n.attrs[i..][1..] == n.attrs[i + 1..];
      if n.attrs[i].key == k {
        return n.attrs[i].val, true;
      }
      i := i + 1;
    }
    return "", false;
  }

  /**
   * For a query without side effects, findOneNode succeeds with n exactly when
   * findAllNodes returns a non-empty list starting with n, and fails exactly when
   * findAllNodes returns the empty list.
   */
  lemma FindOneIsFirstOfFindAll<S>(root: Item, q: Item -> bool, s0: S)
    ensures Scan(Lift(q), s0, LevelOrder(root)).0 == s0
    ensures var all := Scan(Lift(q), s0, LevelOrder(root)).1;
      FirstMatch(LevelOrder(root), q) == if all == [] then None else Some(all[0])
  {
    ScanLift(q, s0, LevelOrder(root));
    FirstMatchIsFirstOfFilter(LevelOrder(root), q);
  }

  /**
   * findAllNodes with a side-effect-free query returns exactly the matching nodes
   * of the subtree, each once, in breadth-first order; the empty list when none match.
   */
  lemma FindAllExactly<S>(root: Item, q: Item -> bool, s0: S)
    ensures var all := Scan(Lift(q), s0, LevelOrder(root)).1;
      && (forall x :: x in all <==> InSubtree(root, x) && q(x))
      && NoDupPaths(all)
      && (all == [] <==> forall x :: InSubtree(root, x) ==> !q(x))
  {
    var lo := LevelOrder(root);
    ScanLift(q, s0, lo);
    FilterSpec(lo, q);
    forall x ensures x in lo <==> InSubtree(root, x) {
      LevelOrderMembers(root, x);
    }
    LevelOrderNoDup(root);
    FilterSubseq(lo, q);
  }

  /** Filter keeps a list without repeated paths free of repeated paths. */
  lemma {:induction false} FilterSubseq(items: seq<Item>, q: Item -> bool)
    requires NoDupPaths(items)
    ensures NoDupPaths(Filter(items, q))
    decreases |items|
  {
    if items != [] {
      var rest := items[1..];
      assert NoDupPaths(rest) by {
        forall i, j | 0 <= i < j < |rest| ensures rest[i].path != rest[j].path {
          assert rest[i] == items[i + 1] && rest[j] == items[j + 1];
        }
      }
      FilterSubseq(rest, q);
      FilterSpec(rest, q);
      var f := Filter(rest, q);
      if q(items[0]) {
        forall j | 0 <= j < |f| ensures items[0].path != f[j].path {
          assert f[j] in rest;
          var m :| 0 <= m < |rest| && rest[m] == f[j];
          assert rest[m] == items[m + 1];
        }
        NoDupConcat([items[0]], f);
      } else {
        assert Filter(items, q) == [] + f;
      }
    }
  }

  /** findOneNode tests the root first: a matching root is returned whatever its descendants are. */
  lemma FindOneRootFirst(root: Item, q: Item -> bool)
    requires q(root)
    ensures FirstMatch(LevelOrder(root), q) == Some(root)
  {
    RootFirst(root);
  }

  /**
   * findOneNode fails exactly when no node of the subtree satisfies the query, and
   * when it succeeds the node it returns is in the subtree, satisfies the query and
   * no node before it in breadth-first order does.
   */
  lemma FindOneSpec(root: Item, q: Item -> bool)
    ensures FirstMatch(LevelOrder(root), q).None? <==> forall x :: InSubtree(root, x) ==> !q(x)
    ensures FirstMatch(LevelOrder(root), q).Some? ==>
      var n := FirstMatch(LevelOrder(root), q).value;
      InSubtree(root, n) && q(n) &&
      exists i :: 0 <= i < |LevelOrder(root)| && LevelOrder(root)[i] == n &&
                  forall j :: 0 <= j < i ==> !q(LevelOrder(root)[j])
  {
    var lo := LevelOrder(root);
    FirstMatchSpec(lo, q);
    forall x ensures x in lo <==> InSubtree(root, x) {
      LevelOrderMembers(root, x);
    }
  }
}
