/**
 * Breadth-first order of a subtree, defined twice: as the output of a FIFO queue
 * (`Bfs`, the shape of the loops in the query engine) and level by level
 * (`LevelOrder`, the root, then its children, then its grandchildren, ...).
 * The two are proved equal, and the level definition is used to state what a
 * search over the subtree finds.
 */
module TreeOrder {
  import opened Outcomes
  import opened Dom

  function Size(n: Node): nat
    decreases n, 1
  {
    1 + SizeAll(n.children)
  }

  function SizeAll(ns: seq<Node>): nat
    decreases ns, 0
  {
    if ns == [] then 0 else Size(ns[0]) + SizeAll(ns[1..])
  }

  /** The number of nodes in the subtrees of a queue of references. */
  function Weight(items: seq<Item>): nat
    decreases |items|
  {
    if items == [] then 0 else Size(items[0].node) + Weight(items[1..])
  }

  lemma {:induction false} WeightAppend(a: seq<Item>, b: seq<Item>)
    ensures Weight(a + b) == Weight(a) + Weight(b)
    decreases |a|
  {
    if a != [] {
      assert (a + b)[1..] == a[1..] + b;
      WeightAppend(a[1..], b);
    } else {
      assert a + b == b;
    }
  }

  lemma {:induction false} WeightOfNodes(items: seq<Item>, ns: seq<Node>)
    requires |items| == |ns|
    requires forall i :: 0 <= i < |ns| ==> items[i].node == ns[i]
    ensures Weight(items) == SizeAll(ns)
    decreases |ns|
  {
    if ns != [] {
      WeightOfNodes(items[1..], ns[1..]);
    }
  }

  /** The children of a node weigh one less than the node. */
  lemma WeightChildren(it: Item)
    ensures Weight(ChildItems(it)) == Size(it.node) - 1
  {
    WeightOfNodes(ChildItems(it), it.node.children);
  }

  /** The next level: the children of every reference, in order. */
  function Expand(ps: seq<Item>): seq<Item>
    decreases |ps|
  {
    if ps == [] then [] else ChildItems(ps[0]) + Expand(ps[1..])
  }

  lemma {:induction false} WeightExpand(ps: seq<Item>)
    ensures Weight(Expand(ps)) + |ps| == Weight(ps)
    decreases |ps|
  {
    if ps != [] {
      WeightExpand(ps[1..]);
      WeightAppend(ChildItems(ps[0]), Expand(ps[1..]));
      WeightChildren(ps[0]);
    }
  }

  lemma BfsMeasure(queue: seq<Item>)
    requires queue != []
    ensures Weight(queue[1..] + ChildItems(queue[0])) < Weight(queue)
  {
    WeightAppend(queue[1..], ChildItems(queue[0]));
    WeightChildren(queue[0]);
  }

  /** What a FIFO queue emits: pop the front, append its children at the back. */
  function Bfs(queue: seq<Item>): seq<Item>
    decreases Weight(queue)
  {
    if queue == [] then []
    else
      BfsMeasure(queue);
      [queue[0]] + Bfs(queue[1..] + ChildItems(queue[0]))
  }

  /** Level by level: this level, then the levels below it. */
  function Levels(ps: seq<Item>): seq<Item>
    decreases Weight(ps)
  {
    if ps == [] then []
    else
      WeightExpand(ps);
      ps + Levels(Expand(ps))
  }

  /** The breadth-first order of the subtree at `root`. */
  function LevelOrder(root: Item): seq<Item>
  {
    Levels([root])
  }

  /** After a queue has emitted its current contents, it holds their children. */
  lemma {:induction false} BfsAppend(ps: seq<Item>, qs: seq<Item>)
    ensures Bfs(ps + qs) == ps + Bfs(qs + Expand(ps))
    decreases |ps|
  {
    if ps == [] {
      assert ps + qs == qs && qs + Expand(ps) == qs;
    } else {
      var p, tail := ps[0], ps[1..];
      var queue := qs + ChildItems(p);
      assert (ps + qs)[0] == p;
      assert (ps + qs)[1..] + ChildItems(p) == tail + queue;
      assert Bfs(ps + qs) == [p] + Bfs(tail + queue);
      BfsAppend(tail, queue);
      assert Expand(ps) == ChildItems(p) + Expand(tail);
      assert queue + Expand(tail) == qs + Expand(ps);
      assert [p] + tail == ps;
    }
  }

  /** The queue loop emits exactly the level order. */
  lemma {:induction false} BfsIsLevels(ps: seq<Item>)
    ensures Bfs(ps) == Levels(ps)
    decreases Weight(ps)
  {
    if ps != [] {
      BfsAppend(ps, []);
      assert ps + [] == ps && [] + Expand(ps) == Expand(ps);
      WeightExpand(ps);
      BfsIsLevels(Expand(ps));
    }
  }

  lemma BfsIsLevelOrder(root: Item)
    ensures Bfs([root]) == LevelOrder(root)
  {
    BfsIsLevels([root]);
  }

  /** The references of `items` that satisfy `q`, in order (a side-effect-free query). */
  function Filter(items: seq<Item>, q: Item -> bool): seq<Item>
    decreases |items|
  {
    if items == [] then []
    else (if q(items[0]) then [items[0]] else []) + Filter(items[1..], q)
  }

  /** The first reference of `items` that satisfies `q`, if any. */
  function FirstMatch(items: seq<Item>, q: Item -> bool): Option<Item>
    decreases |items|
  {
    if items == [] then None
    else if q(items[0]) then Some(items[0])
    else FirstMatch(items[1..], q)
  }

  /**
   * A query that may change state `S` as it goes (a Go closure writing captured
   * variables), applied once to each reference of `items` in order: the final
   * state and the references it accepted.
   */
  function Scan<S>(query: (S, Item) -> (S, bool), s0: S, items: seq<Item>): (S, seq<Item>)
    decreases |items|
  {
    if items == [] then (s0, [])
    else
      var prev := Scan(query, s0, items[..|items| - 1]);
      var last := items[|items| - 1];
      var step := query(prev.0, last);
      (step.0, if step.1 then prev.1 + [last] else prev.1)
  }

  /** A query that ignores and keeps the state. */
  function Lift<S>(q: Item -> bool): (S, Item) -> (S, bool)
  {
    (s: S, x: Item) => (s, q(x))
  }

  lemma {:induction false} FilterAppend(a: seq<Item>, b: seq<Item>, q: Item -> bool)
    ensures Filter(a + b, q) == Filter(a, q) + Filter(b, q)
    decreases |a|
  {
    if a == [] {
      assert a + b == b;
    } else {
      assert (a + b)[0] == a[0] && (a + b)[1..] == a[1..] + b;
      FilterAppend(a[1..], b, q);
    }
  }

  /** Filter keeps exactly the satisfying references, in their order. */
  lemma {:induction false} FilterSpec(items: seq<Item>, q: Item -> bool)
    ensures forall x :: x in Filter(items, q) <==> x in items && q(x)
    ensures Filter(items, q) == [] <==> forall i :: 0 <= i < |items| ==> !q(items[i])
    decreases |items|
  {
    if items != [] {
      FilterSpec(items[1..], q);
      assert items == [items[0]] + items[1..];
      assert forall i :: 1 <= i < |items| ==> items[i] == items[1..][i - 1];
    }
  }

  /**
   * FirstMatch finds the earliest satisfying reference, and finds nothing exactly
   * when no reference satisfies the query.
   */
  lemma {:induction false} FirstMatchSpec(items: seq<Item>, q: Item -> bool)
    ensures FirstMatch(items, q).None? <==> forall i :: 0 <= i < |items| ==> !q(items[i])
    ensures FirstMatch(items, q).Some? ==>
      exists i :: 0 <= i < |items| && items[i] == FirstMatch(items, q).value && q(items[i]) &&
                  forall j :: 0 <= j < i ==> !q(items[j])
    decreases |items|
  {
    if items != [] && !q(items[0]) {
      FirstMatchSpec(items[1..], q);
      assert forall i :: 1 <= i < |items| ==> items[i] == items[1..][i - 1];
      if FirstMatch(items, q).Some? {
        var i :| 0 <= i < |items[1..]| && items[1..][i] == FirstMatch(items, q).value && q(items[1..][i]) &&
                 forall j :: 0 <= j < i ==> !q(items[1..][j]);
        assert items[i + 1] == FirstMatch(items, q).value;
        assert forall j :: 0 <= j < i + 1 ==> !q(items[j]);
      }
    } else if items != [] {
      assert items[0] == FirstMatch(items, q).value;
    }
  }

  /** The first match is the head of the list of all matches. */
  lemma {:induction false} FirstMatchIsFirstOfFilter(items: seq<Item>, q: Item -> bool)
    ensures FirstMatch(items, q) == if Filter(items, q) == [] then None else Some(Filter(items, q)[0])
    decreases |items|
  {
    if items != [] {
      FirstMatchIsFirstOfFilter(items[1..], q);
    }
  }

  /** With a state-free query, Scan keeps the state and accepts what Filter keeps. */
  lemma {:induction false} ScanLift<S>(q: Item -> bool, s0: S, items: seq<Item>)
    ensures Scan(Lift(q), s0, items) == (s0, Filter(items, q))
    decreases |items|
  {
    if items != [] {
      var init := items[..|items| - 1];
      var last := items[|items| - 1];
      ScanLift(q, s0, init);
      assert init + [last] == items;
      FilterAppend(init, [last], q);
      assert Filter([last], q) == (if q(last) then [last] else []) + Filter([], q);
      assert Filter([last], q) == if q(last) then [last] else [];
      assert Filter(items, q) == Filter(init, q) + Filter([last], q);
      assert Lift<S>(q)(s0, last) == (s0, q(last));
      assert Scan(Lift(q), s0, items) == (s0, if q(last) then Filter(init, q) + [last] else Filter(init, q));
      if !q(last) {
        assert Filter(init, q) + [] == Filter(init, q);
      }
    } else {
      assert Scan(Lift(q), s0, items) == (s0, []);
      assert Filter(items, q) == [];
    }
  }

  /** The root comes first in its own breadth-first order. */
  lemma RootFirst(root: Item)
    ensures LevelOrder(root) != [] && LevelOrder(root)[0] == root
  {
    assert LevelOrder(root) == [root] + Levels(Expand([root]));
  }

  predicate SameDepth(ps: seq<Item>, d: nat)
  {
    forall i :: 0 <= i < |ps| ==> |ps[i].path| == d
  }

  /** Paths of distinct positions are distinct: no node is listed twice. */
  predicate NoDupPaths(ps: seq<Item>)
  {
    forall i, j :: 0 <= i < j < |ps| ==> ps[i].path != ps[j].path
  }

  /** Every reference of the next level is a child of one reference of this level. */
  lemma {:induction false} ExpandMember(ps: seq<Item>, c: Item)
    ensures c in Expand(ps) <==>
      exists i, k :: 0 <= i < |ps| && 0 <= k < |ps[i].node.children| && c == ChildItems(ps[i])[k]
    decreases |ps|
  {
    if ps != [] {
      ExpandMember(ps[1..], c);
      if c in Expand(ps[1..]) {
        var i, k :| 0 <= i < |ps[1..]| && 0 <= k < |ps[1..][i].node.children| && c == ChildItems(ps[1..][i])[k];
        assert ps[i + 1] == ps[1..][i];
      }
      if exists i, k :: 0 <= i < |ps| && 0 <= k < |ps[i].node.children| && c == ChildItems(ps[i])[k] {
        var i, k :| 0 <= i < |ps| && 0 <= k < |ps[i].node.children| && c == ChildItems(ps[i])[k];
        if i > 0 {
          assert ps[1..][i - 1] == ps[i];
        }
      }
    }
  }

  lemma ExpandDepth(ps: seq<Item>, d: nat)
    requires SameDepth(ps, d)
    ensures SameDepth(Expand(ps), d + 1)
  {
    forall j | 0 <= j < |Expand(ps)| ensures |Expand(ps)[j].path| == d + 1 {
      ExpandMember(ps, Expand(ps)[j]);
    }
  }

  /** Everything listed from a level of depth d lies at depth d or below. */
  lemma {:induction false} LevelsDepth(ps: seq<Item>, d: nat)
    requires SameDepth(ps, d)
    ensures forall i :: 0 <= i < |Levels(ps)| ==> |Levels(ps)[i].path| >= d
    decreases Weight(ps)
  {
    if ps != [] {
      WeightExpand(ps);
      ExpandDepth(ps, d);
      LevelsDepth(Expand(ps), d + 1);
      assert Levels(ps) == ps + Levels(Expand(ps));
    }
  }

  /** The level order lists exactly the subtrees of the starting level. */
  lemma {:induction false} LevelsMembers(ps: seq<Item>, x: Item)
    ensures x in Levels(ps) <==> exists i :: 0 <= i < |ps| && InSubtree(ps[i], x)
    decreases Weight(ps)
  {
    if ps != [] {
      var e := Expand(ps);
      WeightExpand(ps);
      LevelsMembers(e, x);
      assert Levels(ps) == ps + Levels(e);
      if x in ps {
        var i :| 0 <= i < |ps| && ps[i] == x;
        InSubtreeRefl(x);
      } else if x in Levels(e) {
        var j :| 0 <= j < |e| && InSubtree(e[j], x);
        ExpandMember(ps, e[j]);
        var i, k :| 0 <= i < |ps| && 0 <= k < |ps[i].node.children| && e[j] == ChildItems(ps[i])[k];
        SubtreeUnfold(ps[i], x);
      }
      if exists i :: 0 <= i < |ps| && InSubtree(ps[i], x) {
        var i :| 0 <= i < |ps| && InSubtree(ps[i], x);
        SubtreeUnfold(ps[i], x);
        if x != ps[i] {
          var k :| 0 <= k < |ps[i].node.children| && InSubtree(ChildItems(ps[i])[k], x);
          ExpandMember(ps, ChildItems(ps[i])[k]);
          var j :| 0 <= j < |e| && e[j] == ChildItems(ps[i])[k];
        }
      }
    }
  }

  /** A node is listed by the breadth-first order of `root` exactly when it is in root's subtree. */
  lemma LevelOrderMembers(root: Item, x: Item)
    ensures x in LevelOrder(root) <==> InSubtree(root, x)
  {
    LevelsMembers([root], x);
  }

  lemma ChildItemsShape(it: Item)
    ensures NoDupPaths(ChildItems(it)) && SameDepth(ChildItems(it), |it.path| + 1)
    ensures forall k :: 0 <= k < |ChildItems(it)| ==> IsChildOf(ChildItems(it)[k], it.path)
  {
    var cs := ChildItems(it);
    forall i, j | 0 <= i < j < |cs| ensures cs[i].path != cs[j].path {
      assert cs[i].path[|it.path|] == i && cs[j].path[|it.path|] == j;
    }
    forall k | 0 <= k < |cs| ensures IsChildOf(cs[k], it.path) {
      assert cs[k].path[..|cs[k].path| - 1] == it.path;
    }
  }

  /** The children of distinct positions are distinct positions. */
  lemma {:induction false} ExpandNoDup(ps: seq<Item>, d: nat)
    requires NoDupPaths(ps) && SameDepth(ps, d)
    ensures NoDupPaths(Expand(ps))
    decreases |ps|
  {
    if ps != [] {
      var a := ChildItems(ps[0]);
      var rest := ps[1..];
      var b := Expand(rest);
      ExpandNoDup(rest, d);
      ChildItemsShape(ps[0]);
      forall i, j | 0 <= i < |a| && 0 <= j < |b| ensures a[i].path != b[j].path {
        ExpandMember(rest, b[j]);
        var m, k :| 0 <= m < |rest| && 0 <= k < |rest[m].node.children| && b[j] == ChildItems(rest[m])[k];
        assert rest[m] == ps[m + 1];
        assert b[j].path[..d] == rest[m].path;
        assert a[i].path[..d] == ps[0].path;
      }
      NoDupConcat(a, b);
    }
  }

  lemma NoDupConcat(a: seq<Item>, b: seq<Item>)
    requires NoDupPaths(a) && NoDupPaths(b)
    requires forall i, j :: 0 <= i < |a| && 0 <= j < |b| ==> a[i].path != b[j].path
    ensures NoDupPaths(a + b)
  {
    var s := a + b;
    forall i, j | 0 <= i < j < |s| ensures s[i].path != s[j].path {
      if j < |a| {
        assert s[i] == a[i] && s[j] == a[j];
      } else if i >= |a| {
        assert s[i] == b[i - |a|] && s[j] == b[j - |a|];
      } else {
        assert s[i] == a[i] && s[j] == b[j - |a|];
      }
    }
  }

  lemma {:induction false} LevelsNoDup(ps: seq<Item>, d: nat)
    requires NoDupPaths(ps) && SameDepth(ps, d)
    ensures NoDupPaths(Levels(ps))
    decreases Weight(ps)
  {
    if ps != [] {
      var e := Expand(ps);
      WeightExpand(ps);
      ExpandNoDup(ps, d);
      ExpandDepth(ps, d);
      LevelsNoDup(e, d + 1);
      LevelsDepth(e, d + 1);
      NoDupConcat(ps, Levels(e));
      assert Levels(ps) == ps + Levels(e);
    }
  }

  /** The breadth-first order lists every node of the subtree once. */
  lemma LevelOrderNoDup(root: Item)
    ensures NoDupPaths(LevelOrder(root))
  {
    LevelsNoDup([root], |root.path|);
  }

  /** `LevelAt(ps, k)`: the level k steps below `ps`. */
  function LevelAt(ps: seq<Item>, k: nat): seq<Item>
    decreases k
  {
    if k == 0 then ps else LevelAt(Expand(ps), k - 1)
  }

  lemma FilterNone(items: seq<Item>, q: Item -> bool)
    requires forall i :: 0 <= i < |items| ==> !q(items[i])
    ensures Filter(items, q) == []
  {
    FilterSpec(items, q);
  }

  /** A query that only accepts nodes k levels down finds, in level order, what it finds in that level. */
  lemma {:induction false} FilterAtDepth(ps: seq<Item>, d: nat, k: nat, q: Item -> bool)
    requires SameDepth(ps, d)
    requires forall x :: q(x) ==> |x.path| == d + k
    ensures Filter(Levels(ps), q) == Filter(LevelAt(ps, k), q)
    decreases k
  {
    if ps == [] {
      EmptyLevel(k);
    } else {
      var e := Expand(ps);
      WeightExpand(ps);
      assert Levels(ps) == ps + Levels(e);
      FilterAppend(ps, Levels(e), q);
      ExpandDepth(ps, d);
      if k == 0 {
        BelowLevelRejected(e, d + 1, q);
        assert Filter(ps, q) + [] == Filter(ps, q);
      } else {
        LevelRejected(ps, d, q);
        FilterAtDepth(e, d + 1, k - 1, q);
      }
    }
  }

  lemma LevelRejected(ps: seq<Item>, d: nat, q: Item -> bool)
    requires SameDepth(ps, d)
    requires forall x :: q(x) ==> |x.path| != d
    ensures Filter(ps, q) == []
  {
    forall i | 0 <= i < |ps| ensures !q(ps[i]) {
      assert |ps[i].path| == d;
    }
    FilterNone(ps, q);
  }

  lemma BelowLevelRejected(ps: seq<Item>, d: nat, q: Item -> bool)
    requires SameDepth(ps, d)
    requires forall x :: q(x) ==> |x.path| < d
    ensures Filter(Levels(ps), q) == []
  {
    LevelsDepth(ps, d);
    var l := Levels(ps);
    forall i | 0 <= i < |l| ensures !q(l[i]) {
      assert |l[i].path| >= d;
    }
    FilterNone(l, q);
  }

  lemma {:induction false} EmptyLevel(k: nat)
    ensures LevelAt([], k) == [] && Levels([]) == []
    decreases k
  {
    if k > 0 {
      EmptyLevel(k - 1);
    }
  }

  /** A query that only accepts children of `ps[i]` finds, among the next level, what it finds among those children. */
  lemma {:induction false} FilterChildrenOf(ps: seq<Item>, i: nat, q: Item -> bool)
    requires NoDupPaths(ps) && i < |ps|
    requires forall x :: q(x) ==> IsChildOf(x, ps[i].path)
    ensures Filter(Expand(ps), q) == Filter(ChildItems(ps[i]), q)
    decreases |ps|
  {
    var rest := ps[1..];
    FilterAppend(ChildItems(ps[0]), Expand(rest), q);
    if i == 0 {
      forall j | 0 <= j < |Expand(rest)| ensures !q(Expand(rest)[j]) {
        var c := Expand(rest)[j];
        ExpandMember(rest, c);
        var m, k :| 0 <= m < |rest| && 0 <= k < |rest[m].node.children| && c == ChildItems(rest[m])[k];
        assert rest[m] == ps[m + 1];
        assert c.path[..|c.path| - 1] == rest[m].path;
      }
      FilterNone(Expand(rest), q);
      assert Filter(ChildItems(ps[0]), q) + [] == Filter(ChildItems(ps[0]), q);
    } else {
      ChildItemsShape(ps[0]);
      assert ps[0].path != ps[i].path;
      FilterNone(ChildItems(ps[0]), q);
      assert rest[i - 1] == ps[i];
      FilterChildrenOf(rest, i - 1, q);
    }
  }

  lemma ExpandSingle(root: Item)
    ensures Expand([root]) == ChildItems(root)
    ensures LevelAt([root], 1) == ChildItems(root)
    ensures LevelAt([root], 2) == Expand(ChildItems(root))
  {
    assert [root][1..] == [];
    assert Expand([root]) == ChildItems(root) + Expand([]);
    assert ChildItems(root) + [] == ChildItems(root);
  }

  /** Searching the subtree for a direct child of the root finds the first such child in sibling order. */
  lemma FirstMatchAmongChildren(root: Item, q: Item -> bool)
    requires forall x :: q(x) ==> IsChildOf(x, root.path)
    ensures FirstMatch(LevelOrder(root), q) == FirstMatch(ChildItems(root), q)
  {
    FilterAtDepth([root], |root.path|, 1, q);
    ExpandSingle(root);
    FirstMatchIsFirstOfFilter(LevelOrder(root), q);
    FirstMatchIsFirstOfFilter(ChildItems(root), q);
  }

  /**
   * Searching the subtree for a child of the root's k-th child finds the first
   * such grandchild in sibling order.
   */
  lemma FirstMatchAmongChildrenOfChild(root: Item, k: nat, q: Item -> bool)
    requires k < |root.node.children|
    requires forall x :: q(x) ==> IsChildOf(x, root.path + [k])
    ensures FirstMatch(LevelOrder(root), q) == FirstMatch(ChildItems(ChildItems(root)[k]), q)
  {
    FilterAtDepth([root], |root.path|, 2, q);
    ExpandSingle(root);
    ChildItemsShape(root);
    FilterChildrenOf(ChildItems(root), k, q);
    FirstMatchIsFirstOfFilter(LevelOrder(root), q);
    FirstMatchIsFirstOfFilter(ChildItems(ChildItems(root)[k]), q);
  }

  /** The grandchildren of a node in document order: each child's children in turn. */
  function Grandchildren(root: Item): seq<Item>
  {
    Expand(ChildItems(root))
  }

  /** Searching the subtree for grandchildren of the root goes through them in document order. */
  lemma FirstMatchAmongGrandchildren(root: Item, q: Item -> bool)
    requires forall x :: q(x) ==> |x.path| == |root.path| + 2
    ensures FirstMatch(LevelOrder(root), q) == FirstMatch(Grandchildren(root), q)
  {
    FilterAtDepth([root], |root.path|, 2, q);
    ExpandSingle(root);
    FirstMatchIsFirstOfFilter(LevelOrder(root), q);
    FirstMatchIsFirstOfFilter(Grandchildren(root), q);
  }
}
