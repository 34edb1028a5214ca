/**
 * The task listing: the rows of the listing table of a contest page become
 * tasks (api/task.go:50-98, copied at cmd/cli/main.go:149-200). The page is the
 * parsed tree; resolving an href against the listing URL is a parameter that may
 * fail.
 */
module TaskListing {
  import opened Outcomes
  import opened Dom
  import opened TreeOrder
  import opened HtmlQuery
  import opened Tasks

  /** The error findOneNode returns when nothing matches. */
  const NodeNotFound: string := "node not found"

  /** The listing body query: a tbody element whose parent is a table element. */
  function IsTaskTable(doc: Node): Item -> bool
  {
    (x: Item) => ParentIsElement(doc, x, "table") && IsElement(x.node, "tbody")
  }

  /** The first-cell query of a row: a td element that is a direct child of the row. */
  function IsCell(tr: Item): Item -> bool
  {
    (x: Item) => IsChildOf(x, tr.path) && IsElement(x.node, "td")
  }

  /** The text query of an anchor: a text node that is a direct child of it. */
  function IsLabel(a: Item): Item -> bool
  {
    (x: Item) => IsChildOf(x, a.path) && x.node.kind == TextNode
  }

  /**
   * The anchor query of a row: an a element whose parent is the row's first cell,
   * with an href attribute and a direct text child. When the row has no cell the
   * parent test compares against nil, which only a parentless node passes.
   */
  function IsTaskLink(td: Option<Item>): Item -> bool
  {
    (x: Item) => IsElement(x.node, "a") &&
                 (if td.Some? then IsChildOf(x, td.value.path) else |x.path| == 0) &&
                 FirstAttr(x.node.attrs, "href").Some? &&
                 FirstMatch(LevelOrder(x), IsLabel(x)).Some?
  }

  /** What a row yields: the raw href and the index text. */
  datatype Entry = Entry(href: string, text: string)

  /** The entry of a row as the loop body finds it, or None when the row is skipped. */
  function RowEntry(tr: Item): Option<Entry>
  {
    var td := FirstMatch(LevelOrder(tr), IsCell(tr));
    match FirstMatch(LevelOrder(tr), IsTaskLink(td))
    case None => None
    case Some(a) =>
      var textNode := FirstMatch(LevelOrder(a), IsLabel(a));
      if FirstAttr(a.node.attrs, "href").Some? && textNode.Some? then
        Some(Entry(FirstAttr(a.node.attrs, "href").value, textNode.value.node.data))
      else None
  }

  /** The index of the first node of `ns` that passes `p`. */
  function FirstIndex(ns: seq<Node>, p: Node -> bool): (r: Option<nat>)
    ensures r.None? <==> forall j :: 0 <= j < |ns| ==> !p(ns[j])
    ensures r.Some? ==> r.value < |ns| && p(ns[r.value]) && forall j :: 0 <= j < r.value ==> !p(ns[j])
    decreases |ns|
  {
    if ns == [] then None
    else if p(ns[0]) then Some(0)
    else match FirstIndex(ns[1..], p)
      case None => None
      case Some(j) => Some(j + 1)
  }

  predicate IsTd(n: Node)
  {
    IsElement(n, "td")
  }

  predicate IsText(n: Node)
  {
    n.kind == TextNode
  }

  /** An anchor that makes a row a task: an a element with an href and a text child. */
  predicate IsLink(n: Node)
  {
    IsElement(n, "a") && FirstAttr(n.attrs, "href").Some? && FirstIndex(n.children, IsText).Some?
  }

  /**
   * Reference definition of a row on the row node alone: its first td child, the
   * first a child of that cell with an href and a text child, and that anchor's
   * href and first text child.
   */
  function RowByChildren(tr: Node): Option<Entry>
  {
    match FirstIndex(tr.children, IsTd)
    case None => None
    case Some(c) =>
      match FirstIndex(tr.children[c].children, IsLink)
      case None => None
      case Some(k) =>
        var a := tr.children[c].children[k];
        Some(Entry(FirstAttr(a.attrs, "href").value, a.children[FirstIndex(a.children, IsText).value].data))
  }

  /** A task before its samples are fetched: the resolved URL and the index text. */
  datatype TaskRef = TaskRef(url: string, index: string)

  /** One loop iteration on the listing so far: skip a row without an entry, abort on an href that fails to resolve. */
  function Extend(prev: Result<seq<TaskRef>, string>, e: Option<Entry>, resolve: string -> Result<string, string>): Result<seq<TaskRef>, string>
  {
    match prev
    case Failure(err) => Failure(err)
    case Success(ts) =>
      match e
      case None => Success(ts)
      case Some(entry) =>
        match resolve(entry.href)
        case Failure(err) => Failure(err)
        case Success(u) => Success(ts + [TaskRef(u, entry.text)])
  }

  /** The loop over the rows, row by row in tbody child order; `read` gives a row's entry. */
  function Listing(rows: seq<Item>, read: Item -> Option<Entry>, resolve: string -> Result<string, string>): Result<seq<TaskRef>, string>
    decreases |rows|
  {
    if rows == [] then Success([])
    else Extend(Listing(rows[..|rows| - 1], read, resolve), read(rows[|rows| - 1]), resolve)
  }

  /** The whole extraction on a parsed listing page. */
  function TaskList(doc: Node, resolve: string -> Result<string, string>): Result<seq<TaskRef>, string>
  {
    match FirstMatch(LevelOrder(Item([], doc)), IsTaskTable(doc))
    case None => Failure(NodeNotFound)
    case Some(tbody) => Listing(ChildItems(tbody), RowEntry, resolve)
  }

  /** The searches of one loop iteration: the first cell, the anchor under it, its href and its text. */
  method ReadRow(tr: Item) returns (e: Option<Entry>)
    ensures e == RowEntry(tr)
  {
    var td := FindOneNode(tr, IsCell(tr));
    var a := FindOneNode(tr, IsTaskLink(td));
    if a.None? {
      return None;
    }
    var href, ok := GetAttr(a.value.node, "href");
    var textNode := FindOneNode(a.value, IsLabel(a.value));
    if ok && textNode.Some? {
      e := Some(Entry(href, textNode.value.node.data));
    } else {
      e := None;
    }
  }

  /** One more row extends the listing as the loop body does. */
  lemma ListingSnoc(rows: seq<Item>, i: nat, resolve: string -> Result<string, string>)
    requires i < |rows|
    ensures Listing(rows[..i + 1], RowEntry, resolve) == Extend(Listing(rows[..i], RowEntry, resolve), RowEntry(rows[i]), resolve)
  {
    assert rows[..i + 1][..i] == rows[..i];
  }

  /** Once the listing of a prefix has failed, the listing of the whole fails with the same error. */
  lemma {:induction false} ListingAborted(rows: seq<Item>, i: nat, resolve: string -> Result<string, string>)
    requires i <= |rows| && Listing(rows[..i], RowEntry, resolve).Failure?
    ensures Listing(rows, RowEntry, resolve) == Listing(rows[..i], RowEntry, resolve)
    decreases |rows| - i
  {
    if i < |rows| {
      ListingSnoc(rows, i, resolve);
      ListingAborted(rows, i + 1, resolve);
    } else {
      assert rows[..i] == rows;
    }
  }

  /** The tasks carry the listed URLs and index texts, in order, and no samples yet. */
  predicate Describes(tasks: seq<Task>, refs: seq<TaskRef>)
    reads tasks
  {
    |tasks| == |refs| &&
    forall j :: 0 <= j < |tasks| ==>
      tasks[j].url == refs[j].url && tasks[j].index == refs[j].index && tasks[j].sampleIOs == []
  }

  /** `append(taskList, &Task{URL: url, Index: index})`. */
  method AppendTask(tasks: seq<Task>, ghost refs: seq<TaskRef>, url: string, index: string) returns (more: seq<Task>)
    requires Describes(tasks, refs)
    ensures |more| == |tasks| + 1 && more[..|tasks|] == tasks
    ensures Describes(more, refs + [TaskRef(url, index)])
  {
    var t := new Task(url, index);
    more := tasks + [t];
  }

  /** Reads row `i`, whose entry extends the listing of the rows before it. */
  method ReadNextRow(rows: seq<Item>, i: nat, resolve: string -> Result<string, string>) returns (e: Option<Entry>)
    requires i < |rows|
    ensures Listing(rows[..i + 1], RowEntry, resolve) == Extend(Listing(rows[..i], RowEntry, resolve), e, resolve)
  {
    ListingSnoc(rows, i, resolve);
    e := ReadRow(rows[i]);
  }

  /**
   * The loop over the rows of the listing body: each row with an entry becomes a
   * new task, and the first href that fails to resolve aborts with its error.
   */
  method CollectTasks(rows: seq<Item>, resolve: string -> Result<string, string>) returns (r: Result<seq<Task>, string>)
    ensures r.Success? <==> Listing(rows, RowEntry, resolve).Success?
    ensures r.Failure? ==> r.error == Listing(rows, RowEntry, resolve).error
    ensures r.Success? ==> Describes(r.value, Listing(rows, RowEntry, resolve).value)
  {
    var tasks: seq<Task> := [];
    ghost var refs: seq<TaskRef> := [];
    var i := 0;
    while i < |rows|
      invariant 0 <= i <= |rows|
      invariant Listing(rows[..i], RowEntry, resolve) == Success(refs)
      invariant Describes(tasks, refs)
    {
      var e := ReadNextRow(rows, i, resolve);
      if e.Some? {
        var resolved := resolve(e.value.href);
        if resolved.Failure? {
          ListingAborted(rows, i + 1, resolve);
          return Failure(resolved.error);
        }
        tasks := AppendTask(tasks, refs, resolved.value, e.value.text);
        refs := refs + [TaskRef(resolved.value, e.value.text)];
      }
      i := i + 1;
    }
    assert rows[..|rows|] == rows;
    r := Success(tasks);
  }

  /**
   * `FetchTaskList` from the parsed page on: a failed fetch or parse is returned as
   * is, a page without `table > tbody` gives the not-found error, and otherwise each
   * row with an entry becomes a new task with a resolved URL, the index text and
   * no samples.
   */
  method FetchTaskList(page: Result<Node, string>, resolve: string -> Result<string, string>)
    returns (r: Result<seq<Task>, string>)
    ensures page.Failure? ==> r == Failure(page.error)
    ensures page.Success? ==> (r.Success? <==> TaskList(page.value, resolve).Success?)
    ensures page.Success? && r.Failure? ==> r.error == TaskList(page.value, resolve).error
    ensures page.Success? && r.Success? ==> Describes(r.value, TaskList(page.value, resolve).value)
  {
    if page.Failure? {
      return Failure(page.error);
    }
    var doc := page.value;
    var tbody := FindOneNode(Item([], doc), IsTaskTable(doc));
    if tbody.None? {
      return Failure(NodeNotFound);
    }
    r := CollectTasks(ChildItems(tbody.value), resolve);
  }

  /** A search over the children of a node is the first child whose node passes the matching node test. */
  lemma FirstMatchChildren(it: Item, q: Item -> bool, p: Node -> bool)
    requires forall k :: 0 <= k < |it.node.children| ==> q(ChildItems(it)[k]) == p(it.node.children[k])
    ensures FirstMatch(ChildItems(it), q) ==
      match FirstIndex(it.node.children, p)
      case None => None
      case Some(k) => Some(ChildItems(it)[k])
  {
    var items := ChildItems(it);
    FirstMatchSpec(items, q);
    var fi := FirstIndex(it.node.children, p);
    if fi.Some? {
      var k := fi.value;
      assert q(items[k]);
      var i :| 0 <= i < |items| && items[i] == FirstMatch(items, q).value && q(items[i]) &&
               forall j :: 0 <= j < i ==> !q(items[j]);
      assert i == k;
    }
  }

  /** A breadth-first search for direct children is the first child whose node passes the matching node test. */
  lemma ChildSearch(it: Item, q: Item -> bool, p: Node -> bool)
    requires forall x :: q(x) ==> IsChildOf(x, it.path)
    requires forall k :: 0 <= k < |it.node.children| ==> q(ChildItems(it)[k]) == p(it.node.children[k])
    ensures FirstMatch(LevelOrder(it), q) ==
      match FirstIndex(it.node.children, p)
      case None => None
      case Some(k) => Some(ChildItems(it)[k])
  {
    FirstMatchAmongChildren(it, q);
    FirstMatchChildren(it, q, p);
  }

  /** The child `k` of a node is a direct child of it. */
  lemma ChildItemIsChild(it: Item, k: nat)
    requires k < |it.node.children|
    ensures IsChildOf(ChildItems(it)[k], it.path)
  {
    assert (it.path + [k])[..|it.path|] == it.path;
  }

  /** The label search of an anchor finds its first text child. */
  lemma LabelSearch(a: Item)
    ensures FirstMatch(LevelOrder(a), IsLabel(a)) ==
      match FirstIndex(a.node.children, IsText)
      case None => None
      case Some(k) => Some(ChildItems(a)[k])
  {
    forall k | 0 <= k < |a.node.children|
      ensures IsLabel(a)(ChildItems(a)[k]) == IsText(a.node.children[k])
    {
      ChildItemIsChild(a, k);
    }
    ChildSearch(a, IsLabel(a), IsText);
  }

  /** The anchor search under the first cell `c` of a row is the first child of that cell passing IsLink. */
  lemma AnchorSearch(tr: Item, c: nat)
    requires c < |tr.node.children|
    ensures var td := ChildItems(tr)[c];
      FirstMatch(LevelOrder(tr), IsTaskLink(Some(td))) ==
        match FirstIndex(td.node.children, IsLink)
        case None => None
        case Some(k) => Some(ChildItems(td)[k])
  {
    var td := ChildItems(tr)[c];
    var q := IsTaskLink(Some(td));
    FirstMatchAmongChildrenOfChild(tr, c, q);
    forall k | 0 <= k < |td.node.children|
      ensures q(ChildItems(td)[k]) == IsLink(td.node.children[k])
    {
      var x := ChildItems(td)[k];
      ChildItemIsChild(td, k);
      LabelSearch(x);
    }
    FirstMatchChildren(td, q, IsLink);
  }

  /**
   * The row entry found by breadth-first searches with parent tests equals the
   * reference definition on the row node: first td child, its first a child with an
   * href and a text child, that anchor's first text child.
   */
  lemma RowEntryByChildren(tr: Item)
    requires |tr.path| > 0
    ensures RowEntry(tr) == RowByChildren(tr.node)
  {
    forall k | 0 <= k < |tr.node.children|
      ensures IsCell(tr)(ChildItems(tr)[k]) == IsTd(tr.node.children[k])
    {
      ChildItemIsChild(tr, k);
    }
    ChildSearch(tr, IsCell(tr), IsTd);
    var c := FirstIndex(tr.node.children, IsTd);
    if c.None? {
      var q := IsTaskLink(None);
      FindOneSpec(tr, q);
      forall x | InSubtree(tr, x) ensures !q(x) {
      }
      assert FirstMatch(LevelOrder(tr), q).None?;
    } else {
      var td := ChildItems(tr)[c.value];
      AnchorSearch(tr, c.value);
      var k := FirstIndex(td.node.children, IsLink);
      if k.Some? {
        var a := ChildItems(td)[k.value];
        LabelSearch(a);
      }
    }
  }

  /** The entries of the rows that carry one, in row order. */
  function Entries(rows: seq<Item>, read: Item -> Option<Entry>): (es: seq<Entry>)
    ensures |es| <= |rows|
    decreases |rows|
  {
    if rows == [] then []
    else (if read(rows[0]).Some? then [read(rows[0]).value] else []) + Entries(rows[1..], read)
  }

  lemma {:induction false} EntriesAppend(a: seq<Item>, b: seq<Item>, read: Item -> Option<Entry>)
    ensures Entries(a + b, read) == Entries(a, read) + Entries(b, read)
    decreases |a|
  {
    if a == [] {
      assert a + b == b;
    } else {
      var head := if read(a[0]).Some? then [read(a[0]).value] else [];
      assert (a + b)[0] == a[0] && (a + b)[1..] == a[1..] + b;
      assert Entries(a + b, read) == head + Entries(a[1..] + b, read);
      EntriesAppend(a[1..], b, read);
      assert Entries(a, read) == head + Entries(a[1..], read);
    }
  }

  /** A row without an entry can be dropped anywhere without changing the entries. */
  lemma SkippedRowIgnored(a: seq<Item>, x: Item, b: seq<Item>, read: Item -> Option<Entry>)
    requires read(x).None?
    ensures Entries(a + [x] + b, read) == Entries(a + b, read)
  {
    EntriesAppend(a + [x], b, read);
    EntriesAppend(a, [x], read);
    EntriesAppend(a, b, read);
    assert Entries([x], read) == [] by {
      assert [x][1..] == [];
    }
  }

  /** Every row contributes exactly when every row carries an entry. */
  lemma {:induction false} EntriesCount(rows: seq<Item>, read: Item -> Option<Entry>)
    ensures |Entries(rows, read)| == |rows| <==> forall i :: 0 <= i < |rows| ==> read(rows[i]).Some?
    decreases |rows|
  {
    if rows != [] {
      EntriesCount(rows[1..], read);
      assert forall i :: 1 <= i < |rows| ==> rows[i] == rows[1..][i - 1];
    }
  }

  /** Resolving a list of entries in order, stopping at the first href that does not resolve. */
  function ResolveAll(es: seq<Entry>, resolve: string -> Result<string, string>): Result<seq<TaskRef>, string>
    decreases |es|
  {
    if es == [] then Success([])
    else Extend(ResolveAll(es[..|es| - 1], resolve), Some(es[|es| - 1]), resolve)
  }

  /** The listing of the rows is the resolution of their entries: rows without one play no part. */
  lemma {:induction false} ListingResolvesEntries(rows: seq<Item>, read: Item -> Option<Entry>, resolve: string -> Result<string, string>)
    ensures Listing(rows, read, resolve) == ResolveAll(Entries(rows, read), resolve)
    decreases |rows|
  {
    if rows != [] {
      var init, last := rows[..|rows| - 1], rows[|rows| - 1];
      ListingResolvesEntries(init, read, resolve);
      assert rows == init + [last];
      EntriesAppend(init, [last], read);
      assert [last][1..] == [];
      var es0 := Entries(init, read);
      if read(last).Some? {
        var es := es0 + [read(last).value];
        assert Entries(rows, read) == es;
        assert es[..|es| - 1] == es0;
      } else {
        assert Entries(rows, read) == es0;
      }
    }
  }

  /**
   * Resolution succeeds exactly when every href resolves, and then gives one task per
   * entry in order, with the resolved URL and the entry's text; otherwise it fails
   * with the error of the first href that does not resolve.
   */
  lemma {:induction false} ResolveAllSpec(es: seq<Entry>, resolve: string -> Result<string, string>)
    ensures ResolveAll(es, resolve).Success? <==> forall i :: 0 <= i < |es| ==> resolve(es[i].href).Success?
    ensures ResolveAll(es, resolve).Success? ==>
      |ResolveAll(es, resolve).value| == |es| &&
      forall i :: 0 <= i < |es| ==> ResolveAll(es, resolve).value[i] == TaskRef(resolve(es[i].href).value, es[i].text)
    ensures ResolveAll(es, resolve).Failure? ==>
      exists i :: 0 <= i < |es| && resolve(es[i].href) == Failure(ResolveAll(es, resolve).error) &&
                  forall j :: 0 <= j < i ==> resolve(es[j].href).Success?
    decreases |es|
  {
    if es != [] {
      var n := |es| - 1;
      var init, e := es[..n], es[n];
      ResolveAllSpec(init, resolve);
      assert forall i :: 0 <= i < n ==> es[i] == init[i];
      var prev := ResolveAll(init, resolve);
      if prev.Failure? {
        var i :| 0 <= i < n && resolve(init[i].href) == Failure(prev.error) &&
                 forall j :: 0 <= j < i ==> resolve(init[j].href).Success?;
        assert es[i] == init[i];
      } else if resolve(e.href).Failure? {
        assert !resolve(es[n].href).Success?;
      }
    }
  }

  /**
   * The listing succeeds exactly when every entry's href resolves, and then holds
   * one task per entry in row order, with the resolved URL and the entry's text;
   * otherwise it fails with the error of the first entry whose href does not resolve.
   */
  lemma ListingSpec(rows: seq<Item>, read: Item -> Option<Entry>, resolve: string -> Result<string, string>)
    ensures var es := Entries(rows, read);
      Listing(rows, read, resolve).Success? <==> forall i :: 0 <= i < |es| ==> resolve(es[i].href).Success?
    ensures var es := Entries(rows, read);
      Listing(rows, read, resolve).Success? ==>
        |Listing(rows, read, resolve).value| == |es| &&
        forall i :: 0 <= i < |es| ==> Listing(rows, read, resolve).value[i] == TaskRef(resolve(es[i].href).value, es[i].text)
    ensures var es := Entries(rows, read);
      Listing(rows, read, resolve).Failure? ==>
        exists i :: 0 <= i < |es| && resolve(es[i].href) == Failure(Listing(rows, read, resolve).error) &&
                    forall j :: 0 <= j < i ==> resolve(es[j].href).Success?
  {
    ListingResolvesEntries(rows, read, resolve);
    ResolveAllSpec(Entries(rows, read), resolve);
  }

  /** Without a `table > tbody` in the page the listing fails with the not-found error. */
  lemma NoTableNoTasks(doc: Node, resolve: string -> Result<string, string>)
    requires forall x :: InSubtree(Item([], doc), x) ==> !IsTaskTable(doc)(x)
    ensures TaskList(doc, resolve) == Failure(NodeNotFound)
  {
    FindOneSpec(Item([], doc), IsTaskTable(doc));
  }

  /** The rows read are the children of the first `table > tbody` of the page in breadth-first order. */
  lemma TaskTableFound(doc: Node, resolve: string -> Result<string, string>)
    requires exists x :: InSubtree(Item([], doc), x) && IsTaskTable(doc)(x)
    ensures var tbody := FirstMatch(LevelOrder(Item([], doc)), IsTaskTable(doc));
      tbody.Some? && IsElement(tbody.value.node, "tbody") && ParentIsElement(doc, tbody.value, "table") &&
      TaskList(doc, resolve) == Listing(ChildItems(tbody.value), RowEntry, resolve)
  {
    FindOneSpec(Item([], doc), IsTaskTable(doc));
  }
}
