/**
 * Tasks and their sample input/output, and the extraction of the samples from a
 * task page (api/task.go:121-188, copied at cmd/cli/main.go:220-288).
 * The HTTP fetch and the HTML parse are replaced by their outcome: the page tree
 * or an error.
 */
module Tasks {
  import opened Outcomes
  import opened Text
  import opened Dom
  import opened TreeOrder
  import opened HtmlQuery

  /**
   * TaskSampleIO. The empty sequence stands for Go's nil slice: strings.Split never
   * returns an empty slice, so a written field is never empty.
   */
  datatype SampleIO = SampleIO(input: seq<string>, output: seq<string>)

  /** "input example" and "output example", the heading markers. */
  const InputMarker: string := "入力例"
  const OutputMarker: string := "出力例"

  /**
   * The candidate test of the callback: it rejects a node only when the node is
   * not an element AND its data is not "section".
   */
  predicate IsCandidate(n: Node)
  {
    !(n.kind != ElementNode && n.data != "section")
  }

  /** So every element is a candidate, whatever its tag, and so is any node whose data is "section". */
  lemma IsCandidateSpec(n: Node)
    ensures IsCandidate(n) <==> n.kind == ElementNode || n.data == "section"
  {
  }

  /** `x` sits two levels below the node at `p` (Go: `x.Parent.Parent == p`). */
  predicate IsGrandchildOf(x: Item, p: Path)
  {
    |x.path| >= 2 && x.path[..|x.path| - 2] == p
  }

  /** `x` is a text node inside a `tag` element that is a direct child of the node at `section`. */
  predicate TextInChild(doc: Node, section: Path, tag: string, x: Item)
  {
    x.node.kind == TextNode && ParentIsElement(doc, x, tag) && IsGrandchildOf(x, section)
  }

  /** A heading line starts with one of the two markers. */
  predicate IsMarkerLine(s: string)
  {
    InputMarker <= s || OutputMarker <= s
  }

  /**
   * The body search accepts any text. A named predicate rather than a lambda, so that
   * the search and the lemmas about it name the same function value.
   */
  predicate AnyText(s: string)
  {
    true
  }

  /** A query for a text node inside a `tag` child of `section` whose data passes `m`. */
  function ChildText(doc: Node, section: Item, tag: string, m: string -> bool): Item -> bool
  {
    (x: Item) => TextInChild(doc, section.path, tag, x) && m(x.node.data)
  }

  /** The heading query of a section (the h3 text). */
  function IsMarkerText(doc: Node, section: Item): Item -> bool
  {
    ChildText(doc, section, "h3", IsMarkerLine)
  }

  /** The body query of a section (the pre text). */
  function IsBodyText(doc: Node, section: Item): Item -> bool
  {
    ChildText(doc, section, "pre", AnyText)
  }

  /**
   * Reference definition on the node itself: child i of `s` is a `tag` element and
   * its child j is a text node whose data passes `m`.
   */
  predicate TextChildAt(s: Node, tag: string, m: string -> bool, i: int, j: int)
  {
    0 <= i < |s.children| && IsElement(s.children[i], tag) &&
    0 <= j < |s.children[i].children| && s.children[i].children[j].kind == TextNode &&
    m(s.children[i].children[j].data)
  }

  datatype NumberParse = Number(k: int) | NotANumber | SliceOutOfRange

  /**
   * The example number of a heading: drop the first four runes (a runtime panic
   * when there are fewer), strip leading 出/力/例 runes, then 入/力/例 runes, then
   * surrounding white space; nothing left means 1, otherwise Atoi decides.
   */
  function ExampleNumber(heading: string): NumberParse
  {
    if |heading| < 4 then SliceOutOfRange
    else
      var raw := TrimSpace(TrimLeft(TrimLeft(heading[4..], OutputMarker), InputMarker));
      if raw == "" then Number(1)
      else match Atoi(raw)
        case Success(v) => Number(v)
        case Failure(_) => NotANumber
  }

  /** The lines of an example body: surrounding white space trimmed, split on line breaks. */
  function Lines(body: string): (r: seq<string>)
    ensures |r| >= 1
    ensures JoinLines(r) == TrimSpace(body)
  {
    JoinSplitLines(TrimSpace(body));
    SplitLines(TrimSpace(body))
  }

  /** Slot k-1 as the callback sees it after making it non-nil. */
  function SlotBefore(ios: seq<Option<SampleIO>>, k: int): SampleIO
  {
    if 1 <= k <= |ios| && ios[k - 1].Some? then ios[k - 1].value else SampleIO([], [])
  }

  /** The slot after the body, if one was found, overwrote the Input or Output side. */
  function Fill(slot: SampleIO, isInput: bool, body: Option<string>): (r: SampleIO)
    ensures r.input == (if isInput && body.Some? then Lines(body.value) else slot.input)
    ensures r.output == (if !isInput && body.Some? then Lines(body.value) else slot.output)
  {
    match body
    case None => slot
    case Some(b) => if isInput then slot.(input := Lines(b)) else slot.(output := Lines(b))
  }

  /**
   * The update of the sample list by a section with example number k: grow the
   * list with nil slots up to length k, make slot k-1 non-nil, and overwrite its
   * Input or Output with the body's lines when a body was found.
   */
  function Record(ios: seq<Option<SampleIO>>, k: int, isInput: bool, body: Option<string>): (r: seq<Option<SampleIO>>)
    requires k >= 1
    ensures |r| == if |ios| < k then k else |ios|
    ensures forall i :: 0 <= i < |ios| && i != k - 1 ==> r[i] == ios[i]
    ensures forall i :: |ios| <= i < k - 1 ==> r[i] == None
    ensures r[k - 1] == Some(Fill(SlotBefore(ios, k), isInput, body))
  {
    var grown := if |ios| < k then ios + seq(k - |ios|, _ => None) else ios;
    grown[k - 1 := Some(Fill(SlotBefore(ios, k), isInput, body))]
  }

  /** Every slot of the list after Record, one index at a time. */
  lemma RecordAt(ios: seq<Option<SampleIO>>, k: int, isInput: bool, body: Option<string>, i: int)
    requires k >= 1 && 0 <= i < |Record(ios, k, isInput, body)|
    ensures Record(ios, k, isInput, body)[i] ==
      if i == k - 1 then Some(Fill(SlotBefore(ios, k), isInput, body))
      else if i < |ios| then ios[i] else None
  {
  }

  /** The first marked heading text of a section in breadth-first order (findOneNode with the h3 query). */
  function Heading(doc: Node, section: Item): Option<Item>
  {
    FirstMatch(LevelOrder(section), IsMarkerText(doc, section))
  }

  /** The data of the first pre text of a section, if any (findOneNode with the pre query). */
  function BodyData(doc: Node, section: Item): Option<string>
  {
    var b := FirstMatch(LevelOrder(section), IsBodyText(doc, section));
    if b.Some? then Some(b.value.node.data) else None
  }

  datatype Panic = SliceBoundsOutOfRange | IndexOutOfRange

  /** The sample list while the page is walked; a runtime panic stops all further updates. */
  datatype Extraction = Running(ios: seq<Option<SampleIO>>) | Crashed(ios: seq<Option<SampleIO>>, why: Panic)

  /** The findAllNodes callback of FetchSampleIOs, applied to node `x`: the new sample list and the callback's result. */
  function SectionStep(doc: Node, st: Extraction, x: Item): (Extraction, bool)
  {
    if st.Crashed? || !IsCandidate(x.node) then (st, false)
    else match Heading(doc, x)
      case None => (st, false)
      case Some(h) =>
        match ExampleNumber(h.node.data)
        case SliceOutOfRange => (Crashed(st.ios, SliceBoundsOutOfRange), false)
        case NotANumber => (st, false)
        case Number(k) =>
          if k < 1 then (Crashed(st.ios, IndexOutOfRange), false)
          else (Running(Record(st.ios, k, InputMarker <= h.node.data, BodyData(doc, x))), BodyData(doc, x).Some?)
  }

  function SectionQuery(doc: Node): (Extraction, Item) -> (Extraction, bool)
  {
    (st: Extraction, x: Item) => SectionStep(doc, st, x)
  }

  /** The sample list after the callback has run on every node of the page in breadth-first order. */
  function ExtractAll(doc: Node, ios: seq<Option<SampleIO>>): Extraction
  {
    Scan(SectionQuery(doc), Running(ios), LevelOrder(Item([], doc))).0
  }

  datatype FetchOutcome = Fetched | FetchFailed(err: string) | Panicked(why: Panic)

  /** A task as the listing produced it; `sampleIOs` is filled in place from its page. */
  class Task {
    var url: string
    var index: string
    var sampleIOs: seq<Option<SampleIO>>

    constructor (url: string, index: string)
      ensures this.url == url && this.index == index && sampleIOs == []
    {
      this.url := url;
      this.index := index;
      sampleIOs := [];
    }

    /**
     * `FetchSampleIOs`: `page` is the outcome of the GET request and the HTML parse.
     * A failed fetch is returned unchanged; otherwise the callback runs on every
     * node of the page and the result is nil whatever matched, unless a panic
     * ended the walk.
     */
    method FetchSampleIOs(page: Result<Node, string>) returns (r: FetchOutcome)
      modifies this
      ensures url == old(url) && index == old(index)
      ensures page.Failure? ==> r == FetchFailed(page.error) && sampleIOs == old(sampleIOs)
      ensures page.Success? ==>
        var fin := ExtractAll(page.value, old(sampleIOs));
        sampleIOs == fin.ios && r == (if fin.Running? then Fetched else Panicked(fin.why))
      ensures page.Success? ==> Extends(old(sampleIOs), sampleIOs)
    {
      if page.Failure? {
        return FetchFailed(page.error);
      }
      var doc := page.value;
      var _, fin := FindAllNodes(Item([], doc), SectionQuery(doc), Running(sampleIOs));
      ExtractionExtends(doc, Running(sampleIOs), LevelOrder(Item([], doc)));
      sampleIOs := fin.ios;
      r := if fin.Running? then Fetched else Panicked(fin.why);
    }
  }

  /** A sample list `b` keeps every slot of `a`: it is at least as long and no created slot went back to nil. */
  predicate Extends(a: seq<Option<SampleIO>>, b: seq<Option<SampleIO>>)
  {
    |a| <= |b| && forall i :: 0 <= i < |a| && a[i].Some? ==> b[i].Some?
  }

  /**
   * Within a node `section` placed in `doc`, the text-in-child query holds of a
   * subtree member exactly when that member is the text child j of the `tag` child i.
   */
  lemma GrandchildText(doc: Node, section: Item, tag: string, m: string -> bool, x: Item)
    requires NodeAt(doc, section.path) == Some(section.node)
    requires InSubtree(section, x)
    ensures ChildText(doc, section, tag, m)(x) <==>
      |x.path| == |section.path| + 2 && TextChildAt(section.node, tag, m, x.path[|section.path|], x.path[|section.path| + 1])
    ensures |x.path| == |section.path| + 2 ==>
      var i, j := x.path[|section.path|], x.path[|section.path| + 1];
      i < |section.node.children| && j < |section.node.children[i].children| &&
      x.node == section.node.children[i].children[j]
  {
    var d := |section.path|;
    assert ChildText(doc, section, tag, m)(x) == (TextInChild(doc, section.path, tag, x) && m(x.node.data));
    if |x.path| == d + 2 {
      var i, j := x.path[d], x.path[d + 1];
      var rel := x.path[d..];
      assert rel == [i, j];
      assert rel[1..] == [j] && [j][1..] == [];
      assert i < |section.node.children|;
      var c := section.node.children[i];
      assert NodeAt(c, [j]) == Some(x.node);
      assert NodeAt(c, [j]) == if j < |c.children| then NodeAt(c.children[j], []) else None;
      assert j < |c.children| && x.node == c.children[j];
      assert x.path[..|x.path| - 1] == section.path + [i];
      NodeAtAppend(doc, section.path, [i]);
      assert [i][1..] == [];
      assert NodeAt(section.node, [i]) == Some(c);
      assert ParentNode(doc, x) == Some(c);
    }
  }

  /**
   * findOneNode with a text-in-child query on a section placed in the page: it
   * looks only at grandchildren, finds nothing exactly when the section has no such
   * text child, and otherwise returns one.
   */
  lemma ChildTextSearch(doc: Node, section: Item, tag: string, m: string -> bool)
    requires NodeAt(doc, section.path) == Some(section.node)
    ensures var q := ChildText(doc, section, tag, m);
      FirstMatch(LevelOrder(section), q) == FirstMatch(Grandchildren(section), q)
    ensures var h := FirstMatch(LevelOrder(section), ChildText(doc, section, tag, m));
      h.None? <==> forall i, j :: !TextChildAt(section.node, tag, m, i, j)
    ensures var h := FirstMatch(LevelOrder(section), ChildText(doc, section, tag, m));
      var d := |section.path|;
      h.Some? ==>
        |h.value.path| == d + 2 && h.value.path[..d] == section.path &&
        TextChildAt(section.node, tag, m, h.value.path[d], h.value.path[d + 1]) &&
        h.value.node == section.node.children[h.value.path[d]].children[h.value.path[d + 1]]
  {
    var q := ChildText(doc, section, tag, m);
    var d := |section.path|;
    forall x | q(x) ensures |x.path| == d + 2 {
      assert TextInChild(doc, section.path, tag, x);
    }
    FirstMatchAmongGrandchildren(section, q);
    FindOneSpec(section, q);
    var h := FirstMatch(LevelOrder(section), q);
    if h.Some? {
      GrandchildText(doc, section, tag, m, h.value);
    }
    if exists i, j :: TextChildAt(section.node, tag, m, i, j) {
      var i, j :| TextChildAt(section.node, tag, m, i, j);
      var x := Item(section.path + [i, j], section.node.children[i].children[j]);
      assert x.path[..d] == section.path;
      assert x.path[d..] == [i, j] && [i, j][1..] == [j] && [j][1..] == [];
      var c := section.node.children[i];
      assert NodeAt(c, [j]) == NodeAt(c.children[j], []);
      assert NodeAt(section.node, [i, j]) == NodeAt(c, [j]);
      assert InSubtree(section, x);
      GrandchildText(doc, section, tag, m, x);
      assert q(x);
    }
  }

  /**
   * One callback invocation on a node placed in the page: a non-candidate or a
   * section without a marked h3 heading changes nothing; the callback reports a
   * match only for a candidate with a marked heading and a pre text; a running
   * walk keeps every existing slot and a panic leaves the list as it was.
   */
  lemma SectionStepSpec(doc: Node, ios: seq<Option<SampleIO>>, x: Item)
    requires NodeAt(doc, x.path) == Some(x.node)
    ensures var r := SectionStep(doc, Running(ios), x);
      (!IsCandidate(x.node) || forall i, j :: !TextChildAt(x.node, "h3", IsMarkerLine, i, j)) ==> r == (Running(ios), false)
    ensures var r := SectionStep(doc, Running(ios), x);
      r.1 ==> IsCandidate(x.node) &&
              (exists i, j :: TextChildAt(x.node, "h3", IsMarkerLine, i, j)) &&
              (exists i, j :: TextChildAt(x.node, "pre", AnyText, i, j))
    ensures StepExtends(doc, ios, x)
  {
    var r := SectionStep(doc, Running(ios), x);
    ChildTextSearch(doc, x, "h3", IsMarkerLine);
    ChildTextSearch(doc, x, "pre", AnyText);
    StepKeepsSlots(doc, ios, x);
    if r.1 {
      assert IsCandidate(x.node) && Heading(doc, x).Some? && BodyData(doc, x).Some?;
    }
  }

  /**
   * A candidate with a marked heading: a heading numbered k >= 1 records slot k-1 from
   * the heading's side and the section's body, and the callback reports whether a body
   * was found; k < 1 panics on the index k-1; a number Atoi rejects skips the section;
   * a bare marker panics on the `[4:]` slice.
   */
  lemma SectionStepNumbered(doc: Node, ios: seq<Option<SampleIO>>, x: Item)
    requires NodeAt(doc, x.path) == Some(x.node) && IsCandidate(x.node) && Heading(doc, x).Some?
    ensures var t := Heading(doc, x).value.node.data;
      var e := ExampleNumber(t);
      var r := SectionStep(doc, Running(ios), x);
      && (e.Number? && e.k >= 1 ==>
            r == (Running(Record(ios, e.k, InputMarker <= t, BodyData(doc, x))), BodyData(doc, x).Some?))
      && (e.Number? && e.k < 1 ==> r == (Crashed(ios, IndexOutOfRange), false))
      && (e.NotANumber? ==> r == (Running(ios), false))
      && (e.SliceOutOfRange? ==> r == (Crashed(ios, SliceBoundsOutOfRange), false))
  {
  }

  /** A section whose heading's runes from the fifth on spell n records slot n-1. */
  lemma SectionStepOfHeading(doc: Node, ios: seq<Option<SampleIO>>, x: Item, n: nat)
    requires NodeAt(doc, x.path) == Some(x.node) && IsCandidate(x.node) && Heading(doc, x).Some?
    requires 1 <= n <= MaxInt64
    requires var t := Heading(doc, x).value.node.data; |t| >= 4 && t[4..] == Itoa(n)
    ensures var t := Heading(doc, x).value.node.data;
      SectionStep(doc, Running(ios), x) ==
        (Running(Record(ios, n, InputMarker <= t, BodyData(doc, x))), BodyData(doc, x).Some?)
  {
    HeadingNumber(Heading(doc, x).value.node.data, n);
    SectionStepNumbered(doc, ios, x);
  }

  /** After one callback invocation a running walk has lost no slot and a panicked one has the list unchanged. */
  predicate StepExtends(doc: Node, ios: seq<Option<SampleIO>>, x: Item)
  {
    var r := SectionStep(doc, Running(ios), x).0;
    (r.Running? ==> Extends(ios, r.ios)) && (r.Crashed? ==> r.ios == ios)
  }

  /** Recording a section keeps every slot the list already had. */
  lemma RecordExtends(ios: seq<Option<SampleIO>>, k: int, isInput: bool, body: Option<string>)
    requires k >= 1
    ensures Extends(ios, Record(ios, k, isInput, body))
  {
  }

  lemma StepKeepsSlots(doc: Node, ios: seq<Option<SampleIO>>, x: Item)
    ensures StepExtends(doc, ios, x)
  {
    var r := SectionStep(doc, Running(ios), x).0;
    if !IsCandidate(x.node) || Heading(doc, x).None? {
      assert r == Running(ios);
    } else {
      var h := Heading(doc, x).value;
      var e := ExampleNumber(h.node.data);
      if e.Number? && e.k >= 1 {
        RecordExtends(ios, e.k, InputMarker <= h.node.data, BodyData(doc, x));
        assert r == Running(Record(ios, e.k, InputMarker <= h.node.data, BodyData(doc, x)));
      } else if e.NotANumber? {
        assert r == Running(ios);
      } else {
        assert r.Crashed? && r.ios == ios;
      }
    }
  }

  /** A panic ends the walk: every later node leaves the state as it is. */
  lemma {:induction false} CrashedStays(doc: Node, st: Extraction, items: seq<Item>)
    requires st.Crashed?
    ensures Scan(SectionQuery(doc), st, items).0 == st
    decreases |items|
  {
    if items != [] {
      CrashedStays(doc, st, items[..|items| - 1]);
    }
  }

  /** Over the whole walk no slot is lost and no created slot is reset to nil. */
  lemma {:induction false} ExtractionExtends(doc: Node, st: Extraction, items: seq<Item>)
    requires st.Running?
    ensures Extends(st.ios, Scan(SectionQuery(doc), st, items).0.ios)
    decreases |items|
  {
    if items != [] {
      var init := items[..|items| - 1];
      ExtractionExtends(doc, st, init);
      var prev := Scan(SectionQuery(doc), st, init).0;
      var x := items[|items| - 1];
      var next := SectionQuery(doc)(prev, x).0;
      assert next == Scan(SectionQuery(doc), st, items).0;
      if prev.Running? {
        StepKeepsSlots(doc, prev.ios, x);
        assert prev == Running(prev.ios);
      }
      assert Extends(prev.ios, next.ios);
    }
  }

  /** Trimming leaves a string alone when its first rune is outside the cutset. */
  lemma TrimLeftKeeps(s: string, cutset: string)
    requires s != [] && s[0] !in cutset
    ensures TrimLeft(s, cutset) == s
  {
    var r := TrimLeft(s, cutset);
    assert |s| - |r| == 0;
    assert s[0..] == s;
  }

  /** Decimal digits carry no surrounding white space. */
  lemma TrimSpaceKeepsDigits(s: string)
    requires s != [] && AllDigits(s)
    ensures TrimSpace(s) == s
  {
    assert IsDigit(s[0]) && IsDigit(s[|s| - 1]);
    assert !IsSpace(s[0]) && !IsSpace(s[|s| - 1]);
    TrimSpaceSpec(s);
    assert s[0..|s|] == s;
  }

  /** The number of a heading whose fifth rune starts the decimal number n. */
  lemma HeadingNumber(heading: string, n: nat)
    requires 1 <= n <= MaxInt64
    requires |heading| >= 4 && heading[4..] == Itoa(n)
    ensures ExampleNumber(heading) == Number(n)
  {
    var s := Itoa(n);
    assert IsDigit(s[0]);
    assert s[0] !in OutputMarker && s[0] !in InputMarker;
    TrimLeftKeeps(s, OutputMarker);
    TrimLeftKeeps(s, InputMarker);
    TrimSpaceKeepsDigits(s);
    AtoiItoa(n);
  }

  /** The usual heading "入力例 N" or "出力例 N" yields example number N. */
  lemma ExampleNumberOfHeading(n: nat)
    requires 1 <= n <= MaxInt64
    ensures ExampleNumber(InputMarker + " " + Itoa(n)) == Number(n)
    ensures ExampleNumber(OutputMarker + " " + Itoa(n)) == Number(n)
  {
    assert (InputMarker + " " + Itoa(n))[4..] == Itoa(n);
    HeadingNumber(InputMarker + " " + Itoa(n), n);
    assert (OutputMarker + " " + Itoa(n))[4..] == Itoa(n);
    HeadingNumber(OutputMarker + " " + Itoa(n), n);
  }

  /** The `[4:]` slice panics exactly on a heading of fewer than four runes. */
  lemma ExampleNumberSlice(heading: string)
    ensures ExampleNumber(heading) == SliceOutOfRange <==> |heading| < 4
  {
    if |heading| >= 4 {
      var raw := TrimSpace(TrimLeft(TrimLeft(heading[4..], OutputMarker), InputMarker));
      if raw != "" {
        var a := Atoi(raw);
        assert ExampleNumber(heading) == if a.Success? then Number(a.value) else NotANumber;
      }
    }
  }

  /** A bare marker heading has only three runes: dropping four of them panics. */
  lemma BareMarkerPanics()
    ensures ExampleNumber(InputMarker) == SliceOutOfRange
    ensures ExampleNumber(OutputMarker) == SliceOutOfRange
  {
  }

  /** The fourth rune is dropped unread: a number written without a space loses its first digit. */
  lemma ExampleNumberDropsFourthRune()
    ensures ExampleNumber(InputMarker + "12") == Number(2)
  {
    assert Itoa(2) == "2";
    assert (InputMarker + "12")[4..] == "2";
    HeadingNumber(InputMarker + "12", 2);
  }

  /**
   * A heading of exactly four runes leaves nothing after the dropped fourth rune, so
   * it numbers its example 1 whatever that rune is: "入力例2" gives 1, not 2.
   */
  lemma FourRuneHeadingIsOne(heading: string)
    requires |heading| == 4
    ensures ExampleNumber(heading) == Number(1)
  {
    assert heading[4..] == "";
    AllSpaceTrimsToEmpty("");
  }

  /** A marker followed by white space alone numbers the example 1. */
  lemma ExampleNumberDefaultsToOne(marker: string, tail: string)
    requires marker == InputMarker || marker == OutputMarker
    requires |tail| >= 1 && forall i :: 0 <= i < |tail| ==> IsSpace(tail[i])
    ensures ExampleNumber(marker + tail) == Number(1)
  {
    var rest := (marker + tail)[4..];
    assert rest == tail[1..];
    if rest != [] {
      assert IsSpace(rest[0]);
      assert rest[0] !in OutputMarker && rest[0] !in InputMarker;
      TrimLeftKeeps(rest, OutputMarker);
      TrimLeftKeeps(rest, InputMarker);
    }
    AllSpaceTrimsToEmpty(rest);
  }

  /** A string of white space alone trims to nothing. */
  lemma AllSpaceTrimsToEmpty(s: string)
    requires forall i :: 0 <= i < |s| ==> IsSpace(s[i])
    ensures TrimSpace(s) == ""
  {
    TrimSpaceSpec(s);
  }

  /**
   * Sections update the list independently of the order they are visited in,
   * unless two of them carry the same number, the same side and both a body.
   */
  lemma RecordCommutes(ios: seq<Option<SampleIO>>, k1: int, in1: bool, b1: Option<string>,
                       k2: int, in2: bool, b2: Option<string>)
    requires k1 >= 1 && k2 >= 1
    requires k1 != k2 || in1 != in2 || b1.None? || b2.None?
    ensures Record(Record(ios, k1, in1, b1), k2, in2, b2) == Record(Record(ios, k2, in2, b2), k1, in1, b1)
  {
    var r1, r2 := Record(ios, k1, in1, b1), Record(ios, k2, in2, b2);
    var a, b := Record(r1, k2, in2, b2), Record(r2, k1, in1, b1);
    assert |a| == |b|;
    forall i | 0 <= i < |a| ensures a[i] == b[i] {
      RecordAt(r1, k2, in2, b2, i);
      RecordAt(r2, k1, in1, b1, i);
      if i < |r1| {
        RecordAt(ios, k1, in1, b1, i);
      }
      if i < |r2| {
        RecordAt(ios, k2, in2, b2, i);
      }
    }
  }

  /** Of two sections with the same number and side that both have a body, the later one wins. */
  lemma RecordLastWins(ios: seq<Option<SampleIO>>, k: int, isInput: bool, b1: string, b2: string)
    requires k >= 1
    ensures Record(Record(ios, k, isInput, Some(b1)), k, isInput, Some(b2)) == Record(ios, k, isInput, Some(b2))
  {
    var r1 := Record(ios, k, isInput, Some(b1));
    var a, b := Record(r1, k, isInput, Some(b2)), Record(ios, k, isInput, Some(b2));
    assert |a| == |b|;
    forall i | 0 <= i < |a| ensures a[i] == b[i] {
      RecordAt(r1, k, isInput, Some(b2), i);
      RecordAt(ios, k, isInput, Some(b2), i);
      if i < |r1| {
        RecordAt(ios, k, isInput, Some(b1), i);
      }
    }
  }

}
