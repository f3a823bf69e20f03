/**
 * The stateless helpers of src/lib/editor/helpers/xmark-helper.ts: block
 * content typing, marks, text extraction, insert paths and element styles.
 */
module Helper {
  import opened Wrappers
  import opened Document

  /**
   * `setContentType(editor, path, type)` on an element whose children are
   * `content`: an inline or text first child is wrapped in a new element of
   * that type, a block first child is retyped.  An element without children
   * makes Slate throw (None).
   */
  function SetContentType(content: seq<Node>, kind: string): (r: Option<seq<Node>>)
    ensures r.Some? <==> |content| > 0
    ensures r.Some? ==> |r.value| == |content| && r.value[1..] == content[1..]
    ensures r.Some? ==> IsElementOf(r.value[0], kind)
    ensures r.Some? && !IsBlock(content[0]) ==> r.value[0].children == [content[0]]
    ensures r.Some? && IsBlock(content[0]) ==> r.value[0] == SetKind(content[0], kind)
  {
    if |content| == 0 then None
    else if !IsBlock(content[0]) then Some([Element(kind, map[], [content[0]])] + content[1..])
    else Some([SetKind(content[0], kind)] + content[1..])
  }

  // ---------------------------------------------------------------------
  // Marks (xmark-helper.ts:143-161)
  // ---------------------------------------------------------------------

  /** The marks at the selection (`Editor.marks`), None without a selection. */
  type Marks = map<string, Value>

  const Deleteline := "deleteline"
  const Underline := "underline"

  /** `isMarkActive`: the mark is present and strictly `true`. */
  predicate IsMarkActive(marks: Option<Marks>, format: string)
  {
    marks.Some? && format in marks.value && marks.value[format] == VBool(true)
  }

  /** The decoration that `format` excludes: strike-through and underline do not combine. */
  function Partner(format: string): Option<string>
  {
    if format == Deleteline then Some(Underline) else if format == Underline then Some(Deleteline) else None
  }

  /**
   * `toggleMark(editor, format, value)`: an active mark is removed; otherwise
   * the excluded decoration goes and the mark is set.  Without a selection
   * Slate changes nothing.
   */
  function ToggleMark(marks: Option<Marks>, format: string, value: Value): (r: Option<Marks>)
    ensures r.Some? <==> marks.Some?
    ensures IsMarkActive(marks, format) ==> r == Some(marks.value - {format})
    ensures marks.Some? && !IsMarkActive(marks, format) ==>
              format in r.value && r.value[format] == value && forall k :: k != format ==>
                (k in r.value <==> k in marks.value && Some(k) != Partner(format))
                && (k in r.value ==> r.value[k] == marks.value[k])
  {
    if marks.None? then None
    else if IsMarkActive(marks, format) then Some(marks.value - {format})
    else
      var kept := match Partner(format) case Some(other) => marks.value - {other} case None => marks.value;
      Some(kept[format := value])
  }

  /** Turning strike-through or underline on leaves the other one off. */
  lemma DecorationsExclusive(marks: Option<Marks>, format: string)
    requires marks.Some? && !IsMarkActive(marks, format) && Partner(format).Some?
    ensures !IsMarkActive(ToggleMark(marks, format, VBool(true)), Partner(format).value)
    ensures IsMarkActive(ToggleMark(marks, format, VBool(true)), format)
  {
  }

  /** Turning a mark on and off again removes it and its excluded decoration and keeps the rest. */
  lemma ToggleOnOff(marks: Option<Marks>, format: string)
    requires marks.Some? && !IsMarkActive(marks, format)
    ensures var r := ToggleMark(ToggleMark(marks, format, VBool(true)), format, VBool(true));
            r.Some? && forall k :: (k in r.value <==> k in marks.value && k != format && Some(k) != Partner(format))
  {
  }

  // ---------------------------------------------------------------------
  // getText and getInsertPath (xmark-helper.ts:177-205)
  // ---------------------------------------------------------------------

  /** `getText(element)`: the texts of the direct text children, in order. */
  function GetText(children: seq<Node>): string
  {
    if |children| == 0 then ""
    else GetText(children[..|children| - 1]) + (if children[|children| - 1].Text? then children[|children| - 1].text else "")
  }

  lemma {:induction false} GetTextConcat(a: seq<Node>, b: seq<Node>)
    ensures GetText(a + b) == GetText(a) + GetText(b)
    decreases |b|
  {
    if |b| == 0 {
      assert a + b == a;
    } else {
      assert (a + b)[..|a + b| - 1] == a + b[..|b| - 1];
      GetTextConcat(a, b[..|b| - 1]);
    }
  }

  /** Only direct children count: an element child adds nothing, whatever it holds. */
  lemma GetTextSkipsElements(a: seq<Node>, e: Node, b: seq<Node>)
    requires e.Element?
    ensures GetText(a + [e] + b) == GetText(a) + GetText(b)
  {
    GetTextConcat(a + [e], b);
    GetTextAppend(a, e);
  }

  lemma GetTextAppend(a: seq<Node>, x: Node)
    ensures GetText(a + [x]) == GetText(a) + (if x.Text? then x.text else "")
  {
    assert (a + [x])[..|a|] == a;
  }

  /**
   * `getInsertPath(editor)`: after the top-level block holding the focus, or
   * at the end of the document.  A focus path without a top-level ancestor
   * below the root makes `Path.next(undefined)` throw (None).
   */
  function GetInsertPath(focus: Option<Path>, childCount: nat): (r: Option<Path>)
    ensures focus.None? ==> r == Some([childCount])
    ensures focus.Some? ==> (r.Some? <==> |focus.value| >= 2)
    ensures r.Some? && focus.Some? ==> r.value == [focus.value[0] + 1]
  {
    match focus
    case Some(p) => if |p| >= 2 then Some([p[0] + 1]) else None
    case None => if childCount > 0 then Some([childCount]) else Some([0])
  }

  // ---------------------------------------------------------------------
  // Heading levels (xmark-helper.ts:282-316)
  // ---------------------------------------------------------------------

  /** `getHeadingLevel(type)`. */
  function HeadingLevel(kind: string): (level: nat)
    ensures level <= 6
  {
    if kind == Heading1 then 1
    else if kind == Heading2 then 2
    else if kind == Heading3 then 3
    else if kind == Heading4 then 4
    else if kind == Heading5 then 5
    else if kind == Heading6 then 6
    else 0
  }

  /** `getHeadingType(level)`: any level outside 1..6 gives `heading-6`. */
  function HeadingType(level: int): string
  {
    if level == 1 then Heading1
    else if level == 2 then Heading2
    else if level == 3 then Heading3
    else if level == 4 then Heading4
    else if level == 5 then Heading5
    else Heading6
  }

  /** The two mappings are inverse on 1..6 and on the six heading types. */
  lemma HeadingRoundTrip(level: int, kind: string)
    ensures 1 <= level <= 6 ==> HeadingLevel(HeadingType(level)) == level
    ensures !(1 <= level <= 6) ==> HeadingType(level) == Heading6
    ensures HeadingLevel(kind) > 0 ==> HeadingType(HeadingLevel(kind)) == kind
  {
    assert Heading1[8] == '1' && Heading2[8] == '2' && Heading3[8] == '3';
    assert Heading4[8] == '4' && Heading5[8] == '5' && Heading6[8] == '6';
  }

  /** The element type of a top-level node (`item.type`); a text node has none. */
  function KindOf(n: Node): string
  {
    if n.Element? then n.kind else ""
  }

  /** A string attribute, `''` when absent (`item.catNo ? item.catNo : ''`). */
  function StrAttr(n: Node, key: string): string
  {
    match Attr(n, key)
    case Some(VStr(s)) => s
    case _ => ""
  }

  // ---------------------------------------------------------------------
  // The catalog (xmark-helper.ts:207-280, 318-325)
  // ---------------------------------------------------------------------

  const CatNo := "catNo"
  const CatNoType := "catNoType"
  const DefaultNoType := "default"

  /**
   * `Catalog`: one top-level heading.  `key` is its index in the document
   * (so its path is `[key]`), `catNoType` comes from the heading element,
   * and `children` lists the sub-entries as indexes into the list of all
   * entries, in document order.
   */
  datatype Catalog = Catalog(title: string, key: nat, level: nat, catNo: string, catNoType: string, children: seq<nat>)

  /** The entry a heading at document index `index` gets before it is linked. */
  function Entry(item: Node, index: nat, level: nat): Catalog
  {
    Catalog(GetText(if item.Element? then item.children else []), index, level, StrAttr(item, CatNo), StrAttr(item, CatNoType), [])
  }

  /** The entries of the headings among the first `n` top-level nodes, unlinked. */
  function Headings(doc: seq<Node>, n: nat): seq<Catalog>
    requires n <= |doc|
  {
    if n == 0 then []
    else
      var level := HeadingLevel(KindOf(doc[n - 1]));
      if level == 0 then Headings(doc, n - 1) else Headings(doc, n - 1) + [Entry(doc[n - 1], n - 1, level)]
  }

  /**
   * `findParent(data[..n], level)`: the last of the first `n` entries with a
   * smaller level, or -1.
   */
  function ParentOf(h: seq<Catalog>, level: int, n: nat): (p: int)
    requires n <= |h|
    ensures -1 <= p < n
    ensures p >= 0 ==> h[p].level < level
    ensures forall j :: p < j < n ==> h[j].level >= level
  {
    if n == 0 then -1 else if h[n - 1].level < level then n - 1 else ParentOf(h, level, n - 1)
  }

  /** `findParent(data, level)`: the backward loop. */
  method FindParent(data: seq<Catalog>, level: int) returns (index: int)
    ensures index == ParentOf(data, level, |data|)
  {
    index := |data| - 1;
    while index >= 0
      invariant -1 <= index < |data|
      invariant ParentOf(data, level, |data|) == ParentOf(data, level, index + 1)
    {
      if data[index].level < level {
        return index;
      }
      index := index - 1;
    }
  }

  /** The entries among the first `n` whose parent is `p` (-1: the roots), in order. */
  function Filter(h: seq<Catalog>, p: int, n: nat): seq<nat>
    requires n <= |h|
  {
    if n == 0 then []
    else Filter(h, p, n - 1) + (if ParentOf(h, h[n - 1].level, n - 1) == p then [n - 1] else [])
  }

  /** The first `n` entries with their children lists filled in. */
  function LinkedUpTo(h: seq<Catalog>, n: nat): (data: seq<Catalog>)
    requires n <= |h|
    ensures |data| == n
    ensures forall e {:trigger data[e]} :: 0 <= e < n ==> data[e] == h[e].(children := Filter(h, e, |h|))
  {
    if n == 0 then [] else LinkedUpTo(h, n - 1) + [h[n - 1].(children := Filter(h, n - 1, |h|))]
  }

  /** The entries with their children lists filled in. */
  function Linked(h: seq<Catalog>): (data: seq<Catalog>)
    ensures |data| == |h|
    ensures forall e {:trigger data[e]} :: 0 <= e < |h| ==> data[e] == h[e].(children := Filter(h, e, |h|))
  {
    LinkedUpTo(h, |h|)
  }

  /** `tree` and `data` are the catalog of the headings among the first `n` top-level nodes. */
  predicate Built(doc: seq<Node>, n: nat, tree: seq<nat>, data: seq<Catalog>)
  {
    && n <= |doc|
    && data == Linked(Headings(doc, n))
    && tree == Filter(Headings(doc, n), -1, |Headings(doc, n)|)
  }

  /**
   * `getCatalogTree(editorValue)`: `tree` lists the root entries; `data`
   * holds every entry, each with the entries pushed onto its `children`.
   */
  method GetCatalogTree(doc: seq<Node>) returns (tree: seq<nat>, data: seq<Catalog>)
    ensures data == Linked(Headings(doc, |doc|))
    ensures tree == Filter(Headings(doc, |doc|), -1, |Headings(doc, |doc|)|)
  {
    tree := [];
    data := [];
    var index := 0;
    while index < |doc|
      invariant 0 <= index <= |doc|
      invariant Built(doc, index, tree, data)
    {
      var item := doc[index];
      var level := HeadingLevel(KindOf(item));
      CatalogStep(doc, index, tree, data);
      if level != 0 {
        tree, data := AddCatalog(tree, data, Entry(item, index, level));
      }
      index := index + 1;
    }
  }

  /** The body of `getCatalogTree`'s loop for a heading: link `catalog` under `findParent`'s answer. */
  method AddCatalog(tree: seq<nat>, data: seq<Catalog>, catalog: Catalog) returns (tree': seq<nat>, data': seq<Catalog>)
    ensures var p := ParentOf(data, catalog.level, |data|);
            && data' == AppendUnder(data, catalog, p)
            && tree' == tree + (if p < 0 then [|data|] else [])
  {
    var parentIndex := FindParent(data, catalog.level);
    tree' := tree;
    data' := data;
    if parentIndex >= 0 {
      data' := data'[parentIndex := data'[parentIndex].(children := data'[parentIndex].children + [|data|])];
    } else {
      tree' := tree' + [|data|];
    }
    data' := data' + [catalog];
  }

  /** One iteration of `getCatalogTree`'s loop keeps `tree` and `data` the catalog built so far. */
  lemma CatalogStep(doc: seq<Node>, index: nat, tree: seq<nat>, data: seq<Catalog>)
    requires index < |doc| && Built(doc, index, tree, data)
    ensures var level := HeadingLevel(KindOf(doc[index]));
            var p := ParentOf(data, level, |data|);
            && (level == 0 ==> Built(doc, index + 1, tree, data))
            && (level != 0 ==> Built(doc, index + 1, tree + (if p < 0 then [|data|] else []),
                                     AppendUnder(data, Entry(doc[index], index, level), p)))
  {
    var level := HeadingLevel(KindOf(doc[index]));
    var h := Headings(doc, index);
    if level != 0 {
      LinkedLevels(h);
      ParentOfSameLevels(data, h, level, |h|);
      CatalogHeadingStep(doc, index, level);
    } else {
      assert Headings(doc, index + 1) == h;
    }
  }

  /** The step of `CatalogStep` at a heading, stated over the headings before it. */
  lemma CatalogHeadingStep(doc: seq<Node>, index: nat, level: nat)
    requires index < |doc| && level == HeadingLevel(KindOf(doc[index])) && level != 0
    ensures var h := Headings(doc, index);
            var p := ParentOf(h, level, |h|);
            Built(doc, index + 1, Filter(h, -1, |h|) + (if p < 0 then [|h|] else []),
                  AppendUnder(Linked(h), Entry(doc[index], index, level), p))
  {
    CatalogAdd(doc, index, level);
    assert |Headings(doc, index + 1)| == |Headings(doc, index)| + 1;
  }

  /** Linking keeps every entry's level. */
  lemma LinkedLevels(h: seq<Catalog>)
    ensures |Linked(h)| == |h| && forall j :: 0 <= j < |h| ==> Linked(h)[j].level == h[j].level
  {
  }

  lemma CatalogAdd(doc: seq<Node>, index: nat, level: nat)
    requires index < |doc| && level == HeadingLevel(KindOf(doc[index])) && level != 0
    ensures var h := Headings(doc, index);
            var p := ParentOf(h, level, |h|);
            && Linked(Headings(doc, index + 1)) == AppendUnder(Linked(h), Entry(doc[index], index, level), p)
            && Filter(Headings(doc, index + 1), -1, |h| + 1) == Filter(h, -1, |h|) + (if p < 0 then [|h|] else [])
  {
    var h := Headings(doc, index);
    var c := Entry(doc[index], index, level);
    assert Headings(doc, index + 1) == h + [c];
    CatalogAddLinked(h, c);
    CatalogAddRoots(h, c);
  }

  /** Linking one more entry: see `LinkStep`. */
  lemma CatalogAddLinked(h: seq<Catalog>, c: Catalog)
    requires c.children == []
    ensures Linked(h + [c]) == AppendUnder(Linked(h), c, ParentOf(h, c.level, |h|))
  {
    LinkStep(h, c, ParentOf(h, c.level, |h|));
  }

  /** One more entry joins the roots exactly when it has no parent. */
  lemma CatalogAddRoots(h: seq<Catalog>, c: Catalog)
    ensures Filter(h + [c], -1, |h| + 1) == Filter(h, -1, |h|) + (if ParentOf(h, c.level, |h|) < 0 then [|h|] else [])
  {
    FilterAppend(h, c, -1);
  }

  lemma {:induction false} ParentOfSameLevels(h: seq<Catalog>, h': seq<Catalog>, level: int, n: nat)
    requires n <= |h| && n <= |h'|
    requires forall j :: 0 <= j < n ==> h[j].level == h'[j].level
    ensures ParentOf(h, level, n) == ParentOf(h', level, n)
  {
    if n > 0 {
      ParentOfSameLevels(h, h', level, n - 1);
    }
  }

  lemma {:induction false} FilterSameLevels(h: seq<Catalog>, h': seq<Catalog>, p: int, n: nat)
    requires n <= |h| && n <= |h'|
    requires forall j :: 0 <= j < n ==> h[j].level == h'[j].level
    ensures Filter(h, p, n) == Filter(h', p, n)
  {
    if n > 0 {
      FilterSameLevels(h, h', p, n - 1);
      ParentOfSameLevels(h, h', h[n - 1].level, n - 1);
    }
  }

  /** No entry has a later entry as its parent. */
  lemma {:induction false} FilterNoLaterParent(h: seq<Catalog>, p: int, n: nat)
    requires n <= |h| && p >= n - 1
    ensures Filter(h, p, n) == []
  {
    if n > 0 {
      FilterNoLaterParent(h, p, n - 1);
    }
  }

  /** Appending an entry adds it to its parent's list and to no other. */
  lemma FilterAppend(h: seq<Catalog>, c: Catalog, q: int)
    ensures Filter(h + [c], q, |h| + 1) == Filter(h, q, |h|) + (if ParentOf(h, c.level, |h|) == q then [|h|] else [])
  {
    var h' := h + [c];
    assert h'[|h|] == c;
    assert forall j :: 0 <= j < |h| ==> h[j].level == h'[j].level;
    FilterSameLevels(h, h', q, |h|);
    ParentOfSameLevels(h, h', c.level, |h|);
  }

  /** After appending an entry, an old entry's children gain it exactly when it is the parent. */
  lemma LinkedAppendOld(h: seq<Catalog>, c: Catalog, e: nat)
    requires e < |h|
    ensures Linked(h + [c])[e] == h[e].(children := Filter(h, e, |h|) + (if ParentOf(h, c.level, |h|) == e then [|h|] else []))
  {
    var x := Filter(h + [c], e, |h| + 1);
    assert Linked(h + [c])[e] == (h + [c])[e].(children := x);
    assert (h + [c])[e] == h[e];
    FilterAppend(h, c, e);
  }

  /** The appended entry has no children yet. */
  lemma LinkedAppendNew(h: seq<Catalog>, c: Catalog)
    requires c.children == []
    ensures Linked(h + [c])[|h|] == c
  {
    var x := Filter(h + [c], |h|, |h| + 1);
    assert Linked(h + [c])[|h|] == (h + [c])[|h|].(children := x);
    assert (h + [c])[|h|] == c;
    FilterAppend(h, c, |h|);
    FilterNoLaterParent(h, |h|, |h|);
  }

  /** What `getCatalogTree` does to its list of entries when it appends `c` under `p`. */
  function AppendUnder(data: seq<Catalog>, c: Catalog, p: int): seq<Catalog>
    requires p < |data|
  {
    (if p >= 0 then data[p := data[p].(children := data[p].children + [|data|])] else data) + [c]
  }

  /** Appending an entry links it under the parent `findParent` returns. */
  lemma LinkStep(h: seq<Catalog>, c: Catalog, p: int)
    requires c.children == [] && p == ParentOf(h, c.level, |h|)
    ensures AppendUnder(Linked(h), c, p) == Linked(h + [c])
  {
    var lhs := AppendUnder(Linked(h), c, p);
    var rhs := Linked(h + [c]);
    assert |lhs| == |rhs| == |h| + 1;
    forall e | 0 <= e <= |h|
      ensures lhs[e] == rhs[e]
    {
      if e < |h| {
        LinkStepAt(h, c, p, e);
      } else {
        LinkedAppendNew(h, c);
      }
    }
    SameEntries(lhs, rhs);
  }

  lemma SameEntries(a: seq<Catalog>, b: seq<Catalog>)
    requires |a| == |b| && forall e :: 0 <= e < |a| ==> a[e] == b[e]
    ensures a == b
  {
  }

  /** `LinkStep` at one old entry. */
  lemma LinkStepAt(h: seq<Catalog>, c: Catalog, p: int, e: nat)
    requires p == ParentOf(h, c.level, |h|) && e < |h|
    ensures AppendUnder(Linked(h), c, p)[e] == Linked(h + [c])[e]
  {
    LinkedAppendOld(h, c, e);
    assert Linked(h)[e] == h[e].(children := Filter(h, e, |h|));
  }

  // ---------------------------------------------------------------------
  // updateCatalogNo (xmark-helper.ts:257-280)
  // ---------------------------------------------------------------------

  /** A numbering scheme's `generate(parentNo, index)`. */
  type Generator = (string, nat) -> string

  /** `editor.catalogNoMap`: the schemes by `catNoType`. */
  type GeneratorMap = map<string, Generator>

  /** The scheme a heading's sub-entries are numbered with: `catNoType || 'default'`. */
  function ChildNoType(c: Catalog): string
  {
    if c.catNoType != "" then c.catNoType else DefaultNoType
  }

  /** The scheme entry `e` is numbered with: its parent's child scheme, `default` for a root. */
  function NoTypeOf(h: seq<Catalog>, e: nat): string
    requires e < |h|
  {
    var p := ParentOf(h, h[e].level, e);
    if p < 0 then DefaultNoType else ChildNoType(h[p])
  }

  /**
   * The `catNo` entry `e` holds once `updateNo` has visited it: generated
   * from its parent's number (`''` for a root) and its position among its
   * siblings when its scheme exists, else the number it had.
   */
  function Number(h: seq<Catalog>, gens: GeneratorMap, e: nat): string
    requires e < |h|
    decreases e
  {
    var p := ParentOf(h, h[e].level, e);
    var noType := NoTypeOf(h, e);
    if noType in gens then gens[noType](if p < 0 then "" else Number(h, gens, p), |Filter(h, p, e)|)
    else h[e].catNo
  }

  /** The first `n` headings come first among all the headings. */
  lemma HeadingsPrefix(doc: seq<Node>, n: nat, m: nat)
    requires n <= m <= |doc|
    ensures |Headings(doc, n)| <= |Headings(doc, m)|
    ensures Headings(doc, m)[..|Headings(doc, n)|] == Headings(doc, n)
  {
    var hs := seq(|doc| + 1, k requires 0 <= k <= |doc| => Headings(doc, k));
    forall k | 0 < k < |hs|
      ensures |hs[k - 1]| <= |hs[k]| && hs[k][..|hs[k - 1]|] == hs[k - 1]
    {
      HeadingsGrow(doc, k);
    }
    ChainPrefix(hs, n, m);
  }

  /** One more node keeps the earlier headings in front. */
  lemma HeadingsGrow(doc: seq<Node>, m: nat)
    requires 0 < m <= |doc|
    ensures |Headings(doc, m - 1)| <= |Headings(doc, m)|
    ensures Headings(doc, m)[..|Headings(doc, m - 1)|] == Headings(doc, m - 1)
  {
  }

  /** In a chain of sequences each extending the one before, every later one extends every earlier one. */
  lemma {:induction false} ChainPrefix<T>(hs: seq<seq<T>>, n: nat, m: nat)
    requires n <= m < |hs|
    requires forall k :: 0 < k < |hs| ==> |hs[k - 1]| <= |hs[k]| && hs[k][..|hs[k - 1]|] == hs[k - 1]
    ensures |hs[n]| <= |hs[m]| && hs[m][..|hs[n]|] == hs[n]
    decreases m
  {
    if n < m {
      ChainPrefix(hs, n, m - 1);
      PrefixGrows(hs[n], hs[m - 1], hs[m]);
    }
  }

  lemma PrefixGrows<T>(p: seq<T>, b: seq<T>, c: seq<T>)
    requires |p| <= |b| && b[..|p|] == p
    requires |b| <= |c| && c[..|b|] == b
    ensures |p| <= |c| && c[..|p|] == p
  {
    assert c[..|p|] == c[..|b|][..|p|];
  }

  /** The entry index of the heading at document index `i`. */
  lemma HeadingAt(doc: seq<Node>, i: nat)
    requires i < |doc| && HeadingLevel(KindOf(doc[i])) > 0
    ensures |Headings(doc, i)| < |Headings(doc, |doc|)|
    ensures Headings(doc, |doc|)[|Headings(doc, i)|] == Entry(doc[i], i, HeadingLevel(KindOf(doc[i])))
  {
    var c := Entry(doc[i], i, HeadingLevel(KindOf(doc[i])));
    var hi := Headings(doc, i);
    var hn := Headings(doc, |doc|);
    assert Headings(doc, i + 1) == hi + [c];
    HeadingsPrefix(doc, i + 1, |doc|);
    assert hn[..|hi| + 1] == hi + [c];
    assert hn[|hi|] == hn[..|hi| + 1][|hi|];
  }

  /** The new value of top-level node `i`: a heading whose scheme exists gets its number. */
  function Renumbered(doc: seq<Node>, gens: GeneratorMap, i: nat): Node
    requires i < |doc|
  {
    var h := Headings(doc, |doc|);
    var e := |Headings(doc, i)|;
    if HeadingLevel(KindOf(doc[i])) == 0 then doc[i]
    else
      HeadingAt(doc, i);
      if NoTypeOf(h, e) in gens then SetAttr(doc[i], CatNo, VStr(Number(h, gens, e))) else doc[i]
  }

  /** `updateCatalogNo(editor)`: the document once every scheme-numbered heading has its `catNo`. */
  function UpdateCatalogNo(doc: seq<Node>, gens: GeneratorMap): (doc': seq<Node>)
    ensures |doc'| == |doc|
    ensures forall i :: 0 <= i < |doc| ==> doc'[i] == Renumbered(doc, gens, i)
  {
    seq(|doc|, i requires 0 <= i < |doc| => Renumbered(doc, gens, i))
  }

  /** Without a scheme for its numbering type a heading is not written to. */
  lemma NoSchemeNoWrite(doc: seq<Node>, gens: GeneratorMap, i: nat)
    requires i < |doc| && HeadingLevel(KindOf(doc[i])) > 0 && |Headings(doc, i)| < |Headings(doc, |doc|)|
    requires NoTypeOf(Headings(doc, |doc|), |Headings(doc, i)|) !in gens
    ensures UpdateCatalogNo(doc, gens)[i] == doc[i]
  {
  }

  /** Renumbering changes only `catNo`: type, children and the other attributes stay. */
  lemma RenumberedKeepsShape(doc: seq<Node>, gens: GeneratorMap, i: nat)
    requires i < |doc|
    ensures KindOf(Renumbered(doc, gens, i)) == KindOf(doc[i])
    ensures Renumbered(doc, gens, i).Element? == doc[i].Element?
    ensures doc[i].Element? ==> Renumbered(doc, gens, i).children == doc[i].children
    ensures forall k :: k != CatNo ==> Attr(Renumbered(doc, gens, i), k) == Attr(doc[i], k)
  {
  }

  /** An entry as the renumbered document has it: `catNo` replaced when its scheme exists. */
  function Renumber(h: seq<Catalog>, gens: GeneratorMap, e: nat): Catalog
    requires e < |h|
  {
    h[e].(catNo := if NoTypeOf(h, e) in gens then Number(h, gens, e) else h[e].catNo)
  }

  /** The entry of a renumbered heading is the renumbered entry. */
  lemma EntryAfterUpdate(doc: seq<Node>, gens: GeneratorMap, i: nat)
    requires i < |doc| && HeadingLevel(KindOf(doc[i])) > 0
    ensures |Headings(doc, i)| < |Headings(doc, |doc|)|
    ensures var level := HeadingLevel(KindOf(doc[i]));
            Entry(Renumbered(doc, gens, i), i, level) == Renumber(Headings(doc, |doc|), gens, |Headings(doc, i)|)
  {
    HeadingAt(doc, i);
    RenumberedKeepsShape(doc, gens, i);
    var x := Renumbered(doc, gens, i);
    assert GetText(if x.Element? then x.children else []) == GetText(if doc[i].Element? then doc[i].children else []);
    var h := Headings(doc, |doc|);
    var e := |Headings(doc, i)|;
    if NoTypeOf(h, e) in gens {
      assert StrAttr(x, CatNo) == Number(h, gens, e);
    }
  }

  /** The entries of the renumbered document are the renumbered entries, up to `n`. */
  predicate RenumberedUpTo(doc: seq<Node>, gens: GeneratorMap, n: nat)
    requires n <= |doc|
  {
    && |Headings(doc, n)| <= |Headings(doc, |doc|)|
    && Headings(UpdateCatalogNo(doc, gens), n) == RenumberedFirst(Headings(doc, |doc|), gens, |Headings(doc, n)|)
  }

  /** The first `m` entries of `h`, renumbered. */
  function RenumberedFirst(h: seq<Catalog>, gens: GeneratorMap, m: nat): (r: seq<Catalog>)
    requires m <= |h|
    ensures |r| == m
  {
    if m == 0 then [] else RenumberedFirst(h, gens, m - 1) + [Renumber(h, gens, m - 1)]
  }

  /** Entry `e` of the renumbered prefix is entry `e` renumbered. */
  lemma {:induction false} RenumberedFirstAt(h: seq<Catalog>, gens: GeneratorMap, m: nat, e: nat)
    requires e < m <= |h|
    ensures RenumberedFirst(h, gens, m)[e] == Renumber(h, gens, e)
    decreases m
  {
    if e < m - 1 {
      RenumberedFirstAt(h, gens, m - 1, e);
    }
  }

  /** The catalog of the renumbered document: the same entries with the new numbers. */
  lemma HeadingsAfterUpdate(doc: seq<Node>, gens: GeneratorMap, n: nat)
    requires n <= |doc|
    ensures RenumberedUpTo(doc, gens, n)
  {
    var holds := seq(n + 1, k requires 0 <= k <= n => RenumberedUpTo(doc, gens, k));
    RenumberedNone(doc, gens);
    forall k | 0 < k < |holds| && holds[k - 1]
      ensures holds[k]
    {
      RenumberedStep(doc, gens, k - 1, k);
    }
    AllHold(holds, n);
  }

  /** A property that holds at 0 and carries from each index to the next holds everywhere. */
  lemma {:induction false} AllHold(holds: seq<bool>, n: nat)
    requires n < |holds| && holds[0]
    requires forall k :: 0 < k < |holds| && holds[k - 1] ==> holds[k]
    ensures holds[n]
  {
    if n > 0 {
      AllHold(holds, n - 1);
    }
  }

  lemma RenumberedNone(doc: seq<Node>, gens: GeneratorMap)
    ensures RenumberedUpTo(doc, gens, 0)
  {
  }

  lemma RenumberedStep(doc: seq<Node>, gens: GeneratorMap, i: nat, j: nat)
    requires i < |doc| && j == i + 1 && RenumberedUpTo(doc, gens, i)
    ensures RenumberedUpTo(doc, gens, j)
  {
    if HeadingLevel(KindOf(doc[i])) > 0 {
      RenumberedAddsHeading(doc, gens, i);
    } else {
      RenumberedSkipsNode(doc, gens, i);
    }
  }

  lemma RenumberedAddsHeading(doc: seq<Node>, gens: GeneratorMap, i: nat)
    requires i < |doc| && HeadingLevel(KindOf(doc[i])) > 0 && RenumberedUpTo(doc, gens, i)
    ensures RenumberedUpTo(doc, gens, i + 1)
  {
    var doc' := UpdateCatalogNo(doc, gens);
    var level := HeadingLevel(KindOf(doc[i]));
    RenumberedKeepsShape(doc, gens, i);
    assert doc'[i] == Renumbered(doc, gens, i);
    EntryAfterUpdate(doc, gens, i);
    var x := Entry(doc'[i], i, level);
    assert Headings(doc', i + 1) == Headings(doc', i) + [x];
    assert Headings(doc, i + 1) == Headings(doc, i) + [Entry(doc[i], i, level)];
  }

  lemma RenumberedSkipsNode(doc: seq<Node>, gens: GeneratorMap, i: nat)
    requires i < |doc| && HeadingLevel(KindOf(doc[i])) == 0 && RenumberedUpTo(doc, gens, i)
    ensures RenumberedUpTo(doc, gens, i + 1)
  {
    var doc' := UpdateCatalogNo(doc, gens);
    RenumberedKeepsShape(doc, gens, i);
    assert doc'[i] == Renumbered(doc, gens, i);
    assert Headings(doc', i + 1) == Headings(doc', i);
    assert Headings(doc, i + 1) == Headings(doc, i);
  }

  /** A second renumbering computes the same numbers as the first. */
  lemma {:induction false} NumberStable(h: seq<Catalog>, h': seq<Catalog>, gens: GeneratorMap, e: nat)
    requires |h'| == |h| && e < |h|
    requires forall j :: 0 <= j < |h| ==> h'[j] == Renumber(h, gens, j)
    ensures NoTypeOf(h', e) == NoTypeOf(h, e)
    ensures Number(h', gens, e) == Number(h, gens, e)
    decreases e
  {
    ParentOfSameLevels(h, h', h[e].level, e);
    var p := ParentOf(h, h[e].level, e);
    FilterSameLevels(h, h', p, e);
    if p >= 0 {
      NumberStable(h, h', gens, p);
    }
  }

  /** Running `updateCatalogNo` twice with no edit in between gives the numbers of one run. */
  lemma UpdateCatalogNoIdempotent(doc: seq<Node>, gens: GeneratorMap)
    ensures UpdateCatalogNo(UpdateCatalogNo(doc, gens), gens) == UpdateCatalogNo(doc, gens)
  {
    var doc' := UpdateCatalogNo(doc, gens);
    var h := Headings(doc, |doc|);
    var h' := Headings(doc', |doc'|);
    HeadingsAfterUpdate(doc, gens, |doc|);
    forall j | 0 <= j < |h|
      ensures h'[j] == Renumber(h, gens, j)
    {
      RenumberedFirstAt(h, gens, |h|, j);
    }
    forall i | 0 <= i < |doc|
      ensures Renumbered(doc', gens, i) == doc'[i]
    {
      RenumberedKeepsShape(doc, gens, i);
      if HeadingLevel(KindOf(doc[i])) > 0 {
        HeadingAt(doc, i);
        HeadingAt(doc', i);
        HeadingsAfterUpdate(doc, gens, i);
        var e := |Headings(doc, i)|;
        NumberStable(h, h', gens, e);
        if NoTypeOf(h, e) in gens {
          assert doc[i].attrs[CatNo := VStr(Number(h, gens, e))][CatNo := VStr(Number(h, gens, e))]
              == doc[i].attrs[CatNo := VStr(Number(h, gens, e))];
        }
      }
    }
  }

  // ---------------------------------------------------------------------
  // Element styles (xmark-helper.ts:349-365)
  // ---------------------------------------------------------------------

  const StylePrefix := "style-"

  predicate IsStyleKey(k: string)
  {
    |StylePrefix| <= |k| && k[..|StylePrefix|] == StylePrefix
  }

  /** The style property an attribute key names. */
  function StyleName(k: string): (name: string)
    requires IsStyleKey(k)
    ensures StylePrefix + name == k
  {
    assert k == k[..|StylePrefix|] + k[|StylePrefix|..];
    k[|StylePrefix|..]
  }

  /** The attribute key a style property is stored under. */
  function StyleKey(name: string): (k: string)
    ensures IsStyleKey(k) && StyleName(k) == name
  {
    assert (StylePrefix + name)[..|StylePrefix|] == StylePrefix;
    StylePrefix + name
  }

  /** `getElementStyle(element)`: the `style-` attributes with the prefix stripped. */
  function GetElementStyle(attrs: map<string, Value>): map<string, Value>
  {
    map k | k in attrs && IsStyleKey(k) :: StyleName(k) := attrs[k]
  }

  /** The attributes `setElementStyle` writes: every style key prefixed. */
  function StyleSetting(style: map<string, Value>): map<string, Value>
  {
    map s | s in style :: StyleKey(s) := style[s]
  }

  /** `setElementStyle(editor, element, style)`: `Transforms.setNodes` merges the setting in. */
  function SetElementStyle(attrs: map<string, Value>, style: map<string, Value>): map<string, Value>
  {
    attrs + StyleSetting(style)
  }

  /** A property read back after `setElementStyle`: the new value, else the old one. */
  lemma StyleReadBack(attrs: map<string, Value>, style: map<string, Value>, s: string)
    ensures var before := GetElementStyle(attrs);
            var after := GetElementStyle(SetElementStyle(attrs, style));
            && (s in after <==> s in style || s in before)
            && (s in style ==> after[s] == style[s])
            && (s !in style && s in before ==> after[s] == before[s])
  {
    var a' := SetElementStyle(attrs, style);
    var k := StyleKey(s);
    assert s in GetElementStyle(a') <==> k in a' by {
      if s in GetElementStyle(a') {
        var k' :| k' in a' && IsStyleKey(k') && StyleName(k') == s;
        assert k' == k;
      }
    }
    assert s in GetElementStyle(attrs) <==> k in attrs by {
      if s in GetElementStyle(attrs) {
        var k' :| k' in attrs && IsStyleKey(k') && StyleName(k') == s;
        assert k' == k;
      }
    }
    assert k in StyleSetting(style) <==> s in style by {
      if k in StyleSetting(style) {
        var s' :| s' in style && StyleKey(s') == k;
        assert StyleName(StyleKey(s')) == s;
      }
    }
  }

  /** Reading the style back gives the old style overridden by the new one. */
  lemma StyleRoundTrip(attrs: map<string, Value>, style: map<string, Value>)
    ensures GetElementStyle(SetElementStyle(attrs, style)) == GetElementStyle(attrs) + style
  {
    var lhs := GetElementStyle(SetElementStyle(attrs, style));
    var rhs := GetElementStyle(attrs) + style;
    forall s | s in lhs || s in rhs
      ensures s in lhs && s in rhs && lhs[s] == rhs[s]
    {
      StyleReadBack(attrs, style, s);
    }
  }

  /** On an element without style attributes, `getElementStyle` inverts `setElementStyle`. */
  lemma StyleInverse(attrs: map<string, Value>, style: map<string, Value>)
    requires forall k :: k in attrs ==> !IsStyleKey(k)
    ensures GetElementStyle(SetElementStyle(attrs, style)) == style
  {
    StyleRoundTrip(attrs, style);
    assert GetElementStyle(attrs) == map[];
  }
}
