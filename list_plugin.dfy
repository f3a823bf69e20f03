/**
 * The list plugin of src/lib/editor/plugins/list.tsx: the repair rules that
 * keep lists, list items and their `listStyle` consistent, one repair per
 * call, and what backspace and enter do inside a list item.
 */
module ListPlugin {
  import opened Wrappers
  import opened Document
  import opened Helper

  const ListStyle := "listStyle"
  const Checkbox := "checkbox"

  /** `node.listStyle === 'checkbox'`. */
  predicate Checked(n: Node)
  {
    Attr(n, ListStyle) == Some(VStr(Checkbox))
  }

  /** The type of the parent of the node at `p`; `""` for the editor itself, which has none. */
  function ParentKind(pk: string, nodes: seq<Node>, p: Path): string
    requires Get(nodes, p).Some?
    decreases p
  {
    if |p| == 1 then pk else ParentKind(nodes[p[0]].kind, nodes[p[0]].children, p[1..])
  }

  // ---------------------------------------------------------------------
  // normalizeNode (list.tsx:112-161)
  // ---------------------------------------------------------------------

  /** The one repair a call of the list rule issues. */
  datatype ListFix =
    | Keep
    | SetStyle(at: Path, style: string)
    | Unwrap(at: Path)
    | Wrap(at: Path, kind: string)
    | Retype(at: Path)

  /** The repair applied to the document. */
  function ApplyFix(doc: seq<Node>, fix: ListFix): seq<Node>
  {
    match fix
    case Keep => doc
    case SetStyle(p, s) => Replace(doc, p, SetAttrAt(ListStyle, VStr(s)))
    case Unwrap(p) => Replace(doc, p, UnwrapAt())
    case Wrap(p, kind) => Replace(doc, p, WrapAt(kind))
    case Retype(p) => Replace(doc, p, SetKindAt(ListItem))
  }

  /**
   * A list item's rule: its style follows a task, numbered or bulleted list
   * parent; an item inside an item is unwrapped; an item anywhere else is
   * wrapped in a new task list (checkbox style) or bulleted list.  Setting
   * the value an attribute already has issues no operation.
   */
  function ItemFix(parentKind: string, item: Node, p: Path): ListFix
  {
    if parentKind == TaskList then (if Checked(item) then Keep else SetStyle(p, Checkbox))
    else if parentKind == NumberedList || parentKind == BulletedList then
      (if Attr(item, ListStyle) == Some(VStr("")) then Keep else SetStyle(p, ""))
    else if parentKind == ListItem then Unwrap(p)
    else Wrap(p, if Checked(item) then TaskList else BulletedList)
  }

  /**
   * What child `k` of a list at `p` demands: a nested list unwraps the outer
   * list, a non-item is retyped, an item's style follows the list's kind.
   */
  function ChildFix(listKind: string, child: Node, p: Path, k: nat): Option<ListFix>
  {
    if !child.Element? then None
    else if IsList(child.kind) then Some(Unwrap(p))
    else if child.kind != ListItem then Some(Retype(p + [k]))
    else if listKind == TaskList && !Checked(child) then Some(SetStyle(p + [k], Checkbox))
    else if listKind != TaskList && Checked(child) then Some(SetStyle(p + [k], ""))
    else None
  }

  /** The repair demanded by the first of `children[k..]` that demands one. */
  function FirstChildFix(listKind: string, children: seq<Node>, p: Path, k: nat): (fix: ListFix)
    requires k <= |children|
    ensures fix == Keep <==> forall j :: k <= j < |children| ==> ChildFix(listKind, children[j], p, j).None?
    ensures fix != Keep ==>
              exists j :: (k <= j < |children| && Some(fix) == ChildFix(listKind, children[j], p, j)
                           && forall j' :: k <= j' < j ==> ChildFix(listKind, children[j'], p, j').None?)
    decreases |children| - k
  {
    if k == |children| then Keep
    else match ChildFix(listKind, children[k], p, k)
      case Some(fix) => fix
      case None => FirstChildFix(listKind, children, p, k + 1)
  }

  /** The list rule on the node at `p`: the repair it issues. */
  function ListRule(doc: seq<Node>, p: Path): ListFix
    requires Get(doc, p).Some?
  {
    var node := Get(doc, p).value;
    if IsElementOf(node, ListItem) then ItemFix(ParentKind("", doc, p), node, p)
    else if node.Element? && IsList(node.kind) then FirstChildFix(node.kind, node.children, p, 0)
    else Keep
  }

  /**
   * The list plugin's `normalizeNode` on the entry at `p`.  After a list
   * item's repair the entry still goes on to the previous rule; after a
   * list's repair the call returns.
   */
  method NormalizeListNode(doc: seq<Node>, p: Path) returns (doc': seq<Node>, passOn: bool)
    requires Get(doc, p).Some?
    ensures doc' == ApplyFix(doc, ListRule(doc, p))
    ensures passOn <==> ListRule(doc, p) == Keep || IsElementOf(Get(doc, p).value, ListItem)
  {
    var node := Get(doc, p).value;
    if node.Element? && node.kind == ListItem {
      var fix := ItemFix(ParentKind("", doc, p), node, p);
      return ApplyFix(doc, fix), true;
    }
    if node.Element? && IsList(node.kind) {
      var fix := FindChildFix(node.kind, node.children, p);
      return ApplyFix(doc, fix), fix == Keep;
    }
    return doc, true;
  }

  /** The scan of a list's children for the first that needs a repair. */
  method FindChildFix(listKind: string, children: seq<Node>, p: Path) returns (fix: ListFix)
    ensures fix == FirstChildFix(listKind, children, p, 0)
  {
    var k := 0;
    while k < |children|
      invariant 0 <= k <= |children|
      invariant FirstChildFix(listKind, children, p, k) == FirstChildFix(listKind, children, p, 0)
    {
      var child := children[k];
      if child.Element? {
        if IsList(child.kind) {
          return Unwrap(p);
        } else if child.kind != ListItem {
          return Retype(p + [k]);
        } else if listKind == TaskList && !Checked(child) {
          return SetStyle(p + [k], Checkbox);
        } else if listKind != TaskList && Checked(child) {
          return SetStyle(p + [k], "");
        }
      }
      k := k + 1;
    }
    return Keep;
  }

  /**
   * The list constraints at one node: an item sits in a task list with the
   * checkbox style or in a numbered or bulleted list with the empty style;
   * a list's element children are items, none a list, whose style is checkbox
   * exactly when the list is a task list.
   */
  predicate LocalOk(parentKind: string, node: Node)
  {
    && (IsElementOf(node, ListItem) ==>
          (parentKind == TaskList && Checked(node))
          || ((parentKind == NumberedList || parentKind == BulletedList) && Attr(node, ListStyle) == Some(VStr(""))))
    && (node.Element? && IsList(node.kind) ==>
          forall k :: 0 <= k < |node.children| && node.children[k].Element? ==>
            node.children[k].kind == ListItem && (node.kind == TaskList <==> Checked(node.children[k])))
  }

  /** The rule issues no repair exactly when the node meets the constraints. */
  lemma KeepIffLocalOk(doc: seq<Node>, p: Path)
    requires Get(doc, p).Some?
    ensures ListRule(doc, p) == Keep <==> LocalOk(ParentKind("", doc, p), Get(doc, p).value)
  {
    var node := Get(doc, p).value;
    if node.Element? && IsList(node.kind) {
      assert !IsElementOf(node, ListItem);
      forall k | 0 <= k < |node.children|
        ensures ChildFix(node.kind, node.children[k], p, k).None? <==>
                (node.children[k].Element? ==> node.children[k].kind == ListItem && (node.kind == TaskList <==> Checked(node.children[k])))
      {
        if node.children[k].Element? && IsList(node.children[k].kind) {
          assert node.children[k].kind != ListItem;
        }
      }
    }
  }

  /** Every node of the forest meets the constraints, with `pk` the forest's parent type. */
  predicate AllOk(pk: string, nodes: seq<Node>)
    decreases nodes
  {
    forall k :: 0 <= k < |nodes| ==>
      LocalOk(pk, nodes[k]) && (nodes[k].Element? ==> AllOk(nodes[k].kind, nodes[k].children))
  }

  lemma {:induction false} AllOkAt(pk: string, nodes: seq<Node>, p: Path)
    requires AllOk(pk, nodes) && Get(nodes, p).Some?
    ensures LocalOk(ParentKind(pk, nodes, p), Get(nodes, p).value)
    decreases p
  {
    if |p| > 1 {
      AllOkAt(nodes[p[0]].kind, nodes[p[0]].children, p[1..]);
    }
  }

  /** On a document that meets every list constraint the rule changes nothing anywhere. */
  lemma NormalizedIsFixpoint(doc: seq<Node>, p: Path)
    requires AllOk("", doc) && Get(doc, p).Some?
    ensures ListRule(doc, p) == Keep
    ensures ApplyFix(doc, ListRule(doc, p)) == doc
  {
    AllOkAt("", doc, p);
    KeepIffLocalOk(doc, p);
  }

  /** A style repair leaves the item meeting its constraint. */
  lemma StyleRepairHolds(parentKind: string, item: Node, p: Path)
    requires IsElementOf(item, ListItem)
    requires ItemFix(parentKind, item, p).SetStyle?
    ensures LocalOk(parentKind, SetAttr(item, ListStyle, VStr(ItemFix(parentKind, item, p).style)))
  {
  }

  /** The list a stray item is wrapped in meets the constraints, whatever its own parent. */
  lemma WrapRepairHolds(parentKind: string, outer: string, item: Node, p: Path)
    requires IsElementOf(item, ListItem)
    requires ItemFix(parentKind, item, p).Wrap?
    ensures LocalOk(outer, Element(ItemFix(parentKind, item, p).kind, map[], [item]))
  {
  }

  // ---------------------------------------------------------------------
  // deleteBackward (list.tsx:74-111)
  // ---------------------------------------------------------------------

  /** What a key press inside the editor came to. */
  datatype Outcome = PassOn | Handled(doc: seq<Node>) | Throws

  /** `Editor.isEmpty` for a non-void element. */
  predicate IsEmptyElement(n: Node)
  {
    n.Element? && (|n.children| == 0 || (|n.children| == 1 && n.children[0].Text? && n.children[0].text == ""))
  }

  /**
   * `Transforms.mergeNodes` of the block `cur` into the lowest block that
   * ends `prev` (Slate's `Editor.previous` in `lowest` mode): `prev` is
   * entered while its last child is a block.  An empty target is removed and
   * `cur`, moved after it, takes its place; any other target element takes
   * the children of `cur`.  Merging an element into text throws.  The nodes
   * that replace `prev` and `cur`.
   */
  function MergeIntoLast(prev: Node, cur: Node): Option<seq<Node>>
    decreases prev
  {
    if prev.Element? && |prev.children| > 0 && IsBlock(prev.children[|prev.children| - 1]) then
      var cs := prev.children;
      match MergeIntoLast(cs[|cs| - 1], cur)
      case Some(ns) => Some([prev.(children := cs[..|cs| - 1] + ns)])
      case None => None
    else if IsEmptyElement(prev) then Some([cur])
    else if prev.Element? && cur.Element? then Some([prev.(children := prev.children + cur.children)])
    else if prev.Text? && cur.Text? then Some([Text(prev.text + cur.text, prev.marks)])
    else None
  }

  /** `Transforms.mergeNodes` of child `k` into the children before it. */
  function MergeWithPrevious(children: seq<Node>, k: nat): Option<seq<Node>>
    requires 0 < k < |children|
  {
    match MergeIntoLast(children[k - 1], children[k])
    case Some(ns) => Some(children[..k - 1] + ns + children[k + 1..])
    case None => None
  }

  /**
   * Backspace at the start of the list item that is child `k` of `parent`:
   * the new nodes that replace `parent`.  A sole item of a list replaces the
   * list as a paragraph; a first item is lifted out before the list (a sole
   * child replaces the parent) as a paragraph; any other item merges with
   * the previous one.
   */
  function ItemBackspace(parent: Node, k: nat): Option<seq<Node>>
    requires parent.Element? && k < |parent.children|
  {
    var item := parent.children[k];
    if IsList(parent.kind) && |parent.children| == 1 then Some([SetKind(item, Paragraph)])
    else if k == 0 then
      if |parent.children| == 1 then Some([SetKind(item, Paragraph)])
      else Some([SetKind(item, Paragraph), parent.(children := parent.children[1..])])
    else
      match MergeWithPrevious(parent.children, k)
      case Some(cs) => Some([parent.(children := cs)])
      case None => None
  }

  /**
   * The list plugin's `deleteBackward`: `p` is the lowest block above the
   * caret.  Handled when the caret is collapsed at the start of a list item.
   * A list item directly under the editor cannot be lifted (Slate throws),
   * but can be merged with the previous top-level node.
   */
  function ListBackspace(doc: seq<Node>, p: Path, collapsed: bool, atStart: bool): (r: Outcome)
    requires Get(doc, p).Some?
    ensures r.PassOn? <==> !(collapsed && atStart && IsElementOf(Get(doc, p).value, ListItem))
  {
    var block := Get(doc, p).value;
    if !collapsed || !atStart || !IsElementOf(block, ListItem) then PassOn
    else if |p| == 1 then
      if p[0] == 0 then Throws
      else match MergeWithPrevious(doc, p[0]) case Some(d) => Handled(d) case None => Throws
    else
      var pp := p[..|p| - 1];
      GetParent(doc, p);
      var parent := Get(doc, pp).value;
      match ItemBackspace(parent, p[|p| - 1])
      case Some(ns) => Handled(Replace(doc, pp, ReplaceWithAt(ns)))
      case None => Throws
  }

  lemma {:induction false} GetParent(doc: seq<Node>, p: Path)
    requires Get(doc, p).Some? && |p| > 1
    ensures var parent := Get(doc, p[..|p| - 1]);
            parent.Some? && parent.value.Element? && p[|p| - 1] < |parent.value.children|
            && parent.value.children[p[|p| - 1]] == Get(doc, p).value
    decreases p
  {
    if |p| > 2 {
      GetParent(doc[p[0]].children, p[1..]);
      assert p[1..][..|p[1..]| - 1] == p[..|p| - 1][1..];
    }
  }

  /** All the text under a forest, in document order. */
  function Content(ns: seq<Node>): string
    decreases ns
  {
    if |ns| == 0 then "" else NodeContent(ns[0]) + Content(ns[1..])
  }

  function NodeContent(n: Node): string
    decreases n
  {
    match n
    case Text(t, _) => t
    case Element(_, _, cs) => Content(cs)
  }

  lemma {:induction false} ContentConcat(a: seq<Node>, b: seq<Node>)
    ensures Content(a + b) == Content(a) + Content(b)
    decreases |a|
  {
    if |a| == 0 {
      assert a + b == b;
    } else {
      assert (a + b)[1..] == a[1..] + b;
      ContentConcat(a[1..], b);
    }
  }

  lemma ContentOne(n: Node)
    ensures Content([n]) == NodeContent(n)
  {
    assert [n][1..] == [];
  }

  lemma ContentSplice(a: seq<Node>, m: seq<Node>, c: seq<Node>)
    ensures Content(a + m + c) == Content(a) + Content(m) + Content(c)
  {
    ContentConcat(a + m, c);
    ContentConcat(a, m);
  }

  lemma ContentPair(x: Node, y: Node)
    ensures Content([x, y]) == NodeContent(x) + NodeContent(y)
  {
    assert [x, y] == [x] + [y];
    ContentConcat([x], [y]);
    ContentOne(x);
    ContentOne(y);
  }

  /** Merging a block into the end of the previous one never loses or reorders text. */
  lemma {:induction false} MergeIntoLastContent(prev: Node, cur: Node)
    requires MergeIntoLast(prev, cur).Some?
    ensures Content(MergeIntoLast(prev, cur).value) == NodeContent(prev) + NodeContent(cur)
    decreases prev
  {
    var r := MergeIntoLast(prev, cur).value;
    if prev.Element? && |prev.children| > 0 && IsBlock(prev.children[|prev.children| - 1]) {
      var cs := prev.children;
      var last := cs[|cs| - 1];
      var ns := MergeIntoLast(last, cur).value;
      MergeIntoLastContent(last, cur);
      assert r == [prev.(children := cs[..|cs| - 1] + ns)];
      ContentOne(r[0]);
      ContentConcat(cs[..|cs| - 1], ns);
      assert cs == cs[..|cs| - 1] + [last];
      ContentConcat(cs[..|cs| - 1], [last]);
      ContentOne(last);
    } else if IsEmptyElement(prev) {
      DropEmpty(prev, cur);
    } else if prev.Element? {
      MergeElements(prev, cur);
    } else {
      MergeTexts(prev, cur);
    }
  }

  /** Dropping an empty element loses no text. */
  lemma DropEmpty(prev: Node, cur: Node)
    requires IsEmptyElement(prev)
    ensures Content([cur]) == NodeContent(prev) + NodeContent(cur)
  {
    ContentOne(cur);
    if |prev.children| == 1 {
      assert prev.children == [prev.children[0]];
      ContentOne(prev.children[0]);
    }
    assert NodeContent(prev) == "";
  }

  lemma MergeTexts(prev: Node, cur: Node)
    requires prev.Text? && cur.Text?
    ensures Content([Text(prev.text + cur.text, prev.marks)]) == NodeContent(prev) + NodeContent(cur)
  {
    ContentOne(Text(prev.text + cur.text, prev.marks));
  }

  lemma MergeElements(prev: Node, cur: Node)
    requires prev.Element? && cur.Element?
    ensures Content([prev.(children := prev.children + cur.children)]) == NodeContent(prev) + NodeContent(cur)
  {
    ContentOne(prev.(children := prev.children + cur.children));
    ContentConcat(prev.children, cur.children);
  }

  /** Merging never loses or reorders text. */
  lemma MergeKeepsContent(children: seq<Node>, k: nat)
    requires 0 < k < |children| && MergeWithPrevious(children, k).Some?
    ensures Content(MergeWithPrevious(children, k).value) == Content(children)
  {
    var prev := children[k - 1];
    var cur := children[k];
    var a := children[..k - 1];
    var c := children[k + 1..];
    var ns := MergeIntoLast(prev, cur).value;
    assert children == a + [prev, cur] + c;
    ContentSplice(a, [prev, cur], c);
    ContentPair(prev, cur);
    ContentSplice(a, ns, c);
    MergeIntoLastContent(prev, cur);
  }

  /**
   * An item whose content was wrapped in a paragraph (shift-enter) takes the
   * text of the next item into that paragraph, not beside it.
   */
  lemma MergeIntoNestedParagraph(a: string, b: string, m: map<string, Value>)
    ensures var prev := Element(ListItem, map[], [Element(Paragraph, map[], [Text(a, m)])]);
            var cur := Element(ListItem, map[], [Text(b, m)]);
            a != "" ==> MergeIntoLast(prev, cur) == Some([Element(ListItem, map[], [Element(Paragraph, map[], [Text(a, m), Text(b, m)])])])
  {
    var para := Element(Paragraph, map[], [Text(a, m)]);
    var cur := Element(ListItem, map[], [Text(b, m)]);
    assert IsBlock(para) by { assert Paragraph != Link; }
    if a != "" {
      assert !IsBlock(para.children[0]) && !IsEmptyElement(para);
      assert para.children + cur.children == [Text(a, m), Text(b, m)];
      var merged := Element(Paragraph, map[], [Text(a, m), Text(b, m)]);
      assert MergeIntoLast(para, cur) == Some([merged]);
      var prev := Element(ListItem, map[], [para]);
      assert prev.children[..0] + [merged] == [merged];
    }
  }

  /** Backspace at the start of a list item deletes no character. */
  lemma ItemBackspaceKeepsContent(parent: Node, k: nat)
    requires parent.Element? && k < |parent.children| && ItemBackspace(parent, k).Some?
    ensures Content(ItemBackspace(parent, k).value) == NodeContent(parent)
  {
    var cs := parent.children;
    var item := cs[k];
    ContentOne(SetKind(item, Paragraph));
    if |cs| == 1 {
      ContentOne(item);
      assert cs == [item];
    } else if k == 0 {
      var rest := parent.(children := cs[1..]);
      ContentConcat([SetKind(item, Paragraph)], [rest]);
      ContentOne(rest);
      assert cs == [item] + cs[1..];
      ContentConcat([item], cs[1..]);
      ContentOne(item);
    } else {
      MergeKeepsContent(cs, k);
      ContentOne(parent.(children := MergeWithPrevious(cs, k).value));
    }
  }

  /** Replacing a node by nodes holding the same text keeps the document's text. */
  lemma {:induction false} ReplaceKeepsContent(nodes: seq<Node>, p: Path, f: Node -> seq<Node>)
    requires Get(nodes, p).Some? && Content(f(Get(nodes, p).value)) == NodeContent(Get(nodes, p).value)
    ensures Content(Replace(nodes, p, f)) == Content(nodes)
    decreases p
  {
    var i := p[0];
    var a := nodes[..i];
    var c := nodes[i + 1..];
    assert nodes == a + [nodes[i]] + c;
    ContentSplice(a, [nodes[i]], c);
    ContentOne(nodes[i]);
    if |p| == 1 {
      ContentSplice(a, f(nodes[i]), c);
    } else {
      var n := nodes[i];
      ReplaceKeepsContent(n.children, p[1..], f);
      var n' := n.(children := Replace(n.children, p[1..], f));
      assert nodes[i := n'] == a + [n'] + c;
      ContentSplice(a, [n'], c);
      ContentOne(n');
    }
  }

  /** The list plugin's backspace deletes no character of the document. */
  lemma ListBackspaceKeepsContent(doc: seq<Node>, p: Path, collapsed: bool, atStart: bool)
    requires Get(doc, p).Some? && ListBackspace(doc, p, collapsed, atStart).Handled?
    ensures Content(ListBackspace(doc, p, collapsed, atStart).doc) == Content(doc)
  {
    if |p| == 1 {
      MergeKeepsContent(doc, p[0]);
    } else {
      var pp := p[..|p| - 1];
      GetParent(doc, p);
      var parent := Get(doc, pp).value;
      var ns := ItemBackspace(parent, p[|p| - 1]).value;
      ItemBackspaceKeepsContent(parent, p[|p| - 1]);
      ReplaceKeepsContent(doc, pp, ReplaceWithAt(ns));
    }
  }

  /** A sole item replaces its list as a paragraph with the item's children. */
  lemma SoleItemBecomesParagraph(parent: Node)
    requires parent.Element? && IsList(parent.kind) && |parent.children| == 1 && IsElementOf(parent.children[0], ListItem)
    ensures ItemBackspace(parent, 0) == Some([Element(Paragraph, parent.children[0].attrs, parent.children[0].children)])
  {
  }

  // ---------------------------------------------------------------------
  // insertBreak (list.tsx:37-72)
  // ---------------------------------------------------------------------

  /** What enter does inside a list item. */
  datatype BreakAction =
    | PlainBreak              // the previous `insertBreak` alone
    | WrapFirstThenBreak      // the item's first child goes into a paragraph, then the previous `insertBreak`
    | BreakThenLift           // split, and lift the new block out of the item: a new item
    | BreakLiftToParagraph    // split, lift, and make the new block a paragraph: leave the list

  /**
   * The decision for enter with the caret in the list item `item` whose
   * lowest block is of type `blockKind`.  `isLast` says the item is its
   * parent's last child.
   */
  function BreakDecision(collapsed: bool, inItem: bool, blockKind: string, shift: bool, item: Node, isLast: bool): BreakAction
  {
    if !collapsed || !inItem then PlainBreak
    else if blockKind == ListItem && shift then WrapFirstThenBreak
    else if blockKind == Paragraph then BreakThenLift
    else if isLast && GetText(if item.Element? then item.children else []) == "" then BreakLiftToParagraph
    else PlainBreak
  }

  /** Enter leaves the list only from an empty last item that is not itself a paragraph line. */
  lemma LeavesListOnlyFromEmptyLastItem(collapsed: bool, inItem: bool, blockKind: string, shift: bool, item: Node, isLast: bool)
    ensures BreakDecision(collapsed, inItem, blockKind, shift, item, isLast) == BreakLiftToParagraph
            <==> collapsed && inItem && blockKind != Paragraph && !(blockKind == ListItem && shift)
                 && isLast && GetText(if item.Element? then item.children else []) == ""
  {
  }

  /**
   * What Slate's `insertBreak` splits off at the end of an item with no
   * text: a copy of the item with one empty text.
   */
  function EmptyCopy(item: Node): Node
  {
    if item.Element? then item.(children := [Text("", map[])]) else Text("", map[])
  }

  /**
   * `BreakLiftToParagraph` on the parent `list` of the item: the split
   * leaves the empty item in place with its copy after it, the lift moves
   * the copy, the parent's last child, out after the parent, and the copy
   * becomes a paragraph.  The nodes that replace the parent.
   */
  function LeaveList(list: Node): seq<Node>
  {
    if list.Element? && |list.children| > 0
    then [list, SetKind(EmptyCopy(list.children[|list.children| - 1]), Paragraph)]
    else [list]
  }

  /** The document after enter in the empty last item of the parent at `lp`. */
  function BreakLeaveList(doc: seq<Node>, lp: Path): seq<Node>
  {
    Replace(doc, lp, (n: Node) => LeaveList(n))
  }

  /**
   * Leaving the list keeps the parent whole, every item in it, and puts an
   * empty paragraph right after it; the document's text is unchanged.
   */
  lemma EnterLeavesList(doc: seq<Node>, lp: Path)
    requires Get(doc, lp).Some? && Get(doc, lp).value.Element? && |Get(doc, lp).value.children| > 0
    requires IsElementOf(Get(doc, lp).value.children[|Get(doc, lp).value.children| - 1], ListItem)
    ensures var r := BreakLeaveList(doc, lp);
            var next := lp[..|lp| - 1] + [lp[|lp| - 1] + 1];
            && Get(r, lp) == Get(doc, lp)
            && Get(r, next).Some? && IsElementOf(Get(r, next).value, Paragraph)
            && NodeContent(Get(r, next).value) == ""
            && Content(r) == Content(doc)
  {
    var f := (n: Node) => LeaveList(n);
    var list := Get(doc, lp).value;
    var para := SetKind(EmptyCopy(list.children[|list.children| - 1]), Paragraph);
    assert f(list) == [list, para];
    ReplaceTwo(doc, lp, f);
    ContentOne(Text("", map[]));
    assert NodeContent(para) == Content([Text("", map[])]);
    ContentPair(list, para);
    ReplaceKeepsContent(doc, lp, f);
  }
}
