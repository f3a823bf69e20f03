/**
 * The editor document as Slate stores it: a forest of element and text
 * nodes, element types (`ElementType` in src/lib/editor/helpers/xmark-helper.ts),
 * and the path-addressed edits the plugins issue (set, wrap, unwrap, insert,
 * remove).
 */
module Document {
  import opened Wrappers

  /** A JSON attribute value on a node: the booleans, strings and numbers the editor stores. */
  datatype Value = VBool(b: bool) | VStr(s: string) | VInt(i: int)

  /** JavaScript truthiness of an attribute value. */
  predicate Truthy(v: Value)
  {
    match v
    case VBool(b) => b
    case VStr(s) => s != ""
    case VInt(i) => i != 0
  }

  /** A text leaf with its marks, or an element with a `type`, other attributes and children. */
  datatype Node =
    | Text(text: string, marks: map<string, Value>)
    | Element(kind: string, attrs: map<string, Value>, children: seq<Node>)

  type Path = seq<nat>

  // Element types.
  const Paragraph := "paragraph"
  const Heading1 := "heading-1"
  const Heading2 := "heading-2"
  const Heading3 := "heading-3"
  const Heading4 := "heading-4"
  const Heading5 := "heading-5"
  const Heading6 := "heading-6"
  const HeadingPrefix := "heading-"
  const BlockQuote := "block-quote"
  const HLine := "h-line"
  const BulletedList := "bulleted-list"
  const NumberedList := "numbered-list"
  const TaskList := "task-list"
  const ListItem := "list-item"
  const Code := "code"
  const Draw := "draw"
  const Image := "image"
  const Link := "link"
  const Table := "table"
  const TableRow := "tr"
  const TableCell := "td"

  /** `LIST_TYPES.includes(type)`. */
  predicate IsList(kind: string)
  {
    kind == NumberedList || kind == BulletedList || kind == TaskList
  }

  /** `editor.isInline` once the link plugin is installed: only links are inline. */
  predicate IsInline(n: Node)
  {
    n.Element? && n.kind == Link
  }

  /** `Editor.isBlock`: an element that is not inline. */
  predicate IsBlock(n: Node)
  {
    n.Element? && !IsInline(n)
  }

  predicate IsElementOf(n: Node, kind: string)
  {
    n.Element? && n.kind == kind
  }

  /** The attribute `key` of an element; text nodes carry marks instead. */
  function Attr(n: Node, key: string): Option<Value>
  {
    if n.Element? && key in n.attrs then Some(n.attrs[key]) else None
  }

  /** `Transforms.setNodes` of one attribute on an element; text nodes are left alone. */
  function SetAttr(n: Node, key: string, v: Value): (r: Node)
    ensures r.Element? == n.Element?
    ensures n.Element? ==> r.kind == n.kind && r.children == n.children && Attr(r, key) == Some(v)
    ensures forall k :: k != key ==> Attr(r, k) == Attr(n, k)
  {
    if n.Element? then n.(attrs := n.attrs[key := v]) else n
  }

  /** Setting an attribute to the value it already has changes nothing (Slate issues no operation). */
  lemma SetAttrSame(n: Node, key: string, v: Value)
    requires Attr(n, key) == Some(v)
    ensures SetAttr(n, key, v) == n
  {
    assert n.attrs[key := v] == n.attrs;
  }

  /** Sets the element type; text nodes are left alone. */
  function SetKind(n: Node, kind: string): (r: Node)
    ensures n.Element? ==> r == Element(kind, n.attrs, n.children)
    ensures n.Text? ==> r == n
  {
    if n.Element? then n.(kind := kind) else n
  }

  /** The node at `p` in the forest `nodes`, if the path exists. */
  function Get(nodes: seq<Node>, p: Path): Option<Node>
    decreases p
  {
    if |p| == 0 || p[0] >= |nodes| then None
    else if |p| == 1 then Some(nodes[p[0]])
    else if nodes[p[0]].Text? then None
    else Get(nodes[p[0]].children, p[1..])
  }

  /**
   * Replaces the node at `p` by the nodes `f(node)`: a set is `[n']`, an
   * unwrap is `n.children`, a wrap is `[Element(kind, {}, [n])]`, a remove is
   * `[]`.  An address that does not exist leaves the forest unchanged.
   */
  function Replace(nodes: seq<Node>, p: Path, f: Node -> seq<Node>): seq<Node>
    decreases p
  {
    if |p| == 0 || p[0] >= |nodes| then nodes
    else if |p| == 1 then nodes[..p[0]] + f(nodes[p[0]]) + nodes[p[0] + 1..]
    else if nodes[p[0]].Text? then nodes
    else
      var n := nodes[p[0]];
      nodes[p[0] := n.(children := Replace(n.children, p[1..], f))]
  }

  /** Replacing a node by itself is the identity. */
  lemma {:induction false} ReplaceSame(nodes: seq<Node>, p: Path, f: Node -> seq<Node>)
    requires Get(nodes, p).Some? && f(Get(nodes, p).value) == [Get(nodes, p).value]
    ensures Replace(nodes, p, f) == nodes
    decreases p
  {
    if |p| == 1 {
      assert nodes[..p[0]] + [nodes[p[0]]] + nodes[p[0] + 1..] == nodes;
    } else {
      var n := nodes[p[0]];
      ReplaceSame(n.children, p[1..], f);
      assert n.(children := n.children) == n;
    }
  }

  /** Only the addressed slot changes: a one-for-one replacement keeps the forest's length. */
  lemma {:induction false} ReplaceOneKeepsLength(nodes: seq<Node>, p: Path, f: Node -> seq<Node>)
    requires Get(nodes, p).Some? && |f(Get(nodes, p).value)| == 1
    ensures |Replace(nodes, p, f)| == |nodes|
    ensures |p| > 1 ==> Replace(nodes, p, f)[..p[0]] == nodes[..p[0]] && Replace(nodes, p, f)[p[0] + 1..] == nodes[p[0] + 1..]
    ensures Get(Replace(nodes, p, f), p) == Some(f(Get(nodes, p).value)[0])
    decreases p
  {
    if |p| > 1 {
      var n := nodes[p[0]];
      ReplaceOneKeepsLength(n.children, p[1..], f);
    }
  }

  /** A replacement by two nodes puts the first at the address and the second right after it. */
  lemma {:induction false} ReplaceTwo(nodes: seq<Node>, p: Path, f: Node -> seq<Node>)
    requires Get(nodes, p).Some? && |f(Get(nodes, p).value)| == 2
    ensures Get(Replace(nodes, p, f), p) == Some(f(Get(nodes, p).value)[0])
    ensures Get(Replace(nodes, p, f), p[..|p| - 1] + [p[|p| - 1] + 1]) == Some(f(Get(nodes, p).value)[1])
    decreases p
  {
    var q := p[..|p| - 1] + [p[|p| - 1] + 1];
    if |p| > 1 {
      var n := nodes[p[0]];
      ReplaceTwo(n.children, p[1..], f);
      assert q[0] == p[0] && q[1..] == p[1..][..|p[1..]| - 1] + [p[1..][|p[1..]| - 1] + 1];
    } else {
      assert q == [p[0] + 1];
    }
  }

  // Edit functions for `Replace`.
  function SetAttrAt(key: string, v: Value): Node -> seq<Node>
  {
    (n: Node) => [SetAttr(n, key, v)]
  }

  function SetKindAt(kind: string): Node -> seq<Node>
  {
    (n: Node) => [SetKind(n, kind)]
  }

  /** `Transforms.unwrapNodes` at a path: an element is replaced by its children. */
  function UnwrapAt(): Node -> seq<Node>
  {
    (n: Node) => if n.Element? then n.children else [n]
  }

  /** `Transforms.wrapNodes` at a path with a fresh wrapper of type `kind`. */
  function WrapAt(kind: string): Node -> seq<Node>
  {
    (n: Node) => [Element(kind, map[], [n])]
  }

  /** Replacing the node at a path by the given nodes. */
  function ReplaceWithAt(ns: seq<Node>): Node -> seq<Node>
  {
    (n: Node) => ns
  }
}
