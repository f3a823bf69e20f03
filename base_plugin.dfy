/**
 * The base plugin of src/lib/editor/plugins/base.tsx: the default heading
 * numbering scheme, the paragraph repair, the block reset on backspace, the
 * void rule for horizontal lines, the leaf style of the text marks and the
 * font-size shown in the toolbar.
 */
module BasePlugin {
  import opened Wrappers
  import opened Document
  import opened Helper

  // ---------------------------------------------------------------------
  // Decimal numbers and JavaScript whitespace
  // ---------------------------------------------------------------------

  /** The decimal digit character of `d`. */
  function DigitChar(d: nat): char
    requires d < 10
  {
    "0123456789"[d]
  }

  /** JavaScript's `String(n)` for a natural number. */
  function NatToString(n: nat): (s: string)
    ensures |s| > 0
    ensures forall i :: 0 <= i < |s| ==> '0' <= s[i] <= '9'
    decreases n
  {
    if n < 10 then [DigitChar(n)] else NatToString(n / 10) + [DigitChar(n % 10)]
  }

  /** The value of a string of decimal digits. */
  function ParseNat(s: string): nat
    requires forall i :: 0 <= i < |s| ==> '0' <= s[i] <= '9'
  {
    if |s| == 0 then 0 else ParseNat(s[..|s| - 1]) * 10 + (s[|s| - 1] as int - '0' as int)
  }

  /** Reading a number back gives the number: `String` is injective on numbers. */
  lemma {:induction false} ParseNatToString(n: nat)
    ensures ParseNat(NatToString(n)) == n
    decreases n
  {
    var s := NatToString(n);
    if n < 10 {
      assert s == [DigitChar(n)];
      assert s[..0] == [];
    } else {
      ParseNatToString(n / 10);
      assert s[..|s| - 1] == NatToString(n / 10);
      assert s[|s| - 1] == DigitChar(n % 10);
    }
  }

  /** The characters `String.prototype.trim` removes: white space and line terminators. */
  predicate IsJsSpace(c: char)
  {
    var u := c as int;
    u == 0x09 || u == 0x0A || u == 0x0B || u == 0x0C || u == 0x0D || u == 0x20
    || u == 0xA0 || u == 0x1680 || (0x2000 <= u <= 0x200A) || u == 0x2028 || u == 0x2029
    || u == 0x202F || u == 0x205F || u == 0x3000 || u == 0xFEFF
  }

  /** `s.trim().length == 0`. */
  predicate Blank(s: string)
  {
    forall i :: 0 <= i < |s| ==> IsJsSpace(s[i])
  }

  // ---------------------------------------------------------------------
  // catalogNo.default (base.tsx:403-413)
  // ---------------------------------------------------------------------

  /** `generate(parentNo, index)` of the `default` scheme: `1.`, `1.2.`, … */
  function DefaultGenerate(parentNo: string, index: nat): (r: string)
    ensures |r| >= 2 && r[|r| - 1] == '.'
    ensures !Blank(parentNo) ==> |parentNo| < |r| && r[..|parentNo|] == parentNo
  {
    if !Blank(parentNo) then parentNo + NatToString(index + 1) + "." else NatToString(index + 1) + "."
  }

  /** The schemes the base plugin contributes. */
  const BaseGenerators: GeneratorMap := map[DefaultNoType := (p: string, i: nat) => DefaultGenerate(p, i)]

  /** A default number is never blank, so a sub-heading's number always starts with its parent's. */
  lemma DefaultNumberNotBlank(parentNo: string, index: nat)
    ensures !Blank(DefaultGenerate(parentNo, index))
  {
    var r := DefaultGenerate(parentNo, index);
    assert !IsJsSpace('.');
    assert r[|r| - 1] == '.';
  }

  /** The last component of a default number is the sibling position, counted from 1. */
  lemma DefaultNumberComponent(parentNo: string, index: nat)
    ensures var prefix := if Blank(parentNo) then "" else parentNo;
            var r := DefaultGenerate(parentNo, index);
            && |prefix| < |r|
            && r[..|prefix|] == prefix
            && r[|r| - 1] == '.'
            && (forall i :: |prefix| <= i < |r| - 1 ==> '0' <= r[i] <= '9')
            && ParseNat(r[|prefix|..|r| - 1]) == index + 1
  {
    var prefix := if Blank(parentNo) then "" else parentNo;
    var r := DefaultGenerate(parentNo, index);
    assert r == prefix + NatToString(index + 1) + ".";
    assert r[|prefix|..|r| - 1] == NatToString(index + 1);
    ParseNatToString(index + 1);
  }

  /** Siblings get different default numbers. */
  lemma DefaultSiblingsDistinct(parentNo: string, i: nat, j: nat)
    requires i != j
    ensures DefaultGenerate(parentNo, i) != DefaultGenerate(parentNo, j)
  {
    DefaultNumberComponent(parentNo, i);
    DefaultNumberComponent(parentNo, j);
  }

  // ---------------------------------------------------------------------
  // The paragraph repair of normalizeNode (base.tsx:321-336)
  // ---------------------------------------------------------------------

  /** The number of nodes in a tree. */
  function Size(n: Node): nat
    decreases n
  {
    match n
    case Text(_, _) => 1
    case Element(_, _, children) => 1 + SizeAll(children)
  }

  function SizeAll(ns: seq<Node>): nat
    decreases ns
  {
    if |ns| == 0 then 0 else Size(ns[0]) + SizeAll(ns[1..])
  }

  lemma {:induction false} SizeAllConcat(a: seq<Node>, b: seq<Node>)
    ensures SizeAll(a + b) == SizeAll(a) + SizeAll(b)
    decreases |a|
  {
    if |a| == 0 {
      assert a + b == b;
    } else {
      assert (a + b)[1..] == a[1..] + b;
      SizeAllConcat(a[1..], b);
    }
  }

  /** The children of `node` with the element child at `k` replaced by its own children. */
  function UnwrapChild(node: Node, k: nat): Node
    requires node.Element? && k < |node.children| && node.children[k].Element?
  {
    node.(children := node.children[..k] + node.children[k].children + node.children[k + 1..])
  }

  /**
   * The paragraph rule of `normalizeNode` on one node: the first block child
   * of a paragraph is unwrapped and the call returns; None passes the node on
   * to the previous rule.
   */
  method NormalizeParagraph(node: Node) returns (r: Option<Node>)
    ensures r.None? <==> (!IsElementOf(node, Paragraph) || forall k :: 0 <= k < |node.children| ==> !IsBlock(node.children[k]))
    ensures r.Some? ==> (IsElementOf(node, Paragraph) &&
              exists k :: 0 <= k < |node.children| && IsBlock(node.children[k])
                && (forall k' :: 0 <= k' < k ==> !IsBlock(node.children[k']))
                && r.value == UnwrapChild(node, k))
  {
    if !node.Element? || node.kind != Paragraph {
      return None;
    }
    var k := 0;
    while k < |node.children|
      invariant 0 <= k <= |node.children|
      invariant forall k' :: 0 <= k' < k ==> !IsBlock(node.children[k'])
    {
      var child := node.children[k];
      if child.Element? && !IsInline(child) {
        return Some(UnwrapChild(node, k));
      }
      k := k + 1;
    }
    return None;
  }

  /** Each unwrap removes one node, so repeated normalisation of a paragraph ends. */
  lemma UnwrapShrinks(node: Node, k: nat)
    requires node.Element? && k < |node.children| && node.children[k].Element?
    ensures Size(UnwrapChild(node, k)) == Size(node) - 1
  {
    var cs := node.children;
    assert cs == cs[..k] + [cs[k]] + cs[k + 1..];
    SizeAllConcat(cs[..k] + [cs[k]], cs[k + 1..]);
    SizeAllConcat(cs[..k], [cs[k]]);
    SizeAllConcat(cs[..k] + cs[k].children, cs[k + 1..]);
    SizeAllConcat(cs[..k], cs[k].children);
    assert SizeAll([cs[k]]) == Size(cs[k]) by {
      assert [cs[k]][1..] == [];
    }
  }

  // ---------------------------------------------------------------------
  // deleteBackward (base.tsx:289-319)
  // ---------------------------------------------------------------------

  /** `type.startsWith('heading-')`. */
  predicate IsHeadingKind(kind: string)
  {
    |HeadingPrefix| <= |kind| && kind[..|HeadingPrefix|] == HeadingPrefix
  }

  /**
   * Backspace.  `path` is the lowest block above the selection; the key is
   * handled when the selection is a caret at the start of a block that is not
   * a paragraph: a block other than a table cell becomes a paragraph, and a
   * heading renumbers the catalog.  None: the previous `deleteBackward` runs.
   */
  function BlockReset(doc: seq<Node>, path: Path, collapsed: bool, atStart: bool, gens: GeneratorMap): (r: Option<seq<Node>>)
    ensures r.Some? <==> collapsed && atStart && Get(doc, path).Some? && IsBlock(Get(doc, path).value)
                         && Get(doc, path).value.kind != Paragraph
  {
    if !collapsed || Get(doc, path).None? || !IsBlock(Get(doc, path).value) then None
    else
      var block := Get(doc, path).value;
      if block.kind == Paragraph || !atStart then None
      else
        var reset := if block.kind != TableCell then Replace(doc, path, SetKindAt(Paragraph)) else doc;
        Some(if IsHeadingKind(block.kind) then UpdateCatalogNo(reset, gens) else reset)
  }

  /** Renumbering keeps every node's type and every nested node. */
  lemma UpdateKeepsKinds(doc: seq<Node>, gens: GeneratorMap, p: Path)
    requires Get(doc, p).Some?
    ensures Get(UpdateCatalogNo(doc, gens), p).Some?
    ensures Get(UpdateCatalogNo(doc, gens), p).value.Element? == Get(doc, p).value.Element?
    ensures Get(doc, p).value.Element? ==> Get(UpdateCatalogNo(doc, gens), p).value.kind == Get(doc, p).value.kind
  {
    var doc' := UpdateCatalogNo(doc, gens);
    RenumberedKeepsShape(doc, gens, p[0]);
    assert doc'[p[0]] == Renumbered(doc, gens, p[0]);
  }

  /** After a handled backspace the block is a paragraph, or still the table cell it was. */
  lemma BlockResetMakesParagraph(doc: seq<Node>, path: Path, gens: GeneratorMap)
    requires BlockReset(doc, path, true, true, gens).Some?
    ensures var block := Get(doc, path).value;
            var after := Get(BlockReset(doc, path, true, true, gens).value, path);
            && after.Some? && after.value.Element?
            && after.value.kind == (if block.kind == TableCell then TableCell else Paragraph)
  {
    var block := Get(doc, path).value;
    var f := SetKindAt(Paragraph);
    var reset := if block.kind != TableCell then Replace(doc, path, f) else doc;
    if block.kind != TableCell {
      assert f(block) == [SetKind(block, Paragraph)];
      ReplaceOneKeepsLength(doc, path, f);
    }
    assert Get(reset, path).Some? && Get(reset, path).value.Element?;
    if IsHeadingKind(block.kind) {
      UpdateKeepsKinds(reset, gens, path);
    }
  }

  /** A handled backspace in a table cell, or at the start of anything but a heading there, changes nothing. */
  lemma CellBackspaceKeepsDocument(doc: seq<Node>, path: Path, gens: GeneratorMap)
    requires Get(doc, path).Some? && IsElementOf(Get(doc, path).value, TableCell)
    ensures BlockReset(doc, path, true, true, gens) == Some(doc)
  {
    assert TableCell[0] != HeadingPrefix[0];
    assert TableCell != Paragraph by {
      assert |TableCell| != |Paragraph|;
    }
  }

  // ---------------------------------------------------------------------
  // isVoid (base.tsx:285-287)
  // ---------------------------------------------------------------------

  /** `editor.isVoid`: horizontal lines are void, everything else as the previous rule says. */
  function IsVoid(n: Node, previous: Node -> bool): (r: bool)
    ensures IsElementOf(n, HLine) ==> r
    ensures !IsElementOf(n, HLine) ==> r == previous(n)
  {
    if n.Element? && n.kind == HLine then true else previous(n)
  }

  // ---------------------------------------------------------------------
  // renderLeaf (base.tsx:366-391)
  // ---------------------------------------------------------------------

  /** The CSS properties of a leaf's `style` object, as strings. */
  type Style = map<string, string>

  /** A leaf rendered: its style and whether the text is wrapped in `<code>`. */
  datatype Leaf = Leaf(style: Style, code: bool)

  const FontSize := "font-size"

  /** `leaf[format]` is truthy. */
  predicate MarkOn(marks: Marks, format: string)
  {
    format in marks && Truthy(marks[format])
  }

  /** JavaScript's `String(v)` for an attribute value. */
  function ValueText(v: Value): string
  {
    match v
    case VStr(s) => s
    case VBool(b) => if b then "true" else "false"
    case VInt(i) => if i < 0 then "-" + NatToString(-i) else NatToString(i)
  }

  /** The property `k` when it is written, else none. */
  function KeyIf(on: bool, k: string): set<string>
  {
    if on then {k} else {}
  }

  /** `if (on) style[k] = v`: one conditional property write. */
  function SetIf(style: Style, on: bool, k: string, v: string): (r: Style)
    ensures r.Keys == style.Keys + KeyIf(on, k)
    ensures on ==> r[k] == v
    ensures forall j :: j in style && (j != k || !on) ==> r[j] == style[j]
  {
    if on then style[k := v] else style
  }

  /**
   * The base plugin's `renderLeaf`: bold, italic, font size and one text
   * decoration go into the style; strike-through wins over underline.
   */
  function LeafStyle(marks: Marks, style: Style, code: bool): (r: Leaf)
    ensures r.code <==> code || MarkOn(marks, Code)
    ensures MarkOn(marks, Deleteline) ==> "textDecoration" in r.style && r.style["textDecoration"] == "line-through"
    ensures !MarkOn(marks, Deleteline) && MarkOn(marks, Underline) ==> "textDecoration" in r.style && r.style["textDecoration"] == "underline"
    ensures MarkOn(marks, FontSize) ==> "fontSize" in r.style && r.style["fontSize"] == ValueText(marks[FontSize]) + "px"
    ensures MarkOn(marks, "bold") ==> "fontWeight" in r.style && r.style["fontWeight"] == "700"
    ensures MarkOn(marks, "italic") ==> "fontStyle" in r.style && r.style["fontStyle"] == "italic"
    ensures forall k :: k in style && k != "fontWeight" && k != "fontStyle" && k != "fontSize" && k != "textDecoration" ==> k in r.style && r.style[k] == style[k]
    ensures r.style.Keys == style.Keys + KeyIf(MarkOn(marks, "bold"), "fontWeight") + KeyIf(MarkOn(marks, "italic"), "fontStyle")
                            + KeyIf(MarkOn(marks, FontSize), "fontSize") + KeyIf(MarkOn(marks, Deleteline) || MarkOn(marks, Underline), "textDecoration")
    ensures !MarkOn(marks, "bold") && "fontWeight" in style ==> r.style["fontWeight"] == style["fontWeight"]
    ensures !MarkOn(marks, "italic") && "fontStyle" in style ==> r.style["fontStyle"] == style["fontStyle"]
    ensures !MarkOn(marks, FontSize) && "fontSize" in style ==> r.style["fontSize"] == style["fontSize"]
    ensures !MarkOn(marks, Deleteline) && !MarkOn(marks, Underline) && "textDecoration" in style
            ==> r.style["textDecoration"] == style["textDecoration"]
  {
    assert "fontWeight" != "fontStyle" && "fontWeight" != "fontSize" && "fontWeight" != "textDecoration";
    assert "fontStyle" != "fontSize" && "fontStyle" != "textDecoration" && "fontSize" != "textDecoration";
    var s0 := SetIf(style, MarkOn(marks, "bold"), "fontWeight", "700");
    var s1 := SetIf(s0, MarkOn(marks, "italic"), "fontStyle", "italic");
    var s2 := SetIf(s1, MarkOn(marks, FontSize), "fontSize", if MarkOn(marks, FontSize) then ValueText(marks[FontSize]) + "px" else "");
    var s3 := SetIf(s2, MarkOn(marks, Deleteline) || MarkOn(marks, Underline), "textDecoration",
                    if MarkOn(marks, Deleteline) then "line-through" else "underline");
    Leaf(s3, code || MarkOn(marks, Code))
  }

  /** A leaf without marks is rendered as it comes. */
  lemma PlainLeafUnchanged(style: Style, code: bool)
    ensures LeafStyle(map[], style, code) == Leaf(style, code)
  {
  }

  /**
   * Toggling a decoration on shows exactly that decoration: `toggleMark`
   * drops the other one, so strike-through cannot hide an underline.
   */
  lemma ToggledDecorationShows(marks: Marks, format: string, style: Style)
    requires format == Deleteline || format == Underline
    requires !IsMarkActive(Some(marks), format)
    ensures var m := ToggleMark(Some(marks), format, VBool(true)).value;
            LeafStyle(m, style, false).style["textDecoration"] == (if format == Deleteline then "line-through" else "underline")
  {
    var m := ToggleMark(Some(marks), format, VBool(true)).value;
    assert MarkOn(m, format);
    if format == Underline {
      assert Deleteline != Underline;
      assert !MarkOn(m, Deleteline);
    }
  }

  // ---------------------------------------------------------------------
  // The font-size button's sync (base.tsx:122-135)
  // ---------------------------------------------------------------------

  const DefaultFontSize := VStr("14")

  /**
   * The font size the toolbar shows: that of the first text node of the
   * selection with a truthy `font-size`, else `14`.
   */
  method FontSizeSync(leaves: seq<Marks>) returns (size: Value)
    ensures (forall k :: 0 <= k < |leaves| ==> !MarkOn(leaves[k], FontSize)) ==> size == DefaultFontSize
    ensures (exists k :: 0 <= k < |leaves| && MarkOn(leaves[k], FontSize)) ==>
              exists k :: 0 <= k < |leaves| && MarkOn(leaves[k], FontSize) && size == leaves[k][FontSize]
                && forall k' :: 0 <= k' < k ==> !MarkOn(leaves[k'], FontSize)
  {
    size := DefaultFontSize;
    var k := 0;
    while k < |leaves|
      invariant 0 <= k <= |leaves|
      invariant forall k' :: 0 <= k' < k ==> !MarkOn(leaves[k'], FontSize)
    {
      if FontSize in leaves[k] && Truthy(leaves[k][FontSize]) {
        size := leaves[k][FontSize];
        return;
      }
      k := k + 1;
    }
  }
}
