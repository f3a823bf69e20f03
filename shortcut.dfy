/**
 * The shortcut plugin of src/lib/editor/plugins/shortcut.tsx: a space after
 * a Markdown-like prefix at the start of a block converts the block, and a
 * tab at the start of a heading changes its level.  The handler is modelled
 * as the ordered list of editor commands it issues.
 */
module Shortcut {
  import opened Wrappers
  import opened Document
  import opened Helper
  import opened BasePlugin

  /** An entry of the shortcut table: the block type and its options. */
  datatype Shortcut = Shortcut(kind: string, newLine: bool, wrap: Option<string>, attrs: map<string, Value>)

  function Plain(kind: string): Shortcut
  {
    Shortcut(kind, false, None, map[])
  }

  function Item(wrap: string): Shortcut
  {
    Shortcut(ListItem, false, Some(wrap), map[])
  }

  /** The `SHORTCUTS` table. */
  function Shortcuts(prefix: string): Option<Shortcut>
  {
    if prefix == ">" then Some(Plain(BlockQuote))
    else if prefix == "#" || prefix == "#1" then Some(Plain(Heading1))
    else if prefix == "##" || prefix == "#2" then Some(Plain(Heading2))
    else if prefix == "###" || prefix == "#3" then Some(Plain(Heading3))
    else if prefix == "####" || prefix == "#4" then Some(Plain(Heading4))
    else if prefix == "#####" || prefix == "#5" then Some(Plain(Heading5))
    else if prefix == "######" || prefix == "#6" then Some(Plain(Heading6))
    else if prefix == "---" then Some(Shortcut(HLine, true, None, map[]))
    else if prefix == "*" then Some(Item(NumberedList))
    else if prefix == "-" then Some(Item(BulletedList))
    else if prefix == "+" then Some(Item(TaskList))
    else if prefix == "```" then Some(Shortcut(Code, false, None, map["lang" := VStr("Java")]))
    else None
  }

  /**
   * The keys `SHORTCUTS[prefix]` also finds on the table, a plain object
   * literal: the members it inherits from `Object.prototype`, every one of
   * them a truthy value without a `type`.
   */
  predicate InheritedKey(prefix: string)
  {
    prefix in {"constructor", "hasOwnProperty", "isPrototypeOf", "propertyIsEnumerable",
               "toString", "toLocaleString", "valueOf", "__proto__",
               "__defineGetter__", "__defineSetter__", "__lookupGetter__", "__lookupSetter__"}
  }

  /** No own key of the table is an inherited one. */
  lemma OwnKeysNotInherited(prefix: string)
    requires Shortcuts(prefix).Some?
    ensures !InheritedKey(prefix)
  {
    assert |prefix| > 0 && prefix[0] in ">#-*+`";
  }

  function Hashes(n: nat): string
  {
    if n == 0 then "" else Hashes(n - 1) + "#"
  }

  /** `n` hash signs give the level-`n` heading, for `n` in 1..6. */
  lemma HashShortcuts(n: nat)
    requires 1 <= n <= 6
    ensures Shortcuts(Hashes(n)) == Some(Plain(HeadingType(n)))
  {
    HashesLiteral(n);
    match n
    case 1 => assert Hashes(n) == "#";
    case 2 => assert Hashes(n) == "##";
    case 3 => assert Hashes(n) == "###";
    case 4 => assert Hashes(n) == "####";
    case 5 => assert Hashes(n) == "#####";
    case 6 => assert Hashes(n) == "######";
  }

  /** The hash strings of the table. */
  lemma HashesLiteral(n: nat)
    requires 1 <= n <= 6
    ensures Hashes(n) == ["#", "##", "###", "####", "#####", "######"][n - 1]
  {
    if n > 1 {
      HashesLiteral(n - 1);
    }
  }

  /** `#n` gives the level-`n` heading, for `n` in 1..6. */
  lemma NumberedHashShortcuts(n: nat)
    requires 1 <= n <= 6
    ensures Shortcuts("#" + NatToString(n)) == Some(Plain(HeadingType(n)))
  {
    var s := "#" + NatToString(n);
    assert s == ['#', "0123456789"[n]];
    assert s == "#1" || s == "#2" || s == "#3" || s == "#4" || s == "#5" || s == "#6";
  }

  /** Only `---` inserts a new line, and only the three list prefixes wrap. */
  lemma ShortcutOptions(prefix: string)
    requires Shortcuts(prefix).Some?
    ensures Shortcuts(prefix).value.newLine <==> prefix == "---"
    ensures Shortcuts(prefix).value.wrap.Some? <==> prefix in {"*", "-", "+"}
    ensures Shortcuts(prefix).value.wrap.Some? ==> Shortcuts(prefix).value.kind == ListItem
    ensures Shortcuts(prefix).value.wrap.Some? ==> IsList(Shortcuts(prefix).value.wrap.value)
  {
  }

  /** Every heading type of the table is one of the six, and comes from a prefix of hash signs. */
  lemma HeadingShortcutForms(prefix: string)
    requires Shortcuts(prefix).Some? && IsHeadingKind(Shortcuts(prefix).value.kind)
    ensures 1 <= HeadingLevel(Shortcuts(prefix).value.kind) <= 6
    ensures |prefix| > 0 && prefix[0] == '#'
  {
    var k := Shortcuts(prefix).value.kind;
    assert HeadingPrefix[0] == 'h' && HeadingPrefix[1] == 'e';
    assert BlockQuote[0] == 'b' && HLine[1] == '-' && ListItem[0] == 'l';
    assert Heading1[8] == '1' && Heading2[8] == '2' && Heading3[8] == '3';
    assert Heading4[8] == '4' && Heading5[8] == '5' && Heading6[8] == '6';
  }

  // ---------------------------------------------------------------------
  // insertText
  // ---------------------------------------------------------------------

  /** An editor command issued by the handler. */
  datatype Command =
    | PassText(text: string)                     // the previous `insertText`
    | DeletePrefix                               // select from the block start to the caret, delete
    | ToggleBlock(kind: string, attrs: map<string, Value>)
    | InsertParagraph                            // a new empty paragraph
    | UpdateCatalogNo
    | WrapItems(list: string)                    // wrap the list items in a list of this type
    | ToggleFails                                // `toggleBlock` with no type: a TypeError, nothing after it runs

  const MaxLevel := 6

  /**
   * The commands for `text` typed with the caret `collapsed` (or not),
   * `before` the text from the start of the block to the caret, `block` the
   * type of the lowest block above the caret, and `shift` the shift key.
   */
  function InsertText(text: string, collapsed: bool, before: string, block: Option<string>, shift: bool): seq<Command>
  {
    if text != " " && text != "\t" then [PassText(text)]
    else if !collapsed then [PassText(text)]
    else if text == " " && Shortcuts(before).Some? then
      var s := Shortcuts(before).value;
      [DeletePrefix, ToggleBlock(s.kind, s.attrs)]
      + (if s.newLine then [InsertParagraph] else [])
      + (if IsHeadingKind(s.kind) then [UpdateCatalogNo] else [])
      + (if s.wrap.Some? then [WrapItems(s.wrap.value)] else [])
    else if text == " " && InheritedKey(before) then [DeletePrefix, ToggleFails]
    else if text == "\t" && before == "" && block.Some? && IsHeadingKind(block.value) then
      var level := HeadingLevel(block.value);
      if shift then (if level > 1 then [ToggleBlock(HeadingType(level - 1), map[])] else [])
      else (if level < MaxLevel then [ToggleBlock(HeadingType(level + 1), map[])] else [])
    else [PassText(text)]
  }

  /** Any text but a space or a tab goes straight on. */
  lemma OtherTextPassesOn(text: string, collapsed: bool, before: string, block: Option<string>, shift: bool)
    requires text != " " && text != "\t"
    ensures InsertText(text, collapsed, before, block, shift) == [PassText(text)]
  {
  }

  /**
   * A space after a table prefix removes the prefix, sets the block type,
   * adds a paragraph after a rule, renumbers after a heading and wraps a list
   * item, in this order, and is itself not inserted.
   */
  lemma PrefixConverts(before: string, block: Option<string>, shift: bool)
    requires Shortcuts(before).Some?
    ensures var cs := InsertText(" ", true, before, block, shift);
            var s := Shortcuts(before).value;
            && |cs| >= 2 && cs[0] == DeletePrefix && cs[1] == ToggleBlock(s.kind, s.attrs)
            && (InsertParagraph in cs <==> before == "---")
            && (UpdateCatalogNo in cs <==> IsHeadingKind(s.kind))
            && (forall l :: WrapItems(l) in cs <==> s.wrap == Some(l))
            && (forall t :: PassText(t) !in cs)
  {
    ShortcutOptions(before);
  }

  /**
   * A space after the name of an inherited member of the table deletes the
   * prefix and then fails in `toggleBlock`: the space is not typed.
   */
  lemma InheritedPrefixFails(before: string, block: Option<string>, shift: bool)
    requires InheritedKey(before)
    ensures InsertText(" ", true, before, block, shift) == [DeletePrefix, ToggleFails]
  {
    assert Shortcuts(before).None? by {
      if Shortcuts(before).Some? {
        OwnKeysNotInherited(before);
      }
    }
  }

  /** A space is typed as text exactly when the prefix is neither a key of the table nor an inherited member. */
  lemma UnknownPrefixTyped(before: string, block: Option<string>, shift: bool)
    ensures InsertText(" ", true, before, block, shift) == [PassText(" ")]
            <==> Shortcuts(before).None? && !InheritedKey(before)
  {
    if Shortcuts(before).Some? {
      PrefixConverts(before, block, shift);
    }
  }

  /** In a heading of level 1..6 a tab at the start moves the level one step, never out of 1..6. */
  lemma TabChangesLevel(kind: string, shift: bool)
    requires 1 <= HeadingLevel(kind) <= 6 && IsHeadingKind(kind)
    ensures var cs := InsertText("\t", true, "", Some(kind), shift);
            var l := HeadingLevel(kind);
            && |cs| <= 1
            && (|cs| == 1 <==> (if shift then l > 1 else l < 6))
            && (|cs| == 1 ==>
                  cs[0].ToggleBlock? && 1 <= HeadingLevel(cs[0].kind) <= 6
                  && HeadingLevel(cs[0].kind) == (if shift then l - 1 else l + 1))
  {
    var l := HeadingLevel(kind);
    HeadingRoundTrip(l - 1, kind);
    HeadingRoundTrip(l + 1, kind);
  }

  /** A tab outside a heading, or not at its start, is typed as text. */
  lemma TabElsewhereTyped(before: string, block: Option<string>, shift: bool)
    requires before != "" || block.None? || !IsHeadingKind(block.value)
    ensures InsertText("\t", true, before, block, shift) == [PassText("\t")]
  {
  }
}
