/**
 * Plugin composition in src/lib/editor/xmark-core.tsx: merging toolbar
 * groups, merging the catalog numbering schemes, the list of active plugins,
 * the toolbar assembly, the render dispatch and the install chain.
 */
module Core {
  import opened Wrappers
  import opened Document
  import opened Helper
  import opened BasePlugin

  // ---------------------------------------------------------------------
  // Toolbar groups and mergeTools (xmark-core.tsx:37-55)
  // ---------------------------------------------------------------------

  /** An entry of an insert menu, known by its name. */
  datatype Menu = Menu(name: string)

  /** A toolbar button: an action button, or the insert menu button with its entries. */
  datatype Button = Action(name: string) | MenuButton(name: string, menus: seq<Menu>)

  datatype Group = Group(name: string, buttons: seq<Button>)

  function Names(gs: seq<Group>): (r: seq<string>)
    ensures |r| == |gs| && forall i :: 0 <= i < |gs| ==> r[i] == gs[i].name
  {
    seq(|gs|, i requires 0 <= i < |gs| => gs[i].name)
  }

  /** The buttons of all the groups named `n`, in order. */
  function ButtonsOf(n: string, gs: seq<Group>): seq<Button>
  {
    if |gs| == 0 then []
    else ButtonsOf(n, gs[..|gs| - 1]) + (if gs[|gs| - 1].name == n then gs[|gs| - 1].buttons else [])
  }

  /** The number of buttons of all the groups. */
  function Count(gs: seq<Group>): nat
  {
    if |gs| == 0 then 0 else Count(gs[..|gs| - 1]) + |gs[|gs| - 1].buttons|
  }

  /** The position of the last group named `n`, or -1. */
  function LastNamed(gs: seq<Group>, n: string): (r: int)
    ensures -1 <= r < |gs|
    ensures r >= 0 ==> gs[r].name == n
    ensures forall j :: r < j < |gs| ==> gs[j].name != n
  {
    if |gs| == 0 then -1
    else if gs[|gs| - 1].name == n then |gs| - 1
    else LastNamed(gs[..|gs| - 1], n)
  }

  /**
   * One group of `tools2`: its buttons join the group `map` holds under its
   * name, which is the last group of that name; or it is added.
   */
  function Step(tools: seq<Group>, g: Group): seq<Group>
  {
    var i := LastNamed(tools, g.name);
    if i >= 0 then tools[i := tools[i].(buttons := tools[i].buttons + g.buttons)]
    else tools + [g]
  }

  /** The groups after the first `k` groups of `tools2`. */
  function MergeFrom(tools1: seq<Group>, tools2: seq<Group>, k: nat): seq<Group>
    requires k <= |tools2|
  {
    if k == 0 then tools1 else Step(MergeFrom(tools1, tools2, k - 1), tools2[k - 1])
  }

  function MergeToolsSpec(tools1: seq<Group>, tools2: seq<Group>): seq<Group>
  {
    MergeFrom(tools1, tools2, |tools2|)
  }

  /** The name map the loops build: each name of `tools` at the position of its last group. */
  function NameIndex(tools: seq<Group>): map<string, nat>
  {
    if |tools| == 0 then map[]
    else NameIndex(tools[..|tools| - 1])[tools[|tools| - 1].name := |tools| - 1]
  }

  /** The name map holds exactly the names of `tools`, each at its last group. */
  lemma {:induction false} NameIndexLast(tools: seq<Group>, n: string)
    ensures n in NameIndex(tools) <==> LastNamed(tools, n) >= 0
    ensures n in NameIndex(tools) ==> NameIndex(tools)[n] == LastNamed(tools, n)
    decreases |tools|
  {
    if |tools| > 0 {
      NameIndexLast(tools[..|tools| - 1], n);
    }
  }

  /** `map` is the name map of `tools`. */
  predicate Indexes(index: map<string, nat>, tools: seq<Group>)
  {
    index == NameIndex(tools)
  }

  lemma IndexesAppend(index: map<string, nat>, tools: seq<Group>, g: Group)
    requires Indexes(index, tools)
    ensures Indexes(index[g.name := |tools|], tools + [g])
  {
    assert (tools + [g])[..|tools|] == tools;
  }

  lemma IndexesUpdate(index: map<string, nat>, tools: seq<Group>, i: nat, b: seq<Button>)
    requires Indexes(index, tools) && i < |tools|
    ensures Indexes(index, tools[i := tools[i].(buttons := b)])
  {
    var tools' := tools[i := tools[i].(buttons := b)];
    assert Names(tools') == Names(tools);
    NameIndexByNames(tools', tools);
  }

  lemma {:induction false} NameIndexByNames(gs: seq<Group>, hs: seq<Group>)
    requires Names(gs) == Names(hs)
    ensures NameIndex(gs) == NameIndex(hs)
    decreases |gs|
  {
    if |gs| > 0 {
      assert gs[|gs| - 1].name == Names(gs)[|gs| - 1];
      assert hs[|hs| - 1].name == Names(hs)[|hs| - 1];
      var m := |gs| - 1;
      assert Names(gs[..m]) == Names(gs)[..m];
      assert Names(hs[..m]) == Names(hs)[..m];
      NameIndexByNames(gs[..m], hs[..m]);
    }
  }

  lemma IndexesFirst(index: map<string, nat>, tools1: seq<Group>, i: nat)
    requires i < |tools1| && Indexes(index, tools1[..i])
    ensures Indexes(index[tools1[i].name := i], tools1[..i + 1])
  {
    assert tools1[..i + 1] == tools1[..i] + [tools1[i]];
    IndexesAppend(index, tools1[..i], tools1[i]);
  }

  /** `mergeTools(tools1, tools2)`. */
  method MergeTools(tools1: seq<Group>, tools2: seq<Group>) returns (tools: seq<Group>)
    ensures tools == MergeToolsSpec(tools1, tools2)
  {
    tools := tools1;
    var index := IndexGroups(tools1);
    var k := 0;
    while k < |tools2|
      invariant 0 <= k <= |tools2|
      invariant tools == MergeFrom(tools1, tools2, k)
      invariant Indexes(index, tools)
    {
      index, tools := AddGroup(index, tools, tools2[k]);
      k := k + 1;
    }
  }

  /** The first loop of `mergeTools`: `map[item.name] = item` over `tools1`. */
  method IndexGroups(tools1: seq<Group>) returns (index: map<string, nat>)
    ensures Indexes(index, tools1)
  {
    index := map[];
    var i := 0;
    while i < |tools1|
      invariant 0 <= i <= |tools1|
      invariant Indexes(index, tools1[..i])
    {
      IndexesFirst(index, tools1, i);
      index := index[tools1[i].name := i];
      i := i + 1;
    }
    assert tools1[..|tools1|] == tools1;
  }

  /** The body of the second loop of `mergeTools`, for one group `item` of `tools2`. */
  method AddGroup(index: map<string, nat>, tools: seq<Group>, item: Group) returns (index': map<string, nat>, tools': seq<Group>)
    requires Indexes(index, tools)
    ensures tools' == Step(tools, item)
    ensures Indexes(index', tools')
  {
    NameIndexLast(tools, item.name);
    if item.name in index {
      var j := index[item.name];
      IndexesUpdate(index, tools, j, tools[j].buttons + item.buttons);
      index', tools' := index, tools[j := tools[j].(buttons := tools[j].buttons + item.buttons)];
    } else {
      IndexesAppend(index, tools, item);
      index', tools' := index[item.name := |tools|], tools + [item];
    }
  }

  // Buttons per name.

  lemma {:induction false} UpdateButtons(gs: seq<Group>, i: nat, x: seq<Button>, n: string)
    requires i < |gs| && forall j :: i < j < |gs| ==> gs[j].name != gs[i].name
    ensures ButtonsOf(n, gs[i := gs[i].(buttons := gs[i].buttons + x)])
            == ButtonsOf(n, gs) + (if gs[i].name == n then x else [])
    decreases |gs|
  {
    var gs' := gs[i := gs[i].(buttons := gs[i].buttons + x)];
    var m := |gs| - 1;
    assert gs'[..m] == if i == m then gs[..m] else gs[..m][i := gs[i].(buttons := gs[i].buttons + x)];
    if i < m {
      UpdateButtons(gs[..m], i, x, n);
    }
  }

  lemma StepButtons(tools: seq<Group>, g: Group, n: string)
    ensures ButtonsOf(n, Step(tools, g)) == ButtonsOf(n, tools) + (if g.name == n then g.buttons else [])
  {
    var i := LastNamed(tools, g.name);
    if i >= 0 {
      UpdateButtons(tools, i, g.buttons, n);
    } else {
      assert (tools + [g])[..|tools|] == tools;
    }
  }

  lemma {:induction false} MergeFromButtons(tools1: seq<Group>, tools2: seq<Group>, k: nat, n: string)
    requires k <= |tools2|
    ensures ButtonsOf(n, MergeFrom(tools1, tools2, k)) == ButtonsOf(n, tools1) + ButtonsOf(n, tools2[..k])
  {
    if k > 0 {
      MergeFromButtons(tools1, tools2, k - 1, n);
      StepButtons(MergeFrom(tools1, tools2, k - 1), tools2[k - 1], n);
      PrefixButtons(n, tools2, k);
    }
  }

  lemma PrefixButtons(n: string, gs: seq<Group>, k: nat)
    requires 0 < k <= |gs|
    ensures ButtonsOf(n, gs[..k]) == ButtonsOf(n, gs[..k - 1]) + (if gs[k - 1].name == n then gs[k - 1].buttons else [])
  {
    assert gs[..k][..k - 1] == gs[..k - 1];
  }

  /**
   * For every name, the merged groups hold the buttons of `tools1` followed
   * by those of `tools2`, in order.
   */
  lemma MergeKeepsButtons(tools1: seq<Group>, tools2: seq<Group>, n: string)
    ensures ButtonsOf(n, MergeToolsSpec(tools1, tools2)) == ButtonsOf(n, tools1) + ButtonsOf(n, tools2)
  {
    assert tools2[..|tools2|] == tools2;
    MergeFromButtons(tools1, tools2, |tools2|, n);
  }

  // The button count.

  lemma {:induction false} UpdateCount(gs: seq<Group>, i: nat, x: seq<Button>)
    requires i < |gs|
    ensures Count(gs[i := gs[i].(buttons := gs[i].buttons + x)]) == Count(gs) + |x|
    decreases |gs|
  {
    var m := |gs| - 1;
    assert gs[i := gs[i].(buttons := gs[i].buttons + x)][..m]
           == if i == m then gs[..m] else gs[..m][i := gs[i].(buttons := gs[i].buttons + x)];
    if i < m {
      UpdateCount(gs[..m], i, x);
    }
  }

  lemma {:induction false} MergeFromCount(tools1: seq<Group>, tools2: seq<Group>, k: nat)
    requires k <= |tools2|
    ensures Count(MergeFrom(tools1, tools2, k)) == Count(tools1) + Count(tools2[..k])
  {
    if k > 0 {
      MergeFromCount(tools1, tools2, k - 1);
      var m := MergeFrom(tools1, tools2, k - 1);
      var g := tools2[k - 1];
      StepCount(m, g);
      PrefixCount(tools2, k);
    }
  }

  lemma PrefixCount(gs: seq<Group>, k: nat)
    requires 0 < k <= |gs|
    ensures Count(gs[..k]) == Count(gs[..k - 1]) + |gs[k - 1].buttons|
  {
    assert gs[..k][..k - 1] == gs[..k - 1];
  }

  lemma StepCount(tools: seq<Group>, g: Group)
    ensures Count(Step(tools, g)) == Count(tools) + |g.buttons|
  {
    var i := LastNamed(tools, g.name);
    if i >= 0 {
      UpdateCount(tools, i, g.buttons);
    } else {
      assert (tools + [g])[..|tools|] == tools;
    }
  }

  /** No button is lost or duplicated. */
  lemma MergeKeepsCount(tools1: seq<Group>, tools2: seq<Group>)
    ensures Count(MergeToolsSpec(tools1, tools2)) == Count(tools1) + Count(tools2)
  {
    assert tools2[..|tools2|] == tools2;
    MergeFromCount(tools1, tools2, |tools2|);
  }

  // The group names.

  /** The names of `tools2[..k]` that `tools1` and the earlier groups of `tools2` lack, in first-occurrence order. */
  function Fresh(names1: seq<string>, tools2: seq<Group>, k: nat): seq<string>
    requires k <= |tools2|
  {
    if k == 0 then []
    else
      var f := Fresh(names1, tools2, k - 1);
      f + (if tools2[k - 1].name in names1 || tools2[k - 1].name in f then [] else [tools2[k - 1].name])
  }

  lemma {:induction false} LastNamedIn(gs: seq<Group>, n: string)
    ensures LastNamed(gs, n) >= 0 <==> n in Names(gs)
  {
    if n in Names(gs) {
      var j :| 0 <= j < |gs| && Names(gs)[j] == n;
      assert gs[j].name == n;
    }
  }

  lemma StepNames(tools: seq<Group>, g: Group)
    ensures Names(Step(tools, g)) == Names(tools) + (if g.name in Names(tools) then [] else [g.name])
  {
    LastNamedIn(tools, g.name);
    var i := LastNamed(tools, g.name);
    if i >= 0 {
      assert Names(Step(tools, g)) == Names(tools);
    } else {
      assert Names(tools + [g]) == Names(tools) + [g.name];
    }
  }

  lemma {:induction false} MergeFromNames(tools1: seq<Group>, tools2: seq<Group>, k: nat)
    requires k <= |tools2|
    ensures Names(MergeFrom(tools1, tools2, k)) == Names(tools1) + Fresh(Names(tools1), tools2, k)
  {
    if k > 0 {
      MergeFromNames(tools1, tools2, k - 1);
      StepFresh(Names(tools1), Fresh(Names(tools1), tools2, k - 1), MergeFrom(tools1, tools2, k - 1), tools2[k - 1]);
    }
  }

  /** `StepNames` when the names so far are `names1` followed by `f`. */
  lemma StepFresh(names1: seq<string>, f: seq<string>, tools: seq<Group>, g: Group)
    requires Names(tools) == names1 + f
    ensures Names(Step(tools, g)) == names1 + (f + (if g.name in names1 || g.name in f then [] else [g.name]))
  {
    StepNames(tools, g);
    assert g.name in Names(tools) <==> g.name in names1 || g.name in f;
  }

  /**
   * The merged groups are those of `tools1` in order, followed by the groups
   * of `tools2` with new names, in first-occurrence order.
   */
  lemma MergeNames(tools1: seq<Group>, tools2: seq<Group>)
    ensures Names(MergeToolsSpec(tools1, tools2)) == Names(tools1) + Fresh(Names(tools1), tools2, |tools2|)
  {
    MergeFromNames(tools1, tools2, |tools2|);
  }

  // ---------------------------------------------------------------------
  // Plugins (xmark-plugin.ts) and what the core does with them
  // ---------------------------------------------------------------------

  /** What a render function produces: another plugin's view, or one of the core's defaults. */
  datatype View =
    | Rendered(id: nat)                                   // the output of a plugin's renderer
    | Para(attrs: map<string, Value>, children: View)     // `<p style>children</p>`
    | Span(style: Style, children: View)                  // `<span style>children</span>`
    | CodeTag(children: View)                             // `<code>children</code>`
    | ButtonView(button: Button)                          // `<ToolButton/>`
    | Children                                            // the children Slate passes in

  datatype ElementProps = ElementProps(element: Node, children: View)
  datatype LeafProps = LeafProps(leaf: Marks, children: View)

  /** `renderLeaf(props, style)`: the style after the plugin writes it, and the new children if any. */
  type LeafRenderer = (LeafProps, Style) -> (Style, Option<View>)

  /** An event sent to the editor, and the plugins that saw it, outermost first. */
  type Event = string
  type Trace = seq<nat>

  /** The editor's overridable behaviour, as seen by the plugins' interceptors. */
  datatype Editor = Editor(handle: Event -> Trace)

  /** The parts of a plugin the core uses; a missing member is `None`. */
  datatype Plugin = Plugin(
    catalogNo: Option<GeneratorMap>,
    tools: Option<seq<Group>>,
    insertMenu: Option<seq<Menu>>,
    renderElement: Option<ElementProps -> Option<View>>,
    renderLeaf: Option<LeafRenderer>,
    renderToolButton: Option<Button -> Option<View>>,
    install: Option<Editor -> Editor>)

  // catalogNoMap (xmark-core.tsx:61-70)

  /** The numbering schemes of the first `k` plugins, later ones overriding earlier ones. */
  function CatalogNoMap(plugins: seq<Plugin>, k: nat): GeneratorMap
    requires k <= |plugins|
  {
    if k == 0 then map[]
    else
      var m := CatalogNoMap(plugins, k - 1);
      if plugins[k - 1].catalogNo.Some? then m + plugins[k - 1].catalogNo.value else m
  }

  method CatalogNoMapOf(plugins: seq<Plugin>) returns (m: GeneratorMap)
    ensures m == CatalogNoMap(plugins, |plugins|)
  {
    m := map[];
    var i := 0;
    while i < |plugins|
      invariant 0 <= i <= |plugins|
      invariant m == CatalogNoMap(plugins, i)
    {
      var plugin := plugins[i];
      if plugin.catalogNo.Some? {
        m := m + plugin.catalogNo.value;
      }
      i := i + 1;
    }
  }

  predicate Provides(p: Plugin, key: string)
  {
    p.catalogNo.Some? && key in p.catalogNo.value
  }

  /** The last of the first `k` plugins that has a scheme `key`, or -1. */
  function LastProvider(plugins: seq<Plugin>, key: string, k: nat): (r: int)
    requires k <= |plugins|
    ensures -1 <= r < k
    ensures r >= 0 ==> Provides(plugins[r], key)
    ensures forall j :: r < j < k ==> !Provides(plugins[j], key)
  {
    if k == 0 then -1
    else if Provides(plugins[k - 1], key) then k - 1
    else LastProvider(plugins, key, k - 1)
  }

  /** A scheme is present iff some plugin has it, and it is the last such plugin's. */
  lemma {:induction false} LaterSchemesWin(plugins: seq<Plugin>, key: string, k: nat)
    requires k <= |plugins|
    ensures key in CatalogNoMap(plugins, k) <==> LastProvider(plugins, key, k) >= 0
    ensures key in CatalogNoMap(plugins, k) ==>
              CatalogNoMap(plugins, k)[key] == plugins[LastProvider(plugins, key, k)].catalogNo.value[key]
  {
    if k > 0 {
      LaterSchemesWin(plugins, key, k - 1);
    }
  }

  // allPlugins (xmark-core.tsx:73-78)

  /** `allPlugins(plugins)`: the default plugins, then the given ones. */
  function AllPlugins(defaults: seq<Plugin>, extras: Option<seq<Plugin>>): (r: seq<Plugin>)
    ensures |r| == |defaults| + (if extras.Some? then |extras.value| else 0)
    ensures r[..|defaults|] == defaults
    ensures extras.Some? ==> r[|defaults|..] == extras.value
  {
    if extras.Some? then defaults + extras.value else defaults
  }

  lemma {:induction false} CatalogNoMapConcat(a: seq<Plugin>, b: seq<Plugin>, k: nat)
    requires k <= |b|
    ensures CatalogNoMap(a + b, |a| + k) == CatalogNoMap(a, |a|) + CatalogNoMap(b, k)
  {
    if k == 0 {
      assert (a + b)[..|a|] == a;
      CatalogNoMapPrefix(a + b, a, |a|);
    } else {
      CatalogNoMapConcat(a, b, k - 1);
      assert (a + b)[|a| + k - 1] == b[k - 1];
    }
  }

  lemma {:induction false} CatalogNoMapPrefix(ps: seq<Plugin>, qs: seq<Plugin>, k: nat)
    requires k <= |qs| <= |ps| && ps[..|qs|] == qs
    ensures CatalogNoMap(ps, k) == CatalogNoMap(qs, k)
  {
    if k > 0 {
      assert ps[k - 1] == ps[..|qs|][k - 1];
      CatalogNoMapPrefix(ps, qs, k - 1);
    }
  }

  /** An extra plugin's scheme replaces a default scheme of the same name. */
  lemma ExtrasOverrideDefaults(defaults: seq<Plugin>, extras: seq<Plugin>)
    ensures var all := AllPlugins(defaults, Some(extras));
            CatalogNoMap(all, |all|) == CatalogNoMap(defaults, |defaults|) + CatalogNoMap(extras, |extras|)
  {
    assert AllPlugins(defaults, Some(extras)) == defaults + extras;
    CatalogNoMapConcat(defaults, extras, |extras|);
  }

  // tools (xmark-core.tsx:88-156)

  const BaseGroup := Group("base", [Action("save"), Action("undo"), Action("redo"), Action("format-clear")])
  const FunctionsGroup := Group("functions", [])

  function SysGroup(menus: seq<Menu>): Group
  {
    Group("sys", [MenuButton("insert_card", menus)])
  }

  /** The groups after the first `k` plugins' toolbars are merged into the base group. */
  function PluginGroups(plugins: seq<Plugin>, k: nat): seq<Group>
    requires k <= |plugins|
  {
    if k == 0 then [BaseGroup]
    else
      var g := PluginGroups(plugins, k - 1);
      if plugins[k - 1].tools.Some? then MergeToolsSpec(g, plugins[k - 1].tools.value) else g
  }

  /** The insert menus of the first `k` plugins, in plugin order. */
  function Menus(plugins: seq<Plugin>, k: nat): seq<Menu>
    requires k <= |plugins|
  {
    if k == 0 then []
    else Menus(plugins, k - 1) + (if plugins[k - 1].insertMenu.Some? then plugins[k - 1].insertMenu.value else [])
  }

  /** The groups before the `functions` group is merged in. */
  function ToolGroups(plugins: seq<Plugin>): seq<Group>
  {
    var groups := PluginGroups(plugins, |plugins|);
    var menus := Menus(plugins, |plugins|);
    if |menus| > 0 then MergeToolsSpec([SysGroup(menus)], groups) else groups
  }

  function ToolsSpec(plugins: seq<Plugin>): seq<Group>
  {
    MergeToolsSpec(ToolGroups(plugins), [FunctionsGroup])
  }

  /** `tools(plugins, onSave).groups`. */
  method Tools(plugins: seq<Plugin>) returns (groups: seq<Group>)
    ensures groups == ToolsSpec(plugins)
  {
    groups := [BaseGroup];
    var menus: seq<Menu> := [];
    var i := 0;
    while i < |plugins|
      invariant 0 <= i <= |plugins|
      invariant groups == PluginGroups(plugins, i)
      invariant menus == Menus(plugins, i)
    {
      var plugin := plugins[i];
      if plugin.tools.Some? {
        groups := MergeTools(groups, plugin.tools.value);
      }
      if plugin.insertMenu.Some? {
        menus := menus + plugin.insertMenu.value;
      }
      i := i + 1;
    }
    if |menus| > 0 {
      groups := MergeTools([SysGroup(menus)], groups);
    }
    groups := MergeTools(groups, [FunctionsGroup]);
  }

  lemma MergeKeepsFirst(tools1: seq<Group>, tools2: seq<Group>)
    ensures |MergeToolsSpec(tools1, tools2)| >= |tools1|
    ensures forall i :: 0 <= i < |tools1| ==> MergeToolsSpec(tools1, tools2)[i].name == tools1[i].name
  {
    MergeNames(tools1, tools2);
    var r := MergeToolsSpec(tools1, tools2);
    forall i | 0 <= i < |tools1|
      ensures r[i].name == tools1[i].name
    {
      assert Names(r)[i] == Names(tools1)[i];
    }
  }

  lemma {:induction false} PluginGroupsStartWithBase(plugins: seq<Plugin>, k: nat)
    requires k <= |plugins|
    ensures |PluginGroups(plugins, k)| >= 1 && PluginGroups(plugins, k)[0].name == "base"
  {
    if k > 0 {
      PluginGroupsStartWithBase(plugins, k - 1);
      if plugins[k - 1].tools.Some? {
        MergeKeepsFirst(PluginGroups(plugins, k - 1), plugins[k - 1].tools.value);
      }
    }
  }

  lemma SysThenBase(menus: seq<Menu>, groups: seq<Group>)
    requires |groups| >= 1 && groups[0].name == "base"
    ensures var r := MergeToolsSpec([SysGroup(menus)], groups);
            && |r| >= 2 && r[0].name == "sys" && r[1].name == "base"
            && ButtonsOf("sys", r) == [MenuButton("insert_card", menus)] + ButtonsOf("sys", groups)
  {
    MergeNames([SysGroup(menus)], groups);
    var r := MergeToolsSpec([SysGroup(menus)], groups);
    assert Fresh(Names([SysGroup(menus)]), groups, 1) == ["base"];
    FreshPrefix(Names([SysGroup(menus)]), groups, 1, |groups|);
    assert Names(r)[1] == "base";
    MergeKeepsButtons([SysGroup(menus)], groups, "sys");
    MergeKeepsFirst([SysGroup(menus)], groups);
    assert ButtonsOf("sys", [SysGroup(menus)]) == [MenuButton("insert_card", menus)] by {
      assert [SysGroup(menus)][..0] == [];
    }
  }

  lemma {:induction false} FreshPrefix(names1: seq<string>, tools2: seq<Group>, k: nat, k': nat)
    requires k <= k' <= |tools2|
    ensures |Fresh(names1, tools2, k)| <= |Fresh(names1, tools2, k')|
    ensures Fresh(names1, tools2, k) == Fresh(names1, tools2, k')[..|Fresh(names1, tools2, k)|]
    decreases k' - k
  {
    if k < k' {
      FreshPrefix(names1, tools2, k, k' - 1);
    }
  }

  /** Merging in the `functions` group keeps the groups and ends with it unless one has its name. */
  lemma FunctionsMerged(g: seq<Group>)
    ensures var r := MergeToolsSpec(g, [FunctionsGroup]);
            && |r| >= |g|
            && (forall i :: 0 <= i < |g| ==> r[i].name == g[i].name)
            && "functions" in Names(r)
            && ("functions" !in Names(g) ==> r == g + [FunctionsGroup])
  {
    MergeKeepsFirst(g, [FunctionsGroup]);
    var r := MergeToolsSpec(g, [FunctionsGroup]);
    assert r == Step(g, FunctionsGroup) by {
      assert MergeFrom(g, [FunctionsGroup], 0) == g;
    }
    LastNamedIn(g, "functions");
    if "functions" in Names(g) {
      var j :| 0 <= j < |g| && Names(g)[j] == "functions";
      assert Names(r)[j] == "functions";
    } else {
      assert Names(r)[|g|] == "functions";
    }
  }

  /** The groups before `functions`: `sys` first iff some plugin has an insert menu, then `base`. */
  lemma ToolGroupsStart(plugins: seq<Plugin>)
    ensures var g := ToolGroups(plugins);
            var menus := Menus(plugins, |plugins|);
            && |g| >= (if |menus| > 0 then 2 else 1)
            && g[0].name == (if |menus| > 0 then "sys" else "base")
            && (|menus| > 0 ==> g[1].name == "base")
            && ("functions" !in Names(PluginGroups(plugins, |plugins|)) ==> "functions" !in Names(g))
  {
    var groups := PluginGroups(plugins, |plugins|);
    var menus := Menus(plugins, |plugins|);
    PluginGroupsStartWithBase(plugins, |plugins|);
    if |menus| > 0 {
      SysThenBase(menus, groups);
      MergeNames([SysGroup(menus)], groups);
      FreshNames(Names([SysGroup(menus)]), groups, |groups|);
    }
  }

  /**
   * The `sys` group with the insert menus comes first iff some plugin has an
   * insert menu, then the `base` group; a `functions` group is always there,
   * and last when no plugin brings a group of that name.
   */
  lemma ToolsLayout(plugins: seq<Plugin>)
    ensures var r := ToolsSpec(plugins);
            var menus := Menus(plugins, |plugins|);
            && |r| >= 2
            && r[0].name == (if |menus| > 0 then "sys" else "base")
            && (|menus| > 0 ==> r[1].name == "base")
            && "functions" in Names(r)
            && ("functions" !in Names(PluginGroups(plugins, |plugins|)) ==> r[|r| - 1] == FunctionsGroup)
  {
    ToolGroupsStart(plugins);
    FunctionsMerged(ToolGroups(plugins));
    var g := ToolGroups(plugins);
    if |Menus(plugins, |plugins|)| == 0 {
      assert g[0].name == "base";
      assert "functions" != "base";
      assert |ToolsSpec(plugins)| >= 2 by {
        if |g| == 1 {
          assert "functions" !in Names(g);
        }
      }
    }
  }

  lemma {:induction false} FreshNames(names1: seq<string>, tools2: seq<Group>, k: nat)
    requires k <= |tools2|
    ensures forall x :: x in Fresh(names1, tools2, k) ==> x in Names(tools2)
  {
    if k > 0 {
      FreshNames(names1, tools2, k - 1);
      assert tools2[k - 1].name == Names(tools2)[k - 1];
    }
  }

  // ---------------------------------------------------------------------
  // Render dispatch (xmark-core.tsx:164-217)
  // ---------------------------------------------------------------------

  /** The first of `renderers[k..]` that is present and gives a result, or -1. */
  function FirstHit<P, R>(renderers: seq<Option<P -> Option<R>>>, props: P, k: nat): (r: int)
    requires k <= |renderers|
    ensures r == -1 || k <= r < |renderers|
    ensures r >= 0 ==> renderers[r].Some? && renderers[r].value(props).Some?
    ensures forall j :: k <= j < (if r < 0 then |renderers| else r) ==>
              renderers[j].None? || renderers[j].value(props).None?
    decreases |renderers| - k
  {
    if k == |renderers| then -1
    else if renderers[k].Some? && renderers[k].value(props).Some? then k
    else FirstHit(renderers, props, k + 1)
  }

  /** The view of the first renderer that gives one, else the fallback. */
  function Dispatched<P, R>(renderers: seq<Option<P -> Option<R>>>, props: P, fallback: R): R
  {
    var i := FirstHit(renderers, props, 0);
    if i < 0 then fallback else renderers[i].value(props).value
  }

  /** The loop of `renderElement` and `renderToolButton`. */
  method Dispatch<P, R>(renderers: seq<Option<P -> Option<R>>>, props: P, fallback: R) returns (r: R)
    ensures r == Dispatched(renderers, props, fallback)
  {
    var i := 0;
    while i < |renderers|
      invariant 0 <= i <= |renderers|
      invariant FirstHit(renderers, props, i) == FirstHit(renderers, props, 0)
    {
      if renderers[i].Some? {
        var v := renderers[i].value(props);
        if v.Some? {
          return v.value;
        }
      }
      i := i + 1;
    }
    return fallback;
  }

  /** A renderer that declines, or is missing, does not change the outcome. */
  lemma DeclinerIgnored<P, R>(first: Option<P -> Option<R>>, rest: seq<Option<P -> Option<R>>>, props: P, fallback: R)
    requires first.None? || first.value(props).None?
    ensures Dispatched([first] + rest, props, fallback) == Dispatched(rest, props, fallback)
  {
    FirstHitShift([first], rest, props, 0);
  }

  /** A renderer that gives a view hides every later one. */
  lemma FirstRendererWins<P, R>(first: P -> Option<R>, rest: seq<Option<P -> Option<R>>>, props: P, fallback: R)
    requires first(props).Some?
    ensures Dispatched([Some(first)] + rest, props, fallback) == first(props).value
  {
  }

  lemma {:induction false} FirstHitShift<P, R>(a: seq<Option<P -> Option<R>>>, b: seq<Option<P -> Option<R>>>, props: P, k: nat)
    requires k <= |a|
    requires forall j :: k <= j < |a| ==> a[j].None? || a[j].value(props).None?
    ensures FirstHit(a + b, props, k) == (var h := FirstHit(b, props, 0); if h < 0 then -1 else h + |a|)
    decreases |a| - k
  {
    if k < |a| {
      assert (a + b)[k] == a[k];
      FirstHitShift(a, b, props, k + 1);
    } else {
      FirstHitFrom(a, b, props, 0);
    }
  }

  lemma {:induction false} FirstHitFrom<P, R>(a: seq<Option<P -> Option<R>>>, b: seq<Option<P -> Option<R>>>, props: P, k: nat)
    requires k <= |b|
    ensures FirstHit(a + b, props, |a| + k) == (var h := FirstHit(b, props, k); if h < 0 then -1 else h + |a|)
    decreases |b| - k
  {
    if k < |b| {
      assert (a + b)[|a| + k] == b[k];
      FirstHitFrom(a, b, props, k + 1);
    }
  }

  function ElementRenderers(plugins: seq<Plugin>): (r: seq<Option<ElementProps -> Option<View>>>)
    ensures |r| == |plugins| && forall i :: 0 <= i < |plugins| ==> r[i] == plugins[i].renderElement
  {
    seq(|plugins|, i requires 0 <= i < |plugins| => plugins[i].renderElement)
  }

  function ButtonRenderers(plugins: seq<Plugin>): (r: seq<Option<Button -> Option<View>>>)
    ensures |r| == |plugins| && forall i :: 0 <= i < |plugins| ==> r[i] == plugins[i].renderToolButton
  {
    seq(|plugins|, i requires 0 <= i < |plugins| => plugins[i].renderToolButton)
  }

  /** `renderElement`: the first plugin's view, else a paragraph with the element's style. */
  method RenderElement(plugins: seq<Plugin>, props: ElementProps) returns (v: View)
    ensures var i := FirstHit(ElementRenderers(plugins), props, 0);
            && (i < 0 ==> v == Para(GetElementStyle(if props.element.Element? then props.element.attrs else map[]), props.children))
            && (i >= 0 ==> v == plugins[i].renderElement.value(props).value)
  {
    var style := GetElementStyle(if props.element.Element? then props.element.attrs else map[]);
    v := Dispatch(ElementRenderers(plugins), props, Para(style, props.children));
  }

  /** `renderToolButton`: the first plugin's button, else the default `ToolButton`. */
  method RenderToolButton(plugins: seq<Plugin>, button: Button) returns (v: View)
    ensures var i := FirstHit(ButtonRenderers(plugins), button, 0);
            && (i < 0 ==> v == ButtonView(button))
            && (i >= 0 ==> v == plugins[i].renderToolButton.value(button).value)
  {
    v := Dispatch(ButtonRenderers(plugins), button, ButtonView(button));
  }

  // renderLeaf (xmark-core.tsx:185-199)

  /** The style and children after the first `k` plugins' leaf renderers. */
  function LeafFold(plugins: seq<Plugin>, props: LeafProps, k: nat): (Style, View)
    requires k <= |plugins|
  {
    if k == 0 then (map[], props.children)
    else
      var (style, children) := LeafFold(plugins, props, k - 1);
      if plugins[k - 1].renderLeaf.None? then (style, children)
      else
        var (style', out) := plugins[k - 1].renderLeaf.value(props.(children := children), style);
        (style', if out.Some? then out.value else children)
  }

  /** `renderLeaf`: every plugin's leaf renderer in turn, on one style and the children so far. */
  method RenderLeaf(plugins: seq<Plugin>, props: LeafProps) returns (v: View)
    ensures v == Span(LeafFold(plugins, props, |plugins|).0, LeafFold(plugins, props, |plugins|).1)
  {
    var style: Style := map[];
    var p := props;
    var i := 0;
    while i < |plugins|
      invariant 0 <= i <= |plugins|
      invariant (style, p.children) == LeafFold(plugins, props, i)
      invariant p.leaf == props.leaf
    {
      var plugin := plugins[i];
      if plugin.renderLeaf.Some? {
        var (style', children) := plugin.renderLeaf.value(p, style);
        style := style';
        if children.Some? {
          p := p.(children := children.value);
        }
      }
      i := i + 1;
    }
    return Span(style, p.children);
  }

  /** The base plugin's leaf renderer: it writes the mark styles and wraps code in `<code>`. */
  function BaseLeaf(): LeafRenderer
  {
    (props: LeafProps, style: Style) =>
      var leaf := LeafStyle(props.leaf, style, false);
      (leaf.style, Some(if leaf.code then CodeTag(props.children) else props.children))
  }

  /**
   * Leaf renderers run in plugin order on one shared style: a later plugin
   * sees, and may overwrite, what an earlier one wrote.  With the base
   * plugin first, a bold leaf is rendered bold when every later leaf
   * renderer leaves `fontWeight` as it found it.
   */
  lemma LeafRenderersInOrder(rest: seq<Plugin>, props: LeafProps)
    requires MarkOn(props.leaf, "bold")
    requires forall i :: 0 <= i < |rest| ==> rest[i].renderLeaf.None? || KeepsStyle(rest[i].renderLeaf.value, "fontWeight")
    ensures var plugins := [Plugin(None, None, None, None, Some(BaseLeaf()), None, None)] + rest;
            var (style, _) := LeafFold(plugins, props, |plugins|);
            "fontWeight" in style && style["fontWeight"] == "700"
  {
    var plugins := [Plugin(None, None, None, None, Some(BaseLeaf()), None, None)] + rest;
    var leaf := LeafStyle(props.leaf, map[], false);
    assert LeafFold(plugins, props, 1).0 == leaf.style;
    LeafFoldKeeps(plugins, props, 1, |plugins|, "fontWeight");
  }

  /** A leaf renderer that leaves the style property `key` as it found it. */
  ghost predicate KeepsStyle(r: LeafRenderer, key: string)
  {
    forall p: LeafProps, s: Style :: key in s ==> key in r(p, s).0 && r(p, s).0[key] == s[key]
  }

  /** A property written by the first `k` leaf renderers reaches the end when no later renderer touches it. */
  lemma {:induction false} LeafFoldKeeps(plugins: seq<Plugin>, props: LeafProps, k: nat, k': nat, key: string)
    requires k <= k' <= |plugins|
    requires key in LeafFold(plugins, props, k).0
    requires forall i :: k <= i < k' ==> plugins[i].renderLeaf.None? || KeepsStyle(plugins[i].renderLeaf.value, key)
    ensures key in LeafFold(plugins, props, k').0 && LeafFold(plugins, props, k').0[key] == LeafFold(plugins, props, k).0[key]
    decreases k' - k
  {
    if k < k' {
      LeafFoldKeeps(plugins, props, k, k' - 1, key);
      var (style, children) := LeafFold(plugins, props, k' - 1);
      if plugins[k' - 1].renderLeaf.Some? {
        var r := plugins[k' - 1].renderLeaf.value;
        assert KeepsStyle(r, key);
        assert key in r(props.(children := children), style).0;
      }
    }
  }

  lemma {:induction false} LeafFoldSkips(plugins: seq<Plugin>, props: LeafProps, k: nat, k': nat)
    requires k <= k' <= |plugins|
    requires forall i :: k <= i < k' ==> plugins[i].renderLeaf.None?
    ensures LeafFold(plugins, props, k') == LeafFold(plugins, props, k)
    decreases k' - k
  {
    if k < k' {
      LeafFoldSkips(plugins, props, k, k' - 1);
    }
  }

  // ---------------------------------------------------------------------
  // The install chain (xmark-core.tsx:225-238)
  // ---------------------------------------------------------------------

  /** The editor after the first `k` plugins have installed their interceptors. */
  function Installed(plugins: seq<Plugin>, base: Editor, k: nat): Editor
    requires k <= |plugins|
  {
    if k == 0 then base
    else
      var e := Installed(plugins, base, k - 1);
      if plugins[k - 1].install.Some? then plugins[k - 1].install.value(e) else e
  }

  /** `editor(plugins)`: the installed editor and its catalog numbering schemes. */
  method MakeEditor(plugins: seq<Plugin>, base: Editor) returns (editor: Editor, catalogNoMap: GeneratorMap)
    ensures editor == Installed(plugins, base, |plugins|)
    ensures catalogNoMap == CatalogNoMap(plugins, |plugins|)
  {
    editor := base;
    var i := 0;
    while i < |plugins|
      invariant 0 <= i <= |plugins|
      invariant editor == Installed(plugins, base, i)
    {
      var plugin := plugins[i];
      if plugin.install.Some? {
        editor := plugin.install.value(editor);
      }
      i := i + 1;
    }
    catalogNoMap := CatalogNoMapOf(plugins);
  }

  /**
   * The usual interceptor of plugin `i`: it handles the events `own` picks
   * and hands every other event to the handler it wrapped.
   */
  function Intercept(i: nat, own: Event -> bool): Editor -> Editor
  {
    (e: Editor) => Editor((ev: Event) => if own(ev) then [i] else [i] + e.handle(ev))
  }

  /** What the chain of the first `k` interceptors shows for `ev`: the later ones first. */
  function ChainTrace(owns: seq<Event -> bool>, k: nat, base: Editor, ev: Event): Trace
    requires k <= |owns|
  {
    if k == 0 then base.handle(ev)
    else if owns[k - 1](ev) then [k - 1]
    else [k - 1] + ChainTrace(owns, k - 1, base, ev)
  }

  /**
   * Plugins install in list order, each wrapping the handlers installed
   * before it: an event reaches the last plugin's interceptor first and goes
   * down the list until one handles it.
   */
  lemma {:induction false} LastInstalledRunsFirst(plugins: seq<Plugin>, owns: seq<Event -> bool>, base: Editor, k: nat, ev: Event)
    requires |owns| == |plugins| && k <= |plugins|
    requires forall i :: 0 <= i < |plugins| ==> plugins[i].install == Some(Intercept(i, owns[i]))
    ensures Installed(plugins, base, k).handle(ev) == ChainTrace(owns, k, base, ev)
  {
    if k > 0 {
      LastInstalledRunsFirst(plugins, owns, base, k - 1, ev);
      var e := Installed(plugins, base, k - 1);
      assert Installed(plugins, base, k) == Intercept(k - 1, owns[k - 1])(e);
    }
  }

  /** The plugin indices `k-1, k-2, …, j`, falling. */
  function Down(k: nat, j: nat): seq<nat>
    requires j <= k
  {
    seq(k - j, i requires 0 <= i < k - j => k - 1 - i)
  }

  /**
   * The trace starts at the last plugin and goes down the list, each plugin
   * once, to the highest one that handles the event; when none does, every
   * plugin is listed and the base handler's trace follows.
   */
  lemma {:induction false} ChainTraceOrder(owns: seq<Event -> bool>, k: nat, base: Editor, ev: Event)
    requires 0 < k <= |owns|
    ensures var t := ChainTrace(owns, k, base, ev);
            |t| > 0 && t[0] == k - 1
            && (owns[k - 1](ev) ==> t == [k - 1])
    ensures forall j :: 0 <= j < k && owns[j](ev) && (forall i :: j < i < k ==> !owns[i](ev)) ==>
              ChainTrace(owns, k, base, ev) == Down(k, j)
    ensures (forall i :: 0 <= i < k ==> !owns[i](ev)) ==>
              ChainTrace(owns, k, base, ev) == Down(k, 0) + base.handle(ev)
  {
    if !owns[k - 1](ev) {
      var rest := ChainTrace(owns, k - 1, base, ev);
      assert ChainTrace(owns, k, base, ev) == [k - 1] + rest;
      if k == 1 {
        assert Down(1, 0) == [0];
      } else {
        ChainTraceOrder(owns, k - 1, base, ev);
        forall j | 0 <= j < k - 1
          ensures Down(k, j) == [k - 1] + Down(k - 1, j)
        {
        }
        assert Down(k, 0) + base.handle(ev) == [k - 1] + (Down(k - 1, 0) + base.handle(ev));
      }
    } else {
      assert Down(k, k - 1) == [k - 1];
    }
  }
}
