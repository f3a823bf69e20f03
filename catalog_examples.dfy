/**
 * The catalog of five headings, levels 1, 2, 2, 1, 2, numbered with the
 * base plugin's `default` scheme: `1.`, `1.1.`, `1.2.`, `2.`, `2.1.`.
 */
module CatalogExamples {
  import opened Document
  import opened Helper
  import opened BasePlugin

  function Head(key: nat, level: nat): Catalog
  {
    Catalog("", key, level, "", "", [])
  }

  const Outline: seq<Catalog> := [Head(0, 1), Head(1, 2), Head(2, 2), Head(3, 1), Head(4, 2)]

  /** The parents `findParent` picks: none, the first, the first, none, the fourth. */
  lemma OutlineParents()
    ensures ParentOf(Outline, 1, 0) == -1
    ensures ParentOf(Outline, 2, 1) == 0
    ensures ParentOf(Outline, 2, 2) == 0
    ensures ParentOf(Outline, 1, 3) == -1
    ensures ParentOf(Outline, 2, 4) == 3
  {
    assert ParentOf(Outline, 1, 1) == -1;
    assert ParentOf(Outline, 1, 2) == -1;
    assert ParentOf(Outline, 2, 1) == 0;
  }

  /** The sibling positions: the roots are 0 and 3, the first's children 1 and 2. */
  lemma OutlineSiblings()
    ensures Filter(Outline, -1, 0) == []
    ensures Filter(Outline, 0, 1) == []
    ensures Filter(Outline, 0, 2) == [1]
    ensures Filter(Outline, -1, 3) == [0]
    ensures Filter(Outline, 3, 4) == []
  {
    OutlineParents();
    assert Filter(Outline, 0, 0) == [];
    assert Filter(Outline, -1, 1) == [0];
    assert Filter(Outline, -1, 2) == [0];
    assert Filter(Outline, 3, 3) == [] by {
      FilterNoLaterParent(Outline, 3, 3);
    }
  }

  lemma NotBlank(s: string)
    requires |s| > 0 && (s[0] == '1' || s[0] == '2')
    ensures !Blank(s)
  {
    assert !IsJsSpace(s[0]);
  }

  lemma OutlineRoots()
    ensures Number(Outline, BaseGenerators, 0) == "1."
    ensures Number(Outline, BaseGenerators, 3) == "2."
  {
    OutlineParents();
    OutlineSiblings();
    assert Blank("");
    assert NatToString(1) == "1" && NatToString(2) == "2";
  }

  lemma OutlineFirstChildren()
    ensures Number(Outline, BaseGenerators, 1) == "1.1."
    ensures Number(Outline, BaseGenerators, 2) == "1.2."
  {
    OutlineRoots();
    OutlineParents();
    OutlineSiblings();
    NotBlank("1.");
    assert NatToString(1) == "1" && NatToString(2) == "2";
    assert NoTypeOf(Outline, 1) == DefaultNoType;
    assert NoTypeOf(Outline, 2) == DefaultNoType;
  }

  lemma OutlineSecondChild()
    ensures Number(Outline, BaseGenerators, 4) == "2.1."
  {
    OutlineRoots();
    OutlineParents();
    OutlineSiblings();
    NotBlank("2.");
    assert NatToString(1) == "1";
    assert NoTypeOf(Outline, 4) == DefaultNoType;
  }

  /** The numbers `updateCatalogNo` writes with the default scheme. */
  lemma DefaultOutlineNumbers()
    ensures forall e :: 0 <= e < 5 ==>
              Number(Outline, BaseGenerators, e) == ["1.", "1.1.", "1.2.", "2.", "2.1."][e]
  {
    OutlineRoots();
    OutlineFirstChildren();
    OutlineSecondChild();
  }
}
