/**
  Hierarchy-level expansion (src/train.py, `define_jerarquia`): a flat list of
  grouping columns, outermost first, becomes the list of its cumulative
  prefixes, one per aggregation level, which the aggregation step receives as
  its specification.
 */
module Train {

  /**
    The levels of a hierarchy, defined level by level: the levels of all but the
    last column, followed by the full column list.
   */
  function Hierarchy(levels: seq<string>): (h: seq<seq<string>>)
    ensures |h| == |levels|
    decreases |levels|
  {
    if levels == [] then []
    else Hierarchy(levels[..|levels| - 1]) + [levels]
  }

  /** Level i is the prefix of the first i + 1 columns. */
  lemma {:induction false} HierarchyAt(levels: seq<string>, i: nat)
    requires i < |levels|
    ensures Hierarchy(levels)[i] == levels[..i + 1]
    decreases |levels|
  {
    var init := levels[..|levels| - 1];
    if i < |levels| - 1 {
      HierarchyAt(init, i);
      assert init[..i + 1] == levels[..i + 1];
    }
  }

  /** Every level extends the previous one by exactly one column, and the first level is the outermost column alone. */
  lemma HierarchyNested(levels: seq<string>)
    ensures forall i :: 0 <= i < |levels| ==> |Hierarchy(levels)[i]| == i + 1
    ensures forall i :: 0 < i < |levels| ==>
      Hierarchy(levels)[i] == Hierarchy(levels)[i - 1] + [levels[i]]
    ensures |levels| > 0 ==> Hierarchy(levels)[0] == [levels[0]]
  {
    forall i | 0 <= i < |levels| ensures |Hierarchy(levels)[i]| == i + 1 {
      HierarchyAt(levels, i);
    }
    forall i | 0 < i < |levels| ensures Hierarchy(levels)[i] == Hierarchy(levels)[i - 1] + [levels[i]] {
      HierarchyAt(levels, i);
      HierarchyAt(levels, i - 1);
      assert levels[..i + 1] == levels[..i] + [levels[i]];
    }
    if |levels| > 0 {
      HierarchyAt(levels, 0);
    }
  }

  /** Each level is a proper prefix of every deeper level; the deepest level is the whole column list. */
  lemma HierarchyPrefixes(levels: seq<string>)
    ensures forall i, j :: 0 <= i < j < |levels| ==>
      Hierarchy(levels)[i] < Hierarchy(levels)[j]
    ensures |levels| > 0 ==> Hierarchy(levels)[|levels| - 1] == levels
  {
    forall i, j | 0 <= i < j < |levels| ensures Hierarchy(levels)[i] < Hierarchy(levels)[j] {
      HierarchyAt(levels, i);
      HierarchyAt(levels, j);
    }
    if |levels| > 0 {
      HierarchyAt(levels, |levels| - 1);
    }
  }

  /** The hierarchy the trainer uses by default. */
  lemma DefaultHierarchy()
    ensures Hierarchy(["total", "shop_id", "item_id"])
      == [["total"], ["total", "shop_id"], ["total", "shop_id", "item_id"]]
  {
    assert ["total", "shop_id", "item_id"][..2] == ["total", "shop_id"];
    assert ["total", "shop_id"][..1] == ["total"];
    assert ["total"][..0] == [];
  }

  /**
    `define_jerarquia`: for each i, insert the prefix of i + 1 columns at
    position i of a list that starts empty.
   */
  method DefineHierarchy(levels: seq<string>) returns (h: seq<seq<string>>)
    ensures h == Hierarchy(levels)
    ensures |h| == |levels| && forall i :: 0 <= i < |h| ==> h[i] == levels[..i + 1]
  {
    h := [];
    for i := 0 to |levels|
      invariant h == Hierarchy(levels[..i])
    {
      assert levels[..i + 1][..i] == levels[..i];
      h := h[..i] + [levels[..i + 1]] + h[i..];
    }
    assert levels[..|levels|] == levels;
    forall i | 0 <= i < |h| ensures h[i] == levels[..i + 1] {
      HierarchyAt(levels, i);
    }
  }
}
