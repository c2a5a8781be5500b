/**
 * The index arithmetic of `CarouselScrollView`: which item each of the five
 * reusable cells shows, and how the focused item moves with wrap-around.
 * Everything here is a pure function of the focused index and the number of
 * items; the class in carousel_scroll_view.dfy holds the state.
 */
module CarouselIndex {

  import opened SwiftInt

  /** Size of the fixed pool of reusable cells. */
  const CellCount: nat := 5

  /**
   * `centerCellIndex`, `cells.count / 2`: the cell that shows the focused
   * item, with as many cells on its left as on its right.
   */
  function CenterCellIndex(): (c: nat)
    ensures c < CellCount
    ensures c == CellCount - 1 - c
  {
    CellCount / 2
  }

  /**
   * `itemIndex(forCellIndex:)`, with the focused index and `items.count`
   * passed explicitly. The raw offset from the focused item is corrected
   * once for a negative value and then reduced with Swift's `%`. An empty
   * item list makes the `%` trap, hence the precondition.
   */
  function ItemIndex(cellIndex: int, focusedItemIndex: int, itemCount: int): (r: int)
    requires itemCount > 0
    ensures r % itemCount == (cellIndex - CenterCellIndex() + focusedItemIndex) % itemCount
    ensures 0 <= cellIndex < CellCount && 0 <= focusedItemIndex < itemCount ==> 0 <= r < itemCount
    ensures cellIndex == CenterCellIndex() && 0 <= focusedItemIndex < itemCount ==> r == focusedItemIndex
  {
    var raw := cellIndex - CenterCellIndex() + focusedItemIndex;
    var corrected := if raw >= 0 then raw else itemCount + raw;
    var r := SwiftRemainder(corrected, itemCount);
    ModCongruent(corrected, r, itemCount);
    ModShift(raw, itemCount);
    r
  }

  /**
   * For every cell of the pool and an in-range focus, the mapped index is the
   * mathematical (Euclidean) residue of the cell's offset from the centre
   * plus the focus; in particular it holds even with fewer than five items,
   * where the single correction `raw >= 0 ? raw : count + raw` in
   * `itemIndex(forCellIndex:)` is not enough on its own and
   * the truncating `%` of a negative value makes up for it.
   */
  lemma ItemIndexIsResidue(cellIndex: int, focusedItemIndex: int, itemCount: int)
    requires 0 <= cellIndex < CellCount && 0 <= focusedItemIndex < itemCount
    ensures ItemIndex(cellIndex, focusedItemIndex, itemCount)
         == (cellIndex - CenterCellIndex() + focusedItemIndex) % itemCount
  {
    var r := ItemIndex(cellIndex, focusedItemIndex, itemCount);
    ModOfResidue(r, itemCount);
  }

  /** `itemIndicesForCells`: the item index shown by each cell, in cell order. */
  function ItemIndicesForCells(focusedItemIndex: int, itemCount: int): (indices: seq<int>)
    requires 0 <= focusedItemIndex < itemCount
    ensures |indices| == CellCount
    ensures forall c :: 0 <= c < CellCount ==> 0 <= indices[c] < itemCount
    ensures forall c :: 0 <= c < CellCount ==>
              indices[c] == (c - CenterCellIndex() + focusedItemIndex) % itemCount
    ensures indices[CenterCellIndex()] == focusedItemIndex
  {
    var indices := seq(CellCount, c requires 0 <= c < CellCount => ItemIndex(c, focusedItemIndex, itemCount));
    assert forall c :: 0 <= c < CellCount ==>
             indices[c] == (c - CenterCellIndex() + focusedItemIndex) % itemCount by {
      forall c | 0 <= c < CellCount {
        ItemIndexIsResidue(c, focusedItemIndex, itemCount);
      }
    }
    indices
  }

  /** With the demo's three items and the first one focused, the cells show B, C, A, B, C. */
  lemma DemoCellIndices()
    ensures ItemIndicesForCells(0, 3) == [1, 2, 0, 1, 2]
  {
  }

  /** A single item fills all five cells. */
  lemma SingleItemFillsEveryCell()
    ensures ItemIndicesForCells(0, 1) == [0, 0, 0, 0, 0]
  {
  }

  /** Moving the focus forward: `(focus + 1) mod count`. */
  function Advance(focusedItemIndex: int, itemCount: int): (r: int)
    requires itemCount > 0
    ensures 0 <= r < itemCount
  {
    (focusedItemIndex + 1) % itemCount
  }

  /** Moving the focus backward: `(focus - 1 + count) mod count`. */
  function Retreat(focusedItemIndex: int, itemCount: int): (r: int)
    requires itemCount > 0
    ensures 0 <= r < itemCount
  {
    (focusedItemIndex - 1 + itemCount) % itemCount
  }

  /** Advance is the next index, wrapping from the last index to the first. */
  lemma AdvanceSteps(focusedItemIndex: int, itemCount: int)
    requires 0 <= focusedItemIndex < itemCount
    ensures focusedItemIndex < itemCount - 1 ==> Advance(focusedItemIndex, itemCount) == focusedItemIndex + 1
    ensures focusedItemIndex == itemCount - 1 ==> Advance(focusedItemIndex, itemCount) == 0
  {
    if focusedItemIndex < itemCount - 1 {
      ModOfResidue(focusedItemIndex + 1, itemCount);
    }
  }

  /** Retreat is the previous index, wrapping from the first index to the last. */
  lemma RetreatSteps(focusedItemIndex: int, itemCount: int)
    requires 0 <= focusedItemIndex < itemCount
    ensures focusedItemIndex > 0 ==> Retreat(focusedItemIndex, itemCount) == focusedItemIndex - 1
    ensures focusedItemIndex == 0 ==> Retreat(focusedItemIndex, itemCount) == itemCount - 1
  {
    if focusedItemIndex > 0 {
      ModOfResidue(focusedItemIndex - 1, itemCount);
      ModShift(focusedItemIndex - 1, itemCount);
    } else {
      ModOfResidue(itemCount - 1, itemCount);
    }
  }

  /** Retreating after advancing restores the focus. */
  lemma RetreatAfterAdvance(focusedItemIndex: int, itemCount: int)
    requires 0 <= focusedItemIndex < itemCount
    ensures Retreat(Advance(focusedItemIndex, itemCount), itemCount) == focusedItemIndex
  {
    AdvanceSteps(focusedItemIndex, itemCount);
    RetreatSteps(Advance(focusedItemIndex, itemCount), itemCount);
  }

  /** Advancing after retreating restores the focus. */
  lemma AdvanceAfterRetreat(focusedItemIndex: int, itemCount: int)
    requires 0 <= focusedItemIndex < itemCount
    ensures Advance(Retreat(focusedItemIndex, itemCount), itemCount) == focusedItemIndex
  {
    RetreatSteps(focusedItemIndex, itemCount);
    AdvanceSteps(Retreat(focusedItemIndex, itemCount), itemCount);
  }

  /** The focus after `steps` consecutive advances. */
  function AdvanceTimes(focusedItemIndex: int, itemCount: int, steps: nat): (r: int)
    requires 0 <= focusedItemIndex < itemCount
    ensures 0 <= r < itemCount
  {
    if steps == 0 then focusedItemIndex
    else Advance(AdvanceTimes(focusedItemIndex, itemCount, steps - 1), itemCount)
  }

  /** `steps` advances move the focus `steps` places forward, modulo the item count. */
  lemma {:induction false} AdvanceTimesIsShift(focusedItemIndex: int, itemCount: int, steps: nat)
    requires 0 <= focusedItemIndex < itemCount
    ensures AdvanceTimes(focusedItemIndex, itemCount, steps) == (focusedItemIndex + steps) % itemCount
  {
    if steps == 0 {
      ModOfResidue(focusedItemIndex, itemCount);
    } else {
      AdvanceTimesIsShift(focusedItemIndex, itemCount, steps - 1);
      ModSucc(focusedItemIndex + steps - 1, itemCount);
    }
  }

  /** Advancing once per item brings the focus back to where it started. */
  lemma {:induction false} FullCycleReturns(focusedItemIndex: int, itemCount: int)
    requires 0 <= focusedItemIndex < itemCount
    ensures AdvanceTimes(focusedItemIndex, itemCount, itemCount) == focusedItemIndex
  {
    AdvanceTimesIsShift(focusedItemIndex, itemCount, itemCount);
    ModShift(focusedItemIndex, itemCount);
    ModOfResidue(focusedItemIndex, itemCount);
  }
}
