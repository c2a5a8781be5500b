/**
 * `CarouselScrollView`: the infinitely looping carousel. It owns the item
 * list, the focused index, a fixed pool of five cells and two snapshot
 * views used to fake the sliding animation of a swipe.
 *
 * The carousel is itself a `UIView`; the view properties it saves and
 * restores around a swipe (`isUserInteractionEnabled`, `isHidden`,
 * `clipsToBounds`) live in the property map of `surface`.
 */
module CarouselScroll {

  import opened Optional
  import opened Items
  import opened CarouselIndex
  import opened Cells
  import opened Restorable
  import opened AnimationDirections

  /** The `UIView` properties the carousel assigns through restorable guards. */
  datatype ViewFlag = IsUserInteractionEnabled | IsHidden | ClipsToBounds

  type View = StateTarget<ViewFlag, bool>

  type FlagGuard = RestorableState<ViewFlag, bool>

  /**
   * What a rendered snapshot depends on here: the flags of the rendered view
   * at the moment of rendering. The pixels themselves are not modelled.
   */
  datatype Snapshot = Snapshot(renderedFlags: map<ViewFlag, bool>)

  /** A swipe whose animation is running: the slide distance and the guards the completion restores. */
  datatype Transition = Transition(animationDistance: real, modifiedStates: seq<FlagGuard>)

  ghost predicate HasAllFlags(v: View)
    reads v
  {
    IsUserInteractionEnabled in v.state && IsHidden in v.state && ClipsToBounds in v.state
  }

  /** Defaults of a `UIScrollView`: interactive, visible, clipping its content. */
  const ScrollViewDefaults: map<ViewFlag, bool> :=
    map[IsUserInteractionEnabled := true, IsHidden := false, ClipsToBounds := true]

  /** Defaults of a `UIImageView`: not interactive, visible, not clipping. */
  const ImageViewDefaults: map<ViewFlag, bool> :=
    map[IsUserInteractionEnabled := false, IsHidden := false, ClipsToBounds := false]

  /** Five distinct cells, each displaying the item assigned to it. */
  ghost predicate CellPool(cells: seq<Cell>)
    reads cells
  {
    && |cells| == CellCount
    && (forall i, j :: 0 <= i < j < |cells| ==> cells[i] != cells[j])
    && (forall i :: 0 <= i < |cells| ==> cells[i].Valid())
  }

  /** The `let cells` array of `CarouselScrollView`: five `Cell(frame: .zero)`. */
  method NewCellPool() returns (cells: seq<Cell>)
    ensures CellPool(cells)
    ensures forall i :: 0 <= i < |cells| ==> fresh(cells[i]) && cells[i].item == None
    ensures forall i :: 0 <= i < |cells| ==> cells[i].textAlignment == Center && !cells[i].autoresizesSubviews
  {
    var c0 := new Cell();
    var c1 := new Cell();
    var c2 := new Cell();
    var c3 := new Cell();
    var c4 := new Cell();
    cells := [c0, c1, c2, c3, c4];
  }

  /** With the demo items and the first one focused, the five cells show B, C, A, B, C. */
  lemma DemoCellNames()
    ensures forall c :: 0 <= c < CellCount ==>
              DemoItems()[ItemIndicesForCells(0, |DemoItems()|)[c]].name == ["B", "C", "A", "B", "C"][c]
  {
    DemoCellIndices();
  }

  /** The focus is in range whenever there are items; before any are set it is 0. */
  ghost predicate FocusInvariant(items: seq<Item>, focusedItemIndex: int)
  {
    if items == [] then focusedItemIndex == 0 else 0 <= focusedItemIndex < |items|
  }

  class CarouselScrollView {
    var items: seq<Item>
    var focusedItemIndex: int
    const cells: seq<Cell>
    const surface: View
    const surfaceSnapshotView: View
    const behindSnapshotView: View
    var surfaceSnapshotImage: Option<Snapshot>
    var surfaceSnapshotOriginX: real

    ghost predicate Valid()
      reads this, cells, surface, surfaceSnapshotView, behindSnapshotView
    {
      && CellPool(cells)
      && surface != surfaceSnapshotView && surface != behindSnapshotView
      && surfaceSnapshotView != behindSnapshotView
      && HasAllFlags(surface) && HasAllFlags(surfaceSnapshotView) && HasAllFlags(behindSnapshotView)
      && FocusInvariant(items, focusedItemIndex)
    }

    /**
     * `init(frame:cellMargin:)` with `customizeViewStates()`: no items, focus
     * 0, five fresh empty cells, and both snapshot views hidden.
     */
    constructor ()
      ensures Valid()
      ensures items == [] && focusedItemIndex == 0
      ensures forall i :: 0 <= i < |cells| ==> fresh(cells[i]) && cells[i].item == None
      ensures forall i :: 0 <= i < |cells| ==> cells[i].textAlignment == Center && !cells[i].autoresizesSubviews
      ensures fresh(surface) && fresh(surfaceSnapshotView) && fresh(behindSnapshotView)
      ensures surface.state == ScrollViewDefaults
      ensures surfaceSnapshotView.state == ImageViewDefaults[IsHidden := true]
      ensures behindSnapshotView.state == ImageViewDefaults[IsHidden := true]
      ensures surfaceSnapshotImage == None && surfaceSnapshotOriginX == 0.0
    {
      var pool := NewCellPool();
      cells := pool;
      items := [];
      focusedItemIndex := 0;
      surface := new StateTarget(ScrollViewDefaults);
      // `customizeViewStates()` hides both snapshot views.
      surfaceSnapshotView := new StateTarget(ImageViewDefaults[IsHidden := true]);
      behindSnapshotView := new StateTarget(ImageViewDefaults[IsHidden := true]);
      surfaceSnapshotImage := None;
      surfaceSnapshotOriginX := 0.0;
    }

    /** Setter of `focusedItemIndex`; its `willSet` asserts that the new index is in range. */
    method SetFocusedItemIndex(newIndex: int)
      requires 0 <= newIndex < |items|
      modifies this`focusedItemIndex
      ensures focusedItemIndex == newIndex
      ensures FocusInvariant(items, focusedItemIndex)
    {
      focusedItemIndex := newIndex;
    }

    /**
     * Setter of `items`; its `didSet` puts the focus back on the first item,
     * which the focus setter's assertion only admits for a non-empty list.
     */
    method SetItems(newItems: seq<Item>)
      requires Valid() && |newItems| > 0
      modifies this`items, this`focusedItemIndex
      ensures Valid()
      ensures items == newItems && focusedItemIndex == 0
    {
      items := newItems;
      SetFocusedItemIndex(0);
    }

    /** `moveToNextItem()`: one item forward, from the last back to the first. */
    method MoveToNextItem()
      requires Valid() && |items| > 0
      modifies this`focusedItemIndex
      ensures Valid()
      ensures focusedItemIndex == Advance(old(focusedItemIndex), |items|)
    {
      var nextIndex := focusedItemIndex + 1;
      SetFocusedItemIndex(if nextIndex > |items| - 1 then 0 else nextIndex);
      AdvanceSteps(old(focusedItemIndex), |items|);
    }

    /** `moveToPreviousItem()`: one item back, from the first round to the last. */
    method MoveToPreviousItem()
      requires Valid() && |items| > 0
      modifies this`focusedItemIndex
      ensures Valid()
      ensures focusedItemIndex == Retreat(old(focusedItemIndex), |items|)
    {
      var previousIndex := focusedItemIndex - 1;
      SetFocusedItemIndex(if previousIndex < 0 then |items| - 1 else previousIndex);
      RetreatSteps(old(focusedItemIndex), |items|);
    }

    /**
     * `applyItemsToCells()`: every cell of the pool shows the item its slot
     * maps to; the pool itself is unchanged.
     */
    method ApplyItemsToCells()
      requires Valid() && |items| > 0
      modifies cells
      ensures Valid()
      ensures forall c :: 0 <= c < CellCount ==>
                cells[c].item == Some(items[ItemIndicesForCells(focusedItemIndex, |items|)[c]])
      ensures forall c :: 0 <= c < CellCount ==>
                && cells[c].textAlignment == old(cells[c].textAlignment)
                && cells[c].autoresizesSubviews == old(cells[c].autoresizesSubviews)
    {
      var indices := ItemIndicesForCells(focusedItemIndex, |items|);
      for c := 0 to CellCount
        invariant Valid()
        invariant forall j :: 0 <= j < c ==> cells[j].item == Some(items[indices[j]])
        invariant forall j :: 0 <= j < CellCount ==>
                    && cells[j].textAlignment == old(cells[j].textAlignment)
                    && cells[j].autoresizesSubviews == old(cells[j].autoresizesSubviews)
      {
        cells[c].SetItem(Some(items[indices[c]]));
      }
    }

    /**
     * `contentSnapshot()`: renders the carousel with `clipsToBounds`
     * temporarily off, then restores it.
     */
    method ContentSnapshot() returns (image: Snapshot)
      requires HasAllFlags(surface)
      modifies surface
      ensures surface.state == old(surface.state)
      ensures image.renderedFlags == old(surface.state)[ClipsToBounds := false]
    {
      var clipsToBounds := new RestorableState(false, surface, ClipsToBounds);
      image := Snapshot(surface.state);
      clipsToBounds.Restore();
      assert surface.state == old(surface.state)[ClipsToBounds := false][ClipsToBounds := old(surface.state[ClipsToBounds])];
    }

    /**
     * `behindContentSnapshot()`: renders what lies behind the carousel with
     * the carousel temporarily hidden, then restores its visibility.
     */
    method BehindContentSnapshot() returns (image: Snapshot)
      requires HasAllFlags(surface)
      modifies surface
      ensures surface.state == old(surface.state)
      ensures image.renderedFlags == old(surface.state)[IsHidden := true]
    {
      var isHidden := new RestorableState(true, surface, IsHidden);
      image := Snapshot(surface.state);
      isHidden.Restore();
      assert surface.state == old(surface.state)[IsHidden := true][IsHidden := old(surface.state[IsHidden])];
    }

    /**
     * The guards a swipe creates, in order: interaction on the carousel, and
     * the visibility of the surface and behind snapshots, each keeping the
     * given earlier value.
     */
    ghost predicate SwipeGuards(guards: seq<FlagGuard>, wasInteractive: bool, surfaceWasHidden: bool, behindWasHidden: bool)
    {
      && |guards| == 3
      && guards[0].target == surface && guards[0].key == IsUserInteractionEnabled
      && guards[0].keepingValue == wasInteractive
      && guards[1].target == surfaceSnapshotView && guards[1].key == IsHidden
      && guards[1].keepingValue == surfaceWasHidden
      && guards[2].target == behindSnapshotView && guards[2].key == IsHidden
      && guards[2].keepingValue == behindWasHidden
    }

    /**
     * `handleSwipe(_:)`. An unrecognised direction changes nothing. A
     * recognised one snapshots the content, disables interaction, shows
     * both snapshot views (each through a restorable guard), moves the focus
     * and slides the surface snapshot by one cell width: to the left for
     * `next`, to the right for `previous`. The cells are not touched here;
     * they are refilled on the next draw.
     */
    method HandleSwipe(direction: SwipeDirection, cellOuterFrameWidth: real) returns (transition: Option<Transition>)
      requires Valid()
      requires FromSwipe(direction).Some? ==> |items| > 0
      modifies this`focusedItemIndex, this`surfaceSnapshotImage, this`surfaceSnapshotOriginX
      modifies surface, surfaceSnapshotView, behindSnapshotView
      ensures Valid()
      ensures FromSwipe(direction) == None ==>
                && transition == None
                && focusedItemIndex == old(focusedItemIndex)
                && surfaceSnapshotImage == old(surfaceSnapshotImage)
                && surfaceSnapshotOriginX == old(surfaceSnapshotOriginX)
                && unchanged(surface, surfaceSnapshotView, behindSnapshotView)
      ensures FromSwipe(direction) == Some(Next) ==>
                && focusedItemIndex == Advance(old(focusedItemIndex), |items|)
                && transition.Some? && transition.value.animationDistance == -cellOuterFrameWidth
      ensures FromSwipe(direction) == Some(Previous) ==>
                && focusedItemIndex == Retreat(old(focusedItemIndex), |items|)
                && transition.Some? && transition.value.animationDistance == cellOuterFrameWidth
      ensures transition.Some? ==>
                && SwipeGuards(transition.value.modifiedStates, old(surface.state[IsUserInteractionEnabled]),
                     old(surfaceSnapshotView.state[IsHidden]), old(behindSnapshotView.state[IsHidden]))
                && surface.state == old(surface.state)[IsUserInteractionEnabled := false]
                && surfaceSnapshotView.state == old(surfaceSnapshotView.state)[IsHidden := false]
                && behindSnapshotView.state == old(behindSnapshotView.state)[IsHidden := false]
                && surfaceSnapshotImage == Some(Snapshot(old(surface.state)[ClipsToBounds := false]))
                && surfaceSnapshotOriginX == transition.value.animationDistance
    {
      var animationDirection := FromSwipe(direction);
      if animationDirection.None? {
        return None;
      }

      surfaceSnapshotOriginX := 0.0;
      var image := ContentSnapshot();
      surfaceSnapshotImage := Some(image);

      var interaction := RestorableAssign(surface, IsUserInteractionEnabled, false);
      var surfaceHidden := RestorableAssign(surfaceSnapshotView, IsHidden, false);
      var behindHidden := RestorableAssign(behindSnapshotView, IsHidden, false);
      var modifiedStates := [interaction, surfaceHidden, behindHidden];

      var animationDistance: real;
      match animationDirection.value {
        case Next =>
          MoveToNextItem();
          animationDistance := -cellOuterFrameWidth;
        case Previous =>
          MoveToPreviousItem();
          animationDistance := cellOuterFrameWidth;
      }

      // The animation block of `UIView.animate` sets the snapshot's final position at once.
      surfaceSnapshotOriginX := surfaceSnapshotOriginX + animationDistance;
      transition := Some(Transition(animationDistance, modifiedStates));
    }

    /**
     * The completion block of the swipe animation: `restoreAll()` on the
     * swipe's guards puts each flag back to the value it had before the swipe.
     */
    method CompleteAnimation(transition: Transition, ghost wasInteractive: bool, ghost surfaceWasHidden: bool, ghost behindWasHidden: bool)
      requires Valid()
      requires SwipeGuards(transition.modifiedStates, wasInteractive, surfaceWasHidden, behindWasHidden)
      modifies surface, surfaceSnapshotView, behindSnapshotView
      ensures Valid()
      ensures surface.state == old(surface.state)[IsUserInteractionEnabled := wasInteractive]
      ensures surfaceSnapshotView.state == old(surfaceSnapshotView.state)[IsHidden := surfaceWasHidden]
      ensures behindSnapshotView.state == old(behindSnapshotView.state)[IsHidden := behindWasHidden]
    {
      var guards := transition.modifiedStates;
      assert Targets(guards) == {surface, surfaceSnapshotView, behindSnapshotView};
      RestoreAll(guards);
      AfterRestoresSoleGuard(surface, old(surface.state), guards, 0);
      AfterRestoresSoleGuard(surfaceSnapshotView, old(surfaceSnapshotView.state), guards, 1);
      AfterRestoresSoleGuard(behindSnapshotView, old(behindSnapshotView.state), guards, 2);
    }

    /**
     * A swipe followed by its animation's completion: the focus has moved
     * (or not, for an ignored direction) and every view flag is back to its
     * value before the swipe.
     */
    method SwipeThenComplete(direction: SwipeDirection, cellOuterFrameWidth: real)
      requires Valid()
      requires FromSwipe(direction).Some? ==> |items| > 0
      modifies this`focusedItemIndex, this`surfaceSnapshotImage, this`surfaceSnapshotOriginX
      modifies surface, surfaceSnapshotView, behindSnapshotView
      ensures Valid()
      ensures FromSwipe(direction) == None ==> focusedItemIndex == old(focusedItemIndex)
      ensures FromSwipe(direction) == Some(Next) ==> focusedItemIndex == Advance(old(focusedItemIndex), |items|)
      ensures FromSwipe(direction) == Some(Previous) ==> focusedItemIndex == Retreat(old(focusedItemIndex), |items|)
      ensures surface.state == old(surface.state)
      ensures surfaceSnapshotView.state == old(surfaceSnapshotView.state)
      ensures behindSnapshotView.state == old(behindSnapshotView.state)
    {
      var transition := HandleSwipe(direction, cellOuterFrameWidth);
      if transition.Some? {
        CompleteAnimation(transition.value, old(surface.state[IsUserInteractionEnabled]),
          old(surfaceSnapshotView.state[IsHidden]), old(behindSnapshotView.state[IsHidden]));
        assert surface.state == old(surface.state)[IsUserInteractionEnabled := false]
          [IsUserInteractionEnabled := old(surface.state[IsUserInteractionEnabled])];
        assert surfaceSnapshotView.state == old(surfaceSnapshotView.state)[IsHidden := false]
          [IsHidden := old(surfaceSnapshotView.state[IsHidden])];
        assert behindSnapshotView.state == old(behindSnapshotView.state)[IsHidden := false]
          [IsHidden := old(behindSnapshotView.state[IsHidden])];
      }
    }
  }
}
