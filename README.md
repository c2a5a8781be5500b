# Carousel scroll view, modelled in Dafny

A model of the logic of `CarouselScrollView`, an infinitely looping
horizontal carousel for iOS. The view shows an arbitrary number of items
through a fixed pool of five reusable cells: the centre cell (slot 2)
shows the focused item and the other slots show its neighbours, wrapping
around the ends of the item list. A left swipe moves the focus to the next
item and a right swipe to the previous one. While the swipe animates, a
snapshot of the old content slides over the already updated cells.
Interaction is disabled meanwhile, and the flags that the swipe changes are
put back afterwards by `RestorableState` guards.

Modules, one per source file or concern:

- `SwiftInt` (swift_int.dfy): Swift's truncating `%` on `Int`, and the facts
  about Dafny's Euclidean `%` that the proofs use.
- `CarouselIndex` (carousel_index.dfy): the pure index arithmetic of
  CarouselScrollView.swift. It covers the centre cell, the cell-to-item
  mapping, and the wrap-around focus moves `Advance` and `Retreat` with
  their properties.
- `CarouselScroll` (carousel_scroll_view.dfy): the `CarouselScrollView`
  class. It holds the item list, the focus, the cell pool, the carousel's own
  view flags and the two snapshot views. It also models the swipe handler
  and the animation's completion.
- `Restorable` (restorable_state.dfy): `RestorableState`,
  `restorableAssign` and `restoreAll`. A key path into an object becomes a
  key into the object's property map.
- `Cells` (cell.dfy): the label cell, whose text and background follow the
  assigned item.
- `AnimationDirections` (animation_direction.dfy): the mapping from a swipe
  direction to the content direction.
- `Items` and `Optional`: the item record, with the demo items of the view
  controller, and Swift's `Optional`.

Swift's `assert` is modelled with its debug-build meaning, as a
precondition. A force-unwrap that would crash on an empty list is also a
precondition. This applies to the focus setter (`items.indices.contains`)
and to `items.indices.last!` in the navigation methods. The remainder by
`items.count` traps on an empty list, so the cell mapping requires at least
one item too.

Modelling choices made against the code:

- `SetItems` requires a non-empty list. The `didSet` of `items` assigns 0
  to the focus, and the focus setter's `willSet` assertion checks that the
  new index is in range, which fails for an empty list.
- `MoveToNextItem` and `MoveToPreviousItem` keep the code's comparisons
  with the first and last index. Their postconditions prove them equal to
  `(f + 1) mod n` and `(f - 1 + n) mod n` (`Advance`, `Retreat`).
- `handleSwipe` makes no check of its own. A second swipe is blocked only
  because `isUserInteractionEnabled` is false, and UIKit does not deliver
  touches to such a view. The model does not encode that delivery rule, so
  `HandleSwipe` may be called at any time.

## Model

| member | source | states |
|---|---|---|
| SwiftInt.SwiftRemainder | TestPageView/CarouselScroll/CarouselScrollView.swift:250 | Swift's `%`: the magnitude is below the divisor, the sign is that of the dividend, and the dividend minus the result is a multiple of the divisor. Together these determine truncating division's remainder uniquely. |
| SwiftInt.SwiftRemainderOfNonNegative | TestPageView/CarouselScroll/CarouselScrollView.swift:250 | On a non-negative dividend, Swift's `%` agrees with the mathematical residue. |
| SwiftInt.SwiftRemainderOfMinusOne | TestPageView/CarouselScroll/CarouselScrollView.swift:250 | On a negative dividend it does not: `-1 % n == -1` for `n > 1`. |
| CarouselIndex.CenterCellIndex | TestPageView/CarouselScroll/CarouselScrollView.swift:198-200 | The centre slot lies in the pool, with as many slots to its left as to its right. |
| CarouselIndex.ItemIndex | TestPageView/CarouselScroll/CarouselScrollView.swift:247-251 | For any cell, the mapped index is congruent modulo the item count to the cell's offset from the centre plus the focus. For a cell of the pool and an in-range focus, it lies in `[0, count)`, even when there are fewer than five items. The centre cell maps to the focus itself. |
| CarouselIndex.ItemIndexIsResidue | TestPageView/CarouselScroll/CarouselScrollView.swift:249-250 | For pool cells and an in-range focus, the one-step correction followed by Swift's `%` equals the Euclidean residue of `cell - 2 + focus`. |
| CarouselIndex.ItemIndicesForCells | TestPageView/CarouselScroll/CarouselScrollView.swift:238-242 | Five indices, one per cell. Each is in range and equals the residue of its offset plus the focus. The centre one is the focus. |
| CarouselScroll.DemoCellNames | TestPageView/ViewController.swift:29-33 | With the demo items A, B, C and the first one focused, the five cells show B, C, A, B, C. |
| CarouselIndex.DemoCellIndices | TestPageView/ViewController.swift:29-33 | With the demo's three items and focus 0, the cells show items 1, 2, 0, 1, 2. |
| CarouselIndex.SingleItemFillsEveryCell | TestPageView/CarouselScroll/CarouselScrollView.swift:247-251 | With one item, every cell shows item 0. This includes slot 0, where the code reduces `-1` with Swift's `%`. |
| CarouselIndex.AdvanceSteps | TestPageView/CarouselScroll/CarouselScrollView.swift:186-189 | `(f + 1) mod n` is `f + 1` below the last index and 0 at the last index. |
| CarouselIndex.RetreatSteps | TestPageView/CarouselScroll/CarouselScrollView.swift:192-195 | `(f - 1 + n) mod n` is `f - 1` above 0 and `n - 1` at 0. |
| CarouselIndex.RetreatAfterAdvance | TestPageView/CarouselScroll/CarouselScrollView.swift:186-195 | Previous after next restores the focus. |
| CarouselIndex.AdvanceAfterRetreat | TestPageView/CarouselScroll/CarouselScrollView.swift:186-195 | Next after previous restores the focus. |
| CarouselIndex.AdvanceTimesIsShift | TestPageView/CarouselScroll/CarouselScrollView.swift:186-189 | `k` consecutive moves to the next item shift the focus by `k` modulo the item count. |
| CarouselIndex.FullCycleReturns | TestPageView/CarouselScroll/CarouselScrollView.swift:186-189 | `items.count` moves to the next item bring the focus back to where it started. |
| CarouselScroll.NewCellPool | TestPageView/CarouselScroll/CarouselScrollView.swift:43-49 | The pool holds five distinct fresh cells. Each has no item, centred text and autoresizing off, as `Cell(frame:)` sets them. |
| CarouselScroll.CarouselScrollView.constructor | TestPageView/CarouselScroll/CarouselScrollView.swift:159-171 | The carousel starts with no items, focus 0 and five empty cells. Both snapshot views are hidden, and the carousel's own flags are the scroll view defaults. The surface snapshot sits at origin 0. Every cell has centred text and autoresizing off. |
| CarouselScroll.CarouselScrollView.SetFocusedItemIndex | TestPageView/CarouselScroll/CarouselScrollView.swift:30-39 | The assertion makes an in-range index a precondition. The focus becomes that index, so the focus invariant holds afterwards. |
| CarouselScroll.CarouselScrollView.SetItems | TestPageView/CarouselScroll/CarouselScrollView.swift:21-27 | The list is replaced and the focus is reset to 0, whatever it was. The list must be non-empty. Nothing else changes. |
| CarouselScroll.CarouselScrollView.MoveToNextItem | TestPageView/CarouselScroll/CarouselScrollView.swift:186-189 | The new focus is `Advance(old focus, count)`. It stays in range, and only the focus changes. |
| CarouselScroll.CarouselScrollView.MoveToPreviousItem | TestPageView/CarouselScroll/CarouselScrollView.swift:192-195 | The new focus is `Retreat(old focus, count)`. It stays in range, and only the focus changes. |
| CarouselScroll.CarouselScrollView.ApplyItemsToCells | TestPageView/CarouselScroll/CarouselScrollView.swift:254-259 | Afterwards each of the five cells holds `items[itemIndex(forCellIndex: c)]` and displays it. The pool is still the same five cells, and each cell keeps its alignment and autoresizing setting. |
| CarouselScroll.CarouselScrollView.ContentSnapshot | TestPageView/CarouselScroll/CarouselScrollView.swift:270-284 | The content is rendered with `clipsToBounds` off, and afterwards the view's flags are exactly as before. |
| CarouselScroll.CarouselScrollView.BehindContentSnapshot | TestPageView/CarouselScroll/CarouselScrollView.swift:288-319 | The background is rendered with the carousel hidden, and afterwards its flags are exactly as before. |
| CarouselScroll.CarouselScrollView.HandleSwipe | TestPageView/CarouselScroll/CarouselScrollView.swift:118-154 | An unrecognised direction returns with the focus, the views and the snapshot unchanged. `next` advances the focus and slides by `-width`; `previous` retreats and slides by `+width`. A recognised swipe turns interaction off and shows both snapshot views through three guards that keep the earlier values. Cells are not touched. |
| CarouselScroll.CarouselScrollView.CompleteAnimation | TestPageView/CarouselScroll/CarouselScrollView.swift:151-153 | `restoreAll` on the swipe's three guards restores interaction and both snapshot visibilities to the kept values. |
| CarouselScroll.CarouselScrollView.SwipeThenComplete | TestPageView/CarouselScroll/CarouselScrollView.swift:118-154 | After a swipe and its completion, the carousel's flags and both snapshot views' flags equal their pre-swipe values, and the focus has moved as the direction says. |
| AnimationDirections.FromSwipe | TestPageView/CarouselScroll/AnimationDirection.swift:24-36 | `.left` gives `next` and `.right` gives `previous`, in both directions of the equivalence. Every other value gives nil, including up, down and combined option sets. |
| AnimationDirections.RegisteredSwipesCoverBothDirections | TestPageView/CarouselScroll/CarouselScrollView.swift:173-183 | Both registered swipe directions are recognised and give different content directions, and each of the two content directions is reached. |
| AnimationDirections.OtherSwipesIgnored | TestPageView/CarouselScroll/AnimationDirection.swift:34-35 | Up, down, left-and-right together, and the empty set give nil. |
| Restorable.RestorableState.constructor | TestPageView/CarouselScroll/RestorableState.swift:51-57 | `keepingValue` is the target's value before the assignment, and the property then holds the new value. No other property changes. |
| Restorable.RestorableState.WrappedValue | TestPageView/CarouselScroll/RestorableState.swift:65-67 | Reads the target's property when called, not a cached copy; `WrappedValueReadsThrough` shows it sees direct writes, restore and writes through the guard. |
| Restorable.WrappedValueReadsThrough | TestPageView/CarouselScroll/RestorableState.swift:63-72 | Reading `wrappedValue` gives the target's current value, not a cached copy. After a direct write to the target, it reads the written value. After `restore` it reads the kept value. After a write through the guard, it reads that value. |
| Restorable.RestorableState.SetWrappedValue | TestPageView/CarouselScroll/RestorableState.swift:69-71 | Writing goes through to that one property of the target. |
| Restorable.RestorableState.Restore | TestPageView/CarouselScroll/RestorableState.swift:78-80 | The kept value is written back into the one property of the one target, and nothing else changes. |
| Restorable.RestorableAssign | TestPageView/CarouselScroll/RestorableState.swift:95-97 | A fresh guard for the property, keeping its old value. The property now equals the assigned value. |
| Restorable.AssignThenRestore | TestPageView/CarouselScroll/RestorableState.swift:51-80 | Assigning through a guard and then restoring leaves the target's properties exactly as they were. |
| Restorable.RestoreTwice | TestPageView/CarouselScroll/RestorableState.swift:78-80 | Restoring twice has the same effect as restoring once, because `keepingValue` is constant. |
| Restorable.RestoreAll | TestPageView/CarouselScroll/RestorableState.swift:103-108 | Every target ends as if each guard had restored once, in index order (`AfterRestores`). Objects outside the guards' targets are untouched. |
| Restorable.AfterRestoresLastWins | TestPageView/CarouselScroll/RestorableState.swift:105-107 | After `restoreAll`, a property holds the value kept by the last guard for it, so the guards run in index order. |
| Restorable.AfterRestoresOtherKeys | TestPageView/CarouselScroll/RestorableState.swift:103-108 | Properties that no guard names keep their value, and no property is added or dropped. |
| Restorable.AfterRestoresSoleGuard | TestPageView/CarouselScroll/RestorableState.swift:103-108 | When one guard alone targets an object, `restoreAll` leaves that object as that guard's `restore` would. |
| Restorable.AfterRestoresUntouched | TestPageView/CarouselScroll/RestorableState.swift:103-108 | An object that no guard targets is left as it was. |
| Cells.DisplayedText | TestPageView/CarouselScroll/Cell.swift:18 | There is text exactly when an item is assigned, and then it is the item's name. |
| Cells.DisplayedColor | TestPageView/CarouselScroll/Cell.swift:19 | There is a background exactly when an item is assigned, and then it is the item's colour. |
| Cells.Cell.constructor | TestPageView/CarouselScroll/Cell.swift:23-26 | A new cell has no item, no text and no background. Its text is centred and it does not autoresize subviews. |
| Cells.Cell.SetItem | TestPageView/CarouselScroll/Cell.swift:15-20 | The stored item is the assigned one, and text and background follow it (nil clears both). The result does not depend on the earlier state, so reassigning the same item is idempotent. Alignment is unchanged. |
| Items.DemoItems | TestPageView/ViewController.swift:29-33 | The demo list is A, B, C. |

## Left out

- Snapshot rendering (`UIGraphics` image contexts, `layer.render`, the walk up the view hierarchy in `behindContentSnapshot`): foreign UIKit drawing. A `Snapshot` records only the flags the view had while it was rendered.
- Layout geometry in `CGFloat` (`cellOuterFrameWidth`, `contentSize`, `contentOffset`, cell frames, `layoutSubviews`, `updateContentOffset`, `cellMargin`): floating-point view placement. `HandleSwipe` takes the outer cell width as a parameter. Note that `layoutSubviews` offsets the content by two margins (line 88) while `updateContentOffset` uses one (line 265).
- Animation timing (`UIView.animate`, the 0.3 s duration, asynchronous completion): the animations block is applied at once, and the completion is the separate call `CompleteAnimation`. `handleSwipe` makes no check of its own; a second swipe before the completion is blocked only because `isUserInteractionEnabled` is false and UIKit does not deliver touches to such a view. The model does not encode that delivery rule, so `HandleSwipe` may be called at any time.
- `setNeedsDisplay` / `draw`: `draw` only calls `applyItemsToCells`, which is modelled. The deferral of redrawing is a framework concern.
- Gesture-recognizer registration, `isPagingEnabled`, `isScrollEnabled` and the Storyboard initialisers: framework plumbing. Only the two registered directions are kept, in `RegisteredSwipeDirections`.
- `projectedValue` and the convenience initialiser `init(for:_:currentlyAssignedTo:)`: the first returns the guard itself. The second forwards to the designated initialiser, which `RestorableState.constructor` models, as does `RestorableAssign`.
- `RestoreAll` is generic over one key and value type. Swift's `[any RestorableStateProtocol]` can mix value types; every use in the carousel restores `Bool` flags.
- Swift's 64-bit `Int` overflow: every index involved is bounded by the item count, so overflow cannot occur and integers are unbounded.
- The view controller is not part of this model beyond its three demo items.
