/**
 * Translation of a swipe on the screen into the direction in which the
 * carousel's content moves.
 */
module AnimationDirections {

  import opened Optional

  /**
   * `UISwipeGestureRecognizer.Direction`, an option set identified by its raw
   * value; a combination of directions is the bitwise union of the raw values
   * below.
   */
  datatype SwipeDirection = SwipeDirection(rawValue: nat)

  const SwipeRight := SwipeDirection(1)
  const SwipeLeft := SwipeDirection(2)
  const SwipeUp := SwipeDirection(4)
  const SwipeDown := SwipeDirection(8)

  /** Direction of the content: `previous` or `next`. */
  datatype AnimationDirection = Previous | Next

  /**
   * The failable initialiser `init?(_ direction:)`. The `switch` matches by
   * equality, so only the single-direction sets `.left` and `.right` are
   * recognised; every other value, combined sets included, gives `nil`.
   */
  function FromSwipe(direction: SwipeDirection): (r: Option<AnimationDirection>)
    ensures r == Some(Next) <==> direction == SwipeLeft
    ensures r == Some(Previous) <==> direction == SwipeRight
    ensures r == None <==> direction != SwipeLeft && direction != SwipeRight
  {
    if direction == SwipeLeft then Some(Next)
    else if direction == SwipeRight then Some(Previous)
    else None
  }

  /** The directions of the two swipe recognisers the carousel registers. */
  const RegisteredSwipeDirections: seq<SwipeDirection> := [SwipeLeft, SwipeRight]

  /**
   * Every registered swipe is recognised, the two give different content
   * directions, and each content direction is reached by one of them.
   */
  lemma RegisteredSwipesCoverBothDirections()
    ensures forall i :: 0 <= i < |RegisteredSwipeDirections| ==>
      FromSwipe(RegisteredSwipeDirections[i]).Some?
    ensures FromSwipe(RegisteredSwipeDirections[0]) != FromSwipe(RegisteredSwipeDirections[1])
    ensures forall a: AnimationDirection ::
              exists i :: 0 <= i < |RegisteredSwipeDirections| && FromSwipe(RegisteredSwipeDirections[i]) == Some(a)
  {
    forall a: AnimationDirection
      ensures exists i :: 0 <= i < |RegisteredSwipeDirections| && FromSwipe(RegisteredSwipeDirections[i]) == Some(a)
    {
      if a == Next {
        assert FromSwipe(RegisteredSwipeDirections[0]) == Some(a);
      } else {
        assert FromSwipe(RegisteredSwipeDirections[1]) == Some(a);
      }
    }
  }

  /** Vertical swipes and combined option sets are ignored. */
  lemma OtherSwipesIgnored()
    ensures FromSwipe(SwipeUp) == None && FromSwipe(SwipeDown) == None
    ensures FromSwipe(SwipeDirection(SwipeLeft.rawValue + SwipeRight.rawValue)) == None
    ensures FromSwipe(SwipeDirection(0)) == None
  {
  }
}
