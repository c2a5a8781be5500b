/**
 * `CarouselScrollView.Cell`: a label that displays the name of the item
 * assigned to it on a background of the item's colour.
 */
module Cells {

  import opened Optional
  import opened Items

  /** `NSTextAlignment`. */
  datatype TextAlignment = Left | Center | Right | Justified | Natural

  /** `item?.name`: the text shown for an assigned item, or none. */
  function DisplayedText(item: Option<Item>): (text: Option<string>)
    ensures text.Some? <==> item.Some?
    ensures item.Some? ==> text.value == item.value.name
  {
    match item
    case Some(i) => Some(i.name)
    case None => None
  }

  /** `item?.color`: the background shown for an assigned item, or none. */
  function DisplayedColor(item: Option<Item>): (color: Option<Color>)
    ensures color.Some? <==> item.Some?
    ensures item.Some? ==> color.value == item.value.color
  {
    match item
    case Some(i) => Some(i.color)
    case None => None
  }

  class Cell {
    var item: Option<Item>
    var text: Option<string>
    var backgroundColor: Option<Color>
    var textAlignment: TextAlignment
    var autoresizesSubviews: bool

    /** What the label displays follows the assigned item. */
    ghost predicate Valid()
      reads this
    {
      text == DisplayedText(item) && backgroundColor == DisplayedColor(item)
    }

    /**
     * `init(frame:)` followed by `customizeViewStates()`: no item, no text or
     * background (a label's defaults), centred text, no autoresizing of
     * subviews.
     */
    constructor ()
      ensures Valid()
      ensures item == None && text == None && backgroundColor == None
      ensures textAlignment == Center && !autoresizesSubviews
    {
      item := None;
      text := None;
      backgroundColor := None;
      autoresizesSubviews := false;
      textAlignment := Center;
    }

    /** Setter of `item` with its `didSet`: text and background follow the new item. */
    method SetItem(newItem: Option<Item>)
      modifies this
      ensures Valid()
      ensures item == newItem
      ensures text == DisplayedText(newItem) && backgroundColor == DisplayedColor(newItem)
      ensures textAlignment == old(textAlignment) && autoresizesSubviews == old(autoresizesSubviews)
    {
      item := newItem;
      text := DisplayedText(item);
      backgroundColor := DisplayedColor(item);
    }
  }
}
