/**
 * The data record the carousel displays. `Item` itself is declared by the
 * host application: it has a name and a colour and is never mutated by the
 * carousel.
 */
module Items {

  /** A `UIColor`, reduced to its RGBA components. */
  datatype Color = Color(red: real, green: real, blue: real, alpha: real)

  datatype Item = Item(name: string, color: Color)

  const Red := Color(1.0, 0.0, 0.0, 1.0)
  const Green := Color(0.0, 1.0, 0.0, 1.0)
  const Blue := Color(0.0, 0.0, 1.0, 1.0)

  /** The three items the demo view controller hands to the carousel. */
  function DemoItems(): (items: seq<Item>)
    ensures |items| == 3
    ensures items[0].name == "A" && items[1].name == "B" && items[2].name == "C"
  {
    [Item("A", Red), Item("B", Green), Item("C", Blue)]
  }
}
