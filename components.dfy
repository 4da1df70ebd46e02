/**
 The closed set of drawable table parts and the canonical order in which
 preset and modifier strings are read against them.
 */
module Components {

  /** Every configurable part of a table, declared in canonical order. */
  datatype Component =
    | LeftBorder
    | RightBorder
    | TopBorder
    | BottomBorder
    | LeftHeaderIntersection
    | HeaderLines
    | MiddleHeaderIntersections
    | RightHeaderIntersection
    | VerticalLines
    | HorizontalLines
    | MiddleIntersections
    | LeftBorderIntersections
    | RightBorderIntersections
    | TopBorderIntersections
    | BottomBorderIntersections
    | TopLeftCorner
    | TopRightCorner
    | BottomLeftCorner
    | BottomRightCorner

  /** The sequence the component iterator yields, first to last. */
  const AllComponents: seq<Component> := [
    LeftBorder, RightBorder, TopBorder, BottomBorder,
    LeftHeaderIntersection, HeaderLines, MiddleHeaderIntersections, RightHeaderIntersection,
    VerticalLines, HorizontalLines, MiddleIntersections,
    LeftBorderIntersections, RightBorderIntersections, TopBorderIntersections, BottomBorderIntersections,
    TopLeftCorner, TopRightCorner, BottomLeftCorner, BottomRightCorner
  ]

  /** The number of components, i.e. the longest useful preset. */
  const ComponentCount: nat := 19

  /** The position of `c` in the canonical order. */
  function Ordinal(c: Component): (k: nat)
    ensures k < ComponentCount == |AllComponents|
    ensures AllComponents[k] == c
  {
    match c
    case LeftBorder => 0
    case RightBorder => 1
    case TopBorder => 2
    case BottomBorder => 3
    case LeftHeaderIntersection => 4
    case HeaderLines => 5
    case MiddleHeaderIntersections => 6
    case RightHeaderIntersection => 7
    case VerticalLines => 8
    case HorizontalLines => 9
    case MiddleIntersections => 10
    case LeftBorderIntersections => 11
    case RightBorderIntersections => 12
    case TopBorderIntersections => 13
    case BottomBorderIntersections => 14
    case TopLeftCorner => 15
    case TopRightCorner => 16
    case BottomLeftCorner => 17
    case BottomRightCorner => 18
  }

  /** Each position of the canonical order holds a different component:
      reading position `k` and asking for its ordinal gives back `k`. */
  lemma OrdinalOfPosition(k: nat)
    requires k < |AllComponents|
    ensures Ordinal(AllComponents[k]) == k
  {
  }
}
