/** One cell of a sea-battle field: what occupies it, and whether it may be drawn. */
module Cells {

  /** Occupancy of a cell. `Killed` is a ship cell that was shot at,
      `Pressed` an empty cell that was shot at. */
  datatype State = Empty | Ship | Killed | Pressed

  /** Whether the presentation layer may paint the occupancy of a cell. */
  datatype RenderState = Visible | Hidden

  datatype Node = Node(state: State, renderState: RenderState)

  /** `Node::new`. A fresh cell is empty. The flag is inverted with respect to its
      name: a `hidden` argument of `true` yields a VISIBLE cell. */
  function NewNode(hidden: bool): (n: Node)
    ensures n.state == Empty
    ensures n.renderState == Visible <==> hidden
    ensures n.renderState == Hidden <==> !hidden
  {
    Node(Empty, if hidden == true then Visible else Hidden)
  }

  /** The occupancy a cell ends up with once it has been shot at. */
  function Marked(s: State): (r: State)
    ensures r == Killed || r == Pressed
    ensures r == Killed <==> s == Ship || s == Killed
    ensures r == Pressed <==> s == Empty || s == Pressed
    ensures s == Killed || s == Pressed ==> r == s
  {
    match s
    case Empty => Pressed
    case Ship => Killed
    case Killed => Killed
    case Pressed => Pressed
  }

  /** Shooting at a cell twice has the same effect as shooting at it once. */
  lemma MarkedIdempotent(s: State)
    ensures Marked(Marked(s)) == Marked(s)
  {
  }

  /** Occupancy only ever advances Empty to Pressed or Ship to Killed. */
  predicate Advances(before: State, after: State)
  {
    before == after || (before == Empty && after == Pressed) || (before == Ship && after == Killed)
  }

  lemma MarkedAdvances(s: State)
    ensures Advances(s, Marked(s))
    ensures Marked(s) != s ==> s == Empty || s == Ship
  {
  }
}
