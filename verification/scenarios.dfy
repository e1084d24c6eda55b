/** Small games played through the model, showing behaviour that follows from the
    contracts of `Field` and `Session`. */
module Scenarios {
  import opened Cells
  import opened Fields
  import opened Sessions

  /** A field with one ship at (3,3): shooting it gives Killed, shooting it again
      gives Killed again, shooting (0,0) gives Pressed. */
  method MarkScenario() returns (first: State, second: State, miss: State)
    ensures first == Killed && second == Killed && miss == Pressed
  {
    var f := new Field(Point(400, 100), true);
    f.matrix[3, 3] := Node(Ship, Visible);
    first := f.Mark(Point(3, 3));
    second := f.Mark(Point(3, 3));
    miss := f.Mark(Point(0, 0));
  }

  /** The bot's pool keeps Killed cells, and the bot path does not consult
      `cellsTargeted`: two bot moves with the same draw shoot the one ship twice,
      the score reaches 2 from a single ship, and the cell is recorded twice. */
  method BotRehitScenario() returns (score: int, targeted: seq<Point>)
    ensures score == 2
    ensures targeted == [Point(0, 0), Point(0, 0)] && !Distinct(targeted)
  {
    var bot := new Field(Point(1000, 100), false);
    var player := new Field(Point(400, 100), true);
    player.matrix[0, 0] := Node(Ship, Visible);
    var s := new Session(bot, player);

    player.UnpressedMembers();
    player.UnpressedBeforeHead(Size * Size);
    var ok, cell := s.Perform(None, 0);
    assert cell == Point(0, 0);

    player.UnpressedMembers();
    player.UnpressedBeforeHead(Size * Size);
    ok, cell := s.Perform(None, 0);
    assert cell == Point(0, 0);

    score, targeted := bot.score, s.cellsTargeted;
    assert targeted[0] == targeted[1];
  }

  /** With one ship at (0,0) on an otherwise empty field, the neighbouring empty
      cell (0,1) is placeable, so ships may touch; and the ship cell (0,0) itself is
      placeable again, so a later draw of it is accepted without adding a ship. */
  method TouchingPlacementScenario() returns (touching: bool, again: bool)
    ensures touching && again
  {
    var f := new Field(Point(400, 100), true);
    f.matrix[0, 0] := Node(Ship, Visible);
    touching := f.IsCellPlaceable(Point(0, 1));
    f.PlaceableIff(Point(0, 0));
    again := f.IsCellPlaceable(Point(0, 0));
  }

  /** Resetting a field with seven draws of the corner cell: every draw is accepted,
      so the countdown reaches zero, yet the field holds a single Ship cell. */
  method RepeatedDrawScenario() returns (ships: int, f: Field)
    ensures f.Valid() && ships == 0 && f.ShipCells() == {Point(0, 0)}
  {
    f := new Field(Point(400, 100), true);
    var rnd := seq(ShipCount, _ => Point(0, 0));
    RepeatedCornerDraws();
    ghost var accepted;
    ships, accepted := f.Reset(rnd);
    assert accepted == rnd;
    assert forall q :: q in rnd ==> q == Point(0, 0);
    assert rnd[0] == Point(0, 0);
  }
}
