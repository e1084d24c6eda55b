/** One side's turn-taking state: its own field, the field it shoots at, and the
    cells it has shot at so far. */
module Sessions {
  import opened Cells
  import opened Fields

  datatype Option<T> = None | Some(value: T)

  /** No cell occurs twice in s. */
  predicate Distinct(s: seq<Point>)
  {
    forall i, j :: 0 <= i < j < |s| ==> s[i] != s[j]
  }

  class Session {
    /** The field whose score counts this side's kills. */
    const own: Field
    /** The field this side shoots at. */
    const enemy: Field
    /** Every cell this side has shot at, in order; appended to on every shot. */
    var cellsTargeted: seq<Point>

    predicate Valid()
    {
      own != enemy && own.matrix != enemy.matrix && own.Valid() && enemy.Valid()
    }

    constructor (own: Field, enemy: Field)
      requires own != enemy && own.matrix != enemy.matrix && own.Valid() && enemy.Valid()
      ensures Valid() && this.own == own && this.enemy == enemy && cellsTargeted == []
    {
      this.own := own;
      this.enemy := enemy;
      cellsTargeted := [];
    }

    /** `Session::reset`: forget the shots and reset the OWN field only; the enemy
        field, which the other side resets, is not touched. */
    method Reset(rnd: seq<Point>) returns (ships: int, ghost accepted: seq<Point>)
      requires Valid()
      requires forall k :: 0 <= k < |rnd| ==> InBounds(rnd[k])
      modifies this`cellsTargeted, own`score, own.matrix
      ensures cellsTargeted == []
      ensures own.score == 0
      ensures 0 <= ships <= ShipCount && |accepted| == ShipCount - ships
      ensures forall k :: 0 <= k < |accepted| ==> accepted[k] in rnd
      ensures accepted == Placements(EmptyGrid(), rnd, ShipCount)
      ensures forall i, j :: 0 <= i < Size && 0 <= j < Size ==>
                own.matrix[i, j].renderState == old(own.matrix[i, j].renderState) &&
                own.matrix[i, j].state == if Point(i, j) in accepted then Ship else Empty
      ensures own.ShipCells() == set q | q in accepted
      ensures ships == 0 ==> 1 <= |own.ShipCells()| <= ShipCount
      ensures |set q | q in rnd| >= ShipCount ==> ships == 0
      ensures unchanged(enemy.matrix) && enemy.score == old(enemy.score)
    {
      cellsTargeted := [];
      ships, accepted := own.Reset(rnd);
    }

    /** `perform`: take one shot. With a screen point (the player's click) the shot
        is refused when the point is off the enemy field or its cell was already shot
        at by this side; refusal changes nothing. Without one (the bot's move) the
        cell is drawn from the enemy's non-Pressed cells by `choice`, and it may be a
        cell already in `cellsTargeted`. A shot marks the enemy cell, appends it to
        `cellsTargeted`, and adds one to the OWN score iff the mark yields Killed,
        which is also the case for a cell that was Killed already. The ghost `cell`
        is the cell shot at. */
    method Perform(mouse: Option<Point>, choice: nat) returns (ok: bool, ghost cell: Point)
      requires Valid()
      requires mouse.None? ==> enemy.HasUnpressed()
      modifies this`cellsTargeted, enemy.matrix, own`score
      ensures mouse.Some? && !enemy.IsPointInField(mouse.value) ==> !ok
      ensures mouse.Some? && enemy.IsPointInField(mouse.value) ==>
                cell == enemy.CellUnder(mouse.value) && (ok <==> cell !in old(cellsTargeted))
      ensures mouse.None? ==>
                ok && |old(enemy.Unpressed())| > 0 && cell == old(enemy.Unpressed())[choice % |old(enemy.Unpressed())|]
      ensures !ok ==>
                cellsTargeted == old(cellsTargeted) && unchanged(enemy.matrix) && own.score == old(own.score)
      ensures ok ==>
                InBounds(cell) && cellsTargeted == old(cellsTargeted) + [cell] &&
                enemy.matrix[cell.x, cell.y] == Node(Marked(old(enemy.matrix[cell.x, cell.y].state)), Visible) &&
                (forall i, j :: 0 <= i < Size && 0 <= j < Size && (i != cell.x || j != cell.y) ==>
                   enemy.matrix[i, j] == old(enemy.matrix[i, j])) &&
                own.score == old(own.score) + if enemy.matrix[cell.x, cell.y].state == Killed then 1 else 0
      ensures mouse.None? ==> old(enemy.matrix[cell.x, cell.y].state) != Pressed
      ensures mouse.Some? && old(Distinct(cellsTargeted)) ==> Distinct(cellsTargeted)
      ensures enemy.score == old(enemy.score)
    {
      var c := Point(0, 0);
      cell := c;
      if mouse.Some? {
        var m := mouse.value;
        if !enemy.IsPointInField(m) {
          return false, cell;
        }
        c := enemy.CellUnder(m);
        cell := c;
        if c in cellsTargeted {
          return false, cell;
        }
      } else {
        enemy.UnpressedMembers();
        c := enemy.GetRandomEmptyFieldPoint(choice);
        cell := c;
      }
      var state := enemy.Mark(c);
      cellsTargeted := cellsTargeted + [c];
      if state == Killed {
        own.score := own.score + 1;
      }
      return true, cell;
    }
  }
}
