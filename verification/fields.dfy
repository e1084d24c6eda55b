/** A player's 10x10 field: the cell matrix, ship placement, shots and the score. */
module Fields {
  import opened Cells

  /** Side length of a field, in cells. */
  const Size := 10
  /** Number of accepted ship placements made by one randomisation. */
  const ShipCount := 7
  /** On-screen size of one cell. */
  const CellWidth := 50
  const CellHeight := 50

  /** A cell coordinate (x selects the column, y the row) or a screen point. */
  datatype Point = Point(x: int, y: int)

  predicate InBounds(p: Point)
  {
    0 <= p.x < Size && 0 <= p.y < Size
  }

  /** q is one of the eight cells around p (its Moore neighbourhood). */
  predicate IsNeighbour(p: Point, q: Point)
  {
    q != p && -1 <= q.x - p.x <= 1 && -1 <= q.y - p.y <= 1
  }

  /** `get_local_area`: the eight neighbours of p, in or out of the field. */
  function LocalArea(p: Point): (area: seq<Point>)
    ensures |area| == 8
    ensures forall q :: q in area <==> IsNeighbour(p, q)
    ensures forall i, j :: 0 <= i < j < |area| ==> area[i] != area[j]
  {
    [Point(p.x - 1, p.y), Point(p.x + 1, p.y), Point(p.x, p.y - 1), Point(p.x, p.y + 1),
     Point(p.x - 1, p.y - 1), Point(p.x + 1, p.y + 1), Point(p.x + 1, p.y - 1), Point(p.x - 1, p.y + 1)]
  }

  /** A sequence has no more distinct elements than it has entries, and at least one if it is not empty. */
  lemma {:induction false} DistinctBounds<T>(s: seq<T>)
    ensures |set q | q in s| <= |s|
    ensures |s| > 0 ==> 1 <= |set q | q in s|
  {
    if |s| > 0 {
      DistinctBounds(s[1..]);
      assert (set q | q in s) == (set q | q in s[1..]) + {s[0]};
    }
  }

  /** The 100 in-field cells. */
  ghost function AllCells(): (cells: set<Point>)
    ensures forall q :: q in cells <==> InBounds(q)
  {
    var cells := set i, j | 0 <= i < Size && 0 <= j < Size :: Point(i, j);
    assert forall q :: InBounds(q) ==> q == Point(q.x, q.y);
    cells
  }

  /** The occupancy of a field as a value: the state of each in-field cell. */
  type Grid = map<Point, State>

  /** The occupancy of a freshly cleaned field. */
  ghost function EmptyGrid(): Grid
  {
    map q | q in AllCells() :: Empty
  }

  /** `is_cell_empty` on a grid: a point the grid does not hold counts as empty. */
  ghost predicate EmptyIn(g: Grid, p: Point)
  {
    p !in g || g[p] == Empty
  }

  /** What `is_cell_placeable` decides: the cell itself is empty, OR every one of
      its neighbours is. A non-empty cell (a ship, even) with empty surroundings
      therefore qualifies, and an empty cell qualifies whatever its neighbours hold. */
  ghost predicate PlaceableIn(g: Grid, p: Point)
  {
    EmptyIn(g, p) || forall q :: IsNeighbour(p, q) ==> EmptyIn(g, q)
  }

  /** What `randomize_ugly` does to a grid, as a function: the draws of `rnd` that it
      accepts, in order, while `ships` placements are still due. A draw is accepted
      iff it is placeable on the grid as the earlier accepted draws left it, and an
      accepted draw becomes a Ship. */
  ghost function Placements(g: Grid, rnd: seq<Point>, ships: nat): seq<Point>
    decreases |rnd|
  {
    if ships == 0 || |rnd| == 0 then []
    else if PlaceableIn(g, rnd[0]) then [rnd[0]] + Placements(g[rnd[0] := Ship], rnd[1..], ships - 1)
    else Placements(g, rnd[1..], ships)
  }

  /** The placement loop itself: from draw k on, with `ships` still to place and
      acc accepted so far, what has been accepted when the loop stops. */
  ghost function PlaceFrom(g: Grid, rnd: seq<Point>, k: nat, ships: nat, acc: seq<Point>): seq<Point>
    decreases |rnd| - k
  {
    if ships == 0 || k >= |rnd| then acc
    else if PlaceableIn(g, rnd[k]) then PlaceFrom(g[rnd[k] := Ship], rnd, k + 1, ships - 1, acc + [rnd[k]])
    else PlaceFrom(g, rnd, k + 1, ships, acc)
  }

  /** The loop appends to what it has accepted exactly what `Placements` accepts
      from the remaining draws. */
  lemma {:induction false} PlaceFromPlacements(g: Grid, rnd: seq<Point>, k: nat, ships: nat, acc: seq<Point>)
    requires k <= |rnd|
    ensures PlaceFrom(g, rnd, k, ships, acc) == acc + Placements(g, rnd[k..], ships)
    decreases |rnd| - k
  {
    if ships == 0 || k == |rnd| {
      assert acc + [] == acc;
    } else {
      assert rnd[k..][0] == rnd[k] && rnd[k..][1..] == rnd[k + 1..];
      if PlaceableIn(g, rnd[k]) {
        var rest := Placements(g[rnd[k] := Ship], rnd[k + 1..], ships - 1);
        PlaceFromPlacements(g[rnd[k] := Ship], rnd, k + 1, ships - 1, acc + [rnd[k]]);
        assert (acc + [rnd[k]]) + rest == acc + ([rnd[k]] + rest);
      } else {
        PlaceFromPlacements(g, rnd, k + 1, ships, acc);
      }
    }
  }

  /** On the cleared field every draw is fresh. */
  lemma EmptyGridFreshDraws(rnd: seq<Point>)
    requires forall k :: 0 <= k < |rnd| ==> InBounds(rnd[k])
    ensures FreshDraws(EmptyGrid(), rnd) == set q | q in rnd
  {
  }

  /** Every entry of acc is among the first k draws. */
  ghost predicate DrawnFrom(acc: seq<Point>, rnd: seq<Point>, k: nat)
    requires k <= |rnd|
  {
    forall m :: 0 <= m < |acc| ==> acc[m] in rnd[..k]
  }

  /** Making draw k keeps the accepted draws among those made, whether or not draw k
      is accepted. */
  lemma DrawnFromNext(acc: seq<Point>, rnd: seq<Point>, k: nat, taken: bool)
    requires k < |rnd| && DrawnFrom(acc, rnd, k)
    ensures DrawnFrom(if taken then acc + [rnd[k]] else acc, rnd, k + 1)
  {
    assert rnd[..k + 1] == rnd[..k] + [rnd[k]];
  }

  /** The distinct draws that fall on an Empty cell of g. */
  ghost function FreshDraws(g: Grid, rnd: seq<Point>): set<Point>
  {
    set q | q in rnd && q in g && g[q] == Empty
  }

  lemma FreshDrawsBound(g: Grid, rnd: seq<Point>)
    ensures |FreshDraws(g, rnd)| <= |rnd|
  {
    DistinctBounds(rnd);
    assert FreshDraws(g, rnd) <= set q | q in rnd;
    SubsetCard(FreshDraws(g, rnd), set q | q in rnd);
  }

  lemma SubsetCard<T>(a: set<T>, b: set<T>)
    requires a <= b
    ensures |a| <= |b|
  {
    assert b == a + (b - a);
  }

  /** On a grid holding only Empty and Ship cells, placement completes as soon as
      the draws hit at least `ships` distinct Empty cells: such a draw is always
      placeable, and no draw ever turns a cell into anything but a Ship. */
  lemma {:induction false} PlacementsComplete(g: Grid, rnd: seq<Point>, ships: nat)
    requires forall q :: q in g ==> g[q] == Empty || g[q] == Ship
    requires |FreshDraws(g, rnd)| >= ships
    ensures |Placements(g, rnd, ships)| == ships
    decreases |rnd|
  {
    FreshDrawsBound(g, rnd);
    if ships > 0 {
      var p, rest := rnd[0], rnd[1..];
      assert rnd == [p] + rest;
      if EmptyIn(g, p) {
        var g' := g[p := Ship];
        assert FreshDraws(g, rnd) - {p} <= FreshDraws(g', rest);
        SubsetCard(FreshDraws(g, rnd) - {p}, FreshDraws(g', rest));
        PlacementsComplete(g', rest, ships - 1);
      } else {
        assert FreshDraws(g, rnd) == FreshDraws(g, rest);
        if PlaceableIn(g, p) {
          assert g[p := Ship] == g;
          PlacementsComplete(g, rest, ships - 1);
        } else {
          PlacementsComplete(g, rest, ships);
        }
      }
    }
  }

  /** A Ship cell with empty surroundings stays placeable once it is a Ship, so
      every further draw of it is accepted and adds no ship. */
  lemma {:induction false} RepeatedDrawsAccepted(g: Grid, p: Point, n: nat)
    requires p in g && g[p] == Ship && PlaceableIn(g, p)
    ensures Placements(g, seq(n, _ => p), n) == seq(n, _ => p)
  {
    if n > 0 {
      assert g[p := Ship] == g;
      assert seq(n, _ => p)[1..] == seq(n - 1, _ => p);
      RepeatedDrawsAccepted(g, p, n - 1);
      assert seq(n, _ => p) == [p] + seq(n - 1, _ => p);
    }
  }

  /** Seven draws of the corner cell on a cleaned field: all seven are accepted,
      and they leave a single Ship cell. */
  lemma RepeatedCornerDraws()
    ensures Placements(EmptyGrid(), seq(ShipCount, _ => Point(0, 0)), ShipCount) == seq(ShipCount, _ => Point(0, 0))
  {
    var p := Point(0, 0);
    var g := EmptyGrid()[p := Ship];
    assert PlaceableIn(EmptyGrid(), p);
    assert forall q :: IsNeighbour(p, q) ==> EmptyIn(g, q);
    RepeatedDrawsAccepted(g, p, ShipCount - 1);
    assert seq(ShipCount, _ => p) == [p] + seq(ShipCount - 1, _ => p);
  }

  class Field {
    /** Top-left corner of the field on screen. */
    const tl: Point
    /** The cells, indexed `matrix[x, y]`. */
    const matrix: array2<Node>
    /** Ships this field's owner has destroyed on the opposing field. */
    var score: int

    predicate Valid()
    {
      matrix.Length0 == Size && matrix.Length1 == Size
    }

    /** `Field::new`: every cell is `NewNode(hidden)`, the score is zero. */
    constructor (tl: Point, hidden: bool)
      ensures Valid() && fresh(matrix)
      ensures this.tl == tl && score == 0
      ensures forall i, j :: 0 <= i < Size && 0 <= j < Size ==> matrix[i, j] == NewNode(hidden)
    {
      var m := new Node[Size, Size];
      for i := 0 to Size
        invariant forall a, b :: 0 <= a < i && 0 <= b < Size ==> m[a, b] == NewNode(hidden)
      {
        for j := 0 to Size
          invariant forall a, b :: 0 <= a < i && 0 <= b < Size ==> m[a, b] == NewNode(hidden)
          invariant forall b :: 0 <= b < j ==> m[i, b] == NewNode(hidden)
        {
          m[i, j] := NewNode(hidden);
        }
      }
      this.tl := tl;
      matrix := m;
      score := 0;
    }

    /** `mark`: shoot at an in-bounds cell. The cell becomes visible, its occupancy
        advances as `Marked` says, and the resulting occupancy is returned. */
    method Mark(p: Point) returns (s: State)
      requires Valid() && InBounds(p)
      modifies matrix
      ensures s == Marked(old(matrix[p.x, p.y].state))
      ensures matrix[p.x, p.y] == Node(s, Visible)
      ensures forall i, j :: 0 <= i < Size && 0 <= j < Size && (i != p.x || j != p.y) ==>
                matrix[i, j] == old(matrix[i, j])
      ensures score == old(score)
    {
      var node := matrix[p.x, p.y];
      var next := node.state;
      match node.state {
        case Empty => next := Pressed;
        case Ship => next := Killed;
        case Killed =>
        case Pressed =>
      }
      matrix[p.x, p.y] := Node(next, Visible);
      s := next;
    }

    /** `is_cell_empty`: off-field coordinates count as empty. */
    function IsCellEmpty(p: Point): (b: bool)
      reads matrix
      requires Valid()
      ensures b <==> !InBounds(p) || matrix[p.x, p.y].state == Empty
      ensures b == EmptyIn(Occupancy(), p)
    {
      p.x < 0 || p.y < 0 || p.x >= Size || p.y >= Size || matrix[p.x, p.y].state == Empty
    }

    /** The state of every in-field cell, as a value. */
    ghost function Occupancy(): (g: Grid)
      reads matrix
      requires Valid()
      ensures g.Keys == AllCells()
      ensures forall q :: q in g ==> g[q] == matrix[q.x, q.y].state
    {
      map q | q in AllCells() :: matrix[q.x, q.y].state
    }

    /** What `is_cell_placeable` decides on this field. */
    ghost predicate Placeable(p: Point)
      reads matrix
      requires Valid()
    {
      PlaceableIn(Occupancy(), p)
    }

    /** `is_cell_placeable`, with its early-exit scan over the local area. */
    method IsCellPlaceable(p: Point) returns (b: bool)
      requires Valid()
      ensures b == Placeable(p)
    {
      if IsCellEmpty(p) {
        return true;
      }
      var local := LocalArea(p);
      for k := 0 to |local|
        invariant forall m :: 0 <= m < k ==> IsCellEmpty(local[m])
      {
        if !IsCellEmpty(local[k]) {
          return false;
        }
      }
      return true;
    }

    /** Placeability in terms of the cells of the field alone: off-field and empty
        cells are placeable; any other cell is placeable iff each of its in-field
        Moore neighbours is Empty. */
    lemma PlaceableIff(p: Point)
      requires Valid()
      ensures Placeable(p) <==>
                !InBounds(p) || matrix[p.x, p.y].state == Empty ||
                forall q :: IsNeighbour(p, q) && InBounds(q) ==> matrix[q.x, q.y].state == Empty
    {
      var area := LocalArea(p);
      if forall q :: IsNeighbour(p, q) && InBounds(q) ==> matrix[q.x, q.y].state == Empty {
        forall q | q in area
          ensures EmptyIn(Occupancy(), q)
        {
          assert IsNeighbour(p, q);
        }
      }
    }

    /** The cells whose occupancy is Ship. */
    ghost function ShipCells(): set<Point>
      reads matrix
      requires Valid()
    {
      set i, j | 0 <= i < Size && 0 <= j < Size && matrix[i, j].state == Ship :: Point(i, j)
    }

    /** Some cell has not been shot at and found empty. */
    predicate HasUnpressed()
      reads matrix
      requires Valid()
    {
      exists i, j :: 0 <= i < Size && 0 <= j < Size && matrix[i, j].state != Pressed
    }

    /** The non-Pressed cells among the first n cells in row-major order
        (0,0), (0,1), ..., (0,9), (1,0), ..., in that order. */
    ghost function UnpressedBefore(n: nat): seq<Point>
      reads matrix
      requires Valid() && n <= Size * Size
    {
      if n == 0 then []
      else
        var c := Point((n - 1) / Size, (n - 1) % Size);
        UnpressedBefore(n - 1) + if matrix[c.x, c.y].state != Pressed then [c] else []
    }

    /** The bot's target pool: every non-Pressed cell, in row-major order. */
    ghost function Unpressed(): seq<Point>
      reads matrix
      requires Valid()
    {
      UnpressedBefore(Size * Size)
    }

    lemma {:induction false} UnpressedBeforeMembers(n: nat, q: Point)
      requires Valid() && n <= Size * Size
      ensures q in UnpressedBefore(n) <==>
                InBounds(q) && q.x * Size + q.y < n && matrix[q.x, q.y].state != Pressed
    {
      if n > 0 {
        UnpressedBeforeMembers(n - 1, q);
      }
    }

    /** The target pool holds exactly the non-Pressed cells, and it is empty
        (the bot's draw panics) iff every cell is Pressed. */
    lemma UnpressedMembers()
      requires Valid()
      ensures forall q :: q in Unpressed() <==> InBounds(q) && matrix[q.x, q.y].state != Pressed
      ensures |Unpressed()| == 0 <==> !HasUnpressed()
    {
      forall q
        ensures q in Unpressed() <==> InBounds(q) && matrix[q.x, q.y].state != Pressed
      {
        UnpressedBeforeMembers(Size * Size, q);
      }
      if HasUnpressed() {
        var i, j :| 0 <= i < Size && 0 <= j < Size && matrix[i, j].state != Pressed;
        assert Point(i, j) in Unpressed();
      }
      if |Unpressed()| > 0 {
        var q := Unpressed()[0];
        assert InBounds(q) && matrix[q.x, q.y].state != Pressed;
      }
    }

    /** When the corner cell (0,0) is not Pressed it heads the target pool. */
    lemma {:induction false} UnpressedBeforeHead(n: nat)
      requires Valid() && 0 < n <= Size * Size
      requires matrix[0, 0].state != Pressed
      ensures |UnpressedBefore(n)| > 0 && UnpressedBefore(n)[0] == Point(0, 0)
    {
      if n > 1 {
        UnpressedBeforeHead(n - 1);
      }
    }

    /** `get_random_empty_field_point`: collect every non-Pressed cell and pick one.
        The random pick is the caller-supplied `choice`, reduced modulo the pool size,
        so every cell of the pool is reachable. Killed cells stay in the pool. */
    method GetRandomEmptyFieldPoint(choice: nat) returns (p: Point)
      requires Valid() && HasUnpressed()
      ensures |Unpressed()| > 0 && p == Unpressed()[choice % |Unpressed()|]
      ensures InBounds(p) && matrix[p.x, p.y].state != Pressed
    {
      var available: seq<Point> := [];
      for i := 0 to matrix.Length0
        invariant available == UnpressedBefore(i * Size)
      {
        for j := 0 to matrix.Length1
          invariant available == UnpressedBefore(i * Size + j)
        {
          if matrix[i, j].state != Pressed {
            available := available + [Point(i, j)];
          }
        }
      }
      UnpressedMembers();
      p := available[choice % |available|];
    }

    /** `is_point_in_field`: the screen point m lies in the field's 500x500 footprint
        (a half-open rectangle at `tl`), that is, exactly when the offset from `tl`
        divided by the cell size and rounded down is an in-field cell. */
    predicate IsPointInField(m: Point): (b: bool)
      ensures b <==> InBounds(Point((m.x - tl.x) / CellWidth, (m.y - tl.y) / CellHeight))
    {
      tl.x <= m.x < tl.x + CellWidth * Size && tl.y <= m.y < tl.y + CellHeight * Size
    }

    /** The cell under the screen point m: the offset from `tl` divided by the cell
        size, rounded down. */
    function CellUnder(m: Point): (c: Point)
      requires IsPointInField(m)
      ensures InBounds(c)
      ensures tl.x + c.x * CellWidth <= m.x < tl.x + (c.x + 1) * CellWidth
      ensures tl.y + c.y * CellHeight <= m.y < tl.y + (c.y + 1) * CellHeight
    {
      Point((m.x - tl.x) / CellWidth, (m.y - tl.y) / CellHeight)
    }

    /** `clean`: every cell becomes Empty; visibility is left alone. */
    method Clean()
      requires Valid()
      modifies matrix
      ensures forall i, j :: 0 <= i < Size && 0 <= j < Size ==>
                matrix[i, j] == old(matrix[i, j]).(state := Empty)
    {
      for i := 0 to Size
        invariant forall a, b :: 0 <= a < Size && 0 <= b < Size ==>
                    matrix[a, b] == if a < i then old(matrix[a, b]).(state := Empty) else old(matrix[a, b])
      {
        for j := 0 to Size
          invariant forall a, b :: 0 <= a < Size && 0 <= b < Size ==>
                      matrix[a, b] == if a < i || (a == i && b < j) then old(matrix[a, b]).(state := Empty)
                                      else old(matrix[a, b])
        {
          matrix[i, j] := matrix[i, j].(state := Empty);
        }
      }
    }

    /** `reveal`: every cell becomes Visible; occupancy is left alone. */
    method Reveal()
      requires Valid()
      modifies matrix
      ensures forall i, j :: 0 <= i < Size && 0 <= j < Size ==>
                matrix[i, j] == old(matrix[i, j]).(renderState := Visible)
    {
      for i := 0 to Size
        invariant forall a, b :: 0 <= a < Size && 0 <= b < Size ==>
                    matrix[a, b] == if a < i then old(matrix[a, b]).(renderState := Visible) else old(matrix[a, b])
      {
        for j := 0 to Size
          invariant forall a, b :: 0 <= a < Size && 0 <= b < Size ==>
                      matrix[a, b] == if a < i || (a == i && b < j) then old(matrix[a, b]).(renderState := Visible)
                                      else old(matrix[a, b])
        {
          matrix[i, j] := matrix[i, j].(renderState := Visible);
        }
      }
    }

    /** grid holds the occupancy of every cell of the field. */
    ghost predicate Mirrors(grid: Grid)
      reads matrix
      requires Valid()
    {
      grid.Keys == AllCells() && forall q :: q in grid ==> grid[q] == matrix[q.x, q.y].state
    }

    /** The nodes of the field, cell by cell. */
    ghost function Nodes(): (m: map<Point, Node>)
      reads matrix
      requires Valid()
      ensures m.Keys == AllCells()
      ensures forall q :: q in m ==> m[q] == matrix[q.x, q.y]
    {
      map q | q in AllCells() :: matrix[q.x, q.y]
    }

    /** The field is m0 with every cell in accepted turned into a Ship. */
    ghost predicate Stamped(m0: map<Point, Node>, accepted: seq<Point>)
      reads matrix
      requires Valid()
    {
      forall q :: q in m0 && InBounds(q) ==>
        matrix[q.x, q.y] == if q in accepted then m0[q].(state := Ship) else m0[q]
    }

    /** One round of `randomize_ugly`'s loop for the drawn point p, on a field whose
        occupancy is grid: a placeable cell becomes a Ship, anything else is left as
        it is. */
    method TryPlace(p: Point, ghost grid: Grid, ghost m0: map<Point, Node>, ghost accepted: seq<Point>) returns (ok: bool)
      requires Valid() && InBounds(p) && Mirrors(grid) && Stamped(m0, accepted)
      modifies matrix
      ensures ok == PlaceableIn(grid, p)
      ensures Mirrors(if ok then grid[p := Ship] else grid)
      ensures Stamped(m0, if ok then accepted + [p] else accepted)
      ensures forall i, j :: 0 <= i < Size && 0 <= j < Size ==>
                matrix[i, j] == if ok && Point(i, j) == p then old(matrix[i, j]).(state := Ship)
                                else old(matrix[i, j])
    {
      assert grid == Occupancy();
      ok := IsCellPlaceable(p);
      if ok {
        matrix[p.x, p.y] := matrix[p.x, p.y].(state := Ship);
        forall q | q in grid[p := Ship]
          ensures grid[p := Ship][q] == matrix[q.x, q.y].state
        {
          if q != p {
            assert q.x != p.x || q.y != p.y;
          }
        }
      }
    }

    /** `randomize_ugly`: draw cells and turn each placeable one into a Ship until
        `ShipCount` draws have been accepted. The draws come from `rnd`; `ships` is
        `randomize_ugly`'s countdown, still positive only if `rnd` ran out first. The
        ghost `accepted` lists the accepted draws, which are exactly those that
        `Placements` accepts from the field as it was; `used` counts the draws made. */
    method RandomizeUgly(rnd: seq<Point>) returns (ships: int, ghost accepted: seq<Point>, ghost used: nat)
      requires Valid()
      requires forall k :: 0 <= k < |rnd| ==> InBounds(rnd[k])
      modifies matrix
      ensures 0 <= ships <= ShipCount && |accepted| == ShipCount - ships
      ensures used <= |rnd| && (ships == 0 || used == |rnd|)
      ensures forall k :: 0 <= k < |accepted| ==> accepted[k] in rnd[..used]
      ensures accepted == Placements(old(Occupancy()), rnd, ShipCount)
      ensures forall i, j :: 0 <= i < Size && 0 <= j < Size ==>
                matrix[i, j] == if Point(i, j) in accepted then old(matrix[i, j]).(state := Ship)
                                else old(matrix[i, j])
    {
      var left: nat := ShipCount;
      accepted := [];
      var k := 0;
      ghost var g0 := Occupancy();
      ghost var grid := g0;
      ghost var m0 := Nodes();
      ghost var whole := PlaceFrom(g0, rnd, 0, ShipCount, []);
      assert Mirrors(grid);
      while left > 0 && k < |rnd|
        invariant left <= ShipCount && |accepted| == ShipCount - left
        invariant k <= |rnd|
        invariant Mirrors(grid)
        invariant PlaceFrom(grid, rnd, k, left, accepted) == whole
        invariant DrawnFrom(accepted, rnd, k)
        invariant Stamped(m0, accepted)
      {
        var p := rnd[k];
        var ok := TryPlace(p, grid, m0, accepted);
        DrawnFromNext(accepted, rnd, k, ok);
        if ok {
          grid := grid[p := Ship];
          accepted := accepted + [p];
          left := left - 1;
        }
        k := k + 1;
      }
      ships := left;
      used := k;
      forall i, j | 0 <= i < Size && 0 <= j < Size
        ensures matrix[i, j] == if Point(i, j) in accepted then old(matrix[i, j]).(state := Ship)
                                else old(matrix[i, j])
      {
        assert Point(i, j) in m0;
      }
      PlaceFromPlacements(g0, rnd, 0, ShipCount, []);
      assert rnd[0..] == rnd;
    }

    /** A field whose every cell is Empty has the empty grid as its occupancy. */
    lemma ClearedOccupancy()
      requires Valid()
      requires forall i, j :: 0 <= i < Size && 0 <= j < Size ==> matrix[i, j].state == Empty
      ensures Occupancy() == EmptyGrid()
    {
    }

    /** When the Ship cells are exactly the in-field cells listed in placed, they are
        the set of placed's entries. */
    lemma ShipCellsOf(placed: seq<Point>)
      requires Valid()
      requires forall k :: 0 <= k < |placed| ==> InBounds(placed[k])
      requires forall i, j :: 0 <= i < Size && 0 <= j < Size ==>
                 (matrix[i, j].state == Ship <==> Point(i, j) in placed)
      ensures ShipCells() == set q | q in placed
    {
      forall q | q in placed
        ensures q in ShipCells()
      {
        assert matrix[q.x, q.y].state == Ship;
      }
    }

    /** `Field::reset`: clear the occupancy, place ships afresh, zero the score.
        Visibility is kept. From the cleared field every accepted draw is a Ship
        cell and nothing else is, so a completed placement leaves between one and
        `ShipCount` Ship cells: draws may repeat a Ship cell whose neighbours are empty. */
    method Reset(rnd: seq<Point>) returns (ships: int, ghost accepted: seq<Point>)
      requires Valid()
      requires forall k :: 0 <= k < |rnd| ==> InBounds(rnd[k])
      modifies this`score, matrix
      ensures score == 0
      ensures 0 <= ships <= ShipCount && |accepted| == ShipCount - ships
      ensures forall k :: 0 <= k < |accepted| ==> accepted[k] in rnd
      ensures forall i, j :: 0 <= i < Size && 0 <= j < Size ==>
                matrix[i, j].renderState == old(matrix[i, j].renderState) &&
                matrix[i, j].state == if Point(i, j) in accepted then Ship else Empty
      ensures accepted == Placements(EmptyGrid(), rnd, ShipCount)
      ensures ShipCells() == set q | q in accepted
      ensures ships == 0 ==> 1 <= |ShipCells()| <= ShipCount
      ensures |set q | q in rnd| >= ShipCount ==> ships == 0
    {
      Clean();
      ClearedOccupancy();
      EmptyGridFreshDraws(rnd);
      if |set q | q in rnd| >= ShipCount {
        PlacementsComplete(EmptyGrid(), rnd, ShipCount);
      }
      ghost var used;
      ships, accepted, used := RandomizeUgly(rnd);
      score := 0;
      ShipCellsOf(accepted);
      DistinctBounds(accepted);
    }
  }
}
