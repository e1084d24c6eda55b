# Sea battle game state, modelled in Dafny

A model of the game-state core of a single-file sea-battle game (`src/main.rs`):
a human plays a bot, each owns a 10×10 field seeded with single-cell ships, and
the two take turns shooting at each other's field.

- `Cells` (`cells.dfy`): the four-valued occupancy `State` (Empty, Ship, Killed,
  Pressed), the `RenderState`, the `Node` pairing the two, `Node::new` (whose
  flag is inverted: `hidden == true` gives a Visible cell) and `Marked`, the
  occupancy a cell ends up with after a shot.
- `Fields` (`fields.dfy`): the `Field` class over an `array2<Node>` indexed
  `matrix[x, y]`, with its score and on-screen corner. Its methods mark a cell,
  collect the bot's target pool and draw from it, decide placeability, clean,
  reveal, place ships and reset. The pure queries (`IsCellEmpty`, `LocalArea`,
  `IsPointInField`) are functions. `Placements` says, as a function on the
  occupancy map, which draws ship placement accepts; the placement loop is proved
  to accept exactly those.
- `Sessions` (`sessions.dfy`): the `Session` class, one per side. It holds its
  own field, the enemy field (two distinct objects) and the sequence of cells it
  has shot at. `Perform` resolves one shot; `Reset` starts a new game.
- `Scenarios` (`scenarios.dfy`): four short games played through the
  contracts. They show the behaviour described under "Behaviour kept as written".

Randomness is an input. The bot's draw from its pool is a caller-supplied index
`choice`, taken modulo the pool size. The sequence of random field points that
ship placement consumes is a caller-supplied sequence `rnd`.

## Behaviour kept as written

The code differs from what a reader of the game's description would expect in
these places. The model follows the code.

- Placement does not keep ships apart. `is_cell_placeable` accepts every Empty
  cell whatever its neighbours hold, so ships may touch. It also accepts a Ship
  cell whose neighbours are all empty, and placing there again adds no ship.
  A completed placement on a cleared field therefore leaves between 1 and 7 Ship
  cells, not exactly 7. Seven draws of one corner cell are all accepted and leave
  a single ship (`Field.Reset`, `TouchingPlacementScenario`,
  `RepeatedDrawScenario`).
- The bot's pool leaves out only Pressed cells. Killed cells stay in it, and the
  bot path of `perform` never consults `cellsTargeted`. A bot shot at a Killed
  cell yields Killed again and adds to the score again, so the score is not
  bounded by the number of ships. `cellsTargeted` can then hold a cell twice
  (`BotRehitScenario`). The player's path rejects repeated cells, and it keeps
  `cellsTargeted` free of duplicates.
- `cellsTargeted` is an ordered sequence with repeats allowed, not a set.
- `reset` clears occupancy and score but keeps every cell's visibility.

## Model

| member | source | states |
|---|---|---|
| Cells.NewNode | src/main.rs:33-39 | a new cell is Empty, and it is Visible exactly when the `hidden` argument is true (the inverted flag) |
| Cells.Marked | src/main.rs:154-163 | a shot always leaves Killed or Pressed; Killed iff the cell held a ship (live or already killed); Killed and Pressed cells keep their state |
| Cells.MarkedIdempotent | src/main.rs:154-165 | a second shot at a cell leaves the state the first one produced |
| Cells.MarkedAdvances | src/main.rs:154-163 | a shot only changes Empty to Pressed or Ship to Killed, never anything else |
| Fields.LocalArea | src/main.rs:211-224 | the local area has exactly 8 distinct points, and they are exactly the Moore neighbours of the cell (each coordinate within 1, the cell itself excluded) |
| Fields.Field.constructor | src/main.rs:129-147 | every cell of the new 10×10 field is `NewNode(hidden)`, the score is 0, the corner is `tl` |
| Fields.Field.Mark | src/main.rs:149-166 | the shot cell becomes `Node(Marked(old state), Visible)` and its new state is returned; no other cell and not the score change |
| Fields.Field.IsCellEmpty | src/main.rs:202-209 | true for every point outside 0..9 × 0..9, otherwise true iff the cell is Empty; the same test on the field's occupancy map, where a point the map does not hold counts as empty |
| Fields.Field.IsCellPlaceable | src/main.rs:226-240 | the early-exit scan returns true iff the cell is empty or every point of its local area is empty |
| Fields.Field.PlaceableIff | src/main.rs:226-240 | placeable iff off-field, or Empty, or every in-field neighbour is Empty: an Empty cell is placeable whatever its neighbours hold |
| Fields.Field.UnpressedBeforeMembers | src/main.rs:171-182 | after scanning the first n cells row by row, the pool holds exactly the scanned cells that are not Pressed |
| Fields.Field.UnpressedMembers | src/main.rs:168-186 | the bot's pool holds exactly the in-field non-Pressed cells (Killed included), and it is empty, the panic case, iff every cell is Pressed |
| Fields.Field.UnpressedBeforeHead | src/main.rs:171-182 | the pool is built in row-major order: a non-Pressed (0,0) comes first |
| Fields.Field.GetRandomEmptyFieldPoint | src/main.rs:168-190 | the nested scan builds the row-major pool of non-Pressed cells; the draw is the pool entry at `choice` modulo its size, hence in-field and not Pressed |
| Fields.Field.IsPointInField | src/main.rs:242-255 | the click lies in the half-open 500×500 rectangle at `tl` exactly when its offset from `tl`, divided by 50 and rounded down, is a cell in 0..9 × 0..9 |
| Fields.Field.CellUnder | src/main.rs:97-101 | for a point in the 500×500 footprint the computed cell lies in 0..9 × 0..9 and its 50×50 square contains the point (offset divided by 50, rounded down) |
| Fields.Field.Clean | src/main.rs:257-263 | every cell's state becomes Empty and every visibility is kept |
| Fields.Field.Reveal | src/main.rs:271-277 | every cell becomes Visible and every state is kept |
| Fields.PlaceFromPlacements | src/main.rs:279-292 | the loop, run from draw k with the draws accepted so far, ends with those followed by exactly what `Placements` accepts from the remaining draws |
| Fields.PlacementsComplete | src/main.rs:279-292 | on a field of Empty and Ship cells, draws that hit at least n distinct Empty cells make n placements, so the countdown reaches 0 |
| Fields.RepeatedDrawsAccepted | src/main.rs:226-240 | a Ship cell whose neighbours are all empty is accepted on every further draw, without the field changing |
| Fields.RepeatedCornerDraws | src/main.rs:279-292 | on a cleared field, seven draws of (0,0) are all accepted |
| Fields.Field.TryPlace | src/main.rs:283-290 | one round of the loop: the draw is accepted iff it is placeable on the current occupancy; an accepted cell becomes Ship; no other cell changes |
| Fields.Field.RandomizeUgly | src/main.rs:279-292 | the accepted draws are exactly those `Placements` accepts from the field as it was: each draw is accepted iff placeable with the earlier accepted draws made Ship. The countdown ends at 0 unless the draws run out; 7 minus the countdown draws are accepted, each among the draws made; accepted cells become Ship and nothing else changes |
| Fields.Field.Reset | src/main.rs:265-269 | score 0; the accepted draws are `Placements` on the cleared field; every state is Ship on an accepted draw and Empty elsewhere; visibility kept; the Ship cells are the accepted draws, between 1 and 7 of them once placement completes; placement completes whenever the draws hold at least 7 distinct cells |
| Sessions.Session.constructor | src/main.rs:72-76 | a session over two distinct fields starts with no targeted cells |
| Sessions.Session.Reset | src/main.rs:79-82 | `cellsTargeted` becomes empty and the own field is reset with every ensures of `Field.Reset` (accepted draws from `rnd`, Ship cells equal to them, completion on 7 distinct draws); the enemy field and its score are untouched |
| Sessions.Session.Perform | src/main.rs:84-122 | a click off the enemy footprint, or on a cell already in `cellsTargeted`, returns false and changes nothing; otherwise (and always for the bot, whose cell is the pool entry at `choice`) the one cell is marked as `Mark` states, appended to `cellsTargeted`, the own score grows by 1 iff the mark yields Killed, and true is returned; clicks keep `cellsTargeted` duplicate-free |
| Scenarios.MarkScenario | src/main.rs:149-166 | on a field with one ship at (3,3), shooting it gives Killed twice and shooting (0,0) gives Pressed |
| Scenarios.BotRehitScenario | src/main.rs:104-118 | two bot moves with the same draw on a one-ship field score 2 and record (0,0) twice |
| Scenarios.TouchingPlacementScenario | src/main.rs:226-240 | next to a lone ship at (0,0), the empty cell (0,1) is placeable, and (0,0) itself is placeable again |
| Scenarios.RepeatedDrawScenario | src/main.rs:265-292 | resetting with seven draws of (0,0) ends the countdown at 0 with a single Ship cell, (0,0) |

## Left out

- Drawing (`Field::render`) and the main loop (`main`): window, input polling, text, and the win banner that compares a score with 7. These are presentation.
- The `Arc<RwLock<…>>` sharing of fields between the two sessions. The model uses two distinct `Field` objects, and `Session.Valid` requires `own != enemy`. Locking plays no part in a sequential model.
- Floating-point conversions of screen points. Raylib's point-in-rectangle test is an assumption here: it is modelled as the integer half-open test `tl <= m < tl + 500` on each axis (`Field.IsPointInField`). Inside the footprint the offset is 0..499, and the `f32` floor equals integer division by 50.
- The random number generator. `get_random_field_point` becomes the caller-supplied draw sequence `rnd`, whose points must lie in 0..9 × 0..9, the range `gen_range(0..10)` produces. The uniform `choose` becomes the caller-supplied index `choice`.
- Fields.Field.RandomizeUgly: the source loops until 7 draws are accepted, which ends only with probability 1 over an unbounded supply of random points. The finite `rnd` stands for that supply, so the model stops when `rnd` runs out and then returns a positive countdown. `PlacementsComplete` gives the condition under which this does not happen.
- Fields.Field.GetRandomEmptyFieldPoint: the panic on an empty pool is modelled as a precondition that some cell is not Pressed (`HasUnpressed`). `UnpressedMembers` proves that this is exactly the non-empty-pool case. `Session.Perform` carries the same precondition for bot moves.
- Out-of-range `mark` (a panic on indexing) is a precondition `InBounds(p)`.
- Integer widths: scores and coordinates are `i32` in the source and unbounded integers here. An `i32` overflow of the score would need about 2^31 kills, and the overflow of a click offset is outside any real window.
