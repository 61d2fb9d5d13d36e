# Snake game state, modelled in Dafny

This project models the game-state logic of a single-file Snake game for
pygame (`the_snake.py`). The field is 640x480 pixels with 20-pixel cells,
which gives a 32x24 grid. A cell is named by the pixel position of its
top-left corner.

The snake is a head-first list of cells. It also has a target `length`, a
heading, a latched next heading, and the tail cell vacated by its last
move. Each move puts a new head in front, wrapping around each screen edge
on its own axis. The move drops the tail once the list is longer than
`length`. The apple is placed by rejection sampling: random grid cells are
drawn until one lies outside a list of occupied cells. Each tick of the
main loop does these steps in order:

1. Apply the latched heading.
2. Move.
3. If the apple lies anywhere on the snake, grow by one and move the apple.
4. Otherwise (`elif`), if the head has hit the body, reset the snake and
   move the apple.

Modules, one per component:

- `Optional`: the `Option` type, which stands for Python's `None`.
- `Grid`: the screen and grid constants, `Cell`, the four headings, and
  `NextHead` (the wrapped step). `EdgeWrap` is a second definition of the
  wrap that only looks at the edges. `NextHeadWraps` proves the two agree
  on grid cells.
- `Food`: `Draw` is one pair of `randint` results. `GetRandomPosition`
  turns a draw into a cell. `FirstFree` is the index of the draw the
  rejection loop stops on. The class `Apple` holds the apple's position
  and has `RandomizePosition`.
- `Snakes`: `Moved`, `Vacated` and `HeadInBody` describe one move and the
  loss condition as values. Lemmas about them cover length bookkeeping,
  order, grid membership, connectedness, reversal and how eating relates
  to colliding. The class `Snake` has the fields the game updates in place,
  and `Valid()` is its invariant.
- `Controls`: the arrow keys, `KeyDirection`, and `Latched`, which gives
  the latch after a run of keys ("the last arrow key wins").
- `Game`: `HandleKeys` (the loop over key presses), `Tick` (one pass of
  the main loop) and `NewGame`. It also has two client methods.
  `AppleUnderStartCell` shows that the first apple can land under the
  snake's start cell. `WrapScenario` shows that after 16 moves right from
  the centre the head is back at x = 0.

The random source is a sequence of draws passed in by the caller. Each draw
is a column in [0, 31] and a row in [0, 23], which is what `randint`
promises. The rejection loop takes the first draw that names a free cell.
Its precondition asks that such a draw exists. `FinishNeedsFreeCell` shows
that this precondition can hold only when some grid cell is free.
`FreeCellCanBeDrawn` shows that any free cell can be the one drawn.

The methods of `Snake` require `Valid()`. The constructor sets it up and
every method keeps it, so it rules out only states the game never reaches.
`Tick` also requires that the draws are enough for this tick: if the tick
moves the apple, some draw must name a cell outside the list being avoided.

Two consequences of the code are proved:

- The tick checks for a collision under `elif`, so not on a tick where the
  apple was eaten. `EatingExcludesCollision` shows that an independent `if`
  would give the same tick whenever the apple was off the snake before the
  move. That holds after every tick, by `Tick`'s postcondition.
- The latch accepts the reverse of the current heading. Whether that move
  collides depends on the target length. From target length 3 up it always
  runs the head into the second cell (`ReversalCollides`). This includes a
  two-cell snake that has just eaten. At target length 2 the move swaps head
  and tail (`ReversalWithTwoCells`). A snake of target length at most 2 never
  collides (`ShortSnakeNeverCollides`).

## Model

| member | source | states |
|---|---|---|
| Grid.DX | the_snake.py:15-18 | the horizontal component of a heading is -1, 0 or 1, and nonzero exactly for LEFT and RIGHT |
| Grid.DY | the_snake.py:15-18 | the vertical component is -1, 0 or 1, and nonzero exactly when the horizontal one is zero, so each heading is a unit vector along one axis |
| Grid.Opposite | the_snake.py:15-18 | the reverse heading has the negated unit vector and differs from the heading |
| Grid.CenterOnGrid | the_snake.py:8-12 | the grid is 32x24 and the start cell (320, 240) is a grid cell |
| Grid.NextHead | the_snake.py:97-102 | the new head always lies on the screen; away from the edges it is the old head moved by one cell |
| Grid.NextHeadWraps | the_snake.py:99-102 | on a grid cell the modular step equals the edge-wrapping step on each axis alone, and lands on a grid cell |
| Grid.WrapAtEdges | the_snake.py:99-102 | x = 620 moving right gives x = 0, x = 0 moving left gives 620, y = 460 moving down gives 0, y = 0 moving up gives 460; the other axis does not change |
| Grid.NextHeadMoves | the_snake.py:99-102 | a step never stays on the same cell |
| Grid.NextHeadBack | the_snake.py:99-102 | a step followed by a step in the reverse heading returns to the start cell |
| Food.GetRandomPosition | the_snake.py:149-152 | a draw within the randint ranges names a grid cell |
| Food.DrawOfCell | the_snake.py:149-152 | every grid cell is named by some draw within range, so every cell can be drawn |
| Food.CellOfDraw | the_snake.py:149-152 | distinct draws within range name distinct cells |
| Food.Occupied | the_snake.py:72 | a cell is in the avoided list exactly when a list was given and the cell is in it; `None` avoids nothing |
| Food.FirstFree | the_snake.py:73-75 | the draw the loop stops on names a cell outside the occupied list, and every earlier draw named an occupied cell |
| Food.FinishNeedsFreeCell | the_snake.py:72-75 | the rejection loop can finish only if some grid cell is outside the occupied list |
| Food.FreeCellCanBeDrawn | the_snake.py:72-75 | any free grid cell can be the cell the loop settles on |
| Food.Apple.constructor | the_snake.py:65-68 | the new apple is on the grid and outside occupied, with `None` read as the empty list |
| Food.Apple.RandomizePosition | the_snake.py:70-75 | the apple ends on the first drawn cell outside occupied, which is on the grid; `None` counts as the empty list |
| Snakes.AppliedDirection | the_snake.py:92-93 | with nothing latched the heading stays; with a latched heading the result is that heading |
| Snakes.Moved | the_snake.py:104-108 | the moved list has the wrapped step of the old head first, then a prefix of the old list; it keeps the old count when the old list had at least `length` cells and gains one cell otherwise |
| Snakes.Vacated | the_snake.py:105-108 | a cell is vacated exactly when the old list had at least `length` cells, and it is the old tail |
| Snakes.HeadInBody | the_snake.py:168 | the head occurs in `positions[1:]` exactly when some later index holds the head's cell |
| Snakes.MovedShape | the_snake.py:104-108 | after a move the new head is first, the old cells follow in order, and these followed by the vacated cell make up exactly the old list; a cell is vacated exactly when the old list had at least `length` cells |
| Snakes.MovedKeepsLength | the_snake.py:105-106 | a list at its target length keeps that length and vacates exactly its old tail |
| Snakes.MovedAfterGrowth | the_snake.py:104-108 | after `length` grows by one, the next move adds one cell, keeps all old cells and vacates none |
| Snakes.MovedOnGrid | the_snake.py:97-104 | a move keeps every cell on the grid |
| Snakes.MovedConnected | the_snake.py:97-104 | a move keeps consecutive cells one step apart |
| Snakes.ShortSnakeNeverCollides | the_snake.py:164-168 | a snake with target length 1 or 2 never has its head in its body after a move |
| Snakes.ReversalCollides | the_snake.py:92-108 | from target length 3 up, in a reachable state (at the target length or one short after growing), latching the reverse heading moves the head onto the second cell, which is a self-collision |
| Snakes.ReversalWithTwoCells | the_snake.py:92-108 | at target length 2 with two cells, the reverse move swaps head and tail and does not collide |
| Snakes.EatenOnlyAtHead | the_snake.py:164-165 | if the apple was off the snake before the move, it is on the snake afterwards exactly when it is under the new head |
| Snakes.EatingExcludesCollision | the_snake.py:165-168 | if the apple was off the snake before the move, eating and colliding never happen on the same tick |
| Snakes.Snake.constructor | the_snake.py:85-88 | a new snake is in the start state |
| Snakes.Snake.UpdateDirection | the_snake.py:90-93 | a latched heading becomes the heading and nothing latched leaves it unchanged; the latch is not cleared |
| Snakes.Snake.Move | the_snake.py:95-108 | the new head is the wrapped step of the old head; the old cells follow in order and, with the vacated cell, make up the old list; afterwards the list has exactly `length` cells and the invariant holds |
| Snakes.Snake.GetHeadPosition | the_snake.py:119-121 | the head is the first cell of the list, and it is on the grid |
| Snakes.Snake.Reset | the_snake.py:123-129 | from any state: one cell at the centre, length 1, heading right, nothing vacated or latched; it does not depend on the old state, so a second call changes nothing |
| Controls.KeyDirection | the_snake.py:138-146 | exactly the four arrow keys latch a heading |
| Controls.KeyDirectionInverse | the_snake.py:139-146 | each heading is latched by exactly one arrow key; `KeyDirection` does not read the current heading, so the reverse heading is latched too |
| Controls.Latched | the_snake.py:134-146 | after a run of keys the latch holds the heading of the last arrow key, or the old latch when there was no arrow key |
| Controls.LatchNeverClears | the_snake.py:138-146 | once a heading is latched, later keys never clear the latch |
| Game.HandleKeys | the_snake.py:132-146 | handling the key presses in order leaves the latch of the last arrow key |
| Game.Relocation | the_snake.py:165-171 | the tick moves the apple exactly when the apple is on the moved snake or the head is in the body; it then avoids the moved snake in the first case and the start list in the second |
| Game.Tick | the_snake.py:163-171 | apply latch, move, then: if the apple is on the snake, grow by one and move the apple to the first free draw off the snake; otherwise, if the head is in the body, reset and move the apple off the centre; otherwise only the move; in every case the apple ends off the snake and both invariants hold |
| Game.NewGame | the_snake.py:157-158 | the game starts with a snake in its start state and an apple on the first draw, with nothing excluded |

## Left out

- Rendering: `draw`, `draw_cell`, the colours, `screen.fill` and `pg.display.update` are pygame output calls and are not modelled. `GameObject.body_color` only feeds rendering.
- Event polling and quitting: `pg.event.get`, `pg.quit` and `SystemExit` are left out. `HandleKeys` receives the keys of the KEYDOWN events in order; other events latch nothing. The quit test also compares `event.type` with the key code `K_ESCAPE`, not the event's key. The model does not cover that test.
- The clock and the endless loop: `clock.tick(SPEED)` and `while True` are timing. `Tick` is one pass of the loop.
- `randint`: the random source is a sequence of in-range draws passed in by the caller. With real randomness the loop ends only with probability 1. Here it needs a draw that names a free cell.
- Food.Apple.RandomizePosition: requires that some draw names a free cell, because without one the source's loop never ends.
- Sharing of the `SCREEN_CENTER` list: `reset` builds a new list `[SCREEN_CENTER]`, but its element is the same list object as `SCREEN_CENTER`, which is also each object's first `position`. No code mutates that object, because `move` builds each new head as a new list. So cells are modelled as values.
- Python's list `insert(0, …)` and `pop()` in `move` are modelled as new values assigned to the `positions` field. The model does not say whether the list object is updated in place.
