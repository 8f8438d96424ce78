# crt-snake game engine in Dafny

This project models the game-state engine of the crt-snake browser game (`main.js`).

The playfield is a flat array of N × N one-byte cells (N = 32), indexed `x + N * y`. Each cell is a bitmask of six flags:
- `BM_TOP`, `BM_BOT`, `BM_LEFT` and `BM_RIGHT`: the cell connects to that neighbour;
- `BM_SEG`: a snake or wall segment;
- `BM_APPLE`: an apple.

The snake is never stored as a list. It exists only as a chain of directional bits running from the `tail` cell to the `head` cell. The model keeps that chain as a ghost sequence `body` and proves that the grid encodes it after every operation that leaves the game running. Once the game is over, only the wall ring is kept: the stamped old head cell then carries an extra link.

Modules:
- `Wrappers`: `Option` and `Result`. The two exceptions the codec throws are the `Err` values `InvalidDirection` and `InvalidBitmask`.
- `Codec`: direction vectors, the `BM_*` flags as `bv8`, `dirToBitmask` and `bitmaskToDir`.
- `Board`: grid geometry, the wall ring, the count of `BM_SEG` cells, and the snake invariant `Snake(cells, body)`.
  - `Snake` says the body is a chain of distinct, adjacent interior positions.
  - Each segment holds `BM_SEG` plus its links to the segments before and after it.
  - Every other interior cell is 0 or `BM_APPLE`.
  - `OnlyApple(cells, body, apple)` says the board holds exactly one apple: `apple` holds `BM_APPLE` and every other interior cell off the snake is 0.
  - Board also holds the lemmas about one move of the head (`Moved`) and one retraction of the tail (`Retracted`).
- `Input`: `KEY_DIR` and the bounded queue of pending directions.
- `Engine`: the class `Game`, holding the globals `cells` (an `array<bv8>`), `head`, `tail`, `gameOver`, `appleEatenTimestamp`, `direction` and `nextDirections`.
  - Two ghost fields hold what the grid encodes: `body`, the snake, and `apple`, the position of the one apple.
  - Its methods are `initCells`, `placeNewApple`, `keydown` and `tick`.
  - `tick` is split into the same steps the source takes, in the same order:
    - `Steer`: the queue;
    - `StampHead`: the old head cell gains the heading bit and the head moves;
    - then either `Crash`, or `Land`: `MarkNewHead` followed by `EatApple` or `FollowTail`.

The y axis points up: `ArrowUp` is `(0, 1)`, which is `BM_TOP`.

## Model

| member | source | states |
|---|---|---|
| Codec.DirToBitmask | main.js:39-50 | x = 1 gives RIGHT and x = -1 gives LEFT, whatever y is; otherwise y = 1 gives TOP and y = -1 gives BOT; it fails exactly when neither component is 1 or -1, and then with InvalidDirection; every result is a single directional bit |
| Codec.DiagonalTakesX | main.js:39-50 | a vector with x = ±1 gets the same bit as (x, 0): the y component of a diagonal is never examined |
| Codec.Bit | main.js:39-50 | a unit direction never makes dirToBitmask throw, and its bit is a single directional bit |
| Codec.BitmaskToDir | main.js:54-73 | succeeds exactly when one directional bit is set, ignoring BM_SEG and BM_APPLE; the direction it returns is a unit vector that dirToBitmask maps back to that bit; otherwise fails with InvalidBitmask |
| Codec.DirectionTable | main.js:39-50 | the four table entries: (1,0) to RIGHT, (-1,0) to LEFT, (0,1) to TOP, (0,-1) to BOT |
| Codec.BitInjective | main.js:39-50 | two unit directions have the same bit only if they are equal |
| Codec.RoundTrip | main.js:39-73 | bitmaskToDir(dirToBitmask(d) with any SEG/APPLE bits added) gives back d, for every unit d |
| Codec.TwoBitsFail | main.js:54-73 | a cell with two different directional bits always makes bitmaskToDir throw |
| Input.KeyDir | main.js:211-217 | exactly the four arrow keys have a direction, each a unit vector; ArrowUp is (0,1), ArrowDown (0,-1), ArrowLeft (-1,0) and ArrowRight (1,0), each the only key giving its direction |
| Input.Enqueued | main.js:217-220 | the queue grows by one exactly when the key is an arrow key and fewer than 5 entries wait; the new entry is that key's direction and is appended at the end; otherwise the queue is unchanged; a queue of at most 5 unit directions stays one |
| Input.QueueBounded | main.js:210-221 | after any sequence of key presses the queue holds at most 5 entries and keeps the entries that were already waiting at its front |
| Engine.NextDirection | main.js:169-175 | the heading after the queue step is either the old heading or the first queued entry; it is that entry unless the entry is the exact reverse; it is never the reverse of a unit heading |
| Engine.ReverseIgnored | main.js:171-174 | a queued 180° turn leaves the heading as it was |
| Engine.Game.Steer | main.js:169-175 | takes at most one entry off the front of the queue; the heading becomes NextDirection of the old heading and old queue; the heading stays a unit direction and the queue stays within 5 |
| Engine.Game.Keydown | main.js:210-221 | the queue becomes Enqueued(old queue, key) and the game state stays valid |
| Engine.StampHead | main.js:177-182 | the only write is the old head cell OR'd with the heading bit; the head moves by the heading and stays on the board; the front cell is read after that write |
| Engine.MarkNewHead | main.js:187 | the destination becomes exactly BM_SEG plus the bit of the reversed heading, and nothing else changes |
| Engine.RetractTail | main.js:193-206 | the tail advances by the direction decoded from its cell; the grid becomes Retracted: the old tail cell is 0 and the new tail cell loses only the bit pointing back |
| Engine.Game.Crash | main.js:183-186 | on a collision the game ends with the head on the cell it ran into, and the walls are still intact |
| Engine.Game.EatApple | main.js:189-191 | the cell eaten is the board's one apple; the tail stays put, the body grows by the new head, the timestamp is `now`, and the grid is the moved grid plus one APPLE on a cell that was 0, which becomes the one apple; one more SEG cell |
| Engine.Game.FollowTail | main.js:192-207 | on a plain move the tail moves to the second segment and the body drops its first position and gains the new head; the new head is not the apple, which stays where it was and stays the only one; the SEG count is unchanged |
| Engine.Game.Land | main.js:187-207 | after a move that does not crash: the snake eats exactly when the new head is the one apple; then either the apple branch or the plain branch above, with the game invariant (including exactly one apple) kept |
| Engine.Game.Advance | main.js:177-207 | the three outcomes of a move once the heading is set: collision (only the stamped head cell changes, game over, tail untouched), apple (eaten exactly when the head lands on the one apple; growth, one new apple on a zero cell), plain move (the tail retracts, the apple stays); the game invariant is kept |
| Engine.Game.Tick | main.js:165-208 | a finished game is not changed at all; otherwise one queue step and one move, with the three outcomes above; the snake invariant, the wall ring and the single apple are kept; the snake eats exactly when it reaches the apple; the SEG count is kept on a plain move and grows by one on an apple |
| Engine.Game.PlaceNewApple | main.js:75-82 | exactly one cell that held 0 becomes BM_APPLE, and no other cell changes |
| Engine.Game.InitCells | main.js:84-136 | tail (15,15), head (20,10); the cells encode a snake from tail to head; the wall ring is intact; `apple` is the only apple and every other interior cell off the snake is 0; the snake has the spiral's 91 cells, all within x 11..20, y 10..19; the head cell is SEG\|TOP; the other globals are unchanged |
| Engine.Game.constructor | main.js:17-26 | the globals' initial values followed by initCells: game running, timestamp 0, heading (-1,0), empty queue, a valid board, and a starting snake of 91 cells |
| Engine.DrawSpiral | main.js:87-123 | the spiral loop draws a chain of 91 cells from (15,15) to (20,10) on an empty board, within the box x 11..20, y 10..19; its last cell holds SEG\|TOP\|LEFT |
| Engine.Layer | main.js:95-121 | one pass of the layer loop: the chain keeps what was drawn, grows by 4 * steps + 2 cells and ends one cell right of and below where it started; steps grows by 2; the layer stays in a box one cell wider on each side; which cells it adds is stated by the four arm members below |
| Engine.LeftArm | main.js:96-101 | one leftward arm keeps the drawn chain as its prefix and appends exactly the `len` cells (x - 1, y) ... (x - len, y), ending in a corner turning up |
| Engine.UpArm | main.js:102-107 | one upward arm keeps the chain and appends exactly (x, y + 1) ... (x, y + len), ending in a corner turning right |
| Engine.RightArm | main.js:109-114 | one rightward arm keeps the chain and appends exactly (x + 1, y) ... (x + len, y), ending in a corner turning down |
| Engine.DownArm | main.js:115-120 | one downward arm keeps the chain and appends exactly (x, y - 1) ... (x, y - len), ending in a corner turning left |
| Engine.DrawWalls | main.js:125-133 | the wall loop and the corner writes leave every ring cell holding its wall mask and no interior cell changed |
| Engine.StrayHeadBit | main.js:120 | with ArrowDown as the first key, the head cell from the spiral, once stamped and then reached by the tail, makes bitmaskToDir throw |
| Engine.CorrectedHeadCell | main.js:120 | with the head cell SEG\|TOP, any first heading other than back into the neck leaves a cell that decodes to that heading |
| Engine.HeadEnc | main.js:119-120 | the head's proper mask as the end of the spiral chain is SEG\|TOP |
| Board.RingStep | main.js:126-129 | one round of the wall loop extends the finished part of the ring and leaves the interior alone |
| Board.CornersComplete | main.js:130-133 | the four corner writes complete the wall ring |
| Board.DrawNext | main.js:90-120 | a segment painted next to the end of a drawn path, carrying SEG and its link back, extends the drawn path |
| Board.InitialApple | main.js:123-135 | the spiral plus the walls plus an apple on a zero cell is a snake board whose only non-snake interior cell is the apple |
| Board.AppleKeepsSnake | main.js:81 | an apple written on a zero cell keeps the snake, the walls and the SEG count, and that cell was inside the ring and off the snake |
| Board.InteriorWriteKeepsWalls | main.js:177 | a write to an interior cell never touches the wall ring |
| Board.TailDecodes | main.js:194-196 | the tail cell of a snake decodes to the step from the tail to the next segment, so bitmaskToDir does not throw there |
| Board.FreeDestination | main.js:181-186 | a destination without BM_SEG is inside the ring and off the body |
| Board.FreeAfterMove | main.js:77-80 | a zero cell still exists after the head moves onto an apple, so the apple sampling loop ends |
| Board.MovedCount | main.js:177-187 | the head move adds exactly one SEG cell |
| Board.RetractedCount | main.js:193-206 | the tail retraction removes exactly one SEG cell |
| Board.Grow | main.js:177-187 | moving the head onto a cell without SEG extends the snake by that cell, keeps the walls, and adds one SEG cell |
| Board.Retract | main.js:193-206 | retracting the tail of a snake of three or more segments drops its first segment, keeps the walls, and removes one SEG cell |
| Board.NewTailCell | main.js:204-206 | clearing the bit back to the old tail leaves the second segment with the mask of a first segment |
| Board.SegCountUpdate | main.js:187 | writing one cell changes the SEG count by what that cell gains or loses |
| Board.Slide | main.js:177-207 | a plain move turns a snake into the snake one cell further along, with the tail decodable and the SEG count unchanged |
| Board.Feed | main.js:187-191 | a move onto an apple followed by a new apple on a zero cell turns a snake into the snake one cell longer, with one more SEG cell |
| Board.AppleAhead | main.js:183-189 | with one apple on the board, a move that does not crash finds BM_APPLE ahead exactly when it lands on that apple |
| Board.SlideKeepsApple | main.js:192-207 | a plain move leaves the one apple where it was and it stays the only one: the old tail cell becomes 0 |
| Board.FeedMovesApple | main.js:187-191 | the apple eaten is the one apple, and the apple placed on a zero cell after the move becomes the only apple of the longer snake |

## Left out

- Rendering is not part of this model: the shaders, WebGL and DOM setup, `createShaderProgram`, `onload` and the render loop (main.js:138-163 and 223-296). They are floating point and foreign calls with no game state.
- The `setInterval`, `requestAnimationFrame` and event-listener wiring is not modelled. `tick` and `keydown` are plain sequential method calls.
- `performance.now()` is the parameter `now` of `Tick`.
- Engine.Game.PlaceNewApple: the `Math.random` rejection-sampling loop becomes a nondeterministic choice of a zero cell. No probability is modelled, and the method requires that a zero cell exists, since the loop never ends otherwise.
- Engine.Game.Tick: requires a zero cell on the board whenever the move eats an apple. The source would spin forever in `placeNewApple` otherwise.
- Engine.RetractTail: requires a tail cell that decodes. The source would throw from `bitmaskToDir` after the new head is already marked. With the corrected initial board the snake invariant rules that case out. The partially updated state after such a throw is not modelled.
- Engine.Game.Keydown: takes the event's `key` string rather than the event object.
- `head` and `tail` are values (`Vec`), not shared arrays. In the source `head` is the array `p` from `initCells`, but nothing else keeps `p` after `initCells` returns, so the aliasing is not observable.
- Engine.DrawSpiral: the body of the layer loop is the method `Layer`, which calls one method per arm (`LeftArm`, `UpArm`, `RightArm`, `DownArm`), each with its own `for` loop. The writes are the same, in the same order.
- Cells are `bv8`, as in the `Uint8Array`. All masks are below 64, so no wrap-around occurs.

## Findings

| source | as written | input that shows it | evidently intended | confidence | as-written member | corrected member |
|---|---|---|---|---|---|---|
| main.js:120 | On the last spiral layer, the final corner writes BM_SEG\|BM_TOP\|BM_LEFT on the head cell. The LEFT bit points at a cell that is not part of the snake. | Press ArrowDown before the first tick, that is within the first 100 ms after load: the key listener is attached right after `setInterval(tick, 100)` (main.js:294-295), and only the first tick stamps this head cell. The head cell becomes SEG\|TOP\|LEFT\|BOT. When the tail later reaches that cell, tick clears TOP and leaves SEG\|LEFT\|BOT, so bitmaskToDir throws. From then on every plain move throws before the tail moves. | The head cell holds only BM_SEG\|BM_TOP, its link back to the neck. | not executed | Engine.DrawSpiral, Engine.StrayHeadBit | Engine.Game.InitCells, Engine.CorrectedHeadCell |
