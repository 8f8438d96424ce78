/**
 * The game state and its three operations: building the initial board
 * (initCells), the step of the game (tick) and queueing a key press
 * (keydown).
 */
module Engine {
  import opened Wrappers
  import opened Codec
  import opened Board
  import opened Input

  /**
   * The mask the spiral writes on its last cell, the head: besides its bit
   * back up to the previous segment it carries LEFT, pointing at a cell
   * that is not part of the snake.
   */
  const SPIRAL_HEAD: bv8 := SEG | TOP | LEFT

  /**
   * The direction tick moves in: the first queued direction, unless it is
   * the exact reverse of the current one, in which case it is dropped.
   */
  function NextDirection(current: Vec, queue: seq<Vec>): (r: Vec)
    ensures r == current || (|queue| > 0 && r == queue[0])
    ensures |queue| > 0 && (queue[0].x, queue[0].y) != (-current.x, -current.y) ==> r == queue[0]
    ensures IsUnit(current) ==> (r.x, r.y) != (-current.x, -current.y)
  {
    if |queue| == 0 then current
    // a turn straight back is dropped
    else if queue[0].x == -current.x && queue[0].y == -current.y then current
    else queue[0]
  }

  /** The queue once tick has taken its first entry, if any. */
  function Dequeued(queue: seq<Vec>): seq<Vec> {
    if |queue| > 0 then queue[1..] else queue
  }

  /** Queueing the reverse of the heading and ticking keeps the heading. */
  lemma ReverseIgnored(current: Vec, rest: seq<Vec>)
    requires IsUnit(current)
    ensures NextDirection(current, [Vec(-current.x, -current.y)] + rest) == current
  {
  }

  /**
   * The first tick after the initial board, as written: with ArrowDown
   * queued, the head cell gains BOT next to its stray LEFT; when the tail
   * later reaches that cell and clears its TOP bit, two directional bits are
   * left and bitmaskToDir throws.
   */
  lemma StrayHeadBit()
    ensures NextDirection(Vec(-1, 0), Enqueued([], "ArrowDown")) == Vec(0, -1)
    ensures var stamped := SPIRAL_HEAD | Bit(Vec(0, -1));
            var asTail := stamped & !Bit(Vec(0, 1));
            BitmaskToDir(asTail).Err?
  {
    TwoBitsFail(Vec(0, -1), Vec(-1, 0), SEG);
    assert (SPIRAL_HEAD | BOT) & !TOP == BOT | LEFT | SEG;
  }

  /**
   * With the stray bit cleared, as the initial board is built here, the
   * head cell holds only its bit back to the neck; after any first heading
   * other than straight back, the tail clearing that bit finds a cell that
   * decodes to the heading.
   */
  lemma CorrectedHeadCell(d: Vec)
    requires IsUnit(d) && d != Vec(0, 1)
    ensures BitmaskToDir((SEG | TOP | Bit(d)) & !TOP) == Ok(d)
  {
    BitInjective(d, Vec(0, 1));
    assert (SEG | TOP | Bit(d)) & !TOP == Bit(d) | SEG;
    RoundTrip(d, SEG);
  }

  /** The head cell of the spiral once its pending bit is dropped: SEG and the bit up to the neck. */
  lemma HeadEnc(path: seq<Vec>)
    requires |path| >= 2 && path[|path| - 1] == Vec(20, 10) && path[|path| - 2] == Vec(20, 11)
    ensures Enc(path, |path| - 1) == SEG | TOP
  {
  }

  /** Marks a cell of an array with the path being drawn into it. */
  method Paint(a: array<bv8>, p: Vec, mask: bv8, ghost path: seq<Vec>, ghost pending: bv8, ghost next: bv8)
    returns (ghost path2: seq<Vec>)
    requires a.Length == N * N && Drawn(a[..], path, pending)
    requires Interior(p) && Adjacent(path[|path| - 1], p) && p !in path
    requires pending == Link(path[|path| - 1], p)
    requires mask == SEG | Link(p, path[|path| - 1]) | next
    modifies a
    ensures a[..] == old(a[..])[Idx(p) := mask]
    ensures path2 == path + [p] && Drawn(a[..], path2, next)
  {
    DrawNext(a[..], path, pending, p, next);
    a[Idx(p)] := mask;
    path2 := path + [p];
  }

  /**
   * One arm of a spiral layer: `len` cells leftward from `p` along its row,
   * the last one a corner turning up. Every earlier cell lies in the box
   * above the row, so the arm never meets the path drawn so far.
   */
  method LeftArm(a: array<bv8>, p: Vec, len: int, ghost path: seq<Vec>) returns (p2: Vec, ghost path2: seq<Vec>)
    requires a.Length == N * N && Drawn(a[..], path, LEFT) && |path| >= 2 && path[|path| - 1] == p
    requires 1 <= len && 1 <= p.x - len && p.x < N - 1 && 1 <= p.y && p.y + len - 1 < N - 1
    requires forall k :: 0 <= k < |path| - 1 ==> InBox(path[k], p.x - len + 1, p.x, p.y + 1, p.y + len - 1)
    modifies a
    ensures |path2| == |path| + len && forall k {:trigger path2[k]} :: 0 <= k < |path| ==> path2[k] == path[k]
    ensures forall k :: |path| <= k < |path2| ==> path2[k] == Vec(p.x - (k - |path|) - 1, p.y)
    ensures p2 == Vec(p.x - len, p.y) && Drawn(a[..], path2, TOP)
    ensures |path2| >= 2 && path2[0] == path[0] && path2[|path2| - 1] == p2
    ensures forall k :: 0 <= k < |path2| - 1 ==> InBox(path2[k], p.x - len + 1, p.x, p.y, p.y + len - 1)
  {
    p2 := p;
    path2 := path;
    for i := 0 to len - 1
      invariant p2 == Vec(p.x - i, p.y)
      invariant |path2| == |path| + i && forall k {:trigger path2[k]} :: 0 <= k < |path| ==> path2[k] == path[k]
      invariant forall k :: |path| <= k < |path2| ==> path2[k] == Vec(p.x - (k - |path|) - 1, p.y)
      invariant Drawn(a[..], path2, LEFT) && |path2| >= 2 && path2[0] == path[0] && path2[|path2| - 1] == p2
    {
      p2 := Vec(p2.x - 1, p2.y);
      path2 := Paint(a, p2, HORIZONTAL, path2, LEFT, LEFT);
    }
    p2 := Vec(p2.x - 1, p2.y);
    path2 := Paint(a, p2, SEG | RIGHT | TOP, path2, LEFT, TOP);
  }

  /** The arm going up `len` cells from `p`, ending in a corner turning right. */
  method UpArm(a: array<bv8>, p: Vec, len: int, ghost path: seq<Vec>) returns (p2: Vec, ghost path2: seq<Vec>)
    requires a.Length == N * N && Drawn(a[..], path, TOP) && |path| >= 2 && path[|path| - 1] == p
    requires 1 <= len && 1 <= p.x && p.x + len < N - 1 && 1 <= p.y && p.y + len < N - 1
    requires forall k :: 0 <= k < |path| - 1 ==> InBox(path[k], p.x + 1, p.x + len, p.y, p.y + len - 1)
    modifies a
    ensures |path2| == |path| + len && forall k {:trigger path2[k]} :: 0 <= k < |path| ==> path2[k] == path[k]
    ensures forall k :: |path| <= k < |path2| ==> path2[k] == Vec(p.x, p.y + (k - |path|) + 1)
    ensures p2 == Vec(p.x, p.y + len) && Drawn(a[..], path2, RIGHT)
    ensures |path2| >= 2 && path2[0] == path[0] && path2[|path2| - 1] == p2
    ensures forall k :: 0 <= k < |path2| - 1 ==> InBox(path2[k], p.x, p.x + len, p.y, p.y + len - 1)
  {
    p2 := p;
    path2 := path;
    for i := 0 to len - 1
      invariant p2 == Vec(p.x, p.y + i)
      invariant |path2| == |path| + i && forall k {:trigger path2[k]} :: 0 <= k < |path| ==> path2[k] == path[k]
      invariant forall k :: |path| <= k < |path2| ==> path2[k] == Vec(p.x, p.y + (k - |path|) + 1)
      invariant Drawn(a[..], path2, TOP) && |path2| >= 2 && path2[0] == path[0] && path2[|path2| - 1] == p2
    {
      p2 := Vec(p2.x, p2.y + 1);
      path2 := Paint(a, p2, VERTICAL, path2, TOP, TOP);
    }
    p2 := Vec(p2.x, p2.y + 1);
    path2 := Paint(a, p2, SEG | BOT | RIGHT, path2, TOP, RIGHT);
  }

  /** The arm going right `len` cells from `p`, ending in a corner turning down. */
  method RightArm(a: array<bv8>, p: Vec, len: int, ghost path: seq<Vec>) returns (p2: Vec, ghost path2: seq<Vec>)
    requires a.Length == N * N && Drawn(a[..], path, RIGHT) && |path| >= 2 && path[|path| - 1] == p
    requires 1 <= len && 1 <= p.x && p.x + len < N - 1 && 1 <= p.y - len + 1 && p.y < N - 1
    requires forall k :: 0 <= k < |path| - 1 ==> InBox(path[k], p.x, p.x + len - 1, p.y - len + 1, p.y - 1)
    modifies a
    ensures |path2| == |path| + len && forall k {:trigger path2[k]} :: 0 <= k < |path| ==> path2[k] == path[k]
    ensures forall k :: |path| <= k < |path2| ==> path2[k] == Vec(p.x + (k - |path|) + 1, p.y)
    ensures p2 == Vec(p.x + len, p.y) && Drawn(a[..], path2, BOT)
    ensures |path2| >= 2 && path2[0] == path[0] && path2[|path2| - 1] == p2
    ensures forall k :: 0 <= k < |path2| - 1 ==> InBox(path2[k], p.x, p.x + len - 1, p.y - len + 1, p.y)
  {
    p2 := p;
    path2 := path;
    for i := 0 to len - 1
      invariant p2 == Vec(p.x + i, p.y)
      invariant |path2| == |path| + i && forall k {:trigger path2[k]} :: 0 <= k < |path| ==> path2[k] == path[k]
      invariant forall k :: |path| <= k < |path2| ==> path2[k] == Vec(p.x + (k - |path|) + 1, p.y)
      invariant Drawn(a[..], path2, RIGHT) && |path2| >= 2 && path2[0] == path[0] && path2[|path2| - 1] == p2
    {
      p2 := Vec(p2.x + 1, p2.y);
      path2 := Paint(a, p2, HORIZONTAL, path2, RIGHT, RIGHT);
    }
    p2 := Vec(p2.x + 1, p2.y);
    path2 := Paint(a, p2, SEG | LEFT | BOT, path2, RIGHT, BOT);
  }

  /** The arm going down `len` cells from `p`, ending in a corner turning left. */
  method DownArm(a: array<bv8>, p: Vec, len: int, ghost path: seq<Vec>) returns (p2: Vec, ghost path2: seq<Vec>)
    requires a.Length == N * N && Drawn(a[..], path, BOT) && |path| >= 2 && path[|path| - 1] == p
    requires 1 <= len && 1 <= p.x - len && p.x < N - 1 && 1 <= p.y - len && p.y < N - 1
    requires forall k :: 0 <= k < |path| - 1 ==> InBox(path[k], p.x - len, p.x - 1, p.y - len + 1, p.y)
    modifies a
    ensures |path2| == |path| + len && forall k {:trigger path2[k]} :: 0 <= k < |path| ==> path2[k] == path[k]
    ensures forall k :: |path| <= k < |path2| ==> path2[k] == Vec(p.x, p.y - (k - |path|) - 1)
    ensures p2 == Vec(p.x, p.y - len) && Drawn(a[..], path2, LEFT)
    ensures |path2| >= 2 && path2[0] == path[0] && path2[|path2| - 1] == p2
    ensures path2[|path2| - 2] == Vec(p2.x, p2.y + 1)
    ensures forall k :: 0 <= k < |path2| - 1 ==> InBox(path2[k], p.x - len, p.x, p.y - len + 1, p.y)
  {
    p2 := p;
    path2 := path;
    for i := 0 to len - 1
      invariant p2 == Vec(p.x, p.y - i)
      invariant |path2| == |path| + i && forall k {:trigger path2[k]} :: 0 <= k < |path| ==> path2[k] == path[k]
      invariant forall k :: |path| <= k < |path2| ==> path2[k] == Vec(p.x, p.y - (k - |path|) - 1)
      invariant Drawn(a[..], path2, BOT) && |path2| >= 2 && path2[0] == path[0] && path2[|path2| - 1] == p2
    {
      p2 := Vec(p2.x, p2.y - 1);
      path2 := Paint(a, p2, VERTICAL, path2, BOT, BOT);
    }
    p2 := Vec(p2.x, p2.y - 1);
    path2 := Paint(a, p2, SEG | TOP | LEFT, path2, BOT, LEFT);
  }

  /**
   * One pass of the spiral loop: the four arms of a layer, the first two
   * `steps` cells long and the last two one longer, with `steps` grown by
   * two. The layer wraps once around the box holding everything drawn so far.
   * Which cells the layer adds is stated arm by arm, in the contracts of
   * LeftArm, UpArm, RightArm and DownArm; this contract keeps only the
   * count, the ends and the box.
   */
  method Layer(a: array<bv8>, p: Vec, steps: int, ghost layer: int, ghost path: seq<Vec>)
    returns (p2: Vec, steps2: int, ghost path2: seq<Vec>)
    requires a.Length == N * N && 0 <= layer < START_COIL
    requires steps == 2 + 2 * layer && p == Vec(16 + layer, 14 - layer)
    requires Drawn(a[..], path, LEFT) && |path| >= 2 && path[|path| - 1] == p && path[|path| - 2] == Vec(p.x, p.y + 1)
    requires forall k :: 0 <= k < |path| - 1 ==> InBox(path[k], 15 - layer, 16 + layer, 15 - layer, 15 + layer)
    modifies a
    ensures steps2 == steps + 2 && p2 == Vec(p.x + 1, p.y - 1)
    ensures |path2| == |path| + 4 * steps + 2 && path2[0] == path[0]
    ensures forall k {:trigger path2[k]} :: 0 <= k < |path| ==> path2[k] == path[k]
    ensures Drawn(a[..], path2, LEFT) && path2[|path2| - 1] == p2 && path2[|path2| - 2] == Vec(p2.x, p2.y + 1)
    ensures forall k :: 0 <= k < |path2| - 1 ==> InBox(path2[k], 14 - layer, 17 + layer, 14 - layer, 16 + layer)
  {
    p2, path2 := LeftArm(a, p, steps, path);
    p2, path2 := UpArm(a, p2, steps, path2);
    steps2 := steps + 1;
    p2, path2 := RightArm(a, p2, steps2, path2);
    p2, path2 := DownArm(a, p2, steps2, path2);
    steps2 := steps2 + 1;
  }

  /** A layer of 4 * steps + 2 cells takes the spiral from steps * steps - steps + 1 cells to the next such count. */
  lemma LayerLength(steps: int)
    ensures (steps + 2) * (steps + 2) - (steps + 2) + 1 == steps * steps - steps + 1 + 4 * steps + 2
  {
  }

  /**
   * The spiral of initCells, as written: starting from the tail at (15, 15)
   * it coils outward for START_COIL layers, each of four arms, and ends at
   * the head (20, 10). The board holds exactly this path, and its head cell
   * is SPIRAL_HEAD.
   */
  method DrawSpiral(a: array<bv8>) returns (tl: Vec, hd: Vec, ghost path: seq<Vec>)
    requires a.Length == N * N
    requires forall v {:trigger a[Idx(v)]} :: InGrid(v) ==> a[Idx(v)] == 0
    modifies a
    ensures Drawn(a[..], path, LEFT)
    ensures tl == Vec(15, 15) && hd == Vec(20, 10)
    ensures |path| == 91
    ensures |path| >= 2 && path[0] == tl && path[|path| - 1] == hd && path[|path| - 2] == Vec(20, 11)
    ensures forall k :: 0 <= k < |path| ==> InBox(path[k], 11, 20, 10, 19)
    ensures a[Idx(hd)] == SPIRAL_HEAD
  {
    tl := Vec(15, 15);
    DrawStart(a[..], tl, RIGHT);
    a[Idx(tl)] := SEG | RIGHT;
    path := [tl];
    var p := Vec(16, 15);
    path := Paint(a, p, SEG | LEFT | BOT, path, RIGHT, BOT);
    p := Vec(p.x, p.y - 1);
    path := Paint(a, p, SEG | TOP | LEFT, path, BOT, LEFT);
    var steps := 2;
    for layer := 0 to START_COIL
      invariant steps == 2 + 2 * layer && p == Vec(16 + layer, 14 - layer)
      invariant |path| == steps * steps - steps + 1
      invariant Drawn(a[..], path, LEFT) && |path| >= 2 && path[0] == tl && path[|path| - 1] == p
      invariant path[|path| - 2] == Vec(p.x, p.y + 1)
      invariant forall k :: 0 <= k < |path| - 1 ==> InBox(path[k], 15 - layer, 16 + layer, 15 - layer, 15 + layer)
    {
      LayerLength(steps);
      p, steps, path := Layer(a, p, steps, layer, path);
    }
    hd := p;
  }

  /**
   * The wall loop of initCells: the outer ring of the board becomes the
   * wall, with its four corners fixed up at the end; no interior cell is
   * written.
   */
  method DrawWalls(a: array<bv8>)
    requires a.Length == N * N
    modifies a
    ensures WallsIntact(a[..])
    ensures forall v {:trigger a[..][Idx(v)]} {:trigger old(a[..])[Idx(v)]} :: Interior(v) ==> a[..][Idx(v)] == old(a[..])[Idx(v)]
  {
    for i := 0 to N
      invariant RingUpTo(a[..], i)
      invariant forall v {:trigger a[..][Idx(v)]} {:trigger old(a[..])[Idx(v)]} :: Interior(v) ==> a[..][Idx(v)] == old(a[..])[Idx(v)]
    {
      RingStep(a[..], i);
      a[Idx(Vec(i, 0))] := HORIZONTAL;
      a[Idx(Vec(i, N - 1))] := HORIZONTAL;
      a[Idx(Vec(0, i))] := VERTICAL;
      a[Idx(Vec(N - 1, i))] := VERTICAL;
    }
    CornersComplete(a[..]);
    a[0] := TOP | RIGHT | SEG;
    a[N - 1] := TOP | LEFT | SEG;
    a[N * (N - 1)] := BOT | RIGHT | SEG;
    a[N * N - 1] := BOT | LEFT | SEG;
  }

  /**
   * The first writes of tick: the head cell gains the heading's bit and the
   * head moves one cell on. The cell it lands on is read after that write.
   */
  method StampHead(a: array<bv8>, h: Vec, d: Vec) returns (h2: Vec, front: bv8)
    requires a.Length == N * N && Interior(h) && IsUnit(d)
    modifies a
    ensures h2 == Plus(h, d) && InGrid(h2)
    ensures a[..] == old(a[..])[Idx(h) := old(a[..])[Idx(h)] | Bit(d)]
    ensures front == old(a[..])[Idx(h2)]
  {
    StepInGrid(h, d);
    a[Idx(h)] := a[Idx(h)] | DirToBitmask(d).value;
    h2 := Vec(h.x + d.x, h.y + d.y);
    front := a[Idx(h2)];
  }

  /** The cell the head moved onto becomes SEG with the bit pointing back along the heading. */
  method MarkNewHead(a: array<bv8>, h: Vec, d: Vec)
    requires a.Length == N * N && InGrid(h) && IsUnit(d)
    modifies a
    ensures a[..] == old(a[..])[Idx(h) := SEG | Bit(Vec(-d.x, -d.y))]
  {
    a[Idx(h)] := SEG | DirToBitmask(Vec(-d.x, -d.y)).value;
  }

  /**
   * The tail writes of tick: the tail cell is decoded and cleared, the tail
   * moves the way it pointed, and the new tail cell loses its bit back.
   * A tail cell that does not decode makes bitmaskToDir throw; the snake
   * invariant rules that out, so it is required here.
   */
  method RetractTail(a: array<bv8>, t: Vec) returns (t2: Vec)
    requires a.Length == N * N && Interior(t) && BitmaskToDir(a[..][Idx(t)]).Ok?
    modifies a
    ensures t2 == Plus(t, BitmaskToDir(old(a[..])[Idx(t)]).value)
    ensures InGrid(t2) && a[..] == Retracted(old(a[..]), t, t2)
  {
    var tailCell := a[Idx(t)];
    var tailDir := BitmaskToDir(tailCell).value;
    StepInGrid(t, tailDir);
    a[Idx(t)] := 0;
    t2 := Vec(t.x + tailDir.x, t.y + tailDir.y);
    a[Idx(t2)] := a[Idx(t2)] & !DirToBitmask(Vec(-tailDir.x, -tailDir.y)).value;
    assert Vec(t.x - t2.x, t.y - t2.y) == Vec(-tailDir.x, -tailDir.y);
  }

  class Game {
    /** The playfield, one bitmask per cell, indexed x + N * y; the array itself is never replaced. */
    const cells: array<bv8>
    var head: Vec
    var tail: Vec
    var gameOver: bool
    var appleEatenTimestamp: int
    /** The heading of the last move. */
    var direction: Vec
    /** Directions queued by key presses, oldest first. */
    var nextDirections: seq<Vec>
    /** The snake as the grid encodes it, tail first and head last. */
    ghost var body: seq<Vec>
    /** The position of the one apple on the board. */
    ghost var apple: Vec

    /** The heading is a direction and the queue holds at most MAX_QUEUED directions. */
    ghost predicate Steering()
      reads this`direction, this`nextDirections
    {
      IsUnit(direction) && |nextDirections| <= MAX_QUEUED && AllUnit(nextDirections)
    }

    /**
     * The wall ring is intact and, while the game runs, the cells encode the
     * snake `body` running from `tail` to `head`, and `apple` is the one
     * apple on the board.
     */
    ghost predicate Playfield()
      reads this`head, this`tail, this`gameOver, this`body, this`apple, cells
    {
      cells.Length == N * N &&
      WallsIntact(cells[..]) &&
      InGrid(head) && InGrid(tail) &&
      (!gameOver ==>
        Interior(head) && Snake(cells[..], body) && body[0] == tail && body[|body| - 1] == head &&
        OnlyApple(cells[..], body, apple))
    }

    ghost predicate Valid()
      reads this, cells
    {
      Steering() && Playfield()
    }

    /** The direction the next tick moves in. */
    ghost function Heading(): Vec
      reads this
    {
      NextDirection(direction, nextDirections)
    }

    /** The next tick lands on an apple. */
    ghost predicate EatsApple()
      reads this, cells
    {
      !gameOver && cells.Length == N * N && InGrid(Plus(head, Heading())) &&
      var front := cells[Idx(Plus(head, Heading()))];
      front & SEG == 0 && front & APPLE != 0
    }

    /** The globals' initial values followed by initCells, as the page load runs them. */
    constructor ()
      ensures Valid() && fresh(cells)
      ensures !gameOver && appleEatenTimestamp == 0
      ensures direction == Vec(-1, 0) && nextDirections == []
      ensures tail == Vec(15, 15) && head == Vec(20, 10) && cells[Idx(head)] == SEG | TOP
      ensures |body| == 91 && forall k :: 0 <= k < |body| ==> InBox(body[k], 11, 20, 10, 19)
    {
      cells := new bv8[N * N](_ => 0);
      head, tail := Vec(0, 0), Vec(0, 0);
      gameOver := false;
      appleEatenTimestamp := 0;
      direction := Vec(-1, 0);
      nextDirections := [];
      body, apple := [], Vec(0, 0);
      new;
      InitCells();
    }

    /**
     * placeNewApple: some cell holding 0 becomes APPLE and nothing else is
     * written. Which cell is left open (the source samples at random).
     */
    method PlaceNewApple() returns (apple: Vec)
      requires cells.Length == N * N && HasFreeCell(cells[..])
      modifies cells
      ensures InGrid(apple) && old(cells[Idx(apple)]) == 0
      ensures cells[..] == old(cells[..])[Idx(apple) := APPLE]
    {
      ghost var v :| InGrid(v) && cells[..][Idx(v)] == 0;
      assert 0 <= v.x < N && 0 <= v.y < N && cells[v.x + N * v.y] == 0;
      var x: int, y: int :| 0 <= x < N && 0 <= y < N && cells[x + N * y] == 0;
      cells[x + N * y] := APPLE;
      apple := Vec(x, y);
    }

    /**
     * initCells: the spiral snake from (15, 15) to (20, 10), the wall ring
     * and one apple on an otherwise empty interior. The stray LEFT bit the
     * spiral leaves on the head cell is cleared.
     */
    method InitCells()
      requires cells.Length == N * N
      modifies this, cells
      ensures gameOver == old(gameOver)
      ensures direction == old(direction) && nextDirections == old(nextDirections)
      ensures appleEatenTimestamp == old(appleEatenTimestamp)
      ensures tail == Vec(15, 15) && head == Vec(20, 10)
      ensures Snake(cells[..], body) && body[0] == tail && body[|body| - 1] == head
      ensures |body| == 91 && forall k :: 0 <= k < |body| ==> InBox(body[k], 11, 20, 10, 19)
      ensures WallsIntact(cells[..])
      ensures cells[Idx(head)] == SEG | TOP
      ensures OnlyApple(cells[..], body, apple)
    {
      forall i | 0 <= i < cells.Length {
        cells[i] := 0;
      }
      var tl, hd;
      ghost var path;
      tl, hd, path := DrawSpiral(cells);
      ghost var spiral := cells[..];
      tail, head, body := tl, hd, path;
      HeadEnc(path);
      DrawEnd(spiral, path, LEFT);
      cells[Idx(hd)] := SEG | TOP;
      ghost var drawn := cells[..];
      assert drawn == spiral[Idx(path[|path| - 1]) := Enc(path, |path| - 1)];
      DrawWalls(cells);
      ghost var walled := cells[..];
      OutsideBox(path, Vec(1, 1), 11, 20, 10, 19);
      assert InGrid(Vec(1, 1)) && walled[Idx(Vec(1, 1))] == drawn[Idx(Vec(1, 1))] == 0;
      var placed := PlaceNewApple();
      apple := placed;
      InitialApple(drawn, walled, path, placed);
    }

    /** keydown: an arrow key's direction joins the queue unless five already wait. */
    method Keydown(key: string)
      requires Valid()
      modifies this`nextDirections
      ensures Valid()
      ensures nextDirections == Enqueued(old(nextDirections), key)
    {
      var dir := KeyDir(key);
      if dir.Some? && |nextDirections| < MAX_QUEUED {
        nextDirections := nextDirections + [dir.value];
      }
    }

    /**
     * The queue part of tick: the oldest queued direction, if any, leaves
     * the queue and becomes the heading unless it is the exact reverse of it.
     */
    method Steer()
      requires Steering()
      modifies this`direction, this`nextDirections
      ensures Steering()
      ensures direction == NextDirection(old(direction), old(nextDirections))
      ensures nextDirections == Dequeued(old(nextDirections))
    {
      if |nextDirections| > 0 {
        var d := nextDirections[0];
        nextDirections := nextDirections[1..];
        // a turn straight back is dropped
        if !(d.x == -direction.x && d.y == -direction.y) {
          direction := d;
        }
      }
    }

    /**
     * The crash branch of tick: the head moves onto the SEG cell it ran
     * into and the game ends; only the stamped old head cell has changed.
     */
    method Crash(newHead: Vec, ghost s0: seq<bv8>)
      requires Steering() && cells.Length == N * N && InGrid(tail) && InGrid(newHead)
      requires WallsIntact(s0) && Interior(head) && IsUnit(direction)
      requires cells[..] == s0[Idx(head) := s0[Idx(head)] | Bit(direction)]
      modifies this`head, this`gameOver
      ensures Valid() && gameOver && head == newHead
    {
      InteriorWriteKeepsWalls(s0, head, s0[Idx(head)] | Bit(direction));
      head, gameOver := newHead, true;
    }

    /**
     * The apple branch of tick, after the new head is marked: a new apple
     * goes on an empty cell, the snake keeps its tail and the time is noted.
     */
    method EatApple(newHead: Vec, now: int, ghost s0: seq<bv8>, ghost b0: seq<Vec>)
      requires Steering() && cells.Length == N * N && !gameOver
      requires Snake(s0, b0) && WallsIntact(s0) && HasFreeCell(s0) && OnlyApple(s0, b0, apple)
      requires b0[0] == tail && b0[|b0| - 1] == head && newHead == Plus(head, direction)
      requires s0[Idx(newHead)] & SEG == 0 && s0[Idx(newHead)] & APPLE != 0
      requires cells[..] == Moved(s0, head, direction)
      modifies this`head, this`body, this`apple, this`appleEatenTimestamp, cells
      ensures Valid()
      ensures head == newHead && body == b0 + [newHead] && appleEatenTimestamp == now
      ensures newHead == old(apple)
      ensures InGrid(apple) && Moved(s0, old(head), direction)[Idx(apple)] == 0
      ensures cells[..] == Moved(s0, old(head), direction)[Idx(apple) := APPLE]
      ensures SegCount(cells[..]) == SegCount(s0) + 1
    {
      FreeAfterMove(s0, b0, direction);
      var placed := PlaceNewApple();
      Feed(s0, b0, direction, placed);
      FeedMovesApple(s0, b0, direction, apple, placed);
      head, body, apple, appleEatenTimestamp := newHead, b0 + [newHead], placed, now;
    }

    /**
     * The plain branch of tick, after the new head is marked: the tail cell
     * is cleared and the next cell becomes the tail.
     */
    method FollowTail(newHead: Vec, ghost s0: seq<bv8>, ghost b0: seq<Vec>)
      requires Steering() && cells.Length == N * N && !gameOver
      requires Snake(s0, b0) && WallsIntact(s0) && OnlyApple(s0, b0, apple)
      requires b0[0] == tail && b0[|b0| - 1] == head && newHead == Plus(head, direction)
      requires s0[Idx(newHead)] & SEG == 0 && s0[Idx(newHead)] & APPLE == 0
      requires cells[..] == Moved(s0, head, direction)
      modifies this`head, this`tail, this`body, cells
      ensures Valid()
      ensures head == newHead && tail == b0[1] && body == b0[1..] + [newHead]
      ensures newHead != apple
      ensures cells[..] == Retracted(Moved(s0, old(head), direction), old(tail), tail)
      ensures SegCount(cells[..]) == SegCount(s0)
    {
      Slide(s0, b0, direction);
      SlideKeepsApple(s0, b0, direction, apple);
      AppleAhead(s0, b0, direction, apple);
      var newTail := RetractTail(cells, tail);
      head, tail, body := newHead, newTail, b0[1..] + [newHead];
    }

    /**
     * The part of tick after a move that does not crash: the new head cell
     * is marked, and then either the apple it ate is replaced or the tail
     * retracts. The snake eats exactly when it lands on the one apple.
     */
    method Land(newHead: Vec, front: bv8, now: int, ghost s0: seq<bv8>, ghost b0: seq<Vec>)
      requires Steering() && cells.Length == N * N && !gameOver
      requires Snake(s0, b0) && WallsIntact(s0) && OnlyApple(s0, b0, apple)
      requires b0[0] == tail && b0[|b0| - 1] == head && newHead == Plus(head, direction)
      requires front == s0[Idx(newHead)] && front & SEG == 0
      requires front & APPLE != 0 ==> HasFreeCell(s0)
      requires cells[..] == s0[Idx(head) := s0[Idx(head)] | Bit(direction)]
      modifies this`head, this`tail, this`body, this`apple, this`appleEatenTimestamp, cells
      ensures Valid() && head == newHead
      ensures front & APPLE != 0 <==> newHead == old(apple)
      ensures front & APPLE != 0 ==>
        tail == old(tail) && body == b0 + [newHead] && appleEatenTimestamp == now &&
        InGrid(apple) && Moved(s0, old(head), direction)[Idx(apple)] == 0 &&
        cells[..] == Moved(s0, old(head), direction)[Idx(apple) := APPLE]
      ensures front & APPLE == 0 ==>
        tail == b0[1] && body == b0[1..] + [newHead] &&
        appleEatenTimestamp == old(appleEatenTimestamp) && apple == old(apple) &&
        cells[..] == Retracted(Moved(s0, old(head), direction), old(tail), tail)
      ensures SegCount(cells[..]) == SegCount(s0) + (if front & APPLE != 0 then 1 else 0)
    {
      MarkNewHead(cells, newHead, direction);
      if front & APPLE != 0 {
        EatApple(newHead, now, s0, b0);
      } else {
        FollowTail(newHead, s0, b0);
      }
    }

    /**
     * The move part of tick, once the heading is settled: the head cell is
     * marked with the heading and the head advances; landing on a SEG cell
     * ends the game, otherwise the snake grows by the new cell and then
     * either the apple it ate is replaced or its tail retracts by one cell.
     */
    method Advance(now: int)
      requires Valid() && !gameOver
      requires var f := Plus(head, direction);
        InGrid(f) && cells[Idx(f)] & SEG == 0 && cells[Idx(f)] & APPLE != 0 ==> HasFreeCell(cells[..])
      modifies this`head, this`tail, this`gameOver, this`body, this`apple, this`appleEatenTimestamp, cells
      ensures Valid()
      ensures head == Plus(old(head), direction)
      ensures old(cells[..])[Idx(head)] & SEG != 0 ==>
        gameOver && tail == old(tail) && appleEatenTimestamp == old(appleEatenTimestamp) &&
        cells[..] == old(cells[..])[Idx(old(head)) := old(cells[..])[Idx(old(head))] | Bit(direction)]
      ensures old(cells[..])[Idx(head)] & SEG == 0 ==> (old(cells[..])[Idx(head)] & APPLE != 0 <==> head == old(apple))
      ensures old(cells[..])[Idx(head)] & SEG == 0 && old(cells[..])[Idx(head)] & APPLE != 0 ==>
        !gameOver && tail == old(tail) && body == old(body) + [head] && appleEatenTimestamp == now &&
        InGrid(apple) && Moved(old(cells[..]), old(head), direction)[Idx(apple)] == 0 &&
        cells[..] == Moved(old(cells[..]), old(head), direction)[Idx(apple) := APPLE]
      ensures old(cells[..])[Idx(head)] & SEG == 0 && old(cells[..])[Idx(head)] & APPLE == 0 ==>
        !gameOver && tail == old(body)[1] && body == old(body)[1..] + [head] &&
        appleEatenTimestamp == old(appleEatenTimestamp) && apple == old(apple) &&
        cells[..] == Retracted(Moved(old(cells[..]), old(head), direction), old(tail), tail)
      ensures !gameOver ==>
        SegCount(cells[..]) == old(SegCount(cells[..])) + (if old(cells[..])[Idx(head)] & APPLE != 0 then 1 else 0)
    {
      assert (this as object) != (cells as object);
      ghost var s0, b0, h0 := cells[..], body, head;
      var newHead, frontCell := StampHead(cells, head, direction);
      if frontCell & SEG != 0 {
        Crash(newHead, s0);
        return;
      }
      Land(newHead, frontCell, now, s0, b0);
    }

    /**
     * tick: one step of the game. Nothing happens once the game is over.
     * Otherwise the heading is updated from the queue, the head cell is
     * marked with the heading and the head advances. Landing on a SEG cell
     * (wall or body) ends the game; otherwise the snake grows by the new
     * cell, and then either the apple it ate is replaced or its tail
     * retracts by one cell.
     */
    method Tick(now: int)
      requires Valid()
      requires EatsApple() ==> HasFreeCell(cells[..])
      modifies this, cells
      ensures Valid()
      ensures old(gameOver) ==> unchanged(this) && unchanged(cells)
      ensures !old(gameOver) ==>
        direction == NextDirection(old(direction), old(nextDirections)) &&
        nextDirections == Dequeued(old(nextDirections)) &&
        head == Plus(old(head), direction)
      // the head runs into the wall or the snake
      ensures !old(gameOver) && old(cells[..])[Idx(head)] & SEG != 0 ==>
        gameOver && tail == old(tail) && appleEatenTimestamp == old(appleEatenTimestamp) &&
        cells[..] == old(cells[..])[Idx(old(head)) := old(cells[..])[Idx(old(head))] | Bit(direction)]
      // the head eats an apple: the snake grows and a new apple appears on an empty cell
      // it eats exactly when it reaches the one apple
      ensures !old(gameOver) && old(cells[..])[Idx(head)] & SEG == 0 ==>
        (old(cells[..])[Idx(head)] & APPLE != 0 <==> head == old(apple))
      ensures !old(gameOver) && old(cells[..])[Idx(head)] & SEG == 0 && old(cells[..])[Idx(head)] & APPLE != 0 ==>
        !gameOver && tail == old(tail) && body == old(body) + [head] && appleEatenTimestamp == now &&
        InGrid(apple) && Moved(old(cells[..]), old(head), direction)[Idx(apple)] == 0 &&
        cells[..] == Moved(old(cells[..]), old(head), direction)[Idx(apple) := APPLE]
      // a plain move: the tail follows
      ensures !old(gameOver) && old(cells[..])[Idx(head)] & SEG == 0 && old(cells[..])[Idx(head)] & APPLE == 0 ==>
        !gameOver && tail == old(body)[1] && body == old(body)[1..] + [head] &&
        appleEatenTimestamp == old(appleEatenTimestamp) && apple == old(apple) &&
        cells[..] == Retracted(Moved(old(cells[..]), old(head), direction), old(tail), tail)
      ensures !old(gameOver) && !gameOver ==>
        SegCount(cells[..]) == old(SegCount(cells[..])) + (if old(cells[..])[Idx(head)] & APPLE != 0 then 1 else 0)
    {
      if gameOver {
        return;
      }
      assert (this as object) != (cells as object);
      ghost var s0 := cells[..];
      Steer();
      assert cells[..] == s0;
      Advance(now);
    }
  }
}
