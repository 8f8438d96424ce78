/**
 * The playfield: N x N cells stored flat at index x + N * y, the wall ring
 * around it, and the snake as the chain of directional bits drawn into the
 * cells between the tail and the head.
 */
module Board {
  import opened Wrappers
  import opened Codec

  /** Playfield size. */
  const N: int := 32

  /** Number of spiral layers of the initial snake. */
  const START_COIL: int := 4

  function Idx(v: Vec): int { v.x + N * v.y }

  predicate InGrid(v: Vec) { 0 <= v.x < N && 0 <= v.y < N }

  /** Inside the wall ring. */
  predicate Interior(v: Vec) { 0 < v.x < N - 1 && 0 < v.y < N - 1 }

  /** One step apart along an axis: the difference is a unit direction. */
  predicate Adjacent(a: Vec, b: Vec) {
    (a.x == b.x && (b.y == a.y + 1 || b.y == a.y - 1)) || (a.y == b.y && (b.x == a.x + 1 || b.x == a.x - 1))
  }

  /** The flat index addresses each grid position at its own cell. */
  lemma IdxInjective(a: Vec, b: Vec)
    requires InGrid(a) && InGrid(b)
    ensures 0 <= Idx(a) < N * N
    ensures Idx(a) == Idx(b) <==> a == b
  {
  }

  predicate Corner(v: Vec) { (v.x == 0 || v.x == N - 1) && (v.y == 0 || v.y == N - 1) }

  /** How far along its side a ring position lies: the column of a top or bottom cell, the row of a side cell. */
  function RingPos(v: Vec): int { if v.y == 0 || v.y == N - 1 then v.x else v.y }

  /** The ring cells below `i` along their sides, corners aside, hold their wall masks. */
  ghost predicate RingUpTo(s: seq<bv8>, i: int) {
    |s| == N * N &&
    forall v {:trigger s[Idx(v)]} :: InGrid(v) && !Interior(v) && !Corner(v) && RingPos(v) < i ==> s[Idx(v)] == WallCell(v)
  }

  /**
   * One round of the wall loop: the cells at position `i` of the top and
   * bottom rows become HORIZONTAL and those of the two side columns
   * VERTICAL, which extends the finished part of the ring by one.
   */
  lemma RingStep(s: seq<bv8>, i: int)
    requires RingUpTo(s, i) && 0 <= i < N
    ensures RingUpTo(s[Idx(Vec(i, 0)) := HORIZONTAL][Idx(Vec(i, N - 1)) := HORIZONTAL][Idx(Vec(0, i)) := VERTICAL][Idx(Vec(N - 1, i)) := VERTICAL], i + 1)
    ensures forall v {:trigger s[Idx(v)]} :: Interior(v) ==>
      s[Idx(Vec(i, 0)) := HORIZONTAL][Idx(Vec(i, N - 1)) := HORIZONTAL][Idx(Vec(0, i)) := VERTICAL][Idx(Vec(N - 1, i)) := VERTICAL][Idx(v)] == s[Idx(v)]
  {
    var t := s[Idx(Vec(i, 0)) := HORIZONTAL][Idx(Vec(i, N - 1)) := HORIZONTAL][Idx(Vec(0, i)) := VERTICAL][Idx(Vec(N - 1, i)) := VERTICAL];
    forall v {:trigger t[Idx(v)]} | InGrid(v) && !Interior(v) && !Corner(v) && RingPos(v) < i + 1 ensures t[Idx(v)] == WallCell(v) {
      IdxInjective(v, Vec(i, 0));
      IdxInjective(v, Vec(i, N - 1));
      IdxInjective(v, Vec(0, i));
      IdxInjective(v, Vec(N - 1, i));
    }
    forall v {:trigger t[Idx(v)]} | Interior(v) ensures t[Idx(v)] == s[Idx(v)] {
      IdxInjective(v, Vec(i, 0));
      IdxInjective(v, Vec(i, N - 1));
      IdxInjective(v, Vec(0, i));
      IdxInjective(v, Vec(N - 1, i));
    }
  }

  /**
   * Once every ring cell but the corners holds its wall mask, writing the
   * four corner masks completes the ring and leaves the interior alone.
   */
  lemma CornersComplete(s: seq<bv8>)
    requires RingUpTo(s, N)
    ensures WallsIntact(s[0 := TOP | RIGHT | SEG][N - 1 := TOP | LEFT | SEG][N * (N - 1) := BOT | RIGHT | SEG][N * N - 1 := BOT | LEFT | SEG])
    ensures forall v {:trigger s[Idx(v)]} :: Interior(v) ==>
      s[0 := TOP | RIGHT | SEG][N - 1 := TOP | LEFT | SEG][N * (N - 1) := BOT | RIGHT | SEG][N * N - 1 := BOT | LEFT | SEG][Idx(v)] == s[Idx(v)]
  {
    var t := s[0 := TOP | RIGHT | SEG][N - 1 := TOP | LEFT | SEG][N * (N - 1) := BOT | RIGHT | SEG][N * N - 1 := BOT | LEFT | SEG];
    forall v {:trigger t[Idx(v)]} | InGrid(v) && !Interior(v) ensures t[Idx(v)] == WallCell(v) {
      IdxInjective(v, Vec(0, 0));
      IdxInjective(v, Vec(N - 1, 0));
      IdxInjective(v, Vec(0, N - 1));
      IdxInjective(v, Vec(N - 1, N - 1));
    }
    forall v {:trigger t[Idx(v)]} | Interior(v) ensures t[Idx(v)] == s[Idx(v)] {
      IdxInjective(v, Vec(0, 0));
      IdxInjective(v, Vec(N - 1, 0));
      IdxInjective(v, Vec(0, N - 1));
      IdxInjective(v, Vec(N - 1, N - 1));
    }
  }

  /** The bit a cell at `from` carries to say the chain continues to the neighbour `to`. */
  function Link(from: Vec, to: Vec): bv8 {
    if to.y == from.y && to.x == from.x + 1 then RIGHT
    else if to.y == from.y && to.x == from.x - 1 then LEFT
    else if to.x == from.x && to.y == from.y + 1 then TOP
    else if to.x == from.x && to.y == from.y - 1 then BOT
    else 0
  }

  /** The cells of the wall ring: corners, then the top and bottom rows, then the side columns. */
  function WallCell(v: Vec): bv8 {
    if v == Vec(0, 0) then TOP | RIGHT | SEG
    else if v == Vec(N - 1, 0) then TOP | LEFT | SEG
    else if v == Vec(0, N - 1) then BOT | RIGHT | SEG
    else if v == Vec(N - 1, N - 1) then BOT | LEFT | SEG
    else if v.y == 0 || v.y == N - 1 then HORIZONTAL
    else VERTICAL
  }

  ghost predicate WallsIntact(s: seq<bv8>) {
    |s| == N * N &&
    forall v {:trigger s[Idx(v)]} :: InGrid(v) && !Interior(v) ==> s[Idx(v)] == WallCell(v)
  }

  /** A cell that is 0 somewhere on the board: where an apple may go. */
  ghost predicate HasFreeCell(s: seq<bv8>) {
    |s| == N * N && exists v :: InGrid(v) && s[Idx(v)] == 0
  }

  function SegBit(m: bv8): nat { if m & SEG != 0 then 1 else 0 }

  /** Number of cells carrying BM_SEG: the snake plus the wall ring. */
  function SegCount(s: seq<bv8>): (r: nat)
    ensures r <= |s|
  {
    if |s| == 0 then 0 else SegCount(s[..|s| - 1]) + SegBit(s[|s| - 1])
  }

  /** Writing one cell changes the count by what that cell gains or loses. */
  lemma {:induction false} SegCountUpdate(s: seq<bv8>, i: int, m: bv8)
    requires 0 <= i < |s|
    ensures SegCount(s[i := m]) == SegCount(s) - SegBit(s[i]) + SegBit(m)
  {
    var t := s[i := m];
    if i == |s| - 1 {
      assert t[..|t| - 1] == s[..|s| - 1];
    } else {
      assert t[..|t| - 1] == s[..|s| - 1][i := m];
      SegCountUpdate(s[..|s| - 1], i, m);
    }
  }

  /** Interior positions, consecutive ones adjacent, none repeated. */
  ghost predicate Chain(body: seq<Vec>) {
    |body| >= 1 &&
    (forall k :: 0 <= k < |body| ==> Interior(body[k])) &&
    (forall j, k :: 0 <= j && k == j + 1 && k < |body| ==> Adjacent(body[j], body[k])) &&
    (forall j, k :: 0 <= j < k < |body| ==> body[j] != body[k])
  }

  /** The mask of the k-th segment: SEG, a bit back to the previous segment and a bit on to the next. */
  function Enc(body: seq<Vec>, k: int): bv8
    requires 0 <= k < |body|
  {
    SEG
    | (if k > 0 then Link(body[k], body[k - 1]) else 0)
    | (if k < |body| - 1 then Link(body[k], body[k + 1]) else 0)
  }

  /**
   * A path drawn on an otherwise empty board; its last cell carries the
   * extra bits `pending` (the direction it is about to continue in).
   */
  ghost predicate Drawn(s: seq<bv8>, path: seq<Vec>, pending: bv8) {
    |s| == N * N && Chain(path) &&
    (forall k {:trigger s[Idx(path[k])]} :: 0 <= k < |path| - 1 ==> s[Idx(path[k])] == Enc(path, k)) &&
    s[Idx(path[|path| - 1])] == Enc(path, |path| - 1) | pending &&
    (forall v {:trigger s[Idx(v)]} :: InGrid(v) && v !in path ==> s[Idx(v)] == 0)
  }

  /**
   * The running-game invariant of the grid: the snake `body` (tail first,
   * head last) is drawn exactly, and every other interior cell is empty or
   * holds only an apple.
   */
  ghost predicate Snake(s: seq<bv8>, body: seq<Vec>) {
    |s| == N * N && Chain(body) && |body| >= 2 && Encoded(s, body) && RestFree(s, body)
  }

  /** Every segment of `body` holds its mask. */
  ghost predicate Encoded(s: seq<bv8>, body: seq<Vec>)
    requires |s| == N * N && Chain(body)
  {
    forall k {:trigger s[Idx(body[k])]} :: 0 <= k < |body| ==> s[Idx(body[k])] == Enc(body, k)
  }

  /** Every interior cell off `body` is empty or holds only an apple. */
  ghost predicate RestFree(s: seq<bv8>, body: seq<Vec>)
    requires |s| == N * N
  {
    forall v {:trigger s[Idx(v)]} :: Interior(v) && v !in body ==> s[Idx(v)] == 0 || s[Idx(v)] == APPLE
  }

  lemma LinkIsBit(a: Vec, b: Vec)
    requires Adjacent(a, b)
    ensures Link(a, b) == Bit(Vec(b.x - a.x, b.y - a.y))
    ensures Adjacent(b, a) && Link(b, a) == Bit(Vec(a.x - b.x, a.y - b.y))
  {
  }

  /** Two neighbours of one cell on different sides get different bits. */
  lemma LinksDiffer(c: Vec, a: Vec, b: Vec)
    requires Adjacent(c, a) && Adjacent(c, b) && a != b
    ensures Link(c, a) != Link(c, b) && Link(c, a) & Link(c, b) == 0
  {
    LinkIsBit(c, a);
    LinkIsBit(c, b);
    BitInjective(Vec(a.x - c.x, a.y - c.y), Vec(b.x - c.x, b.y - c.y));
  }

  /** The first segment of a path drawn on an empty board. */
  lemma {:induction false} DrawStart(s: seq<bv8>, v: Vec, pending: bv8)
    requires |s| == N * N && forall w {:trigger s[Idx(w)]} :: InGrid(w) ==> s[Idx(w)] == 0
    requires Interior(v)
    ensures Drawn(s[Idx(v) := SEG | pending], [v], pending)
  {
    var t := s[Idx(v) := SEG | pending];
    forall w {:trigger t[Idx(w)]} | InGrid(w) && w !in [v] ensures t[Idx(w)] == 0 {
      IdxInjective(w, v);
    }
  }

  /** Appending a fresh interior neighbour of the last position keeps a chain. */
  lemma {:induction false} ChainAppend(path: seq<Vec>, q: Vec)
    requires Chain(path) && Interior(q) && Adjacent(path[|path| - 1], q) && q !in path
    ensures Chain(path + [q])
  {
    var p2 := path + [q];
    forall j, k | 0 <= j < k < |p2| ensures p2[j] != p2[k] {
      if k == |path| {
        assert p2[j] == path[j];
      }
    }
  }

  lemma EncAppend(path: seq<Vec>, q: Vec, k: int)
    requires 0 <= k < |path| - 1
    ensures Enc(path + [q], k) == Enc(path, k)
  {
  }

  lemma EncAppendLast(path: seq<Vec>, q: Vec)
    requires |path| >= 1
    ensures Enc(path + [q], |path| - 1) == Enc(path, |path| - 1) | Link(path[|path| - 1], q)
  {
  }

  /** A segment appended to a path has SEG and its link back, and nothing else yet. */
  lemma EncNewLast(path: seq<Vec>, q: Vec)
    requires |path| >= 1
    ensures Enc(path + [q], |path|) == SEG | Link(q, path[|path| - 1])
  {
    assert (path + [q])[|path| - 1] == path[|path| - 1];
  }

  /** One segment of the path after `q` is drawn: earlier segments keep their masks, the old last one gains its link to `q`. */
  lemma DrawNextCell(s: seq<bv8>, path: seq<Vec>, pending: bv8, q: Vec, next: bv8, k: int)
    requires Drawn(s, path, pending)
    requires Interior(q) && q !in path
    requires pending == Link(path[|path| - 1], q)
    requires 0 <= k < |path|
    ensures s[Idx(q) := SEG | Link(q, path[|path| - 1]) | next][Idx(path[k])] == Enc(path + [q], k)
  {
    IdxInjective(path[k], q);
    if k < |path| - 1 {
      assert s[Idx(path[k])] == Enc(path, k);
      EncAppend(path, q, k);
    } else {
      EncAppendLast(path, q);
    }
  }

  /** The appended segment holds SEG, its link back and the bits `next` it is about to continue in. */
  lemma DrawNextLast(s: seq<bv8>, path: seq<Vec>, q: Vec, next: bv8)
    requires |s| == N * N && |path| >= 1 && Interior(q)
    ensures var p2 := path + [q];
      s[Idx(q) := SEG | Link(q, path[|path| - 1]) | next][Idx(p2[|p2| - 1])] == Enc(p2, |p2| - 1) | next
  {
    EncNewLast(path, q);
    assert (path + [q])[|path|] == q;
  }

  /** Drawing one more segment `q` next to the end of a drawn path. */
  lemma {:induction false} DrawNext(s: seq<bv8>, path: seq<Vec>, pending: bv8, q: Vec, next: bv8)
    requires Drawn(s, path, pending)
    requires Interior(q) && Adjacent(path[|path| - 1], q) && q !in path
    requires pending == Link(path[|path| - 1], q)
    ensures Drawn(s[Idx(q) := SEG | Link(q, path[|path| - 1]) | next], path + [q], next)
  {
    var last := path[|path| - 1];
    var t := s[Idx(q) := SEG | Link(q, last) | next];
    var p2 := path + [q];
    ChainAppend(path, q);
    forall k {:trigger t[Idx(p2[k])]} | 0 <= k < |p2| - 1 ensures t[Idx(p2[k])] == Enc(p2, k) {
      assert p2[k] == path[k];
      DrawNextCell(s, path, pending, q, next, k);
    }
    DrawNextLast(s, path, q, next);
    forall w {:trigger t[Idx(w)]} | InGrid(w) && w !in p2 ensures t[Idx(w)] == 0 {
      IdxInjective(w, q);
    }
  }

  /** Dropping the pending bits from the last cell of a drawn path. */
  lemma {:induction false} DrawEnd(s: seq<bv8>, path: seq<Vec>, pending: bv8)
    requires Drawn(s, path, pending)
    ensures Drawn(s[Idx(path[|path| - 1]) := Enc(path, |path| - 1)], path, 0)
  {
    var last := path[|path| - 1];
    var t := s[Idx(last) := Enc(path, |path| - 1)];
    forall k {:trigger t[Idx(path[k])]} | 0 <= k < |path| - 1 ensures t[Idx(path[k])] == Enc(path, k) {
      IdxInjective(path[k], last);
    }
    forall w {:trigger t[Idx(w)]} | InGrid(w) && w !in path ensures t[Idx(w)] == 0 {
      IdxInjective(w, last);
    }
  }

  /**
   * Replacing the ring cells of a board holding a drawn path (and nothing
   * else) by walls yields a running snake.
   */
  lemma {:induction false} DrawnIsSnake(s: seq<bv8>, t: seq<bv8>, path: seq<Vec>)
    requires Drawn(s, path, 0) && |path| >= 2
    requires |t| == N * N && forall v {:trigger t[Idx(v)]} {:trigger s[Idx(v)]} :: Interior(v) ==> t[Idx(v)] == s[Idx(v)]
    ensures Snake(t, path)
    ensures forall v {:trigger t[Idx(v)]} :: Interior(v) && v !in path ==> t[Idx(v)] == 0
  {
    forall k {:trigger t[Idx(path[k])]} | 0 <= k < |path| ensures t[Idx(path[k])] == Enc(path, k) {
      assert Interior(path[k]);
      if k == |path| - 1 {
        assert Enc(path, k) | 0 == Enc(path, k);
      }
    }
  }

  /** An apple written on a zero cell keeps the snake and the walls. */
  lemma {:induction false} AppleKeepsSnake(s: seq<bv8>, body: seq<Vec>, v: Vec)
    requires Snake(s, body) && WallsIntact(s)
    requires InGrid(v) && s[Idx(v)] == 0
    ensures Interior(v) && v !in body
    ensures Snake(s[Idx(v) := APPLE], body) && WallsIntact(s[Idx(v) := APPLE])
    ensures SegCount(s[Idx(v) := APPLE]) == SegCount(s)
  {
    var t := s[Idx(v) := APPLE];
    forall k {:trigger t[Idx(body[k])]} | 0 <= k < |body| ensures t[Idx(body[k])] == Enc(body, k) {
      IdxInjective(body[k], v);
    }
    forall w {:trigger t[Idx(w)]} | Interior(w) && w !in body ensures t[Idx(w)] == 0 || t[Idx(w)] == APPLE {
      IdxInjective(w, v);
    }
    forall w {:trigger t[Idx(w)]} | InGrid(w) && !Interior(w) ensures t[Idx(w)] == WallCell(w) {
      IdxInjective(w, v);
    }
    IdxInjective(v, v);
    SegCountUpdate(s, Idx(v), APPLE);
  }

  /** Writing an interior cell leaves the wall ring intact. */
  lemma InteriorWriteKeepsWalls(s: seq<bv8>, h: Vec, m: bv8)
    requires WallsIntact(s) && Interior(h)
    ensures WallsIntact(s[Idx(h) := m])
  {
    forall w {:trigger s[Idx(h) := m][Idx(w)]} | InGrid(w) && !Interior(w) ensures s[Idx(h) := m][Idx(w)] == WallCell(w) {
      IdxInjective(w, h);
    }
  }

  predicate InBox(v: Vec, x1: int, x2: int, y1: int, y2: int) {
    x1 <= v.x <= x2 && y1 <= v.y <= y2
  }

  /**
   * The board initCells leaves: a path drawn on an empty board, the wall
   * ring around it and one apple on a free cell. The path is then the
   * snake, the apple is the only other thing inside the ring, and the
   * path's cells keep what was drawn.
   */
  lemma {:induction false} InitialApple(s: seq<bv8>, t: seq<bv8>, path: seq<Vec>, apple: Vec)
    requires Drawn(s, path, 0) && |path| >= 2
    requires WallsIntact(t) && forall v {:trigger t[Idx(v)]} {:trigger s[Idx(v)]} :: Interior(v) ==> t[Idx(v)] == s[Idx(v)]
    requires InGrid(apple) && t[Idx(apple)] == 0
    ensures Snake(t[Idx(apple) := APPLE], path) && WallsIntact(t[Idx(apple) := APPLE])
    ensures OnlyApple(t[Idx(apple) := APPLE], path, apple)
    ensures t[Idx(apple) := APPLE][Idx(path[|path| - 1])] == s[Idx(path[|path| - 1])]
  {
    DrawnIsSnake(s, t, path);
    AppleKeepsSnake(t, path, apple);
    AppleOnEmpty(t, path, apple);
    IdxInjective(path[|path| - 1], apple);
  }

  /** A position outside a box holding the whole path is not on the path. */
  lemma OutsideBox(path: seq<Vec>, w: Vec, x1: int, x2: int, y1: int, y2: int)
    requires forall k :: 0 <= k < |path| ==> InBox(path[k], x1, x2, y1, y2)
    requires !InBox(w, x1, x2, y1, y2)
    ensures w !in path
  {
  }

  /** The apple is the one interior cell off `body` that is not empty. */
  ghost predicate OnlyApple(s: seq<bv8>, body: seq<Vec>, apple: Vec)
    requires |s| == N * N
  {
    Interior(apple) && apple !in body && s[Idx(apple)] == APPLE &&
    forall v {:trigger s[Idx(v)]} :: Interior(v) && v !in body && v != apple ==> s[Idx(v)] == 0
  }

  /** An apple dropped on a board whose interior off the snake is empty is the only one there. */
  lemma AppleOnEmpty(s: seq<bv8>, body: seq<Vec>, apple: Vec)
    requires |s| == N * N && Interior(apple) && apple !in body
    requires forall v {:trigger s[Idx(v)]} :: Interior(v) && v !in body ==> s[Idx(v)] == 0
    ensures OnlyApple(s[Idx(apple) := APPLE], body, apple)
  {
    forall v {:trigger s[Idx(apple) := APPLE][Idx(v)]} | Interior(v) && v !in body && v != apple ensures s[Idx(apple) := APPLE][Idx(v)] == 0 {
      IdxInjective(v, apple);
    }
  }

  /** The step from `a` to `b`. */
  function Delta(a: Vec, b: Vec): Vec { Vec(b.x - a.x, b.y - a.y) }

  /**
   * The head move of tick: the head cell at `h` gains the bit of the heading
   * `d`, and the cell ahead becomes SEG plus the bit pointing back at `h`.
   */
  function Moved(s: seq<bv8>, h: Vec, d: Vec): seq<bv8>
    requires |s| == N * N && Interior(h) && IsUnit(d)
  {
    s[Idx(h) := s[Idx(h)] | Bit(d)][Idx(Plus(h, d)) := SEG | Bit(Vec(-d.x, -d.y))]
  }

  /**
   * The tail step of tick: the old tail cell `t` is cleared, and the new
   * tail cell `t2` loses the bit pointing back at `t`.
   */
  function Retracted(s: seq<bv8>, t: Vec, t2: Vec): seq<bv8>
    requires |s| == N * N && InGrid(t) && InGrid(t2)
  {
    s[Idx(t) := 0][Idx(t2) := s[Idx(t2)] & !Link(t2, t)]
  }

  /** One step from an interior cell stays on the board and lands on another cell. */
  lemma StepInGrid(h: Vec, d: Vec)
    requires Interior(h) && IsUnit(d)
    ensures InGrid(Plus(h, d)) && Idx(h) != Idx(Plus(h, d))
  {
    IdxInjective(h, Plus(h, d));
  }

  /** The tail cell of a snake decodes to the step from the tail to the next segment. */
  lemma TailDecodes(s: seq<bv8>, body: seq<Vec>)
    requires Snake(s, body)
    ensures BitmaskToDir(s[Idx(body[0])]) == Ok(Delta(body[0], body[1]))
  {
    var t0, t1 := body[0], body[1];
    var d := Delta(t0, t1);
    assert Adjacent(t0, t1);
    assert s[Idx(t0)] == Enc(body, 0);
    LinkIsBit(t0, t1);
    assert Enc(body, 0) == Bit(d) | SEG;
    RoundTrip(d, SEG);
  }

  /**
   * A board with a free cell still has one after the head moves onto an
   * occupied (apple) cell: the free cell is neither the head nor the cell ahead.
   */
  lemma FreeAfterMove(s: seq<bv8>, body: seq<Vec>, d: Vec)
    requires Snake(s, body) && IsUnit(d) && HasFreeCell(s)
    requires InGrid(Plus(body[|body| - 1], d)) && s[Idx(Plus(body[|body| - 1], d))] != 0
    ensures HasFreeCell(Moved(s, body[|body| - 1], d))
  {
    var h := body[|body| - 1];
    assert s[Idx(h)] == Enc(body, |body| - 1);
    var v :| InGrid(v) && s[Idx(v)] == 0;
    MovedElsewhere(s, h, d, v);
  }

  lemma {:induction false} FreeDestination(s: seq<bv8>, body: seq<Vec>, d: Vec)
    requires Snake(s, body) && WallsIntact(s) && IsUnit(d)
    requires s[Idx(Plus(body[|body| - 1], d))] & SEG == 0
    ensures Plus(body[|body| - 1], d) !in body && Interior(Plus(body[|body| - 1], d))
  {
    var dest := Plus(body[|body| - 1], d);
    assert InGrid(dest);
    forall k | 0 <= k < |body| ensures body[k] != dest {
      assert s[Idx(body[k])] == Enc(body, k);
    }
  }

  /** Moved only writes the two interior cells `h` and `h + d`. */
  lemma MovedElsewhere(s: seq<bv8>, h: Vec, d: Vec, w: Vec)
    requires |s| == N * N && Interior(h) && IsUnit(d) && InGrid(w)
    requires w != h && w != Plus(h, d)
    ensures Moved(s, h, d)[Idx(w)] == s[Idx(w)]
  {
    IdxInjective(w, h);
    IdxInjective(w, Plus(h, d));
  }

  /** The SEG count after two writes to distinct cells. */
  lemma SegCountTwo(s: seq<bv8>, i: int, a: bv8, j: int, b: bv8)
    requires 0 <= i < |s| && 0 <= j < |s| && i != j
    ensures SegCount(s[i := a][j := b]) == SegCount(s) - SegBit(s[i]) - SegBit(s[j]) + SegBit(a) + SegBit(b)
  {
    SegCountUpdate(s, i, a);
    SegCountUpdate(s[i := a], j, b);
  }

  lemma SegBitOr(a: bv8, b: bv8)
    ensures SegBit(SEG | b) == 1
    ensures a & SEG != 0 ==> SegBit(a | b) == 1
    ensures b & SEG == 0 ==> SegBit(a & !b) == SegBit(a)
  {
  }

  /**
   * Proof step, not a property of the game: unfolds Moved into its two
   * cell writes so that a SEG-count proof can name each write.
   */
  lemma MovedForm(s: seq<bv8>, h: Vec, d: Vec)
    requires |s| == N * N && Interior(h) && IsUnit(d)
    ensures Moved(s, h, d) == s[Idx(h) := s[Idx(h)] | Bit(d)][Idx(Plus(h, d)) := SEG | Bit(Vec(-d.x, -d.y))]
  {
  }

  /** SEG count of a move whose source has SEG and whose destination has none. */
  lemma {:induction false} MovedCount(s: seq<bv8>, h: Vec, d: Vec)
    requires |s| == N * N && Interior(h) && IsUnit(d)
    requires s[Idx(h)] & SEG != 0 && s[Idx(Plus(h, d))] & SEG == 0
    ensures SegCount(Moved(s, h, d)) == SegCount(s) + 1
  {
    var dest := Plus(h, d);
    var a, b := s[Idx(h)] | Bit(d), SEG | Bit(Vec(-d.x, -d.y));
    IdxInjective(h, dest);
    SegBitOr(s[Idx(h)], Bit(d));
    SegBitOr(0, Bit(Vec(-d.x, -d.y)));
    assert SegBit(a) == 1 && SegBit(b) == 1 && SegBit(s[Idx(h)]) == 1 && SegBit(s[Idx(dest)]) == 0;
    MovedForm(s, h, d);
    SegCountTwo(s, Idx(h), a, Idx(dest), b);
  }

  lemma {:induction false} GrowEncoded(s: seq<bv8>, body: seq<Vec>, d: Vec)
    requires Snake(s, body) && IsUnit(d)
    requires Interior(Plus(body[|body| - 1], d)) && Plus(body[|body| - 1], d) !in body
    ensures Chain(body + [Plus(body[|body| - 1], d)])
    ensures Encoded(Moved(s, body[|body| - 1], d), body + [Plus(body[|body| - 1], d)])
  {
    var h := body[|body| - 1];
    var dest := Plus(h, d);
    var t := Moved(s, h, d);
    var b2 := body + [dest];
    ChainAppend(body, dest);
    IdxInjective(h, dest);
    forall k {:trigger t[Idx(b2[k])]} | 0 <= k < |b2| ensures t[Idx(b2[k])] == Enc(b2, k) {
      if k < |body| - 1 {
        MovedElsewhere(s, h, d, b2[k]);
        EncAppend(body, dest, k);
      } else if k == |body| - 1 {
        assert b2[k] == h;
        assert s[Idx(h)] == Enc(body, k);
        EncAppendLast(body, dest);
      } else {
        assert b2[k] == dest;
      }
    }
  }

  lemma {:induction false} GrowRest(s: seq<bv8>, body: seq<Vec>, d: Vec)
    requires Snake(s, body) && WallsIntact(s) && IsUnit(d)
    requires Interior(Plus(body[|body| - 1], d))
    ensures RestFree(Moved(s, body[|body| - 1], d), body + [Plus(body[|body| - 1], d)])
    ensures WallsIntact(Moved(s, body[|body| - 1], d))
  {
    var h := body[|body| - 1];
    var dest := Plus(h, d);
    var t := Moved(s, h, d);
    var b2 := body + [dest];
    forall w {:trigger t[Idx(w)]} | Interior(w) && w !in b2 ensures t[Idx(w)] == 0 || t[Idx(w)] == APPLE {
      MovedElsewhere(s, h, d, w);
    }
    forall w {:trigger t[Idx(w)]} | InGrid(w) && !Interior(w) ensures t[Idx(w)] == WallCell(w) {
      MovedElsewhere(s, h, d, w);
    }
  }

  /**
   * A move onto a cell without SEG extends the snake by that cell, keeps the
   * walls, and adds one SEG cell.
   */
  lemma {:induction false} Grow(s: seq<bv8>, body: seq<Vec>, d: Vec)
    requires Snake(s, body) && WallsIntact(s) && IsUnit(d)
    requires s[Idx(Plus(body[|body| - 1], d))] & SEG == 0
    ensures Snake(Moved(s, body[|body| - 1], d), body + [Plus(body[|body| - 1], d)])
    ensures WallsIntact(Moved(s, body[|body| - 1], d))
    ensures SegCount(Moved(s, body[|body| - 1], d)) == SegCount(s) + 1
  {
    var h := body[|body| - 1];
    FreeDestination(s, body, d);
    GrowEncoded(s, body, d);
    GrowRest(s, body, d);
    assert s[Idx(h)] == Enc(body, |body| - 1);
    MovedCount(s, h, d);
  }

  lemma EncDropFirst(body: seq<Vec>, k: int)
    requires 0 < k < |body| - 1
    ensures Enc(body[1..], k) == Enc(body, k + 1)
  {
  }

  /** The segment after the tail, once its bit back to the tail is cleared. */
  lemma NewTailCell(body: seq<Vec>)
    requires |body| >= 3 && Adjacent(body[0], body[1]) && Adjacent(body[1], body[2]) && body[0] != body[2]
    ensures Enc(body, 1) & !Link(body[1], body[0]) == Enc(body[1..], 0)
  {
    LinkIsBit(body[0], body[1]);
    LinksDiffer(body[1], body[0], body[2]);
  }

  /** Chains are closed under dropping the first position. */
  lemma ChainDropFirst(body: seq<Vec>)
    requires Chain(body) && |body| >= 2
    ensures Chain(body[1..])
  {
  }

  /** Retracted only writes the tail cell and the cell after it. */
  lemma RetractedElsewhere(s: seq<bv8>, t: Vec, t2: Vec, w: Vec)
    requires |s| == N * N && InGrid(t) && InGrid(t2) && InGrid(w)
    requires w != t && w != t2
    ensures Retracted(s, t, t2)[Idx(w)] == s[Idx(w)]
  {
    IdxInjective(w, t);
    IdxInjective(w, t2);
  }

  /**
   * Proof step, not a property of the game: unfolds Retracted into its two
   * cell writes so that a SEG-count proof can name each write.
   */
  lemma RetractedForm(s: seq<bv8>, t: Vec, t2: Vec)
    requires |s| == N * N && InGrid(t) && InGrid(t2)
    ensures Retracted(s, t, t2) == s[Idx(t) := 0][Idx(t2) := s[Idx(t2)] & !Link(t2, t)]
  {
  }

  /** SEG count of a retraction from a SEG cell to another SEG cell. */
  lemma {:induction false} RetractedCount(s: seq<bv8>, t: Vec, t2: Vec)
    requires |s| == N * N && Interior(t) && Adjacent(t, t2)
    requires s[Idx(t)] & SEG != 0 && s[Idx(t2)] & SEG != 0
    ensures SegCount(Retracted(s, t, t2)) == SegCount(s) - 1
  {
    IdxInjective(t, t2);
    assert Link(t2, t) & SEG == 0;
    SegBitOr(s[Idx(t2)], Link(t2, t));
    assert SegBit(s[Idx(t)]) == 1 && SegBit(0) == 0 && SegBit(s[Idx(t2)] & !Link(t2, t)) == SegBit(s[Idx(t2)]) == 1;
    RetractedForm(s, t, t2);
    SegCountTwo(s, Idx(t), 0, Idx(t2), s[Idx(t2)] & !Link(t2, t));
  }

  /** The new tail cell holds the mask of the first segment of the shorter snake. */
  lemma NewTailKept(s: seq<bv8>, body: seq<Vec>)
    requires |s| == N * N && |body| >= 3 && Interior(body[0]) && Interior(body[1])
    requires Adjacent(body[0], body[1]) && Adjacent(body[1], body[2]) && body[0] != body[2]
    requires s[Idx(body[1])] == Enc(body, 1)
    ensures Retracted(s, body[0], body[1])[Idx(body[1])] == Enc(body[1..], 0)
  {
    IdxInjective(body[0], body[1]);
    NewTailCell(body);
  }

  /**
   * A board that agrees with an encoding of `body` beyond its second segment,
   * and holds the new first mask there, encodes `body` without its tail.
   */
  lemma {:induction false} EncodedDropFirst(s: seq<bv8>, t: seq<bv8>, body: seq<Vec>)
    requires |s| == N * N && |t| == N * N && Chain(body) && |body| >= 3 && Encoded(s, body)
    requires t[Idx(body[1])] == Enc(body[1..], 0)
    requires forall k {:trigger body[k]} :: 2 <= k < |body| ==> t[Idx(body[k])] == s[Idx(body[k])]
    ensures Chain(body[1..]) && Encoded(t, body[1..])
  {
    var b2 := body[1..];
    ChainDropFirst(body);
    forall k {:trigger t[Idx(b2[k])]} | 0 <= k < |b2| ensures t[Idx(b2[k])] == Enc(b2, k) {
      assert b2[k] == body[k + 1];
      if 0 < k < |b2| - 1 {
        EncDropFirst(body, k);
      }
    }
  }

  /** The segments after the tail keep their masks once the tail is retracted. */
  lemma {:induction false} RetractEncoded(s: seq<bv8>, body: seq<Vec>)
    requires Snake(s, body) && |body| >= 3
    ensures Chain(body[1..])
    ensures Encoded(Retracted(s, body[0], body[1]), body[1..])
  {
    var t0, t1 := body[0], body[1];
    var t := Retracted(s, t0, t1);
    assert s[Idx(t1)] == Enc(body, 1);
    assert Adjacent(t0, t1) && Adjacent(body[1], body[2]) && body[0] != body[2];
    NewTailKept(s, body);
    forall k {:trigger body[k]} | 2 <= k < |body| ensures t[Idx(body[k])] == s[Idx(body[k])] {
      RetractedElsewhere(s, t0, t1, body[k]);
    }
    EncodedDropFirst(s, t, body);
  }

  /** The rest of the interior stays free and the ring intact once the tail is retracted. */
  lemma {:induction false} RetractRest(s: seq<bv8>, body: seq<Vec>)
    requires Snake(s, body) && WallsIntact(s) && |body| >= 3
    ensures RestFree(Retracted(s, body[0], body[1]), body[1..])
    ensures WallsIntact(Retracted(s, body[0], body[1]))
  {
    var t0, t1 := body[0], body[1];
    var t := Retracted(s, t0, t1);
    var b2 := body[1..];
    forall w {:trigger t[Idx(w)]} | Interior(w) && w !in b2 ensures t[Idx(w)] == 0 || t[Idx(w)] == APPLE {
      if w != t0 {
        RetractedElsewhere(s, t0, t1, w);
        assert w !in body;
      }
    }
    forall w {:trigger t[Idx(w)]} | InGrid(w) && !Interior(w) ensures t[Idx(w)] == WallCell(w) {
      RetractedElsewhere(s, t0, t1, w);
    }
  }

  /**
   * Retracting the tail of a snake of three or more segments drops its first
   * segment, keeps the walls, and removes one SEG cell.
   */
  lemma {:induction false} Retract(s: seq<bv8>, body: seq<Vec>)
    requires Snake(s, body) && WallsIntact(s) && |body| >= 3
    ensures Snake(Retracted(s, body[0], body[1]), body[1..])
    ensures WallsIntact(Retracted(s, body[0], body[1]))
    ensures SegCount(Retracted(s, body[0], body[1])) == SegCount(s) - 1
  {
    var t0, t1 := body[0], body[1];
    RetractEncoded(s, body);
    RetractRest(s, body);
    assert Adjacent(t0, t1);
    assert s[Idx(t0)] == Enc(body, 0);
    assert s[Idx(t1)] == Enc(body, 1);
    RetractedCount(s, t0, t1);
  }

  /**
   * A plain move from the snake `body` in the heading `d`: the head grows
   * onto the free cell in front and the tail retracts by one. The tail cell
   * decodes to the step towards the next segment, and the result is again
   * a snake, one cell further along, with as many SEG cells as before.
   */
  lemma Slide(s: seq<bv8>, body: seq<Vec>, d: Vec)
    requires Snake(s, body) && WallsIntact(s) && IsUnit(d)
    requires s[Idx(Plus(body[|body| - 1], d))] & SEG == 0
    ensures BitmaskToDir(Moved(s, body[|body| - 1], d)[Idx(body[0])]) == Ok(Delta(body[0], body[1]))
    ensures Plus(body[0], Delta(body[0], body[1])) == body[1]
    ensures InGrid(body[1]) && Interior(Plus(body[|body| - 1], d))
    ensures var b := body[1..] + [Plus(body[|body| - 1], d)]; b[0] == body[1] && b[|b| - 1] == Plus(body[|body| - 1], d)
    ensures Snake(Retracted(Moved(s, body[|body| - 1], d), body[0], body[1]), body[1..] + [Plus(body[|body| - 1], d)])
    ensures WallsIntact(Retracted(Moved(s, body[|body| - 1], d), body[0], body[1]))
    ensures SegCount(Retracted(Moved(s, body[|body| - 1], d), body[0], body[1])) == SegCount(s)
  {
    var h := body[|body| - 1];
    var s1, b1 := Moved(s, h, d), body + [Plus(h, d)];
    FreeDestination(s, body, d);
    Grow(s, body, d);
    TailDecodes(s1, b1);
    Retract(s1, b1);
    assert b1[1..] == body[1..] + [Plus(h, d)];
  }

  /**
   * A move onto an apple: the head grows onto the apple's cell and the new
   * apple goes to a cell the move left at 0. The result is the longer
   * snake, with one more SEG cell.
   */
  lemma Feed(s: seq<bv8>, body: seq<Vec>, d: Vec, v: Vec)
    requires Snake(s, body) && WallsIntact(s) && IsUnit(d)
    requires s[Idx(Plus(body[|body| - 1], d))] & SEG == 0
    requires InGrid(v) && Moved(s, body[|body| - 1], d)[Idx(v)] == 0
    ensures Interior(Plus(body[|body| - 1], d))
    ensures var b := body + [Plus(body[|body| - 1], d)]; b[0] == body[0] && b[|b| - 1] == Plus(body[|body| - 1], d)
    ensures Snake(Moved(s, body[|body| - 1], d)[Idx(v) := APPLE], body + [Plus(body[|body| - 1], d)])
    ensures WallsIntact(Moved(s, body[|body| - 1], d)[Idx(v) := APPLE])
    ensures SegCount(Moved(s, body[|body| - 1], d)[Idx(v) := APPLE]) == SegCount(s) + 1
  {
    var h := body[|body| - 1];
    FreeDestination(s, body, d);
    Grow(s, body, d);
    AppleKeepsSnake(Moved(s, h, d), body + [Plus(h, d)], v);
  }

  /**
   * With one apple on the board, a move that does not crash lands on an
   * apple exactly when it lands on that apple: every other free interior
   * cell is 0.
   */
  lemma AppleAhead(s: seq<bv8>, body: seq<Vec>, d: Vec, a: Vec)
    requires Snake(s, body) && WallsIntact(s) && IsUnit(d) && OnlyApple(s, body, a)
    requires s[Idx(Plus(body[|body| - 1], d))] & SEG == 0
    ensures s[Idx(Plus(body[|body| - 1], d))] & APPLE != 0 <==> Plus(body[|body| - 1], d) == a
  {
    FreeDestination(s, body, d);
  }

  /**
   * A plain move keeps the one apple where it was: the cells the move and
   * the retraction write are the old and new head and the old and new
   * tail, none of them the apple, and the old tail cell becomes 0.
   */
  lemma SlideKeepsApple(s: seq<bv8>, body: seq<Vec>, d: Vec, a: Vec)
    requires Snake(s, body) && WallsIntact(s) && IsUnit(d) && OnlyApple(s, body, a)
    requires s[Idx(Plus(body[|body| - 1], d))] & SEG == 0 && s[Idx(Plus(body[|body| - 1], d))] & APPLE == 0
    ensures OnlyApple(Retracted(Moved(s, body[|body| - 1], d), body[0], body[1]), body[1..] + [Plus(body[|body| - 1], d)], a)
  {
    var h, t0, t1 := body[|body| - 1], body[0], body[1];
    var dest := Plus(h, d);
    var m := Moved(s, h, d);
    var r := Retracted(m, t0, t1);
    var b := body[1..] + [dest];
    FreeDestination(s, body, d);
    assert h in body && t0 in body && t1 in body;
    MovedElsewhere(s, h, d, a);
    RetractedElsewhere(m, t0, t1, a);
    assert a !in b;
    IdxInjective(t0, t1);
    assert r[Idx(t0)] == 0;
    forall v {:trigger r[Idx(v)]} | Interior(v) && v !in b && v != a ensures r[Idx(v)] == 0 {
      if v != t0 {
        assert v !in body;
        MovedElsewhere(s, h, d, v);
        RetractedElsewhere(m, t0, t1, v);
      }
    }
  }

  /**
   * A move onto an apple: the apple eaten is the one apple of the board,
   * and the apple placed on a zero cell of the moved board becomes the one
   * apple of the longer snake.
   */
  lemma FeedMovesApple(s: seq<bv8>, body: seq<Vec>, d: Vec, a: Vec, v: Vec)
    requires Snake(s, body) && WallsIntact(s) && IsUnit(d) && OnlyApple(s, body, a)
    requires s[Idx(Plus(body[|body| - 1], d))] & SEG == 0 && s[Idx(Plus(body[|body| - 1], d))] & APPLE != 0
    requires InGrid(v) && Moved(s, body[|body| - 1], d)[Idx(v)] == 0
    ensures Plus(body[|body| - 1], d) == a
    ensures OnlyApple(Moved(s, body[|body| - 1], d)[Idx(v) := APPLE], body + [Plus(body[|body| - 1], d)], v)
  {
    var h := body[|body| - 1];
    var dest := Plus(h, d);
    var m, b := Moved(s, h, d), body + [dest];
    AppleAhead(s, body, d, a);
    Grow(s, body, d);
    AppleKeepsSnake(m, b, v);
    forall w {:trigger m[Idx(w)]} | Interior(w) && w !in b ensures m[Idx(w)] == 0 {
      assert w !in body && w != h;
      MovedElsewhere(s, h, d, w);
    }
    AppleOnEmpty(m, b, v);
  }
}
