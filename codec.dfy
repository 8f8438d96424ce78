/**
 * The per-cell bitmask of the playfield and the two conversions between
 * direction vectors and directional bits (dirToBitmask and bitmaskToDir).
 *
 * The y axis points up: the vector (0, 1) is "up" and maps to BM_TOP.
 */
module Codec {
  import opened Wrappers

  /** A two-element direction or coordinate vector, `[x, y]` in the game. */
  datatype Vec = Vec(x: int, y: int)

  function Plus(a: Vec, b: Vec): Vec { Vec(a.x + b.x, a.y + b.y) }

  /** The cell flags; a Uint8Array cell is a bv8. */
  const TOP: bv8 := 1
  const BOT: bv8 := 2
  const LEFT: bv8 := 4
  const RIGHT: bv8 := 8
  const SEG: bv8 := 16
  const APPLE: bv8 := 32

  const HORIZONTAL: bv8 := LEFT | RIGHT | SEG
  const VERTICAL: bv8 := TOP | BOT | SEG

  /** The four directional bits together. */
  const DIRS: bv8 := TOP | BOT | LEFT | RIGHT

  /** One of the four axis-aligned unit vectors; diagonals and the zero vector are not directions. */
  predicate IsUnit(d: Vec) {
    (d.x == 0 && (d.y == 1 || d.y == -1)) || (d.y == 0 && (d.x == 1 || d.x == -1))
  }

  /** Exactly one directional bit and nothing else. */
  predicate IsDirBit(m: bv8) {
    m == TOP || m == BOT || m == LEFT || m == RIGHT
  }

  /**
   * dirToBitmask: the x component is examined before the y component, so a
   * diagonal such as (1, 1) yields RIGHT; only a vector with no component
   * equal to 1 or -1 raises InvalidDirection.
   */
  function DirToBitmask(dir: Vec): (r: Result<bv8>)
    ensures r.Ok? <==> (dir.x == 1 || dir.x == -1 || dir.y == 1 || dir.y == -1)
    ensures r.Err? ==> r.error == InvalidDirection
    ensures r.Ok? ==> IsDirBit(r.value)
    ensures dir.x == 1 ==> r == Ok(RIGHT)
    ensures dir.x == -1 ==> r == Ok(LEFT)
    ensures dir.x != 1 && dir.x != -1 && dir.y == 1 ==> r == Ok(TOP)
    ensures dir.x != 1 && dir.x != -1 && dir.y == -1 ==> r == Ok(BOT)
    ensures IsUnit(dir) ==> r.Ok? && (r.value == TOP || r.value == BOT <==> dir.x == 0)
  {
    if dir.x == 1 then Ok(RIGHT)
    else if dir.x == -1 then Ok(LEFT)
    else if dir.y == 1 then Ok(TOP)
    else if dir.y == -1 then Ok(BOT)
    else Err(InvalidDirection)
  }

  /** The bit of a direction known to be a unit vector. */
  function Bit(d: Vec): (r: bv8)
    requires IsUnit(d)
    ensures IsDirBit(r) && DirToBitmask(d) == Ok(r)
  {
    DirToBitmask(d).value
  }

  /**
   * bitmaskToDir: the directional bits are examined in the order TOP, BOT,
   * LEFT, RIGHT; the first one found gives the result and is masked off, and
   * the conversion fails if no directional bit was set or one is left over.
   * SEG and APPLE play no part.
   */
  function BitmaskToDir(bitmask: bv8): (r: Result<Vec>)
    ensures r.Ok? <==> IsDirBit(bitmask & DIRS)
    ensures r.Err? ==> r.error == InvalidBitmask
    ensures r.Ok? ==> IsUnit(r.value) && DirToBitmask(r.value) == Ok(bitmask & DIRS)
  {
    var (found, rest) :=
      if bitmask & TOP != 0 then (Some(Vec(0, 1)), bitmask & !TOP)
      else if bitmask & BOT != 0 then (Some(Vec(0, -1)), bitmask & !BOT)
      else if bitmask & LEFT != 0 then (Some(Vec(-1, 0)), bitmask & !LEFT)
      else if bitmask & RIGHT != 0 then (Some(Vec(1, 0)), bitmask & !RIGHT)
      else (None, bitmask);
    if found.None? || rest & DIRS != 0 then Err(InvalidBitmask) else Ok(found.value)
  }

  /** The four entries of the direction table. */
  lemma DirectionTable()
    ensures DirToBitmask(Vec(1, 0)) == Ok(RIGHT)
    ensures DirToBitmask(Vec(-1, 0)) == Ok(LEFT)
    ensures DirToBitmask(Vec(0, 1)) == Ok(TOP)
    ensures DirToBitmask(Vec(0, -1)) == Ok(BOT)
  {
  }

  /**
   * A diagonal takes the bit of its x component: the x test comes first, so
   * the y component of (1, 1) or (-1, -1) is never looked at.
   */
  lemma DiagonalTakesX(dir: Vec)
    requires dir.x == 1 || dir.x == -1
    ensures DirToBitmask(dir) == DirToBitmask(Vec(dir.x, 0))
    ensures DirToBitmask(dir).value == Bit(Vec(dir.x, 0))
  {
  }

  /** Distinct directions have distinct bits, so a bit names its direction. */
  lemma BitInjective(a: Vec, b: Vec)
    requires IsUnit(a) && IsUnit(b)
    ensures Bit(a) == Bit(b) <==> a == b
  {
  }

  /**
   * Round trip: decoding a cell whose only directional bit is that of `d`
   * gives back `d`, whatever SEG and APPLE bits the cell also carries.
   */
  lemma RoundTrip(d: Vec, extra: bv8)
    requires IsUnit(d) && extra & DIRS == 0
    ensures BitmaskToDir(DirToBitmask(d).value | extra) == Ok(d)
  {
    var m := Bit(d) | extra;
    assert m & DIRS == Bit(d);
    BitInjective(BitmaskToDir(m).value, d);
  }

  /** A cell with two directional bits cannot be decoded, whatever they are. */
  lemma TwoBitsFail(a: Vec, b: Vec, extra: bv8)
    requires IsUnit(a) && IsUnit(b) && a != b
    ensures BitmaskToDir(Bit(a) | Bit(b) | extra).Err?
  {
    BitInjective(a, b);
  }
}
