/**
 * What the two distance methods of `Map` compute, stated on values.
 *
 * The methods copy the map's bounding box into the path finder's grid
 * (`RoyT.AStar.Grid`): cell `(y, x)` becomes grid position `(x - MinX, y - MinY)`;
 * a `Wall` or `Unknown` cell is blocked. The path finder itself is not part of
 * this model: its path length is a parameter `pathLen`, 0 when there is no path.
 */
module DoorDistance {
  import opened SparseGrid

  /** A grid position of the path finder: column x, row y, counted from the box's corner. */
  datatype GridPos = GridPos(x: int, y: int)

  /** The path finder's grid: its size and the cells blocked in it. */
  datatype Grid = Grid(width: int, height: int, blocked: set<GridPos>)

  /** The path finder's `GetPath(start, destination).Length` on a grid. */
  type PathLength = (Grid, GridPos, GridPos) -> nat

  /** 1000 doors, each two grid steps away from the next room. */
  const FarSteps: nat := 1000 * 2

  predicate IsBlocked(c: ContentType)
  {
    c == Wall || c == Unknown
  }

  function Offset(b: Box, p: Pos): GridPos
  {
    GridPos(p.x - b.minX, p.y - b.minY)
  }

  function CellAt(b: Box, g: GridPos): Pos
  {
    Pos(g.y + b.minY, g.x + b.minX)
  }

  predicate InGrid(b: Box, g: GridPos)
  {
    0 <= g.x < b.maxX - b.minX + 1 && 0 <= g.y < b.maxY - b.minY + 1
  }

  /** The coordinate offsets of the box's cells lie in `[0, size)`, and they are undone by `CellAt`. */
  lemma OffsetInGrid(b: Box, p: Pos)
    ensures InBox(b, p) <==> InGrid(b, Offset(b, p))
    ensures CellAt(b, Offset(b, p)) == p
    ensures Offset(b, CellAt(b, Offset(b, p))) == Offset(b, p)
  {
  }

  /** The blocked grid positions of a map. */
  ghost function BlockedCells(s: MapState): set<GridPos>
  {
    var b := s.box;
    set gy: int, gx: int | 0 <= gy < b.maxY - b.minY + 1 && 0 <= gx < b.maxX - b.minX + 1
                          && IsBlocked(Read(s, Pos(gy + b.minY, gx + b.minX)))
      :: GridPos(gx, gy)
  }

  /** The grid both distance methods hand to the path finder. */
  ghost function GridOf(s: MapState): Grid
  {
    Grid(s.box.maxX - s.box.minX + 1, s.box.maxY - s.box.minY + 1, BlockedCells(s))
  }

  lemma BlockedCellsIff(s: MapState, g: GridPos)
    ensures g in BlockedCells(s) <==> InGrid(s.box, g) && IsBlocked(Read(s, CellAt(s.box, g)))
  {
    if InGrid(s.box, g) && IsBlocked(Read(s, CellAt(s.box, g))) {
      assert GridPos(g.x, g.y) == g;
    }
  }

  /** `p` comes before `(y, x)` in the methods' row-by-row scan. */
  predicate ScannedBefore(p: Pos, y: int, x: int)
  {
    p.y < y || (p.y == y && p.x < x)
  }

  /** `blocked` holds exactly the blocked cells of the box scanned before `(y, x)`. */
  ghost predicate BlockedAmong(s: MapState, blocked: set<GridPos>, y: int, x: int)
  {
    forall g :: g in blocked <==>
      InGrid(s.box, g) && ScannedBefore(CellAt(s.box, g), y, x) && IsBlocked(Read(s, CellAt(s.box, g)))
  }

  lemma BlockStart(s: MapState)
    ensures BlockedAmong(s, {}, s.box.minY, s.box.minX)
    ensures StartAmong(s, GridPos(0, 0), s.box.minY, s.box.minX)
  {
    assert NoStartBefore(s, s.box.minY, s.box.minX);
  }

  /** One step of the blocking loop, at cell `(y, x)`. */
  lemma BlockStep(s: MapState, blocked: set<GridPos>, y: int, x: int)
    requires InBox(s.box, Pos(y, x)) && BlockedAmong(s, blocked, y, x)
    ensures IsBlocked(Read(s, Pos(y, x))) ==> BlockedAmong(s, blocked + {Offset(s.box, Pos(y, x))}, y, x + 1)
    ensures !IsBlocked(Read(s, Pos(y, x))) ==> BlockedAmong(s, blocked, y, x + 1)
  {
    assert CellAt(s.box, Offset(s.box, Pos(y, x))) == Pos(y, x);
  }

  lemma BlockRowDone(s: MapState, blocked: set<GridPos>, y: int)
    requires BlockedAmong(s, blocked, y, s.box.maxX + 1)
    ensures BlockedAmong(s, blocked, y + 1, s.box.minX)
  {
  }

  lemma BlockAllScanned(s: MapState, blocked: set<GridPos>)
    requires BlockedAmong(s, blocked, s.box.maxY + 1, s.box.minX)
    ensures blocked == BlockedCells(s)
  {
    forall g ensures g in blocked <==> g in BlockedCells(s) {
      BlockedCellsIff(s, g);
    }
  }

  /** `p` comes after `q` in the row-by-row scan. */
  predicate ScannedAfter(p: Pos, q: Pos)
  {
    p.y > q.y || (p.y == q.y && p.x > q.x)
  }

  /**
   * `start` is what the scan holds once it has visited every cell of the box
   * before `(y, x)`: the grid position of the last `StartPosition` cell visited,
   * or the initial `(0, 0)` if none was.
   */
  ghost predicate StartAmong(s: MapState, start: GridPos, y: int, x: int)
  {
    || (start == GridPos(0, 0) && NoStartBefore(s, y, x))
    || LastStartBefore(s, start, y, x)
  }

  /** No `StartPosition` cell of the box comes before `(y, x)`. */
  ghost predicate NoStartBefore(s: MapState, y: int, x: int)
  {
    forall p :: InBox(s.box, p) && ScannedBefore(p, y, x) ==> Read(s, p) != StartPosition
  }

  /** `start` is the offset of the last `StartPosition` cell of the box before `(y, x)`. */
  ghost predicate LastStartBefore(s: MapState, start: GridPos, y: int, x: int)
  {
    var b := s.box;
    && InGrid(b, start) && ScannedBefore(CellAt(b, start), y, x)
    && Read(s, CellAt(b, start)) == StartPosition
    && forall p :: InBox(b, p) && ScannedBefore(p, y, x) && ScannedAfter(p, CellAt(b, start)) ==>
         Read(s, p) != StartPosition
  }

  /** The start position the whole scan locates. */
  ghost predicate IsLocatedStart(s: MapState, start: GridPos)
  {
    StartAmong(s, start, s.box.maxY + 1, s.box.minX)
  }

  /** The scan locates exactly one start position. */
  lemma LocatedStartUnique(s: MapState, g1: GridPos, g2: GridPos)
    requires IsLocatedStart(s, g1) && IsLocatedStart(s, g2)
    ensures g1 == g2
  {
    var b := s.box;
    var y, x := b.maxY + 1, b.minX;
    var c1, c2 := CellAt(b, g1), CellAt(b, g2);
    if InGrid(b, g1) && ScannedBefore(c1, y, x) && Read(s, c1) == StartPosition {
      assert InBox(b, c1);
      if InGrid(b, g2) && ScannedBefore(c2, y, x) && Read(s, c2) == StartPosition {
        assert InBox(b, c2);
        assert Offset(b, c1) == g1 && Offset(b, c2) == g2;
      }
    } else if InGrid(b, g2) && ScannedBefore(c2, y, x) && Read(s, c2) == StartPosition {
      assert InBox(b, c2);
    }
  }

  /** One step of the scan for the start position, at cell `(y, x)`. */
  lemma ScanStep(s: MapState, start: GridPos, y: int, x: int)
    requires InBox(s.box, Pos(y, x)) && StartAmong(s, start, y, x)
    ensures Read(s, Pos(y, x)) == StartPosition ==> StartAmong(s, Offset(s.box, Pos(y, x)), y, x + 1)
    ensures Read(s, Pos(y, x)) != StartPosition ==> StartAmong(s, start, y, x + 1)
  {
    var b, c := s.box, Pos(y, x);
    if Read(s, c) == StartPosition {
      assert CellAt(b, Offset(b, c)) == c;
      assert LastStartBefore(s, Offset(b, c), y, x + 1);
    } else if start == GridPos(0, 0) && NoStartBefore(s, y, x) {
      assert NoStartBefore(s, y, x + 1);
    } else {
      assert LastStartBefore(s, start, y, x + 1);
    }
  }

  /** The end of a row of the scan is the start of the next. */
  lemma ScanRowDone(s: MapState, start: GridPos, y: int)
    requires StartAmong(s, start, y, s.box.maxX + 1)
    ensures StartAmong(s, start, y + 1, s.box.minX)
  {
    var b := s.box;
    if start == GridPos(0, 0) && NoStartBefore(s, y, b.maxX + 1) {
      assert NoStartBefore(s, y + 1, b.minX);
    } else {
      assert LastStartBefore(s, start, y + 1, b.minX);
    }
  }

  /** A room: a `Floor` cell of the box (the start cell is not one). */
  ghost predicate IsRoom(s: MapState, p: Pos)
  {
    InBox(s.box, p) && Read(s, p) == Floor
  }

  /** The path length the path finder reports from `start` to cell `p`. */
  ghost function RoomLen(s: MapState, pathLen: PathLength, start: GridPos, p: Pos): nat
  {
    pathLen(GridOf(s), start, Offset(s.box, p))
  }

  /** The rooms of the map: its written `Floor` cells inside the box. */
  ghost function Rooms(s: MapState): set<Pos>
  {
    set p | p in s.cells && IsRoom(s, p)
  }

  /** The rooms whose path is at least `FarSteps` long. */
  ghost function FarRooms(s: MapState, pathLen: PathLength, start: GridPos): set<Pos>
  {
    set p | p in s.cells && IsRoom(s, p) && RoomLen(s, pathLen, start, p) >= FarSteps
  }

  /** The far rooms scanned before `(y, x)`: what the counting loop has counted so far. */
  ghost function FarRoomsBefore(s: MapState, pathLen: PathLength, start: GridPos, y: int, x: int): set<Pos>
  {
    set p | p in s.cells && IsRoom(s, p) && ScannedBefore(p, y, x) && RoomLen(s, pathLen, start, p) >= FarSteps
  }

  lemma FarRoomsBeforeIff(s: MapState, pathLen: PathLength, start: GridPos, y: int, x: int, p: Pos)
    ensures p in FarRoomsBefore(s, pathLen, start, y, x) <==>
      IsRoom(s, p) && ScannedBefore(p, y, x) && RoomLen(s, pathLen, start, p) >= FarSteps
  {
  }

  /** One step of the counting loop, at cell `(y, x)`. */
  lemma FarRoomsStep(s: MapState, pathLen: PathLength, start: GridPos, y: int, x: int)
    requires InBox(s.box, Pos(y, x))
    ensures |FarRoomsBefore(s, pathLen, start, y, x + 1)| == |FarRoomsBefore(s, pathLen, start, y, x)| +
      (if Read(s, Pos(y, x)) == Floor && RoomLen(s, pathLen, start, Pos(y, x)) >= FarSteps then 1 else 0)
  {
    var before, after := FarRoomsBefore(s, pathLen, start, y, x), FarRoomsBefore(s, pathLen, start, y, x + 1);
    var c := Pos(y, x);
    var far := Read(s, c) == Floor && RoomLen(s, pathLen, start, c) >= FarSteps;
    forall p ensures p in after <==> p in before || (far && p == c) {
      FarRoomsBeforeIff(s, pathLen, start, y, x, p);
      FarRoomsBeforeIff(s, pathLen, start, y, x + 1, p);
    }
    if far {
      assert c !in before by {
        FarRoomsBeforeIff(s, pathLen, start, y, x, c);
      }
      assert after == before + {c};
    } else {
      assert after == before;
    }
  }

  lemma FarRoomsRowDone(s: MapState, pathLen: PathLength, start: GridPos, y: int)
    ensures FarRoomsBefore(s, pathLen, start, y, s.box.maxX + 1) == FarRoomsBefore(s, pathLen, start, y + 1, s.box.minX)
  {
  }

  lemma FarRoomsAllScanned(s: MapState, pathLen: PathLength, start: GridPos)
    ensures FarRoomsBefore(s, pathLen, start, s.box.maxY + 1, s.box.minX) == FarRooms(s, pathLen, start)
  {
  }

  /** The count is bounded by the number of rooms. */
  lemma FarRoomsAreRooms(s: MapState, pathLen: PathLength, start: GridPos)
    ensures FarRooms(s, pathLen, start) <= Rooms(s)
    ensures |FarRooms(s, pathLen, start)| <= |Rooms(s)|
    ensures forall p :: p in FarRooms(s, pathLen, start) <==> IsRoom(s, p) && RoomLen(s, pathLen, start, p) >= FarSteps
  {
    SubsetCardinality(FarRooms(s, pathLen, start), Rooms(s));
  }

  lemma {:induction false} SubsetCardinality<T>(a: set<T>, b: set<T>)
    requires a <= b
    ensures |a| <= |b|
    decreases |a|
  {
    if a != {} {
      var e :| e in a;
      SubsetCardinality(a - {e}, b - {e});
    }
  }

  /**
   * The two methods agree: when the largest door count is below 1000, no room
   * needs at least 1000 doors.
   */
  lemma NoFarRoomsWhenAllNear(s: MapState, pathLen: PathLength, start: GridPos, doors: nat)
    requires forall p :: IsRoom(s, p) ==> RoomLen(s, pathLen, start, p) / 2 <= doors
    requires doors < FarSteps / 2
    ensures FarRooms(s, pathLen, start) == {}
  {
    FarRoomsAreRooms(s, pathLen, start);
  }

  /** Where the path search should start: the offset of the origin cell. */
  function OriginOffset(b: Box): (g: GridPos)
    ensures InBox(b, Origin) ==> InGrid(b, g) && CellAt(b, g) == Origin
  {
    Offset(b, Origin)
  }

  /**
   * While the origin still holds `StartPosition` and no other cell does, the
   * scan locates exactly the origin's offset.
   */
  lemma ScanFindsKeptOrigin(s: MapState)
    requires InBox(s.box, Origin)
    requires Read(s, Origin) == StartPosition
    requires forall p :: p != Origin ==> Read(s, p) != StartPosition
    ensures IsLocatedStart(s, OriginOffset(s.box))
  {
    var b := s.box;
    var g := OriginOffset(b);
    var y, x := b.maxY + 1, b.minX;
    assert InGrid(b, g) && CellAt(b, g) == Origin;
    assert ScannedBefore(CellAt(b, g), y, x) && Read(s, CellAt(b, g)) == StartPosition;
    assert LastStartBefore(s, g, y, x);
  }
}
