/**
 * The class `Map`: a dictionary from positions to contents with a bounding
 * box that grows on every write, and the two distance queries over it.
 */
module GridMap {
  import opened SparseGrid
  import opened DoorDistance

  class Map {
    var MinY: int
    var MaxY: int
    var MinX: int
    var MaxX: int
    var cells: map<Pos, ContentType>

    /** The value this object holds. */
    function State(): MapState
      reads this
    {
      MapState(cells, Box(MinY, MaxY, MinX, MaxX))
    }

    ghost predicate Valid()
      reads this
    {
      WellFormed(State())
    }

    /** A new map: empty, every bound at its default 0. */
    constructor ()
      ensures Valid() && State() == Empty
    {
      MinY, MaxY, MinX, MaxX := 0, 0, 0, 0;
      cells := map[];
      new;
      EmptyIsWellFormed();
    }

    /** The getter: a position never written reads as `Unknown`. */
    function Get(p: Pos): (c: ContentType)
      reads this
      ensures p !in cells ==> c == Unknown
      ensures p in cells ==> c == cells[p]
      ensures c == Read(State(), p)
    {
      if p in cells then cells[p] else Unknown
    }

    /** The setter: widen the four bounds to include `p`, then overwrite `p` unconditionally. */
    method Set(p: Pos, v: ContentType)
      requires Valid()
      modifies this
      ensures Valid()
      ensures State() == Store(old(State()), p, v)
      ensures Get(p) == v
      ensures forall q :: q != p ==> Get(q) == old(Get(q))
      ensures MinY <= p.y <= MaxY && MinX <= p.x <= MaxX
      ensures MinY <= old(MinY) && old(MaxY) <= MaxY && MinX <= old(MinX) && old(MaxX) <= MaxX
    {
      StoreKeepsWellFormed(State(), p, v);
      MaxX := Max(MaxX, p.x);
      MinX := Min(MinX, p.x);
      MaxY := Max(MaxY, p.y);
      MinY := Min(MinY, p.y);
      cells := cells[p := v];
    }

    /**
     * The first double loop of both distance methods: block every `Wall` or
     * `Unknown` cell of the box and remember the last `StartPosition` cell seen.
     */
    method BuildGrid() returns (grid: Grid, start: GridPos)
      requires Valid()
      ensures grid == GridOf(State())
      ensures grid.width == MaxX - MinX + 1 && grid.height == MaxY - MinY + 1
      ensures forall g :: g in grid.blocked <==> InGrid(State().box, g) && IsBlocked(Get(CellAt(State().box, g)))
      ensures IsLocatedStart(State(), start)
    {
      ghost var s := State();
      var gridXSize := MaxX - MinX + 1;
      var gridYSize := MaxY - MinY + 1;
      var blocked: set<GridPos> := {};
      start := GridPos(0, 0);
      BlockStart(s);
      var y := MinY;
      while y <= MaxY
        invariant MinY <= y <= MaxY + 1
        invariant BlockedAmong(s, blocked, y, MinX)
        invariant StartAmong(s, start, y, MinX)
      {
        var x := MinX;
        while x <= MaxX
          invariant MinX <= x <= MaxX + 1
          invariant BlockedAmong(s, blocked, y, x)
          invariant StartAmong(s, start, y, x)
        {
          var content := Get(Pos(y, x));
          BlockStep(s, blocked, y, x);
          ScanStep(s, start, y, x);
          if content == Wall || content == Unknown {
            blocked := blocked + {GridPos(x - MinX, y - MinY)};
          } else if content == StartPosition {
            start := GridPos(x - MinX, y - MinY);
          }
          x := x + 1;
        }
        BlockRowDone(s, blocked, y);
        ScanRowDone(s, start, y);
        y := y + 1;
      }
      grid := Grid(gridXSize, gridYSize, blocked);
      BlockAllScanned(s, blocked);
      forall g ensures g in blocked <==> InGrid(s.box, g) && IsBlocked(Read(s, CellAt(s.box, g))) {
        BlockedCellsIff(s, g);
      }
    }

    /**
     * The largest number of doors on the path found to any room: the longest
     * path length over all `Floor` cells (0 if there is none), halved.
     */
    method GetLargestNumberOfDoorsToARoom(pathLen: PathLength) returns (doors: nat, ghost start: GridPos)
      requires Valid()
      ensures IsLocatedStart(State(), start)
      ensures forall p :: IsRoom(State(), p) ==> RoomLen(State(), pathLen, start, p) / 2 <= doors
      ensures doors == 0 || exists p :: IsRoom(State(), p) && RoomLen(State(), pathLen, start, p) / 2 == doors
      ensures forall g :: IsLocatedStart(State(), g) ==> g == start
    {
      ghost var s := State();
      var grid, startPosition := BuildGrid();
      start := startPosition;
      var longestPathCost: nat := 0;
      var y := MinY;
      while y <= MaxY
        invariant MinY <= y <= MaxY + 1
        invariant forall p :: IsRoom(s, p) && ScannedBefore(p, y, MinX) ==> RoomLen(s, pathLen, start, p) <= longestPathCost
        invariant longestPathCost == 0 ||
          exists p :: IsRoom(s, p) && ScannedBefore(p, y, MinX) && RoomLen(s, pathLen, start, p) == longestPathCost
      {
        var x := MinX;
        while x <= MaxX
          invariant MinX <= x <= MaxX + 1
          invariant forall p :: IsRoom(s, p) && ScannedBefore(p, y, x) ==> RoomLen(s, pathLen, start, p) <= longestPathCost
          invariant longestPathCost == 0 ||
            exists p :: IsRoom(s, p) && ScannedBefore(p, y, x) && RoomLen(s, pathLen, start, p) == longestPathCost
        {
          var content := Get(Pos(y, x));
          if content == Floor {
            var destinationRoom := GridPos(x - MinX, y - MinY);
            var lengthToRoom := pathLen(grid, startPosition, destinationRoom);
            assert lengthToRoom == RoomLen(s, pathLen, start, Pos(y, x));
            if lengthToRoom > longestPathCost {
              longestPathCost := lengthToRoom;
            }
          }
          x := x + 1;
        }
        y := y + 1;
      }
      doors := longestPathCost / 2;
      forall g | IsLocatedStart(s, g) ensures g == start {
        LocatedStartUnique(s, g, start);
      }
    }

    /** The number of rooms whose path is at least 2 * 1000 steps long. */
    method GetNumberOfRoomsWhichRequiresPassingAtLeast1000Doors(pathLen: PathLength)
      returns (count: nat, ghost start: GridPos)
      requires Valid()
      ensures IsLocatedStart(State(), start)
      ensures count == |FarRooms(State(), pathLen, start)|
      ensures count <= |Rooms(State())|
      ensures forall g :: IsLocatedStart(State(), g) ==> count == |FarRooms(State(), pathLen, g)|
    {
      ghost var s := State();
      var grid, startPosition := BuildGrid();
      start := startPosition;
      var numberOfRoomsFarAway: nat := 0;
      var numberOfStepsToBeFarAway := 1000 * 2;
      var y := MinY;
      while y <= MaxY
        invariant MinY <= y <= MaxY + 1
        invariant numberOfRoomsFarAway == |FarRoomsBefore(s, pathLen, start, y, MinX)|
      {
        var x := MinX;
        while x <= MaxX
          invariant MinX <= x <= MaxX + 1
          invariant numberOfRoomsFarAway == |FarRoomsBefore(s, pathLen, start, y, x)|
        {
          var content := Get(Pos(y, x));
          FarRoomsStep(s, pathLen, start, y, x);
          if content == Floor {
            var destinationRoom := GridPos(x - MinX, y - MinY);
            var lengthToRoom := pathLen(grid, startPosition, destinationRoom);
            assert lengthToRoom == RoomLen(s, pathLen, start, Pos(y, x));
            if lengthToRoom >= numberOfStepsToBeFarAway {
              numberOfRoomsFarAway := numberOfRoomsFarAway + 1;
            }
          }
          x := x + 1;
        }
        FarRoomsRowDone(s, pathLen, start, y);
        y := y + 1;
      }
      FarRoomsAllScanned(s, pathLen, start);
      FarRoomsAreRooms(s, pathLen, start);
      count := numberOfRoomsFarAway;
      forall g | IsLocatedStart(s, g) ensures g == start {
        LocatedStartUnique(s, g, start);
      }
    }
  }
}
