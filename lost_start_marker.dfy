/**
 * What happens to the start position when the route leads back to the
 * origin. `Explore` writes `StartPosition` at the origin first, but the
 * setter overwrites unconditionally, so a later step ending at the origin
 * turns it into `Floor`. The distance methods then find no `StartPosition`
 * cell and fall back to grid position `(0, 0)`: the box's north-west corner,
 * which need not be the origin and may be a blocked cell.
 */
module LostStartMarker {
  import opened SparseGrid
  import opened DoorDistance
  import opened Cartography

  /** The origin is written first and never removed, so it always holds `StartPosition` or `Floor`. */
  lemma ExploredOrigin(path: string)
    ensures Origin in Explored(path).cells
    ensures Read(Explored(path), Origin) == StartPosition || Read(Explored(path), Origin) == Floor
    ensures InBox(Explored(path).box, Origin)
  {
    var first := Mark(Origin, StartPosition);
    var walked := Walk(path, 0, Origin, Origin).marks;
    assert ExploreMarks(path)[1..] == walked;
    StoreAllKeepsKeys(Store(Empty, Origin, StartPosition), walked, Origin);
    ExploredLayout(path);
    assert WellPlaced(Mark(Origin, Read(Explored(path), Origin)));
  }

  /**
   * As written: once the start marker has been overwritten, the explored map
   * holds no `StartPosition` cell at all, and the scan locates grid position
   * `(0, 0)`, the cell `(MinY, MinX)`.
   */
  lemma LostStartFallsBackToCorner(path: string, g: GridPos)
    requires Read(Explored(path), Origin) == Floor
    requires IsLocatedStart(Explored(path), g)
    ensures forall p :: Read(Explored(path), p) != StartPosition
    ensures g == GridPos(0, 0)
    ensures CellAt(Explored(path).box, g) == Pos(Explored(path).box.minY, Explored(path).box.minX)
  {
    ExploredLayout(path);
  }

  /** The marks `Explore` writes for the route `NS`: the start marker, a step north and a step back south. */
  lemma NorthSouthMarks()
    ensures ExploreMarks("NS") ==
      [Mark(Origin, StartPosition)] + StepMarks(Origin, 'N') + StepMarks(Pos(-2, 0), 'S')
  {
    var north := StepMarks(Origin, 'N');
    var south := StepMarks(Pos(-2, 0), 'S');
    assert Walk("NS", 2, Origin, Pos(0, 0)) == WalkResult(2, [], EndOfInput);
    assert Walk("NS", 1, Origin, Pos(-2, 0)) == WalkResult(2, south + [], EndOfInput);
    assert Walk("NS", 0, Origin, Origin) == WalkResult(2, north + south, EndOfInput);
  }

  /** The bounds after the route `NS`: rows -2..0, columns -1..1. */
  lemma NorthSouthBox()
    ensures Explored("NS").box == Box(-2, 0, -1, 1)
  {
    NorthSouthMarks();
    var t0 := Store(Empty, Origin, StartPosition);
    var t1 := StoreAll(t0, StepMarks(Origin, 'N'));
    StoreAllFour(t0, StepMarks(Origin, 'N'));
    assert t1.box == Box(-2, 0, -1, 1);
    StoreAllFour(t1, StepMarks(Pos(-2, 0), 'S'));
    assert StoreAll(t1, StepMarks(Pos(-2, 0), 'S')).box == Box(-2, 0, -1, 1);
    var marks := [Mark(Origin, StartPosition)] + StepMarks(Origin, 'N') + StepMarks(Pos(-2, 0), 'S');
    assert marks[1..] == StepMarks(Origin, 'N') + StepMarks(Pos(-2, 0), 'S');
    StoreAllAppend(t0, StepMarks(Origin, 'N'), StepMarks(Pos(-2, 0), 'S'));
  }

  /**
   * The route `NS` walks north and back: the origin ends as `Floor`, and the
   * path search starts at the corner cell `(-2, -1)`, which was never written
   * and is blocked.
   */
  lemma NorthSouthLosesStart()
    ensures Read(Explored("NS"), Origin) == Floor
    ensures forall g :: IsLocatedStart(Explored("NS"), g) ==>
      && g == GridPos(0, 0) && CellAt(Explored("NS").box, g) == Pos(-2, -1)
      && IsBlocked(Read(Explored("NS"), CellAt(Explored("NS").box, g)))
    ensures Read(Explored("NS"), Pos(-2, -1)) == Unknown
  {
    NorthSouthCells();
    NorthSouthBox();
    forall g | IsLocatedStart(Explored("NS"), g)
      ensures g == GridPos(0, 0) && CellAt(Explored("NS").box, g) == Pos(-2, -1)
    {
      LostStartFallsBackToCorner("NS", g);
    }
  }

  /** After the route `NS` the origin holds `Floor` and the corner `(-2, -1)` was never written. */
  lemma NorthSouthCells()
    ensures Read(Explored("NS"), Origin) == Floor
    ensures Read(Explored("NS"), Pos(-2, -1)) == Unknown
  {
    NorthSouthMarks();
    var marks := ExploreMarks("NS");
    assert marks == marks[..8] + [Mark(Origin, Floor)];
    StoreAllLast(Empty, marks[..8], Origin, Floor);
    StoreAllFrame(Empty, marks, Pos(-2, -1));
  }

  /**
   * Corrected: starting the path search at the origin's own offset
   * (`OriginOffset`) always starts it on the cell `Explore` began at, inside
   * the grid and never blocked, whether or not the marker survived.
   */
  lemma CorrectedStartIsOrigin(path: string)
    ensures var b := Explored(path).box;
      && InGrid(b, OriginOffset(b)) && CellAt(b, OriginOffset(b)) == Origin
      && !IsBlocked(Read(Explored(path), CellAt(b, OriginOffset(b))))
  {
    ExploredOrigin(path);
  }

  /** Corrected and as written agree exactly while the marker survives. */
  lemma CorrectedAgreesWhenKept(path: string)
    requires Read(Explored(path), Origin) == StartPosition
    ensures IsLocatedStart(Explored(path), OriginOffset(Explored(path).box))
  {
    ExploredOrigin(path);
    ExploredLayout(path);
    ScanFindsKeptOrigin(Explored(path));
  }
}
