# Regular map (Advent of Code 2018, day 20) in Dafny

This project models the core of `2018/20/Program.cs`. A `Cartographer` takes a
route written in the notation `^ENWWW(NEEE|SSE(EE|N))$`. It walks every branch
of the route and writes what it learns into a `Map`:

- a door between two rooms;
- walls on both sides of that door;
- a floor in each room it reaches;
- the start marker at the origin.

The map is a sparse dictionary from `(y, x)` to a `ContentType`. Its bounding
box grows with every write. The map answers two questions:

- the largest number of doors on the way to any room;
- how many rooms are at least 1000 doors away.

The model has five modules.

- `SparseGrid`: the map's contents as values. `MapState` holds the dictionary and the box. `Store` is one setter call, `StoreAll` a sequence of them. `WellFormed` is the invariant the setter keeps.
- `DoorDistance`: what the two distance methods compute, stated on values. This covers the grid they hand to the path finder, the start position their scan locates, and the rooms they measure. The path finder itself (`RoyT.AStar`) is not part of this model. Its path length is the parameter `pathLen`.
- `GridMap`: the class `Map` with fields `MinY`, `MaxY`, `MinX`, `MaxX` and `cells`. It has the getter, the setter and the two distance methods as nested loops, each proved against `DoorDistance`.
- `Cartography`: the delimiter check, and `Walk`, which states on values what one level of the route walker does. It also has the class `Cartographer`, whose recursive `WalkUntilCurrentPathEnd` is proved to write exactly the marks `Walk` lists, in the same order. This module also proves the layout every explored map has.
- `LostStartMarker`: what happens when a route leads back to the origin (see below).

A few points of the code's behaviour the model keeps as they are:

- The setter overwrites whatever a cell held. Walls never land on floors or doors anyway (`ExploredLayout`, `MarksNeverConflict`). Only the origin's start marker can be overwritten, by a floor.
- A group `(` left open at the end of the input is not an error. The walk just ends there (`WalkAcceptsNotation`).
- The unknown-character error carries the character only, not its index.
- A `)` at the top level ends the whole exploration silently (`StrayCloseEndsExplore`).
- A character outside the notation aborts the walk. Everything written before it stays in the map, which `Explore`'s postcondition states.

## Model

| member | source | states |
|---|---|---|
| SparseGrid.Widen | 2018/20/Program.cs:35-38 | the new bounds contain the written position and the old bounds, and each bound is either unchanged or the written coordinate |
| SparseGrid.EmptyIsWellFormed | 2018/20/Program.cs:13-18 | a new map (bounds all 0, no entries) satisfies the map invariant and reads `Unknown` everywhere |
| SparseGrid.ReadAfterStore | 2018/20/Program.cs:22-40 | after a set, the getter returns the new content at that position and the old content everywhere else |
| SparseGrid.StoreWidens | 2018/20/Program.cs:35-38 | a set only widens the bounds, and they then include the written position |
| SparseGrid.StoreIdempotent | 2018/20/Program.cs:33-40 | setting the same content twice is the same as setting it once |
| SparseGrid.StoreKeepsWellFormed | 2018/20/Program.cs:33-40 | the setter keeps the invariant: the bounds contain the origin and every written position, and each nonzero bound is the coordinate of a written position |
| SparseGrid.StoreAllAppend | 2018/20/Program.cs:33-40 | performing writes `a` then `b` is performing `a + b` |
| SparseGrid.StoreAllKeepsWellFormed | 2018/20/Program.cs:33-40 | any sequence of setter calls keeps the invariant |
| SparseGrid.StoreAllKeepsKeys | 2018/20/Program.cs:39 | a written position is never removed from the dictionary |
| SparseGrid.StoreAllFrame | 2018/20/Program.cs:39 | a position no write touches keeps its content |
| SparseGrid.StoreAllLast | 2018/20/Program.cs:39 | the last write to a position decides its content |
| SparseGrid.StoreAllCovers | 2018/20/Program.cs:35-38 | every written position lies inside the final bounds, which contain the old bounds |
| DoorDistance.OffsetInGrid | 2018/20/Program.cs:76-78 | a cell is inside the box if and only if its offset `(x - MinX, y - MinY)` is inside the `gridXSize` by `gridYSize` grid, and the offset maps back to the cell |
| DoorDistance.BlockedCellsIff | 2018/20/Program.cs:84-87 | a grid position is blocked if and only if it lies in the grid and its cell is `Wall` or `Unknown` |
| DoorDistance.LocatedStartUnique | 2018/20/Program.cs:79-93 | the row-by-row scan locates exactly one start position |
| DoorDistance.FarRoomsAreRooms | 2018/20/Program.cs:139-155 | the rooms counted as far are exactly the rooms with a path of at least 2000 steps, and there are at most as many as rooms |
| DoorDistance.NoFarRoomsWhenAllNear | 2018/20/Program.cs:96-114 | when every room is fewer than 1000 doors away, no room is counted as far |
| DoorDistance.OriginOffset | 2018/20/Program.cs:189 | whenever the origin is inside the box, its grid offset is inside the grid and maps back to the origin |
| DoorDistance.ScanFindsKeptOrigin | 2018/20/Program.cs:79-93 | while the origin holds the only `StartPosition`, the scan locates the origin's offset |
| GridMap.Map.constructor | 2018/20/Program.cs:13-18 | a new map is empty, has all bounds at 0, and satisfies the invariant |
| GridMap.Map.Get | 2018/20/Program.cs:22-31 | the stored content for a written position, `Unknown` for any other |
| GridMap.Map.Set | 2018/20/Program.cs:33-40 | the new state is one `Store`: the position reads back as the new content, every other position is unchanged, and the bounds widen to include the position |
| GridMap.Map.BuildGrid | 2018/20/Program.cs:76-94 | the grid is the box's size, blocks exactly the `Wall`/`Unknown` cells, and the start is the last `StartPosition` in row-major order, or `(0, 0)` if there is none |
| GridMap.Map.GetLargestNumberOfDoorsToARoom | 2018/20/Program.cs:74-115 | path lengths are measured from the one start position the scan locates; the result is at least half the path length of every room, and equals half the path length of some room (or is 0) |
| GridMap.Map.GetNumberOfRoomsWhichRequiresPassingAtLeast1000Doors | 2018/20/Program.cs:117-158 | path lengths are measured from the one start position the scan locates; the result is the number of rooms whose path is at least 2000 steps long, and is at most the number of rooms |
| Cartography.Strip | 2018/20/Program.cs:174-184 | succeeds if and only if the string starts with `^` and ends with `$`; on success, re-wrapping the result gives the input back; on failure, the error is the malformed-path error |
| Cartography.StripWrapped | 2018/20/Program.cs:176-178 | stripping a wrapped interior gives that interior back |
| Cartography.StepGeometry | 2018/20/Program.cs:207-234 | a step writes a door halfway between the old and new cursor, which are two cells apart in one axis; then two distinct walls, each one cell from the door and two from both cursors; then a floor under the new cursor |
| Cartography.Walk | 2018/20/Program.cs:193-239 | a level stops within the input and consumes at least one character when any is left |
| Cartography.WalkStops | 2018/20/Program.cs:197-236 | a level stops just past a `)`, at the end of input, or just past a character outside the notation, which the error names |
| Cartography.WalkReadsOnlyNotation | 2018/20/Program.cs:199-236 | a level fails at the first character outside the notation it reads: every character it read before the one it stopped at is one of N, S, E, W, parentheses and the bar, and so is that one unless the level failed on it |
| Cartography.ExploreFailsOnlyOnBadChar | 2018/20/Program.cs:186-236 | exploring reports no error if and only if every character the walk read belongs to the notation |
| Cartography.WalkClosesMatching | 2018/20/Program.cs:197-206 | a level that stops at `)` stops at the one matching its start: what it consumed closes exactly one more group than it opens |
| Cartography.WalkPrefixesOpen | 2018/20/Program.cs:197-206 | every proper prefix of what a level consumed opens at least as many groups as it closes, so no earlier `)` ends the level |
| Cartography.WalkAcceptsNotation | 2018/20/Program.cs:199-236 | a route made only of the letters N, S, E, W, parentheses and the bar never fails, even with a group left open |
| Cartography.WalkIgnoresSuffix | 2018/20/Program.cs:197 | a level that stopped at `)` or at a bad character reads nothing after it |
| Cartography.StrayCloseEndsExplore | 2018/20/Program.cs:186-197 | after a top-level `)` the marks written, and so the map, and the absence of an error are those of the route up to it: nothing after it is walked or checked |
| Cartography.WalkSameRest | 2018/20/Program.cs:193-239 | a level reads only the text ahead of it: two routes whose remaining text is equal give the same marks and the same stop, and consume the same number of characters |
| Cartography.GroupCutOut | 2018/20/Program.cs:203-205 | a group that closes adds only its own marks; the caller then walks on from the cursor it had before the group, as if the group had been cut out of the route |
| Cartography.StepMarksWellPlaced | 2018/20/Program.cs:207-234 | from a room cell (both coordinates even), a step writes floors on room cells, walls on odd-odd cells and doors between, and moves to a room cell |
| Cartography.WalkWellPlaced | 2018/20/Program.cs:193-239 | every mark a walk writes from room cells is well placed |
| Cartography.MarksNeverConflict | 2018/20/Program.cs:189-234 | two well-placed writes of different content to one cell can only be the start marker and a floor at the origin |
| Cartography.StoreAllLaidOut | 2018/20/Program.cs:33-40 | writing well-placed marks keeps every cell's content in its place |
| Cartography.ExploredLayout | 2018/20/Program.cs:186-239 | an explored map keeps the invariant; walls lie only on odd-odd cells, floors on even-even cells, doors in between, and the start marker only at the origin |
| Cartography.Cartographer.Create | 2018/20/Program.cs:174-184 | a new cartographer exists if and only if the route is delimited, and it keeps the route's interior; otherwise the malformed-path error |
| Cartography.Cartographer.Explore | 2018/20/Program.cs:186-191 | the map becomes the old map plus the start marker at the origin, then every mark of the walk in order; the error is the unknown character the walk stopped at, if any |
| Cartography.Cartographer.WalkUntilCurrentPathEnd | 2018/20/Program.cs:193-239 | the method's index, failure and map writes are exactly those of `Walk` for this level |
| Cartography.Cartographer.WalkStep | 2018/20/Program.cs:207-234 | the cursor moves two cells in the step's direction, and the map receives the step's door, two walls and floor, in that order |
| Cartography.Cartographer.MarkStep | 2018/20/Program.cs:207-234 | the map receives, in order, a door, two walls and a floor at the four given cells, and nothing else |
| LostStartMarker.ExploredOrigin | 2018/20/Program.cs:189 | after exploring, the origin is written, lies in the box and holds `StartPosition` or `Floor` |
| LostStartMarker.LostStartFallsBackToCorner | 2018/20/Program.cs:79-93 | once the origin holds `Floor`, no cell holds `StartPosition` and the scan locates grid position `(0, 0)`, the cell `(MinY, MinX)` |
| LostStartMarker.NorthSouthLosesStart | 2018/20/Program.cs:79-94 | for the route `NS` the path search starts at the blocked, never-written cell `(-2, -1)` instead of the origin |
| LostStartMarker.CorrectedStartIsOrigin | 2018/20/Program.cs:189 | with the origin's offset as start, every explored map starts the search inside the grid, on the origin, on an unblocked cell |
| LostStartMarker.CorrectedAgreesWhenKept | 2018/20/Program.cs:79-93 | while the start marker survives, the corrected start and the scan's start coincide |

## Left out

- `Map.PrintMap` (lines 43-72) only writes to the console; it is not modelled.
- `Program.Main`, `Run` and the sample routes only drive the program and print; they are not modelled.
- The class `Square` is unused by the core and is not modelled.
- The path finder `RoyT.AStar` (`Grid`, `BlockCell`, `GetPath` with lateral movement) is outside the source. Its path length is the parameter `pathLen`, so properties of shortest paths are not modelled.
- GridMap.Map.GetLargestNumberOfDoorsToARoom: only relative to `pathLen`; nothing is assumed about `pathLen` being a shortest lateral path.
- GridMap.Map.GetNumberOfRoomsWhichRequiresPassingAtLeast1000Doors: only relative to `pathLen`, for the same reason.
- `StartsWith("^")` and `EndsWith("$")` are culture-sensitive in .NET; the model compares characters ordinally.
- Exceptions are results: the two exception kinds become `Error` values, and their message text is reduced to the offending character.
- Dafny's `char` is a Unicode scalar value, while C# indexes the route by UTF-16 code unit. The model reads scalar values: for a character outside the Basic Multilingual Plane, such as in `^N😀$`, the source's error names the lone high surrogate, while the model's names the whole character.
- C# `int` is 32 bits. Positions, bounds and path lengths are unbounded integers, so overflow is not modelled.
- Deep nesting can overflow the C# call stack; the model's recursion has no depth limit.

## Findings

| source | as written | input that shows it | evidently intended | confidence | as-written member | corrected member |
|---|---|---|---|---|---|---|
| 2018/20/Program.cs:79-94 | `Explore` writes `StartPosition` at the origin (line 189). A later step ending at the origin overwrites it with `Floor` (line 233, and likewise for the other directions). The scan then finds no start and keeps its default grid position `(0, 0)`, the corner `(MinY, MinX)`. | route `^NS$`: the path search starts at cell `(-2, -1)`, which is never written and is blocked | the path search starts at the origin's grid offset `(-MinX, -MinY)` | not executed; proved on the model | LostStartMarker.NorthSouthLosesStart | DoorDistance.OriginOffset |
