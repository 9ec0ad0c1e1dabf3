/**
 * The contents of the facility map and the sparse, growing grid that holds
 * them, as values. The class `GridMap.Map` keeps exactly this state in its
 * fields; every change it makes is described here by `Store` and `StoreAll`.
 */
module SparseGrid {

  /** What a grid cell holds (the enum `ContentType`). */
  datatype ContentType = Unknown | Wall | Door | Floor | StartPosition

  /** A grid coordinate `(y, x)`: y grows southwards, x grows eastwards. */
  datatype Pos = Pos(y: int, x: int)

  const Origin: Pos := Pos(0, 0)

  /** The inclusive bounding box `MinY..MaxY` by `MinX..MaxX`. */
  datatype Box = Box(minY: int, maxY: int, minX: int, maxX: int)

  predicate InBox(b: Box, p: Pos)
  {
    b.minY <= p.y <= b.maxY && b.minX <= p.x <= b.maxX
  }

  /** `Math.Min` and `Math.Max` on ints. */
  function Min(a: int, b: int): int { if a <= b then a else b }
  function Max(a: int, b: int): int { if a <= b then b else a }

  /** The box after the setter has seen position `p`. */
  function Widen(b: Box, p: Pos): (r: Box)
    ensures InBox(r, p)
    ensures r.minY <= b.minY && b.maxY <= r.maxY && r.minX <= b.minX && b.maxX <= r.maxX
    ensures r.minY == b.minY || r.minY == p.y
    ensures r.maxY == b.maxY || r.maxY == p.y
    ensures r.minX == b.minX || r.minX == p.x
    ensures r.maxX == b.maxX || r.maxX == p.x
  {
    Box(Min(b.minY, p.y), Max(b.maxY, p.y), Min(b.minX, p.x), Max(b.maxX, p.x))
  }

  /** The whole state of a map: the dictionary and the four bounds. */
  datatype MapState = MapState(cells: map<Pos, ContentType>, box: Box)

  /** A fresh map: nothing written, all four bounds at their default 0. */
  const Empty: MapState := MapState(map[], Box(0, 0, 0, 0))

  /** One assignment `map[at] = content`. */
  datatype Mark = Mark(at: Pos, content: ContentType)

  /** The getter. */
  function Read(s: MapState, p: Pos): ContentType
  {
    if p in s.cells then s.cells[p] else Unknown
  }

  /** The setter: widen the bounds, then overwrite unconditionally. */
  function Store(s: MapState, p: Pos, v: ContentType): MapState
  {
    MapState(s.cells[p := v], Widen(s.box, p))
  }

  /** The state after performing `marks` in order. */
  function StoreAll(s: MapState, marks: seq<Mark>): MapState
    decreases |marks|
  {
    if marks == [] then s
    else StoreAll(Store(s, marks[0].at, marks[0].content), marks[1..])
  }

  /**
   * The invariant of a map built only through the setter: the bounds contain
   * the origin (they start at 0), contain every written position, and each
   * bound is either still 0 or the coordinate of some written position.
   */
  ghost predicate WellFormed(s: MapState)
  {
    var b := s.box;
    && InBox(b, Origin)
    && (forall p :: p in s.cells ==> InBox(b, p))
    && (b.minY == 0 || exists p :: p in s.cells && p.y == b.minY)
    && (b.maxY == 0 || exists p :: p in s.cells && p.y == b.maxY)
    && (b.minX == 0 || exists p :: p in s.cells && p.x == b.minX)
    && (b.maxX == 0 || exists p :: p in s.cells && p.x == b.maxX)
  }

  lemma EmptyIsWellFormed()
    ensures WellFormed(Empty)
    ensures forall p :: Read(Empty, p) == Unknown
  {
  }

  /** Reading back: the written position holds the new value, every other position is unchanged. */
  lemma ReadAfterStore(s: MapState, p: Pos, v: ContentType, q: Pos)
    ensures Read(Store(s, p, v), q) == (if q == p then v else Read(s, q))
    ensures p in Store(s, p, v).cells
  {
  }

  /** The bounds only widen, and after a write they include the written position. */
  lemma StoreWidens(s: MapState, p: Pos, v: ContentType)
    ensures InBox(Store(s, p, v).box, p)
    ensures forall q :: InBox(s.box, q) ==> InBox(Store(s, p, v).box, q)
  {
  }

  /** Writing the same content twice changes nothing the first write did not. */
  lemma StoreIdempotent(s: MapState, p: Pos, v: ContentType)
    ensures Store(Store(s, p, v), p, v) == Store(s, p, v)
  {
  }

  lemma StoreKeepsWellFormed(s: MapState, p: Pos, v: ContentType)
    requires WellFormed(s)
    ensures WellFormed(Store(s, p, v))
  {
    var t := Store(s, p, v);
    var b, c := s.box, t.box;
    assert p in t.cells;
    forall q | q in t.cells ensures InBox(c, q) {
      if q != p { assert q in s.cells; }
    }
    if c.minY != 0 && c.minY != p.y {
      var w :| w in s.cells && w.y == b.minY;
      assert w in t.cells;
    }
    if c.maxY != 0 && c.maxY != p.y {
      var w :| w in s.cells && w.y == b.maxY;
      assert w in t.cells;
    }
    if c.minX != 0 && c.minX != p.x {
      var w :| w in s.cells && w.x == b.minX;
      assert w in t.cells;
    }
    if c.maxX != 0 && c.maxX != p.x {
      var w :| w in s.cells && w.x == b.maxX;
      assert w in t.cells;
    }
  }

  /** Performing `a` and then `b` is performing `a + b`. */
  lemma {:induction false} StoreAllAppend(s: MapState, a: seq<Mark>, b: seq<Mark>)
    ensures StoreAll(s, a + b) == StoreAll(StoreAll(s, a), b)
    decreases |a|
  {
    if a == [] {
      assert a + b == b;
    } else {
      assert (a + b)[0] == a[0];
      assert (a + b)[1..] == a[1..] + b;
      StoreAllAppend(Store(s, a[0].at, a[0].content), a[1..], b);
    }
  }

  lemma {:induction false} StoreAllKeepsWellFormed(s: MapState, marks: seq<Mark>)
    requires WellFormed(s)
    ensures WellFormed(StoreAll(s, marks))
    decreases |marks|
  {
    if marks != [] {
      StoreKeepsWellFormed(s, marks[0].at, marks[0].content);
      StoreAllKeepsWellFormed(Store(s, marks[0].at, marks[0].content), marks[1..]);
    }
  }

  /** A written position stays written. */
  lemma {:induction false} StoreAllKeepsKeys(s: MapState, marks: seq<Mark>, p: Pos)
    requires p in s.cells
    ensures p in StoreAll(s, marks).cells
    decreases |marks|
  {
    if marks != [] {
      StoreAllKeepsKeys(Store(s, marks[0].at, marks[0].content), marks[1..], p);
    }
  }

  /** A position no mark touches keeps its content. */
  lemma {:induction false} StoreAllFrame(s: MapState, marks: seq<Mark>, q: Pos)
    requires forall k :: 0 <= k < |marks| ==> marks[k].at != q
    ensures Read(StoreAll(s, marks), q) == Read(s, q)
    decreases |marks|
  {
    if marks != [] {
      assert marks[0].at != q;
      forall k | 0 <= k < |marks[1..]| ensures marks[1..][k].at != q {
        assert marks[1..][k] == marks[k + 1];
      }
      StoreAllFrame(Store(s, marks[0].at, marks[0].content), marks[1..], q);
    }
  }

  /** The last write to a position wins. */
  lemma StoreAllLast(s: MapState, marks: seq<Mark>, p: Pos, v: ContentType)
    ensures Read(StoreAll(s, marks + [Mark(p, v)]), p) == v
  {
    StoreAllAppend(s, marks, [Mark(p, v)]);
    assert StoreAll(StoreAll(s, marks), [Mark(p, v)])
        == StoreAll(Store(StoreAll(s, marks), p, v), []);
  }

  /** Four marks performed one after the other. */
  lemma StoreAllFour(s: MapState, marks: seq<Mark>)
    requires |marks| == 4
    ensures StoreAll(s, marks) ==
      Store(Store(Store(Store(s, marks[0].at, marks[0].content),
        marks[1].at, marks[1].content), marks[2].at, marks[2].content), marks[3].at, marks[3].content)
  {
    var t1 := Store(s, marks[0].at, marks[0].content);
    var t2 := Store(t1, marks[1].at, marks[1].content);
    var t3 := Store(t2, marks[2].at, marks[2].content);
    var t4 := Store(t3, marks[3].at, marks[3].content);
    assert marks[1..][0] == marks[1] && marks[1..][1..] == marks[2..];
    assert marks[2..][0] == marks[2] && marks[2..][1..] == marks[3..];
    assert marks[3..][0] == marks[3] && marks[3..][1..] == [];
    calc {
      StoreAll(s, marks);
      StoreAll(t1, marks[1..]);
      StoreAll(t2, marks[2..]);
      StoreAll(t3, marks[3..]);
      StoreAll(t4, []);
    }
  }

  /** Every written position lies inside the final bounds, which contain the old ones. */
  lemma {:induction false} StoreAllCovers(s: MapState, marks: seq<Mark>)
    ensures forall k :: 0 <= k < |marks| ==> InBox(StoreAll(s, marks).box, marks[k].at)
    ensures forall q :: InBox(s.box, q) ==> InBox(StoreAll(s, marks).box, q)
    decreases |marks|
  {
    if marks != [] {
      var t := Store(s, marks[0].at, marks[0].content);
      StoreAllCovers(t, marks[1..]);
      forall k | 1 <= k < |marks| ensures InBox(StoreAll(s, marks).box, marks[k].at) {
        assert marks[k] == marks[1..][k - 1];
      }
    }
  }
}
