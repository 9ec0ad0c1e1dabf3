/**
 * The `Cartographer`: it checks the `^`...`$` delimiters of a route and walks
 * the branching route notation, writing doors, walls and floors into a `Map`.
 *
 * `Walk` states on values what `WalkUntilCurrentPathEnd` does: the marks it
 * writes, in order, the index it stops at and why it stops. The methods are
 * proved to do exactly that; the lemmas below say what the walk guarantees.
 */
module Cartography {
  import opened SparseGrid
  import opened GridMap

  datatype Option<T> = None | Some(value: T)

  /** The two exceptions the cartographer throws. */
  datatype Error = MalformedPath | UnknownCharacter(ch: char)

  datatype Result<T> = Success(value: T) | Failure(error: Error)

  /** `path.StartsWith("^") && path.EndsWith("$")`. */
  predicate Delimited(raw: string)
  {
    |raw| > 0 && raw[0] == '^' && raw[|raw| - 1] == '$'
  }

  /** The constructor's check: strip the two delimiters, or fail. */
  function Strip(raw: string): (r: Result<string>)
    ensures r.Success? <==> Delimited(raw)
    ensures r.Success? ==> "^" + r.value + "$" == raw
    ensures r.Failure? ==> r.error == MalformedPath
  {
    if Delimited(raw) then Success(raw[1..|raw| - 1]) else Failure(MalformedPath)
  }

  /** Stripping undoes wrapping: every interior comes back unchanged. */
  lemma StripWrapped(interior: string)
    ensures Strip("^" + interior + "$") == Success(interior)
  {
    var raw := "^" + interior + "$";
    assert raw[1..|raw| - 1] == interior;
  }

  predicate IsStep(ch: char)
  {
    ch == 'N' || ch == 'S' || ch == 'E' || ch == 'W'
  }

  predicate IsGrammarChar(ch: char)
  {
    IsStep(ch) || ch == '(' || ch == ')' || ch == '|'
  }

  /** The cursor after a step: two cells in the step's direction. */
  function Move(c: Pos, step: char): Pos
    requires IsStep(step)
  {
    if step == 'E' then Pos(c.y, c.x + 2)
    else if step == 'W' then Pos(c.y, c.x - 2)
    else if step == 'N' then Pos(c.y - 2, c.x)
    else Pos(c.y + 2, c.x)
  }

  /** The four writes of one step from cursor `c`, in the order the walker performs them. */
  function StepMarks(c: Pos, step: char): seq<Mark>
    requires IsStep(step)
  {
    if step == 'E' then
      [Mark(Pos(c.y, c.x + 1), Door), Mark(Pos(c.y + 1, c.x + 1), Wall),
       Mark(Pos(c.y - 1, c.x + 1), Wall), Mark(Pos(c.y, c.x + 2), Floor)]
    else if step == 'W' then
      [Mark(Pos(c.y, c.x - 1), Door), Mark(Pos(c.y + 1, c.x - 1), Wall),
       Mark(Pos(c.y - 1, c.x - 1), Wall), Mark(Pos(c.y, c.x - 2), Floor)]
    else if step == 'N' then
      [Mark(Pos(c.y - 1, c.x), Door), Mark(Pos(c.y - 1, c.x + 1), Wall),
       Mark(Pos(c.y - 1, c.x - 1), Wall), Mark(Pos(c.y - 2, c.x), Floor)]
    else
      [Mark(Pos(c.y + 1, c.x), Door), Mark(Pos(c.y + 1, c.x + 1), Wall),
       Mark(Pos(c.y + 1, c.x - 1), Wall), Mark(Pos(c.y + 2, c.x), Floor)]
  }

  function Dist(p: Pos, q: Pos): nat
  {
    (if p.y <= q.y then q.y - p.y else p.y - q.y) + (if p.x <= q.x then q.x - p.x else p.x - q.x)
  }

  /**
   * A step in geometric terms: a door halfway between the old and the new
   * cursor, which are two cells apart; two distinct walls beside the door,
   * each one cell from it and two cells from both cursors; then the floor
   * under the new cursor.
   */
  lemma StepGeometry(c: Pos, step: char)
    requires IsStep(step)
    ensures var ms, n := StepMarks(c, step), Move(c, step);
      && |ms| == 4
      && ms[0].content == Door && ms[1].content == Wall && ms[2].content == Wall
      && ms[3] == Mark(n, Floor)
      && Dist(c, n) == 2 && (c.y == n.y || c.x == n.x)
      && ms[0].at.y + ms[0].at.y == c.y + n.y && ms[0].at.x + ms[0].at.x == c.x + n.x
      && ms[1].at != ms[2].at
      && Dist(ms[1].at, ms[0].at) == 1 && Dist(ms[1].at, c) == 2 && Dist(ms[1].at, n) == 2
      && Dist(ms[2].at, ms[0].at) == 1 && Dist(ms[2].at, c) == 2 && Dist(ms[2].at, n) == 2
  {
  }

  /** Why a walk level stopped. */
  datatype Stop = Closed | EndOfInput | BadChar(ch: char)

  /** The index a walk level stops at, the marks it wrote, and why it stopped. */
  datatype WalkResult = WalkResult(index: nat, marks: seq<Mark>, stop: Stop)

  function Preceded(marks: seq<Mark>, r: WalkResult): WalkResult
  {
    WalkResult(r.index, marks + r.marks, r.stop)
  }

  /**
   * One level of the walker, from index `i`, for a group started at `start`,
   * with the cursor at `cur`: `)` ends the level (consumed), `|` puts the
   * cursor back to `start`, `(` walks a nested level from the cursor and then
   * carries on from the same cursor, a step writes its four marks and moves
   * the cursor, and any other character fails, naming itself.
   */
  function Walk(path: string, i: nat, start: Pos, cur: Pos): (r: WalkResult)
    requires i <= |path|
    ensures i <= r.index <= |path|
    ensures i < |path| ==> i < r.index
    decreases |path| - i
  {
    if i == |path| then WalkResult(i, [], EndOfInput)
    else
      var step := path[i];
      if step == ')' then WalkResult(i + 1, [], Closed)
      else if step == '|' then Walk(path, i + 1, start, start)
      else if step == '(' then
        var group := Walk(path, i + 1, cur, cur);
        if group.stop.BadChar? then group
        else Preceded(group.marks, Walk(path, group.index, start, cur))
      else if IsStep(step) then
        Preceded(StepMarks(cur, step), Walk(path, i + 1, start, Move(cur, step)))
      else WalkResult(i + 1, [], BadChar(step))
  }

  lemma PrecededTwice(a: seq<Mark>, b: seq<Mark>, r: WalkResult)
    ensures Preceded(a, Preceded(b, r)) == Preceded(a + b, r)
  {
    assert a + (b + r.marks) == (a + b) + r.marks;
  }

  function FailureOf(stop: Stop): Option<char>
  {
    if stop.BadChar? then Some(stop.ch) else None
  }

  /** Everything `Explore` writes: the start marker at the origin, then the walk from it. */
  function ExploreMarks(path: string): seq<Mark>
  {
    [Mark(Origin, StartPosition)] + Walk(path, 0, Origin, Origin).marks
  }

  function ExploreError(path: string): Option<Error>
  {
    var stop := Walk(path, 0, Origin, Origin).stop;
    if stop.BadChar? then Some(UnknownCharacter(stop.ch)) else None
  }

  /** The map `Explore` leaves behind when it is given a new map. */
  function Explored(path: string): MapState
  {
    StoreAll(Empty, ExploreMarks(path))
  }

  /**
   * How a level stops: at a `)` it consumed, at the end of the input, or just
   * past a character outside the notation, which it names.
   */
  lemma {:induction false} WalkStops(path: string, i: nat, start: Pos, cur: Pos)
    requires i <= |path|
    ensures var r := Walk(path, i, start, cur);
      && (r.stop == Closed ==> i < r.index && path[r.index - 1] == ')')
      && (r.stop == EndOfInput ==> r.index == |path|)
      && (r.stop.BadChar? ==> i < r.index && path[r.index - 1] == r.stop.ch && !IsGrammarChar(r.stop.ch))
    decreases |path| - i
  {
    if i < |path| {
      var step := path[i];
      if step == '|' {
        WalkStops(path, i + 1, start, start);
      } else if step == '(' {
        var group := Walk(path, i + 1, cur, cur);
        WalkStops(path, i + 1, cur, cur);
        if !group.stop.BadChar? {
          WalkStops(path, group.index, start, cur);
        }
      } else if IsStep(step) {
        WalkStops(path, i + 1, start, Move(cur, step));
      }
    }
  }

  /** A route made only of `N S E W ( ) |` never fails, even with a group left open. */
  lemma WalkAcceptsNotation(path: string, i: nat, start: Pos, cur: Pos)
    requires i <= |path|
    requires forall k :: i <= k < |path| ==> IsGrammarChar(path[k])
    ensures !Walk(path, i, start, cur).stop.BadChar?
  {
    WalkStops(path, i, start, cur);
  }

  /**
   * The converse of `WalkAcceptsNotation`: a level fails at the first
   * character outside the notation it reads. Every character it read before
   * the one it stopped at belongs to `N S E W ( ) |`, and so does that last
   * one unless the level failed on it.
   */
  lemma {:induction false} WalkReadsOnlyNotation(path: string, i: nat, start: Pos, cur: Pos)
    requires i <= |path|
    ensures var r := Walk(path, i, start, cur);
      forall k :: i <= k < r.index - (if r.stop.BadChar? then 1 else 0) ==> IsGrammarChar(path[k])
    decreases |path| - i
  {
    if i < |path| {
      var step := path[i];
      if step == '|' {
        WalkReadsOnlyNotation(path, i + 1, start, start);
      } else if step == '(' {
        var group := Walk(path, i + 1, cur, cur);
        WalkReadsOnlyNotation(path, i + 1, cur, cur);
        if !group.stop.BadChar? {
          WalkReadsOnlyNotation(path, group.index, start, cur);
        }
      } else if IsStep(step) {
        WalkReadsOnlyNotation(path, i + 1, start, Move(cur, step));
      }
    }
  }

  /** `Explore` reports no error if and only if every character its walk read is part of the notation. */
  lemma ExploreFailsOnlyOnBadChar(path: string)
    ensures ExploreError(path) == None <==>
      forall k :: 0 <= k < Walk(path, 0, Origin, Origin).index ==> IsGrammarChar(path[k])
  {
    WalkStops(path, 0, Origin, Origin);
    WalkReadsOnlyNotation(path, 0, Origin, Origin);
  }

  /** What a character adds to the nesting depth: one for `(`, minus one for `)`. */
  function Depth(ch: char): int
  {
    if ch == '(' then 1 else if ch == ')' then -1 else 0
  }

  /** The nesting depth a piece of route ends at: `(`s opened minus `)`s closed. */
  function Net(s: string): int
  {
    if s == [] then 0 else Net(s[..|s| - 1]) + Depth(s[|s| - 1])
  }

  lemma {:induction false} NetAppend(a: string, b: string)
    ensures Net(a + b) == Net(a) + Net(b)
    decreases |b|
  {
    if b != [] {
      var ab := a + b;
      assert ab[..|ab| - 1] == a + b[..|b| - 1];
      assert ab[|ab| - 1] == b[|b| - 1];
      NetAppend(a, b[..|b| - 1]);
    } else {
      assert a + b == a;
    }
  }

  lemma NetSplit(path: string, i: nat, g: nat, j: nat)
    requires i <= g <= j <= |path|
    ensures Net(path[i..j]) == Net(path[i..g]) + Net(path[g..j])
  {
    assert path[i..j] == path[i..g] + path[g..j];
    NetAppend(path[i..g], path[g..j]);
  }

  lemma NetFirst(path: string, i: nat, j: nat)
    requires i < j <= |path|
    ensures Net(path[i..j]) == Depth(path[i]) + Net(path[i + 1..j])
  {
    NetSplit(path, i, i + 1, j);
    var one := path[i..i + 1];
    assert one[..0] == [];
  }

  /**
   * A level ending at `)` stops at the `)` that matches its start: the
   * characters it consumed close one more group than they open.
   */
  lemma {:induction false} WalkClosesMatching(path: string, i: nat, start: Pos, cur: Pos)
    requires i <= |path|
    requires Walk(path, i, start, cur).stop == Closed
    ensures Net(path[i..Walk(path, i, start, cur).index]) == -1
    decreases |path| - i
  {
    var r := Walk(path, i, start, cur);
    var step := path[i];
    NetFirst(path, i, r.index);
    if step == ')' {
      assert path[i + 1..r.index] == [];
    } else if step == '|' {
      WalkClosesMatching(path, i + 1, start, start);
    } else if step == '(' {
      var group := Walk(path, i + 1, cur, cur);
      WalkStops(path, i + 1, cur, cur);
      assert group.stop == Closed;
      WalkClosesMatching(path, i + 1, cur, cur);
      WalkClosesMatching(path, group.index, start, cur);
      NetSplit(path, i + 1, group.index, r.index);
    } else {
      WalkClosesMatching(path, i + 1, start, Move(cur, step));
    }
  }

  /** Every proper prefix of `path[i..e]` opens at least as many groups as it closes. */
  predicate PrefixesOpen(path: string, i: nat, e: nat)
    requires i <= e <= |path|
  {
    forall j :: i <= j < e ==> Net(path[i..j]) >= 0
  }

  lemma PrefixesOpenCons(path: string, i: nat, e: nat)
    requires i < e <= |path| && Depth(path[i]) >= 0 && PrefixesOpen(path, i + 1, e)
    ensures PrefixesOpen(path, i, e)
  {
    forall j | i < j < e ensures Net(path[i..j]) >= 0 {
      NetFirst(path, i, j);
    }
  }

  lemma PrefixesOpenJoin(path: string, i: nat, g: nat, e: nat)
    requires i <= g <= e <= |path| && PrefixesOpen(path, i, g) && PrefixesOpen(path, g, e)
    requires Net(path[i..g]) >= 0
    ensures PrefixesOpen(path, i, e)
  {
    forall j | g <= j < e ensures Net(path[i..j]) >= 0 {
      NetSplit(path, i, g, j);
    }
  }

  /**
   * No `)` before the one a level stops at closes the level: every proper
   * prefix of what the level consumed opens at least as many groups as it closes.
   */
  lemma {:induction false} WalkPrefixesOpen(path: string, i: nat, start: Pos, cur: Pos)
    requires i <= |path|
    ensures PrefixesOpen(path, i, Walk(path, i, start, cur).index)
    decreases |path| - i
  {
    var r := Walk(path, i, start, cur);
    if i < |path| {
      var step := path[i];
      if step == '|' || IsStep(step) {
        var next := if step == '|' then start else Move(cur, step);
        WalkPrefixesOpen(path, i + 1, start, next);
        PrefixesOpenCons(path, i, r.index);
      } else if step == '(' {
        var group := Walk(path, i + 1, cur, cur);
        WalkPrefixesOpen(path, i + 1, cur, cur);
        PrefixesOpenCons(path, i, group.index);
        WalkStops(path, i + 1, cur, cur);
        if group.stop == Closed {
          WalkClosesMatching(path, i + 1, cur, cur);
          NetFirst(path, i, group.index);
          WalkPrefixesOpen(path, group.index, start, cur);
          PrefixesOpenJoin(path, i, group.index, r.index);
        }
      }
    }
  }

  /**
   * A level that stopped at a `)` or at a bad character read nothing beyond
   * the index it stopped at: whatever follows does not change its result.
   */
  lemma {:induction false} WalkIgnoresSuffix(path: string, rest: string, i: nat, start: Pos, cur: Pos)
    requires i <= |path|
    requires Walk(path, i, start, cur).stop != EndOfInput
    ensures Walk(path + rest, i, start, cur) == Walk(path, i, start, cur)
    decreases |path| - i
  {
    var longer := path + rest;
    assert longer[i] == path[i];
    var step := path[i];
    if step == '|' {
      WalkIgnoresSuffix(path, rest, i + 1, start, start);
    } else if step == '(' {
      var group := Walk(path, i + 1, cur, cur);
      WalkStops(path, i + 1, cur, cur);
      WalkIgnoresSuffix(path, rest, i + 1, cur, cur);
      if !group.stop.BadChar? {
        WalkIgnoresSuffix(path, rest, group.index, start, cur);
      }
    } else if IsStep(step) {
      WalkIgnoresSuffix(path, rest, i + 1, start, Move(cur, step));
    }
  }

  /** A stray top-level `)` ends the exploration: nothing after it is read. */
  lemma StrayCloseEndsExplore(path: string, rest: string)
    requires Walk(path, 0, Origin, Origin).stop == Closed
    ensures ExploreMarks(path + rest) == ExploreMarks(path)
    ensures ExploreError(path + rest) == ExploreError(path) == None
  {
    WalkIgnoresSuffix(path, rest, 0, Origin, Origin);
  }

  /**
   * A level reads only what lies ahead of it: two routes with the same
   * remaining text give the same marks and the same stop, and consume the
   * same number of characters.
   */
  lemma {:induction false} WalkSameRest(p: string, j: nat, q: string, i: nat, start: Pos, cur: Pos)
    requires j <= |p| && i <= |q| && p[j..] == q[i..]
    ensures var rp, rq := Walk(p, j, start, cur), Walk(q, i, start, cur);
      rp.marks == rq.marks && rp.stop == rq.stop && rp.index - j == rq.index - i
    decreases |p| - j
  {
    assert |p| - j == |q| - i;
    if j < |p| {
      assert p[j] == p[j..][0] == q[i];
      assert p[j + 1..] == p[j..][1..] == q[i + 1..];
      var step := p[j];
      if step == '|' {
        WalkSameRest(p, j + 1, q, i + 1, start, start);
      } else if step == '(' {
        var gp, gq := Walk(p, j + 1, cur, cur), Walk(q, i + 1, cur, cur);
        WalkSameRest(p, j + 1, q, i + 1, cur, cur);
        if !gp.stop.BadChar? {
          assert p[gp.index..] == p[j + 1..][gp.index - (j + 1)..];
          assert q[gq.index..] == q[i + 1..][gq.index - (i + 1)..];
          WalkSameRest(p, gp.index, q, gq.index, start, cur);
        }
      } else if IsStep(step) {
        WalkSameRest(p, j + 1, q, i + 1, start, Move(cur, step));
      }
    }
  }

  /**
   * A group that closes adds its own marks and nothing else: the caller then
   * walks on from the cursor it had before the group, exactly as if the group
   * had been cut out of the route.
   */
  lemma GroupCutOut(path: string, i: nat, start: Pos, cur: Pos)
    requires i < |path| && path[i] == '(' && Walk(path, i + 1, cur, cur).stop == Closed
    ensures var g := Walk(path, i + 1, cur, cur);
      var cut := path[..i] + path[g.index..];
      && Walk(path, i, start, cur).marks == g.marks + Walk(cut, i, start, cur).marks
      && Walk(path, i, start, cur).stop == Walk(cut, i, start, cur).stop
  {
    var g := Walk(path, i + 1, cur, cur);
    var cut := path[..i] + path[g.index..];
    assert cut[i..] == path[g.index..];
    WalkSameRest(path, g.index, cut, i, start, cur);
  }

  predicate Even(n: int)
  {
    n % 2 == 0
  }

  /** Cells whose both coordinates are even: where rooms (and the cursor) are. */
  predicate RoomCell(p: Pos)
  {
    Even(p.y) && Even(p.x)
  }

  /** Where each kind of content may go: floors on room cells, walls on cells odd in both coordinates, doors in between. */
  predicate WellPlaced(m: Mark)
  {
    match m.content
    case Door => Even(m.at.y) != Even(m.at.x)
    case Wall => !Even(m.at.y) && !Even(m.at.x)
    case Floor => RoomCell(m.at)
    case StartPosition => m.at == Origin
    case Unknown => false
  }

  predicate AllWellPlaced(marks: seq<Mark>)
  {
    forall k :: 0 <= k < |marks| ==> WellPlaced(marks[k])
  }

  lemma StepMarksWellPlaced(c: Pos, step: char)
    requires IsStep(step) && RoomCell(c)
    ensures AllWellPlaced(StepMarks(c, step))
    ensures RoomCell(Move(c, step))
  {
  }

  /** A walk from room cells keeps the cursor on room cells, so every mark it writes is well placed. */
  lemma {:induction false} WalkWellPlaced(path: string, i: nat, start: Pos, cur: Pos)
    requires i <= |path| && RoomCell(start) && RoomCell(cur)
    ensures AllWellPlaced(Walk(path, i, start, cur).marks)
    decreases |path| - i
  {
    if i < |path| {
      var step := path[i];
      if step == '|' {
        WalkWellPlaced(path, i + 1, start, start);
      } else if step == '(' {
        var group := Walk(path, i + 1, cur, cur);
        WalkWellPlaced(path, i + 1, cur, cur);
        if !group.stop.BadChar? {
          WalkWellPlaced(path, group.index, start, cur);
        }
      } else if IsStep(step) {
        StepMarksWellPlaced(cur, step);
        WalkWellPlaced(path, i + 1, start, Move(cur, step));
      }
    }
  }

  /** Two well-placed marks on one cell either agree or are the start marker and a floor at the origin. */
  lemma MarksNeverConflict(m1: Mark, m2: Mark)
    requires WellPlaced(m1) && WellPlaced(m2) && m1.at == m2.at && m1.content != m2.content
    ensures m1.at == Origin
    ensures {m1.content, m2.content} == {StartPosition, Floor}
  {
  }

  /** Every written cell of a map holds content that belongs there. */
  ghost predicate LaidOut(s: MapState)
  {
    forall p :: p in s.cells ==> WellPlaced(Mark(p, s.cells[p]))
  }

  lemma {:induction false} StoreAllLaidOut(s: MapState, marks: seq<Mark>)
    requires LaidOut(s) && AllWellPlaced(marks)
    ensures LaidOut(StoreAll(s, marks))
    decreases |marks|
  {
    if marks != [] {
      var t := Store(s, marks[0].at, marks[0].content);
      assert WellPlaced(marks[0]);
      assert LaidOut(t);
      assert AllWellPlaced(marks[1..]) by {
        forall k | 0 <= k < |marks[1..]| ensures WellPlaced(marks[1..][k]) {
          assert marks[1..][k] == marks[k + 1];
        }
      }
      StoreAllLaidOut(t, marks[1..]);
    }
  }

  /**
   * The layout of an explored map: walls only on cells odd in both
   * coordinates, floors only on room cells, doors in between, and the start
   * marker only at the origin. In particular no wall ever lands on a floor or
   * a door, although the setter overwrites unconditionally.
   */
  lemma ExploredLayout(path: string)
    ensures WellFormed(Explored(path)) && LaidOut(Explored(path))
    ensures forall p :: Read(Explored(path), p) == Wall ==> !Even(p.y) && !Even(p.x)
    ensures forall p :: Read(Explored(path), p) == Floor ==> RoomCell(p)
    ensures forall p :: Read(Explored(path), p) == Door ==> Even(p.y) != Even(p.x)
    ensures forall p :: Read(Explored(path), p) == StartPosition ==> p == Origin
  {
    EmptyIsWellFormed();
    StoreAllKeepsWellFormed(Empty, ExploreMarks(path));
    WalkWellPlaced(path, 0, Origin, Origin);
    var marks := ExploreMarks(path);
    forall k | 0 <= k < |marks| ensures WellPlaced(marks[k]) {
      if k > 0 {
        assert marks[k] == Walk(path, 0, Origin, Origin).marks[k - 1];
      }
    }
    StoreAllLaidOut(Empty, marks);
  }

  class Cartographer {
    const path: string

    /**
     * Keeps an interior that is already stripped; it does not check the
     * delimiters. `Create` is the one that stands for the source's constructor.
     */
    constructor (interior: string)
      ensures path == interior
    {
      path := interior;
    }

    /** The constructor of the source: accept `^`...`$` and keep the interior, or throw. */
    static method Create(raw: string) returns (r: Result<Cartographer>)
      ensures r.Success? <==> Delimited(raw)
      ensures r.Success? ==> fresh(r.value) && "^" + r.value.path + "$" == raw
      ensures r.Failure? ==> r.error == MalformedPath
    {
      match Strip(raw)
      case Success(interior) =>
        var c := new Cartographer(interior);
        r := Success(c);
      case Failure(e) =>
        r := Failure(e);
    }

    /** Write the start marker at the origin, then walk the whole route from there. */
    method Explore(m: Map) returns (error: Option<Error>)
      requires m.Valid()
      modifies m
      ensures m.Valid()
      ensures m.State() == StoreAll(old(m.State()), ExploreMarks(path))
      ensures error == ExploreError(path)
    {
      var stepIndex := 0;
      m.Set(Origin, StartPosition);
      ghost var marked := m.State();
      assert marked == StoreAll(old(m.State()), [Mark(Origin, StartPosition)]);
      var _, failed := WalkUntilCurrentPathEnd(m, stepIndex, Origin);
      StoreAllAppend(old(m.State()), [Mark(Origin, StartPosition)], Walk(path, 0, Origin, Origin).marks);
      error := if failed.Some? then Some(UnknownCharacter(failed.value)) else None;
    }

    /** Walk one level of the route from index `i`, for a group started at `start`. */
    method WalkUntilCurrentPathEnd(m: Map, i: nat, start: Pos) returns (next: nat, failed: Option<char>)
      requires m.Valid() && i <= |path|
      modifies m
      ensures m.Valid()
      ensures next == Walk(path, i, start, start).index
      ensures failed == FailureOf(Walk(path, i, start, start).stop)
      ensures m.State() == StoreAll(old(m.State()), Walk(path, i, start, start).marks)
      decreases |path| - i
    {
      var cur := start;
      next := i;
      failed := None;
      ghost var done: seq<Mark> := [];
      while next < |path|
        invariant i <= next <= |path|
        invariant m.Valid()
        invariant m.State() == StoreAll(old(m.State()), done)
        invariant Walk(path, i, start, start) == Preceded(done, Walk(path, next, start, cur))
        decreases |path| - next
      {
        var step := path[next];
        ghost var rest := Walk(path, next, start, cur);
        next := next + 1;
        if step == ')' {
          assert rest == WalkResult(next, [], Closed);
          assert done + [] == done;
          return;
        }
        if step == '|' {
          assert rest == Walk(path, next, start, start);
          cur := start;
        } else if step == '(' {
          ghost var group := Walk(path, next, cur, cur);
          var after, inner := WalkUntilCurrentPathEnd(m, next, cur);
          StoreAllAppend(old(m.State()), done, group.marks);
          if inner.Some? {
            assert rest == group;
            done := done + group.marks;
            next := after;
            failed := inner;
            return;
          }
          assert rest == Preceded(group.marks, Walk(path, after, start, cur));
          PrecededTwice(done, group.marks, Walk(path, after, start, cur));
          done := done + group.marks;
          next := after;
        } else if IsStep(step) {
          ghost var marks := StepMarks(cur, step);
          ghost var moved := Move(cur, step);
          assert rest == Preceded(marks, Walk(path, next, start, moved));
          PrecededTwice(done, marks, Walk(path, next, start, moved));
          cur := WalkStep(m, cur, step);
          StoreAllAppend(old(m.State()), done, marks);
          done := done + marks;
        } else {
          assert rest == WalkResult(next, [], BadChar(step));
          failed := Some(step);
          assert done + [] == done;
          return;
        }
      }
      assert done + [] == done;
    }

    /** One direction step: a door, the two walls beside it, and the floor two cells on. */
    method WalkStep(m: Map, cur: Pos, step: char) returns (next: Pos)
      requires m.Valid() && IsStep(step)
      modifies m
      ensures m.Valid()
      ensures next == Move(cur, step)
      ensures m.State() == StoreAll(old(m.State()), StepMarks(cur, step))
    {
      if step == 'E' {
        next := Pos(cur.y, cur.x + 2);
        MarkStep(m, Pos(cur.y, cur.x + 1), Pos(cur.y + 1, cur.x + 1), Pos(cur.y - 1, cur.x + 1), next);
      } else if step == 'W' {
        next := Pos(cur.y, cur.x - 2);
        MarkStep(m, Pos(cur.y, cur.x - 1), Pos(cur.y + 1, cur.x - 1), Pos(cur.y - 1, cur.x - 1), next);
      } else if step == 'N' {
        next := Pos(cur.y - 2, cur.x);
        MarkStep(m, Pos(cur.y - 1, cur.x), Pos(cur.y - 1, cur.x + 1), Pos(cur.y - 1, cur.x - 1), next);
      } else {
        next := Pos(cur.y + 2, cur.x);
        MarkStep(m, Pos(cur.y + 1, cur.x), Pos(cur.y + 1, cur.x + 1), Pos(cur.y + 1, cur.x - 1), next);
      }
    }

    /** The four setter calls of a step, in the walker's order. */
    static method MarkStep(m: Map, door: Pos, wall1: Pos, wall2: Pos, floor: Pos)
      requires m.Valid()
      modifies m
      ensures m.Valid()
      ensures m.State() == StoreAll(old(m.State()),
        [Mark(door, Door), Mark(wall1, Wall), Mark(wall2, Wall), Mark(floor, Floor)])
    {
      m.Set(door, Door);
      m.Set(wall1, Wall);
      m.Set(wall2, Wall);
      m.Set(floor, Floor);
      StoreAllFour(old(m.State()), [Mark(door, Door), Mark(wall1, Wall), Mark(wall2, Wall), Mark(floor, Floor)]);
    }
  }
}
