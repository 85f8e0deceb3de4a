/**
 * The slide rule of the player: the direction table, the one-step move check
 * and the reference definition of a slide (the cells it enters, in order, and
 * where it comes to rest), with the properties every slide has.
 */
module Slide {
  import opened Puzzle

  datatype Option<T> = None | Some(value: T)

  /** A cell position; its index in the map is y*width + x. */
  datatype Pos = Pos(x: int, y: int)

  /** The four entries of the direction table, in table order. */
  datatype Direction = Left | Up | Right | Down

  function Dx(d: Direction): int
  {
    match d
    case Left => -1
    case Right => 1
    case _ => 0
  }

  function Dy(d: Direction): int
  {
    match d
    case Up => -1
    case Down => 1
    case _ => 0
  }

  /** The key under which a direction is recorded in the visitation record. */
  function Key(d: Direction): string
  {
    match d
    case Left => "LEFT"
    case Up => "UP"
    case Right => "RIGHT"
    case Down => "DOWN"
  }

  /**
   * The lookup of a (dx, dy) pair in the direction table: the first entry with
   * that offset, or None when no entry has it.
   */
  function DirOf(dx: int, dy: int): (r: Option<Direction>)
    ensures r.Some? <==> (dx, dy) in {(-1, 0), (0, -1), (1, 0), (0, 1)}
    ensures r.Some? ==> Dx(r.value) == dx && Dy(r.value) == dy
  {
    if dx == -1 && dy == 0 then Some(Left)
    else if dx == 0 && dy == -1 then Some(Up)
    else if dx == 1 && dy == 0 then Some(Right)
    else if dx == 0 && dy == 1 then Some(Down)
    else None
  }

  /** Looking up a direction's own offset finds that direction, and distinct directions have distinct keys. */
  lemma DirectionTable(d: Direction, e: Direction)
    ensures DirOf(Dx(d), Dy(d)) == Some(d)
    ensures Key(d) == Key(e) ==> d == e
  {
  }

  /**
   * Which cells were traversed in which directions while the map was carved:
   * cell index to the set of direction keys.
   */
  type Visited = map<int, set<string>>

  predicate Allowed(visited: Visited, index: int, d: Direction)
  {
    index in visited && Key(d) in visited[index]
  }

  // ---------------------------------------------------------------- geometry

  predicate WellFormed(g: Grid)
  {
    |g.cells| == g.width * g.height
  }

  predicate InGrid(g: Grid, p: Pos)
  {
    0 <= p.x < g.width && 0 <= p.y < g.height
  }

  /** Not on the outermost ring of cells. */
  predicate Interior(g: Grid, p: Pos)
  {
    0 < p.x < g.width - 1 && 0 < p.y < g.height - 1
  }

  function Index(g: Grid, p: Pos): int
  {
    p.y * g.width + p.x
  }

  lemma IndexInRange(g: Grid, p: Pos)
    requires WellFormed(g) && InGrid(g, p)
    ensures 0 <= Index(g, p) < |g.cells|
  {
    assert p.y * g.width + g.width <= g.height * g.width by {
      MulLeq(p.y + 1, g.height, g.width);
    }
  }

  lemma MulLeq(a: int, b: int, c: nat)
    requires a <= b
    ensures a * c <= b * c
  {
  }

  function CellAt(g: Grid, p: Pos): CellType
    requires WellFormed(g) && InGrid(g, p)
  {
    IndexInRange(g, p);
    g.cells[Index(g, p)]
  }

  /** Every cell of the outermost ring is a wall. */
  ghost predicate Bordered(g: Grid)
  {
    && WellFormed(g)
    && forall p {:trigger CellAt(g, p)} :: InGrid(g, p) && !Interior(g, p) ==> CellAt(g, p) == Block
  }

  function Next(p: Pos, d: Direction): Pos
  {
    Pos(p.x + Dx(d), p.y + Dy(d))
  }

  /** The position k steps from p in direction d. */
  function Shift(p: Pos, d: Direction, k: int): Pos
  {
    Pos(p.x + k * Dx(d), p.y + k * Dy(d))
  }

  /** Distance from p to the border of the map in direction d. */
  function Room(g: Grid, p: Pos, d: Direction): int
  {
    match d
    case Left => p.x
    case Up => p.y
    case Right => g.width - 1 - p.x
    case Down => g.height - 1 - p.y
  }

  /** A cell next to an interior cell that is not a wall is itself interior, one step closer to the border. */
  lemma EnteredIsInterior(g: Grid, p: Pos, d: Direction)
    requires Bordered(g) && Interior(g, p)
    requires CellAt(g, Next(p, d)) != Block
    ensures Interior(g, Next(p, d))
    ensures Room(g, Next(p, d), d) == Room(g, p, d) - 1
  {
  }

  // ---------------------------------------------------------------- the rule

  /**
   * isValidMove: may a slide from p in direction d enter the neighbouring cell?
   * Not when it is a wall, nor when it is a one-way cell that was never
   * traversed in direction d; any other cell may be entered.
   */
  function IsValidMove(g: Grid, visited: Visited, p: Pos, d: Direction): (ok: bool)
    requires WellFormed(g) && InGrid(g, Next(p, d))
    ensures !ok <==>
      || CellAt(g, Next(p, d)) == Block
      || (CellAt(g, Next(p, d)) == OneWay && !Allowed(visited, Index(g, Next(p, d)), d))
  {
    var cell := CellAt(g, Next(p, d));
    if cell == Block then false
    else if cell == OneWay then Allowed(visited, Index(g, Next(p, d)), d)
    else true
  }

  /**
   * The cells a slide from p in direction d enters, in order: it keeps
   * entering the next cell while that is allowed, and stops right after
   * entering a sticky cell.
   */
  function Path(g: Grid, visited: Visited, p: Pos, d: Direction): (path: seq<Pos>)
    requires Bordered(g) && Interior(g, p)
    ensures |path| > 0 <==> IsValidMove(g, visited, p, d)
    ensures |path| < Room(g, p, d)
    ensures forall k :: 0 <= k < |path| ==> Interior(g, path[k])
    decreases Room(g, p, d)
  {
    if !IsValidMove(g, visited, p, d) then []
    else
      var n := Next(p, d);
      EnteredIsInterior(g, p, d);
      if CellAt(g, n) == Sticky then [n] else [n] + Path(g, visited, n, d)
  }

  /** Where a slide from p in direction d comes to rest. */
  function Final(g: Grid, visited: Visited, p: Pos, d: Direction): (f: Pos)
    requires Bordered(g) && Interior(g, p)
    ensures Interior(g, f)
  {
    var path := Path(g, visited, p, d);
    if path == [] then p else path[|path| - 1]
  }

  // ---------------------------------------------------------------- properties

  /** The k-th cell entered (counting from one) lies k steps from the start. */
  lemma {:induction false} PathIsStraight(g: Grid, visited: Visited, p: Pos, d: Direction)
    requires Bordered(g) && Interior(g, p)
    ensures forall k :: 0 <= k < |Path(g, visited, p, d)| ==>
      Path(g, visited, p, d)[k] == Shift(p, d, k + 1)
    decreases Room(g, p, d)
  {
    var path := Path(g, visited, p, d);
    if path != [] && CellAt(g, Next(p, d)) != Sticky {
      var n := Next(p, d);
      EnteredIsInterior(g, p, d);
      PathIsStraight(g, visited, n, d);
      forall k | 1 <= k < |path|
        ensures path[k] == Shift(p, d, k + 1)
      {
        assert path[k] == Path(g, visited, n, d)[k - 1];
        ShiftNext(p, d, k);
      }
    }
  }

  lemma ShiftNext(p: Pos, d: Direction, k: int)
    ensures Shift(Next(p, d), d, k) == Shift(p, d, k + 1)
  {
    match d
    case Left =>
    case Up =>
    case Right =>
    case Down =>
  }

  /**
   * Every cell a slide enters is an interior cell that is not a wall; a
   * one-way cell is entered only when it was traversed in the slide's
   * direction; a sticky cell is entered only as the last cell.
   */
  lemma {:induction false} PathCells(g: Grid, visited: Visited, p: Pos, d: Direction)
    requires Bordered(g) && Interior(g, p)
    ensures forall k :: 0 <= k < |Path(g, visited, p, d)| ==>
      var q := Path(g, visited, p, d)[k];
      && Interior(g, q)
      && CellAt(g, q) != Block
      && (CellAt(g, q) == OneWay ==> Allowed(visited, Index(g, q), d))
      && (CellAt(g, q) == Sticky ==> k == |Path(g, visited, p, d)| - 1)
    decreases Room(g, p, d)
  {
    var path := Path(g, visited, p, d);
    if path != [] {
      EnteredIsInterior(g, p, d);
      if CellAt(g, Next(p, d)) != Sticky {
        PathCells(g, visited, Next(p, d), d);
        assert forall k :: 1 <= k < |path| ==> path[k] == Path(g, visited, Next(p, d), d)[k - 1];
      }
    }
  }

  /**
   * A slide comes to rest on an interior cell that is not a wall, either
   * right after entering a sticky cell, or in front of a cell it may not
   * enter.
   */
  lemma FinalIsResting(g: Grid, visited: Visited, p: Pos, d: Direction)
    requires Bordered(g) && Interior(g, p)
    ensures var f := Final(g, visited, p, d);
      && Interior(g, f)
      && (f != p ==> CellAt(g, f) != Block)
      && ((|Path(g, visited, p, d)| > 0 && CellAt(g, f) == Sticky) || !IsValidMove(g, visited, f, d))
  {
    var path := Path(g, visited, p, d);
    if path != [] {
      PathCells(g, visited, p, d);
      var f := path[|path| - 1];
      if CellAt(g, f) != Sticky {
        LastBlocked(g, visited, p, d);
      }
    }
  }

  /** When a slide's last cell is not sticky, the slide cannot go on from it. */
  lemma {:induction false} LastBlocked(g: Grid, visited: Visited, p: Pos, d: Direction)
    requires Bordered(g) && Interior(g, p)
    requires Path(g, visited, p, d) != []
    requires CellAt(g, Final(g, visited, p, d)) != Sticky
    ensures Interior(g, Final(g, visited, p, d))
    ensures !IsValidMove(g, visited, Final(g, visited, p, d), d)
    decreases Room(g, p, d)
  {
    var n := Next(p, d);
    FinalStep(g, visited, p, d);
    if CellAt(g, n) != Sticky {
      var f := Final(g, visited, n, d);
      assert Final(g, visited, p, d) == f;
      if Path(g, visited, n, d) == [] {
        assert f == n;
      } else {
        LastBlocked(g, visited, n, d);
      }
    }
  }

  /** A slide whose first move is refused enters nothing and rests where it started. */
  lemma Stopped(g: Grid, visited: Visited, p: Pos, d: Direction)
    requires Bordered(g) && Interior(g, p)
    requires !IsValidMove(g, visited, p, d)
    ensures Path(g, visited, p, d) == [] && Final(g, visited, p, d) == p
  {
  }

  /** One step of a slide: the slide from p enters its neighbour n and, unless n is sticky, goes on as the slide from n. */
  lemma PathStep(g: Grid, visited: Visited, p: Pos, d: Direction)
    requires Bordered(g) && Interior(g, p)
    requires IsValidMove(g, visited, p, d)
    ensures Interior(g, Next(p, d))
    ensures Path(g, visited, p, d) ==
      if CellAt(g, Next(p, d)) == Sticky then [Next(p, d)]
      else [Next(p, d)] + Path(g, visited, Next(p, d), d)
  {
    EnteredIsInterior(g, p, d);
  }

  /** The slide from p rests where the slide from its neighbour n rests, or on n itself when n is sticky. */
  lemma FinalStep(g: Grid, visited: Visited, p: Pos, d: Direction)
    requires Bordered(g) && Interior(g, p)
    requires IsValidMove(g, visited, p, d)
    ensures Interior(g, Next(p, d))
    ensures Final(g, visited, p, d) ==
      if CellAt(g, Next(p, d)) == Sticky then Next(p, d)
      else Final(g, visited, Next(p, d), d)
  {
    PathStep(g, visited, p, d);
    var n := Next(p, d);
    if CellAt(g, n) != Sticky {
      var rest := Path(g, visited, n, d);
      assert Path(g, visited, p, d)[|rest|] == if rest == [] then n else rest[|rest| - 1];
    }
  }

  /**
   * The number of cells a slide enters is the larger coordinate difference
   * between its start and its resting cell, so no movement means the resting
   * cell is the start.
   */
  lemma StepsCountEntries(g: Grid, visited: Visited, p: Pos, d: Direction)
    requires Bordered(g) && Interior(g, p)
    ensures var f := Final(g, visited, p, d);
      Steps(p, f) == |Path(g, visited, p, d)|
    ensures Steps(p, Final(g, visited, p, d)) == 0 <==> Final(g, visited, p, d) == p
  {
    var path := Path(g, visited, p, d);
    if path != [] {
      PathIsStraight(g, visited, p, d);
      assert Final(g, visited, p, d) == Shift(p, d, |path|);
      match d
      case Left =>
      case Up =>
      case Right =>
      case Down =>
    }
  }

  function Abs(n: int): nat
  {
    if n < 0 then -n else n
  }

  /** The number of replay steps between two positions: the larger coordinate difference. */
  function Steps(p: Pos, q: Pos): nat
  {
    var ax, ay := Abs(q.x - p.x), Abs(q.y - p.y);
    if ax < ay then ay else ax
  }

  /** A map whose interior is all empty. */
  ghost predicate OpenField(g: Grid)
    requires WellFormed(g)
  {
    forall p :: InGrid(g, p) && Interior(g, p) ==> CellAt(g, p) == Empty
  }

  /** On an open field a slide runs to the last interior cell before the border. */
  lemma {:induction false} OpenFieldSlide(g: Grid, visited: Visited, p: Pos, d: Direction)
    requires Bordered(g) && OpenField(g) && Interior(g, p)
    ensures |Path(g, visited, p, d)| == Room(g, p, d) - 1
    ensures Final(g, visited, p, d) == Shift(p, d, Room(g, p, d) - 1)
    decreases Room(g, p, d)
  {
    var n := Next(p, d);
    if Interior(g, n) {
      assert CellAt(g, n) == Empty;
      PathStep(g, visited, p, d);
      FinalStep(g, visited, p, d);
      OpenFieldSlide(g, visited, n, d);
      ShiftNext(p, d, Room(g, n, d) - 1);
    } else {
      assert CellAt(g, n) == Block;
      assert Room(g, p, d) == 1 by {
        match d
        case Left =>
        case Up =>
        case Right =>
        case Down =>
      }
    }
  }
}
