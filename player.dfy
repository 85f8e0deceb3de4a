/**
 * The player: its position on the map and the two ways it moves, one cell at
 * a time (animateMove) or by first finding the destination and then replaying
 * the cells up to it (smoothMove). Both follow the slide rule of module Slide.
 *
 * The map and the visitation record are read through a callback in the
 * program; here they are parameters. Each move returns `trace`, the
 * successive values given to `position`, which is what the renderer observes.
 */
module Player {
  import opened Puzzle
  import opened Slide

  class Player {
    var position: Option<Pos>

    /** A new player has no position yet. */
    constructor ()
      ensures position == None
    {
      position := None;
    }

    /** reset: the player is placed on the map's start position. */
    method Reset(startPos: Pos)
      modifies this
      ensures position == Some(startPos)
    {
      position := Some(startPos);
    }

    /**
     * animateMove: slide one cell at a time, updating the position after
     * every cell entered, until the next cell may not be entered or a sticky
     * cell has just been entered.
     */
    method AnimateMove(g: Grid, visited: Visited, dx: int, dy: int) returns (trace: seq<Pos>)
      requires Bordered(g) && position.Some? && Interior(g, position.value)
      requires DirOf(dx, dy).Some?
      modifies this
      ensures trace == Path(g, visited, old(position).value, DirOf(dx, dy).value)
      ensures position == Some(Final(g, visited, old(position).value, DirOf(dx, dy).value))
    {
      var d := DirOf(dx, dy).value;
      var start := position.value;
      var x, y := start.x, start.y;
      trace := [];
      while true
        invariant Interior(g, Pos(x, y))
        invariant position == Some(Pos(x, y))
        invariant Entered(g, visited, start, d, trace, Pos(x, y))
        decreases Room(g, Pos(x, y), d)
      {
        var nx, ny := x + dx, y + dy;
        var next := Pos(nx, ny);
        assert next == Next(Pos(x, y), d);
        var cell := CellAt(g, next);
        if cell == Block {
          Halt(g, visited, start, d, trace, Pos(x, y));
          break;
        }
        if cell == OneWay {
          var allowed := Allowed(visited, Index(g, next), d);
          if !allowed {
            Halt(g, visited, start, d, trace, Pos(x, y));
            break;
          }
        }
        if cell == Sticky {
          EnterSticky(g, visited, start, d, trace, Pos(x, y));
        } else {
          Advance(g, visited, start, d, trace, Pos(x, y));
        }
        x, y := nx, ny;
        position := Some(Pos(x, y));
        trace := trace + [Pos(x, y)];
        if cell == Sticky {
          break;
        }
      }
    }

    /**
     * smoothMove: find where the slide comes to rest, then move the position
     * through the cells x + dx*step, y + dy*step for step = 1 .. steps, where
     * steps is the larger coordinate difference to the destination; when
     * steps is zero the position is left as it is.
     */
    method SmoothMove(g: Grid, visited: Visited, dx: int, dy: int) returns (trace: seq<Pos>)
      requires Bordered(g) && position.Some? && Interior(g, position.value)
      requires DirOf(dx, dy).Some?
      modifies this
      ensures trace == Path(g, visited, old(position).value, DirOf(dx, dy).value)
      ensures position == Some(Final(g, visited, old(position).value, DirOf(dx, dy).value))
    {
      var d := DirOf(dx, dy).value;
      var start := position.value;
      var x, y := start.x, start.y;
      var target := FindDestination(g, visited, start, d);
      var steps := Steps(start, target);
      StepsCountEntries(g, visited, start, d);
      PathIsStraight(g, visited, start, d);
      trace := [];
      if steps == 0 {
        return;
      }
      ghost var path := Path(g, visited, start, d);
      for step := 1 to steps + 1
        invariant trace == path[..step - 1]
        invariant position == Some(if step == 1 then start else path[step - 2])
      {
        var nx, ny := x + dx * step, y + dy * step;
        assert Pos(nx, ny) == path[step - 1];
        position := Some(Pos(nx, ny));
        trace := trace + [Pos(nx, ny)];
      }
      assert trace == path;
    }

    /**
     * The destination search of smoothMove: from p, keep entering the next
     * cell while that is allowed, stopping right after a sticky cell; the
     * result is where the slide comes to rest.
     */
    static method FindDestination(g: Grid, visited: Visited, p: Pos, d: Direction) returns (t: Pos)
      requires Bordered(g) && Interior(g, p)
      ensures t == Final(g, visited, p, d)
    {
      var tx, ty := p.x, p.y;
      while true
        invariant Interior(g, Pos(tx, ty))
        invariant Final(g, visited, Pos(tx, ty), d) == Final(g, visited, p, d)
        decreases Room(g, Pos(tx, ty), d)
      {
        var next := Pos(tx + Dx(d), ty + Dy(d));
        var cell := CellAt(g, next);
        if cell == Block {
          Stopped(g, visited, Pos(tx, ty), d);
          break;
        }
        if cell == OneWay {
          var allowed := Allowed(visited, Index(g, next), d);
          if !allowed {
            Stopped(g, visited, Pos(tx, ty), d);
            break;
          }
        }
        FinalStep(g, visited, Pos(tx, ty), d);
        assert next == Next(Pos(tx, ty), d);
        tx, ty := next.x, next.y;
        if cell == Sticky {
          break;
        }
      }
      t := Pos(tx, ty);
    }
  }
  /**
   * The loop state of animateMove: `trace` holds the cells entered so far on
   * the slide from `start`, and the slide from `cur` enters the rest of them
   * and comes to rest on the same cell.
   */
  ghost predicate Entered(g: Grid, visited: Visited, start: Pos, d: Direction, trace: seq<Pos>, cur: Pos)
    requires Bordered(g) && Interior(g, start) && Interior(g, cur)
  {
    && trace + Path(g, visited, cur, d) == Path(g, visited, start, d)
    && Final(g, visited, cur, d) == Final(g, visited, start, d)
  }

  /** When the next cell may not be entered, the cells entered so far are the whole slide. */
  lemma Halt(g: Grid, visited: Visited, start: Pos, d: Direction, trace: seq<Pos>, cur: Pos)
    requires Bordered(g) && Interior(g, start) && Interior(g, cur)
    requires Entered(g, visited, start, d, trace, cur)
    requires !IsValidMove(g, visited, cur, d)
    ensures trace == Path(g, visited, start, d) && cur == Final(g, visited, start, d)
  {
    Stopped(g, visited, cur, d);
  }

  /** Entering a sticky next cell completes the slide. */
  lemma EnterSticky(g: Grid, visited: Visited, start: Pos, d: Direction, trace: seq<Pos>, cur: Pos)
    requires Bordered(g) && Interior(g, start) && Interior(g, cur)
    requires Entered(g, visited, start, d, trace, cur)
    requires IsValidMove(g, visited, cur, d) && CellAt(g, Next(cur, d)) == Sticky
    ensures trace + [Next(cur, d)] == Path(g, visited, start, d)
    ensures Next(cur, d) == Final(g, visited, start, d)
  {
    PathStep(g, visited, cur, d);
    FinalStep(g, visited, cur, d);
  }

  /** Entering a next cell that is not sticky extends the cells entered, and the loop state holds from there. */
  lemma Advance(g: Grid, visited: Visited, start: Pos, d: Direction, trace: seq<Pos>, cur: Pos)
    requires Bordered(g) && Interior(g, start) && Interior(g, cur)
    requires Entered(g, visited, start, d, trace, cur)
    requires IsValidMove(g, visited, cur, d) && CellAt(g, Next(cur, d)) != Sticky
    ensures Interior(g, Next(cur, d))
    ensures Room(g, Next(cur, d), d) < Room(g, cur, d)
    ensures Entered(g, visited, start, d, trace + [Next(cur, d)], Next(cur, d))
  {
    var n := Next(cur, d);
    EnteredIsInterior(g, cur, d);
    PathStep(g, visited, cur, d);
    FinalStep(g, visited, cur, d);
    assert trace + Path(g, visited, cur, d) == (trace + [n]) + Path(g, visited, n, d);
  }
}
