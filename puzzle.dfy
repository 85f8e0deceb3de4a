/**
 * The map builder: the cell-type enumeration and `createPuzzle`, which
 * allocates a width*height map filled with EMPTY and then decides every cell
 * from one or two random draws.
 */
module Puzzle {

  /**
   * The cell types a map can hold.
   *
   * The enumeration exported by puzzle.js lists only EMPTY, BLOCK and SPECIAL,
   * yet the slide rules in player.js compare cells against ONEWAY and STICKY,
   * which that enumeration does not define (in the program both read as an
   * undefined property). The model gives them their evident meaning: two
   * further cell types, distinct from each other and from the other three.
   */
  datatype CellType = Empty | Block | Special | OneWay | Sticky

  /** A map: its dimensions and its cells, laid out row by row (index y*width + x). */
  datatype Grid = Grid(width: nat, height: nat, cells: seq<CellType>)

  /**
   * The outcomes of successive calls to the random number generator: draws(k)
   * holds when the k-th call returned a number below the threshold of the test
   * that consumed it (0.2 for a wall, 0.05 for a special cell).
   */
  type Draws = nat -> bool

  /** The type given to one cell whose first draw is draws(k). */
  function Decide(draws: Draws, k: nat): (c: CellType)
    ensures c == Empty || c == Block || c == Special
  {
    if draws(k) then Block
    else if draws(k + 1) then Special
    else Empty
  }

  /** How many draws one cell whose first draw is draws(k) consumes. */
  function Cost(draws: Draws, k: nat): nat
  {
    if draws(k) then 1 else 2
  }

  /**
   * The position in the draw stream at which cell i is decided: the number of
   * draws consumed by cells 0 .. i-1. Every cell consumes one or two draws.
   */
  function Cursor(draws: Draws, i: nat): nat
  {
    if i == 0 then 0 else Cursor(draws, i - 1) + Cost(draws, Cursor(draws, i - 1))
  }

  /** Every cell consumes one or two draws, so cell i is decided at a draw between i and 2i. */
  lemma {:induction false} CursorBounds(draws: Draws, i: nat)
    ensures i <= Cursor(draws, i) <= 2 * i
  {
    if i > 0 {
      CursorBounds(draws, i - 1);
    }
  }

  /** The first n cells the builder produces from a draw stream, cell i decided at its own cursor. */
  function Cells(draws: Draws, n: nat): (cells: seq<CellType>)
    ensures |cells| == n
    ensures forall i {:trigger cells[i]} :: 0 <= i < n ==> cells[i] == Decide(draws, Cursor(draws, i))
  {
    if n == 0 then [] else Cells(draws, n - 1) + [Decide(draws, Cursor(draws, n - 1))]
  }

  /**
   * createPuzzle: a width*height map filled with Empty, whose cell i then
   * becomes Block when its first draw succeeds, or else Special when its second
   * draw succeeds; cells are decided in index order and draws are consumed in
   * the order they are made.
   */
  method CreatePuzzle(width: nat, height: nat, draws: Draws) returns (m: Grid)
    ensures m.width == width && m.height == height
    ensures |m.cells| == width * height
    ensures m.cells == Cells(draws, width * height)
  {
    var n := width * height;
    var cells := new CellType[n](_ => Empty);
    var k: nat := 0;  // number of draws made so far
    for i := 0 to n
      invariant k == Cursor(draws, i)
      invariant forall j {:trigger cells[j]} :: 0 <= j < i ==> cells[j] == Decide(draws, Cursor(draws, j))
      invariant forall j :: i <= j < n ==> cells[j] == Empty
    {
      assert Cursor(draws, i + 1) == k + Cost(draws, k);
      ghost var decided := Decide(draws, k);
      var wall := draws(k);
      k := k + 1;
      if wall {
        cells[i] := Block;
        assert cells[i] == decided;
        continue;
      }
      var special := draws(k);
      k := k + 1;
      if special {
        cells[i] := Special;
        assert cells[i] == decided;
        continue;
      }
      assert cells[i] == decided;
    }
    IsCells(cells[..], draws, n);
    m := Grid(width, height, cells[..]);
  }

  /** A sequence whose every cell is decided from its own cursor is the reference cell sequence. */
  lemma IsCells(s: seq<CellType>, draws: Draws, n: nat)
    requires |s| == n
    requires forall j :: 0 <= j < n ==> s[j] == Decide(draws, Cursor(draws, j))
    ensures s == Cells(draws, n)
  {
  }

  /**
   * The rule for one cell of the result: it is Block exactly when its first
   * draw succeeds, Special exactly when its first draw fails and its second
   * succeeds, Empty otherwise; a Block cell consumes one draw, any other two.
   */
  lemma CellRule(draws: Draws, n: nat, i: nat)
    requires i < n
    ensures Cells(draws, n)[i] == Block <==> draws(Cursor(draws, i))
    ensures Cells(draws, n)[i] == Special <==> !draws(Cursor(draws, i)) && draws(Cursor(draws, i) + 1)
    ensures Cells(draws, n)[i] == Empty <==> !draws(Cursor(draws, i)) && !draws(Cursor(draws, i) + 1)
    ensures Cursor(draws, i + 1) == Cursor(draws, i) + (if Cells(draws, n)[i] == Block then 1 else 2)
  {
  }

  /** The number of cells of a sequence that are not Block. */
  function NonBlocks(cells: seq<CellType>): nat
  {
    if cells == [] then 0
    else NonBlocks(cells[..|cells| - 1]) + (if cells[|cells| - 1] == Block then 0 else 1)
  }

  /**
   * Building n cells consumes exactly one draw per cell plus one more for each
   * cell that did not become a wall.
   */
  lemma {:induction false} DrawsConsumed(draws: Draws, n: nat)
    ensures Cursor(draws, n) == n + NonBlocks(Cells(draws, n))
  {
    if n == 0 {
      assert Cells(draws, 0) == [];
    } else {
      DrawsConsumed(draws, n - 1);
      var c := Cursor(draws, n - 1);
      var prefix, last := Cells(draws, n - 1), Decide(draws, c);
      assert Cells(draws, n) == prefix + [last];
      NonBlocksSnoc(prefix, last);
      assert Cursor(draws, n) == c + Cost(draws, c);
      assert (last == Block) == draws(c);
    }
  }

  lemma NonBlocksSnoc(s: seq<CellType>, c: CellType)
    ensures NonBlocks(s + [c]) == NonBlocks(s) + (if c == Block then 0 else 1)
  {
    assert (s + [c])[..|s|] == s;
  }

  /**
   * The first n cells depend only on the first 2n draws: two draw streams that
   * agree there build the same n cells (in particular, no later draw can change
   * an earlier cell).
   */
  lemma {:induction false} PrefixDeterminesCells(d1: Draws, d2: Draws, n: nat)
    requires forall k :: 0 <= k < 2 * n ==> d1(k) == d2(k)
    ensures Cells(d1, n) == Cells(d2, n)
  {
    forall i | 0 <= i < n
      ensures Cells(d1, n)[i] == Cells(d2, n)[i]
    {
      CursorAgrees(d1, d2, n, i);
      CursorBounds(d1, i);
      var k := Cursor(d1, i);
      assert d1(k) == d2(k) && d1(k + 1) == d2(k + 1);
    }
  }

  /** Helper: while the streams agree on the first 2n draws, so do the cursors of cells up to n. */
  lemma {:induction false} CursorAgrees(d1: Draws, d2: Draws, n: nat, i: nat)
    requires i <= n
    requires forall k :: 0 <= k < 2 * n ==> d1(k) == d2(k)
    ensures Cursor(d1, i) == Cursor(d2, i)
  {
    if i > 0 {
      CursorAgrees(d1, d2, n, i - 1);
      CursorBounds(d1, i - 1);
    }
  }
}
