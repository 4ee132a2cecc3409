/** The board of src/components/Grid.tsx: serpentine numbering of the cells,
    ladder markers and the players shown on each cell. */
module Grid {
  import opened Models
  import opened Text
  import Ladders

  /** GAMEBOARD_SIZE = n and ROW_LENGTH = l: the rows are whole. */
  predicate ValidDims(n: int, l: int) {
    0 < l && 0 < n && n % l == 0
  }

  /** q*l + c determines q and c when 0 <= c < l. */
  lemma DivModUnique(q1: int, c1: int, q2: int, c2: int, l: int)
    requires 0 < l && 0 <= c1 < l && 0 <= c2 < l && 0 <= q1 && 0 <= q2
    requires q1 * l + c1 == q2 * l + c2
    ensures q1 == q2 && c1 == c2
  {
    if q1 < q2 {
      assert (q1 + 1) * l <= q2 * l by { MulMono(q1 + 1, q2, l); }
      assert false;
    } else if q2 < q1 {
      assert (q2 + 1) * l <= q1 * l by { MulMono(q2 + 1, q1, l); }
      assert false;
    }
  }

  lemma MulMono(a: int, b: int, l: int)
    requires a <= b && 0 < l
    ensures a * l <= b * l
  {
    assert (b - a) * l >= 0;
    assert b * l - a * l == (b - a) * l;
  }

  /** The row counted from the bottom of the board that display row `row` shows. */
  function AdjustedRow(row: int, n: int, l: int): int
    requires ValidDims(n, l)
  {
    n / l - 1 - row
  }

  /** The number written on the cell at display row `row` (0 = top) and column `col`. */
  function CellPosition(row: int, col: int, n: int, l: int): (pos: int)
    requires ValidDims(n, l) && 0 <= row < n / l && 0 <= col < l
    ensures 1 <= pos <= n
  {
    var adjustedRow := AdjustedRow(row, n, l);
    MulMono(adjustedRow + 1, n / l, l);
    if adjustedRow % 2 == 0 then adjustedRow * l + col + 1
    else adjustedRow * l + ((l - 1) - col) + 1
  }

  /** The cell showing position `pos`: the inverse of `CellPosition`. */
  function CellOf(pos: int, n: int, l: int): (rc: (int, int))
    requires ValidDims(n, l) && 1 <= pos <= n
    ensures 0 <= rc.0 < n / l && 0 <= rc.1 < l
    ensures CellPosition(rc.0, rc.1, n, l) == pos
  {
    var adjustedRow := (pos - 1) / l;
    var offset := (pos - 1) % l;
    assert adjustedRow < n / l by {
      if adjustedRow >= n / l {
        MulMono(n / l, adjustedRow, l);
      }
    }
    (n / l - 1 - adjustedRow, if adjustedRow % 2 == 0 then offset else l - 1 - offset)
  }

  /** No position is written on two cells; with `CellOf`, the numbering is a
      bijection from the cells onto 1..n. */
  lemma CellPositionInjective(r1: int, c1: int, r2: int, c2: int, n: int, l: int)
    requires ValidDims(n, l)
    requires 0 <= r1 < n / l && 0 <= c1 < l && 0 <= r2 < n / l && 0 <= c2 < l
    requires CellPosition(r1, c1, n, l) == CellPosition(r2, c2, n, l)
    ensures r1 == r2 && c1 == c2
  {
    var a1, a2 := AdjustedRow(r1, n, l), AdjustedRow(r2, n, l);
    var o1 := if a1 % 2 == 0 then c1 else l - 1 - c1;
    var o2 := if a2 % 2 == 0 then c2 else l - 1 - c2;
    DivModUnique(a1, o1, a2, o2, l);
  }

  /** Rows alternate direction: positions grow to the right on even adjusted
      rows and to the left on odd ones. */
  lemma RowDirection(row: int, col: int, n: int, l: int)
    requires ValidDims(n, l) && 0 <= row < n / l && 0 <= col < l - 1
    ensures AdjustedRow(row, n, l) % 2 == 0 ==> CellPosition(row, col + 1, n, l) == CellPosition(row, col, n, l) + 1
    ensures AdjustedRow(row, n, l) % 2 == 1 ==> CellPosition(row, col + 1, n, l) == CellPosition(row, col, n, l) - 1
  {
  }

  /** The bottom display row holds 1..l from left to right; the top display
      row holds the last block n-l+1..n. */
  lemma BoardEnds(col: int, n: int, l: int)
    requires ValidDims(n, l) && 0 <= col < l
    ensures CellPosition(n / l - 1, col, n, l) == col + 1
    ensures n - l + 1 <= CellPosition(0, col, n, l) <= n
  {
    assert (n / l - 1) * l == n / l * l - l;
  }

  predicate Touches(ladder: Ladder, pos: int) {
    ladder.start == pos || ladder.end == pos
  }

  /** The index of the first ladder with an endpoint at `pos`, or |ladders|. */
  function FirstTouching(ladders: seq<Ladder>, pos: int): (k: nat)
    ensures k <= |ladders|
    ensures forall j :: 0 <= j < k ==> !Touches(ladders[j], pos)
    ensures k < |ladders| ==> Touches(ladders[k], pos)
    decreases |ladders|
  {
    if ladders == [] then 0
    else if Touches(ladders[0], pos) then 0
    else 1 + FirstTouching(ladders[1..], pos)
  }

  /** `getCellColor`: the colour class of the first ladder with an endpoint at
      `pos`, or "" when no ladder touches it. */
  method CellColor(pos: int, ladders: seq<Ladder>) returns (c: string)
    ensures c == "" <==> forall i :: 0 <= i < |ladders| ==> !Touches(ladders[i], pos)
    ensures c != "" ==> c == "ladder-color-" + NatToString(FirstTouching(ladders, pos))
  {
    for i := 0 to |ladders|
      invariant forall j :: 0 <= j < i ==> !Touches(ladders[j], pos)
    {
      if ladders[i].start == pos || ladders[i].end == pos {
        assert FirstTouching(ladders, pos) == i by {
          var k := FirstTouching(ladders, pos);
          assert !(k < i) && !(i < k);
        }
        return "ladder-color-" + NatToString(i);
      }
    }
    return "";
  }

  datatype Symbol = Symbol(symbol: string, color: string, fontweight: string)

  const Plain := Symbol("", "black", "normal")
  const AscendingStart := Symbol("\U{2197}", "green", "bold")
  const DescendingStart := Symbol("\U{2198}", "red", "bold")
  const AscendingEnd := Symbol("\U{2934}", "blue", "bold")
  const DescendingEnd := Symbol("\U{2935}", "purple", "bold")

  /** `getLadderSymbol`: the marker of a cell, from the first ladder starting
      there and, failing that, the first ladder ending there. */
  function LadderSymbol(ladders: seq<Ladder>, pos: int): Symbol {
    var ladderStart := Ladders.Find(ladders, pos, true);
    var ladderEnd := Ladders.Find(ladders, pos, false);
    if ladderStart.Some? && ladderStart.value.end > ladderStart.value.start then AscendingStart
    else if ladderStart.Some? && ladderStart.value.end < ladderStart.value.start then DescendingStart
    else if ladderEnd.Some? && ladderEnd.value.end > ladderEnd.value.start then AscendingEnd
    else if ladderEnd.Some? && ladderEnd.value.end < ladderEnd.value.start then DescendingEnd
    else Plain
  }

  /** A ladder starting at `pos` decides the marker before any ladder ending there. */
  lemma LadderSymbolPriority(ladders: seq<Ladder>, pos: int)
    ensures var s, e := Ladders.FindIndex(ladders, pos, true), Ladders.FindIndex(ladders, pos, false);
      LadderSymbol(ladders, pos) ==
        if s < |ladders| && ladders[s].end > pos then AscendingStart
        else if s < |ladders| && ladders[s].end < pos then DescendingStart
        else if e < |ladders| && ladders[e].start < pos then AscendingEnd
        else if e < |ladders| && ladders[e].start > pos then DescendingEnd
        else Plain
  {
  }

  /** For ladders whose endpoints differ, a cell is marked in bold exactly when
      `getCellColor` gives it a ladder colour. */
  lemma MarkedIffColored(ladders: seq<Ladder>, pos: int)
    requires forall i :: 0 <= i < |ladders| ==> ladders[i].start != ladders[i].end
    ensures LadderSymbol(ladders, pos).fontweight == "bold" <==> FirstTouching(ladders, pos) < |ladders|
  {
    var s, e := Ladders.FindIndex(ladders, pos, true), Ladders.FindIndex(ladders, pos, false);
    var t := FirstTouching(ladders, pos);
    if t < |ladders| {
      if ladders[t].start != pos {
        assert e <= t;
      }
    }
  }

  /** One board cell and the players shown on it. */
  datatype Cell = Cell(position: int, players: seq<Player>)

  /** `players.filter(player => player.position === pos)`. */
  function PlayersAt(ps: seq<Player>, pos: int): (r: seq<Player>)
    ensures forall p :: p in r <==> p in ps && p.position == pos
    ensures |r| <= |ps|
    decreases |ps|
  {
    if ps == [] then []
    else
      assert forall p :: p in ps <==> p == ps[0] || p in ps[1..];
      (if ps[0].position == pos then [ps[0]] else []) + PlayersAt(ps[1..], pos)
  }

  /** The filter keeps roster order: it distributes over concatenation. */
  lemma {:induction false} PlayersAtConcat(a: seq<Player>, b: seq<Player>, pos: int)
    ensures PlayersAt(a + b, pos) == PlayersAt(a, pos) + PlayersAt(b, pos)
    decreases |a|
  {
    if a != [] {
      assert (a + b)[1..] == a[1..] + b;
      PlayersAtConcat(a[1..], b, pos);
    } else {
      assert a + b == b;
    }
  }

  /** The initial cells: one empty cell per position 1..n. */
  function InitialCells(n: nat): seq<Cell> {
    seq(n, k => Cell(k + 1, []))
  }

  /** The effect that refreshes the cells whenever the roster changes. */
  function RefreshCells(cells: seq<Cell>, ps: seq<Player>): seq<Cell> {
    seq(|cells|, k requires 0 <= k < |cells| => cells[k].(players := PlayersAt(ps, cells[k].position)))
  }

  /** After a refresh of the initial cells, cell k shows position k + 1 and
      exactly the roster players standing there; every player on the board
      is shown on the cell of its position. */
  lemma CellsShowRoster(n: nat, ps: seq<Player>)
    ensures var cells := RefreshCells(InitialCells(n), ps);
      |cells| == n &&
      forall k :: 0 <= k < n ==>
        cells[k].position == k + 1 && cells[k].players == PlayersAt(ps, k + 1)
    ensures var cells := RefreshCells(InitialCells(n), ps);
      forall i :: 0 <= i < |ps| && 1 <= ps[i].position <= n ==> ps[i] in cells[ps[i].position - 1].players
  {
  }
}
