/**
 * The grid-based prototype of resources/js/pages/games/snakes.tsx: a fixed
 * 20 by 20 grid of cells, each empty or holding a cow segment, kept in step
 * with the players' chains by a `move` that clears each segment's old cell
 * and fills its new one.
 */
module Snakes {
  import opened Wrappers
  import opened Utils
  import opened Types
  import opened Cow

  const Rows: int := 20
  const Cols: int := 20

  /** `cells[y][x]`: row-major, each cell empty or holding a segment. */
  type Grid = seq<seq<Option<Piece>>>

  predicate InGrid(c: Position) {
    OnGrid(Rows, Cols, c)
  }

  /** `Rows` rows of `Cols` cells each. */
  predicate Shaped(g: Grid) {
    |g| == Rows && forall y :: 0 <= y < |g| ==> |g[y]| == Cols
  }

  function Cell(g: Grid, c: Position): Option<Piece>
    requires Shaped(g) && InGrid(c)
  {
    g[c.y][c.x]
  }

  /** Every segment stored in a cell is positioned on that very cell. */
  ghost predicate Honest(g: Grid)
    requires Shaped(g)
  {
    forall c :: InGrid(c) && Cell(g, c).Some? ==> Cell(g, c).value.pos == c
  }

  /** Every segment of the chain sits on the grid. */
  predicate ChainInGrid(p: Piece) {
    forall j :: 0 <= j < Length(p) ==> InGrid(Segs(p)[j].pos)
  }

  /** `generateGrid`: `rows` rows of `cols` empty cells. */
  method GenerateGrid() returns (g: Grid)
    ensures Shaped(g)
    ensures forall c :: InGrid(c) ==> Cell(g, c) == None
  {
    g := [];
    var y := 0;
    while y < Rows
      invariant 0 <= y <= Rows && |g| == y
      invariant forall j :: 0 <= j < y ==> |g[j]| == Cols
      invariant forall j, x :: 0 <= j < y && 0 <= x < Cols ==> g[j][x] == None
    {
      var row := [];
      var x := 0;
      while x < Cols
        invariant 0 <= x <= Cols && |row| == x
        invariant forall i :: 0 <= i < x ==> row[i] == None
      {
        row := row + [None];
        x := x + 1;
      }
      g := g + [row];
      y := y + 1;
    }
  }

  /** One cell overwritten; every other cell and the grid's shape are kept. */
  function SetCell(g: Grid, c: Position, v: Option<Piece>): (r: Grid)
    requires Shaped(g) && InGrid(c)
    ensures Shaped(r)
    ensures Cell(r, c) == v
    ensures forall d :: InGrid(d) && d != c ==> Cell(r, d) == Cell(g, d)
  {
    g[c.y := g[c.y][c.x := v]]
  }

  /**
   * The two cell assignments `move` makes for one segment: clear the
   * segment's old cell `from`, then store `piece` in its new cell `to`. The
   * stored object is the segment itself, which is given its moved successor
   * afterwards, so the cell ends up holding the whole moved sub-chain from
   * that segment on; `piece` is that sub-chain.
   */
  datatype Relocation = Relocation(from: Position, to: Position, piece: Piece)

  /** Every relocation is between cells of the grid. */
  predicate Fits(rs: seq<Relocation>) {
    forall i :: 0 <= i < |rs| ==> InGrid(rs[i].from) && InGrid(rs[i].to)
  }

  /** Every relocation stores a segment positioned on the cell it is stored in. */
  predicate OnOwnCells(rs: seq<Relocation>) {
    forall i :: 0 <= i < |rs| ==> rs[i].piece.pos == rs[i].to
  }

  /** One relocation carried out on the grid. */
  function Relocate(g: Grid, r: Relocation): Grid
    requires Shaped(g) && InGrid(r.from) && InGrid(r.to)
  {
    SetCell(SetCell(g, r.from, None), r.to, Some(r.piece))
  }

  /** What one relocation leaves in cell `c`, given what the cell held before. */
  function Touch(before: Option<Piece>, r: Relocation, c: Position): Option<Piece> {
    if r.to == c then Some(r.piece)
    else if r.from == c then None
    else before
  }

  /**
   * The content of cell `c` after the relocations, starting from `base`:
   * each relocation in turn, so the last one that clears or fills `c` decides.
   */
  function Final(base: Option<Piece>, rs: seq<Relocation>, c: Position): Option<Piece>
    decreases |rs|
  {
    if |rs| == 0 then base
    else Touch(Final(base, rs[..|rs| - 1], c), rs[|rs| - 1], c)
  }

  /** A relocation carried out on the grid changes each cell as `Touch` says. */
  lemma RelocateCell(g: Grid, r: Relocation, c: Position)
    requires Shaped(g) && InGrid(r.from) && InGrid(r.to) && InGrid(c)
    ensures Cell(Relocate(g, r), c) == Touch(Cell(g, c), r, c)
  {
  }

  /** Carrying out the first relocation, then the rest, ends in the same cell content. */
  lemma {:induction false} FinalShift(base: Option<Piece>, rs: seq<Relocation>, c: Position)
    requires |rs| > 0
    ensures Final(Touch(base, rs[0], c), rs[1..], c) == Final(base, rs, c)
    decreases |rs|
  {
    var n := |rs|;
    if n == 1 {
      assert rs[1..] == [];
    } else {
      var init, rest := rs[..n - 1], rs[1..];
      FinalShift(base, init, c);
      assert rest[..n - 2] == init[1..];
      assert rest[n - 2] == rs[n - 1];
    }
  }

  /** The relocations carried out in order, first to last. */
  function Apply(g: Grid, rs: seq<Relocation>): (r: Grid)
    requires Shaped(g) && Fits(rs)
    ensures Shaped(r)
    ensures forall c :: InGrid(c) ==> Cell(r, c) == Final(Cell(g, c), rs, c)
    decreases |rs|
  {
    if |rs| == 0 then g
    else
      var g1 := Relocate(g, rs[0]);
      var r := Apply(g1, rs[1..]);
      assert forall c :: InGrid(c) ==> Final(Cell(g1, c), rs[1..], c) == Final(Cell(g, c), rs, c) by {
        forall c | InGrid(c)
          ensures Final(Cell(g1, c), rs[1..], c) == Final(Cell(g, c), rs, c)
        {
          RelocateCell(g, rs[0], c);
          FinalShift(Cell(g, c), rs, c);
        }
      }
      r
  }

  /** A cell filled by the last relocation holds what that relocation stored. */
  lemma FinalLast(base: Option<Piece>, rs: seq<Relocation>, c: Position)
    requires |rs| > 0 && rs[|rs| - 1].to == c
    ensures Final(base, rs, c) == Some(rs[|rs| - 1].piece)
  {
  }

  /** A cell no relocation clears or fills keeps its content. */
  lemma {:induction false} FinalUntouched(base: Option<Piece>, rs: seq<Relocation>, c: Position)
    requires forall i :: 0 <= i < |rs| ==> rs[i].from != c && rs[i].to != c
    ensures Final(base, rs, c) == base
    decreases |rs|
  {
    if |rs| > 0 {
      FinalUntouched(base, rs[..|rs| - 1], c);
    }
  }

  /** Storing segments only on their own cells keeps every cell's content on that cell. */
  lemma {:induction false} FinalHonest(base: Option<Piece>, rs: seq<Relocation>, c: Position)
    requires base.Some? ==> base.value.pos == c
    requires OnOwnCells(rs)
    ensures Final(base, rs, c).Some? ==> Final(base, rs, c).value.pos == c
    decreases |rs|
  {
    if |rs| > 0 {
      FinalHonest(base, rs[..|rs| - 1], c);
    }
  }

  /**
   * `move(cells, piece, queueDir)` on a present piece, as the moved chain and
   * the relocations it makes, head first: each segment leaves its old cell
   * for its shifted one, then its successor is moved with this segment's
   * pre-move direction queued. The chain it returns is exactly the one the
   * board's `move` computes, and relocation `j` moves segment `j` and stores
   * the moved sub-chain from segment `j` on.
   */
  function GridMove(p: Piece, q: Option<Direction>): (r: (Piece, seq<Relocation>))
    ensures r.0 == MovePiece(Rows, Cols, p, q)
    ensures |r.1| == Length(p)
    ensures forall j :: 0 <= j < Length(p) ==>
      r.1[j] == Relocation(Segs(p)[j].pos, Segs(r.0)[j].pos, Drop(r.0, j))
    decreases p
  {
    var newPos := ShiftPos(Rows, Cols, p.pos, p.dir);
    var newDir := q.GetOr(p.dir);
    match p
    case Tail(_, _) =>
      var m := Tail(newPos, newDir);
      (m, [Relocation(p.pos, newPos, m)])
    case Head(_, d, n) =>
      var sub := GridMove(n, Some(d));
      var m := Head(newPos, newDir, sub.0);
      GridMoveCons(p, m, sub.1);
      (m, [Relocation(p.pos, newPos, m)] + sub.1)
    case Middle(_, d, n) =>
      var sub := GridMove(n, Some(d));
      var m := Middle(newPos, newDir, sub.0);
      GridMoveCons(p, m, sub.1);
      (m, [Relocation(p.pos, newPos, m)] + sub.1)
  }

  /** The relocations of a segment with a successor, in terms of its successor's. */
  lemma GridMoveCons(p: Piece, m: Piece, rs: seq<Relocation>)
    requires !p.Tail? && !m.Tail? && Length(m) == Length(p)
    requires |rs| == Length(p.next)
    requires forall j :: 0 <= j < Length(p.next) ==>
      rs[j] == Relocation(Segs(p.next)[j].pos, Segs(m.next)[j].pos, Drop(m.next, j))
    ensures var all := [Relocation(p.pos, m.pos, m)] + rs;
      forall j :: 0 <= j < Length(p) ==>
        all[j] == Relocation(Segs(p)[j].pos, Segs(m)[j].pos, Drop(m, j))
  {
    SegsCons(p);
    SegsCons(m);
    var all := [Relocation(p.pos, m.pos, m)] + rs;
    forall j | 0 <= j < Length(p)
      ensures all[j] == Relocation(Segs(p)[j].pos, Segs(m)[j].pos, Drop(m, j))
    {
      if j > 0 {
        assert all[j] == rs[j - 1];
        assert Drop(m, j) == Drop(m.next, j - 1);
      }
    }
  }

  /** Every segment of a chain on the grid is still on the grid after the move. */
  lemma MoveStaysInGrid(p: Piece, q: Option<Direction>)
    requires ChainInGrid(p)
    ensures ChainInGrid(MovePiece(Rows, Cols, p, q))
  {
    MovePreservesChain(Rows, Cols, p, q);
    var s, t := Segs(p), Segs(MovePiece(Rows, Cols, p, q));
    forall j | 0 <= j < |t|
      ensures InGrid(t[j].pos)
    {
      assert InClampBox(Rows, Cols, s[j].pos);
    }
  }

  /** The cells `move` assigns: each segment's old cell and new cell. */
  predicate Footprint(p: Piece, m: Piece, c: Position)
    requires Length(m) == Length(p)
  {
    exists j :: 0 <= j < Length(p) && (Segs(p)[j].pos == c || Segs(m)[j].pos == c)
  }

  /** The last segment of chain `m` is a tail, on the grid, and stored in its own cell of `g`. */
  predicate TailStored(g: Grid, m: Piece) {
    var t := Drop(m, Length(m) - 1);
    Shaped(g) && t.Tail? && InGrid(t.pos) && Cell(g, t.pos) == Some(t)
  }

  /**
   * `move(cells, piece, queueDir)` on a chain that is on the grid: the grid
   * after its assignments, and the moved chain. The chain equals the board's
   * `move`; a cell outside the old and new cells of the segments is left as
   * it was; the moved tail's cell holds the moved tail (nothing is assigned
   * after it); and a grid whose cells hold only segments on their own cells
   * stays that way.
   */
  function MoveOnGrid(g: Grid, p: Piece, q: Option<Direction>): (res: (Grid, Piece))
    requires Shaped(g) && ChainInGrid(p)
    ensures Shaped(res.0)
    ensures res.1 == MovePiece(Rows, Cols, p, q) && ChainInGrid(res.1)
    ensures forall c :: InGrid(c) && !Footprint(p, res.1, c) ==> Cell(res.0, c) == Cell(g, c)
    ensures TailStored(res.0, res.1)
    ensures Honest(g) ==> Honest(res.0)
  {
    var moved := GridMove(p, q);
    var m, rs := moved.0, moved.1;
    MoveStaysInGrid(p, q);
    RelocationsFit(p, m, rs);
    RelocationsOnOwnCells(m, rs);
    MoveLeavesOtherCellsAll(g, p, m, rs);
    MoveFillsTailCell(g, m, rs);
    MoveKeepsHonest(g, rs);
    (Apply(g, rs), m)
  }

  /** The relocations of a move of a chain on the grid stay on the grid. */
  lemma RelocationsFit(p: Piece, m: Piece, rs: seq<Relocation>)
    requires ChainInGrid(p) && ChainInGrid(m) && Length(m) == Length(p)
    requires |rs| == Length(p)
    requires forall j :: 0 <= j < Length(p) ==> rs[j] == Relocation(Segs(p)[j].pos, Segs(m)[j].pos, Drop(m, j))
    ensures Fits(rs)
    ensures forall j :: 0 <= j < |rs| ==> rs[j].from == Segs(p)[j].pos && rs[j].to == Segs(m)[j].pos
    ensures forall j :: 0 <= j < |rs| ==> rs[j].piece == Drop(m, j)
  {
    forall i | 0 <= i < |rs|
      ensures InGrid(rs[i].from) && InGrid(rs[i].to)
    {
      assert InGrid(Segs(p)[i].pos) && InGrid(Segs(m)[i].pos);
    }
  }

  /** Relocation `j` of a move stores the moved sub-chain from segment `j`, which sits on its new cell. */
  lemma RelocationsOnOwnCells(m: Piece, rs: seq<Relocation>)
    requires |rs| == Length(m)
    requires forall j :: 0 <= j < |rs| ==> rs[j].to == Segs(m)[j].pos && rs[j].piece == Drop(m, j)
    ensures OnOwnCells(rs)
  {
    forall i | 0 <= i < |rs|
      ensures rs[i].piece.pos == rs[i].to
    {
      DropFirst(m, i);
    }
  }

  /** Every cell that no segment leaves or enters keeps its content. */
  lemma MoveLeavesOtherCellsAll(g: Grid, p: Piece, m: Piece, rs: seq<Relocation>)
    requires Shaped(g) && Length(m) == Length(p) && Fits(rs)
    requires |rs| == Length(p)
    requires forall j :: 0 <= j < |rs| ==> rs[j].from == Segs(p)[j].pos && rs[j].to == Segs(m)[j].pos
    ensures forall c :: InGrid(c) && !Footprint(p, m, c) ==> Cell(Apply(g, rs), c) == Cell(g, c)
  {
    forall c | InGrid(c) && !Footprint(p, m, c)
      ensures Final(Cell(g, c), rs, c) == Cell(g, c)
    {
      MoveLeavesOtherCells(p, m, rs, c);
      FinalUntouched(Cell(g, c), rs, c);
    }
  }

  /** No relocation of a move clears or fills a cell outside the move's footprint. */
  lemma MoveLeavesOtherCells(p: Piece, m: Piece, rs: seq<Relocation>, c: Position)
    requires Length(m) == Length(p) && |rs| == Length(p)
    requires forall j :: 0 <= j < |rs| ==> rs[j].from == Segs(p)[j].pos && rs[j].to == Segs(m)[j].pos
    requires !Footprint(p, m, c)
    ensures forall i :: 0 <= i < |rs| ==> rs[i].from != c && rs[i].to != c
  {
  }

  /** The last relocation stores the moved tail on its own cell. */
  lemma MoveFillsTailCell(g: Grid, m: Piece, rs: seq<Relocation>)
    requires Shaped(g) && Fits(rs) && OnOwnCells(rs) && |rs| == Length(m)
    requires forall j :: 0 <= j < |rs| ==> rs[j].piece == Drop(m, j)
    ensures TailStored(Apply(g, rs), m)
  {
    var last := |rs| - 1;
    DropFirst(m, last);
    FinalLast(Cell(g, rs[last].to), rs, rs[last].to);
  }

  /** A move keeps an honest grid honest. */
  lemma MoveKeepsHonest(g: Grid, rs: seq<Relocation>)
    requires Shaped(g) && Fits(rs) && OnOwnCells(rs)
    ensures Honest(g) ==> Honest(Apply(g, rs))
  {
    forall c | InGrid(c)
      ensures Honest(g) ==> Final(Cell(g, c), rs, c).Some? ==> Final(Cell(g, c), rs, c).value.pos == c
    {
      if Honest(g) {
        FinalHonest(Cell(g, c), rs, c);
      }
    }
  }

  /** Overwriting a cell with nothing, or with a segment positioned on it, keeps the grid honest. */
  lemma SetCellHonest(g: Grid, c: Position, v: Option<Piece>)
    requires Shaped(g) && InGrid(c) && Honest(g)
    requires v.Some? ==> v.value.pos == c
    ensures Honest(SetCell(g, c, v))
  {
    var r := SetCell(g, c, v);
    forall d | InGrid(d) && Cell(r, d).Some?
      ensures Cell(r, d).value.pos == d
    {
      if d != c {
        assert Cell(r, d) == Cell(g, d);
      }
    }
  }

  /**
   * A player of the prototype: an id, a name and a chain that may be absent.
   * The source's extra `pos` field is a stale copy of the head's position and
   * is left out.
   */
  datatype SnakePlayer = SnakePlayer(id: string, username: string, head: Option<Piece>)

  /** The prototype's game state: the roster and the grid of cells. */
  datatype Board = Board(players: seq<SnakePlayer>, cells: Grid)

  predicate ChainsInGrid(ps: seq<SnakePlayer>) {
    forall i :: 0 <= i < |ps| && ps[i].head.Some? ==> ChainInGrid(ps[i].head.value)
  }

  /**
   * The invariant the prototype keeps: a full grid whose cells hold only
   * segments on their own cells, and every player's chain on the grid.
   */
  ghost predicate Consistent(b: Board) {
    Shaped(b.cells) && Honest(b.cells) && ChainsInGrid(b.players)
  }

  /** The initial state: no players and an empty grid. */
  method NewBoard() returns (b: Board)
    ensures Consistent(b) && b.players == []
    ensures forall c :: InGrid(c) ==> Cell(b.cells, c) == None
  {
    var g := GenerateGrid();
    b := Board([], g);
  }

  /** `chooseStartPos` of the prototype: a column in `[1, cols - 2]` and a row in `[1, rows - 2]`. */
  function ChooseSnakesStart(draw: Draw): (p: Position)
    ensures 1 <= p.x <= Cols - 2 && 1 <= p.y <= Rows - 2
  {
    Position(GetRandomNumber(1, Cols - 2, draw.x), GetRandomNumber(1, Rows - 2, draw.y))
  }

  /**
   * The spawn chain's tail, two cells left of the start, is on the grid
   * exactly when the start column is at least 2; the draw that yields
   * column 1 puts the tail in column -1, off the grid.
   */
  lemma SnakesStartTailOffGrid(draw: Draw)
    ensures var p := ChooseSnakesStart(draw);
      InGrid(Position(p.x - 2, p.y)) <==> p.x >= 2
    ensures var p := ChooseSnakesStart(Draw(0, 0));
      p == Position(1, 1) && !InGrid(Position(p.x - 2, p.y))
  {
  }

  /** The start column drawn from `[2, cols - 2]`, as the board's own `chooseStartPos` does. */
  function ChooseSnakesStartFixed(draw: Draw): (p: Position)
    ensures 2 <= p.x <= Cols - 2 && 1 <= p.y <= Rows - 2
  {
    Position(GetRandomNumber(2, Cols - 2, draw.x), GetRandomNumber(1, Rows - 2, draw.y))
  }

  /** With the corrected range every segment of the spawn chain lands on the grid. */
  lemma FixedStartFitsSpawn(draw: Draw)
    ensures var p := ChooseSnakesStartFixed(draw);
      InGrid(p) && InGrid(Position(p.x - 1, p.y)) && InGrid(Position(p.x - 2, p.y))
  {
  }

  /**
   * `addPlayer` from a chosen start: the spawn chain's head, middle and tail
   * are stored in their cells and the player is appended to the roster.
   * Every other cell is kept.
   */
  function AddSnakePlayer(b: Board, id: string, username: string, start: Position): (r: Board)
    requires Consistent(b)
    requires InGrid(start) && InGrid(Position(start.x - 2, start.y))
    ensures r.players == b.players + [SnakePlayer(id, username, Some(SpawnChain(start)))]
    ensures Consistent(r)
    ensures var h := SpawnChain(start);
      && Cell(r.cells, start) == Some(h)
      && Cell(r.cells, Position(start.x - 1, start.y)) == Some(h.next)
      && Cell(r.cells, Position(start.x - 2, start.y)) == Some(h.next.next)
    ensures forall c :: InGrid(c) && c.y != start.y ==> Cell(r.cells, c) == Cell(b.cells, c)
    ensures forall c :: InGrid(c) && (c.x < start.x - 2 || c.x > start.x) ==> Cell(r.cells, c) == Cell(b.cells, c)
  {
    var h := SpawnChain(start);
    var mid := Position(start.x - 1, start.y);
    var end := Position(start.x - 2, start.y);
    SpawnChainInGrid(start);
    var g1 := SetCell(b.cells, start, Some(h));
    SetCellHonest(b.cells, start, Some(h));
    var g2 := SetCell(g1, mid, Some(h.next));
    SetCellHonest(g1, mid, Some(h.next));
    var g3 := SetCell(g2, end, Some(h.next.next));
    SetCellHonest(g2, end, Some(h.next.next));
    var ps := b.players + [SnakePlayer(id, username, Some(h))];
    assert ps[|ps| - 1].head.value == h;
    assert ChainsInGrid(ps);
    Board(ps, g3)
  }

  /** The spawn chain from a start whose tail is on the grid lies wholly on the grid. */
  lemma SpawnChainInGrid(start: Position)
    requires InGrid(start) && InGrid(Position(start.x - 2, start.y))
    ensures ChainInGrid(SpawnChain(start))
    ensures SpawnChain(start).next.pos == Position(start.x - 1, start.y)
    ensures SpawnChain(start).next.next.pos == Position(start.x - 2, start.y)
  {
    var h := SpawnChain(start);
    assert Segs(h)[1] == SegOf(h.next);
    assert Segs(h.next)[1] == SegOf(h.next.next);
  }

  /** The 'join' message: `addPlayer` with a start drawn from the corrected range. */
  function Join(b: Board, id: string, username: string, draw: Draw): (r: Board)
    requires Consistent(b)
    ensures Consistent(r)
    ensures |r.players| == |b.players| + 1 && r.players[..|b.players|] == b.players
    ensures var p := r.players[|b.players|];
      p.id == id && p.username == username && p.head.Some? && WellFormed(p.head.value)
  {
    var start := ChooseSnakesStartFixed(draw);
    FixedStartFitsSpawn(draw);
    var r := AddSnakePlayer(b, id, username, start);
    assert r.players[..|b.players|] == b.players;
    r
  }

  /** `temp.find(player => player.id == id)`: the first index with that id, or -1. */
  function FindSnake(ps: seq<SnakePlayer>, id: string): (i: int)
    ensures -1 <= i < |ps|
    ensures 0 <= i ==> ps[i].id == id && forall j :: 0 <= j < i ==> ps[j].id != id
    ensures i == -1 ==> forall j :: 0 <= j < |ps| ==> ps[j].id != id
  {
    var keys := seq(|ps|, j requires 0 <= j < |ps| => ps[j].id);
    assert forall j :: 0 <= j < |ps| ==> keys[j] == ps[j].id;
    FirstIndex(keys, id)
  }

  /**
   * The 'move' message: the first player with that id has its head's queued
   * direction set. An unknown id or a player without a chain leaves the
   * state as it is; nothing but that one head's direction changes.
   */
  function ChangeSnakeDirection(b: Board, id: string, d: Direction): (r: Board)
    requires Consistent(b)
    ensures Consistent(r)
    ensures r.cells == b.cells && |r.players| == |b.players|
    ensures var i := FindSnake(b.players, id);
      if i < 0 || b.players[i].head.None? then r == b
      else
        && r.players[i].head == Some(b.players[i].head.value.(dir := d))
        && r.players[i].id == id && r.players[i].username == b.players[i].username
        && forall j :: 0 <= j < |b.players| && j != i ==> r.players[j] == b.players[j]
  {
    var i := FindSnake(b.players, id);
    if i < 0 || b.players[i].head.None? then b
    else
      var h := b.players[i].head.value;
      var turned := h.(dir := d);
      TurnedChainInGrid(h, d);
      var ps := b.players[i := b.players[i].(head := Some(turned))];
      assert ChainsInGrid(ps);
      b.(players := ps)
  }

  /** Turning the head moves no segment, so a chain on the grid stays on it. */
  lemma TurnedChainInGrid(h: Piece, d: Direction)
    requires ChainInGrid(h)
    ensures ChainInGrid(h.(dir := d))
  {
    var t := h.(dir := d);
    forall j | 0 <= j < Length(t)
      ensures InGrid(Segs(t)[j].pos)
    {
      if j == 0 {
        assert Segs(t)[0].pos == Segs(h)[0].pos;
      } else {
        SegsCons(h);
        SegsCons(t);
        assert Segs(t)[j] == Segs(h.next)[j - 1] == Segs(h)[j];
      }
    }
  }

  /** One player's turn in the tick: its chain, if any, moved on the grid. */
  function MoveOne(p: SnakePlayer, g: Grid): (r: (SnakePlayer, Grid))
    requires Shaped(g) && (p.head.Some? ==> ChainInGrid(p.head.value))
    ensures Shaped(r.1)
    ensures r.0 == p.(head := Move(Rows, Cols, p.head, None))
    ensures r.0.head.Some? ==> ChainInGrid(r.0.head.value)
    ensures Honest(g) ==> Honest(r.1)
  {
    if p.head.None? then (p, g)
    else
      var step := MoveOnGrid(g, p.head.value, None);
      (p.(head := Some(step.1)), step.0)
  }

  /**
   * The tick's `players.map`: each player's chain is moved on the shared grid
   * in roster order, with no queued direction for the head.
   */
  function MoveAll(ps: seq<SnakePlayer>, g: Grid): (r: (seq<SnakePlayer>, Grid))
    requires Shaped(g) && ChainsInGrid(ps)
    ensures Shaped(r.1) && ChainsInGrid(r.0)
    ensures |r.0| == |ps|
    ensures forall i :: 0 <= i < |ps| ==>
      r.0[i] == ps[i].(head := Move(Rows, Cols, ps[i].head, None))
    ensures Honest(g) ==> Honest(r.1)
    decreases |ps|
  {
    if |ps| == 0 then ([], g)
    else
      var first := MoveOne(ps[0], g);
      assert ChainsInGrid(ps[1..]);
      var rest := MoveAll(ps[1..], first.1);
      MoveAllCons(ps, first.0, rest.0);
      ([first.0] + rest.0, rest.1)
  }

  /** The moved roster, put together from the first player's turn and the rest's. */
  lemma MoveAllCons(ps: seq<SnakePlayer>, first: SnakePlayer, rest: seq<SnakePlayer>)
    requires |ps| > 0 && |rest| == |ps| - 1
    requires first == ps[0].(head := Move(Rows, Cols, ps[0].head, None))
    requires forall i :: 0 <= i < |rest| ==> rest[i] == ps[1..][i].(head := Move(Rows, Cols, ps[1..][i].head, None))
    requires first.head.Some? ==> ChainInGrid(first.head.value)
    requires ChainsInGrid(rest)
    ensures forall i :: 0 <= i < |ps| ==>
      ([first] + rest)[i] == ps[i].(head := Move(Rows, Cols, ps[i].head, None))
    ensures ChainsInGrid([first] + rest)
  {
    var all := [first] + rest;
    forall i | 1 <= i < |ps|
      ensures all[i] == ps[i].(head := Move(Rows, Cols, ps[i].head, None))
    {
      assert all[i] == rest[i - 1];
      assert ps[1..][i - 1] == ps[i];
    }
    forall i | 0 <= i < |all| && all[i].head.Some?
      ensures ChainInGrid(all[i].head.value)
    {
      if i > 0 {
        assert all[i] == rest[i - 1];
      }
    }
  }

  /**
   * The tick: every player's chain moves one step, exactly as the board's
   * `move` moves it; the roster keeps its length, order, ids and names; the
   * state stays consistent.
   */
  function TickBoard(b: Board): (r: Board)
    requires Consistent(b)
    ensures Consistent(r)
    ensures |r.players| == |b.players|
    ensures forall i :: 0 <= i < |b.players| ==>
      && r.players[i].id == b.players[i].id
      && r.players[i].username == b.players[i].username
      && r.players[i].head == Move(Rows, Cols, b.players[i].head, None)
  {
    var moved := MoveAll(b.players, b.cells);
    Board(moved.0, moved.1)
  }
}
