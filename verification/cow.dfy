/**
 * The movement engine of resources/js/pages/games/cow.ts: spawn bounds,
 * the one-cell shift of a segment, the recursive follow-the-leader move,
 * the apple lookup and the second-to-last segment lookup.
 */
module Cow {
  import opened Wrappers
  import opened Utils
  import opened GameConfig
  import opened Types

  /** The two raw random draws consumed by one call of `chooseStartPos`. */
  datatype Draw = Draw(x: int, y: int)

  /**
   * `chooseStartPos`: a column in `[2, cols - 2]` and a row in `[1, rows - 2]`,
   * with the configured `rows` and `cols`.
   */
  function ChooseStartPos(cfg: Config, draw: Draw): (p: Position)
    requires Valid(cfg)
    ensures 2 <= p.x <= cfg.cols - 2
    ensures 1 <= p.y <= cfg.rows - 2
  {
    Position(GetRandomNumber(2, cfg.cols - 2, draw.x), GetRandomNumber(1, cfg.rows - 2, draw.y))
  }

  /** The cell on the grid of `rows` rows and `cols` columns. */
  predicate OnGrid(rows: int, cols: int, p: Position) {
    0 <= p.x < cols && 0 <= p.y < rows
  }

  /**
   * Every start position leaves room for the right-facing spawn chain: the
   * head, the middle one cell to its left and the tail two cells to its left
   * are all on the grid, and no neighbouring cell of the head is off it.
   */
  lemma StartPosRoomForTail(cfg: Config, draw: Draw)
    requires Valid(cfg)
    ensures var p := ChooseStartPos(cfg, draw);
      && OnGrid(cfg.rows, cfg.cols, p)
      && OnGrid(cfg.rows, cfg.cols, Position(p.x - 1, p.y))
      && OnGrid(cfg.rows, cfg.cols, Position(p.x - 2, p.y))
      && OnGrid(cfg.rows, cfg.cols, Position(p.x + 1, p.y))
      && OnGrid(cfg.rows, cfg.cols, Position(p.x, p.y - 1))
      && OnGrid(cfg.rows, cfg.cols, Position(p.x, p.y + 1))
  {
  }

  /** The chain every player spawns with: head, middle and tail facing right. */
  function SpawnChain(start: Position): (h: Piece)
    ensures WellFormed(h)
    ensures Segs(h) == [
      Seg(HeadKind, start, Right),
      Seg(MiddleKind, Position(start.x - 1, start.y), Right),
      Seg(TailKind, Position(start.x - 2, start.y), Right)]
  {
    var tail := Tail(Position(start.x - 2, start.y), Right);
    var middle := Middle(Position(start.x - 1, start.y), Right, tail);
    assert Body(middle);
    Head(start, Right, middle)
  }

  /** The unclamped neighbour of `p` in direction `d`; `up` decreases `y`. */
  function Step(p: Position, d: Direction): Position {
    match d
    case Up => Position(p.x, p.y - 1)
    case Down => Position(p.x, p.y + 1)
    case Right => Position(p.x + 1, p.y)
    case Left => Position(p.x - 1, p.y)
  }

  function Abs(v: int): nat { if v < 0 then -v else v }

  /**
   * The box that `shiftPos` clamps to, with the axes as the source writes
   * them: `x` within `[0, rows - 1]` and `y` within `[0, cols - 1]`.
   */
  predicate InClampBox(rows: int, cols: int, p: Position) {
    0 <= p.x <= rows - 1 && 0 <= p.y <= cols - 1
  }

  /**
   * `shiftPos`: one cell in direction `d`, clamped. Up and down change only
   * `y`, right and left only `x`. The clamp is per axis: a step whose moving
   * coordinate stays in its clamp range is taken unchanged, whatever the
   * other coordinate, and one from inside that range that would leave it is
   * not taken; a start outside the range lands on its nearest edge, however
   * far away. In particular, from inside the box the result stays inside and
   * at most one cell away.
   */
  function ShiftPos(rows: int, cols: int, p: Position, d: Direction): (r: Position)
    ensures (d == Up || d == Down) ==> r.x == p.x && (cols >= 1 ==> 0 <= r.y <= cols - 1)
    ensures (d == Left || d == Right) ==> r.y == p.y && (rows >= 1 ==> 0 <= r.x <= rows - 1)
    ensures InClampBox(rows, cols, Step(p, d)) ==> r == Step(p, d)
    ensures InClampBox(rows, cols, p) && !InClampBox(rows, cols, Step(p, d)) ==> r == p
    ensures InClampBox(rows, cols, p) ==>
      InClampBox(rows, cols, r) && Abs(r.x - p.x) + Abs(r.y - p.y) <= 1
    ensures (d == Up || d == Down) && 0 <= Step(p, d).y <= cols - 1 ==> r == Step(p, d)
    ensures (d == Up || d == Down) && 0 <= p.y <= cols - 1 && !(0 <= Step(p, d).y <= cols - 1) ==> r == p
    ensures (d == Left || d == Right) && 0 <= Step(p, d).x <= rows - 1 ==> r == Step(p, d)
    ensures (d == Left || d == Right) && 0 <= p.x <= rows - 1 && !(0 <= Step(p, d).x <= rows - 1) ==> r == p
    ensures (d == Left || d == Right) && rows >= 1 && p.x >= rows ==> r.x == rows - 1
    ensures (d == Left || d == Right) && rows >= 1 && p.x < 0 ==> r.x == 0
    ensures (d == Up || d == Down) && cols >= 1 && p.y >= cols ==> r.y == cols - 1
    ensures (d == Up || d == Down) && cols >= 1 && p.y < 0 ==> r.y == 0
  {
    match d
    case Up => Position(p.x, Clamp(p.y - 1, 0, cols - 1))
    case Right => Position(Clamp(p.x + 1, 0, rows - 1), p.y)
    case Down => Position(p.x, Clamp(p.y + 1, 0, cols - 1))
    case Left => Position(Clamp(p.x - 1, 0, rows - 1), p.y)
  }

  /**
   * The clamp axes are swapped: on the default 20-row, 30-column grid a cow
   * cannot move right past column 19, yet it can move down onto row 20,
   * below the last row.
   */
  lemma ShiftPosSwappedAxes()
    ensures ShiftPos(Default.rows, Default.cols, Position(19, 5), Right) == Position(19, 5)
    ensures OnGrid(Default.rows, Default.cols, Position(20, 5))
    ensures ShiftPos(Default.rows, Default.cols, Position(5, 19), Down) == Position(5, 20)
    ensures !OnGrid(Default.rows, Default.cols, Position(5, 20))
  {
  }

  /**
   * Spawn columns run up to `cols - 2` = 28 but the clamp stops at column 19,
   * so a cow spawned at column 25 jumps six cells on its first move, and its
   * whole right-facing spawn chain collapses onto the single cell (19, 5).
   */
  lemma SpawnBeyondClampCollapses()
    ensures ChooseStartPos(Default, Draw(23, 4)) == Position(25, 5)
    ensures var moved := Segs(MovePiece(Default.rows, Default.cols, SpawnChain(Position(25, 5)), None));
      |moved| == 3 && forall i :: 0 <= i < 3 ==> moved[i].pos == Position(19, 5)
  {
  }

  /**
   * `move(apples, piece, queueDir)` on a present piece: every segment shifts
   * by its own direction; the segment's new direction is `queueDir`, or its
   * own when none is given; its successor is moved with this segment's
   * pre-move direction as the queued one. The `apples` argument is unused.
   */
  function MovePiece(rows: int, cols: int, p: Piece, queueDir: Option<Direction>): (r: Piece)
    ensures Length(r) == Length(p)
    ensures KindOf(r) == KindOf(p)
    ensures queueDir.None? ==> r.dir == p.dir
    ensures queueDir.Some? ==> r.dir == queueDir.value
    decreases p
  {
    var newPos := ShiftPos(rows, cols, p.pos, p.dir);
    var newDir := queueDir.GetOr(p.dir);
    match p
    case Head(_, d, n) => Head(newPos, newDir, MovePiece(rows, cols, n, Some(d)))
    case Middle(_, d, n) => Middle(newPos, newDir, MovePiece(rows, cols, n, Some(d)))
    case Tail(_, _) => Tail(newPos, newDir)
  }

  /** `move` on an optional piece: an absent piece is returned unchanged. */
  function Move(rows: int, cols: int, p: Option<Piece>, queueDir: Option<Direction>): (r: Option<Piece>)
    ensures p.None? ==> r == None
    ensures p.Some? ==> r.Some? && Length(r.value) == Length(p.value)
    ensures p.Some? ==> r == Some(MovePiece(rows, cols, p.value, queueDir))
  {
    match p
    case None => None
    case Some(piece) => Some(MovePiece(rows, cols, piece, queueDir))
  }

  /**
   * The same move over the flattened chain, as an array-based engine would
   * do it: segment `i` shifts by its own direction and queues the pre-move
   * direction of segment `i - 1` (the head queues `queueDir`, or its own).
   */
  function MoveSegs(rows: int, cols: int, s: seq<Seg>, queueDir: Option<Direction>): seq<Seg> {
    seq(|s|, i requires 0 <= i < |s| => MovedSeg(rows, cols, s, i, queueDir))
  }

  /** Segment `i` of the indexed move. */
  function MovedSeg(rows: int, cols: int, s: seq<Seg>, i: int, queueDir: Option<Direction>): Seg
    requires 0 <= i < |s|
  {
    Seg(s[i].kind, ShiftPos(rows, cols, s[i].pos, s[i].dir),
        if i == 0 then queueDir.GetOr(s[i].dir) else s[i - 1].dir)
  }

  /** The indexed move of a non-empty flattened chain, split into its first segment and the rest. */
  lemma MoveSegsCons(rows: int, cols: int, x: Seg, rest: seq<Seg>, q: Option<Direction>)
    ensures MoveSegs(rows, cols, [x] + rest, q)
      == [Seg(x.kind, ShiftPos(rows, cols, x.pos, x.dir), q.GetOr(x.dir))]
         + MoveSegs(rows, cols, rest, Some(x.dir))
  {
    var s := [x] + rest;
    var a := MoveSegs(rows, cols, s, q);
    var b := [Seg(x.kind, ShiftPos(rows, cols, x.pos, x.dir), q.GetOr(x.dir))]
         + MoveSegs(rows, cols, rest, Some(x.dir));
    assert |a| == |b|;
    forall i | 0 <= i < |a|
      ensures a[i] == b[i]
    {
      if i > 0 {
        assert s[i] == rest[i - 1];
        assert b[i] == MoveSegs(rows, cols, rest, Some(x.dir))[i - 1];
        if i > 1 {
          assert s[i - 1] == rest[i - 2];
        }
      }
    }
  }

  /** The recursive linked-list move and the indexed move agree on every chain. */
  lemma {:induction false} MoveMatchesIndexed(rows: int, cols: int, p: Piece, q: Option<Direction>)
    ensures Segs(MovePiece(rows, cols, p, q)) == MoveSegs(rows, cols, Segs(p), q)
    decreases p
  {
    var r := MovePiece(rows, cols, p, q);
    if p.Tail? {
      assert Segs(p) == [SegOf(p)] + [];
      MoveSegsCons(rows, cols, SegOf(p), [], q);
    } else {
      MoveMatchesIndexed(rows, cols, p.next, Some(p.dir));
      assert Segs(p) == [SegOf(p)] + Segs(p.next);
      MoveSegsCons(rows, cols, SegOf(p), Segs(p.next), q);
      assert Segs(r) == [SegOf(r)] + Segs(r.next);
    }
  }

  /**
   * `move` keeps the chain's length and the kind of every segment; the head
   * queues `queueDir` (or keeps its direction when none is given) and every
   * later segment queues its predecessor's pre-move direction.
   */
  lemma MovePreservesChain(rows: int, cols: int, p: Piece, q: Option<Direction>)
    ensures var s, t := Segs(p), Segs(MovePiece(rows, cols, p, q));
      && |t| == |s|
      && (forall i :: 0 <= i < |s| ==> t[i].kind == s[i].kind)
      && (forall i :: 0 <= i < |s| ==> t[i].pos == ShiftPos(rows, cols, s[i].pos, s[i].dir))
      && t[0].dir == q.GetOr(s[0].dir)
      && (forall i :: 1 <= i < |s| ==> t[i].dir == s[i - 1].dir)
  {
    MoveMatchesIndexed(rows, cols, p, q);
    MoveSegsFacts(rows, cols, Segs(p), q);
  }

  /** The indexed move, segment by segment. */
  lemma MoveSegsFacts(rows: int, cols: int, s: seq<Seg>, q: Option<Direction>)
    requires |s| >= 1
    ensures var t := MoveSegs(rows, cols, s, q);
      && |t| == |s|
      && (forall i :: 0 <= i < |s| ==> t[i].kind == s[i].kind)
      && (forall i :: 0 <= i < |s| ==> t[i].pos == ShiftPos(rows, cols, s[i].pos, s[i].dir))
      && t[0].dir == q.GetOr(s[0].dir)
      && (forall i :: 1 <= i < |s| ==> t[i].dir == s[i - 1].dir)
  {
    var t := MoveSegs(rows, cols, s, q);
    forall i | 0 <= i < |s|
      ensures t[i].kind == s[i].kind && t[i].pos == ShiftPos(rows, cols, s[i].pos, s[i].dir)
    {
      assert t[i] == MovedSeg(rows, cols, s, i, q);
    }
    forall i | 1 <= i < |s|
      ensures t[i].dir == s[i - 1].dir
    {
      assert t[i] == MovedSeg(rows, cols, s, i, q);
    }
  }

  /** `move` maps a well-formed chain to a well-formed chain. */
  lemma MoveKeepsWellFormed(rows: int, cols: int, p: Piece, q: Option<Direction>)
    requires WellFormed(p)
    ensures WellFormed(MovePiece(rows, cols, p, q))
  {
    MoveKeepsKinds(rows, cols, p, q);
    SameKindsKeepWellFormed(p, MovePiece(rows, cols, p, q));
  }

  /** `move` keeps the kind of every segment. */
  lemma MoveKeepsKinds(rows: int, cols: int, p: Piece, q: Option<Direction>)
    ensures var s, t := Segs(p), Segs(MovePiece(rows, cols, p, q));
      |t| == |s| && forall i :: 0 <= i < |s| ==> t[i].kind == s[i].kind
  {
    MoveMatchesIndexed(rows, cols, p, q);
    var s, t := Segs(p), MoveSegs(rows, cols, Segs(p), q);
    forall i | 0 <= i < |s|
      ensures t[i].kind == s[i].kind
    {
      assert t[i] == MovedSeg(rows, cols, s, i, q);
    }
  }

  /** Every segment but the head, stepped by its own direction, lands on its predecessor's cell. */
  predicate Connected(s: seq<Seg>) {
    forall i :: 1 <= i < |s| ==> Step(s[i].pos, s[i].dir) == s[i - 1].pos
  }

  /** No segment's step leaves the clamp box, so no clamping happens. */
  predicate Unclamped(rows: int, cols: int, s: seq<Seg>) {
    forall i :: 0 <= i < |s| ==> InClampBox(rows, cols, Step(s[i].pos, s[i].dir))
  }

  /**
   * Follow the leader: on a connected chain that moves without clamping,
   * every non-head segment ends on its predecessor's old cell, and the moved
   * chain is connected again.
   */
  lemma FollowTheLeader(rows: int, cols: int, p: Piece, q: Option<Direction>)
    requires Connected(Segs(p)) && Unclamped(rows, cols, Segs(p))
    ensures var s, t := Segs(p), Segs(MovePiece(rows, cols, p, q));
      && (forall i :: 1 <= i < |t| ==> t[i].pos == s[i - 1].pos)
      && Connected(t)
  {
    MovePreservesChain(rows, cols, p, q);
    FollowersTakeLeadersCells(rows, cols, Segs(p), Segs(MovePiece(rows, cols, p, q)));
  }

  /**
   * The step of `FollowTheLeader` over flattened chains: `t` is `s` moved
   * segment by segment, each non-head segment queueing its predecessor's
   * old direction.
   */
  lemma FollowersTakeLeadersCells(rows: int, cols: int, s: seq<Seg>, t: seq<Seg>)
    requires Connected(s) && Unclamped(rows, cols, s) && |t| == |s|
    requires forall i :: 0 <= i < |s| ==> t[i].pos == ShiftPos(rows, cols, s[i].pos, s[i].dir)
    requires forall i :: 1 <= i < |s| ==> t[i].dir == s[i - 1].dir
    ensures forall i :: 1 <= i < |t| ==> t[i].pos == s[i - 1].pos
    ensures Connected(t)
  {
    forall i | 0 <= i < |t|
      ensures t[i].pos == Step(s[i].pos, s[i].dir)
    {
      assert InClampBox(rows, cols, Step(s[i].pos, s[i].dir));
    }
  }

  /**
   * The index of the first apple at `pos`, or -1: the `find`/`findIndex`
   * search over apples that both `playerHasCollidedWithAnyApple` and the
   * apple removal perform.
   */
  function FirstAppleIndex(apples: seq<Apple>, pos: Position): (i: int)
    ensures -1 <= i < |apples|
    ensures 0 <= i ==> apples[i].pos == pos && forall j :: 0 <= j < i ==> apples[j].pos != pos
    ensures i == -1 ==> forall j :: 0 <= j < |apples| ==> apples[j].pos != pos
  {
    var keys := seq(|apples|, j requires 0 <= j < |apples| => apples[j].pos);
    assert forall j :: 0 <= j < |apples| ==> keys[j] == apples[j].pos;
    FirstIndex(keys, pos)
  }

  /**
   * `playerHasCollidedWithAnyApple`: the first apple on the head's cell, or
   * nothing when no apple is there. The comparison is made on `apple.pos`.
   */
  function AppleAt(pos: Position, apples: seq<Apple>): (r: Option<Apple>)
    ensures r.Some? ==> r.value in apples && r.value.pos == pos
    ensures r.None? <==> forall j :: 0 <= j < |apples| ==> apples[j].pos != pos
    ensures r.Some? ==> exists i :: (0 <= i < |apples| && apples[i] == r.value
      && forall j :: 0 <= j < i ==> apples[j].pos != pos)
  {
    var i := FirstAppleIndex(apples, pos);
    if i >= 0 then Some(apples[i]) else None
  }

  /**
   * `getSecondLastPiece(piece, prevPiece)`: walking from `piece`, the segment
   * whose successor is the tail; `prevPiece` when `piece` is itself the tail.
   */
  function SecondLast(piece: Piece, prev: Piece): (r: Piece)
    ensures piece.Tail? ==> r == prev
    ensures !piece.Tail? ==> Length(r) == 2 && Segs(r) == Segs(piece)[Length(piece) - 2..]
    decreases piece
  {
    match piece
    case Tail(_, _) => prev
    case _ =>
      var r := SecondLast(piece.next, piece);
      SecondLastStep(piece, r);
      r
  }

  /** One step of the walk: the two-segment end of `piece.next` is that of `piece`. */
  lemma SecondLastStep(piece: Piece, r: Piece)
    requires !piece.Tail?
    requires piece.next.Tail? ==> r == piece
    requires !piece.next.Tail? ==> Length(r) == 2 && Segs(r) == Segs(piece.next)[Length(piece.next) - 2..]
    ensures Length(r) == 2 && Segs(r) == Segs(piece)[Length(piece) - 2..]
  {
    SegsCons(piece);
    if !piece.next.Tail? {
      SuffixOfCons(SegOf(piece), Segs(piece.next), Length(piece.next) - 2);
    }
  }

  /** A suffix of `[x] + s` that starts past `x` is a suffix of `s`. */
  lemma SuffixOfCons<T>(x: T, s: seq<T>, k: nat)
    requires k <= |s|
    ensures ([x] + s)[k + 1..] == s[k..]
  {
  }

  /**
   * As the tick calls it, `getSecondLastPiece(head.nextPiece, head)` yields
   * the segment just before the tail, which is the head itself on a
   * two-segment chain.
   */
  lemma SecondLastOfChain(h: Piece)
    requires !h.Tail?
    ensures var r := SecondLast(h.next, h);
      && Length(r) == 2
      && SegOf(r) == Segs(h)[Length(h) - 2]
      && SegOf(r.next) == Segs(h)[Length(h) - 1]
      && (Length(h) == 2 ==> r == h)
  {
    var r := SecondLast(h.next, h);
    if h.next.Tail? {
      assert Segs(h) == [SegOf(h), SegOf(h.next)];
    } else {
      assert Segs(h)[1..] == Segs(h.next);
      assert Segs(r) == [SegOf(r)] + Segs(r.next);
    }
  }
}
