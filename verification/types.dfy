/**
 * The entities of resources/js/pages/games/types.ts: grid positions, apples,
 * the linked chain of cow segments and the alive/dead player union.
 */
module Types {
  import opened Utils

  datatype Direction = Up | Down | Right | Left

  /** A grid cell; `x` is the column and `y` the row. */
  datatype Position = Position(x: int, y: int)

  /** An apple is a tagged grid position. */
  datatype Apple = Apple(pos: Position)

  /**
   * One segment of a cow. `dir` is the direction the segment is queued to
   * move on its next tick. A head or middle segment always has a successor,
   * a tail never has one; as in the source's type, nothing stops a head from
   * appearing as a successor, which `WellFormed` rules out.
   */
  datatype Piece =
    | Head(pos: Position, dir: Direction, next: Piece)
    | Middle(pos: Position, dir: Direction, next: Piece)
    | Tail(pos: Position, dir: Direction)

  datatype Kind = HeadKind | MiddleKind | TailKind

  /** One segment with its successor forgotten: the flattened view of a chain. */
  datatype Seg = Seg(kind: Kind, pos: Position, dir: Direction)

  /** A player either carries a chain of segments or, once dead, none. */
  datatype Player =
    | Alive(id: string, username: string, score: int, head: Piece, breed: string)
    | Dead(id: string, username: string, score: int, breed: string)

  function KindOf(p: Piece): Kind {
    match p
    case Head(_, _, _) => HeadKind
    case Middle(_, _, _) => MiddleKind
    case Tail(_, _) => TailKind
  }

  function SegOf(p: Piece): Seg {
    Seg(KindOf(p), p.pos, p.dir)
  }

  /** Number of segments from `p` to the end of its chain. */
  function Length(p: Piece): (n: nat)
    ensures n >= 1
    ensures p.Tail? <==> n == 1
  {
    match p
    case Tail(_, _) => 1
    case _ => 1 + Length(p.next)
  }

  /** The segments from `p` onwards, in chain order; the last one is a tail. */
  function Segs(p: Piece): (s: seq<Seg>)
    ensures |s| == Length(p)
    ensures s[0] == SegOf(p)
    ensures s[|s| - 1].kind == TailKind
  {
    match p
    case Tail(_, _) => [SegOf(p)]
    case _ => [SegOf(p)] + Segs(p.next)
  }

  /** Every chain ends in exactly one tail: no segment before the last is a tail. */
  lemma {:induction false} OnlyLastIsTail(p: Piece)
    ensures forall i :: 0 <= i < Length(p) - 1 ==> Segs(p)[i].kind != TailKind
  {
    if !p.Tail? {
      OnlyLastIsTail(p.next);
      assert Segs(p) == [SegOf(p)] + Segs(p.next);
    }
  }

  /** The flattened chain of a segment with a successor: the segment, then its successor's chain. */
  lemma SegsCons(p: Piece)
    requires !p.Tail?
    ensures Segs(p) == [SegOf(p)] + Segs(p.next)
  {
  }

  /** The part of a chain that follows a head: middles ending in a tail. */
  predicate Body(p: Piece) {
    match p
    case Head(_, _, _) => false
    case Middle(_, _, n) => Body(n)
    case Tail(_, _) => true
  }

  /** A chain as a player carries it: a head, then middles, then a tail. */
  predicate WellFormed(p: Piece) {
    p.Head? && Body(p.next)
  }

  /** The kinds along a chain: head first, tail last, middles between. */
  predicate ShapedLikeCow(s: seq<Seg>) {
    && |s| >= 2
    && s[0].kind == HeadKind
    && s[|s| - 1].kind == TailKind
    && forall i :: 1 <= i < |s| - 1 ==> s[i].kind == MiddleKind
  }

  lemma {:induction false} BodyKinds(p: Piece)
    ensures Body(p) <==> forall i :: 0 <= i < Length(p) - 1 ==> Segs(p)[i].kind == MiddleKind
  {
    match p
    case Head(_, _, _) =>
      assert Segs(p)[0].kind == HeadKind;
    case Middle(_, _, n) =>
      BodyKinds(n);
      assert Segs(p)[1..] == Segs(n);
    case Tail(_, _) =>
  }

  /**
   * A well-formed chain is exactly one whose flattened kinds are head,
   * middles, tail; in particular it has at least two segments.
   */
  lemma WellFormedIffShaped(p: Piece)
    ensures WellFormed(p) <==> ShapedLikeCow(Segs(p))
  {
    if p.Head? {
      BodyKinds(p.next);
      assert Segs(p)[1..] == Segs(p.next);
      if ShapedLikeCow(Segs(p)) {
        forall i | 0 <= i < Length(p.next) - 1
          ensures Segs(p.next)[i].kind == MiddleKind
        {
          assert Segs(p.next)[i] == Segs(p)[i + 1];
        }
      }
    }
  }

  /** A chain with the same segment kinds as a well-formed chain is well-formed. */
  lemma SameKindsKeepWellFormed(p: Piece, r: Piece)
    requires WellFormed(p)
    requires Length(r) == Length(p)
    requires forall i :: 0 <= i < Length(p) ==> Segs(r)[i].kind == Segs(p)[i].kind
    ensures WellFormed(r)
  {
    WellFormedIffShaped(p);
    WellFormedIffShaped(r);
  }

  /** The sub-chain `k` segments down from `p` (see `DropSegs`). */
  function Drop(p: Piece, k: nat): Piece
    requires k < Length(p)
    decreases k
  {
    if k == 0 then p else Drop(p.next, k - 1)
  }

  /** Following `nextPiece` `k` times reaches the chain whose flattening is the suffix from `k`. */
  lemma {:induction false} DropSegs(p: Piece, k: nat)
    requires k < Length(p)
    ensures Segs(Drop(p, k)) == Segs(p)[k..]
    decreases k
  {
    if k > 0 {
      DropSegs(p.next, k - 1);
      SegsCons(p);
      assert Segs(p)[k..] == Segs(p.next)[k - 1..];
    }
  }

  /** The sub-chain `k` segments down starts with segment `k`. */
  lemma DropFirst(p: Piece, k: nat)
    requires k < Length(p)
    ensures SegOf(Drop(p, k)) == Segs(p)[k]
  {
    DropSegs(p, k);
  }

  /** The source's `isAlive` guard. */
  predicate IsAlive(p: Player) {
    p.Alive?
  }

  /** The player after death: same identity and score, no chain. */
  function Kill(p: Player): (r: Player)
    ensures r.Dead? && !IsAlive(r)
    ensures r.id == p.id && r.username == p.username && r.score == p.score && r.breed == p.breed
  {
    Dead(p.id, p.username, p.score, p.breed)
  }

  /** Same id, username and cosmetic breed. */
  predicate SameIdentity(a: Player, b: Player) {
    a.id == b.id && a.username == b.username && a.breed == b.breed
  }

  predicate UniqueIds(ps: seq<Player>) {
    forall i, j :: 0 <= i < |ps| && 0 <= j < |ps| && ps[i].id == ps[j].id ==> i == j
  }

  /** `players.findIndex(p => p.id == id)`: the first index with that id, or -1. */
  function FindById(ps: seq<Player>, id: string): (i: int)
    ensures -1 <= i < |ps|
    ensures 0 <= i ==> ps[i].id == id && forall j :: 0 <= j < i ==> ps[j].id != id
    ensures i == -1 ==> forall j :: 0 <= j < |ps| ==> ps[j].id != id
  {
    var keys := seq(|ps|, j requires 0 <= j < |ps| => ps[j].id);
    assert forall j :: 0 <= j < |ps| ==> keys[j] == ps[j].id;
    FirstIndex(keys, id)
  }

  /** With unique ids, looking a player up by its id finds that very player. */
  lemma FindByIdUnique(ps: seq<Player>, i: int)
    requires UniqueIds(ps) && 0 <= i < |ps|
    ensures FindById(ps, ps[i].id) == i
  {
  }
}
