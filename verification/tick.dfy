/**
 * The tick pipeline `movePlayers` of resources/js/pages/games/game.ts: move
 * every alive player, grow those whose head landed on an apple, kill those
 * that hit a wall or a player, and commit the roster with one UPDATE_PLAYERS.
 * The two collision tests are not part of this model and are parameters.
 */
module Tick {
  import opened Wrappers
  import opened Utils
  import opened GameConfig
  import opened Types
  import opened Cow
  import opened Game

  /**
   * What one tick computes: the new roster and, in roster order, the cell of
   * every apple eaten (one REMOVE_APPLE each).
   */
  datatype TickResult = TickResult(players: seq<Player>, eaten: seq<Position>)

  /** A roster the tick can run on: unique ids, and every alive player carries a well-formed chain. */
  predicate ValidRoster(ps: seq<Player>) {
    UniqueIds(ps) && forall i :: 0 <= i < |ps| && ps[i].Alive? ==> WellFormed(ps[i].head)
  }

  /** Phase 1 for one player: an alive player's chain moves with no queued direction. */
  function MoveAlive(cfg: Config, p: Player): Player {
    if p.Dead? then p else p.(head := MovePiece(cfg.rows, cfg.cols, p.head, None))
  }

  function MovePhase(cfg: Config, ps: seq<Player>): seq<Player> {
    seq(|ps|, i requires 0 <= i < |ps| => MoveAlive(cfg, ps[i]))
  }

  /** An alive player whose head is on an apple of `food`. */
  predicate Ate(p: Player, food: seq<Apple>) {
    p.Alive? && AppleAt(p.head.pos, food).Some?
  }

  /**
   * The assignment to the second-to-last segment's `nextPiece`: the chain
   * with its tail replaced by `newEnd`.
   */
  function ReplaceTail(p: Piece, newEnd: Piece): (r: Piece)
    requires !p.Tail?
    ensures KindOf(r) == KindOf(p)
    ensures Segs(r) == Segs(p)[..Length(p) - 1] + Segs(newEnd)
    decreases p
  {
    if p.next.Tail? then
      var r := if p.Head? then Head(p.pos, p.dir, newEnd) else Middle(p.pos, p.dir, newEnd);
      ReplaceLastStep(p, r);
      r
    else
      var next := ReplaceTail(p.next, newEnd);
      var r := if p.Head? then Head(p.pos, p.dir, next) else Middle(p.pos, p.dir, next);
      ReplaceTailStep(p, r, Segs(newEnd));
      r
  }

  /** The last step of `ReplaceTail`: the segment before the tail now points at the new end. */
  lemma ReplaceLastStep(p: Piece, r: Piece)
    requires !p.Tail? && p.next.Tail? && !r.Tail? && SegOf(r) == SegOf(p)
    ensures Segs(r) == Segs(p)[..Length(p) - 1] + Segs(r.next)
  {
    assert Segs(p)[..Length(p) - 1] == [SegOf(p)];
  }

  /** One inner step of `ReplaceTail`: a segment copied in front of its successor's replaced chain. */
  lemma ReplaceTailStep(p: Piece, r: Piece, e: seq<Seg>)
    requires !p.Tail? && !p.next.Tail? && !r.Tail? && SegOf(r) == SegOf(p)
    requires Segs(r.next) == Segs(p.next)[..Length(p.next) - 1] + e
    ensures Segs(r) == Segs(p)[..Length(p) - 1] + e
  {
    SegsCons(p);
    SegsCons(r);
    SpliceStep(SegOf(p), Segs(p), Segs(p.next), Segs(r), Segs(r.next), e);
  }

  /** Copying one segment in front of a chain whose last entry was replaced by `e`. */
  lemma SpliceStep(x: Seg, sp: seq<Seg>, sn: seq<Seg>, sr: seq<Seg>, srn: seq<Seg>, e: seq<Seg>)
    requires |sn| >= 1 && sp == [x] + sn && sr == [x] + srn && srn == sn[..|sn| - 1] + e
    ensures sr == sp[..|sp| - 1] + e
  {
    assert sp[..|sp| - 1] == [x] + sn[..|sn| - 1];
  }

  /**
   * `r` is `moved` grown from its tail, where `before` is the chain before
   * the move: `r` is one segment longer, agrees with `moved` up to its last
   * segment, and then has a middle where `before`'s second-to-last segment
   * was and a tail where `before`'s tail was, with their directions.
   */
  predicate GrownFromTail(r: Piece, moved: Piece, before: Piece) {
    var n, m := Length(before), Length(moved);
    && n >= 2 && m >= 2 && Length(r) == m + 1
    && Segs(r)[..m - 1] == Segs(moved)[..m - 1]
    && Segs(r)[m - 1] == Seg(MiddleKind, Segs(before)[n - 2].pos, Segs(before)[n - 2].dir)
    && Segs(r)[m] == Seg(TailKind, Segs(before)[n - 1].pos, Segs(before)[n - 1].dir)
  }

  /**
   * Growth: the moved chain's tail is replaced by a middle placed and
   * directed like the pre-move second-to-last segment, followed by a tail
   * placed and directed like the pre-move tail. The chain gets one segment
   * longer, everything before the new middle is the moved chain, and a
   * well-formed chain stays well-formed.
   */
  function Grow(moved: Piece, before: Piece): (r: Piece)
    requires !moved.Tail? && !before.Tail?
    ensures GrownFromTail(r, moved, before)
    ensures WellFormed(moved) ==> WellFormed(r)
  {
    var slpOld := SecondLast(before.next, before);
    SecondLastOfChain(before);
    var newEnd := Middle(slpOld.pos, slpOld.dir, Tail(slpOld.next.pos, slpOld.next.dir));
    var r := ReplaceTail(moved, newEnd);
    GrowSegs(moved, newEnd, r);
    ReplaceTailKeepsWellFormed(moved, newEnd);
    r
  }

  /** A chain whose tail was replaced by a middle and a tail, entry by entry. */
  lemma GrowSegs(moved: Piece, newEnd: Piece, r: Piece)
    requires !moved.Tail? && newEnd.Middle? && newEnd.next.Tail?
    requires Segs(r) == Segs(moved)[..Length(moved) - 1] + Segs(newEnd)
    ensures Length(r) == Length(moved) + 1
    ensures Segs(r)[..Length(moved) - 1] == Segs(moved)[..Length(moved) - 1]
    ensures Segs(r)[Length(moved) - 1] == SegOf(newEnd)
    ensures Segs(r)[Length(moved)] == SegOf(newEnd.next)
  {
    SegsOfEnd(newEnd);
    var front := Segs(moved)[..Length(moved) - 1];
    AppendTwo(front, SegOf(newEnd), SegOf(newEnd.next), Segs(r));
    assert |front| == Length(moved) - 1;
  }

  /** A middle followed by a tail flattens to those two segments. */
  lemma SegsOfEnd(newEnd: Piece)
    requires newEnd.Middle? && newEnd.next.Tail?
    ensures Segs(newEnd) == [SegOf(newEnd), SegOf(newEnd.next)]
  {
    assert Segs(newEnd.next) == [SegOf(newEnd.next)];
  }

  lemma AppendTwo<T>(a: seq<T>, x: T, y: T, s: seq<T>)
    requires s == a + [x, y]
    ensures |s| == |a| + 2 && s[..|a|] == a && s[|a|] == x && s[|a| + 1] == y
  {
  }

  /** Replacing the tail of a well-formed chain by a middle and a tail keeps it well-formed. */
  lemma ReplaceTailKeepsWellFormed(p: Piece, newEnd: Piece)
    requires !p.Tail? && newEnd.Middle? && newEnd.next.Tail?
    ensures WellFormed(p) ==> WellFormed(ReplaceTail(p, newEnd))
  {
    if WellFormed(p) {
      var r := ReplaceTail(p, newEnd);
      SegsOfEnd(newEnd);
      WellFormedIffShaped(p);
      WellFormedIffShaped(r);
      var s := Segs(r);
      forall i | 1 <= i < |s| - 1
        ensures s[i].kind == MiddleKind
      {
        if i < Length(p) - 1 {
          assert s[i] == Segs(p)[i];
        }
      }
    }
  }

  /**
   * Phase 2 for one moved player `m`, where `before` is the pre-move copy
   * of that player: an alive player whose head is on an apple grows from the
   * tail `before` had and scores one point; any other player is returned as it
   * is.
   */
  function GrowOne(m: Player, before: Player, food: seq<Apple>): (r: Player)
    requires Ate(m, food) ==> !m.head.Tail? && before.Alive? && !before.head.Tail?
    ensures SameIdentity(r, m) && r.Alive? == m.Alive?
    ensures !Ate(m, food) ==> r == m
    ensures Ate(m, food) ==> r.score == m.score + 1 && GrownFromTail(r.head, m.head, before.head)
  {
    if Ate(m, food) then m.(head := Grow(m.head, before.head), score := m.score + 1) else m
  }

  /**
   * Phases 1 and 2 for one player: an alive player moves; if its head lands
   * on an apple, its moved chain then grows from its pre-move tail and it
   * scores one point.
   */
  function MoveAndGrow(cfg: Config, p: Player, food: seq<Apple>): (r: Player)
    requires p.Alive? ==> WellFormed(p.head)
    ensures SameIdentity(r, p) && r.Alive? == p.Alive?
    ensures p.Dead? ==> r == p
    ensures var ate := Ate(MoveAlive(cfg, p), food);
      && r.score == p.score + (if ate then 1 else 0)
      && (r.Alive? ==> WellFormed(r.head) && Length(r.head) == Length(p.head) + (if ate then 1 else 0))
    ensures p.Alive? && !Ate(MoveAlive(cfg, p), food) ==>
      r.head == MovePiece(cfg.rows, cfg.cols, p.head, None)
    ensures p.Alive? && Ate(MoveAlive(cfg, p), food) ==>
      GrownFromTail(r.head, MovePiece(cfg.rows, cfg.cols, p.head, None), p.head)
  {
    if p.Dead? then p
    else
      MoveKeepsWellFormed(cfg.rows, cfg.cols, p.head, None);
      GrowOne(MoveAlive(cfg, p), p, food)
  }

  /**
   * The growth phase over the moved roster. The pre-move copy of moved
   * player `i` is looked up by id in the pre-move roster, as the source
   * does; with unique ids that is `pre[i]` itself.
   */
  function GrowPhase(cfg: Config, pre: seq<Player>, food: seq<Apple>): (r: seq<Player>)
    requires ValidRoster(pre)
    ensures |r| == |pre|
    ensures forall i :: 0 <= i < |pre| ==> r[i] == MoveAndGrow(cfg, pre[i], food)
  {
    var moved := MovePhase(cfg, pre);
    assert forall i :: 0 <= i < |pre| ==> FindById(pre, moved[i].id) == i by {
      forall i | 0 <= i < |pre| ensures FindById(pre, moved[i].id) == i {
        FindByIdUnique(pre, i);
      }
    }
    seq(|pre|, i requires 0 <= i < |pre| => GrowOne(moved[i], pre[FindById(pre, moved[i].id)], food))
  }

  /**
   * The REMOVE_APPLE payloads, in roster order: one per alive moved player
   * whose head is on an apple, naming that apple's cell.
   */
  function EatenApples(moved: seq<Player>, food: seq<Apple>): (e: seq<Position>)
    ensures |e| <= |moved|
  {
    if |moved| == 0 then []
    else
      var last := moved[|moved| - 1];
      var front := EatenApples(moved[..|moved| - 1], food);
      if Ate(last, food) then front + [AppleAt(last.head.pos, food).value.pos] else front
  }

  /**
   * Every REMOVE_APPLE payload is the cell of an apple and of the head of a
   * player that ate, every player that ate has its cell there, and there is
   * none exactly when nobody ate.
   */
  lemma {:induction false} EatenApplesExact(moved: seq<Player>, food: seq<Apple>)
    ensures var e := EatenApples(moved, food);
      && (forall k :: 0 <= k < |e| ==> AppleAt(e[k], food).Some?)
      && (forall i :: 0 <= i < |moved| && Ate(moved[i], food) ==> moved[i].head.pos in e)
      && (forall q :: q in e ==> exists i :: 0 <= i < |moved| && Ate(moved[i], food) && moved[i].head.pos == q)
      && (|e| == 0 <==> forall i :: 0 <= i < |moved| ==> !Ate(moved[i], food))
    decreases |moved|
  {
    if |moved| > 0 {
      var n := |moved|;
      var last, front := moved[n - 1], moved[..n - 1];
      var fe := EatenApples(front, food);
      EatenApplesExact(front, food);
      var e := EatenApples(moved, food);
      assert forall i :: 0 <= i < n - 1 ==> moved[i] == front[i];
      if Ate(last, food) {
        var q := AppleAt(last.head.pos, food).value.pos;
        assert q == last.head.pos;
        assert e == fe + [q];
        assert e[|e| - 1] == q;
      } else {
        assert e == fe;
      }
    }
  }

  /** The number of players among the first `i` of `ps` that ate. */
  function EatersBefore(ps: seq<Player>, food: seq<Apple>, i: int): (k: nat)
    requires 0 <= i <= |ps|
    ensures k <= i
  {
    if i == 0 then 0 else EatersBefore(ps, food, i - 1) + (if Ate(ps[i - 1], food) then 1 else 0)
  }

  /** Counting eaters among the first `i` players does not look past them. */
  lemma {:induction false} EatersBeforePrefix(ps: seq<Player>, food: seq<Apple>, n: int, i: int)
    requires 0 <= i <= n <= |ps|
    ensures EatersBefore(ps[..n], food, i) == EatersBefore(ps, food, i)
    decreases i
  {
    if i > 0 {
      EatersBeforePrefix(ps, food, n, i - 1);
      assert ps[..n][i - 1] == ps[i - 1];
    }
  }

  /** The payloads of a roster are those of all but its last player, then the last one's if it ate. */
  lemma EatenApplesSnoc(moved: seq<Player>, food: seq<Apple>)
    requires |moved| > 0
    ensures var n := |moved|;
      EatenApples(moved, food)
        == EatenApples(moved[..n - 1], food) + (if Ate(moved[n - 1], food) then [moved[n - 1].head.pos] else [])
  {
  }

  /**
   * Player `i` of `ps` has its payload in `e` where roster order puts it:
   * its head's cell, after one payload for each player before it that ate.
   */
  predicate PayloadInPlace(e: seq<Position>, ps: seq<Player>, food: seq<Apple>, i: int)
    requires 0 <= i < |ps| && ps[i].Alive?
  {
    var k := EatersBefore(ps, food, i);
    k < |e| && e[k] == ps[i].head.pos
  }

  /**
   * The REMOVE_APPLE payloads exactly: one per player that ate, in roster
   * order. Player `i`'s payload is its head's cell and sits after those of
   * the players before it that ate, so two players eating the same apple
   * give two payloads.
   */
  lemma {:induction false} EatenApplesInOrder(moved: seq<Player>, food: seq<Apple>)
    ensures |EatenApples(moved, food)| == EatersBefore(moved, food, |moved|)
    ensures forall i :: 0 <= i < |moved| && Ate(moved[i], food) ==>
      PayloadInPlace(EatenApples(moved, food), moved, food, i)
    decreases |moved|
  {
    if |moved| > 0 {
      var n := |moved|;
      var front := moved[..n - 1];
      var fe := EatenApples(front, food);
      EatenApplesInOrder(front, food);
      EatersBeforePrefix(moved, food, n - 1, n - 1);
      EatenApplesSnoc(moved, food);
      var x := if Ate(moved[n - 1], food) then [moved[n - 1].head.pos] else [];
      forall i | 0 <= i < n && Ate(moved[i], food)
        ensures PayloadInPlace(fe + x, moved, food, i)
      {
        if i < n - 1 {
          PayloadKept(fe, x, moved, food, i);
        } else {
          PayloadLast(fe, moved, food);
        }
      }
    }
  }

  /** A payload in place for all but the last player stays in place when one is appended. */
  lemma PayloadKept(fe: seq<Position>, x: seq<Position>, moved: seq<Player>, food: seq<Apple>, i: int)
    requires 0 <= i < |moved| - 1 && moved[i].Alive?
    requires PayloadInPlace(fe, moved[..|moved| - 1], food, i)
    ensures PayloadInPlace(fe + x, moved, food, i)
  {
    EatersBeforePrefix(moved, food, |moved| - 1, i);
  }

  /** The last player's payload, appended after those of the players before it, is in place. */
  lemma PayloadLast(fe: seq<Position>, moved: seq<Player>, food: seq<Apple>)
    requires |moved| > 0 && moved[|moved| - 1].Alive?
    requires |fe| == EatersBefore(moved, food, |moved| - 1)
    ensures PayloadInPlace(fe + [moved[|moved| - 1].head.pos], moved, food, |moved| - 1)
  {
  }

  /** Phase 3 for one player: death by collision with a player or a wall. */
  function Judge(p: Player, roster: seq<Player>,
                 hitPlayer: (Player, seq<Player>) -> bool, hitWall: Player -> bool): Player {
    if p.Alive? && (hitPlayer(p, roster) || hitWall(p)) then Kill(p) else p
  }

  /**
   * Phase 3: every player is judged against the same post-growth roster, so
   * the outcome does not depend on the order of the roster walk. A player
   * dies exactly when it is alive and has hit a player or a wall; the dead
   * keep their identity and score, and survivors are untouched.
   */
  function DeathPhase(grown: seq<Player>,
                      hitPlayer: (Player, seq<Player>) -> bool, hitWall: Player -> bool): (r: seq<Player>)
    ensures |r| == |grown|
    ensures forall i :: 0 <= i < |grown| ==>
      SameIdentity(r[i], grown[i]) && r[i].score == grown[i].score
    ensures forall i :: 0 <= i < |grown| ==>
      (r[i].Alive? <==> grown[i].Alive? && !hitPlayer(grown[i], grown) && !hitWall(grown[i]))
    ensures forall i :: 0 <= i < |grown| && (r[i].Alive? || grown[i].Dead?) ==> r[i] == grown[i]
  {
    seq(|grown|, i requires 0 <= i < |grown| => Judge(grown[i], grown, hitPlayer, hitWall))
  }

  /**
   * `movePlayers`: the roster keeps its length, order and identities; dead
   * players pass through and nobody is revived; an alive player that ate
   * gains exactly one point and, if it survives, exactly one segment (see
   * `SurvivorsMoved` for the chain itself); the roster stays valid for the
   * next tick.
   */
  function MovePlayers(cfg: Config, s: GameState,
                       hitPlayer: (Player, seq<Player>) -> bool, hitWall: Player -> bool): (r: TickResult)
    requires ValidRoster(s.players)
    ensures |r.players| == |s.players|
    ensures forall i :: 0 <= i < |s.players| ==> SameIdentity(r.players[i], s.players[i])
    ensures forall i :: 0 <= i < |s.players| && s.players[i].Dead? ==> r.players[i] == s.players[i]
    ensures forall i :: 0 <= i < |s.players| && r.players[i].Alive? ==> s.players[i].Alive?
    ensures forall i :: 0 <= i < |s.players| ==>
      var ate := Ate(MoveAlive(cfg, s.players[i]), s.food);
      && r.players[i].score == s.players[i].score + (if ate then 1 else 0)
      && (r.players[i].Alive? ==> Length(r.players[i].head) == Length(s.players[i].head) + (if ate then 1 else 0))
    ensures ValidRoster(r.players)
    ensures forall k :: 0 <= k < |r.eaten| ==> AppleAt(r.eaten[k], s.food).Some?
    ensures |r.eaten| == EatersBefore(MovePhase(cfg, s.players), s.food, |s.players|)
  {
    var moved := MovePhase(cfg, s.players);
    var players := DeathPhase(GrowPhase(cfg, s.players, s.food), hitPlayer, hitWall);
    TickKeepsIdentities(cfg, s.players, s.food, hitPlayer, hitWall);
    TickScoresAndLengths(cfg, s.players, s.food, hitPlayer, hitWall);
    TickKeepsValid(cfg, s.players, s.food, hitPlayer, hitWall);
    EatenCellsAndCount(moved, s.food);
    TickResult(players, EatenApples(moved, s.food))
  }

  /** Phases 2 and 3 keep the roster's length and identities, pass the dead through and revive nobody. */
  lemma TickKeepsIdentities(cfg: Config, pre: seq<Player>, food: seq<Apple>,
                            hitPlayer: (Player, seq<Player>) -> bool, hitWall: Player -> bool)
    requires ValidRoster(pre)
    ensures var r := DeathPhase(GrowPhase(cfg, pre, food), hitPlayer, hitWall);
      && |r| == |pre|
      && (forall i :: 0 <= i < |pre| ==> SameIdentity(r[i], pre[i]))
      && (forall i :: 0 <= i < |pre| && pre[i].Dead? ==> r[i] == pre[i])
      && (forall i :: 0 <= i < |pre| && r[i].Alive? ==> pre[i].Alive?)
  {
  }

  /** Phases 2 and 3 add one point, and one segment to a survivor, exactly for the players that ate. */
  lemma TickScoresAndLengths(cfg: Config, pre: seq<Player>, food: seq<Apple>,
                             hitPlayer: (Player, seq<Player>) -> bool, hitWall: Player -> bool)
    requires ValidRoster(pre)
    ensures var r := DeathPhase(GrowPhase(cfg, pre, food), hitPlayer, hitWall);
      |r| == |pre| && forall i :: 0 <= i < |pre| ==>
        var ate := Ate(MoveAlive(cfg, pre[i]), food);
        && r[i].score == pre[i].score + (if ate then 1 else 0)
        && (r[i].Alive? ==> Length(r[i].head) == Length(pre[i].head) + (if ate then 1 else 0))
  {
  }

  /** Phases 2 and 3 keep the roster valid. */
  lemma TickKeepsValid(cfg: Config, pre: seq<Player>, food: seq<Apple>,
                       hitPlayer: (Player, seq<Player>) -> bool, hitWall: Player -> bool)
    requires ValidRoster(pre)
    ensures ValidRoster(DeathPhase(GrowPhase(cfg, pre, food), hitPlayer, hitWall))
  {
    var players := DeathPhase(GrowPhase(cfg, pre, food), hitPlayer, hitWall);
    assert UniqueIds(players) by {
      forall i, j | 0 <= i < |players| && 0 <= j < |players| && players[i].id == players[j].id
        ensures i == j
      {
        assert pre[i].id == pre[j].id;
      }
    }
  }

  /** Each payload is an apple's cell, and there is one per player that ate. */
  lemma EatenCellsAndCount(moved: seq<Player>, food: seq<Apple>)
    ensures var e := EatenApples(moved, food);
      && (forall k :: 0 <= k < |e| ==> AppleAt(e[k], food).Some?)
      && |e| == EatersBefore(moved, food, |moved|)
  {
    EatenApplesExact(moved, food);
    EatenApplesInOrder(moved, food);
  }

  /**
   * The chain of a player that survives the tick: its moved chain when its
   * moved head is on no apple, and otherwise that moved chain grown from its
   * pre-move tail (a middle and a tail where its pre-move second-to-last
   * segment and tail were).
   */
  lemma SurvivorsMoved(cfg: Config, s: GameState,
                       hitPlayer: (Player, seq<Player>) -> bool, hitWall: Player -> bool, i: int)
    requires ValidRoster(s.players) && 0 <= i < |s.players|
    requires MovePlayers(cfg, s, hitPlayer, hitWall).players[i].Alive?
    ensures var r := MovePlayers(cfg, s, hitPlayer, hitWall).players[i];
      var moved := MovePiece(cfg.rows, cfg.cols, s.players[i].head, None);
      && (!Ate(MoveAlive(cfg, s.players[i]), s.food) ==> r.head == moved)
      && (Ate(MoveAlive(cfg, s.players[i]), s.food) ==> GrownFromTail(r.head, moved, s.players[i].head))
  {
    MovePlayersPhases(cfg, s, hitPlayer, hitWall);
  }

  /** The tick's roster is the death phase applied to the growth phase. */
  lemma MovePlayersPhases(cfg: Config, s: GameState,
                          hitPlayer: (Player, seq<Player>) -> bool, hitWall: Player -> bool)
    requires ValidRoster(s.players)
    ensures MovePlayers(cfg, s, hitPlayer, hitWall).players
      == DeathPhase(GrowPhase(cfg, s.players, s.food), hitPlayer, hitWall)
  {
  }

  /**
   * Death: a player alive before the tick is dead after it exactly when,
   * after moving and growing, it hit a player of the post-growth roster or
   * a wall; it then keeps its identity and its (possibly grown) score.
   */
  lemma CollidedPlayersDie(cfg: Config, s: GameState,
                           hitPlayer: (Player, seq<Player>) -> bool, hitWall: Player -> bool, i: int)
    requires ValidRoster(s.players) && 0 <= i < |s.players| && s.players[i].Alive?
    ensures var grown := GrowPhase(cfg, s.players, s.food);
      var r := MovePlayers(cfg, s, hitPlayer, hitWall).players[i];
      && (r.Dead? <==> hitPlayer(grown[i], grown) || hitWall(grown[i]))
      && (r.Dead? ==> r == Kill(grown[i]))
  {
  }

  /** The REMOVE_APPLE actions for the eaten apples, in order. */
  function Removals(eaten: seq<Position>): seq<GameAction> {
    seq(|eaten|, k requires 0 <= k < |eaten| => RemoveApple(eaten[k]))
  }

  /** Removal actions only remove apples, one per action while there are any. */
  lemma {:induction false} RemovalsOnlyShrinkFood(cfg: Config, s: GameState, eaten: seq<Position>, draw: Draw)
    requires Valid(cfg)
    ensures var s' := ReduceAll(cfg, s, Removals(eaten), draw);
      && s' == s.(food := s'.food)
      && |s'.food| == Max(|s.food| - |eaten|, 0)
    decreases |eaten|
  {
    if |eaten| > 0 {
      var rs := Removals(eaten);
      assert rs[0] == RemoveApple(eaten[0]);
      assert rs[1..] == Removals(eaten[1..]);
      var t := Reduce(cfg, s, rs[0], draw).state;
      RemovalShrinksFood(cfg, s, eaten[0], draw);
      RemovalsOnlyShrinkFood(cfg, t, eaten[1..], draw);
    }
  }

  /** One REMOVE_APPLE removes at most one apple and touches nothing else. */
  lemma RemovalShrinksFood(cfg: Config, s: GameState, pos: Position, draw: Draw)
    requires Valid(cfg)
    ensures var t := Reduce(cfg, s, RemoveApple(pos), draw).state;
      t == s.(food := t.food) && |t.food| == Max(|s.food| - 1, 0)
  {
  }

  /** The apples lying on the cells of `eaten`, one per cell, in order. */
  function ApplesOn(eaten: seq<Position>): (a: seq<Apple>)
    ensures |a| == |eaten| && forall k :: 0 <= k < |eaten| ==> a[k].pos == eaten[k]
  {
    seq(|eaten|, k requires 0 <= k < |eaten| => Apple(eaten[k]))
  }

  /** A REMOVE_APPLE on a cell that holds an apple takes exactly one apple of that cell. */
  lemma RemovalTakesApple(cfg: Config, s: GameState, pos: Position, draw: Draw)
    requires Valid(cfg) && Apple(pos) in s.food
    ensures var t := Reduce(cfg, s, RemoveApple(pos), draw).state;
      multiset(t.food) == multiset(s.food) - multiset{Apple(pos)}
  {
    var i := FirstAppleIndex(s.food, pos);
    assert i >= 0 && s.food[i] == Apple(pos);
    assert s.food == s.food[..i] + [s.food[i]] + s.food[i + 1..];
  }

  /**
   * Removals on pairwise distinct cells, each holding an apple, take exactly
   * one apple from each of those cells and leave every other apple.
   */
  lemma {:induction false} RemovalsTakeEatenApples(cfg: Config, s: GameState, eaten: seq<Position>, draw: Draw)
    requires Valid(cfg)
    requires forall k :: 0 <= k < |eaten| ==> Apple(eaten[k]) in s.food
    requires forall j, k :: 0 <= j < k < |eaten| ==> eaten[j] != eaten[k]
    ensures multiset(ReduceAll(cfg, s, Removals(eaten), draw).food)
      == multiset(s.food) - multiset(ApplesOn(eaten))
    decreases |eaten|
  {
    var rs := Removals(eaten);
    if |eaten| == 0 {
      assert ApplesOn(eaten) == [];
    } else {
      assert rs[0] == RemoveApple(eaten[0]);
      assert rs[1..] == Removals(eaten[1..]);
      var t := Reduce(cfg, s, rs[0], draw).state;
      RemovalTakesApple(cfg, s, eaten[0], draw);
      OtherCellsKeepApples(s.food, t.food, eaten);
      RemovalsTakeEatenApples(cfg, t, eaten[1..], draw);
      ApplesOnCons(eaten);
    }
  }

  /** After one apple of the first cell is taken, the other distinct cells still hold theirs. */
  lemma OtherCellsKeepApples(food: seq<Apple>, food': seq<Apple>, eaten: seq<Position>)
    requires |eaten| > 0 && multiset(food') == multiset(food) - multiset{Apple(eaten[0])}
    requires forall k :: 0 <= k < |eaten| ==> Apple(eaten[k]) in food
    requires forall j, k :: 0 <= j < k < |eaten| ==> eaten[j] != eaten[k]
    ensures forall k :: 0 <= k < |eaten[1..]| ==> Apple(eaten[1..][k]) in food'
  {
    forall k | 0 <= k < |eaten[1..]|
      ensures Apple(eaten[1..][k]) in food'
    {
      var x := Apple(eaten[k + 1]);
      assert eaten[1..][k] == eaten[k + 1] != eaten[0];
      assert x in multiset(food);
      assert multiset(food')[x] == multiset(food)[x];
    }
  }

  /** Taking the first cell's apple and then the rest's is taking all of them. */
  lemma ApplesOnCons(eaten: seq<Position>)
    requires |eaten| > 0
    ensures forall m: multiset<Apple> ::
      (m - multiset{Apple(eaten[0])}) - multiset(ApplesOn(eaten[1..])) == m - multiset(ApplesOn(eaten))
  {
    assert ApplesOn(eaten) == [Apple(eaten[0])] + ApplesOn(eaten[1..]);
    assert multiset(ApplesOn(eaten)) == multiset{Apple(eaten[0])} + multiset(ApplesOn(eaten[1..]));
  }

  /**
   * When the apples eaten in a tick lie on pairwise distinct cells, the
   * committed tick removes exactly those apples, one per cell, and keeps
   * every other apple.
   */
  lemma CommitTickRemovesEatenApples(cfg: Config, s: GameState,
                                     hitPlayer: (Player, seq<Player>) -> bool, hitWall: Player -> bool, draw: Draw)
    requires Valid(cfg) && ValidRoster(s.players)
    requires var e := MovePlayers(cfg, s, hitPlayer, hitWall).eaten;
      forall j, k :: 0 <= j < k < |e| ==> e[j] != e[k]
    ensures multiset(CommitTick(cfg, s, hitPlayer, hitWall, draw).food)
      == multiset(s.food) - multiset(ApplesOn(MovePlayers(cfg, s, hitPlayer, hitWall).eaten))
  {
    var t := MovePlayers(cfg, s, hitPlayer, hitWall);
    var removals := Removals(t.eaten);
    forall k | 0 <= k < |t.eaten|
      ensures Apple(t.eaten[k]) in s.food
    {
      assert AppleAt(t.eaten[k], s.food).Some?;
    }
    RemovalsTakeEatenApples(cfg, s, t.eaten, draw);
    ReduceAllSplit(cfg, s, removals, [UpdatePlayers(t.players)], draw);
    var mid := ReduceAll(cfg, s, removals, draw);
    assert ReduceAll(cfg, mid, [UpdatePlayers(t.players)], draw).food == mid.food;
  }

  lemma {:induction false} ReduceAllSplit(cfg: Config, s: GameState, a: seq<GameAction>, b: seq<GameAction>, draw: Draw)
    requires Valid(cfg)
    ensures ReduceAll(cfg, s, a + b, draw) == ReduceAll(cfg, ReduceAll(cfg, s, a, draw), b, draw)
    decreases |a|
  {
    if |a| == 0 {
      assert a + b == b;
    } else {
      assert (a + b)[0] == a[0];
      assert (a + b)[1..] == a[1..] + b;
      ReduceAllSplit(cfg, Reduce(cfg, s, a[0], draw).state, a[1..], b, draw);
    }
  }

  /**
   * One committed tick: the REMOVE_APPLE actions, then one UPDATE_PLAYERS.
   * The roster becomes the tick's roster, one apple goes per apple eaten
   * (while any are left), and the counter, pause state and connections do
   * not change.
   */
  function CommitTick(cfg: Config, s: GameState,
                      hitPlayer: (Player, seq<Player>) -> bool, hitWall: Player -> bool, draw: Draw): (s': GameState)
    requires Valid(cfg) && ValidRoster(s.players)
    ensures s'.players == MovePlayers(cfg, s, hitPlayer, hitWall).players
    ensures |s'.food| == Max(|s.food| - |MovePlayers(cfg, s, hitPlayer, hitWall).eaten|, 0)
    ensures s' == s.(players := s'.players, food := s'.food)
  {
    var t := MovePlayers(cfg, s, hitPlayer, hitWall);
    var removals := Removals(t.eaten);
    RemovalsOnlyShrinkFood(cfg, s, t.eaten, draw);
    ReduceAllSplit(cfg, s, removals, [UpdatePlayers(t.players)], draw);
    ReduceAll(cfg, s, removals + [UpdatePlayers(t.players)], draw)
  }

  /**
   * A right-facing chain with its head at (5, 5) that is turned up and then
   * moved: the head goes to (5, 4) facing up; the middle goes to the head's
   * old cell and queues up, the head's direction before the move; the tail
   * goes to the middle's old cell and queues right.
   */
  lemma TurnThenMoveScenario()
    ensures var p := Alive("p1", "cow", 0, SpawnChain(Position(5, 5)), "angus");
      var turned := ChangePlayerDirection(GameState([p], [], 0, false, 0, []), "p1", Up).state.players[0];
      Segs(MovePiece(Default.rows, Default.cols, turned.head, None)) == [
        Seg(HeadKind, Position(5, 4), Up),
        Seg(MiddleKind, Position(5, 5), Up),
        Seg(TailKind, Position(4, 5), Right)]
  {
    var p := Alive("p1", "cow", 0, SpawnChain(Position(5, 5)), "angus");
    assert FindById([p], "p1") == 0;
    var turned := ChangePlayerDirection(GameState([p], [], 0, false, 0, []), "p1", Up).state.players[0];
    assert turned.head == Head(Position(5, 5), Up, p.head.next);
    assert MovePiece(Default.rows, Default.cols, turned.head, None)
      == Head(Position(5, 4), Up, Middle(Position(5, 5), Up, Tail(Position(4, 5), Right)));
  }

  /** The tick's REMOVE_APPLE payloads are those of the moved roster. */
  lemma MovePlayersEaten(cfg: Config, s: GameState,
                         hitPlayer: (Player, seq<Player>) -> bool, hitWall: Player -> bool)
    requires ValidRoster(s.players)
    ensures MovePlayers(cfg, s, hitPlayer, hitWall).eaten == EatenApples(MovePhase(cfg, s.players), s.food)
  {
  }

  /**
   * Two alive players whose moved heads share the cell of one of the two
   * apples on the board, whatever the collision tests: the tick emits two
   * REMOVE_APPLE actions for that cell; the first takes an apple there and
   * the second takes the remaining apple, so none is left.
   */
  lemma SharedAppleEatenTwice(cfg: Config, s: GameState,
                              hitPlayer: (Player, seq<Player>) -> bool, hitWall: Player -> bool, draw: Draw)
    requires Valid(cfg) && ValidRoster(s.players) && |s.players| == 2 && |s.food| == 2
    requires Ate(MoveAlive(cfg, s.players[0]), s.food) && Ate(MoveAlive(cfg, s.players[1]), s.food)
    requires MoveAlive(cfg, s.players[0]).head.pos == MoveAlive(cfg, s.players[1]).head.pos
    ensures var q := MoveAlive(cfg, s.players[0]).head.pos;
      MovePlayers(cfg, s, hitPlayer, hitWall).eaten == [q, q]
    ensures CommitTick(cfg, s, hitPlayer, hitWall, draw).food == []
  {
    SharedAppleList(cfg, s.players, s.food);
    MovePlayersEaten(cfg, s, hitPlayer, hitWall);
  }

  /** The eaten list of two players that both ate at one cell names it twice. */
  lemma SharedAppleList(cfg: Config, ps: seq<Player>, food: seq<Apple>)
    requires |ps| == 2
    requires Ate(MoveAlive(cfg, ps[0]), food) && Ate(MoveAlive(cfg, ps[1]), food)
    requires MoveAlive(cfg, ps[0]).head.pos == MoveAlive(cfg, ps[1]).head.pos
    ensures var q := MoveAlive(cfg, ps[0]).head.pos;
      EatenApples(MovePhase(cfg, ps), food) == [q, q]
  {
    var moved := MovePhase(cfg, ps);
    assert moved[..1] == [moved[0]];
    assert EatenApples(moved[..1], food) == [moved[0].head.pos];
  }

  /**
   * An instance of `SharedAppleEatenTwice`: heads at (5, 5) facing right and
   * at (6, 6) facing up both move onto the apple at (6, 5), and a second
   * apple lies at (10, 10).
   */
  lemma TwoEatersScenario()
    ensures var a := Alive("a", "ann", 0, Head(Position(5, 5), Right, Middle(Position(4, 5), Right, Tail(Position(3, 5), Right))), "angus");
      var b := Alive("b", "bob", 0, Head(Position(6, 6), Up, Middle(Position(6, 7), Up, Tail(Position(6, 8), Up))), "angus");
      var s := GameState([a, b], [Apple(Position(6, 5)), Apple(Position(10, 10))], 0, false, 0, []);
      && Valid(Default) && ValidRoster(s.players) && |s.food| == 2
      && MoveAlive(Default, a).head.pos == Position(6, 5)
      && MoveAlive(Default, b).head.pos == Position(6, 5)
      && Ate(MoveAlive(Default, a), s.food) && Ate(MoveAlive(Default, b), s.food)
  {
    var food := [Apple(Position(6, 5)), Apple(Position(10, 10))];
    assert AppleAt(Position(6, 5), food).Some?;
  }
}
