/**
 * The session reducer of resources/js/pages/games/game.ts: a pure
 * `(state, action) -> state` over the roster, the apples, the apple spawn
 * counter and the pause/resume countdown. The messages the source sends over
 * its peer connections are returned as a list instead of being sent.
 */
module Game {
  import opened Wrappers
  import opened Utils
  import opened GameConfig
  import opened Types
  import opened Cow

  /** A peer connection, known by the id of the peer at its other end. */
  datatype Connection = Connection(peer: string)

  datatype Notification = Paused | Resumed | ChangedDirection(dir: Direction)

  /** One outbound message: `connection.send(msg)`. */
  datatype Send = Send(to: Connection, msg: Notification)

  /**
   * The state the reducer reads and writes. `resumeGracePeriodSeconds` is
   * the resume countdown, 0 when no countdown is running.
   */
  datatype GameState = GameState(
    players: seq<Player>,
    food: seq<Apple>,
    ticksSinceApple: int,
    isPaused: bool,
    resumeGracePeriodSeconds: int,
    connections: seq<Connection>)

  /**
   * The actions the reducer handles, plus `TogglePause`, which the action
   * type declares but the reducer does not handle.
   */
  datatype GameAction =
    | AddPlayer(playerId: string, username: string, breed: string, connection: Connection)
    | ChangeDirection(playerId: string, direction: Direction)
    | UpdatePlayers(newPlayers: seq<Player>)
    | RemoveApple(at: Position)
    | SpawnApple
    | RequestTogglePause
    | TickResumeCountdown
    | TogglePause

  /** A new state and the messages sent while computing it. */
  datatype Transition = Transition(state: GameState, sent: seq<Send>)

  /**
   * ADD_PLAYER: appends exactly one alive player with score 0 and a
   * right-facing three-segment chain at a start position, and appends the
   * connection. Ids are not checked for duplicates. The new peer is told the
   * pause state and its initial direction.
   */
  function AddNewPlayer(cfg: Config, s: GameState, id: string, username: string, breed: string,
                        conn: Connection, draw: Draw): (t: Transition)
    requires Valid(cfg)
    ensures |t.state.players| == |s.players| + 1
    ensures t.state.players[..|s.players|] == s.players
    ensures var p := t.state.players[|s.players|];
      && p.Alive? && p.id == id && p.username == username && p.score == 0 && p.breed == breed
      && WellFormed(p.head)
      && 2 <= p.head.pos.x <= cfg.cols - 2 && 1 <= p.head.pos.y <= cfg.rows - 2
      && Segs(p.head) == [
           Seg(HeadKind, p.head.pos, Right),
           Seg(MiddleKind, Position(p.head.pos.x - 1, p.head.pos.y), Right),
           Seg(TailKind, Position(p.head.pos.x - 2, p.head.pos.y), Right)]
    ensures t.state.connections == s.connections + [conn]
    ensures t.state == s.(players := t.state.players, connections := t.state.connections)
    ensures t.sent == [Send(conn, if s.isPaused then Paused else Resumed), Send(conn, ChangedDirection(Right))]
  {
    var player := Alive(id, username, 0, SpawnChain(ChooseStartPos(cfg, draw)), breed);
    Transition(
      s.(players := s.players + [player], connections := s.connections + [conn]),
      [Send(conn, if s.isPaused then Paused else Resumed), Send(conn, ChangedDirection(Right))])
  }

  /** `broadcastTo`: the message goes to the first connection whose peer is `peer`, if any. */
  function SendTo(conns: seq<Connection>, peer: string, msg: Notification): (out: seq<Send>)
    ensures |out| <= 1
    ensures (exists c :: c in conns && c.peer == peer) <==> |out| == 1
    ensures |out| == 1 ==> out[0].to in conns && out[0].to.peer == peer && out[0].msg == msg
    ensures |out| == 1 ==>
      exists i :: 0 <= i < |conns| && out[0].to == conns[i] && forall j :: 0 <= j < i ==> conns[j].peer != peer
  {
    var peers := seq(|conns|, i requires 0 <= i < |conns| => conns[i].peer);
    assert forall i :: 0 <= i < |conns| ==> peers[i] == conns[i].peer;
    var i := FirstIndex(peers, peer);
    if i == -1 then [] else [Send(conns[i], msg)]
  }

  /** `broadcastToAll`: the message goes to every connection, in order. */
  function SendToAll(conns: seq<Connection>, msg: Notification): (out: seq<Send>)
    ensures |out| == |conns|
    ensures forall i :: 0 <= i < |conns| ==> out[i] == Send(conns[i], msg)
  {
    seq(|conns|, i requires 0 <= i < |conns| => Send(conns[i], msg))
  }

  /** The player with its head queued in direction `d`; nothing else changes. */
  function TurnHead(p: Player, d: Direction): (q: Player)
    requires p.Alive?
    ensures q.Alive? && SameIdentity(q, p) && q.score == p.score
    ensures Segs(q.head)[0] == Segs(p.head)[0].(dir := d)
    ensures Segs(q.head)[1..] == Segs(p.head)[1..]
  {
    var h := p.head.(dir := d);
    assert Segs(h)[1..] == Segs(p.head)[1..] by {
      if !h.Tail? {
        assert Segs(h)[1..] == Segs(h.next);
        assert Segs(p.head)[1..] == Segs(p.head.next);
      }
    }
    p.(head := h)
  }

  /**
   * CHANGE_DIRECTION: for an unknown id, or one whose first player is dead,
   * nothing changes and nothing is sent. Otherwise only that player's head
   * direction becomes `d`, and its own connection is told so.
   */
  function ChangePlayerDirection(s: GameState, id: string, d: Direction): (t: Transition)
    ensures var i := FindById(s.players, id);
      (i == -1 || s.players[i].Dead?) ==> t == Transition(s, [])
    ensures var i := FindById(s.players, id);
      i >= 0 && s.players[i].Alive? ==>
        && t.state == s.(players := s.players[i := TurnHead(s.players[i], d)])
        && t.sent == SendTo(s.connections, id, ChangedDirection(d))
  {
    var i := FindById(s.players, id);
    if i == -1 || !IsAlive(s.players[i]) then Transition(s, [])
    else
      Transition(
        s.(players := s.players[i := TurnHead(s.players[i], d)]),
        SendTo(s.connections, s.players[i].id, ChangedDirection(d)))
  }

  /**
   * `toSpliced(start, 1)`: a copy with the element at `start` removed, where a
   * negative `start` counts back from the end, one before the first element
   * is clamped to the first, and one past the end removes nothing.
   */
  function ToSplicedOne<T>(s: seq<T>, start: int): (r: seq<T>)
    ensures 0 <= start < |s| ==> r == s[..start] + s[start + 1..]
    ensures -|s| <= start < 0 ==> r == s[..|s| + start] + s[|s| + start + 1..]
    ensures start >= |s| ==> r == s
    ensures start < -|s| && |s| > 0 ==> r == s[1..]
    ensures |s| == 0 ==> r == []
  {
    var k := if start < 0 then Max(|s| + start, 0) else Min(start, |s|);
    if k < |s| then s[..k] + s[k + 1..] else s
  }

  /**
   * REMOVE_APPLE: removes exactly the first apple at `pos`. When no apple is
   * there the search yields -1, and `toSpliced(-1, 1)` removes the LAST apple.
   */
  function RemoveAppleAt(s: GameState, pos: Position): (t: Transition)
    ensures t.state == s.(food := t.state.food) && t.sent == []
    ensures var i := FirstAppleIndex(s.food, pos);
      i >= 0 ==> t.state.food == s.food[..i] + s.food[i + 1..]
    ensures FirstAppleIndex(s.food, pos) == -1 && |s.food| > 0 ==>
      t.state.food == s.food[..|s.food| - 1]
    ensures |s.food| == 0 ==> t.state.food == []
    ensures |t.state.food| == Max(|s.food| - 1, 0)
  {
    var i := FirstAppleIndex(s.food, pos);
    var food := ToSplicedOne(s.food, i);
    if i >= 0 then
      assert food == s.food[..i] + s.food[i + 1..];
      Transition(s.(food := food), [])
    else if |s.food| == 0 then
      Transition(s.(food := food), [])
    else
      assert food == s.food[..|s.food| - 1] + s.food[|s.food|..];
      Transition(s.(food := food), [])
  }

  /**
   * SPAWN_APPLE: below the apple rate the counter is incremented and
   * nothing else changes; at or above it exactly one apple is appended at a
   * start position and the counter is reset to 0.
   */
  function SpawnAnApple(cfg: Config, s: GameState, draw: Draw): (t: Transition)
    requires Valid(cfg)
    ensures t.sent == []
    ensures s.ticksSinceApple < cfg.appleRate ==>
      t.state == s.(ticksSinceApple := s.ticksSinceApple + 1)
    ensures s.ticksSinceApple >= cfg.appleRate ==>
      && t.state == s.(food := t.state.food, ticksSinceApple := 0)
      && |t.state.food| == |s.food| + 1
      && t.state.food[..|s.food|] == s.food
      && var a := t.state.food[|s.food|];
         2 <= a.pos.x <= cfg.cols - 2 && 1 <= a.pos.y <= cfg.rows - 2
  {
    if s.ticksSinceApple < cfg.appleRate then
      Transition(s.(ticksSinceApple := s.ticksSinceApple + 1), [])
    else
      Transition(s.(food := s.food + [Apple(ChooseStartPos(cfg, draw))], ticksSinceApple := 0), [])
  }

  /**
   * REQUEST_TOGGLE_PAUSE: running becomes paused (countdown untouched, every
   * connection told); paused with no countdown starts the countdown at the
   * grace period and stays paused; paused with a countdown running is a no-op.
   */
  function RequestPauseToggle(cfg: Config, s: GameState): (t: Transition)
    ensures !s.isPaused ==>
      t.state == s.(isPaused := true) && t.sent == SendToAll(s.connections, Paused)
    ensures s.isPaused && s.resumeGracePeriodSeconds > 0 ==> t == Transition(s, [])
    ensures s.isPaused && s.resumeGracePeriodSeconds <= 0 ==>
      t.state == s.(resumeGracePeriodSeconds := cfg.resumeGracePeriod) && t.sent == []
  {
    if !s.isPaused then
      Transition(s.(isPaused := true), SendToAll(s.connections, Paused))
    else if s.resumeGracePeriodSeconds > 0 then
      Transition(s, [])
    else
      Transition(s.(resumeGracePeriodSeconds := cfg.resumeGracePeriod), [])
  }

  /**
   * TICK_RESUME_COUNTDOWN: the countdown drops by one; when that reaches 0
   * or below, the game unpauses with the countdown at 0 and every connection
   * is told, otherwise it stays as it was apart from the countdown.
   */
  function TickCountdown(s: GameState): (t: Transition)
    ensures s.resumeGracePeriodSeconds - 1 <= 0 ==>
      t.state == s.(isPaused := false, resumeGracePeriodSeconds := 0)
      && t.sent == SendToAll(s.connections, Resumed)
    ensures s.resumeGracePeriodSeconds - 1 > 0 ==>
      t.state == s.(resumeGracePeriodSeconds := s.resumeGracePeriodSeconds - 1) && t.sent == []
    ensures t.state.resumeGracePeriodSeconds >= 0
  {
    var newValue := s.resumeGracePeriodSeconds - 1;
    if newValue <= 0 then
      Transition(s.(isPaused := false, resumeGracePeriodSeconds := 0), SendToAll(s.connections, Resumed))
    else
      Transition(s.(resumeGracePeriodSeconds := newValue), [])
  }

  /**
   * `reducer(state, action)`. UPDATE_PLAYERS replaces only the roster, and an
   * action the reducer does not handle leaves the state unchanged. The draw
   * feeds the start position of ADD_PLAYER and SPAWN_APPLE.
   */
  function Reduce(cfg: Config, s: GameState, a: GameAction, draw: Draw): (t: Transition)
    requires Valid(cfg)
    ensures a.UpdatePlayers? ==> t == Transition(s.(players := a.newPlayers), [])
    ensures a.TogglePause? ==> t == Transition(s, [])
    ensures !a.AddPlayer? ==> t.state.connections == s.connections
    ensures !a.UpdatePlayers? && !a.AddPlayer? && !a.ChangeDirection? ==> t.state.players == s.players
  {
    match a
    case AddPlayer(id, username, breed, conn) => AddNewPlayer(cfg, s, id, username, breed, conn, draw)
    case ChangeDirection(id, d) => ChangePlayerDirection(s, id, d)
    case UpdatePlayers(ps) => Transition(s.(players := ps), [])
    case RemoveApple(pos) => RemoveAppleAt(s, pos)
    case SpawnApple => SpawnAnApple(cfg, s, draw)
    case RequestTogglePause => RequestPauseToggle(cfg, s)
    case TickResumeCountdown => TickCountdown(s)
    case TogglePause => Transition(s, [])
  }

  /** Applies a sequence of actions in order, all with the same draw. */
  function ReduceAll(cfg: Config, s: GameState, actions: seq<GameAction>, draw: Draw): GameState
    requires Valid(cfg)
    decreases |actions|
  {
    if |actions| == 0 then s
    else ReduceAll(cfg, Reduce(cfg, s, actions[0], draw).state, actions[1..], draw)
  }

  /**
   * The pause flag and the countdown agree: the countdown is never negative
   * and only runs while paused.
   */
  predicate PauseConsistent(s: GameState) {
    s.resumeGracePeriodSeconds >= 0 && (s.resumeGracePeriodSeconds > 0 ==> s.isPaused)
  }

  /** Running (not paused), Paused (no countdown) or Resuming (paused, countdown running). */
  datatype PausePhase = Running | PausedPhase | Resuming

  function PhaseOf(s: GameState): PausePhase {
    if !s.isPaused then Running
    else if s.resumeGracePeriodSeconds > 0 then Resuming
    else PausedPhase
  }

  /** Every action keeps the pause flag and the countdown consistent. */
  lemma ReducePreservesPauseConsistency(cfg: Config, s: GameState, a: GameAction, draw: Draw)
    requires Valid(cfg) && PauseConsistent(s)
    ensures PauseConsistent(Reduce(cfg, s, a, draw).state)
  {
  }

  /**
   * A pause request moves Running to Paused (countdown untouched), Paused
   * to Resuming with the full grace period, and leaves Resuming alone.
   */
  lemma TogglePauseMachine(cfg: Config, s: GameState)
    requires Valid(cfg) && cfg.resumeGracePeriod > 0 && PauseConsistent(s)
    ensures var s' := RequestPauseToggle(cfg, s).state;
      && (PhaseOf(s) == Running ==>
            PhaseOf(s') == PausedPhase && s'.resumeGracePeriodSeconds == s.resumeGracePeriodSeconds)
      && (PhaseOf(s) == PausedPhase ==>
            PhaseOf(s') == Resuming && s'.resumeGracePeriodSeconds == cfg.resumeGracePeriod)
      && (PhaseOf(s) == Resuming ==> s' == s)
  {
  }

  /** `n` pause requests in a row. */
  function ToggleTimes(cfg: Config, s: GameState, n: nat): GameState
    decreases n
  {
    if n == 0 then s else ToggleTimes(cfg, RequestPauseToggle(cfg, s).state, n - 1)
  }

  /** While resuming, any number of pause requests changes nothing. */
  lemma {:induction false} TogglesWhileResumingAreNoOps(cfg: Config, s: GameState, n: nat)
    requires PhaseOf(s) == Resuming
    ensures ToggleTimes(cfg, s, n) == s
    decreases n
  {
    if n > 0 {
      assert RequestPauseToggle(cfg, s).state == s;
      TogglesWhileResumingAreNoOps(cfg, s, n - 1);
    }
  }

  /**
   * From Paused, a burst of pause requests has the effect of the first one
   * alone: the countdown starts once and is not restarted.
   */
  lemma RepeatedResumeRequests(cfg: Config, s: GameState, n: nat)
    requires cfg.resumeGracePeriod > 0 && PhaseOf(s) == PausedPhase
    ensures ToggleTimes(cfg, s, n + 1) == RequestPauseToggle(cfg, s).state
  {
    var s1 := RequestPauseToggle(cfg, s).state;
    assert PhaseOf(s1) == Resuming;
    TogglesWhileResumingAreNoOps(cfg, s1, n);
  }

  /** `k` countdown ticks in a row. */
  function TickTimes(s: GameState, k: nat): GameState
    decreases k
  {
    if k == 0 then s else TickCountdown(TickTimes(s, k - 1)).state
  }

  /**
   * A countdown of `N` seconds stays paused for `N - 1` ticks, counting
   * down by one each time, and reaches Running on exactly the `N`-th tick,
   * never going negative.
   */
  lemma {:induction false} CountdownReachesRunning(s: GameState, k: nat)
    requires s.isPaused && s.resumeGracePeriodSeconds >= 1
    requires k <= s.resumeGracePeriodSeconds
    ensures var s' := TickTimes(s, k);
      && s'.players == s.players && s'.food == s.food && s'.connections == s.connections
      && (k < s.resumeGracePeriodSeconds ==>
            s'.isPaused && s'.resumeGracePeriodSeconds == s.resumeGracePeriodSeconds - k)
      && (k == s.resumeGracePeriodSeconds ==> !s'.isPaused && s'.resumeGracePeriodSeconds == 0)
    decreases k
  {
    if k > 0 {
      CountdownReachesRunning(s, k - 1);
    }
  }

  /** The grace period set by a resume request is used up by exactly that many ticks. */
  lemma ResumeTakesGracePeriodTicks(cfg: Config, s: GameState)
    requires cfg.resumeGracePeriod > 0 && PhaseOf(s) == PausedPhase
    ensures var r := RequestPauseToggle(cfg, s).state;
      && (forall k: nat :: k < cfg.resumeGracePeriod ==> PhaseOf(TickTimes(r, k)) == Resuming)
      && PhaseOf(TickTimes(r, cfg.resumeGracePeriod)) == Running
  {
    var r := RequestPauseToggle(cfg, s).state;
    forall k: nat | k < cfg.resumeGracePeriod
      ensures PhaseOf(TickTimes(r, k)) == Resuming
    {
      CountdownReachesRunning(r, k);
    }
    CountdownReachesRunning(r, cfg.resumeGracePeriod);
  }

  /** A countdown tick with no countdown running unpauses at once. */
  lemma TickAtZeroUnpauses(s: GameState)
    requires s.resumeGracePeriodSeconds == 0
    ensures PhaseOf(TickCountdown(s).state) == Running
  {
  }

  /** Spawn requests in a row, one draw each. */
  function SpawnTimes(cfg: Config, s: GameState, draws: seq<Draw>): GameState
    requires Valid(cfg)
    decreases |draws|
  {
    if |draws| == 0 then s else SpawnTimes(cfg, SpawnAnApple(cfg, s, draws[0]).state, draws[1..])
  }

  /** The spawn counter stays within `[0, appleRate]` once it starts there. */
  lemma SpawnCounterBounded(cfg: Config, s: GameState, draw: Draw)
    requires Valid(cfg) && 0 <= s.ticksSinceApple <= cfg.appleRate
    ensures 0 <= SpawnAnApple(cfg, s, draw).state.ticksSinceApple <= cfg.appleRate
  {
  }

  /** While the counter stays below the rate, spawn requests only count. */
  lemma {:induction false} SpawnsBelowRateOnlyCount(cfg: Config, s: GameState, draws: seq<Draw>)
    requires Valid(cfg) && 0 <= s.ticksSinceApple
    requires s.ticksSinceApple + |draws| <= cfg.appleRate
    ensures SpawnTimes(cfg, s, draws) == s.(ticksSinceApple := s.ticksSinceApple + |draws|)
    decreases |draws|
  {
    if |draws| > 0 {
      SpawnsBelowRateOnlyCount(cfg, SpawnAnApple(cfg, s, draws[0]).state, draws[1..]);
    }
  }

  /**
   * After a reset, the first `appleRate` spawn requests place nothing and
   * the next one places exactly one apple and resets the counter.
   */
  lemma SpawnOnRatePlusOneth(cfg: Config, s: GameState, draws: seq<Draw>)
    requires Valid(cfg) && s.ticksSinceApple == 0
    requires |draws| == cfg.appleRate + 1
    ensures SpawnTimes(cfg, s, draws[..cfg.appleRate]).food == s.food
    ensures var s' := SpawnTimes(cfg, s, draws);
      && |s'.food| == |s.food| + 1 && s'.food[..|s.food|] == s.food
      && s'.ticksSinceApple == 0
  {
    var before := draws[..cfg.appleRate];
    SpawnsBelowRateOnlyCount(cfg, s, before);
    SpawnTimesSplit(cfg, s, before, draws[cfg.appleRate..]);
    assert before + draws[cfg.appleRate..] == draws;
  }

  lemma {:induction false} SpawnTimesSplit(cfg: Config, s: GameState, a: seq<Draw>, b: seq<Draw>)
    requires Valid(cfg)
    ensures SpawnTimes(cfg, s, a + b) == SpawnTimes(cfg, SpawnTimes(cfg, s, a), b)
    decreases |a|
  {
    if |a| == 0 {
      assert a + b == b;
    } else {
      assert (a + b)[0] == a[0];
      assert (a + b)[1..] == a[1..] + b;
      SpawnTimesSplit(cfg, SpawnAnApple(cfg, s, a[0]).state, a[1..], b);
    }
  }
}
