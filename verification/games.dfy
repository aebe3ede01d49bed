/**
 * The game coordinator of plugins/Routing.kt, as values: the module-level
 * maps `games`, `actualGames`, the list `freeGamesIds`, the `sessions`
 * registry of plugins/WebSocket.kt and a log of every message actually
 * sent. `CreateGame` and `MakeTurn` give the effect of the `/createGame`
 * and `/makeTurn` handlers on that state; the class `GameServer.GameServer`
 * runs them in place and is proved to agree with them.
 */
module Games {
  import opened Wrappers
  import opened Board
  import opened Messages
  import opened Sessions

  datatype Status =
    | WaitingForSecondPlayer(id: string, name: string)
    | InProgress(id: string, name: string)

  datatype Game = Game(gameId: string, status: Status)

  /** The value of an `ActualGame`: its board and the two player ids. */
  datatype Match = Match(field: Grid, player1Id: string, player2Id: string)

  /** One `sendSerialized` that happened: to whom, on which connection, what. */
  datatype Delivery = Delivery(recipient: string, conn: Conn, msg: Message)

  datatype State = State(
    games: map<string, Game>,
    actualGames: map<string, Match>,
    freeGamesIds: seq<string>,
    sessions: Registry,
    outbox: seq<Delivery>)

  /** What `/createGame` responds with, or the failed cast of line 134. */
  datatype JoinResult = Responded(game: Game) | CastFailure

  /**
   * How `/makeTurn` ends: a 404 response, a 200 response, a return with no
   * response at all, or an index exception from the unchecked coordinates.
   */
  datatype TurnResult = NotFound | Ok | ReturnedWithoutResponse | IndexOutOfBounds

  /** The state at start-up: everything empty. */
  const Initial := State(map[], map[], [], map[], [])

  /** `sessions[to]?.sendSerialized(msg)`: delivered only if `to` is registered. */
  function Send(sessions: Registry, to: string, msg: Message): (d: seq<Delivery>)
    ensures |d| <= 1
    ensures d != [] <==> to in sessions
    ensures d != [] ==> d[0] == Delivery(to, sessions[to], msg)
  {
    if to in sessions then [Delivery(to, sessions[to], msg)] else []
  }

  /** Every cell is empty or holds one of the two marks. */
  ghost predicate MarksOnly(g: Grid) {
    forall i, j | 0 <= i < 3 && 0 <= j < 3 :: 0 <= g.At(i, j) <= 2
  }

  /**
   * What every reachable state satisfies. Since `freeGamesIds` is appended
   * to only when it is empty and never shrunk, it holds at most one id, and
   * the games are exactly those under the pooled ids.
   */
  ghost predicate Inv(s: State)
    ensures Inv(s) ==> forall k | k in s.actualGames :: k in s.freeGamesIds
  {
    && |s.freeGamesIds| <= 1
    && (forall k | k in s.games :: k in s.freeGamesIds && s.games[k].gameId == k)
    && (forall i | 0 <= i < |s.freeGamesIds| :: s.freeGamesIds[i] in s.games)
    && (forall k | k in s.actualGames ::
          && k in s.games
          && s.games[k].status.InProgress?
          && s.actualGames[k].player1Id == s.games[k].status.id
          && MarksOnly(s.actualGames[k].field))
    && (forall k | k in s.games && s.games[k].status.InProgress? :: k in s.actualGames)
  }

  /** `/createGame` with form parameters id and name; freshId stands for the random UUID. */
  ghost function CreateGame(s: State, id: string, name: string, freshId: string): (r: (State, JoinResult))
    ensures r.0.sessions == s.sessions
    ensures s.outbox <= r.0.outbox && |r.0.outbox| <= |s.outbox| + 1
    ensures s.actualGames.Keys <= r.0.actualGames.Keys
    ensures r.1.CastFailure? ==> r.0.games == s.games && r.0.actualGames == s.actualGames && r.0.outbox == s.outbox
  {
    var ids := if s.freeGamesIds == [] then [freshId] else s.freeGamesIds;
    var gameId := ids[0];
    if gameId in s.games then
      match s.games[gameId].status
      case InProgress(_, _) =>
        (s.(freeGamesIds := ids), CastFailure)
      case WaitingForSecondPlayer(waiting, waitingName) =>
        var game := Game(gameId, InProgress(waiting, waitingName));
        (s.(freeGamesIds := ids,
            outbox := s.outbox + Send(s.sessions, waiting, FoundSecondPlayer(id)),
            actualGames := s.actualGames[gameId := Match(EmptyGrid, waiting, id)],
            games := s.games[gameId := game]),
         Responded(game))
    else
      var game := Game(gameId, WaitingForSecondPlayer(id, name));
      (s.(freeGamesIds := ids,
          outbox := s.outbox + Send(s.sessions, id, GameCreated(id)),
          games := s.games[gameId := game]),
       Responded(game))
  }

  /** The mark a player writes: player1 is compared first. */
  function MarkOf(m: Match, playerId: string): (mark: int)
    requires playerId == m.player1Id || playerId == m.player2Id
    ensures mark == 1 <==> playerId == m.player1Id
    ensures mark == 2 ==> playerId == m.player2Id && playerId != m.player1Id
  {
    if playerId == m.player1Id then 1 else 2
  }

  /** The `GameEnded` events for a verdict, to player1 then player2. */
  function EndEvents(sessions: Registry, player1Id: string, player2Id: string, verdict: Option<int>): (d: seq<Delivery>)
    ensures |d| <= 2
    ensures forall k | 0 <= k < |d| :: d[k].msg.GameEnded? && (d[k].recipient == player1Id || d[k].recipient == player2Id)
    ensures verdict != Some(1) && verdict != Some(2) ==> d == []
  {
    match verdict
    case Some(1) =>
      Send(sessions, player1Id, GameEnded(player1Id)) + Send(sessions, player2Id, GameEnded(player1Id))
    case Some(2) =>
      Send(sessions, player1Id, GameEnded(player2Id)) + Send(sessions, player2Id, GameEnded(player2Id))
    case _ => []
  }

  /** The answer to `/makeTurn` for a verdict: none is sent for a verdict other than null, 1 or 2. */
  function Answer(verdict: Option<int>): (r: TurnResult)
    ensures r == Ok || r == ReturnedWithoutResponse
    ensures verdict == Some(0) ==> r == ReturnedWithoutResponse
  {
    if verdict.None? || verdict == Some(1) || verdict == Some(2) then Ok else ReturnedWithoutResponse
  }

  /**
   * What `/makeTurn` does once the cell is written, for the board m that
   * now holds the turn: `TurnMade` to both players, the `GameEnded` events
   * of the verdict, and the answer.
   */
  function Announce(sessions: Registry, m: Match): (r: (seq<Delivery>, TurnResult))
    ensures |r.0| <= 4
    ensures forall k | 0 <= k < |r.0| :: r.0[k].recipient == m.player1Id || r.0[k].recipient == m.player2Id
    ensures r.1 == Ok || r.1 == ReturnedWithoutResponse
  {
    var verdict := Verdict(m.field);
    (Send(sessions, m.player1Id, TurnMade(m.field)) + Send(sessions, m.player2Id, TurnMade(m.field))
       + EndEvents(sessions, m.player1Id, m.player2Id, verdict),
     Answer(verdict))
  }

  /** `/makeTurn` with form parameters gameId, playerId, turnX and turnY. */
  function MakeTurn(s: State, gameId: string, playerId: string, x: int, y: int): (r: (State, TurnResult))
    ensures r.0.games == s.games && r.0.freeGamesIds == s.freeGamesIds && r.0.sessions == s.sessions
    ensures r.0.actualGames.Keys == s.actualGames.Keys && s.outbox <= r.0.outbox
    ensures r.1 == NotFound || r.1 == IndexOutOfBounds ==> r.0 == s
  {
    if gameId !in s.actualGames then (s, NotFound)
    else
      var m := s.actualGames[gameId];
      if playerId != m.player1Id && playerId != m.player2Id then (s, NotFound)
      else if !(0 <= x < 3 && 0 <= y < 3) then (s, IndexOutOfBounds)
      else
        var m' := m.(field := Put(m.field, x, y, MarkOf(m, playerId)));
        var (events, r) := Announce(s.sessions, m');
        (s.(actualGames := s.actualGames[gameId := m'], outbox := s.outbox + events), r)
  }

  /** The played case of `/makeTurn`, spelled out for callers that build the new state step by step. */
  lemma PlayedTurn(s: State, gameId: string, playerId: string, x: int, y: int)
    requires gameId in s.actualGames
    requires playerId == s.actualGames[gameId].player1Id || playerId == s.actualGames[gameId].player2Id
    requires 0 <= x < 3 && 0 <= y < 3
    ensures var m := s.actualGames[gameId];
      var m' := m.(field := Put(m.field, x, y, MarkOf(m, playerId)));
      MakeTurn(s, gameId, playerId, x, y)
        == (s.(actualGames := s.actualGames[gameId := m'], outbox := s.outbox + Announce(s.sessions, m').0),
            Announce(s.sessions, m').1)
  {
  }

  // ---------------------------------------------------------------------
  // The invariant

  lemma InitialInv()
    ensures Inv(Initial)
  {
  }

  /** Only one game ever exists: every game is keyed by the single pooled id. */
  lemma AtMostOneGame(s: State)
    requires Inv(s)
    ensures |s.games| <= 1 && |s.actualGames| <= 1
  {
    assert s.games.Keys <= set k | k in s.freeGamesIds;
    if s.freeGamesIds == [] {
      assert s.games.Keys == {};
    } else {
      assert (set k | k in s.freeGamesIds) == {s.freeGamesIds[0]};
      SubsetCard(s.games.Keys, {s.freeGamesIds[0]});
    }
    assert s.actualGames.Keys <= s.games.Keys;
    SubsetCard(s.actualGames.Keys, s.games.Keys);
  }

  lemma SubsetCard<T>(a: set<T>, b: set<T>)
    requires a <= b
    ensures |a| <= |b|
  {
    assert b == a + (b - a);
  }

  lemma CreateGamePreservesInv(s: State, id: string, name: string, freshId: string)
    requires Inv(s)
    ensures Inv(CreateGame(s, id, name, freshId).0)
  {
    var s' := CreateGame(s, id, name, freshId).0;
    var gameId := s'.freeGamesIds[0];
    if gameId in s.games && s.games[gameId].status.WaitingForSecondPlayer? {
      assert gameId !in s.actualGames;
      var f := s'.actualGames[gameId].field;
      assert f == EmptyGrid;
      assert MarksOnly(f);
    }
  }

  lemma MakeTurnPreservesInv(s: State, gameId: string, playerId: string, x: int, y: int)
    requires Inv(s)
    ensures Inv(MakeTurn(s, gameId, playerId, x, y).0)
  {
    var s' := MakeTurn(s, gameId, playerId, x, y).0;
    if s' != s {
      var m := s.actualGames[gameId];
      var f := s'.actualGames[gameId].field;
      assert f == Put(m.field, x, y, MarkOf(m, playerId));
      forall i, j | 0 <= i < 3 && 0 <= j < 3 ensures 0 <= f.At(i, j) <= 2 {
        if i != x || j != y { assert f.At(i, j) == m.field.At(i, j); }
      }
    }
  }

  // ---------------------------------------------------------------------
  // `/createGame`

  /** Every call picks the first pooled id; the pool grows only from empty, by the fresh id. */
  lemma PoolNeverShrinks(s: State, id: string, name: string, freshId: string)
    ensures var s' := CreateGame(s, id, name, freshId).0;
      && s'.freeGamesIds == (if s.freeGamesIds == [] then [freshId] else s.freeGamesIds)
      && s.freeGamesIds <= s'.freeGamesIds
  {
  }

  /** With an empty pool a new waiting game is created under the fresh id. */
  lemma CreateOnEmptyPool(s: State, id: string, name: string, freshId: string)
    requires Inv(s) && s.freeGamesIds == []
    ensures var (s', r) := CreateGame(s, id, name, freshId);
      && r == Responded(Game(freshId, WaitingForSecondPlayer(id, name)))
      && s'.freeGamesIds == [freshId]
      && s'.games == s.games[freshId := Game(freshId, WaitingForSecondPlayer(id, name))]
      && s'.actualGames == s.actualGames
      && s'.sessions == s.sessions
      && s'.outbox == s.outbox + Send(s.sessions, id, GameCreated(id))
  {
    assert s.games == map[];
  }

  /** A join to a waiting game starts it under the waiting player's id and name. */
  lemma JoinWaitingGame(s: State, id: string, name: string, freshId: string)
    requires s.freeGamesIds != []
    requires s.freeGamesIds[0] in s.games
    requires s.games[s.freeGamesIds[0]].status.WaitingForSecondPlayer?
    ensures var gameId := s.freeGamesIds[0];
      var waiting := s.games[gameId].status.id;
      var waitingName := s.games[gameId].status.name;
      var game := Game(gameId, InProgress(waiting, waitingName));
      CreateGame(s, id, name, freshId)
        == (s.(games := s.games[gameId := game],
               actualGames := s.actualGames[gameId := Match(EmptyGrid, waiting, id)],
               outbox := s.outbox + Send(s.sessions, waiting, FoundSecondPlayer(id))),
            Responded(game))
  {
  }

  /** A join once the game is in progress fails on the cast and changes nothing. */
  lemma JoinStartedGameFails(s: State, id: string, name: string, freshId: string)
    requires Inv(s)
    requires s.freeGamesIds != [] && s.freeGamesIds[0] in s.games
    requires s.games[s.freeGamesIds[0]].status.InProgress?
    ensures CreateGame(s, id, name, freshId) == (s, CastFailure)
  {
  }

  /**
   * Three joins from start-up: the first waits, the second starts the game
   * under the first player's id and name, the third fails on the cast.
   */
  lemma ThreeJoins(id1: string, n1: string, id2: string, n2: string, id3: string, n3: string,
                   sessions: Registry, fresh1: string, fresh2: string, fresh3: string)
    ensures
      var s0 := Initial.(sessions := sessions);
      var (s1, r1) := CreateGame(s0, id1, n1, fresh1);
      var (s2, r2) := CreateGame(s1, id2, n2, fresh2);
      var (s3, r3) := CreateGame(s2, id3, n3, fresh3);
      && r1 == Responded(Game(fresh1, WaitingForSecondPlayer(id1, n1)))
      && r2 == Responded(Game(fresh1, InProgress(id1, n1)))
      && s2.actualGames == map[fresh1 := Match(EmptyGrid, id1, id2)]
      && s2.outbox == Send(sessions, id1, GameCreated(id1)) + Send(sessions, id1, FoundSecondPlayer(id2))
      && r3 == CastFailure && s3 == s2
  {
    var s0 := Initial.(sessions := sessions);
    InitialInv();
    var s1 := CreateGame(s0, id1, n1, fresh1).0;
    CreateOnEmptyPool(s0, id1, n1, fresh1);
    CreateGamePreservesInv(s0, id1, n1, fresh1);
    JoinWaitingGame(s1, id2, n2, fresh2);
    var s2 := CreateGame(s1, id2, n2, fresh2).0;
    CreateGamePreservesInv(s1, id2, n2, fresh2);
    JoinStartedGameFails(s2, id3, n3, fresh3);
  }

  // ---------------------------------------------------------------------
  // `/makeTurn`

  /** An unknown game, or a player who is in neither seat, gets 404 and changes nothing. */
  lemma MakeTurnNotFound(s: State, gameId: string, playerId: string, x: int, y: int)
    requires gameId !in s.actualGames ||
      (playerId != s.actualGames[gameId].player1Id && playerId != s.actualGames[gameId].player2Id)
    ensures MakeTurn(s, gameId, playerId, x, y) == (s, NotFound)
  {
  }

  /** Coordinates outside 0..2 throw before anything is written or sent. */
  lemma MakeTurnOutOfRange(s: State, gameId: string, playerId: string, x: int, y: int)
    requires gameId in s.actualGames
    requires playerId == s.actualGames[gameId].player1Id || playerId == s.actualGames[gameId].player2Id
    requires !(0 <= x < 3 && 0 <= y < 3)
    ensures MakeTurn(s, gameId, playerId, x, y) == (s, IndexOutOfBounds)
  {
  }

  /**
   * A turn by a seated player writes exactly one cell, overwriting it with
   * the player's mark (1 when the player is player1, even if also player2),
   * and changes nothing else but the log of sent messages.
   */
  lemma MakeTurnWritesOneCell(s: State, gameId: string, playerId: string, x: int, y: int)
    requires gameId in s.actualGames
    requires playerId == s.actualGames[gameId].player1Id || playerId == s.actualGames[gameId].player2Id
    requires 0 <= x < 3 && 0 <= y < 3
    ensures var m := s.actualGames[gameId];
      var s' := MakeTurn(s, gameId, playerId, x, y).0;
      && s'.games == s.games && s'.freeGamesIds == s.freeGamesIds && s'.sessions == s.sessions
      && s'.actualGames.Keys == s.actualGames.Keys
      && (forall k | k in s.actualGames && k != gameId :: s'.actualGames[k] == s.actualGames[k])
      && var m' := s'.actualGames[gameId];
      && m'.player1Id == m.player1Id && m'.player2Id == m.player2Id
      && m'.field.At(x, y) == (if playerId == m.player1Id then 1 else 2)
      && forall i, j | 0 <= i < 3 && 0 <= j < 3 && (i != x || j != y) :: m'.field.At(i, j) == m.field.At(i, j)
  {
  }

  /**
   * After the write: `TurnMade` to player1 then player2; for a verdict of 1
   * or 2 `GameEnded` naming that player, to player1 then player2, and 200;
   * for null 200 and nothing more; for any other verdict no response.
   */
  lemma MakeTurnEvents(s: State, gameId: string, playerId: string, x: int, y: int)
    requires gameId in s.actualGames
    requires playerId == s.actualGames[gameId].player1Id || playerId == s.actualGames[gameId].player2Id
    requires 0 <= x < 3 && 0 <= y < 3
    ensures var m := s.actualGames[gameId];
      var (s', r) := MakeTurn(s, gameId, playerId, x, y);
      var field := s'.actualGames[gameId].field;
      var verdict := Verdict(field);
      var turn := Send(s.sessions, m.player1Id, TurnMade(field)) + Send(s.sessions, m.player2Id, TurnMade(field));
      && (verdict == Some(1) ==>
            && s'.outbox == s.outbox + turn
                 + Send(s.sessions, m.player1Id, GameEnded(m.player1Id))
                 + Send(s.sessions, m.player2Id, GameEnded(m.player1Id))
            && r == Ok)
      && (verdict == Some(2) ==>
            && s'.outbox == s.outbox + turn
                 + Send(s.sessions, m.player1Id, GameEnded(m.player2Id))
                 + Send(s.sessions, m.player2Id, GameEnded(m.player2Id))
            && r == Ok)
      && (verdict.None? ==> s'.outbox == s.outbox + turn && r == Ok)
      && (verdict.Some? && verdict.value != 1 && verdict.value != 2 ==>
            s'.outbox == s.outbox + turn && r == ReturnedWithoutResponse)
  {
    var m := s.actualGames[gameId];
    var field := MakeTurn(s, gameId, playerId, x, y).0.actualGames[gameId].field;
    var turn := Send(s.sessions, m.player1Id, TurnMade(field)) + Send(s.sessions, m.player2Id, TurnMade(field));
    match Verdict(field)
    case Some(1) =>
      assert s.outbox + turn + (Send(s.sessions, m.player1Id, GameEnded(m.player1Id))
            + Send(s.sessions, m.player2Id, GameEnded(m.player1Id))) == s.outbox + turn
            + Send(s.sessions, m.player1Id, GameEnded(m.player1Id))
            + Send(s.sessions, m.player2Id, GameEnded(m.player1Id));
    case Some(2) =>
      assert s.outbox + turn + (Send(s.sessions, m.player1Id, GameEnded(m.player2Id))
            + Send(s.sessions, m.player2Id, GameEnded(m.player2Id))) == s.outbox + turn
            + Send(s.sessions, m.player1Id, GameEnded(m.player2Id))
            + Send(s.sessions, m.player2Id, GameEnded(m.player2Id));
    case _ =>
      assert s.outbox + turn + [] == s.outbox + turn;
  }

  /** In a reachable state a turn ends without a response exactly when the verdict is 0. */
  lemma NoResponseMeansZeroVerdict(s: State, gameId: string, playerId: string, x: int, y: int)
    requires Inv(s) && gameId in s.actualGames
    requires playerId == s.actualGames[gameId].player1Id || playerId == s.actualGames[gameId].player2Id
    requires 0 <= x < 3 && 0 <= y < 3
    ensures var (s', r) := MakeTurn(s, gameId, playerId, x, y);
      r == ReturnedWithoutResponse <==> Verdict(s'.actualGames[gameId].field) == Some(0)
  {
    MakeTurnPreservesInv(s, gameId, playerId, x, y);
    MakeTurnEvents(s, gameId, playerId, x, y);
    var s' := MakeTurn(s, gameId, playerId, x, y).0;
    VerdictIsAMark(s'.actualGames[gameId].field);
  }

  /** On a board holding only 0, 1 and 2 the verdict is one of those. */
  lemma VerdictIsAMark(g: Grid)
    requires MarksOnly(g)
    ensures Verdict(g).Some? ==> 0 <= Verdict(g).value <= 2
  {
    assert 0 <= g.At(0, 0) <= 2 && 0 <= g.At(1, 0) <= 2 && 0 <= g.At(2, 0) <= 2;
    assert 0 <= g.At(0, 1) <= 2 && 0 <= g.At(0, 2) <= 2;
  }

  /** The first turn on a new game never gets a 200 response and never ends the game. */
  lemma FirstTurnGetsNoResponse(s: State, gameId: string, playerId: string, x: int, y: int)
    requires gameId in s.actualGames && s.actualGames[gameId].field == EmptyGrid
    requires playerId == s.actualGames[gameId].player1Id || playerId == s.actualGames[gameId].player2Id
    requires 0 <= x < 3 && 0 <= y < 3
    ensures var m := s.actualGames[gameId];
      var (s', r) := MakeTurn(s, gameId, playerId, x, y);
      && r == ReturnedWithoutResponse
      && s'.outbox == s.outbox
           + Send(s.sessions, m.player1Id, TurnMade(s'.actualGames[gameId].field))
           + Send(s.sessions, m.player2Id, TurnMade(s'.actualGames[gameId].field))
  {
    var m := s.actualGames[gameId];
    FirstMoveYieldsZero(x, y, MarkOf(m, playerId));
    MakeTurnEvents(s, gameId, playerId, x, y);
  }

  /** A turn on a state whose only board is g: the new board and the answer. */
  lemma TurnOnSoleBoard(s: State, gameId: string, g: Grid, p1: string, p2: string, playerId: string, x: int, y: int)
    requires s.actualGames == map[gameId := Match(g, p1, p2)]
    requires playerId == p1 || playerId == p2
    requires 0 <= x < 3 && 0 <= y < 3
    ensures var h := Put(g, x, y, if playerId == p1 then 1 else 2);
      var (s', r) := MakeTurn(s, gameId, playerId, x, y);
      && s'.actualGames == map[gameId := Match(h, p1, p2)]
      && s'.sessions == s.sessions
      && s'.outbox == s.outbox + Announce(s.sessions, Match(h, p1, p2)).0
      && r == Answer(Verdict(h))
  {
    PlayedTurn(s, gameId, playerId, x, y);
  }

  /**
   * The row-0 game, after p1 and p2 have played (0,0), (1,1), (0,1) and
   * (1,2) (each of those turns leaves row 2 empty and gets no response, by
   * `Board.RowZeroBoards`): p1's turn at (0,2) completes row 0, both players
   * get the board and then `GameEnded` naming p1, and the answer is 200.
   */
  lemma RowZeroFinish(s: State, gameId: string)
    requires s.actualGames == map[gameId := Match(Grid(Row(1, 1, 0), Row(0, 2, 2), Row(0, 0, 0)), "p1", "p2")]
    ensures
      var last := Grid(Row(1, 1, 1), Row(0, 2, 2), Row(0, 0, 0));
      var (s', r) := MakeTurn(s, gameId, "p1", 0, 2);
      && r == Ok
      && s'.actualGames == map[gameId := Match(last, "p1", "p2")]
      && s'.outbox == s.outbox
           + Send(s.sessions, "p1", TurnMade(last)) + Send(s.sessions, "p2", TurnMade(last))
           + Send(s.sessions, "p1", GameEnded("p1")) + Send(s.sessions, "p2", GameEnded("p1"))
  {
    var last := Grid(Row(1, 1, 1), Row(0, 2, 2), Row(0, 0, 0));
    TurnOnSoleBoard(s, gameId, Grid(Row(1, 1, 0), Row(0, 2, 2), Row(0, 0, 0)), "p1", "p2", "p1", 0, 2);
    RowZeroBoards();
    var turn := Send(s.sessions, "p1", TurnMade(last)) + Send(s.sessions, "p2", TurnMade(last));
    var end := Send(s.sessions, "p1", GameEnded("p1")) + Send(s.sessions, "p2", GameEnded("p1"));
    assert s.outbox + (turn + end) == s.outbox + turn + end;
  }
}
