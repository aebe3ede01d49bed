/**
 * The game coordinator as the source runs it: module-level mutable maps,
 * boards that are arrays written in place, and the `sessions` registry
 * updated by the `/connect` loop. Every handler is proved to have exactly
 * the effect `Games` gives it on the state's value `Model()`.
 */
module GameServer {
  import opened Wrappers
  import opened Board
  import opened Messages
  import opened Sessions
  import opened Games

  /** `ActualGame`: a 3x3 board written in place, and the two seated players. */
  class ActualGame {
    const field: array2<int>
    const player1Id: string
    const player2Id: string

    /** `ActualGame(Array(3) { IntArray(3) { 0 } }, player1Id, player2Id)`. */
    constructor (player1Id: string, player2Id: string)
      ensures fresh(field)
      ensures field.Length0 == 3 && field.Length1 == 3 && Cells(field) == EmptyGrid
      ensures this.player1Id == player1Id && this.player2Id == player2Id
    {
      field := new int[3, 3]((_, _) => 0);
      this.player1Id := player1Id;
      this.player2Id := player2Id;
    }
  }

  class GameServer {
    var games: map<string, Game>
    var actualGames: map<string, ActualGame>
    var freeGamesIds: seq<string>
    var sessions: Registry
    /** The value of each started game's board and players, kept in step with `actualGames`. */
    ghost var boards: map<string, Match>
    /** Every message actually sent, in order. */
    ghost var outbox: seq<Delivery>
    /** The board array of every started game, mapped to that game's id. */
    ghost var owner: map<array2<int>, string>

    /** The value of the whole state. */
    ghost function Model(): State
      reads this
    {
      State(games, boards, freeGamesIds, sessions, outbox)
    }

    /** The board of game is 3x3 and m is its value. */
    static ghost predicate Holds(game: ActualGame, m: Match)
      reads game.field
    {
      && game.field.Length0 == 3 && game.field.Length1 == 3
      && m == Match(Cells(game.field), game.player1Id, game.player2Id)
    }

    /**
     * `boards` holds the value of every started game, and no two games
     * share an array (each array has one owner).
     */
    ghost predicate BoardsAgree()
      reads this`actualGames, this`boards, this`owner, owner.Keys
    {
      && boards.Keys == actualGames.Keys
      && (forall k | k in actualGames ::
            && actualGames[k].field in owner && owner[actualGames[k].field] == k
            && Holds(actualGames[k], boards[k]))
    }

    ghost predicate Valid()
      reads this, owner.Keys
    {
      BoardsAgree() && Inv(Model())
    }

    /** The state at start-up: no games, no pooled ids, no sessions. */
    constructor ()
      ensures Valid() && Model() == Initial
    {
      games, actualGames, freeGamesIds, sessions := map[], map[], [], map[];
      boards, outbox, owner := map[], [], map[];
    }

    /** `sessions[to]?.sendSerialized(msg)`, logged in the outbox. */
    ghost method SendSerialized(to: string, msg: Message)
      modifies this`outbox
      ensures outbox == old(outbox) + Send(sessions, to, msg)
    {
      if to in sessions {
        outbox := outbox + [Delivery(to, sessions[to], msg)];
      }
    }

    /** One decoded message of the `/connect` loop: `RegisterWs(id)` sets `sessions[id]`. */
    method Receive(conn: Conn, msg: Message)
      requires Valid()
      modifies this`sessions
      ensures Valid()
      ensures sessions == HandleFrame(old(sessions), conn, msg)
      ensures Model() == old(Model()).(sessions := sessions)
    {
      if msg.RegisterWs? {
        sessions := sessions[msg.id := conn];
      }
    }

    /**
     * The `/connect` loop: the frames of one connection, one at a time, in
     * arrival order. The first frame that is not a serialised `Message` throws
     * out of the loop; `thrown` reports that.
     */
    method Connect(conn: Conn, frames: seq<Option<Message>>) returns (thrown: bool)
      requires Valid()
      modifies this`sessions
      ensures Valid()
      ensures sessions == ProcessFrames(old(sessions), conn, frames)
      ensures Model() == old(Model()).(sessions := sessions)
      ensures thrown <==> exists k | 0 <= k < |frames| :: !Decodes(frames[k])
    {
      var i := 0;
      while i < |frames| && Decodes(frames[i])
        invariant 0 <= i <= |frames|
        invariant forall k | 0 <= k < i :: Decodes(frames[k])
        invariant Valid()
        invariant sessions == ProcessFrames(old(sessions), conn, frames[..i])
        invariant Model() == old(Model()).(sessions := sessions)
      {
        Receive(conn, frames[i].value);
        ProcessFramesAppend(old(sessions), conn, frames[..i], [frames[i]]);
        assert [frames[i]][1..] == [];
        assert frames[..i + 1] == frames[..i] + [frames[i]];
        i := i + 1;
      }
      if i < |frames| {
        StopsAtUndecodable(old(sessions), conn, frames[..i], frames[i], frames[i + 1..]);
        assert frames == frames[..i] + [frames[i]] + frames[i + 1..];
        thrown := true;
      } else {
        assert frames[..i] == frames;
        thrown := false;
      }
    }

    /** `/getGameStatus/{id}`: the stored game, or 404. */
    method GetGameStatus(id: string) returns (r: Option<Game>)
      ensures r.Some? <==> id in games
      ensures r.Some? ==> r.value == games[id]
    {
      if id in games {
        r := Some(games[id]);
      } else {
        r := None;
      }
    }

    /** `/createGame`; freshId stands for the random UUID. */
    method CreateGame(id: string, name: string, freshId: string) returns (r: JoinResult)
      requires Valid()
      modifies this
      ensures Valid()
      ensures (Model(), r) == Games.CreateGame(old(Model()), id, name, freshId)
    {
      ghost var s := Model();
      CreateGamePreservesInv(s, id, name, freshId);
      var gameId: string;
      if |freeGamesIds| > 0 {
        gameId := freeGamesIds[0];
      } else {
        gameId := freshId;
        freeGamesIds := freeGamesIds + [gameId];
      }
      assert s.freeGamesIds != [] ==> gameId == s.freeGamesIds[0] && gameId in games;
      if gameId in games {
        var status := games[gameId].status;
        if status.InProgress? {
          // the cast to WaitingForSecondPlayer throws
          JoinStartedGameFails(s, id, name, freshId);
          return CastFailure;
        }
        assert Model() == s;
        r := JoinGame(gameId, status.id, status.name, id);
        JoinWaitingGame(s, id, name, freshId);
      } else {
        CreateOnEmptyPool(s, id, name, freshId);
        var newGame := WaitForSecondPlayer(gameId, id, name);
        r := Responded(newGame);
        assert Model() == Games.CreateGame(s, id, name, freshId).0;
      }
    }

    /**
     * The other branch of `/createGame`: the player is told a game was
     * created (with the player's own id) and waits under gameId.
     */
    method WaitForSecondPlayer(gameId: string, id: string, name: string) returns (newGame: Game)
      modifies this`games, this`outbox
      ensures newGame == Game(gameId, WaitingForSecondPlayer(id, name))
      ensures games == old(games)[gameId := newGame]
      ensures outbox == old(outbox) + Send(sessions, id, GameCreated(id))
    {
      SendSerialized(id, GameCreated(id));
      newGame := Game(gameId, WaitingForSecondPlayer(id, name));
      games := games[gameId := newGame];
    }

    /**
     * The join branch of `/createGame`: the waiting player is told who
     * joined, the joiner takes the second seat on a new empty board, and
     * the game goes in progress under the waiting player's id and name.
     */
    method JoinGame(gameId: string, waiting: string, waitingName: string, id: string) returns (r: JoinResult)
      requires BoardsAgree() && gameId !in actualGames
      modifies this`actualGames, this`boards, this`games, this`outbox, this`owner
      ensures BoardsAgree()
      ensures r == Responded(Game(gameId, InProgress(waiting, waitingName)))
      ensures Model() == old(Model()).(games := old(games)[gameId := r.game],
                                       actualGames := old(boards)[gameId := Match(EmptyGrid, waiting, id)],
                                       outbox := old(outbox) + Send(sessions, waiting, FoundSecondPlayer(id)))
    {
      SendSerialized(waiting, FoundSecondPlayer(id));
      BoardsAgreeKept();
      AddBoard(gameId, waiting, id);
      label added:
      var newGame := Game(gameId, InProgress(waiting, waitingName));
      games := games[gameId := newGame];
      r := Responded(newGame);
      BoardsAgreeKept@added();
    }

    /**
     * The join branch of `/createGame` on the boards: the joiner takes the
     * second seat on a new empty board, stored under gameId.
     */
    method AddBoard(gameId: string, waiting: string, id: string)
      requires BoardsAgree() && gameId !in actualGames
      modifies this`actualGames, this`boards, this`owner
      ensures BoardsAgree()
      ensures gameId in actualGames && owner == old(owner)[actualGames[gameId].field := gameId]
      ensures fresh(actualGames[gameId].field)
      ensures boards == old(boards)[gameId := Match(EmptyGrid, waiting, id)]
    {
      var game := new ActualGame(waiting, id);
      actualGames := actualGames[gameId := game];
      boards := boards[gameId := Match(EmptyGrid, waiting, id)];
      owner := owner[game.field := gameId];
      forall k | k in actualGames
        ensures Holds(actualGames[k], boards[k])
      {
        if k != gameId {
          assert actualGames[k] == old(actualGames[k]);
        }
      }
    }

    /** `/makeTurn`: the turn at (turnX, turnY) by playerId in game gameId. */
    method MakeTurn(gameId: string, playerId: string, turnX: int, turnY: int) returns (r: TurnResult)
      requires Valid()
      modifies this`outbox, this`boards, owner.Keys
      ensures Valid()
      ensures (Model(), r) == Games.MakeTurn(old(Model()), gameId, playerId, turnX, turnY)
    {
      if gameId !in actualGames {
        return NotFound;
      }
      var game := actualGames[gameId];
      assert Holds(game, boards[gameId]);
      var num: int;
      if playerId == game.player1Id {
        num := 1;
      } else if playerId == game.player2Id {
        num := 2;
      } else {
        return NotFound;
      }
      if !(0 <= turnX < 3 && 0 <= turnY < 3) {
        // `field[turnX][turnY]` indexes out of bounds
        return IndexOutOfBounds;
      }
      r := PlayTurn(gameId, playerId, turnX, turnY, num);
    }

    /** The rest of `/makeTurn` once the player is seated and the cell is on the board. */
    method PlayTurn(gameId: string, playerId: string, x: int, y: int, num: int) returns (r: TurnResult)
      requires Valid() && gameId in actualGames && 0 <= x < 3 && 0 <= y < 3
      requires playerId == boards[gameId].player1Id || playerId == boards[gameId].player2Id
      requires num == MarkOf(boards[gameId], playerId)
      modifies this`outbox, this`boards, owner.Keys
      ensures Valid()
      ensures (Model(), r) == Games.MakeTurn(old(Model()), gameId, playerId, x, y)
    {
      ghost var s := Model();
      ghost var m := boards[gameId];
      ghost var m' := m.(field := Put(m.field, x, y, num));
      WriteCell(gameId, x, y, num);
      label written:
      r := AnnounceTurn(gameId);
      BoardsAgreeKept@written();
      PlayedTurn(s, gameId, playerId, x, y);
      assert Model() == Games.MakeTurn(s, gameId, playerId, x, y).0;
      MakeTurnPreservesInv(s, gameId, playerId, x, y);
    }

    /** `BoardsAgree` survives any step that leaves the games, the boards and their arrays alone. */
    twostate lemma BoardsAgreeKept()
      requires old(BoardsAgree())
      requires unchanged(this`actualGames, this`boards, this`owner)
      requires forall a | a in owner :: unchanged(a)
      ensures BoardsAgree()
    {
      forall k | k in actualGames
        ensures Holds(actualGames[k], boards[k])
      {
        assert old(Holds(actualGames[k], boards[k]));
      }
    }

    /** `BoardsAgree` survives a write to one game's array when its board is updated to match. */
    twostate lemma BoardsAgreeAfterWrite(gameId: string)
      requires old(BoardsAgree()) && gameId in old(actualGames)
      requires unchanged(this`actualGames, this`owner)
      requires boards == old(boards)[gameId := old(boards[gameId]).(field := Cells(actualGames[gameId].field))]
      requires forall a | a in owner && a != actualGames[gameId].field :: unchanged(a)
      ensures BoardsAgree()
    {
      forall k | k in actualGames
        ensures Holds(actualGames[k], boards[k])
      {
        if k != gameId {
          assert old(Holds(actualGames[k], boards[k]));
        }
      }
    }

    /** `game.field[turnX][turnY] = num`: one cell overwritten in place. */
    method WriteCell(gameId: string, x: int, y: int, num: int)
      requires BoardsAgree() && gameId in actualGames
      requires 0 <= x < 3 && 0 <= y < 3
      modifies this`boards, actualGames[gameId].field
      ensures BoardsAgree() && gameId in boards && Holds(actualGames[gameId], boards[gameId])
      ensures Model() == old(Model()).(actualGames := old(boards)[gameId := old(boards[gameId]).(field := Put(old(boards[gameId].field), x, y, num))])
    {
      var game := actualGames[gameId];
      assert Holds(game, boards[gameId]);
      SetCell(game.field, x, y, num);
      boards := boards[gameId := boards[gameId].(field := Put(boards[gameId].field, x, y, num))];
      BoardsAgreeAfterWrite(gameId);
    }

    /** The rest of `/makeTurn` after the write: `TurnMade` to both players, then the verdict. */
    method AnnounceTurn(gameId: string) returns (r: TurnResult)
      requires gameId in actualGames && gameId in boards && Holds(actualGames[gameId], boards[gameId])
      modifies this`outbox
      ensures Model() == old(Model()).(outbox := old(outbox) + Announce(sessions, boards[gameId]).0)
      ensures r == Announce(sessions, boards[gameId]).1
    {
      var game := actualGames[gameId];
      ghost var m := boards[gameId];
      ghost var turn := Send(sessions, m.player1Id, TurnMade(m.field)) + Send(sessions, m.player2Id, TurnMade(m.field));
      SendSerialized(game.player1Id, TurnMade(m.field));
      SendSerialized(game.player2Id, TurnMade(m.field));
      ghost var sent := outbox;
      assert sent == old(outbox) + turn;
      var ended := IsGameEnded(game.field);
      r := AnnounceVerdict(game.player1Id, game.player2Id, ended);
      ghost var end := EndEvents(sessions, m.player1Id, m.player2Id, Verdict(m.field));
      assert outbox == sent + end;
      assert (old(outbox) + turn) + end == old(outbox) + (turn + end);
    }

    /** For a verdict of 1 or 2, `GameEnded` with the winner's id to both players. */
    method AnnounceVerdict(player1Id: string, player2Id: string, ended: Option<int>) returns (r: TurnResult)
      modifies this`outbox
      ensures outbox == old(outbox) + EndEvents(sessions, player1Id, player2Id, ended)
      ensures r == Answer(ended)
    {
      if ended.Some? {
        var playerWonId: string;
        if ended.value == 1 {
          playerWonId := player1Id;
        } else if ended.value == 2 {
          playerWonId := player2Id;
        } else {
          return ReturnedWithoutResponse;
        }
        SendSerialized(player1Id, GameEnded(playerWonId));
        SendSerialized(player2Id, GameEnded(playerWonId));
      }
      return Ok;
    }
  }
}
