/**
 * `GameManager`: the base of every game manager. `manage` starts a fresh
 * movie builder, builds the game state and runs the game. A failed
 * construction, a `PlayerException` and a `BuilderException` are recorded
 * in the movie as a failed evaluation; any other runtime exception, such
 * as the `IllegalArgumentException` of a class that is not a state class
 * or of `getName`, escapes `manage` without being recorded. The
 * game itself (the abstract `manage(GameState, Map)`) and the construction
 * of its state by reflection are outside the model: their outcomes are
 * parameters.
 */
module Manager {
  import opened Wrappers
  import opened JavaText
  import opened MovieModels
  import opened Exceptions
  import opened Messaging
  import opened MovieBuilder

  /** How building the game state ended. */
  datatype Initialization =
    | StateCreated
      /** `InstantiationException`, `IllegalAccessException` or `ClassNotFoundException`, with its message. */
    | CreationFailed(message: Option<string>)
      /** The class was instantiated but is not a `GameState`. */
    | NotAStateClass

  /**
   * How the game ended: normally, with one of the two exceptions `manage`
   * catches, or with any other runtime exception (its message), which it
   * does not catch.
   */
  datatype GameEnd =
    | Finished
    | PlayerFault(pe: PlayerException)
    | BuilderFault(be: BuilderException)
    | OtherFault(message: Option<string>)

  /** `getGameName`: the simple class name with every "Manager" taken out. */
  function GameName(simpleName: string): string
  {
    RemoveAll(simpleName, "Manager")
  }

  /** A class named after its game, `<game>Manager`, gives that game's name. */
  lemma GameNameOfManagerClass(game: string)
    requires forall k :: 0 <= k < |game| ==> !OccursAt(game + "Manager", "Manager", k)
    ensures GameName(game + "Manager") == game
  {
    assert game + "Manager" + "" == game + "Manager";
    RemoveAllFirstOccurrence(game, "Manager", "");
  }

  /** A class name without "Manager" is the game name as it is. */
  lemma GameNameWithoutSuffix(simpleName: string)
    requires forall k :: 0 <= k <= |simpleName| - 7 ==> !OccursAt(simpleName, "Manager", k)
    ensures GameName(simpleName) == simpleName
  {
    RemoveAllAbsent(simpleName, "Manager");
  }

  /** The player names of the header once every id is registered with a null name. */
  function Unnamed(players: seq<string>): LinkedMap
  {
    LinkedMap(players, map p | p in players :: None)
  }

  /** Registering the next id of a list without repetitions puts it last, with a null name. */
  lemma UnnamedStep(players: seq<string>, k: int)
    requires forall i, j :: 0 <= i < j < |players| ==> players[i] != players[j]
    requires 0 <= k < |players|
    ensures Put(Unnamed(players[..k]), players[k], None) == Unnamed(players[..k + 1])
  {
    assert players[k] !in players[..k];
    assert players[..k + 1] == players[..k] + [players[k]];
  }

  /** The statuses a failed game-state construction leaves: every player to be reevaluated. */
  function AllReevaluated(players: seq<string>, message: Option<string>): map<string, StatusValue>
  {
    map p | p in players :: Reevaluated(DefaultStatus, message)
  }

  /** Marking the listed players in a frame with no status yet gives each of them a fresh status to reevaluate. */
  lemma ReevaluatedFromScratch(players: seq<string>, message: Option<string>)
    ensures ReevaluateAll(map[], players, message) == AllReevaluated(players, message)
  {
    ReevaluateAllMeaning(map[], players, message);
  }

  /**
   * `getName`: the name a player sends in its first action, which must be
   * the first argument of the command and a `String`. A failure is the
   * `IllegalArgumentException`'s message.
   */
  function GetName(action: PlayerAction?): (r: Result<string, string>)
    reads action
    requires action != null ==> action.command.Some?
    ensures action == null <==> r == Failure("update expected")
    ensures action != null && action.command.value.args == [] ==>
      r == Failure("no arguments in initial command")
    ensures action != null && action.command.value.args != [] && !action.command.value.args[0].Text? ==>
      r == Failure("argument in initial command not a string")
    ensures r.Success? <==>
      action != null && action.command.value.args != [] && action.command.value.args[0].Text?
    ensures r.Success? ==> r.value == action.command.value.args[0].s
  {
    if action == null then Failure("update expected")
    else if |action.command.value.args| == 0 then Failure("no arguments in initial command")
    else if !action.command.value.args[0].Text? then Failure("argument in initial command not a string")
    else Success(action.command.value.args[0].s)
  }

  /** `GameManager`, for one game: its class name and the class name of its state. */
  class GameManager {
    const simpleName: string
    const stateClassName: string
    var movieBuilder: GameMovieBuilderImpl?

    constructor (simpleName: string, stateClassName: string)
      ensures this.simpleName == simpleName && this.stateClassName == stateClassName
      ensures movieBuilder == null
    {
      this.simpleName := simpleName;
      this.stateClassName := stateClassName;
      movieBuilder := null;
    }

    function GetGameName(): string
    {
      GameName(simpleName)
    }

    /** `getMinPlayersPerMatch`, by default. */
    function GetMinPlayersPerMatch(): (r: Int32)
      ensures r == 1
    {
      1
    }

    /** `getMaxPlayersPerMatch`, by default: no limit below the largest int. */
    function GetMaxPlayersPerMatch(): (r: Int32)
      ensures forall n :: IsInt32(n) ==> n <= r
    {
      IntMax
    }

    /**
     * `manage(Map)`: a fresh recorder, then either the construction failure
     * recorded against every player, the uncaught `IllegalArgumentException`,
     * or the game and the routing of its exception. `players` are the ids of
     * the map in its iteration order; the game is taken to record nothing
     * itself, so the routing acts on the fresh recorder (`Route` states it
     * for any recorder). `thrown` is the message, possibly null, of the
     * exception that escapes `manage`, if one does.
     */
    method Manage(players: seq<string>, init: Initialization, end: GameEnd) returns (thrown: Option<Option<string>>)
      requires forall i, j :: 0 <= i < j < |players| ==> players[i] != players[j]
      modifies this
      ensures movieBuilder != null && fresh(movieBuilder) && movieBuilder.Valid()
      ensures thrown.Some? <==> init.NotAStateClass? || (init.StateCreated? && end.OtherFault?)
      ensures init.StateCreated? && end.OtherFault? ==>
        thrown == Some(end.message) && movieBuilder.movie.frames == []
      ensures init.NotAStateClass? ==>
        && thrown == Some(Some("Not a state class: " + stateClassName))
        && movieBuilder.movie.header.Value() == DefaultHeader && movieBuilder.movie.frames == []
      ensures init.CreationFailed? ==>
        && movieBuilder.movie.header.Value() == DefaultHeader.(players := Unnamed(players))
        && |movieBuilder.movie.frames| == 1
        && movieBuilder.movie.frames[0].View() == AllReevaluated(players, init.message)
        && movieBuilder.movie.frames[0].items == [] && movieBuilder.movie.frames[0].messages == map[]
      ensures init.StateCreated? ==> movieBuilder.movie.header.Value() == DefaultHeader
      ensures init.StateCreated? && end.Finished? ==> movieBuilder.movie.frames == []
      ensures init.StateCreated? && end.BuilderFault? ==>
        |movieBuilder.movie.frames| == 1 && movieBuilder.movie.frames[0].View() == map[]
      ensures init.StateCreated? && end.PlayerFault? ==>
        && |movieBuilder.movie.frames| == 1
        && movieBuilder.movie.frames[0].View() ==
             map[end.pe.playerId := Blamed(DefaultStatus, end.pe)]
    {
      movieBuilder := new GameMovieBuilderImpl();
      thrown := None;
      match init {
        case NotAStateClass =>
          thrown := Some(Some("Not a state class: " + stateClassName));
        case CreationFailed(message) =>
          RecordCreationFailure(players, message);
        case StateCreated =>
          Route(end);
          if end.OtherFault? {
            thrown := Some(end.message);
          }
      }
    }

    /** The handler of a failed construction: every player registered without a name, then all of them marked. */
    method RecordCreationFailure(players: seq<string>, message: Option<string>)
      requires forall i, j :: 0 <= i < j < |players| ==> players[i] != players[j]
      requires movieBuilder != null && movieBuilder.Valid()
      requires movieBuilder.movie.header.Value() == DefaultHeader && movieBuilder.movie.frames == []
      modifies movieBuilder.movie.header, movieBuilder`currentFrame, movieBuilder.movie`frames
      ensures movieBuilder.Valid()
      ensures movieBuilder.movie.header.Value() == DefaultHeader.(players := Unnamed(players))
      ensures |movieBuilder.movie.frames| == 1
      ensures movieBuilder.movie.frames[0].View() == AllReevaluated(players, message)
      ensures movieBuilder.movie.frames[0].items == [] && movieBuilder.movie.frames[0].messages == map[]
    {
      RegisterUnnamed(players);
      assert movieBuilder.CurrentView() == map[];
      movieBuilder.FailedEvaluation(BuilderException(message));
      ReevaluatedFromScratch(players, message);
    }

    /** The loop of `manage(Map)` that registers every player id with a null name. */
    method RegisterUnnamed(players: seq<string>)
      requires forall i, j :: 0 <= i < j < |players| ==> players[i] != players[j]
      requires movieBuilder != null && movieBuilder.Valid()
      requires movieBuilder.movie.header.Value() == DefaultHeader
      modifies movieBuilder.movie.header
      ensures movieBuilder.Valid()
      ensures movieBuilder.movie.header.Value() == DefaultHeader.(players := Unnamed(players))
    {
      for k := 0 to |players|
        invariant movieBuilder.Valid()
        invariant movieBuilder.movie.header.Value() == DefaultHeader.(players := Unnamed(players[..k]))
      {
        UnnamedStep(players, k);
        movieBuilder.AddPlayer(players[k], None);
      }
      assert players[..|players|] == players;
    }

    /**
     * The routing at the end of `manage(Map)`: a `PlayerException` blames its
     * player and marks the others, a `BuilderException` marks every player,
     * and a normal end or an exception it does not catch changes nothing.
     */
    method Route(end: GameEnd)
      requires movieBuilder != null && movieBuilder.Valid()
      modifies movieBuilder`currentFrame, movieBuilder.movie`frames, movieBuilder.currentFrame,
        movieBuilder.CurrentStatuses()
      ensures movieBuilder.Valid()
      ensures end.Finished? || end.OtherFault? ==>
        && movieBuilder.currentFrame == old(movieBuilder.currentFrame)
        && movieBuilder.movie.frames == old(movieBuilder.movie.frames)
        && movieBuilder.CurrentView() == old(movieBuilder.CurrentView())
      ensures end.BuilderFault? ==>
        && movieBuilder.currentFrame != null
        && movieBuilder.currentFrame.View() ==
             ReevaluateAll(old(movieBuilder.CurrentView()), movieBuilder.movie.header.players.keys, end.be.message)
      ensures end.PlayerFault? ==>
        && movieBuilder.currentFrame != null
        && movieBuilder.currentFrame.View() ==
             BlameAll(old(movieBuilder.CurrentView()), movieBuilder.movie.header.players.keys, end.pe)
      ensures old(movieBuilder.currentFrame) != null ==>
        movieBuilder.currentFrame == old(movieBuilder.currentFrame) && movieBuilder.movie.frames == old(movieBuilder.movie.frames)
      ensures old(movieBuilder.currentFrame) == null && (end.PlayerFault? || end.BuilderFault?) ==>
        fresh(movieBuilder.currentFrame) && movieBuilder.movie.frames == [movieBuilder.currentFrame]
    {
      match end {
        case Finished =>
        case OtherFault(_) =>
        case PlayerFault(e) =>
          movieBuilder.FailedEvaluationOf(e);
        case BuilderFault(e) =>
          movieBuilder.FailedEvaluation(e);
      }
    }

    /**
     * `getGamePlayerStatus`: null before the first frame; otherwise the
     * player's record in the last frame, which is created there if missing.
     * Before `manage` there is no recorder, and `movieBuilder.getMovie()`
     * throws a `NullPointerException` (`npe`).
     */
    method GetGamePlayerStatus(player: string) returns (s: GamePlayerStatus?, npe: bool)
      requires movieBuilder != null ==> movieBuilder.Valid()
      modifies if movieBuilder == null then {} else {movieBuilder.currentFrame}
      ensures npe <==> movieBuilder == null
      ensures npe ==> s == null
      ensures !npe ==> movieBuilder.Valid()
      ensures !npe ==> (s == null <==> movieBuilder.movie.frames == [])
      ensures s != null ==>
        var f := movieBuilder.movie.frames[|movieBuilder.movie.frames| - 1];
        && f == movieBuilder.currentFrame && player in f.status && s == f.status[player]
        && s.Value() == StatusOf(old(f.View()), player)
        && f.View() == old(f.View())[player := StatusOf(old(f.View()), player)]
        && f.items == old(f.items) && f.messages == old(f.messages)
      ensures !npe ==> movieBuilder.movie.frames == old(movieBuilder.movie.frames)
    {
      npe := movieBuilder == null;
      if npe {
        return null, npe;
      }
      if |movieBuilder.movie.frames| == 0 {
        return null, npe;
      }
      var f := movieBuilder.movie.frames[|movieBuilder.movie.frames| - 1];
      s := f.GetStatus(player);
      assert f.View()[player] == s.Value();
    }
  }
}
