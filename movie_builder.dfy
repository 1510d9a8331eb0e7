/**
 * `GameMovieBuilderImpl`: the recorder a game manager drives while a match
 * is played. It owns one movie, appends frames to it, edits the last frame
 * (the current one) and keeps a bounded stack of snapshots of that frame so a
 * game can undo tentative changes.
 *
 * A snapshot holds a copy of the items and, optionally, a copy of the
 * status map and of the messages. The status map is a new map, but it holds
 * the same `GamePlayerStatus` records as the frame: `CopyUtils.deepCopy`
 * leaves a record that is neither a collection nor serializable as it is.
 */
module MovieBuilder {
  import opened Wrappers
  import opened JavaText
  import opened MovieModels
  import opened Exceptions

  /** `STACK_SIZE`: the number of snapshots kept. */
  const StackSize: nat := 15

  /**
   * A saved copy of the current frame; an absent part is left alone on
   * restore. The status map refers to the frame's own records.
   */
  datatype Snapshot = Snapshot(items: seq<GameFrameItem>,
                               status: Option<map<string, GamePlayerStatus>>,
                               messages: Option<map<string, string>>)

  // ---------------------------------------------------------------------------
  // The snapshot stack
  // ---------------------------------------------------------------------------

  /** `addLast`, then `removeFirst` when the stack has grown past its size. */
  function Push(stack: seq<Snapshot>, s: Snapshot): seq<Snapshot>
  {
    var t := stack + [s];
    if |t| > StackSize then t[1..] else t
  }

  /**
   * Saving never fails: the new snapshot is on top, the stack stays within
   * its size, and below the top lies the old stack, less its oldest entry
   * when it was full.
   */
  lemma PushThenPop(stack: seq<Snapshot>, s: Snapshot)
    requires |stack| <= StackSize
    ensures var r := Push(stack, s);
      && 0 < |r| <= StackSize
      && r[|r| - 1] == s
      && r[..|r| - 1] == (if |stack| < StackSize then stack else stack[1..])
  {
    var r := Push(stack, s);
    if |stack| < StackSize {
      assert r[..|r| - 1] == stack;
    } else {
      assert r[..|r| - 1] == stack[1..];
    }
  }

  /** A run of saves, oldest first. */
  function PushAll(stack: seq<Snapshot>, saved: seq<Snapshot>): seq<Snapshot>
    decreases |saved|
  {
    if saved == [] then stack
    else Push(PushAll(stack, saved[..|saved| - 1]), saved[|saved| - 1])
  }

  /** After any run of saves the stack holds exactly the newest StackSize snapshots. */
  lemma {:induction false} PushAllKeepsNewest(stack: seq<Snapshot>, saved: seq<Snapshot>)
    requires |stack| <= StackSize
    ensures var all := stack + saved;
      PushAll(stack, saved) == all[|all| - Min(|all|, StackSize)..]
    decreases |saved|
  {
    var all := stack + saved;
    if saved == [] {
      assert all == stack;
    } else {
      var front := saved[..|saved| - 1];
      var s := saved[|saved| - 1];
      PushAllKeepsNewest(stack, front);
      var prev := stack + front;
      var p := PushAll(stack, front);
      assert p == prev[|prev| - Min(|prev|, StackSize)..];
      assert all == prev + [s];
      if |p| + 1 > StackSize {
        assert Push(p, s) == (p + [s])[1..];
        assert all[|all| - Min(|all|, StackSize)..] == (p + [s])[1..];
      } else {
        assert all[|all| - Min(|all|, StackSize)..] == p + [s];
      }
    }
  }

  // ---------------------------------------------------------------------------
  // Failed evaluations, on values
  // ---------------------------------------------------------------------------

  /** A status marked for re-evaluation: the points stay; the message becomes the observation. */
  function Reevaluated(s: StatusValue, message: Option<string>): StatusValue
  {
    s.(classification := Some(RequiresReevaluation), observations := message)
  }

  /** The statuses after marking the given players one after another. */
  function ReevaluateAll(view: map<string, StatusValue>, players: seq<string>,
                         message: Option<string>): map<string, StatusValue>
    decreases |players|
  {
    if players == [] then view
    else
      var v := ReevaluateAll(view, players[..|players| - 1], message);
      var p := players[|players| - 1];
      v[p := Reevaluated(StatusOf(v, p), message)]
  }

  /**
   * Marking is independent of order and repetition: every listed player
   * ends up re-evaluated from its original status (or a new one), and every
   * other player is untouched.
   */
  lemma {:induction false} ReevaluateAllMeaning(view: map<string, StatusValue>,
                                                 players: seq<string>, message: Option<string>)
    ensures var r := ReevaluateAll(view, players, message);
      && (forall p :: p in r <==> p in view || p in players)
      && (forall p :: p in players ==> r[p] == Reevaluated(StatusOf(view, p), message))
      && (forall p :: p in view && p !in players ==> r[p] == view[p])
    decreases |players|
  {
    if players != [] {
      var front := players[..|players| - 1];
      var q := players[|players| - 1];
      ReevaluateAllMeaning(view, front, message);
      var v := ReevaluateAll(view, front, message);
      var r := ReevaluateAll(view, players, message);
      assert r == v[q := Reevaluated(StatusOf(v, q), message)];
      assert players == front + [q];
      forall p | p in players
        ensures r[p] == Reevaluated(StatusOf(view, p), message)
      {
        if p != q {
          assert p in front;
        }
      }
      forall p | p in r
        ensures p in view || p in players
      {
        if p != q {
          assert p in v;
        }
      }
    }
  }

  /** The players other than x, in order. */
  function Except(players: seq<string>, x: string): (r: seq<string>)
    decreases |players|
  {
    if players == [] then []
    else if players[|players| - 1] == x then Except(players[..|players| - 1], x)
    else Except(players[..|players| - 1], x) + [players[|players| - 1]]
  }

  /** Marking all of players[..k + 1] but x is marking players[..k] and then players[k], unless it is x. */
  lemma ReevaluateExceptNext(view: map<string, StatusValue>, players: seq<string>, k: nat,
                             x: string, message: Option<string>)
    requires k < |players|
    ensures var v := ReevaluateAll(view, Except(players[..k], x), message);
      var p := players[k];
      ReevaluateAll(view, Except(players[..k + 1], x), message) ==
        if p == x then v else v[p := Reevaluated(StatusOf(v, p), message)]
  {
    assert players[..k + 1][..k] == players[..k];
    if players[k] != x {
      var e := Except(players[..k], x) + [players[k]];
      assert e[..|e| - 1] == Except(players[..k], x);
    }
  }

  /** Except drops exactly x. */
  lemma {:induction false} ExceptMeaning(players: seq<string>, x: string)
    ensures forall p :: p in Except(players, x) <==> p in players && p != x
    decreases |players|
  {
    if players != [] {
      var front := players[..|players| - 1];
      ExceptMeaning(front, x);
      assert players == front + [players[|players| - 1]];
    }
  }

  /** The verdict a `PlayerException` gives its culprit: its classification, no points, its message. */
  function Blamed(s: StatusValue, e: PlayerException): StatusValue
  {
    s.(classification := e.classification, points := 0, observations := e.message)
  }

  /** The statuses after `failedEvaluation(PlayerException)`: the culprit blamed, then every other listed player marked. */
  function BlameAll(view: map<string, StatusValue>, players: seq<string>, e: PlayerException): map<string, StatusValue>
  {
    ReevaluateAll(view[e.playerId := Blamed(StatusOf(view, e.playerId), e)], Except(players, e.playerId), e.message)
  }

  // ---------------------------------------------------------------------------
  // The builder
  // ---------------------------------------------------------------------------

  class GameMovieBuilderImpl {
    var movie: GameMovie
    var currentFrame: GameMovieFrame?
    var frameStack: seq<Snapshot>

    /** The status records of the current frame (none when there is no frame yet). */
    ghost function CurrentStatuses(): set<object>
      reads this, currentFrame
    {
      if currentFrame == null then {} else currentFrame.status.Values
    }

    /** The statuses of the current frame as values (none when there is no frame yet). */
    ghost function CurrentView(): map<string, StatusValue>
      reads this, currentFrame, CurrentStatuses()
    {
      if currentFrame == null then map[] else currentFrame.View()
    }

    /**
     * The header's maps are well formed, every frame and every snapshot files
     * each record under its own player, the current frame is the last frame
     * and no earlier one, there is a current frame once there is a frame or a
     * snapshot, and the stack is bounded.
     */
    ghost predicate Valid()
      reads this, movie, movie.header, movie.frames
    {
      && movie.header.Valid()
      && (forall f :: f in movie.frames ==> f.Valid())
      && (forall s :: s in frameStack && s.status.Some? ==> Keyed(s.status.value))
      && (currentFrame == null <==> movie.frames == [])
      && (currentFrame != null ==>
            && currentFrame == movie.frames[|movie.frames| - 1]
            && currentFrame !in movie.frames[..|movie.frames| - 1])
      && (frameStack != [] ==> currentFrame != null)
      && |frameStack| <= StackSize
    }

    /** A new builder: an empty movie with a default header, no frame and no snapshot. */
    constructor ()
      ensures Valid() && fresh(movie) && fresh(movie.header)
      ensures movie.header.Value() == DefaultHeader && movie.frames == []
      ensures currentFrame == null && frameStack == []
    {
      movie := new GameMovie();
      currentFrame := null;
      frameStack := [];
    }

    // --- header ---------------------------------------------------------------

    method SetTitle(title: Option<string>)
      requires Valid()
      modifies movie.header
      ensures Valid() && movie.header.Value() == old(movie.header.Value()).(title := title)
    {
      movie.header.SetTitle(title);
    }

    method SetBackground(background: Option<string>)
      requires Valid()
      modifies movie.header
      ensures Valid() && movie.header.Value() == old(movie.header.Value()).(background := background)
    {
      movie.header.SetBackground(background);
    }

    method SetWidth(width: Int32)
      requires Valid()
      modifies movie.header
      ensures Valid() && movie.header.Value() == old(movie.header.Value()).(width := width)
    {
      movie.header.SetWidth(width);
    }

    method SetHeight(height: Int32)
      requires Valid()
      modifies movie.header
      ensures Valid() && movie.header.Value() == old(movie.header.Value()).(height := height)
    {
      movie.header.SetHeight(height);
    }

    /** `addSprite`: register or replace a sprite's URL. */
    method AddSprite(name: string, url: Option<string>)
      requires Valid()
      modifies movie.header
      ensures Valid()
      ensures movie.header.Value() == old(movie.header.Value()).(sprites := Put(old(movie.header.sprites), name, url))
    {
      movie.header.PutSprite(name, url);
    }

    /** `addPlayer`: register or rename a player. */
    method AddPlayer(player: string, name: Option<string>)
      requires Valid()
      modifies movie.header
      ensures Valid()
      ensures movie.header.Value() == old(movie.header.Value()).(players := Put(old(movie.header.players), player, name))
    {
      movie.header.PutPlayer(player, name);
    }

    method SetFps(fps: Int32)
      requires Valid()
      modifies movie.header
      ensures Valid() && movie.header.Value() == old(movie.header.Value()).(fps := fps)
    {
      movie.header.SetFps(fps);
    }

    method SetSpriteAnchor(anchorPoint: SpriteAnchor)
      requires Valid()
      modifies movie.header
      ensures Valid() && movie.header.Value() == old(movie.header.Value()).(anchorPoint := anchorPoint)
    {
      movie.header.SetAnchorPoint(anchorPoint);
    }

    // --- snapshots --------------------------------------------------------------

    /**
     * `saveFrame(status, messages)`: push a copy of the current frame's items,
     * and of its status map and messages when asked, dropping the oldest copy
     * beyond the stack size. The copied status map holds the frame's own
     * records. The frame itself is not touched.
     */
    method SaveFrame(status: bool, messages: bool)
      requires Valid() && currentFrame != null
      modifies this`frameStack
      ensures Valid()
      ensures frameStack == Push(old(frameStack),
                                 Snapshot(currentFrame.items,
                                          if status then Some(currentFrame.status) else None,
                                          if messages then Some(currentFrame.messages) else None))
    {
      var frame := Snapshot(currentFrame.items,
                            if status then Some(currentFrame.status) else None,
                            if messages then Some(currentFrame.messages) else None);
      assert currentFrame in movie.frames;
      frameStack := frameStack + [frame];
      if |frameStack| > StackSize {
        assert forall s :: s in frameStack[1..] ==> s in frameStack;
        frameStack := frameStack[1..];
      }
    }

    /** `saveFrame()`: a full copy. */
    method SaveFrameDefault()
      requires Valid() && currentFrame != null
      modifies this`frameStack
      ensures Valid()
      ensures frameStack == Push(old(frameStack),
                                 Snapshot(currentFrame.items, Some(currentFrame.status),
                                          Some(currentFrame.messages)))
    {
      SaveFrame(true, true);
    }

    /**
     * `restoreFrame`: pop the newest snapshot and put its parts back into the
     * current frame; a part the snapshot did not keep stays as it is. With no
     * snapshot nothing happens. No record is written: the restored statuses
     * are the saved records with the values they hold now.
     */
    method RestoreFrame()
      requires Valid()
      modifies this`frameStack, currentFrame
      ensures Valid()
      ensures old(frameStack) == [] ==>
        frameStack == [] && (currentFrame != null ==> unchanged(currentFrame))
      ensures old(frameStack) != [] ==>
        var snap := old(frameStack)[|old(frameStack)| - 1];
        && frameStack == old(frameStack)[..|old(frameStack)| - 1]
        && currentFrame != null
        && currentFrame.items == snap.items
        && currentFrame.status == (if snap.status.Some? then snap.status.value else old(currentFrame.status))
        && currentFrame.View() == (if snap.status.Some? then ViewOf(snap.status.value) else old(currentFrame.View()))
        && currentFrame.messages == (if snap.messages.Some? then snap.messages.value else old(currentFrame.messages))
    {
      if frameStack == [] {
        return;
      }
      var frame := frameStack[|frameStack| - 1];
      frameStack := frameStack[..|frameStack| - 1];
      currentFrame.SetItems(frame.items);
      if frame.status.Some? {
        currentFrame.SetStatus(frame.status.value);
      }
      if frame.messages.Some? {
        currentFrame.SetMessages(frame.messages.value);
      }
    }

    // --- frames and items ---------------------------------------------------

    /** `addFrame`: a new empty frame becomes the current one and the last of the movie. */
    method AddFrame()
      requires Valid()
      modifies this`currentFrame, movie`frames
      ensures Valid()
      ensures fresh(currentFrame) && movie.frames == old(movie.frames) + [currentFrame]
      ensures currentFrame.items == [] && currentFrame.status == map[] && currentFrame.messages == map[]
    {
      var frame := new GameMovieFrame();
      currentFrame := frame;
      movie.frames := movie.frames + [frame];
      assert movie.frames[..|movie.frames| - 1] == old(movie.frames);
    }

    /** `addItem(sprite, x, y)`: an item without rotation or scale. */
    method AddItem(sprite: string, x: Int32, y: Int32)
      requires Valid() && currentFrame != null
      modifies currentFrame
      ensures Valid()
      ensures currentFrame.items == old(currentFrame.items) + [GameFrameItem(sprite, x, y, None, None)]
      ensures currentFrame.status == old(currentFrame.status) && currentFrame.messages == old(currentFrame.messages)
    {
      currentFrame.AddItem(GameFrameItem(sprite, x, y, None, None));
    }

    /** `addItem(sprite, x, y, rotate)`. */
    method AddRotatedItem(sprite: string, x: Int32, y: Int32, rotate: Double)
      requires Valid() && currentFrame != null
      modifies currentFrame
      ensures Valid()
      ensures currentFrame.items == old(currentFrame.items) + [GameFrameItem(sprite, x, y, Some(rotate), None)]
      ensures currentFrame.status == old(currentFrame.status) && currentFrame.messages == old(currentFrame.messages)
    {
      currentFrame.AddItem(GameFrameItem(sprite, x, y, Some(rotate), None));
    }

    /** `addItem(sprite, x, y, rotate, scale)`. */
    method AddScaledItem(sprite: string, x: Int32, y: Int32, rotate: Double, scale: Double)
      requires Valid() && currentFrame != null
      modifies currentFrame
      ensures Valid()
      ensures currentFrame.items == old(currentFrame.items) + [GameFrameItem(sprite, x, y, Some(rotate), Some(scale))]
      ensures currentFrame.status == old(currentFrame.status) && currentFrame.messages == old(currentFrame.messages)
    {
      currentFrame.AddItem(GameFrameItem(sprite, x, y, Some(rotate), Some(scale)));
    }

    /** `addMessage`: set (or replace) a player's message in the current frame. */
    method AddMessage(player: string, message: string)
      requires Valid() && currentFrame != null
      modifies currentFrame
      ensures Valid()
      ensures currentFrame.messages == old(currentFrame.messages)[player := message]
      ensures currentFrame.items == old(currentFrame.items) && currentFrame.status == old(currentFrame.status)
    {
      currentFrame.SetMessages(currentFrame.messages[player := message]);
    }

    // --- statuses ---------------------------------------------------------------

    /** `setPoints`: the player's status in the current frame, created if needed, gets the points. */
    method SetPoints(player: string, points: Int32)
      requires Valid() && currentFrame != null
      modifies currentFrame, currentFrame.status.Values
      ensures Valid()
      ensures currentFrame.View() ==
        old(currentFrame.View())[player := StatusOf(old(currentFrame.View()), player).(points := points)]
      ensures currentFrame.items == old(currentFrame.items) && currentFrame.messages == old(currentFrame.messages)
      ensures forall o :: o in currentFrame.status.Values ==> o in old(currentFrame.status.Values) || fresh(o)
      ensures player in currentFrame.status
      ensures player in old(currentFrame.status) ==> currentFrame.status == old(currentFrame.status)
    {
      var s := currentFrame.GetStatus(player);
      ghost var mid := currentFrame.View();
      s.SetPoints(points);
      OnlyOneChanged(currentFrame, player, mid);
      Overwrite(old(currentFrame.View()), player, mid[player], s.Value());
    }

    /** `setClassification`. */
    method SetClassification(player: string, classification: Option<MooshakClassification>)
      requires Valid() && currentFrame != null
      modifies currentFrame, currentFrame.status.Values
      ensures Valid()
      ensures currentFrame.View() ==
        old(currentFrame.View())[player := StatusOf(old(currentFrame.View()), player).(classification := classification)]
      ensures currentFrame.items == old(currentFrame.items) && currentFrame.messages == old(currentFrame.messages)
      ensures forall o :: o in currentFrame.status.Values ==> o in old(currentFrame.status.Values) || fresh(o)
      ensures player in currentFrame.status
      ensures player in old(currentFrame.status) ==> currentFrame.status == old(currentFrame.status)
    {
      var s := currentFrame.GetStatus(player);
      ghost var mid := currentFrame.View();
      s.SetClassification(classification);
      OnlyOneChanged(currentFrame, player, mid);
      Overwrite(old(currentFrame.View()), player, mid[player], s.Value());
    }

    /** `setObservations`. */
    method SetObservations(player: string, observations: Option<string>)
      requires Valid() && currentFrame != null
      modifies currentFrame, currentFrame.status.Values
      ensures Valid()
      ensures currentFrame.View() ==
        old(currentFrame.View())[player := StatusOf(old(currentFrame.View()), player).(observations := observations)]
      ensures currentFrame.items == old(currentFrame.items) && currentFrame.messages == old(currentFrame.messages)
      ensures forall o :: o in currentFrame.status.Values ==> o in old(currentFrame.status.Values) || fresh(o)
      ensures player in currentFrame.status
      ensures player in old(currentFrame.status) ==> currentFrame.status == old(currentFrame.status)
    {
      var s := currentFrame.GetStatus(player);
      ghost var mid := currentFrame.View();
      s.SetObservations(observations);
      OnlyOneChanged(currentFrame, player, mid);
      Overwrite(old(currentFrame.View()), player, mid[player], s.Value());
    }

    /**
     * `wrongAnswer`: adds a frame when there is none, then gives the player
     * WRONG_ANSWER, the message as observation and no points. The three
     * writes go to the one record `getStatus` returns, as the single-field
     * setters above do.
     */
    method WrongAnswer(player: string, message: Option<string>)
      requires Valid()
      modifies this`currentFrame, movie`frames, currentFrame, CurrentStatuses()
      ensures Valid() && currentFrame != null
      ensures currentFrame.View() == old(CurrentView())[player := StatusValue(0, Some(MooshakClassification.WrongAnswer), message)]
      ensures old(currentFrame) != null ==>
        currentFrame == old(currentFrame) && movie.frames == old(movie.frames)
        && currentFrame.items == old(currentFrame.items) && currentFrame.messages == old(currentFrame.messages)
      ensures old(currentFrame) == null ==>
        fresh(currentFrame) && movie.frames == [currentFrame]
        && currentFrame.items == [] && currentFrame.messages == map[]
    {
      if currentFrame == null {
        AddFrame();
      }
      ghost var start := currentFrame.View();
      SetClassification(player, Some(MooshakClassification.WrongAnswer));
      ghost var v1 := currentFrame.View();
      SetObservations(player, message);
      ghost var v2 := currentFrame.View();
      SetPoints(player, 0);
      Overwrite(start, player, v1[player], v2[player]);
      Overwrite(start, player, v2[player], currentFrame.View()[player]);
    }

    /** One player of a failed evaluation: RequiresReevaluation and the message. */
    method MarkReevaluation(player: string, message: Option<string>)
      requires Valid() && currentFrame != null
      modifies currentFrame, currentFrame.status.Values
      ensures Valid()
      ensures currentFrame.View() ==
        old(currentFrame.View())[player := Reevaluated(StatusOf(old(currentFrame.View()), player), message)]
      ensures currentFrame.items == old(currentFrame.items) && currentFrame.messages == old(currentFrame.messages)
      ensures forall o :: o in currentFrame.status.Values ==> o in old(currentFrame.status.Values) || fresh(o)
    {
      ghost var start := currentFrame.View();
      SetClassification(player, Some(RequiresReevaluation));
      ghost var v1 := currentFrame.View();
      SetObservations(player, message);
      Overwrite(start, player, v1[player], currentFrame.View()[player]);
    }

    /**
     * `failedEvaluation(BuilderException)`: adds a frame when there is none,
     * then marks every registered player, in registration order, for
     * re-evaluation with the exception's message; points are kept.
     */
    method FailedEvaluation(e: BuilderException)
      requires Valid()
      modifies this`currentFrame, movie`frames, currentFrame, CurrentStatuses()
      ensures Valid() && currentFrame != null
      ensures currentFrame.View() == ReevaluateAll(old(CurrentView()), movie.header.players.keys, e.message)
      ensures var v, r, ps := old(CurrentView()), currentFrame.View(), movie.header.players.keys;
        && (forall p :: p in r <==> p in v || p in ps)
        && (forall p :: p in ps ==> r[p] == Reevaluated(StatusOf(v, p), e.message))
        && (forall p :: p in v && p !in ps ==> r[p] == v[p])
      ensures old(currentFrame) != null ==>
        currentFrame == old(currentFrame) && movie.frames == old(movie.frames)
        && currentFrame.items == old(currentFrame.items) && currentFrame.messages == old(currentFrame.messages)
      ensures old(currentFrame) == null ==>
        fresh(currentFrame) && movie.frames == [currentFrame]
        && currentFrame.items == [] && currentFrame.messages == map[]
    {
      if currentFrame == null {
        AddFrame();
      }
      ghost var start := currentFrame.View();
      MarkAll(movie.header.players.keys, e.message);
      ReevaluateAllMeaning(start, movie.header.players.keys, e.message);
    }

    /** The loop of `failedEvaluation(BuilderException)` over the registered players. */
    method MarkAll(players: seq<string>, message: Option<string>)
      requires Valid() && currentFrame != null
      modifies currentFrame, currentFrame.status.Values
      ensures Valid()
      ensures currentFrame.View() == ReevaluateAll(old(currentFrame.View()), players, message)
      ensures currentFrame.items == old(currentFrame.items) && currentFrame.messages == old(currentFrame.messages)
    {
      for k := 0 to |players|
        invariant Valid() && currentFrame == old(currentFrame)
        invariant unchanged(this) && unchanged(movie) && unchanged(movie.header)
        invariant currentFrame.View() == ReevaluateAll(old(currentFrame.View()), players[..k], message)
        invariant currentFrame.items == old(currentFrame.items) && currentFrame.messages == old(currentFrame.messages)
        invariant forall o :: o in currentFrame.status.Values ==> o in old(currentFrame.status.Values) || fresh(o)
      {
        MarkReevaluation(players[k], message);
        assert players[..k + 1][..k] == players[..k];
      }
      assert players[..|players|] == players;
    }

    /** The culprit of a `PlayerException`: its classification, no points, its message. */
    method Blame(e: PlayerException)
      requires Valid() && currentFrame != null
      modifies currentFrame, currentFrame.status.Values
      ensures Valid()
      ensures currentFrame.View() ==
        old(currentFrame.View())[e.playerId := Blamed(StatusOf(old(currentFrame.View()), e.playerId), e)]
      ensures currentFrame.items == old(currentFrame.items) && currentFrame.messages == old(currentFrame.messages)
      ensures forall o :: o in currentFrame.status.Values ==> o in old(currentFrame.status.Values) || fresh(o)
    {
      ghost var start := currentFrame.View();
      SetClassification(e.playerId, e.classification);
      ghost var v1 := currentFrame.View();
      SetPoints(e.playerId, 0);
      ghost var v2 := currentFrame.View();
      SetObservations(e.playerId, e.message);
      Overwrite(start, e.playerId, v1[e.playerId], v2[e.playerId]);
      Overwrite(start, e.playerId, v2[e.playerId], currentFrame.View()[e.playerId]);
    }

    /**
     * `failedEvaluation(PlayerException)`: adds a frame when there is none,
     * gives the culprit the exception's classification, no points and its
     * message, then marks every other registered player for re-evaluation
     * with the same message; their points are kept.
     */
    method FailedEvaluationOf(e: PlayerException)
      requires Valid()
      modifies this`currentFrame, movie`frames, currentFrame, CurrentStatuses()
      ensures Valid() && currentFrame != null
      ensures currentFrame.View() == BlameAll(old(CurrentView()), movie.header.players.keys, e)
      ensures var v, r, ps := old(CurrentView()), currentFrame.View(), movie.header.players.keys;
        && (forall p :: p in r <==> p in v || p in ps || p == e.playerId)
        && r[e.playerId] == Blamed(StatusOf(v, e.playerId), e)
        && (forall p :: p in ps && p != e.playerId ==> r[p] == Reevaluated(StatusOf(v, p), e.message))
        && (forall p :: p in v && p !in ps && p != e.playerId ==> r[p] == v[p])
      ensures old(currentFrame) != null ==>
        currentFrame == old(currentFrame) && movie.frames == old(movie.frames)
        && currentFrame.items == old(currentFrame.items) && currentFrame.messages == old(currentFrame.messages)
      ensures old(currentFrame) == null ==>
        fresh(currentFrame) && movie.frames == [currentFrame]
        && currentFrame.items == [] && currentFrame.messages == map[]
    {
      if currentFrame == null {
        AddFrame();
      }
      ghost var start := currentFrame.View();
      Blame(e);
      ghost var blamed := currentFrame.View();
      MarkAllBut(movie.header.players.keys, e.playerId, e.message);
      ExceptMeaning(movie.header.players.keys, e.playerId);
      ReevaluateAllMeaning(blamed, Except(movie.header.players.keys, e.playerId), e.message);
    }

    /** The loop of `failedEvaluation(PlayerException)`: every registered player but the culprit. */
    method MarkAllBut(players: seq<string>, culprit: string, message: Option<string>)
      requires Valid() && currentFrame != null
      modifies currentFrame, currentFrame.status.Values
      ensures Valid()
      ensures currentFrame.View() == ReevaluateAll(old(currentFrame.View()), Except(players, culprit), message)
      ensures currentFrame.items == old(currentFrame.items) && currentFrame.messages == old(currentFrame.messages)
    {
      for k := 0 to |players|
        invariant Valid() && currentFrame == old(currentFrame)
        invariant unchanged(this) && unchanged(movie) && unchanged(movie.header)
        invariant currentFrame.View() == ReevaluateAll(old(currentFrame.View()), Except(players[..k], culprit), message)
        invariant currentFrame.items == old(currentFrame.items) && currentFrame.messages == old(currentFrame.messages)
        invariant forall o :: o in currentFrame.status.Values ==> o in old(currentFrame.status.Values) || fresh(o)
      {
        ReevaluateExceptNext(old(currentFrame.View()), players, k, culprit, message);
        if players[k] != culprit {
          MarkReevaluation(players[k], message);
        }
      }
      assert players[..|players|] == players;
    }
  }

  // ---------------------------------------------------------------------------
  // What sharing the records means
  // ---------------------------------------------------------------------------

  /**
   * Undo does not undo points: give a player 1 point, save, give it 7,
   * restore, and it still has 7, because the snapshot holds the very record
   * the second change wrote to.
   */
  method RestoreKeepsLaterPoints() returns (points: Int32)
    ensures points == 7
  {
    var b, r := SavedWithOnePoint();
    b.SetPoints("A", 7);
    assert r.points == 7;
    b.RestoreFrame();
    assert b.currentFrame.status["A"] == r;
    points := b.currentFrame.status["A"].points;
  }

  /**
   * A restore into a later frame makes the two frames share records: give a
   * player 1 point, save, add a frame, restore, give it 5, and the first
   * frame shows 5 as well.
   */
  method RestoreSharesWithEarlierFrame() returns (first: Int32)
    ensures first == 5
  {
    var b, r := SavedThenNewFrame();
    b.RestoreFrame();
    assert b.currentFrame.status["A"] == r;
    b.SetPoints("A", 5);
    first := b.movie.frames[0].status["A"].points;
  }

  /** The first steps of both: a frame, one point for A, and a save. */
  method SavedWithOnePoint() returns (b: GameMovieBuilderImpl, ghost r: GamePlayerStatus)
    ensures fresh(b) && fresh(b.movie) && fresh(r) && b.Valid()
    ensures |b.movie.frames| == 1 && fresh(b.movie.frames[0]) && b.currentFrame == b.movie.frames[0]
    ensures b.frameStack != [] && b.frameStack[|b.frameStack| - 1].status == Some(b.currentFrame.status)
    ensures b.currentFrame.status == map["A" := r]
  {
    b := new GameMovieBuilderImpl();
    b.AddFrame();
    b.SetPoints("A", 1);
    ghost var f0 := b.currentFrame;
    r := f0.status["A"];
    assert f0.status.Keys == f0.View().Keys == {"A"};
    assert f0.status == map["A" := r];
    b.SaveFrameDefault();
  }

  /** Those steps, then a second frame. */
  method SavedThenNewFrame() returns (b: GameMovieBuilderImpl, ghost r: GamePlayerStatus)
    ensures fresh(b) && fresh(b.movie) && fresh(r) && b.Valid()
    ensures |b.movie.frames| == 2 && fresh(b.movie.frames[1]) && b.currentFrame == b.movie.frames[1]
    ensures b.frameStack != [] && b.frameStack[|b.frameStack| - 1].status == Some(b.movie.frames[0].status)
    ensures b.movie.frames[0].status == map["A" := r]
  {
    b, r := SavedWithOnePoint();
    ghost var f0 := b.currentFrame;
    b.AddFrame();
    assert b.movie.frames[0] == f0;
  }

  // ---------------------------------------------------------------------------
  // Frame reasoning
  // ---------------------------------------------------------------------------

  /**
   * After writing one record of a frame whose records are filed under their
   * own players, only that player's value has changed.
   */
  lemma OnlyOneChanged(f: GameMovieFrame, player: string, mid: map<string, StatusValue>)
    requires player in f.status && mid.Keys == f.status.Keys
    requires forall q :: q in f.status && q != player ==> mid[q] == f.status[q].Value()
    ensures f.View() == mid[player := f.status[player].Value()]
  {
  }

  /** A later write to the same key wins. */
  lemma Overwrite(m: map<string, StatusValue>, k: string, a: StatusValue, b: StatusValue)
    ensures m[k := a][k := b] == m[k := b]
  {
  }
}
