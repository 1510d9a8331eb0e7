/**
 * The records a game movie is made of (package `movie.models`): the
 * classifications Mooshak accepts, frame items, per-player statuses, frames,
 * the movie header and the movie itself. Statuses, frames, the header and the
 * movie are objects whose fields the builder changes in place; items and the
 * enumerations are values.
 */
module MovieModels {
  import opened Wrappers
  import opened JavaText

  /** `MooshakClassification`: the fifteen verdicts, in declaration order. */
  datatype MooshakClassification =
    | Accepted | PresentationError | WrongAnswer | EvaluationSkipped
    | OutputLimitExceeded | MemoryLimitExceeded | TimeLimitExceeded
    | InvalidFunction | InvalidExitValue | RuntimeError | CompileTimeError
    | InvalidSubmission | ProgramSizeExceeded | RequiresReevaluation | Evaluating

  /** `GameMovieBuilder.SpriteAnchor`. */
  datatype SpriteAnchor =
    | Center | Top | TopLeft | TopRight | Bottom | BottomLeft | BottomRight | Left | Right

  /** A Java `double`, kept as its 64 bits: no arithmetic is done on rotations or scales. */
  datatype Double = Double(bits: bv64)

  /** `GameFrameItem`: a sprite drawn at (x, y), with an optional rotation and scale. */
  datatype GameFrameItem = GameFrameItem(sprite: string, x: Int32, y: Int32,
                                         rotate: Option<Double>, scale: Option<Double>)

  // ---------------------------------------------------------------------------
  // GamePlayerStatus
  // ---------------------------------------------------------------------------

  /** The fields of a player status, as a value. */
  datatype StatusValue = StatusValue(points: Int32, classification: Option<MooshakClassification>,
                                     observations: Option<string>)

  /** A new status: 0 points, no classification, no observations. */
  const DefaultStatus: StatusValue := StatusValue(0, None, None)

  /** A status looked up in a map of values, or the default one a lazy lookup would create. */
  function StatusOf(view: map<string, StatusValue>, player: string): StatusValue
  {
    if player in view then view[player] else DefaultStatus
  }

  /**
   * `GamePlayerStatus`. The ghost key is the player the record was created
   * for; it never changes, and it keeps the records of different players
   * apart.
   */
  class GamePlayerStatus {
    var points: Int32
    var classification: Option<MooshakClassification>
    var observations: Option<string>
    ghost const key: string

    function Value(): StatusValue
      reads this
    {
      StatusValue(points, classification, observations)
    }

    constructor (ghost key: string)
      ensures Value() == DefaultStatus && this.key == key
    {
      points, classification, observations := 0, None, None;
      this.key := key;
    }

    method SetPoints(points: Int32)
      modifies this
      ensures Value() == old(Value()).(points := points)
    {
      this.points := points;
    }

    method SetClassification(classification: Option<MooshakClassification>)
      modifies this
      ensures Value() == old(Value()).(classification := classification)
    {
      this.classification := classification;
    }

    method SetObservations(observations: Option<string>)
      modifies this
      ensures Value() == old(Value()).(observations := observations)
    {
      this.observations := observations;
    }
  }

  /**
   * Every record of a status map is filed under the player it was created
   * for, so two players never share one record. Records may still be shared
   * between maps: a frame and the snapshots taken of it hold the same ones.
   */
  ghost predicate Keyed(status: map<string, GamePlayerStatus>)
  {
    forall p :: p in status ==> status[p].key == p
  }

  /** The present values of the records of a status map. */
  function ViewOf(status: map<string, GamePlayerStatus>): map<string, StatusValue>
    reads status.Values
  {
    map p | p in status :: status[p].Value()
  }

  // ---------------------------------------------------------------------------
  // GameMovieFrame
  // ---------------------------------------------------------------------------

  /** `GameMovieFrame`: the items drawn, a status per player and a message per player. */
  class GameMovieFrame {
    var items: seq<GameFrameItem>
    var status: map<string, GamePlayerStatus>
    var messages: map<string, string>

    /** Each status record is filed under its own player. */
    ghost predicate Valid()
      reads this
    {
      Keyed(status)
    }

    /** The statuses as values. */
    function View(): map<string, StatusValue>
      reads this, status.Values
    {
      ViewOf(status)
    }

    constructor ()
      ensures Valid() && items == [] && status == map[] && messages == map[]
    {
      items, status, messages := [], map[], map[];
    }

  /** `addItem`: one item more, at the end. */
    method AddItem(item: GameFrameItem)
      modifies this
      ensures items == old(items) + [item]
      ensures status == old(status) && messages == old(messages)
    {
      items := items + [item];
    }

    method SetItems(items: seq<GameFrameItem>)
      modifies this
      ensures this.items == items && status == old(status) && messages == old(messages)
    {
      this.items := items;
    }

    method SetMessages(messages: map<string, string>)
      modifies this
      ensures this.messages == messages && items == old(items) && status == old(status)
    {
      this.messages := messages;
    }

    /** `setStatus`: the frame now holds the given map, whose records it may share. */
    method SetStatus(status: map<string, GamePlayerStatus>)
      modifies this
      ensures this.status == status && items == old(items) && messages == old(messages)
    {
      this.status := status;
    }

    /**
     * `getStatus(player)`: the stored record, or a new default one that is
     * stored first. It never returns null.
     */
    method GetStatus(player: string) returns (s: GamePlayerStatus)
      modifies this
      ensures old(Valid()) ==> Valid()
      ensures player in status && s == status[player]
      ensures player in old(status) ==> s == old(status)[player] && status == old(status)
      ensures player !in old(status) ==> fresh(s) && status == old(status)[player := s]
      ensures forall o :: o in status.Values ==> o in old(status.Values) || fresh(o)
      ensures View() == old(View())[player := StatusOf(old(View()), player)]
      ensures items == old(items) && messages == old(messages)
    {
      if player in status {
        s := status[player];
        assert View() == old(View())[player := StatusOf(old(View()), player)];
      } else {
        s := new GamePlayerStatus(player);
        status := status[player := s];
      }
    }
  }

  // ---------------------------------------------------------------------------
  // GameMovieHeader
  // ---------------------------------------------------------------------------

  /**
   * A `LinkedHashMap<String, String>`: the keys in first-insertion order and
   * the current value of each (None for a null value).
   */
  datatype LinkedMap = LinkedMap(keys: seq<string>, values: map<string, Option<string>>)
  {
    /** Every key once, and the same keys in both parts. */
    ghost predicate Valid()
    {
      && (forall i, j :: 0 <= i < j < |keys| ==> keys[i] != keys[j])
      && (forall k :: k in values <==> k in keys)
    }
  }

  const EmptyLinkedMap: LinkedMap := LinkedMap([], map[])

  /** `put`: a new key goes to the end; an existing key keeps its place and gets the new value. */
  function Put(m: LinkedMap, k: string, v: Option<string>): LinkedMap
  {
    if k in m.values then LinkedMap(m.keys, m.values[k := v])
    else LinkedMap(m.keys + [k], m.values[k := v])
  }

  /** `put` keeps the map well formed, stores the value and keeps the earlier order. */
  lemma PutKeepsOrder(m: LinkedMap, k: string, v: Option<string>)
    requires m.Valid()
    ensures Put(m, k, v).Valid()
    ensures Put(m, k, v).values == m.values[k := v]
    ensures Put(m, k, v).keys == (if k in m.keys then m.keys else m.keys + [k])
  {
  }

  /** The value fields of the header. */
  datatype HeaderValue = HeaderValue(title: Option<string>, background: Option<string>,
                                     width: Int32, height: Int32, sprites: LinkedMap,
                                     players: LinkedMap, anchorPoint: SpriteAnchor, fps: Int32)

  /** A new header: no title or background, zero sizes and rate, empty maps, centred anchor. */
  const DefaultHeader: HeaderValue :=
    HeaderValue(None, None, 0, 0, EmptyLinkedMap, EmptyLinkedMap, Center, 0)

  /** `GameMovieHeader`. */
  class GameMovieHeader {
    var title: Option<string>
    var background: Option<string>
    var width: Int32
    var height: Int32
    var sprites: LinkedMap
    var players: LinkedMap
    var anchorPoint: SpriteAnchor
    var fps: Int32

    function Value(): HeaderValue
      reads this
    {
      HeaderValue(title, background, width, height, sprites, players, anchorPoint, fps)
    }

    ghost predicate Valid()
      reads this
    {
      sprites.Valid() && players.Valid()
    }

    constructor ()
      ensures Valid() && Value() == DefaultHeader
    {
      title, background, width, height := None, None, 0, 0;
      sprites, players, anchorPoint, fps := EmptyLinkedMap, EmptyLinkedMap, Center, 0;
    }

    method SetTitle(title: Option<string>)
      modifies this
      ensures Value() == old(Value()).(title := title)
    {
      this.title := title;
    }

    method SetBackground(background: Option<string>)
      modifies this
      ensures Value() == old(Value()).(background := background)
    {
      this.background := background;
    }

    method SetWidth(width: Int32)
      modifies this
      ensures Value() == old(Value()).(width := width)
    {
      this.width := width;
    }

    method SetHeight(height: Int32)
      modifies this
      ensures Value() == old(Value()).(height := height)
    {
      this.height := height;
    }

    method SetAnchorPoint(anchorPoint: SpriteAnchor)
      modifies this
      ensures Value() == old(Value()).(anchorPoint := anchorPoint)
    {
      this.anchorPoint := anchorPoint;
    }

    method SetFps(fps: Int32)
      modifies this
      ensures Value() == old(Value()).(fps := fps)
    {
      this.fps := fps;
    }

    /** `getSprites().put(name, url)`. */
    method PutSprite(name: string, url: Option<string>)
      requires Valid()
      modifies this
      ensures Valid() && Value() == old(Value()).(sprites := Put(old(sprites), name, url))
    {
      PutKeepsOrder(sprites, name, url);
      sprites := Put(sprites, name, url);
    }

    /** `getPlayers().put(player, name)`. */
    method PutPlayer(player: string, name: Option<string>)
      requires Valid()
      modifies this
      ensures Valid() && Value() == old(Value()).(players := Put(old(players), player, name))
    {
      PutKeepsOrder(players, player, name);
      players := Put(players, player, name);
    }
  }

  // ---------------------------------------------------------------------------
  // GameMovie
  // ---------------------------------------------------------------------------

  /** `GameMovie`: a header and the frames, in order. */
  class GameMovie {
    var header: GameMovieHeader
    var frames: seq<GameMovieFrame>

    constructor ()
      ensures fresh(header) && header.Valid() && header.Value() == DefaultHeader && frames == []
    {
      header := new GameMovieHeader();
      frames := [];
    }
  }
}
