/**
 * The snake-and-ladder game factory (SnakeAndLadder session/GameFactory.java):
 * a template picks the board and its snakes and ladders; the session helpers
 * wrap the game in a new session.
 *
 * A predefined list is built by constructing every snake and ladder in turn,
 * so a ladder that went down would make the factory throw; `CreateGame`
 * therefore answers a `Result`, and `TemplatesAlwaysBuild` shows that every
 * template succeeds.
 */
module SnakeFactory {
  import opened Wrappers
  import opened SnakeModel
  import opened SnakeSession

  datatype GameTemplate = Classic | Easy | Hard | Custom

  const BOARD_SIZE := 100

  /** Balanced: four snakes, four ladders. */
  const ClassicSpecs: seq<EntitySpec> := [
    SnakeSpec(17, 7), SnakeSpec(54, 34), SnakeSpec(62, 19), SnakeSpec(98, 79),
    LadderSpec(3, 38), LadderSpec(24, 33), LadderSpec(42, 93), LadderSpec(72, 84)
  ]

  /** More ladders, fewer snakes. */
  const EasySpecs: seq<EntitySpec> := [
    SnakeSpec(95, 75), SnakeSpec(87, 36),
    LadderSpec(4, 14), LadderSpec(9, 31), LadderSpec(20, 38), LadderSpec(28, 84),
    LadderSpec(40, 59), LadderSpec(51, 67), LadderSpec(63, 81), LadderSpec(71, 91)
  ]

  /** More snakes, fewer ladders. */
  const HardSpecs: seq<EntitySpec> := [
    SnakeSpec(99, 54), SnakeSpec(95, 72), SnakeSpec(92, 53), SnakeSpec(83, 19),
    SnakeSpec(73, 28), SnakeSpec(69, 33), SnakeSpec(64, 36), SnakeSpec(59, 17),
    SnakeSpec(55, 7), SnakeSpec(52, 29), SnakeSpec(48, 16), SnakeSpec(46, 5),
    LadderSpec(2, 23), LadderSpec(8, 26), LadderSpec(21, 42)
  ]

  /**
   * createGame(template, players, customEntities): every template plays on a
   * 100-square board; CUSTOM takes the caller's entities, or none when they
   * are absent (Java null).
   */
  function CreateGame(template: GameTemplate, playerNames: seq<string>, custom: Option<seq<BoardEntity>>): (r: Result<Game, EntityError>)
    ensures r.Ok? ==> r.value.boardSize == BOARD_SIZE && r.value.playerNames == playerNames
    ensures template == Custom ==> r == Ok(Game(BOARD_SIZE, if custom.Some? then custom.value else [], playerNames))
  {
    match template
    case Classic =>
      (match BuildAll(ClassicSpecs) case Ok(es) => Ok(Game(BOARD_SIZE, es, playerNames)) case Err(e) => Err(e))
    case Easy =>
      (match BuildAll(EasySpecs) case Ok(es) => Ok(Game(BOARD_SIZE, es, playerNames)) case Err(e) => Err(e))
    case Hard =>
      (match BuildAll(HardSpecs) case Ok(es) => Ok(Game(BOARD_SIZE, es, playerNames)) case Err(e) => Err(e))
    case Custom =>
      Ok(Game(BOARD_SIZE, if custom.Some? then custom.value else [], playerNames))
  }

  /** createGame(template, players): no custom entities. */
  function CreateDefaultGame(template: GameTemplate, playerNames: seq<string>): (r: Result<Game, EntityError>)
    ensures r == CreateGame(template, playerNames, None)
    ensures template == Custom ==> r == Ok(Game(BOARD_SIZE, [], playerNames))
  {
    CreateGame(template, playerNames, None)
  }

  /** createCustomGame: the caller's board size and entities, unchanged. */
  function CreateCustomGame(boardSize: int, entities: seq<BoardEntity>, playerNames: seq<string>): (r: Game)
    ensures r.boardSize == boardSize && r.entities == entities && r.playerNames == playerNames
  {
    Game(boardSize, entities, playerNames)
  }

  /** The CLASSIC list builds into four snakes and four climbing ladders. */
  lemma ClassicBoard()
    ensures BuildAll(ClassicSpecs).Ok?
    ensures var es := BuildAll(ClassicSpecs).value;
      && Snakes(es) == 4 && Ladders(es) == 4
      && forall e :: e in es && e.Ladder? ==> e.start < e.end
  {
    BuildBlocks(ClassicSpecs, 4);
  }

  /** The EASY list builds into two snakes and eight climbing ladders. */
  lemma EasyBoard()
    ensures BuildAll(EasySpecs).Ok?
    ensures var es := BuildAll(EasySpecs).value;
      && Snakes(es) == 2 && Ladders(es) == 8
      && forall e :: e in es && e.Ladder? ==> e.start < e.end
  {
    BuildBlocks(EasySpecs, 2);
  }

  /** The HARD list builds into twelve snakes and three climbing ladders. */
  lemma HardBoard()
    ensures BuildAll(HardSpecs).Ok?
    ensures var es := BuildAll(HardSpecs).value;
      && Snakes(es) == 12 && Ladders(es) == 3
      && forall e :: e in es && e.Ladder? ==> e.start < e.end
  {
    BuildBlocks(HardSpecs, 12);
  }

  /** Every predefined ladder climbs, so no template makes the factory throw. */
  lemma TemplatesAlwaysBuild(template: GameTemplate, playerNames: seq<string>, custom: Option<seq<BoardEntity>>)
    ensures CreateGame(template, playerNames, custom).Ok?
    ensures template != Custom ==>
      forall e :: e in CreateGame(template, playerNames, custom).value.entities && e.Ladder? ==> e.start < e.end
  {
    ClassicBoard();
    EasyBoard();
    HardBoard();
  }

  /** createQuickSession: a CLASSIC game in a new, CREATED session. */
  method CreateQuickSession(playerNames: seq<string>, sessionId: string, now: int) returns (s: GameSession)
    ensures fresh(s) && s.status == Created && s.sessionId == sessionId
    ensures Ok(s.game) == CreateDefaultGame(Classic, playerNames)
  {
    s := CreateSession(Classic, playerNames, sessionId, now);
  }

  /** createSession(template, players): the template's game in a new, CREATED session. */
  method CreateSession(template: GameTemplate, playerNames: seq<string>, sessionId: string, now: int) returns (s: GameSession)
    ensures fresh(s) && s.status == Created && s.sessionId == sessionId && s.createdAt == now
    ensures s.startedAt == None && s.endedAt == None
    ensures Ok(s.game) == CreateDefaultGame(template, playerNames)
  {
    var game := CreateDefaultGame(template, playerNames);
    TemplatesAlwaysBuild(template, playerNames, None);
    s := new GameSession(sessionId, game.value, now);
  }

  /** createCustomSession: the caller's board in a new, CREATED session. */
  method CreateCustomSession(boardSize: int, entities: seq<BoardEntity>, playerNames: seq<string>, sessionId: string, now: int)
    returns (s: GameSession)
    ensures fresh(s) && s.status == Created && s.sessionId == sessionId && s.createdAt == now
    ensures s.startedAt == None && s.endedAt == None
    ensures s.game == CreateCustomGame(boardSize, entities, playerNames)
  {
    s := new GameSession(sessionId, CreateCustomGame(boardSize, entities, playerNames), now);
  }
}
