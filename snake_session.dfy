/**
 * One snake-and-ladder game session (SnakeAndLadder session/GameSession.java):
 * the game, its id, when it was created, started and ended, and its status.
 *
 * The session id (a random UUID in the two-argument-free constructor), the
 * wall-clock readings and the outcome of `game.play()` are parameters. The
 * lock only orders the status updates; concurrency is not part of this
 * model, and `startAsync`'s thread body is the method `Finish`, run after the
 * start.
 */
module SnakeSession {
  import opened Wrappers
  import opened SnakeModel

  datatype SessionStatus = Created | Running | Completed | Failed

  /** How `game.play()` ended: normally, or by throwing. */
  datatype PlayOutcome = Played | Threw(message: string)

  datatype SessionError =
    | NotStartable(current: SessionStatus)
    | GameFailed(sessionId: string, message: string)

  /** A lifecycle event: a start attempt, or the end of `play()`. */
  datatype Event = StartRequest | PlayEnded(outcome: PlayOutcome)

  /**
   * The status after one event. A start from anything but CREATED is refused
   * and changes nothing; the end of `play()` marks the session COMPLETED or
   * FAILED.
   */
  function Next(s: SessionStatus, e: Event): (t: SessionStatus)
    ensures t != Created
    ensures e == StartRequest && s == Created ==> t == Running
    ensures e == StartRequest && s != Created ==> t == s
    ensures e.PlayEnded? ==> (t == Completed <==> e.outcome == Played) && (t == Failed <==> e.outcome.Threw?)
  {
    match e
    case StartRequest => if s == Created then Running else s
    case PlayEnded(o) => if o == Played then Completed else Failed
  }

  /** The status after a run of events. */
  function Run(s: SessionStatus, es: seq<Event>): SessionStatus
    decreases |es|
  {
    if es == [] then s else Run(Next(s, es[0]), es[1..])
  }

  /** How many starts in the run are accepted. */
  function Starts(s: SessionStatus, es: seq<Event>): nat
    decreases |es|
  {
    if es == [] then 0
    else (if es[0] == StartRequest && s == Created then 1 else 0) + Starts(Next(s, es[0]), es[1..])
  }

  /** Once a session has left CREATED it never returns there. */
  lemma {:induction false} NeverCreatedAgain(s: SessionStatus, es: seq<Event>)
    requires s != Created
    ensures Run(s, es) != Created
    ensures Starts(s, es) == 0
    decreases |es|
  {
    if es != [] {
      NeverCreatedAgain(Next(s, es[0]), es[1..]);
    }
  }

  /** A session is started at most once, whatever happens to it. */
  lemma {:induction false} StartedAtMostOnce(s: SessionStatus, es: seq<Event>)
    ensures Starts(s, es) <= 1
    ensures Starts(s, es) == 1 ==> s == Created && Run(s, es) != Created
    decreases |es|
  {
    if es != [] {
      var t := Next(s, es[0]);
      if s == Created && es[0] == StartRequest {
        NeverCreatedAgain(t, es[1..]);
      } else {
        StartedAtMostOnce(t, es[1..]);
      }
    }
  }

  class GameSession {
    const sessionId: string
    const game: Game
    const createdAt: int
    var startedAt: Option<int>
    var endedAt: Option<int>
    var status: SessionStatus

    /** Both Java constructors: a new session is CREATED and has neither started nor ended. */
    constructor (sessionId: string, game: Game, now: int)
      ensures this.sessionId == sessionId && this.game == game && createdAt == now
      ensures status == Created && startedAt == None && endedAt == None
    {
      this.sessionId := sessionId;
      this.game := game;
      createdAt := now;
      startedAt := None;
      endedAt := None;
      status := Created;
    }

    /**
     * The guarded block shared by `start` and `startAsync`: only a CREATED
     * session starts; it becomes RUNNING and records the start time.
     */
    method Begin(now: int) returns (r: Result<(), SessionError>)
      modifies this
      ensures status == Next(old(status), StartRequest)
      ensures r.Ok? <==> old(status) == Created
      ensures r.Err? ==> r.error == NotStartable(old(status)) && startedAt == old(startedAt)
      ensures r.Ok? ==> startedAt == Some(now)
      ensures endedAt == old(endedAt)
    {
      if status != Created {
        return Err(NotStartable(status));
      }
      startedAt := Some(now);
      status := Running;
      r := Ok(());
    }

    /** The end of `play()`: COMPLETED if it returned, FAILED if it threw; the end time is recorded. */
    method Finish(outcome: PlayOutcome, now: int)
      modifies this
      ensures status == Next(old(status), PlayEnded(outcome))
      ensures endedAt == Some(now) && startedAt == old(startedAt)
    {
      if outcome == Played {
        status := Completed;
      } else {
        status := Failed;
      }
      endedAt := Some(now);
    }

    /**
     * start: begins the session and plays it to the end. A failed game is
     * reported as an error naming the session, after the status is FAILED.
     */
    method Start(startTime: int, outcome: PlayOutcome, endTime: int) returns (r: Result<(), SessionError>)
      modifies this
      ensures old(status) != Created ==>
        r == Err(NotStartable(old(status))) && status == old(status)
        && startedAt == old(startedAt) && endedAt == old(endedAt)
      ensures old(status) == Created ==>
        && status == Next(Next(Created, StartRequest), PlayEnded(outcome))
        && startedAt == Some(startTime) && endedAt == Some(endTime)
        && (r.Ok? <==> outcome == Played)
        && (outcome.Threw? ==> r == Err(GameFailed(sessionId, outcome.message)))
    {
      r := Begin(startTime);
      if r.Err? {
        return;
      }
      Finish(outcome, endTime);
      if outcome.Threw? {
        r := Err(GameFailed(sessionId, outcome.message));
      }
    }

    /** startAsync: the guarded start; the game itself runs later, in `Finish`. */
    method StartAsync(now: int) returns (r: Result<(), SessionError>)
      modifies this
      ensures status == Next(old(status), StartRequest)
      ensures r.Ok? <==> old(status) == Created
      ensures r.Err? ==> r.error == NotStartable(old(status)) && startedAt == old(startedAt)
      ensures r.Ok? ==> startedAt == Some(now)
      ensures endedAt == old(endedAt)
    {
      r := Begin(now);
    }
  }
}
