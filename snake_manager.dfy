/**
 * The registry of snake-and-ladder sessions
 * (SnakeAndLadder session/GameSessionManager.java): sessions by id, created
 * from a template name, a custom board or a ready game; looked up, started,
 * filtered by status, counted and cleared.
 *
 * The singleton accessor, the locks of the concurrent map and the console
 * output are not part of this model; new session ids (random UUIDs) and clock
 * readings are parameters.
 */
module SnakeManager {
  import opened Wrappers
  import opened SnakeModel
  import opened SnakeSession
  import opened SnakeFactory

  // ---------------------------------------------------------------------------
  // Template names
  // ---------------------------------------------------------------------------

  /** `Character.toUpperCase` on the ASCII letters; every other character is kept. */
  function UpperChar(c: char): (u: char)
    ensures 'a' <= c <= 'z' ==> u as int == c as int - 32
    ensures !('a' <= c <= 'z') ==> u == c
  {
    if 'a' <= c <= 'z' then (c as int - 32) as char else c
  }

  function LowerChar(c: char): (l: char)
    ensures 'A' <= c <= 'Z' ==> l as int == c as int + 32
    ensures !('A' <= c <= 'Z') ==> l == c
  {
    if 'A' <= c <= 'Z' then (c as int + 32) as char else c
  }

  function Upper(s: string): (u: string)
    ensures |u| == |s| && forall i :: 0 <= i < |s| ==> u[i] == UpperChar(s[i])
  {
    seq(|s|, i requires 0 <= i < |s| => UpperChar(s[i]))
  }

  function Lower(s: string): (l: string)
    ensures |l| == |s| && forall i :: 0 <= i < |s| ==> l[i] == LowerChar(s[i])
  {
    seq(|s|, i requires 0 <= i < |s| => LowerChar(s[i]))
  }

  /**
   * `GameTemplate.valueOf(template.toUpperCase())`, and CLASSIC when no
   * template has that name.
   */
  function TemplateOf(name: string): (t: GameTemplate)
    ensures Upper(name) == "EASY" ==> t == Easy
    ensures Upper(name) == "HARD" ==> t == Hard
    ensures Upper(name) == "CUSTOM" ==> t == Custom
    ensures Upper(name) !in {"EASY", "HARD", "CUSTOM"} ==> t == Classic
  {
    var u := Upper(name);
    if u == "CLASSIC" then Classic
    else if u == "EASY" then Easy
    else if u == "HARD" then Hard
    else if u == "CUSTOM" then Custom
    else Classic
  }

  /** Lower-casing a name first does not change the template it selects: matching ignores case. */
  lemma TemplateIgnoresCase(name: string)
    ensures TemplateOf(Lower(name)) == TemplateOf(name)
    ensures TemplateOf(Upper(name)) == TemplateOf(name)
  {
    assert Upper(Lower(name)) == Upper(name);
    assert Upper(Upper(name)) == Upper(name);
  }

  /** Names that differ only in case select the same template, and each template's own name selects it. */
  lemma TemplateNames()
    ensures TemplateOf("classic") == Classic && TemplateOf("Easy") == Easy
    ensures TemplateOf("hard") == Hard && TemplateOf("CUSTOM") == Custom
    ensures TemplateOf("expert") == Classic && TemplateOf("") == Classic
  {
    assert Upper("classic") == "CLASSIC";
    assert Upper("Easy") == "EASY";
    assert Upper("hard") == "HARD";
    assert Upper("CUSTOM") == "CUSTOM";
    assert Upper("expert") == "EXPERT";
  }

  // ---------------------------------------------------------------------------
  // Counting statuses
  // ---------------------------------------------------------------------------

  datatype SessionStats = SessionStats(total: nat, created: nat, running: nat, completed: nat, failed: nat)

  /** The ids whose session has status `st`. */
  function WithStatus(m: map<string, SessionStatus>, st: SessionStatus): (ids: set<string>)
    ensures ids <= m.Keys
    ensures forall id :: id in ids <==> id in m && m[id] == st
  {
    set id | id in m && m[id] == st
  }

  /** The ids of finished (COMPLETED or FAILED) sessions. */
  function Finished(m: map<string, SessionStatus>): (ids: set<string>)
    ensures forall id :: id in ids <==> id in m && m[id] in {Completed, Failed}
  {
    set id | id in m && m[id] in {Completed, Failed}
  }

  /** What getStats reports for sessions with the statuses `m`. */
  function Stats(m: map<string, SessionStatus>): SessionStats
  {
    SessionStats(|m|, |WithStatus(m, Created)|, |WithStatus(m, Running)|,
                 |WithStatus(m, Completed)|, |WithStatus(m, Failed)|)
  }

  /** Every session has exactly one of the four statuses: the counts add up to the total. */
  lemma StatsPartition(m: map<string, SessionStatus>)
    ensures var s := Stats(m); s.created + s.running + s.completed + s.failed == s.total
  {
    var c, r, d, f := WithStatus(m, Created), WithStatus(m, Running), WithStatus(m, Completed), WithStatus(m, Failed);
    assert m.Keys == c + r + d + f;
    assert |c + r| == |c| + |r|;
    assert |c + r + d| == |c| + |r| + |d|;
    assert |c + r + d + f| == |c| + |r| + |d| + |f|;
  }

  /** The finished sessions are the COMPLETED ones and the FAILED ones. */
  lemma FinishedCount(m: map<string, SessionStatus>)
    ensures |Finished(m)| == Stats(m).completed + Stats(m).failed
  {
    assert Finished(m) == WithStatus(m, Completed) + WithStatus(m, Failed);
  }

  /** Setting one session aside takes it off the count of its own status and no other. */
  lemma WithStatusRemove(m: map<string, SessionStatus>, k: string, st: SessionStatus)
    requires k in m
    ensures |WithStatus(m, st)| == |WithStatus(m - {k}, st)| + (if m[k] == st then 1 else 0)
  {
    if m[k] == st {
      assert WithStatus(m, st) == WithStatus(m - {k}, st) + {k};
    } else {
      assert WithStatus(m, st) == WithStatus(m - {k}, st);
    }
  }

  /** The statistics with one more session, of status `s`. */
  function Counted(t: SessionStats, s: SessionStatus): SessionStats
  {
    match s
    case Created => t.(total := t.total + 1, created := t.created + 1)
    case Running => t.(total := t.total + 1, running := t.running + 1)
    case Completed => t.(total := t.total + 1, completed := t.completed + 1)
    case Failed => t.(total := t.total + 1, failed := t.failed + 1)
  }

  /** The statistics of all sessions are those of all but one, plus that one. */
  lemma StatsRemove(m: map<string, SessionStatus>, k: string)
    requires k in m
    ensures Stats(m) == Counted(Stats(m - {k}), m[k])
  {
    WithStatusRemove(m, k, Created);
    WithStatusRemove(m, k, Running);
    WithStatusRemove(m, k, Completed);
    WithStatusRemove(m, k, Failed);
  }

  /** The statistics of the sessions `ids`, counted one at a time in that order. */
  function Tally(m: map<string, SessionStatus>, ids: seq<string>): SessionStats
    requires forall i :: 0 <= i < |ids| ==> ids[i] in m
  {
    if ids == [] then SessionStats(0, 0, 0, 0, 0)
    else Counted(Tally(m, ids[..|ids| - 1]), m[ids[|ids| - 1]])
  }

  /** The tally reads only the statuses of the listed ids. */
  lemma {:induction false} TallyFrame(m1: map<string, SessionStatus>, m2: map<string, SessionStatus>, ids: seq<string>)
    requires forall i :: 0 <= i < |ids| ==> ids[i] in m1 && ids[i] in m2 && m1[ids[i]] == m2[ids[i]]
    ensures Tally(m1, ids) == Tally(m2, ids)
  {
    if ids != [] {
      TallyFrame(m1, m2, ids[..|ids| - 1]);
    }
  }

  /** Listing every id of `m` once, the last one set aside, lists every id of the rest once. */
  lemma ListedRest(m: map<string, SessionStatus>, ids: seq<string>)
    requires ids != []
    requires forall i :: 0 <= i < |ids| ==> ids[i] in m
    requires forall id :: id in m ==> id in ids
    requires forall i, j :: 0 <= i < j < |ids| ==> ids[i] != ids[j]
    ensures var k, p := ids[|ids| - 1], ids[..|ids| - 1];
      && (forall i :: 0 <= i < |p| ==> p[i] in m - {k} && p[i] in m && (m - {k})[p[i]] == m[p[i]])
      && (forall id :: id in m - {k} ==> id in p)
  {
    var k, p := ids[|ids| - 1], ids[..|ids| - 1];
    forall i | 0 <= i < |p|
      ensures p[i] in m - {k}
    {
      assert p[i] == ids[i] && ids[i] != k;
    }
    forall id | id in m - {k}
      ensures id in p
    {
      var i :| 0 <= i < |ids| && ids[i] == id;
      assert i < |ids| - 1 && p[i] == id;
    }
  }

  /** Counting every session once, in any order, gives the statistics. */
  lemma {:induction false} TallyIsStats(m: map<string, SessionStatus>, ids: seq<string>)
    requires forall i :: 0 <= i < |ids| ==> ids[i] in m
    requires forall id :: id in m ==> id in ids
    requires forall i, j :: 0 <= i < j < |ids| ==> ids[i] != ids[j]
    ensures Tally(m, ids) == Stats(m)
  {
    if ids == [] {
      assert forall st :: WithStatus(m, st) == {};
    } else {
      var k, p := ids[|ids| - 1], ids[..|ids| - 1];
      ListedRest(m, ids);
      TallyFrame(m, m - {k}, p);
      TallyIsStats(m - {k}, p);
      StatsRemove(m, k);
    }
  }

  /** A sequence without repeats has as many elements as its set. */
  lemma {:induction false} DistinctCard(s: seq<string>)
    requires forall i, j :: 0 <= i < j < |s| ==> s[i] != s[j]
    ensures |set x | x in s| == |s|
  {
    if s != [] {
      var t := s[..|s| - 1];
      DistinctCard(t);
      assert (set x | x in s) == (set x | x in t) + {s[|s| - 1]};
    }
  }

  // ---------------------------------------------------------------------------
  // The manager
  // ---------------------------------------------------------------------------

  datatype ManagerError = SessionNotFound(sessionId: string) | StartFailed(cause: SessionError)

  class GameSessionManager {
    var sessions: map<string, GameSession>

    /** Every session is stored under its own id. */
    ghost predicate Valid()
      reads this
    {
      forall id :: id in sessions ==> sessions[id].sessionId == id
    }

    /** The status of every stored session. */
    function Statuses(): (m: map<string, SessionStatus>)
      reads this, sessions.Values
      ensures m.Keys == sessions.Keys
      ensures forall id :: id in m ==> m[id] == sessions[id].status
    {
      map id | id in sessions :: sessions[id].status
    }

    constructor ()
      ensures Valid() && sessions == map[]
    {
      sessions := map[];
    }

    /** Stores `session` under its id, replacing whatever was there. */
    method Register(session: GameSession)
      requires Valid()
      modifies this
      ensures Valid()
      ensures sessions == old(sessions)[session.sessionId := session]
    {
      sessions := sessions[session.sessionId := session];
    }

    /**
     * createSession(template, players): the template named by `template`,
     * whatever its case and CLASSIC if unknown, in a new CREATED session
     * stored under its id.
     */
    method CreateSession(template: string, playerNames: seq<string>, sessionId: string, now: int)
      returns (s: GameSession)
      requires Valid()
      modifies this
      ensures Valid() && fresh(s) && s.status == Created
      ensures Ok(s.game) == CreateDefaultGame(TemplateOf(template), playerNames)
      ensures sessions == old(sessions)[sessionId := s]
      ensures GetSession(sessionId) == Some(s)
    {
      s := SnakeFactory.CreateSession(TemplateOf(template), playerNames, sessionId, now);
      Register(s);
    }

    /** createCustomSession: the caller's board in a new CREATED session, stored under its id. */
    method CreateCustomSession(boardSize: int, entities: seq<BoardEntity>, playerNames: seq<string>, sessionId: string, now: int)
      returns (s: GameSession)
      requires Valid()
      modifies this
      ensures Valid() && fresh(s) && s.status == Created
      ensures s.game == CreateCustomGame(boardSize, entities, playerNames)
      ensures sessions == old(sessions)[sessionId := s]
      ensures GetSession(sessionId) == Some(s)
    {
      s := SnakeFactory.CreateCustomSession(boardSize, entities, playerNames, sessionId, now);
      Register(s);
    }

    /** createSession(game): a ready game in a new CREATED session, stored under its id. */
    method CreateSessionFor(game: Game, sessionId: string, now: int) returns (s: GameSession)
      requires Valid()
      modifies this
      ensures Valid() && fresh(s) && s.status == Created && s.game == game
      ensures sessions == old(sessions)[sessionId := s]
      ensures GetSession(sessionId) == Some(s)
    {
      s := new GameSession(sessionId, game, now);
      Register(s);
    }

    /** getSession: the session stored under `id`, or nothing (Java null). */
    function GetSession(id: string): (r: Option<GameSession>)
      reads this
      ensures r.Some? <==> id in sessions
      ensures r.Some? ==> r.value == sessions[id]
      ensures Valid() && r.Some? ==> r.value.sessionId == id
    {
      if id in sessions then Some(sessions[id]) else None
    }

    /**
     * startSession: an unknown id is refused; otherwise the session is
     * started, in the background (only its start) or to the end of its game.
     */
    method StartSession(id: string, async: bool, startTime: int, outcome: PlayOutcome, endTime: int)
      returns (r: Result<(), ManagerError>)
      requires Valid()
      modifies if id in sessions then {sessions[id]} else {}
      ensures id !in sessions ==> r == Err(SessionNotFound(id))
      ensures id in sessions && old(sessions[id].status) != Created ==>
        && r == Err(StartFailed(NotStartable(old(sessions[id].status)))) && sessions[id].status == old(sessions[id].status)
        && sessions[id].startedAt == old(sessions[id].startedAt) && sessions[id].endedAt == old(sessions[id].endedAt)
      ensures id in sessions && old(sessions[id].status) == Created && async ==>
        && r == Ok(()) && sessions[id].status == Running && sessions[id].startedAt == Some(startTime)
        && sessions[id].endedAt == old(sessions[id].endedAt)
      ensures id in sessions && old(sessions[id].status) == Created && !async ==>
        && sessions[id].status == Next(Running, PlayEnded(outcome))
        && sessions[id].startedAt == Some(startTime) && sessions[id].endedAt == Some(endTime)
        && (r.Ok? <==> outcome == Played)
        && (outcome.Threw? ==> r == Err(StartFailed(GameFailed(id, outcome.message))))
    {
      if id !in sessions {
        return Err(SessionNotFound(id));
      }
      var session := sessions[id];
      var started: Result<(), SessionError>;
      if async {
        started := session.StartAsync(startTime);
      } else {
        started := session.Start(startTime, outcome, endTime);
      }
      r := if started.Ok? then Ok(()) else Err(StartFailed(started.error));
    }

    /** getSessionsByStatus: exactly the stored sessions with status `st`. */
    function SessionsByStatus(st: SessionStatus): (r: set<GameSession>)
      reads this, sessions.Values
      ensures r <= sessions.Values
      ensures forall s :: s in sessions.Values ==> (s in r <==> s.status == st)
    {
      set s | s in sessions.Values && s.status == st
    }

    /** getActiveSessions: the RUNNING sessions. */
    function ActiveSessions(): (r: set<GameSession>)
      reads this, sessions.Values
      ensures r == SessionsByStatus(Running)
    {
      set s | s in sessions.Values && s.status == Running
    }

    /** getCompletedSessions: the COMPLETED sessions. */
    function CompletedSessions(): (r: set<GameSession>)
      reads this, sessions.Values
      ensures r == SessionsByStatus(Completed)
    {
      set s | s in sessions.Values && s.status == Completed
    }

    /** The four status filters split the stored sessions between them, each session into one. */
    lemma FiltersPartition()
      ensures sessions.Values == SessionsByStatus(Created) + SessionsByStatus(Running)
                                 + SessionsByStatus(Completed) + SessionsByStatus(Failed)
      ensures forall s :: s in sessions.Values ==>
        (s in SessionsByStatus(Created)) != (s in SessionsByStatus(Running) || s in SessionsByStatus(Completed) || s in SessionsByStatus(Failed))
    {
    }

    /** removeSession: true exactly when `id` was stored; afterwards it is not. */
    method RemoveSession(id: string) returns (removed: bool)
      requires Valid()
      modifies this
      ensures Valid()
      ensures removed <==> id in old(sessions)
      ensures sessions == old(sessions) - {id}
      ensures GetSession(id) == None
    {
      removed := id in sessions;
      sessions := sessions - {id};
    }

    /** getTotalSessionCount: the number of stored sessions. */
    function TotalSessionCount(): (n: nat)
      reads this
      ensures n == |sessions.Keys|
    {
      |sessions|
    }

    /**
     * clearFinishedSessions: collects the ids of the COMPLETED and FAILED
     * sessions, then removes them one by one; every other session stays. The
     * answer is the number removed.
     */
    method ClearFinishedSessions() returns (count: nat)
      requires Valid()
      modifies this
      ensures Valid()
      ensures sessions == map id | id in old(sessions) && id !in Finished(old(Statuses())) :: old(sessions)[id]
      ensures count == |Finished(old(Statuses()))|
      ensures count == old(Stats(Statuses()).completed + Stats(Statuses()).failed)
    {
      var toRemove := FinishedIds();
      DistinctCard(toRemove);
      FinishedCount(Statuses());
      count := RemoveAll(toRemove);
    }

    /** The first loop of clearFinishedSessions: the finished ids, each once. */
    method FinishedIds() returns (toRemove: seq<string>)
      ensures forall i, j :: 0 <= i < j < |toRemove| ==> toRemove[i] != toRemove[j]
      ensures (set id | id in toRemove) == Finished(Statuses())
    {
      ghost var st := Statuses();
      toRemove := [];
      var rest := sessions.Keys;
      while rest != {}
        invariant rest <= sessions.Keys
        invariant forall i, j :: 0 <= i < j < |toRemove| ==> toRemove[i] != toRemove[j]
        invariant forall id :: id in toRemove <==> id in Finished(st) && id !in rest
        decreases rest
      {
        var id :| id in rest;
        var status := sessions[id].status;
        if status == Completed || status == Failed {
          toRemove := toRemove + [id];
        }
        rest := rest - {id};
      }
    }

    /** The second loop of clearFinishedSessions: removes every listed id, counting each. */
    method RemoveAll(toRemove: seq<string>) returns (count: nat)
      requires Valid()
      modifies this
      ensures Valid()
      ensures sessions == map id | id in old(sessions) && id !in toRemove :: old(sessions)[id]
      ensures count == |toRemove|
    {
      count := 0;
      var i := 0;
      while i < |toRemove|
        invariant 0 <= i <= |toRemove| && count == i
        invariant sessions == map id | id in old(sessions) && id !in toRemove[..i] :: old(sessions)[id]
      {
        sessions := sessions - {toRemove[i]};
        count := count + 1;
        i := i + 1;
        assert toRemove[..i] == toRemove[..i - 1] + [toRemove[i - 1]];
      }
      assert toRemove[..i] == toRemove;
    }

    /** getStats: counts the stored sessions by status; the total is the size of the map. */
    method GetStats() returns (r: SessionStats)
      ensures r == Stats(Statuses())
      ensures r.created + r.running + r.completed + r.failed == r.total == TotalSessionCount()
    {
      var counts := CountStatuses();
      r := counts.(total := |sessions|);
      StatsPartition(Statuses());
    }

    /** The loop of getStats: one counter per status, one session at a time. */
    method CountStatuses() returns (counts: SessionStats)
      ensures counts == Stats(Statuses())
    {
      counts := SessionStats(0, 0, 0, 0, 0);
      ghost var all := Statuses();
      ghost var done: seq<string> := [];
      var rest := sessions.Keys;
      while rest != {}
        invariant rest <= all.Keys
        invariant forall i :: 0 <= i < |done| ==> done[i] in all && done[i] !in rest
        invariant forall id :: id in all ==> id in rest || id in done
        invariant forall i, j :: 0 <= i < j < |done| ==> done[i] != done[j]
        invariant counts == Tally(all, done)
        decreases rest
      {
        var id :| id in rest;
        var status := sessions[id].status;
        counts := Counted(counts, status);
        done := done + [id];
        rest := rest - {id};
      }
      TallyIsStats(all, done);
    }
  }
}
