/**
 * Snake-and-ladder board entities (SnakeAndLadder model/BoardEntity.java,
 * model/Ladder.java) and the game a factory builds.
 *
 * A board entity moves a player from `start` to `end`. A ladder must climb:
 * its constructor refuses `start >= end`. The snake class is not part of this
 * model, so a snake is built from any two squares. The game class and its
 * builder are not part of this model either: a `Game` is the configuration
 * handed to the builder.
 */
module SnakeModel {
  import opened Wrappers

  datatype BoardEntity = Snake(start: int, end: int) | Ladder(start: int, end: int)

  datatype EntityError = LadderGoesDown(start: int, end: int)

  /** The board size, the snakes and ladders, and the player names a game is built from. */
  datatype Game = Game(boardSize: int, entities: seq<BoardEntity>, playerNames: seq<string>)

  /** `new Ladder(start, end)`: a ladder whose foot lies strictly below its top, kept exactly as given. */
  function NewLadder(start: int, end: int): (r: Result<BoardEntity, EntityError>)
    ensures r.Ok? <==> start < end
    ensures r.Ok? ==> r.value.Ladder? && r.value.start == start && r.value.end == end
    ensures r.Err? ==> r.error == LadderGoesDown(start, end)
  {
    if start >= end then Err(LadderGoesDown(start, end)) else Ok(Ladder(start, end))
  }

  /** What the Java list literal asks for: which kind of entity, between which squares. */
  datatype EntitySpec = SnakeSpec(from: int, to: int) | LadderSpec(from: int, to: int)

  /** A ladder spec that climbs, or a snake spec. */
  predicate Buildable(e: EntitySpec)
  {
    e.LadderSpec? ==> e.from < e.to
  }

  function NewEntity(e: EntitySpec): (r: Result<BoardEntity, EntityError>)
    ensures r.Ok? <==> Buildable(e)
  {
    match e
    case SnakeSpec(s, t) => Ok(Snake(s, t))
    case LadderSpec(s, t) => NewLadder(s, t)
  }

  /** The entity a buildable spec yields. */
  function Built(e: EntitySpec): (b: BoardEntity)
    ensures b.Snake? <==> e.SnakeSpec?
    ensures b.start == e.from && b.end == e.to
  {
    match e
    case SnakeSpec(s, t) => Snake(s, t)
    case LadderSpec(s, t) => Ladder(s, t)
  }

  /**
   * `List.of(new Snake(..), new Ladder(..), ...)`: the entities in order, or
   * the error of the first ladder that goes down.
   */
  function BuildAll(specs: seq<EntitySpec>): Result<seq<BoardEntity>, EntityError>
  {
    if specs == [] then Ok([])
    else match NewEntity(specs[0])
      case Err(e) => Err(e)
      case Ok(first) =>
        match BuildAll(specs[1..])
        case Err(e) => Err(e)
        case Ok(rest) => Ok([first] + rest)
  }

  /** Building succeeds exactly when every ladder climbs, and then yields one entity per spec, in order. */
  lemma {:induction false} BuildAllSucceeds(specs: seq<EntitySpec>)
    ensures BuildAll(specs).Ok? <==> forall i :: 0 <= i < |specs| ==> Buildable(specs[i])
    ensures BuildAll(specs).Ok? ==>
      |BuildAll(specs).value| == |specs| &&
      forall i :: 0 <= i < |specs| ==> BuildAll(specs).value[i] == Built(specs[i])
  {
    if specs != [] {
      BuildAllSucceeds(specs[1..]);
      assert forall i :: 1 <= i < |specs| ==> specs[i] == specs[1..][i - 1];
    }
  }

  /** The snakes among the entities. */
  function Snakes(es: seq<BoardEntity>): (n: nat)
    ensures n <= |es|
  {
    if es == [] then 0 else Snakes(es[1..]) + (if es[0].Snake? then 1 else 0)
  }

  /** The ladders among the entities. */
  function Ladders(es: seq<BoardEntity>): (n: nat)
    ensures n <= |es|
  {
    if es == [] then 0 else Ladders(es[1..]) + (if es[0].Ladder? then 1 else 0)
  }

  /** Every entity is a snake or a ladder. */
  lemma {:induction false} SnakesAndLadders(es: seq<BoardEntity>)
    ensures Snakes(es) + Ladders(es) == |es|
  {
    if es != [] {
      SnakesAndLadders(es[1..]);
    }
  }

  /** Snakes first, then ladders: the counts are the lengths of the two blocks. */
  lemma {:induction false} CountBlocks(es: seq<BoardEntity>, k: int)
    requires 0 <= k <= |es|
    requires forall i :: 0 <= i < k ==> es[i].Snake?
    requires forall i :: k <= i < |es| ==> es[i].Ladder?
    ensures Snakes(es) == k && Ladders(es) == |es| - k
    decreases |es|
  {
    if es != [] {
      CountBlocks(es[1..], if k == 0 then 0 else k - 1);
    }
  }

  /**
   * A list written as k snakes followed by climbing ladders builds without
   * error, into k snakes and the rest ladders, every ladder climbing.
   */
  lemma BuildBlocks(specs: seq<EntitySpec>, k: int)
    requires 0 <= k <= |specs|
    requires forall i :: 0 <= i < k ==> specs[i].SnakeSpec?
    requires forall i :: k <= i < |specs| ==> specs[i].LadderSpec? && specs[i].from < specs[i].to
    ensures BuildAll(specs).Ok?
    ensures Snakes(BuildAll(specs).value) == k && Ladders(BuildAll(specs).value) == |specs| - k
    ensures forall e :: e in BuildAll(specs).value && e.Ladder? ==> e.start < e.end
  {
    BuildAllSucceeds(specs);
    var es := BuildAll(specs).value;
    CountBlocks(es, k);
    forall e | e in es && e.Ladder?
      ensures e.start < e.end
    {
      var i :| 0 <= i < |es| && es[i] == e;
      assert e == Built(specs[i]);
    }
  }
}
