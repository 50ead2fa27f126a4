/**
 * The wandering agent: Idle for a while, Walk in a random direction for a
 * while, then Teleport to a random spot around where it started, and back to
 * Idle. The frame time and the random draws are inputs of Update.
 */
module SimpleFsm {

  datatype State = Idle | Walk | Teleport

  datatype Vec2 = Vec2(x: real, y: real)
  datatype Vec3 = Vec3(x: real, y: real, z: real)

  /** The timer Teleport is given on entry; Update never consults it. */
  const TeleportTimer: real := 0.1

  /** The state after `state` in the cycle. */
  function Next(state: State): State
  {
    match state
    case Idle => Walk
    case Walk => Teleport
    case Teleport => Idle
  }

  /** Idle, Walk, Teleport, Idle, ...: every state entered follows the one before it in the cycle. */
  predicate Cycling(states: seq<State>)
  {
    && (states != [] ==> states[0] == Idle)
    && forall i :: 0 < i < |states| ==> states[i] == Next(states[i - 1])
  }

  /** The state the cycle is in after `i` transitions from Idle. */
  function Phase(i: nat): State
  {
    if i % 3 == 0 then Idle else if i % 3 == 1 then Walk else Teleport
  }

  /** In a cycling run, the i-th state entered is fixed by i alone: Idle, Walk, Teleport, repeated. */
  lemma {:induction false} CyclePhase(states: seq<State>, i: nat)
    requires Cycling(states) && i < |states|
    ensures states[i] == Phase(i)
  {
    if i > 0 {
      CyclePhase(states, i - 1);
    }
  }

  /** A draw of Random.Range(-a, a): between -a and a, whichever way round they lie. */
  predicate InRange(v: real, a: real)
  {
    if a >= 0.0 then -a <= v <= a else a <= v <= -a
  }

  function Abs(v: real): real
  {
    if v < 0.0 then -v else v
  }

  /** A draw of Random.insideUnitCircle.normalized: a unit vector, or zero when the draw was the centre. */
  predicate Direction(d: Vec2)
  {
    d.x * d.x + d.y * d.y == 1.0 || (d.x == 0.0 && d.y == 0.0)
  }

  class Agent {
    const moveSpeed: real
    const idleDuration: real
    const walkDuration: real
    /** Half the width and height of the teleport area around the start position. */
    const teleportArea: Vec2

    var currentState: State
    var stateTimer: real
    var walkDirection: Vec2
    var startPosition: Vec2
    /** The transform's position. */
    var position: Vec3
    /** The states entered so far, in order. */
    ghost var entered: seq<State>

    /** The timer a state is given on entry. */
    function Duration(state: State): real
      reads this
    {
      match state
      case Idle => idleDuration
      case Walk => walkDuration
      case Teleport => TeleportTimer
    }

    /** The states entered cycle from Idle and the current one is the last of them. */
    ghost predicate Valid()
      reads this
    {
      && Cycling(entered)
      && (entered != [] ==> currentState == entered[|entered| - 1])
    }

    /** A fresh component at `position`, with every field at its default and not yet started. */
    constructor (moveSpeed: real, idleDuration: real, walkDuration: real, teleportArea: Vec2, position: Vec3)
      ensures this.moveSpeed == moveSpeed && this.idleDuration == idleDuration && this.walkDuration == walkDuration
      ensures this.teleportArea == teleportArea && this.position == position
      ensures currentState == Idle && stateTimer == 0.0 && entered == []
      ensures Valid()
    {
      this.moveSpeed, this.idleDuration, this.walkDuration := moveSpeed, idleDuration, walkDuration;
      this.teleportArea, this.position := teleportArea, position;
      currentState, stateTimer := Idle, 0.0;
      walkDirection, startPosition := Vec2(0.0, 0.0), Vec2(0.0, 0.0);
      entered := [];
    }

    /** Start records where the agent stands (dropping z) and enters Idle. */
    method Start()
      requires Valid() && entered == []
      modifies this
      ensures startPosition == Vec2(old(position).x, old(position).y) && position == old(position)
      ensures currentState == Idle && stateTimer == idleDuration && entered == [Idle]
      ensures walkDirection == old(walkDirection)
      ensures Valid()
    {
      startPosition := Vec2(position.x, position.y);
      ChangeState(Idle, Vec2(0.0, 0.0));
    }

    /**
     * Sets the state and its timer; entering Walk also takes a new walk
     * direction, the draw `direction`.
     */
    method ChangeState(newState: State, direction: Vec2)
      modifies this`currentState, this`stateTimer, this`walkDirection, this`entered
      ensures currentState == newState && stateTimer == Duration(newState)
      ensures walkDirection == if newState == Walk then direction else old(walkDirection)
      ensures entered == old(entered) + [newState]
    {
      currentState := newState;
      entered := entered + [newState];
      match newState {
        case Idle =>
          stateTimer := idleDuration;
        case Walk =>
          stateTimer := walkDuration;
          walkDirection := direction;
        case Teleport =>
          stateTimer := TeleportTimer;
      }
    }

    /**
     * One frame. The timer drops by `deltaTime`. Idle moves on to Walk, and
     * Walk (after moving along its direction) to Teleport, once the timer has
     * run out; Teleport jumps to the start position plus `offset` and returns
     * to Idle at once, whatever its timer says.
     */
    method Update(deltaTime: real, offset: Vec2, direction: Vec2)
      requires Valid() && entered != []
      requires InRange(offset.x, teleportArea.x) && InRange(offset.y, teleportArea.y) && Direction(direction)
      modifies this
      ensures Valid()
      ensures var timer := old(stateTimer) - deltaTime;
              var moves := old(currentState) == Teleport || timer <= 0.0;
              && (moves ==> currentState == Next(old(currentState)) && stateTimer == Duration(currentState)
                            && entered == old(entered) + [currentState])
              && (!moves ==> currentState == old(currentState) && stateTimer == timer && entered == old(entered))
      ensures walkDirection == if currentState == Walk && old(currentState) != Walk then direction else old(walkDirection)
      ensures old(currentState) == Idle ==> position == old(position)
      ensures old(currentState) == Walk ==>
                position == Translated(old(position), old(walkDirection), moveSpeed * deltaTime)
      ensures old(currentState) == Teleport ==>
                && position == Vec3(startPosition.x + offset.x, startPosition.y + offset.y, 0.0)
                && Abs(position.x - startPosition.x) <= Abs(teleportArea.x)
                && Abs(position.y - startPosition.y) <= Abs(teleportArea.y)
      ensures startPosition == old(startPosition)
    {
      stateTimer := stateTimer - deltaTime;
      match currentState {
        case Idle =>
          if stateTimer <= 0.0 {
            ChangeState(Walk, direction);
          }
        case Walk =>
          position := Translated(position, walkDirection, moveSpeed * deltaTime);
          if stateTimer <= 0.0 {
            ChangeState(Teleport, direction);
          }
        case Teleport =>
          position := Vec3(startPosition.x + offset.x, startPosition.y + offset.y, 0.0);
          ChangeState(Idle, direction);
      }
    }

    /** The position moved by `direction` scaled by `distance`, in the plane. */
    function Translated(p: Vec3, direction: Vec2, distance: real): Vec3
    {
      Vec3(p.x + direction.x * distance, p.y + direction.y * distance, p.z)
    }
  }
}
