/**
 * The boss behaviour: a timer-driven machine that waits in Idle, then enters
 * Spawn (calling the spawner once on entry), then returns to Idle, and so on.
 * The frame time is an input of Update; the spawner's own work is not part of
 * this model, only the calls made to it, recorded in a ghost event log.
 */
module BossStateMachine {

  datatype BossState = Idle | Spawn

  /** What the machine does that is visible from outside: leaving and entering states, and calling the spawner. */
  datatype Event = Exited(from: BossState) | Entered(into: BossState) | SpawnerCalled

  /** The states entered, in order. */
  function EnteredStates(events: seq<Event>): seq<BossState>
  {
    if events == [] then []
    else
      var last := events[|events| - 1];
      EnteredStates(events[..|events| - 1]) + (if last.Entered? then [last.into] else [])
  }

  /** The number of calls made to the spawner. */
  function SpawnerCalls(events: seq<Event>): nat
  {
    if events == [] then 0
    else SpawnerCalls(events[..|events| - 1]) + (if events[|events| - 1] == SpawnerCalled then 1 else 0)
  }

  /** Idle, Spawn, Idle, Spawn, ...: the states strictly alternate, starting with Idle. */
  predicate Alternating(states: seq<BossState>)
  {
    forall i :: 0 <= i < |states| ==> states[i] == if i % 2 == 0 then Idle else Spawn
  }

  /** The state the machine switches to when the timer of `state` runs out. */
  function Other(state: BossState): BossState
  {
    if state == Idle then Spawn else Idle
  }

  lemma {:induction false} AppendEvents(events: seq<Event>, more: seq<Event>)
    ensures EnteredStates(events + more) == EnteredStates(events) + EnteredStates(more)
    ensures SpawnerCalls(events + more) == SpawnerCalls(events) + SpawnerCalls(more)
  {
    if more == [] {
      assert events + more == events;
    } else {
      var init, last := more[..|more| - 1], more[|more| - 1];
      assert (events + more)[..|events + more| - 1] == events + init;
      assert (events + more)[|events + more| - 1] == last;
      AppendEvents(events, init);
      var tail := if last.Entered? then [last.into] else [];
      assert EnteredStates(events + more) == EnteredStates(events) + EnteredStates(init) + tail;
    }
  }

  lemma OneEvent(e: Event)
    ensures EnteredStates([e]) == if e.Entered? then [e.into] else []
    ensures SpawnerCalls([e]) == if e == SpawnerCalled then 1 else 0
  {
    assert [e][..0] == [];
  }

  /** The entries and spawner calls of one exit-then-enter switch. */
  lemma SwitchEvents(from: BossState, into: BossState, spawned: bool)
    ensures var t := [Exited(from), Entered(into)] + (if spawned then [SpawnerCalled] else []);
            EnteredStates(t) == [into] && SpawnerCalls(t) == if spawned then 1 else 0
  {
    OneEvent(Exited(from));
    OneEvent(Entered(into));
    OneEvent(SpawnerCalled);
    AppendEvents([Exited(from)], [Entered(into)]);
    assert [Exited(from)] + [Entered(into)] == [Exited(from), Entered(into)];
    AppendEvents([Exited(from), Entered(into)], if spawned then [SpawnerCalled] else []);
    if !spawned {
      assert [Exited(from), Entered(into)] + [] == [Exited(from), Entered(into)];
      AppendEvents([Exited(from), Entered(into)], []);
    }
  }

  class StateMachine {
    const idleTime: real
    const spawnTime: real
    /** Whether the spawner reference is set. */
    const hasSpawner: bool

    var currentState: BossState
    var stateTimer: real
    /** Every exit, entry and spawner call so far. */
    ghost var events: seq<Event>

    /** The timer a state is given on entry. */
    function Duration(state: BossState): real
    {
      if state == Idle then idleTime else spawnTime
    }

    /**
     * Once started, the entered states alternate from Idle, the current state
     * is the last one entered, the spawner has been called once per Spawn
     * entry (when present), and the timer has not risen above the current
     * state's duration.
     */
    ghost predicate Valid()
      reads this
    {
      var entered := EnteredStates(events);
      && Alternating(entered)
      && (entered != [] ==> currentState == entered[|entered| - 1] && stateTimer <= Duration(currentState))
      && SpawnerCalls(events) == if hasSpawner then |entered| / 2 else 0
    }

    /** Whether Start has run. */
    ghost predicate Started()
      reads this
    {
      EnteredStates(events) != []
    }

    /** A fresh component: Idle (the enum's first value) with a zero timer, not yet started. */
    constructor (idleTime: real, spawnTime: real, hasSpawner: bool)
      ensures this.idleTime == idleTime && this.spawnTime == spawnTime && this.hasSpawner == hasSpawner
      ensures currentState == Idle && stateTimer == 0.0 && events == []
      ensures Valid() && !Started()
    {
      this.idleTime, this.spawnTime, this.hasSpawner := idleTime, spawnTime, hasSpawner;
      currentState, stateTimer := Idle, 0.0;
      events := [];
    }

    /** Start enters Idle with the full idle time. */
    method Start()
      requires Valid() && !Started()
      modifies this
      ensures currentState == Idle && stateTimer == idleTime
      ensures events == old(events) + [Exited(old(currentState)), Entered(Idle)]
      ensures Valid() && Started()
    {
      ChangeState(Idle);
      ghost var switched := [Exited(old(currentState)), Entered(Idle)];
      assert events == old(events) + switched by {
        assert switched + [] == switched;
      }
      AppendEvents(old(events), switched);
      SwitchEvents(old(currentState), Idle, false);
      assert EnteredStates(events) == [Idle] && SpawnerCalls(events) == 0 by {
        assert switched + [] == switched;
      }
    }

    /**
     * One frame: the timer drops by `deltaTime`; when it has run out the
     * machine switches to the other state, otherwise nothing else changes.
     */
    method Update(deltaTime: real)
      requires Valid() && Started() && deltaTime >= 0.0
      modifies this
      ensures var timer := old(stateTimer) - deltaTime;
              && (timer > 0.0 ==> currentState == old(currentState) && stateTimer == timer && events == old(events))
              && (timer <= 0.0 ==>
                    && currentState == Other(old(currentState))
                    && stateTimer == Duration(currentState)
                    && events == old(events) + Transition(old(currentState), currentState))
      ensures Valid() && Started()
    {
      stateTimer := stateTimer - deltaTime;
      ghost var timer := stateTimer;
      match currentState {
        case Idle => UpdateIdleState();
        case Spawn => UpdateSpawnState();
      }
      if timer <= 0.0 {
        TransitionKeeps(old(events), old(currentState));
      }
    }

    /** The events of ChangeState from `from` to `into`. */
    function Transition(from: BossState, into: BossState): seq<Event>
    {
      [Exited(from), Entered(into)] + (if into == Spawn && hasSpawner then [SpawnerCalled] else [])
    }

    /** Switching to the other state keeps the alternation and the spawner count. */
    lemma TransitionKeeps(events: seq<Event>, from: BossState)
      requires var entered := EnteredStates(events);
               && Alternating(entered) && entered != [] && entered[|entered| - 1] == from
               && SpawnerCalls(events) == if hasSpawner then |entered| / 2 else 0
      ensures var entered' := EnteredStates(events + Transition(from, Other(from)));
              && entered' == EnteredStates(events) + [Other(from)]
              && Alternating(entered')
              && SpawnerCalls(events + Transition(from, Other(from))) == if hasSpawner then |entered'| / 2 else 0
    {
      AppendEvents(events, Transition(from, Other(from)));
      SwitchEvents(from, Other(from), Other(from) == Spawn && hasSpawner);
      var entered := EnteredStates(events);
      assert entered[|entered| - 1] == (if (|entered| - 1) % 2 == 0 then Idle else Spawn);
    }

    method UpdateIdleState()
      requires currentState == Idle
      modifies this
      ensures old(stateTimer) <= 0.0 ==>
                currentState == Spawn && stateTimer == spawnTime && events == old(events) + Transition(Idle, Spawn)
      ensures old(stateTimer) > 0.0 ==>
                currentState == Idle && stateTimer == old(stateTimer) && events == old(events)
    {
      if stateTimer <= 0.0 {
        ChangeState(Spawn);
      }
    }

    method UpdateSpawnState()
      requires currentState == Spawn
      modifies this
      ensures old(stateTimer) <= 0.0 ==>
                currentState == Idle && stateTimer == idleTime && events == old(events) + Transition(Spawn, Idle)
      ensures old(stateTimer) > 0.0 ==>
                currentState == Spawn && stateTimer == old(stateTimer) && events == old(events)
    {
      if stateTimer <= 0.0 {
        ChangeState(Idle);
      }
    }

    /** Leaves the current state, switches, and enters `newState`, in that order. */
    method ChangeState(newState: BossState)
      modifies this
      ensures currentState == newState && stateTimer == Duration(newState)
      ensures events == old(events) + Transition(old(currentState), newState)
    {
      ExitState(currentState);
      currentState := newState;
      EnterState(newState);
    }

    /** Entering a state sets its timer; entering Spawn also calls the spawner, when there is one. */
    method EnterState(state: BossState)
      modifies this`stateTimer, this`events
      ensures stateTimer == Duration(state)
      ensures events == old(events) + [Entered(state)] + (if state == Spawn && hasSpawner then [SpawnerCalled] else [])
    {
      events := events + [Entered(state)];
      match state {
        case Idle =>
          stateTimer := idleTime;
        case Spawn =>
          stateTimer := spawnTime;
          if hasSpawner {
            events := events + [SpawnerCalled];
          }
      }
    }

    /** Leaving a state only logs it. */
    method ExitState(state: BossState)
      modifies this`events
      ensures events == old(events) + [Exited(state)]
    {
      events := events + [Exited(state)];
    }

    function GetCurrentState(): (state: BossState)
      reads this
      ensures Valid() && Started() ==> state == EnteredStates(events)[|EnteredStates(events)| - 1]
    {
      currentState
    }

    function GetStateTimeRemaining(): (remaining: real)
      reads this
      ensures Valid() && Started() ==> remaining <= Duration(currentState)
    {
      stateTimer
    }
  }
}
