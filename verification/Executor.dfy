/**
 * The gateway lifecycle of executor.go: startup gates, then the router alone, or the async agents
 * and the router in one error group. One step system, every interleaving.
 */
module Executor {
  import opened Wrappers

  type Error = string

  /** What a run is given: the outcome of the gates, and two settings of the service. */
  datatype Config = Config(loggerOk: bool, kafka: Option<Error>, soap: Option<Error>, grpc: Option<Error>,
                           agents: nat, sequentialStart: bool)

  datatype LogLine = KafkaError(e: Error) | SoapError(e: Error) | GrpcError(e: Error) | AsyncError(e: Error)

  /** Where the goroutine of the executor stands. */
  datatype Main =
    | AtLogger | AtKafka | AtSoap | AtGrpc
    | AtLaunch
    | InlineRouter   // no agents: the router runs in this goroutine
    | StartingAgents // sequential start: the agents' Start runs in this goroutine
    | AtSpawnAgents
    | AtSpawnRouter
    | Waiting
    | Returned

  datatype Agents = AgentsIdle | AgentsStarting | AgentsStarted | AgentsRunning | AgentsDone(err: Option<Error>)

  datatype Router = RouterIdle | RouterBuilding | RouterServing | RouterClosing | RouterFinished

  /**
   * `rootCancelled` is the context given to NewCmdExecutor, `groupErr` and `groupCancelled` are
   * the error group's, and `closed` says that closeGroupCtx was called.
   */
  datatype State = State(main: Main, agents: Agents, router: Router, rootCancelled: bool,
                         groupErr: Option<Error>, groupCancelled: bool, closed: bool, log: seq<LogLine>)

  datatype Action =
    | Advance                    // the executor's goroutine takes its next step
    | AgentsUp                   // Start returned
    | AgentsReturn(err: Option<Error>)
    | RouterUp                   // the router was built
    | RouterReturn               // Run returned
    | CloseGroup                 // closeGroupCtx()
    | Signal                     // the signal goroutine cancels the root context

  const INIT := State(AtLogger, AgentsIdle, RouterIdle, false, None, false, false, [])

  // The context that the tasks hold.
  predicate TaskContextCancelled(c: Config, s: State) {
    s.rootCancelled || (c.agents > 0 && (s.groupCancelled || s.closed))
  }

  function Gate(s: State, err: Option<Error>, line: Error -> LogLine, next: Main): State {
    match err
    case None => s.(main := next)
    case Some(e) => s.(main := Returned, log := s.log + [line(e)])
  }

  // The next step of the executor's goroutine, where it is not blocked.
  function AdvanceStep(c: Config, s: State): Option<State> {
    match s.main
    case AtLogger => Some(s.(main := if c.loggerOk then AtKafka else Returned))
    case AtKafka => Some(Gate(s, c.kafka, e => KafkaError(e), AtSoap))
    case AtSoap => Some(Gate(s, c.soap, e => SoapError(e), AtGrpc))
    case AtGrpc => Some(Gate(s, c.grpc, e => GrpcError(e), AtLaunch))
    case AtLaunch =>
      if c.agents == 0 then Some(s.(main := InlineRouter, router := RouterBuilding))
      else if c.sequentialStart then Some(s.(main := StartingAgents, agents := AgentsStarting))
      else Some(s.(main := AtSpawnRouter, agents := AgentsStarting))
    case InlineRouter => if s.router.RouterFinished? then Some(s.(main := Returned)) else None
    case StartingAgents => None
    case AtSpawnAgents => Some(s.(main := AtSpawnRouter, agents := AgentsRunning))
    case AtSpawnRouter => Some(s.(main := Waiting, router := RouterBuilding))
    case Waiting =>
      if s.agents.AgentsDone? && s.router.RouterFinished? then
        Some(s.(main := Returned, groupCancelled := true,
                log := if s.groupErr.Some? then s.log + [AsyncError(s.groupErr.value)] else s.log))
      else None
    case Returned => None
  }

  // errgroup: the first error is kept and cancels the group's context.
  function FinishAgents(s: State, err: Option<Error>): State {
    var t := s.(agents := AgentsDone(err));
    if err.Some? && s.groupErr.None? then t.(groupErr := err, groupCancelled := true) else t
  }

  function Next(c: Config, s: State, a: Action): Option<State> {
    match a
    case Advance => AdvanceStep(c, s)
    case AgentsUp =>
      if !s.agents.AgentsStarting? then None
      else if s.main.StartingAgents? then Some(s.(agents := AgentsStarted, main := AtSpawnAgents))
      else Some(s.(agents := AgentsRunning))
    case AgentsReturn(err) => if s.agents.AgentsRunning? then Some(FinishAgents(s, err)) else None
    case RouterUp => if s.router.RouterBuilding? then Some(s.(router := RouterServing)) else None
    case RouterReturn =>
      if !s.router.RouterServing? then None
      else if s.main.InlineRouter? then Some(s.(router := RouterFinished))
      else Some(s.(router := RouterClosing))
    case CloseGroup => if s.router.RouterClosing? then Some(s.(router := RouterFinished, closed := true)) else None
    case Signal => if s.rootCancelled then None else Some(s.(rootCancelled := true))
  }

  ghost predicate Step(c: Config, s: State, a: Action, t: State) {
    Next(c, s, a) == Some(t)
  }

  /** A run: the states, and the actions between them. */
  ghost predicate Run(c: Config, states: seq<State>, actions: seq<Action>) {
    && |states| == |actions| + 1 && states[0] == INIT
    && forall i :: 0 <= i < |actions| ==> Step(c, states[i], actions[i], states[i + 1])
  }

  // ---------------------------------------------------------------------------
  // Invariant

  predicate GatesPassed(c: Config) {
    c.loggerOk && c.kafka.None? && c.soap.None? && c.grpc.None?
  }

  // How far the gates are known to have passed.
  predicate GatesSoFar(c: Config, m: Main) {
    match m
    case AtLogger => true
    case AtKafka => c.loggerOk
    case AtSoap => c.loggerOk && c.kafka.None?
    case AtGrpc => c.loggerOk && c.kafka.None? && c.soap.None?
    case Returned => true
    case _ => GatesPassed(c)
  }

  // The lines that a gate leaves in the log when it stops the startup.
  function GateLog(c: Config): seq<LogLine> {
    if !c.loggerOk then []
    else if c.kafka.Some? then [KafkaError(c.kafka.value)]
    else if c.soap.Some? then [SoapError(c.soap.value)]
    else if c.grpc.Some? then [GrpcError(c.grpc.value)]
    else []
  }

  predicate Untouched(s: State) {
    s.agents.AgentsIdle? && s.router.RouterIdle? && s.groupErr.None? && !s.groupCancelled && !s.closed
  }

  // The tasks, by the place of the executor's goroutine.
  predicate TasksFit(c: Config, s: State) {
    match s.main
    case InlineRouter =>
      c.agents == 0 && s.agents.AgentsIdle? && (s.router.RouterBuilding? || s.router.RouterServing? || s.router.RouterFinished?)
    case StartingAgents => c.agents > 0 && c.sequentialStart && s.agents.AgentsStarting? && s.router.RouterIdle?
    case AtSpawnAgents => c.agents > 0 && c.sequentialStart && s.agents.AgentsStarted? && s.router.RouterIdle?
    case AtSpawnRouter =>
      && c.agents > 0 && s.router.RouterIdle? && !s.agents.AgentsIdle? && !s.agents.AgentsStarted?
      && (c.sequentialStart ==> !s.agents.AgentsStarting?)
    case Waiting =>
      && c.agents > 0 && !s.router.RouterIdle? && !s.agents.AgentsIdle? && !s.agents.AgentsStarted?
      && (c.sequentialStart ==> !s.agents.AgentsStarting?)
    case Returned =>
      if !GatesPassed(c) then Untouched(s)
      else s.router.RouterFinished? && if c.agents == 0 then s.agents.AgentsIdle? else s.agents.AgentsDone?
    case _ => Untouched(s)
  }

  // What the error group and closeGroupCtx have done.
  predicate GroupFits(c: Config, s: State) {
    && s.groupErr == (if s.agents.AgentsDone? then s.agents.err else None)
    && (s.groupCancelled <==> s.groupErr.Some? || (s.main.Returned? && GatesPassed(c) && c.agents > 0))
    && (s.closed <==> s.router.RouterFinished? && c.agents > 0)
  }

  predicate LogFits(c: Config, s: State) {
    s.log == (if !s.main.Returned? then []
              else if !GatesPassed(c) then GateLog(c)
              else if s.groupErr.Some? then [AsyncError(s.groupErr.value)] else [])
  }

  predicate Inv(c: Config, s: State) {
    GatesSoFar(c, s.main) && TasksFit(c, s) && GroupFits(c, s) && LogFits(c, s)
  }

  lemma {:induction false} StepKeepsInv(c: Config, s: State, a: Action, t: State)
    requires Inv(c, s) && Step(c, s, a, t)
    ensures Inv(c, t)
  {
    hide Step, GatesSoFar, TasksFit, GroupFits, LogFits;
    StepKeepsTasks(c, s, a, t);
    StepKeepsGroup(c, s, a, t);
    StepKeepsLog(c, s, a, t);
  }

  lemma {:induction false} StepKeepsTasks(c: Config, s: State, a: Action, t: State)
    requires Inv(c, s) && Step(c, s, a, t)
    ensures GatesSoFar(c, t.main) && TasksFit(c, t)
  {
    hide LogFits, GateLog;
  }

  lemma {:induction false} StepKeepsGroup(c: Config, s: State, a: Action, t: State)
    requires Inv(c, s) && Step(c, s, a, t)
    ensures GroupFits(c, t)
  {
    hide LogFits, GateLog;
  }

  lemma {:induction false} StepKeepsLog(c: Config, s: State, a: Action, t: State)
    requires Inv(c, s) && Step(c, s, a, t)
    ensures LogFits(c, t)
  {}

  lemma {:induction false} RunKeepsInv(c: Config, states: seq<State>, actions: seq<Action>, i: nat)
    requires Run(c, states, actions) && i < |states|
    ensures Inv(c, states[i])
  {
    if i > 0 {
      RunKeepsInv(c, states, actions, i - 1);
      StepKeepsInv(c, states[i - 1], actions[i - 1], states[i]);
    }
  }

  // ---------------------------------------------------------------------------
  // Safety over runs

  // No task is started unless every gate was passed.
  lemma {:induction false} TasksNeedGates(c: Config, states: seq<State>, actions: seq<Action>, i: nat)
    requires Run(c, states, actions) && i < |states|
    ensures !states[i].agents.AgentsIdle? || !states[i].router.RouterIdle? ==> GatesPassed(c)
  {
    RunKeepsInv(c, states, actions, i);
  }

  // The actions that cancel the tasks' context.
  predicate Cancels(a: Action) {
    a == Signal || (a.AgentsReturn? && a.err.Some?) || a == CloseGroup
  }

  lemma {:induction false} CancelStep(c: Config, s: State, a: Action, t: State)
    requires Inv(c, s) && Step(c, s, a, t) && !t.main.Returned?
    ensures !s.main.Returned?
    ensures TaskContextCancelled(c, t) <==> TaskContextCancelled(c, s) || Cancels(a)
  {}

  // Before the executor returns, the tasks' context is cancelled for three reasons only: the root
  // context was cancelled, the agents failed, or the router returned. In particular agents that
  // end without an error do not cancel it.
  lemma {:induction false} CancelCauses(c: Config, states: seq<State>, actions: seq<Action>, i: nat)
    requires Run(c, states, actions) && i < |states| && !states[i].main.Returned?
    ensures TaskContextCancelled(c, states[i]) <==> exists j :: 0 <= j < i && Cancels(actions[j])
    decreases i
  {
    if i > 0 {
      hide Inv, TaskContextCancelled, Cancels, Step;
      var k := i - 1;
      RunKeepsInv(c, states, actions, k);
      assert Step(c, states[k], actions[k], states[k + 1]);
      CancelStep(c, states[k], actions[k], states[i]);
      CancelCauses(c, states, actions, k);
    }
  }

  // The executor returns only after both tasks have ended, or without having started any.
  lemma {:induction false} ReturnsLast(c: Config, states: seq<State>, actions: seq<Action>, i: nat)
    requires Run(c, states, actions) && i < |states| && states[i].main.Returned?
    ensures if !GatesPassed(c) then states[i].agents.AgentsIdle? && states[i].router.RouterIdle?
            else states[i].router.RouterFinished? && (c.agents > 0 ==> states[i].agents.AgentsDone?)
    ensures forall j :: i <= j < |actions| ==> actions[j] == Signal
  {
    RunKeepsInv(c, states, actions, i);
    forall j | i <= j < |actions| ensures actions[j] == Signal {
      StaysReturned(c, states, actions, i, j);
      RunKeepsInv(c, states, actions, j);
      assert Step(c, states[j], actions[j], states[j + 1]);
    }
  }

  lemma {:induction false} StaysReturned(c: Config, states: seq<State>, actions: seq<Action>, i: nat, j: nat)
    requires Run(c, states, actions) && i <= j < |states| && states[i].main.Returned?
    ensures states[j].main.Returned?
    decreases j
  {
    if i < j {
      StaysReturned(c, states, actions, i, j - 1);
      RunKeepsInv(c, states, actions, j - 1);
      assert Step(c, states[j - 1], actions[j - 1], states[j]);
    }
  }

  // What is logged: the gate that failed, or exactly the error that the agents returned.
  lemma {:induction false} LogsTheCause(c: Config, states: seq<State>, actions: seq<Action>, i: nat)
    requires Run(c, states, actions) && i < |states| && states[i].main.Returned?
    ensures !GatesPassed(c) ==> states[i].log == GateLog(c)
    ensures GatesPassed(c) && c.agents == 0 ==> states[i].log == []
    ensures GatesPassed(c) && c.agents > 0 ==>
              exists j :: 0 <= j < i && actions[j].AgentsReturn?
                && states[i].log == if actions[j].err.Some? then [AsyncError(actions[j].err.value)] else []
  {
    RunKeepsInv(c, states, actions, i);
    if GatesPassed(c) && c.agents > 0 {
      var j := WhoReturned(c, states, actions, i);
    }
  }

  lemma {:induction false} DoneStep(c: Config, s: State, a: Action, t: State)
    requires Step(c, s, a, t) && t.agents.AgentsDone?
    ensures a == AgentsReturn(t.agents.err) || s.agents == t.agents
  {}

  lemma {:induction false} WhoReturned(c: Config, states: seq<State>, actions: seq<Action>, i: nat) returns (j: nat)
    requires Run(c, states, actions) && i < |states| && states[i].agents.AgentsDone?
    ensures j < i && j < |actions| && actions[j] == AgentsReturn(states[i].agents.err)
    decreases i
  {
    hide Step;
    if i == 0 {
      assert false;
    } else {
      var k := i - 1;
      assert Step(c, states[k], actions[k], states[i]);
      DoneStep(c, states[k], actions[k], states[i]);
      if actions[k] == AgentsReturn(states[i].agents.err) {
        j := k;
      } else {
        j := WhoReturned(c, states, actions, k);
      }
    }
  }

  // With SequentialStart the router is not even built before the agents' Start has returned.
  lemma {:induction false} SequentialOrder(c: Config, states: seq<State>, actions: seq<Action>, i: nat)
    requires Run(c, states, actions) && i < |states| && c.sequentialStart && c.agents > 0
    requires !states[i].router.RouterIdle?
    ensures exists j :: 0 <= j < i && actions[j] == AgentsUp
  {
    RunKeepsInv(c, states, actions, i);
    var j := WhoStarted(c, states, actions, i);
  }

  lemma {:induction false} WhoStarted(c: Config, states: seq<State>, actions: seq<Action>, i: nat) returns (j: nat)
    requires Run(c, states, actions) && i < |states|
    requires !states[i].agents.AgentsIdle? && !states[i].agents.AgentsStarting?
    ensures j < i && actions[j] == AgentsUp
    decreases i
  {
    if i == 0 {
      assert false;
    } else {
      var k := i - 1;
      RunKeepsInv(c, states, actions, k);
      assert Step(c, states[k], actions[k], states[i]);
      if actions[k] == AgentsUp {
        j := k;
      } else {
        j := WhoStarted(c, states, actions, k);
      }
    }
  }

  // ---------------------------------------------------------------------------
  // What can happen

  // A run can be carried on by a step from its last state.
  lemma {:induction false} Extend(c: Config, states: seq<State>, actions: seq<Action>, a: Action, t: State)
    requires Run(c, states, actions) && Step(c, states[|actions|], a, t)
    ensures Run(c, states + [t], actions + [a])
  {
    hide Step;
    var all, done := states + [t], actions + [a];
    forall i | 0 <= i < |done| ensures Step(c, all[i], done[i], all[i + 1]) {
      assert i < |actions| ==> Step(c, states[i], actions[i], states[i + 1]);
    }
  }

  // The tasks are up: the router serves, and the agents run unless they have ended without an
  // error; nothing has cancelled their context.
  predicate Serving(c: Config, s: State) {
    && s.router.RouterServing? && !TaskContextCancelled(c, s)
    && (c.agents > 0 ==> s.main.Waiting? && (s.agents.AgentsRunning? || s.agents == AgentsDone(None)))
    && (c.agents == 0 ==> s.main.InlineRouter?)
  }

  // The next step on the way there.
  function Onward(c: Config, s: State): Action {
    if AdvanceStep(c, s).Some? then Advance
    else if s.agents.AgentsStarting? then AgentsUp
    else RouterUp
  }

  lemma {:induction false} OnwardStep(c: Config, s: State)
    requires Inv(c, s) && GatesPassed(c) && !Triggered(s) && !Serving(c, s)
    ensures Next(c, s, Onward(c, s)).Some?
    ensures var t := Next(c, s, Onward(c, s)).value;
            !Triggered(t) && (s.agents.AgentsRunning? ==> t.agents.AgentsRunning?)
            && (s.agents == AgentsDone(None) || t.agents != AgentsDone(None))
  {
    hide GatesSoFar, LogFits;
  }

  /**
   * From every reachable state without a trigger the gateway can come to serve, by steps that
   * cancel nothing: the program's own, the return of the agents' Start, and the router being built.
   */
  lemma {:induction false} CanServe(c: Config, states: seq<State>, actions: seq<Action>) returns (states': seq<State>, actions': seq<Action>)
    requires Run(c, states, actions) && GatesPassed(c) && !Triggered(states[|actions|])
    ensures Run(c, states', actions') && actions <= actions'
    ensures forall i :: |actions| <= i < |actions'| ==> actions'[i] in [Advance, AgentsUp, RouterUp]
    ensures Serving(c, states'[|actions'|]) && !Triggered(states'[|actions'|])
    ensures states[|actions|].agents != AgentsDone(None) ==> states'[|actions'|].agents != AgentsDone(None)
    decreases Budget(states[|actions|])
  {
    hide Run, Inv, Step, Serving, Triggered, GatesPassed, Budget, AdvanceStep;
    RunLength(c, states, actions);
    var s := states[|actions|];
    if Serving(c, s) {
      return states, actions;
    }
    RunKeepsInv(c, states, actions, |actions|);
    OnwardStep(c, s);
    var a := Onward(c, s);
    var t := Next(c, s, a).value;
    StepIs(c, s, a);
    StepSpends(c, s, a, t);
    Extend(c, states, actions, a, t);
    assert (actions + [a])[|actions|] == a;
    assert (states + [t])[|actions + [a]|] == t;
    states', actions' := CanServe(c, states + [t], actions + [a]);
  }

  lemma {:induction false} RunLength(c: Config, states: seq<State>, actions: seq<Action>)
    requires Run(c, states, actions)
    ensures |states| == |actions| + 1
  {}

  lemma {:induction false} StepIs(c: Config, s: State, a: Action)
    requires Next(c, s, a).Some?
    ensures Step(c, s, a, Next(c, s, a).value)
  {}

  // The events from outside can come at any time: a signal once, the agents' return with any
  // error or none while they run, the router's return while it serves.
  lemma {:induction false} MayCome(c: Config, s: State, err: Option<Error>)
    ensures !s.rootCancelled ==> exists t :: Step(c, s, Signal, t) && TaskContextCancelled(c, t)
    ensures s.agents.AgentsRunning? ==> exists t :: Step(c, s, AgentsReturn(err), t) && t.agents == AgentsDone(err)
    ensures s.router.RouterServing? ==> exists t :: Step(c, s, RouterReturn, t) && !t.router.RouterServing?
  {
    if !s.rootCancelled {
      assert Step(c, s, Signal, Next(c, s, Signal).value);
    }
    if s.agents.AgentsRunning? {
      assert Step(c, s, AgentsReturn(err), Next(c, s, AgentsReturn(err)).value);
    }
    if s.router.RouterServing? {
      assert Step(c, s, RouterReturn, Next(c, s, RouterReturn).value);
    }
  }

  /**
   * So for every configuration that passes its gates there is a run in which the agents' return,
   * with any outcome, is the first action that could cancel the tasks; and one in which the
   * router's return or a signal is.
   */
  lemma {:induction false} EveryStop(c: Config, stop: Action) returns (states: seq<State>, actions: seq<Action>)
    requires GatesPassed(c) && (stop == Signal || stop == RouterReturn || (stop.AgentsReturn? && c.agents > 0))
    ensures Run(c, states, actions + [stop]) && |states| == |actions| + 2
    ensures forall i :: 0 <= i < |actions| ==> actions[i] in [Advance, AgentsUp, RouterUp]
    ensures Serving(c, states[|actions|]) && (c.agents > 0 ==> states[|actions|].agents.AgentsRunning?)
  {
    hide Run, Inv, Step, Serving, GatesPassed;
    RunOfNothing(c);
    states, actions := CanServe(c, [INIT], []);
    RunLength(c, states, actions);
    var s := states[|actions|];
    RunKeepsInv(c, states, actions, |actions|);
    MayCome(c, s, if stop.AgentsReturn? then stop.err else None);
    ServingAgents(c, s);
    var t :| Step(c, s, stop, t);
    Extend(c, states, actions, stop, t);
    states := states + [t];
  }

  lemma {:induction false} RunOfNothing(c: Config)
    ensures Run(c, [INIT], []) && !Triggered(INIT) && INIT.agents != AgentsDone(None)
  {}

  lemma {:induction false} ServingAgents(c: Config, s: State)
    requires Serving(c, s) && s.agents != AgentsDone(None)
    ensures s.router.RouterServing? && !s.rootCancelled && (c.agents > 0 ==> s.agents.AgentsRunning?)
  {}

  // Without SequentialStart the router can serve while the agents' Start is still running.
  lemma {:induction false} ConcurrentStart(c: Config) returns (states: seq<State>, actions: seq<Action>)
    requires GatesPassed(c) && c.agents > 0 && !c.sequentialStart
    ensures Run(c, states, actions)
    ensures states[|actions|].router.RouterServing? && states[|actions|].agents.AgentsStarting?
  {
    hide Run;
    RunOfNothing(c);
    states, actions := ToWaiting(c, [INIT], []);
    RunLength(c, states, actions);
    var t := states[|actions|].(router := RouterServing);
    Extend(c, states, actions, RouterUp, t);
    states, actions := states + [t], actions + [RouterUp];
  }

  // The executor's goroutine alone, up to the error group's Wait.
  predicate Early(s: State) {
    || (s == INIT.(main := s.main) && (s.main.AtLogger? || s.main.AtKafka? || s.main.AtSoap? || s.main.AtGrpc? || s.main.AtLaunch?))
    || (s.main.AtSpawnRouter? && s.agents.AgentsStarting? && s.router.RouterIdle?)
    || (s.main.Waiting? && s.agents.AgentsStarting? && s.router.RouterBuilding?)
  }

  lemma {:induction false} ToWaiting(c: Config, states: seq<State>, actions: seq<Action>) returns (states': seq<State>, actions': seq<Action>)
    requires GatesPassed(c) && c.agents > 0 && !c.sequentialStart
    requires Run(c, states, actions) && Early(states[|actions|])
    ensures Run(c, states', actions')
    ensures var s := states'[|actions'|]; s.main.Waiting? && s.agents.AgentsStarting? && s.router.RouterBuilding?
    decreases Budget(states[|actions|])
  {
    hide Run, Step;
    RunLength(c, states, actions);
    var s := states[|actions|];
    if s.main.Waiting? {
      return states, actions;
    }
    var t := AdvanceStep(c, s).value;
    StepIs(c, s, Advance);
    Extend(c, states, actions, Advance, t);
    states', actions' := ToWaiting(c, states + [t], actions + [Advance]);
  }

  // ---------------------------------------------------------------------------
  // Completion

  // Every step uses up a part of a finite budget, so every run ends.
  function Budget(s: State): nat {
    var main := match s.main
      case AtLogger => 10 case AtKafka => 9 case AtSoap => 8 case AtGrpc => 7 case AtLaunch => 6
      case InlineRouter => 1 case StartingAgents => 4 case AtSpawnAgents => 3 case AtSpawnRouter => 2
      case Waiting => 1 case Returned => 0;
    var agents := match s.agents
      case AgentsIdle => 4 case AgentsStarting => 3 case AgentsStarted => 2 case AgentsRunning => 1
      case AgentsDone(_) => 0;
    var router := match s.router
      case RouterIdle => 4 case RouterBuilding => 3 case RouterServing => 2 case RouterClosing => 1
      case RouterFinished => 0;
    main + agents + router + (if s.rootCancelled then 0 else 1)
  }

  lemma {:induction false} StepSpends(c: Config, s: State, a: Action, t: State)
    requires Inv(c, s) && Step(c, s, a, t)
    ensures Budget(t) < Budget(s)
  {}

  lemma {:induction false} RunStep(c: Config, states: seq<State>, actions: seq<Action>, i: nat)
    requires Run(c, states, actions) && i < |actions|
    ensures |states| == |actions| + 1 && Step(c, states[i], actions[i], states[i + 1])
  {
    hide Step;
  }

  lemma {:induction false} RunStart(c: Config, states: seq<State>, actions: seq<Action>)
    requires Run(c, states, actions)
    ensures |states| == |actions| + 1 && Budget(states[0]) == 19
  {
    hide Step;
  }

  lemma {:induction false} RunsEnd(c: Config, states: seq<State>, actions: seq<Action>, i: nat)
    requires Run(c, states, actions) && i < |states|
    ensures Budget(states[i]) + i <= 19
  {
    hide *;
    RunStart(c, states, actions);
    if i > 0 {
      RunsEnd(c, states, actions, i - 1);
      RunKeepsInv(c, states, actions, i - 1);
      RunStep(c, states, actions, i - 1);
      StepSpends(c, states[i - 1], actions[i - 1], states[i]);
    }
  }

  // Steps that are bound to be taken: those of the program's own code, and those of a task whose
  // context is cancelled, which then returns from what it is doing.
  predicate Obliged(c: Config, s: State, a: Action) {
    match a
    case Advance => true
    case CloseGroup => true
    case Signal => false
    case _ => TaskContextCancelled(c, s)
  }

  // Whatever happens from here on, in whatever order, the executor returns. (Steps of runs always
  // spend budget, see StepSpends, so the comparison leaves none of them out.)
  ghost predicate Inevitable(c: Config, s: State)
    decreases Budget(s)
  {
    s.main.Returned?
    || ((exists a :: Obliged(c, s, a) && Next(c, s, a).Some?)
        && forall a, t :: Step(c, s, a, t) && Budget(t) < Budget(s) ==> Inevitable(c, t))
  }

  // A signal came, the agents failed, or the router returned.
  predicate Triggered(s: State) {
    s.rootCancelled || s.groupErr.Some? || s.router.RouterClosing? || s.router.RouterFinished?
  }

  lemma {:induction false} TriggerStays(c: Config, s: State, a: Action, t: State)
    requires Inv(c, s) && Step(c, s, a, t) && Triggered(s)
    ensures Triggered(t)
  {}

  // Once triggered, the executor is never stuck.
  lemma {:induction false} NeverStuck(c: Config, s: State) returns (a: Action)
    requires Inv(c, s) && (Triggered(s) || !GatesPassed(c)) && !s.main.Returned?
    ensures Obliged(c, s, a) && Next(c, s, a).Some?
  {
    if AdvanceStep(c, s).Some? {
      a := Advance;
    } else if s.router.RouterClosing? {
      a := CloseGroup;
    } else if s.agents.AgentsStarting? {
      a := AgentsUp;
    } else if s.agents.AgentsRunning? {
      a := AgentsReturn(None);
    } else if s.router.RouterBuilding? {
      a := RouterUp;
    } else {
      a := RouterReturn;
    }
  }

  // Without a trigger, only the executor's own goroutine is bound to move.
  lemma {:induction false} OnlyAdvance(c: Config, s: State, a: Action)
    requires Inv(c, s) && !Triggered(s) && GatesPassed(c) && Obliged(c, s, a) && Next(c, s, a).Some?
    ensures a == Advance
    ensures Inv(c, Next(c, s, a).value) && !Triggered(Next(c, s, a).value)
    ensures !Next(c, s, a).value.main.Returned?
  {
    StepKeepsInv(c, s, a, Next(c, s, a).value);
  }

  /**
   * In every interleaving the executor returns, if and only if a gate fails or a signal, an
   * agents' failure or a return of the router has come.
   */
  lemma {:induction false} Completion(c: Config, s: State)
    requires Inv(c, s)
    ensures Inevitable(c, s) <==> Triggered(s) || !GatesPassed(c)
    decreases Budget(s)
  {
    if s.main.Returned? {
      ReturnedWasTriggered(c, s);
    } else if Triggered(s) || !GatesPassed(c) {
      var a := NeverStuck(c, s);
      forall b, t | Step(c, s, b, t) && Budget(t) < Budget(s) ensures Inevitable(c, t) {
        StepKeepsInv(c, s, b, t);
        if Triggered(s) {
          TriggerStays(c, s, b, t);
        }
        Completion(c, t);
      }
    } else {
      forall a | Obliged(c, s, a) && Next(c, s, a).Some? ensures !Inevitable(c, s) {
        OnlyAdvance(c, s, a);
        var t := Next(c, s, a).value;
        StepSpends(c, s, a, t);
        Completion(c, t);
        assert Step(c, s, a, t);
      }
    }
  }

  lemma {:induction false} ReturnedWasTriggered(c: Config, s: State)
    requires Inv(c, s) && s.main.Returned?
    ensures Triggered(s) || !GatesPassed(c)
  {}

  // The same for runs: after the trigger, completion is inevitable from every later state.
  lemma {:induction false} RunCompletes(c: Config, states: seq<State>, actions: seq<Action>, i: nat, j: nat)
    requires Run(c, states, actions) && i < |actions| && i < j < |states|
    requires actions[i] == Signal || actions[i] == RouterReturn || (actions[i].AgentsReturn? && actions[i].err.Some?)
    ensures Inevitable(c, states[j])
    decreases j
  {
    RunKeepsInv(c, states, actions, j);
    TriggeredSince(c, states, actions, i, j);
    Completion(c, states[j]);
  }

  lemma {:induction false} TriggeredSince(c: Config, states: seq<State>, actions: seq<Action>, i: nat, j: nat)
    requires Run(c, states, actions) && i < |actions| && i < j < |states|
    requires actions[i] == Signal || actions[i] == RouterReturn || (actions[i].AgentsReturn? && actions[i].err.Some?)
    ensures Triggered(states[j])
    decreases j
  {
    var k := j - 1;
    RunKeepsInv(c, states, actions, k);
    assert Step(c, states[k], actions[k], states[k + 1]);
    if i < k {
      TriggeredSince(c, states, actions, i, k);
      TriggerStays(c, states[k], actions[k], states[j]);
    }
  }
}
