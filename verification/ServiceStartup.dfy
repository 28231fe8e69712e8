/**
  The startup handshake of a Windows service (source/base/core_service_win.cc).

  Two threads share `startup_state` under one mutex and one condition variable: the main thread runs
  `CoreService::exec`, the service thread runs `ServiceThread::run` and, when the dispatcher calls it,
  `ServiceThread::serviceMain`.  Every lock, write, notification, test and unlock of either thread is a
  step of its own, so the runs below are all the interleavings, with spurious wake-ups included.
 */
module ServiceStartup {
  import opened Common

  datatype Startup =
    | NotStarted
    | ErrorOccurred
    | ServiceMainCalled
    | MessageLoopCreated
    | ServiceStarted
    | RunningAsConsole
    | RunningAsService

  datatype Thread = Main | Service

  datatype Lock = Free | Held(holder: Thread)

  /** What the operating system answers: the dispatcher connects and calls `serviceMain` once, or fails. */
  datatype Dispatch = Connected | NoController | Broken

  datatype Environment = Environment(dispatch: Dispatch, registers: bool)

  datatype ServiceState = StartPending | Running

  /** The part of SERVICE_STATUS that `setStatus` computes. */
  datatype Status = Status(state: ServiceState, acceptsControls: bool, checkPoint: nat)

  datatype MainPc =
    | MLockInit | MInit | MLaunch | MTestStarted | MSleep | MTestError | MFailed
    | MLockCreated | MSetCreated | MNotifyCreated | MUnlockCreated
    | MEnterOnStart | MLeaveOnStart
    | MLockReady | MSetReady | MNotifyReady | MUnlockReady
    | MServing

  datatype ServicePc =
    | SUnborn | SDispatch
    | SLockFail | SSetFail | SNotifyFail | SUnlockFail
    | SLockCalled | SSetCalled | SNotifyCalled | SUnlockCalled
    | SLockLooped | STestLooped | SSleepLooped
    | SRegister | SReportPending
    | SLockReady | STestReady | SSleepReady | SSetRunning | SUnlockRunning
    | SReportRunning
    | SReturned

  datatype World = World(
    env: Environment,
    startup: Startup,
    lock: Lock,
    waiters: set<Thread>,
    main: MainPc,
    service: ServicePc,
    history: seq<Startup>,   // the values `startup_state` has taken, in order
    checkPoint: nat,         // status_.dwCheckPoint
    reports: seq<Status>,    // what SetServiceStatus was told, in order
    onStartCalls: nat,
    onStartReturns: nat)

  function Initial(env: Environment): World {
    World(env, NotStarted, Free, {}, MLockInit, SUnborn, [NotStarted], 0, [], 0, 0)
  }

  // ---------------------------------------------------------------------------------------------
  // Steps
  // ---------------------------------------------------------------------------------------------

  function Written(w: World, s: Startup): World {
    w.(startup := s, history := if w.startup == s then w.history else w.history + [s])
  }

  /** `setStatus`: the check point counts pending reports and restarts at every final one. */
  function Reported(w: World, s: ServiceState): World {
    var checkPoint := if s == Running then 0 else w.checkPoint + 1;
    w.(checkPoint := checkPoint, reports := w.reports + [Status(s, s == Running, checkPoint)])
  }

  /** A thread gets past a lock only while nobody holds it. */
  function Acquired(w: World, t: Thread, main: MainPc, service: ServicePc): Option<World> {
    if w.lock == Free then Some(w.(lock := Held(t), main := main, service := service)) else None
  }

  /** condition_variable::wait releases the mutex and goes to sleep in one step. */
  function Asleep(w: World, t: Thread): World {
    w.(lock := Free, waiters := w.waiters + {t})
  }

  /** CoreService::exec up to the first answer of the service thread. */
  function LaunchStep(w: World): Option<World> {
    match w.main
    case MLockInit => Acquired(w, Main, MInit, w.service)
    case MInit => Some(Written(w, NotStarted).(main := MLaunch))
    case MLaunch => Some(w.(service := SDispatch, main := MTestStarted))
    case MTestStarted =>
      if w.startup == NotStarted then Some(Asleep(w, Main).(main := MSleep))
      else Some(w.(main := MTestError))
    case MSleep =>
      if Main in w.waiters then None
      else Acquired(w, Main, MTestStarted, w.service)
    case MTestError =>
      Some(w.(lock := Free, main := if w.startup == ErrorOccurred then MFailed else MLockCreated))
    case _ => None
  }

  /** CoreService::exec from the creation of the message loop to application.exec(). */
  function ReadyStep(w: World): Option<World> {
    match w.main
    case MLockCreated => Acquired(w, Main, MSetCreated, w.service)
    case MSetCreated => Some(Written(w, MessageLoopCreated).(main := MNotifyCreated))
    case MNotifyCreated => Some(w.(waiters := {}, main := MUnlockCreated))
    case MUnlockCreated => Some(w.(lock := Free, main := MEnterOnStart))
    case MEnterOnStart => Some(w.(onStartCalls := w.onStartCalls + 1, main := MLeaveOnStart))
    case MLeaveOnStart => Some(w.(onStartReturns := w.onStartReturns + 1, main := MLockReady))
    case MLockReady => Acquired(w, Main, MSetReady, w.service)
    case MSetReady => Some(Written(w, ServiceStarted).(main := MNotifyReady))
    case MNotifyReady => Some(w.(waiters := {}, main := MUnlockReady))
    case MUnlockReady => Some(w.(lock := Free, main := MServing))
    case _ => None
  }

  function MainStep(w: World): Option<World> {
    if AwaitingFirstWord(w.main) || w.main.MTestError? then LaunchStep(w) else ReadyStep(w)
  }

  /** ServiceThread::run: the dispatcher, and what is left to do when it fails. */
  function RunStep(w: World): Option<World> {
    match w.service
    case SDispatch =>
      Some(w.(service := if w.env.dispatch == Connected then SLockCalled else SLockFail))
    case SLockFail => Acquired(w, Service, w.main, SSetFail)
    case SSetFail =>
      var s := if w.env.dispatch == NoController then RunningAsConsole else ErrorOccurred;
      Some(Written(w, s).(service := SNotifyFail))
    case SNotifyFail => Some(w.(waiters := {}, service := SUnlockFail))
    case SUnlockFail => Some(w.(lock := Free, service := SReturned))
    case _ => None
  }

  /** serviceMain: the first word of the service thread. */
  function AnnounceStep(w: World): Option<World> {
    match w.service
    case SLockCalled => Acquired(w, Service, w.main, SSetCalled)
    case SSetCalled => Some(Written(w, ServiceMainCalled).(service := SNotifyCalled))
    case SNotifyCalled => Some(w.(waiters := {}, service := SUnlockCalled))
    case SUnlockCalled => Some(w.(lock := Free, service := SLockLooped))
    case _ => None
  }

  /** serviceMain: waiting for the message loop, then the registration of the control handler. */
  function RegisterStep(w: World): Option<World> {
    match w.service
    case SLockLooped => Acquired(w, Service, w.main, STestLooped)
    case STestLooped =>
      if w.startup == ServiceMainCalled then Some(Asleep(w, Service).(service := SSleepLooped))
      else Some(w.(lock := Free, service := SRegister))
    case SSleepLooped =>
      if Service in w.waiters then None else Acquired(w, Service, w.main, STestLooped)
    case SRegister => Some(w.(service := if w.env.registers then SReportPending else SReturned))
    case _ => None
  }

  /** serviceMain from the first status report on. */
  function ReportStep(w: World): Option<World> {
    match w.service
    case SReportPending => Some(Reported(w, StartPending).(service := SLockReady))
    case SLockReady => Acquired(w, Service, w.main, STestReady)
    case STestReady =>
      if w.startup != ServiceStarted then Some(Asleep(w, Service).(service := SSleepReady))
      else Some(w.(service := SSetRunning))
    case SSleepReady =>
      if Service in w.waiters then None else Acquired(w, Service, w.main, STestReady)
    case SSetRunning => Some(Written(w, RunningAsService).(service := SUnlockRunning))
    case SUnlockRunning => Some(w.(lock := Free, service := SReportRunning))
    case SReportRunning => Some(Reported(w, Running).(service := SReturned))
    case _ => None
  }

  predicate InRun(pc: ServicePc) {
    pc.SDispatch? || OnFailurePath(pc)
  }

  predicate InRegister(pc: ServicePc) {
    pc.SLockLooped? || pc.STestLooped? || pc.SSleepLooped? || pc.SRegister?
  }

  predicate InReport(pc: ServicePc) {
    pc.SReportPending? || Registered(pc)
  }

  function ServiceStep(w: World): Option<World> {
    if InRun(w.service) then RunStep(w)
    else if InReport(w.service) then ReportStep(w)
    else if InRegister(w.service) then RegisterStep(w)
    else AnnounceStep(w)
  }

  /** A scheduler's choice: let a thread take its next step, or wake a sleeper for no reason. */
  datatype Action = Run(t: Thread) | Spurious(t: Thread)

  function Step(w: World, a: Action): Option<World> {
    match a
    case Run(Main) => MainStep(w)
    case Run(Service) => ServiceStep(w)
    case Spurious(t) => if t in w.waiters then Some(w.(waiters := w.waiters - {t})) else None
  }

  /** The state after a run, or None if some action of it was not possible. */
  function After(w: World, run: seq<Action>): Option<World>
    decreases |run|
  {
    if run == [] then Some(w)
    else match Step(w, run[0])
      case None => None
      case Some(v) => After(v, run[1..])
  }

  predicate Finished(w: World) {
    (w.main == MServing || w.main == MFailed) && w.service == SReturned
  }

  // ---------------------------------------------------------------------------------------------
  // The invariant
  // ---------------------------------------------------------------------------------------------

  predicate MainHolds(pc: MainPc) {
    || pc.MInit? || pc.MLaunch? || pc.MTestStarted? || pc.MTestError?
    || pc.MSetCreated? || pc.MNotifyCreated? || pc.MUnlockCreated?
    || pc.MSetReady? || pc.MNotifyReady? || pc.MUnlockReady?
  }

  predicate ServiceHolds(pc: ServicePc) {
    || pc.SSetFail? || pc.SNotifyFail? || pc.SUnlockFail?
    || pc.SSetCalled? || pc.SNotifyCalled? || pc.SUnlockCalled?
    || pc.STestLooped? || pc.STestReady? || pc.SSetRunning? || pc.SUnlockRunning?
  }

  predicate BeforeLaunch(pc: MainPc) {
    pc.MLockInit? || pc.MInit? || pc.MLaunch?
  }

  predicate AwaitingFirstWord(pc: MainPc) {
    BeforeLaunch(pc) || pc.MTestStarted? || pc.MSleep?
  }

  predicate LoopCreated(pc: MainPc) {
    || pc.MNotifyCreated? || pc.MUnlockCreated? || pc.MEnterOnStart? || pc.MLeaveOnStart?
    || pc.MLockReady? || pc.MSetReady? || Ready(pc)
  }

  predicate Ready(pc: MainPc) {
    pc.MNotifyReady? || pc.MUnlockReady? || pc.MServing?
  }

  predicate OnFailurePath(pc: ServicePc) {
    pc.SLockFail? || pc.SSetFail? || pc.SNotifyFail? || pc.SUnlockFail?
  }

  predicate Silent(pc: ServicePc) {
    pc.SUnborn? || pc.SDispatch? || pc.SLockFail? || pc.SSetFail? || pc.SLockCalled? || pc.SSetCalled?
  }

  predicate SeenLoop(pc: ServicePc) {
    pc.SRegister? || pc.SReportPending? || Registered(pc)
  }

  predicate Registered(pc: ServicePc) {
    || pc.SLockReady? || pc.STestReady? || pc.SSleepReady?
    || pc.SSetRunning? || pc.SUnlockRunning? || pc.SReportRunning?
  }

  predicate Completed(w: World) {
    w.service.SReturned? && w.env.dispatch.Connected? && w.env.registers
  }

  predicate ServiceDeclared(w: World) {
    w.service.SUnlockRunning? || w.service.SReportRunning? || Completed(w)
  }

  /** Who holds the lock, who may sleep, and how far each thread can be ahead of the other. */
  predicate Coordinated(w: World) {
    && (w.lock == Held(Main) <==> MainHolds(w.main))
    && (w.lock == Held(Service) <==> ServiceHolds(w.service))
    && (Main in w.waiters ==> w.main.MSleep?)
    && (Service in w.waiters ==> w.service.SSleepLooped? || w.service.SSleepReady?)
    && (w.service.SUnborn? <==> BeforeLaunch(w.main))
    && (!AwaitingFirstWord(w.main) ==> !Silent(w.service))
    && (w.main.MFailed? ==> w.env.dispatch.Broken?)
    && (w.env.dispatch.Broken? ==> AwaitingFirstWord(w.main) || w.main.MTestError? || w.main.MFailed?)
    && (OnFailurePath(w.service) ==> !w.env.dispatch.Connected?)
    && (!w.env.dispatch.Connected? ==>
          OnFailurePath(w.service) || w.service.SUnborn? || w.service.SDispatch? || w.service.SReturned?)
    && (w.service.SReportPending? || Registered(w.service) ==> w.env.registers)
    && (SeenLoop(w.service) || (w.service.SReturned? && w.env.dispatch.Connected?) ==> LoopCreated(w.main))
    && (w.service.SSetRunning? || ServiceDeclared(w) ==> Ready(w.main))
  }

  function FirstWord(env: Environment): Startup {
    match env.dispatch
    case Connected => ServiceMainCalled
    case NoController => RunningAsConsole
    case Broken => ErrorOccurred
  }

  /** The value of `startup_state`, from where the two threads are. */
  function Expected(w: World): Startup {
    if ServiceDeclared(w) then RunningAsService
    else if Ready(w.main) then ServiceStarted
    else if LoopCreated(w.main) then MessageLoopCreated
    else if !Silent(w.service) then FirstWord(w.env)
    else NotStarted
  }

  /** The values it has gone through on the way to s. */
  function PathTo(env: Environment, s: Startup): seq<Startup> {
    match s
    case NotStarted => [NotStarted]
    case ErrorOccurred | ServiceMainCalled | RunningAsConsole => [NotStarted, s]
    case MessageLoopCreated => [NotStarted, FirstWord(env), s]
    case ServiceStarted => [NotStarted, FirstWord(env), MessageLoopCreated, s]
    case RunningAsService => [NotStarted, FirstWord(env), MessageLoopCreated, ServiceStarted, s]
  }

  const Pending := Status(StartPending, false, 1)
  const Up := Status(Running, true, 0)

  /** What has been written, reported and called, from where the two threads are. */
  predicate Recorded(w: World) {
    && w.startup == Expected(w)
    && w.history == PathTo(w.env, w.startup)
    && w.reports == (if Completed(w) then [Pending, Up] else if Registered(w.service) then [Pending] else [])
    && (!Registered(w.service) ==> w.checkPoint == 0)
    && w.onStartReturns == (if Ready(w.main) || w.main.MLockReady? || w.main.MSetReady? then 1 else 0)
    && w.onStartCalls == (if w.main.MLeaveOnStart? then 1 else w.onStartReturns)
  }

  predicate NotifyPending(w: World) {
    w.main.MNotifyCreated? || w.main.MNotifyReady? || w.service.SNotifyFail? || w.service.SNotifyCalled?
  }

  /** The condition of the loop the thread went to sleep in. */
  predicate WaitCondition(w: World, t: Thread) {
    match t
    case Main => w.startup == NotStarted
    case Service =>
      if w.service.SSleepLooped? then w.startup == ServiceMainCalled else w.startup != ServiceStarted
  }

  predicate NoLostWakeup(w: World) {
    forall t :: t in w.waiters ==> WaitCondition(w, t) || NotifyPending(w)
  }

  predicate Inv(w: World) {
    Coordinated(w) && Recorded(w) && NoLostWakeup(w)
  }

  lemma {:induction false} LaunchStepCoordinates(w: World)
    requires Inv(w) && LaunchStep(w).Some?
    ensures Coordinated(LaunchStep(w).value)
  {
    match w.main {
      case MLockInit =>
      case MInit =>
      case MLaunch =>
      case MTestStarted =>
      case MSleep =>
      case MTestError =>
      case _ =>
    }
  }

  lemma {:induction false} LaunchStepRecords(w: World)
    requires Inv(w) && LaunchStep(w).Some?
    ensures Recorded(LaunchStep(w).value) && NoLostWakeup(LaunchStep(w).value)
  {
    match w.main {
      case MLockInit =>
      case MInit =>
      case MLaunch =>
      case MTestStarted =>
      case MSleep =>
      case MTestError =>
      case _ =>
    }
  }

  lemma {:induction false} ReadyStepCoordinates(w: World)
    requires Inv(w) && ReadyStep(w).Some?
    ensures Coordinated(ReadyStep(w).value)
  {
    match w.main {
      case MLockCreated =>
      case MSetCreated =>
      case MNotifyCreated =>
      case MUnlockCreated =>
      case MEnterOnStart =>
      case MLeaveOnStart =>
      case MLockReady =>
      case MSetReady =>
      case MNotifyReady =>
      case MUnlockReady =>
      case _ =>
    }
  }

  lemma {:induction false} ReadyStepRecords(w: World)
    requires Inv(w) && ReadyStep(w).Some?
    ensures Recorded(ReadyStep(w).value) && NoLostWakeup(ReadyStep(w).value)
  {
    match w.main {
      case MLockCreated =>
      case MSetCreated =>
      case MNotifyCreated =>
      case MUnlockCreated =>
      case MEnterOnStart =>
      case MLeaveOnStart =>
      case MLockReady =>
      case MSetReady =>
      case MNotifyReady =>
      case MUnlockReady =>
      case _ =>
    }
  }

  lemma {:induction false} RunStepCoordinates(w: World)
    requires Inv(w) && RunStep(w).Some?
    ensures Coordinated(RunStep(w).value)
  {
    match w.service {
      case SDispatch =>
      case SLockFail =>
      case SSetFail =>
      case SNotifyFail =>
      case SUnlockFail =>
      case _ =>
    }
  }

  lemma {:induction false} RunStepRecords(w: World)
    requires Inv(w) && RunStep(w).Some?
    ensures Recorded(RunStep(w).value) && NoLostWakeup(RunStep(w).value)
  {
    match w.service {
      case SDispatch =>
      case SLockFail =>
      case SSetFail =>
      case SNotifyFail =>
      case SUnlockFail =>
      case _ =>
    }
  }

  lemma {:induction false} AnnounceStepCoordinates(w: World)
    requires Inv(w) && AnnounceStep(w).Some?
    ensures Coordinated(AnnounceStep(w).value)
  {
    match w.service {
      case SLockCalled =>
      case SSetCalled =>
      case SNotifyCalled =>
      case SUnlockCalled =>
      case _ =>
    }
  }

  lemma {:induction false} AnnounceStepRecords(w: World)
    requires Inv(w) && AnnounceStep(w).Some?
    ensures Recorded(AnnounceStep(w).value) && NoLostWakeup(AnnounceStep(w).value)
  {
    match w.service {
      case SLockCalled =>
      case SSetCalled =>
      case SNotifyCalled =>
      case SUnlockCalled =>
      case _ =>
    }
  }

  lemma {:induction false} RegisterStepCoordinates(w: World)
    requires Inv(w) && RegisterStep(w).Some?
    ensures Coordinated(RegisterStep(w).value)
  {
    match w.service {
      case SLockLooped =>
      case STestLooped =>
      case SSleepLooped =>
      case SRegister =>
      case _ =>
    }
  }

  lemma {:induction false} RegisterStepRecords(w: World)
    requires Inv(w) && RegisterStep(w).Some?
    ensures Recorded(RegisterStep(w).value) && NoLostWakeup(RegisterStep(w).value)
  {
    match w.service {
      case SLockLooped =>
      case STestLooped =>
      case SSleepLooped =>
      case SRegister =>
      case _ =>
    }
  }

  lemma {:induction false} ReportStepCoordinates(w: World)
    requires Inv(w) && ReportStep(w).Some?
    ensures Coordinated(ReportStep(w).value)
  {
    match w.service {
      case SReportPending =>
      case SLockReady =>
      case STestReady =>
      case SSleepReady =>
      case SSetRunning =>
      case SUnlockRunning =>
      case SReportRunning =>
      case _ =>
    }
  }

  lemma {:induction false} ReportStepRecords(w: World)
    requires Inv(w) && ReportStep(w).Some?
    ensures Recorded(ReportStep(w).value) && NoLostWakeup(ReportStep(w).value)
  {
    match w.service {
      case SReportPending =>
      case SLockReady =>
      case STestReady =>
      case SSleepReady =>
      case SSetRunning =>
      case SUnlockRunning =>
      case SReportRunning =>
      case _ =>
    }
  }

  lemma {:induction false} StepKeepsInv(w: World, a: Action)
    requires Inv(w) && Step(w, a).Some?
    ensures Inv(Step(w, a).value)
  {
    match a
    case Run(Main) =>
      if AwaitingFirstWord(w.main) || w.main.MTestError? {
        LaunchStepCoordinates(w); LaunchStepRecords(w);
      } else {
        ReadyStepCoordinates(w); ReadyStepRecords(w);
      }
    case Run(Service) =>
      if InRun(w.service) {
        RunStepCoordinates(w); RunStepRecords(w);
      } else if InReport(w.service) {
        ReportStepCoordinates(w); ReportStepRecords(w);
      } else if InRegister(w.service) {
        RegisterStepCoordinates(w); RegisterStepRecords(w);
      } else {
        AnnounceStepCoordinates(w); AnnounceStepRecords(w);
      }
    case Spurious(_) =>
  }

  lemma {:induction false} RunKeepsInv(w: World, run: seq<Action>)
    requires Inv(w) && After(w, run).Some?
    ensures Inv(After(w, run).value)
    decreases |run|
  {
    if run == [] {
    } else {
      StepKeepsInv(w, run[0]);
      RunKeepsInv(Step(w, run[0]).value, run[1..]);
    }
  }

  // ---------------------------------------------------------------------------------------------
  // What holds of every run
  // ---------------------------------------------------------------------------------------------

  /** w is where the run takes the two threads from the start. */
  predicate Reaches(env: Environment, run: seq<Action>, w: World) {
    After(Initial(env), run) == Some(w)
  }

  lemma {:induction false} ReachableInv(env: Environment, run: seq<Action>, w: World)
    requires Reaches(env, run, w)
    ensures Inv(w) && w.env == env
  {
    RunKeepsInv(Initial(env), run);
    EnvIsConstant(Initial(env), run);
  }

  lemma {:induction false} EnvIsConstant(w: World, run: seq<Action>)
    requires After(w, run).Some?
    ensures After(w, run).value.env == w.env
    decreases |run|
  {
    if run == [] {
    } else {
      EnvIsConstant(Step(w, run[0]).value, run[1..]);
    }
  }

  function Other(t: Thread): Thread {
    if t == Main then Service else Main
  }

  /** No wake-up is lost: a sleeper's condition holds, or the other thread is about to notify it. */
  lemma {:induction false} SleepersReallyWait(env: Environment, run: seq<Action>, w: World, t: Thread)
    requires Reaches(env, run, w) && t in w.waiters
    ensures WaitCondition(w, t) || (NotifyPending(w) && w.lock == Held(Other(t)))
  {
    ReachableInv(env, run, w);
  }

  /** No deadlock: until both threads are through, one of them can step without a spurious wake-up. */
  lemma {:induction false} SomeThreadCanStep(env: Environment, run: seq<Action>, w: World)
    requires Reaches(env, run, w) && !Finished(w)
    ensures Step(w, Run(Main)).Some? || Step(w, Run(Service)).Some?
  {
    ReachableInv(env, run, w);
    InvMeansProgress(w);
  }

  lemma {:induction false} InvMeansProgress(w: World)
    requires Inv(w) && !Finished(w)
    ensures Step(w, Run(Main)).Some? || Step(w, Run(Service)).Some?
  {
    match w.lock {
      case Held(Main) =>
      case Held(Service) =>
      case Free =>
    }
  }

  /** Both threads follow the one documented order of states, and complete it when they finish. */
  function WholePath(env: Environment): seq<Startup> {
    match env.dispatch
    case Connected =>
      [NotStarted, ServiceMainCalled, MessageLoopCreated, ServiceStarted]
      + (if env.registers then [RunningAsService] else [])
    case NoController => [NotStarted, RunningAsConsole, MessageLoopCreated, ServiceStarted]
    case Broken => [NotStarted, ErrorOccurred]
  }

  lemma {:induction false} StatesPassInOrder(env: Environment, run: seq<Action>, w: World)
    requires Reaches(env, run, w)
    ensures [] < w.history <= WholePath(env)
    ensures w.startup == w.history[|w.history| - 1]
    ensures Finished(w) ==> w.history == WholePath(env)
  {
    ReachableInv(env, run, w);
  }

  /** SERVICE_RUNNING comes after START_PENDING, and only once `onStart` has returned. */
  lemma {:induction false} RunningIsReportedLast(env: Environment, run: seq<Action>, w: World)
    requires Reaches(env, run, w)
    ensures w.reports <= [Pending, Up]
    ensures Up in w.reports ==> w.startup == RunningAsService && w.onStartReturns == 1
    ensures Finished(w) ==> (w.reports == [Pending, Up] <==> env.dispatch == Connected && env.registers)
  {
    ReachableInv(env, run, w);
  }

  /** `onStart` runs at most once; never when the dispatcher broke, and to its end otherwise. */
  lemma {:induction false} OnStartRunsOnce(env: Environment, run: seq<Action>, w: World)
    requires Reaches(env, run, w)
    ensures w.onStartReturns <= w.onStartCalls <= 1
    ensures env.dispatch == Broken ==> w.onStartCalls == 0
    ensures Finished(w) ==> (w.main == MFailed <==> env.dispatch == Broken)
    ensures Finished(w) && env.dispatch != Broken ==> w.onStartReturns == 1
  {
    ReachableInv(env, run, w);
  }

  /** `startup_state` is written only under the lock. */
  lemma {:induction false} OnlyTheHolderWrites(env: Environment, run: seq<Action>, w: World, a: Action)
    requires Reaches(env, run, w) && Step(w, a).Some?
    ensures Step(w, a).value.startup != w.startup ==> a.Run? && w.lock == Held(a.t)
  {
    ReachableInv(env, run, w);
    match a
    case Run(Main) =>
    case Run(Service) =>
    case Spurious(_) =>
  }

  // ---------------------------------------------------------------------------------------------
  // Termination
  // ---------------------------------------------------------------------------------------------

  function NotifiesLeft(w: World): nat {
    (match w.main
     case MFailed | MUnlockReady | MServing => 0
     case MUnlockCreated | MEnterOnStart | MLeaveOnStart | MLockReady | MSetReady | MNotifyReady => 1
     case _ => 2)
    + if Silent(w.service) || w.service.SNotifyFail? || w.service.SNotifyCalled? then 1 else 0
  }

  function MainRank(w: World): nat {
    match w.main
    case MLockInit => 20 case MInit => 19 case MLaunch => 18
    case MTestStarted => 16
    case MSleep => if Main in w.waiters then 15 else 17
    case MTestError => 14 case MFailed => 0
    case MLockCreated => 13 case MSetCreated => 12 case MNotifyCreated => 11 case MUnlockCreated => 10
    case MEnterOnStart => 9 case MLeaveOnStart => 8
    case MLockReady => 7 case MSetReady => 6 case MNotifyReady => 5 case MUnlockReady => 4
    case MServing => 0
  }

  function ServiceRank(w: World): nat {
    match w.service
    case SUnborn => 24 case SDispatch => 23
    case SLockFail => 4 case SSetFail => 3 case SNotifyFail => 2 case SUnlockFail => 1
    case SLockCalled => 22 case SSetCalled => 21 case SNotifyCalled => 20 case SUnlockCalled => 19
    case SLockLooped => 18 case STestLooped => 16
    case SSleepLooped => if Service in w.waiters then 15 else 17
    case SRegister => 14 case SReportPending => 13
    case SLockReady => 12 case STestReady => 10
    case SSleepReady => if Service in w.waiters then 9 else 11
    case SSetRunning => 8 case SUnlockRunning => 7 case SReportRunning => 6
    case SReturned => 0
  }

  function Measure(w: World): nat {
    3 * NotifiesLeft(w) + MainRank(w) + ServiceRank(w)
  }

  lemma {:induction false} LaunchStepDescends(w: World)
    requires Inv(w) && LaunchStep(w).Some?
    ensures Measure(LaunchStep(w).value) < Measure(w)
  {
    match w.main {
      case MLockInit =>
      case MInit =>
      case MLaunch =>
      case MTestStarted =>
      case MSleep =>
      case MTestError =>
      case _ =>
    }
  }

  lemma {:induction false} ReadyStepDescends(w: World)
    requires Inv(w) && ReadyStep(w).Some?
    ensures Measure(ReadyStep(w).value) < Measure(w)
  {
    match w.main {
      case MLockCreated =>
      case MSetCreated =>
      case MNotifyCreated =>
      case MUnlockCreated =>
      case MEnterOnStart =>
      case MLeaveOnStart =>
      case MLockReady =>
      case MSetReady =>
      case MNotifyReady =>
      case MUnlockReady =>
      case _ =>
    }
  }

  lemma {:induction false} MainStepDescends(w: World)
    requires Inv(w) && MainStep(w).Some?
    ensures Measure(MainStep(w).value) < Measure(w)
  {
    if AwaitingFirstWord(w.main) || w.main.MTestError? {
      LaunchStepDescends(w);
    } else {
      ReadyStepDescends(w);
    }
  }

  lemma {:induction false} RunStepDescends(w: World)
    requires Inv(w) && RunStep(w).Some?
    ensures Measure(RunStep(w).value) < Measure(w)
  {
    match w.service {
      case SDispatch =>
      case SLockFail =>
      case SSetFail =>
      case SNotifyFail =>
      case SUnlockFail =>
      case _ =>
    }
  }

  lemma {:induction false} AnnounceStepDescends(w: World)
    requires Inv(w) && AnnounceStep(w).Some?
    ensures Measure(AnnounceStep(w).value) < Measure(w)
  {
    match w.service {
      case SLockCalled =>
      case SSetCalled =>
      case SNotifyCalled =>
      case SUnlockCalled =>
      case _ =>
    }
  }

  lemma {:induction false} RegisterStepDescends(w: World)
    requires Inv(w) && RegisterStep(w).Some?
    ensures Measure(RegisterStep(w).value) < Measure(w)
  {
    match w.service {
      case SLockLooped =>
      case STestLooped =>
      case SSleepLooped =>
      case SRegister =>
      case _ =>
    }
  }

  lemma {:induction false} ReportStepDescends(w: World)
    requires Inv(w) && ReportStep(w).Some?
    ensures Measure(ReportStep(w).value) < Measure(w)
  {
    match w.service {
      case SReportPending =>
      case SLockReady =>
      case STestReady =>
      case SSleepReady =>
      case SSetRunning =>
      case SUnlockRunning =>
      case SReportRunning =>
      case _ =>
    }
  }

  lemma {:induction false} ServiceStepDescends(w: World)
    requires Inv(w) && ServiceStep(w).Some?
    ensures Measure(ServiceStep(w).value) < Measure(w)
  {
    if InRun(w.service) {
      RunStepDescends(w);
    } else if InReport(w.service) {
      ReportStepDescends(w);
    } else if InRegister(w.service) {
      RegisterStepDescends(w);
    } else {
      AnnounceStepDescends(w);
    }
  }

  lemma {:induction false} SpuriousWakeCostsTwo(w: World, t: Thread)
    requires Inv(w) && t in w.waiters
    ensures Measure(Step(w, Spurious(t)).value) == Measure(w) + 2
  {
  }

  function SpuriousIn(run: seq<Action>): nat {
    if run == [] then 0 else (if run[0].Spurious? then 1 else 0) + SpuriousIn(run[1..])
  }

  lemma {:induction false} MeasureBoundsRuns(w: World, run: seq<Action>)
    requires Inv(w) && After(w, run).Some?
    ensures |run| + Measure(After(w, run).value) <= Measure(w) + 3 * SpuriousIn(run)
    decreases |run|
  {
    if run == [] {
    } else {
      var v := Step(w, run[0]).value;
      StepKeepsInv(w, run[0]);
      match run[0] {
        case Run(Main) => MainStepDescends(w);
        case Run(Service) => ServiceStepDescends(w);
        case Spurious(t) => SpuriousWakeCostsTwo(w, t);
      }
      MeasureBoundsRuns(v, run[1..]);
    }
  }

  /** Only spurious wake-ups make a run longer, each by itself and at most two more steps. */
  lemma {:induction false} RunsAreShort(env: Environment, run: seq<Action>, w: World)
    requires Reaches(env, run, w)
    ensures |run| <= 53 + 3 * SpuriousIn(run)
  {
    MeasureBoundsRuns(Initial(env), run);
  }

  lemma {:induction false} AfterConcat(w: World, run: seq<Action>, more: seq<Action>)
    requires After(w, run).Some?
    ensures After(w, run + more) == After(After(w, run).value, more)
    decreases |run|
  {
    if run == [] {
      assert run + more == more;
    } else {
      assert (run + more)[1..] == run[1..] + more;
      AfterConcat(Step(w, run[0]).value, run[1..], more);
    }
  }

  lemma {:induction false} Then(env: Environment, run: seq<Action>, w: World, t: Thread)
    returns (longer: seq<Action>, v: World)
    requires Reaches(env, run, w) && Step(w, Run(t)).Some?
    ensures longer == run + [Run(t)] && Reaches(env, longer, v) && Some(v) == Step(w, Run(t))
  {
    longer, v := run + [Run(t)], Step(w, Run(t)).value;
    AfterConcat(Initial(env), run, [Run(t)]);
  }

  lemma {:induction false} SomeDescent(w: World) returns (t: Thread, v: World)
    requires Inv(w) && !Finished(w)
    ensures Step(w, Run(t)) == Some(v) && Measure(v) < Measure(w)
  {
    InvMeansProgress(w);
    if MainStep(w).Some? {
      MainStepDescends(w);
      return Main, MainStep(w).value;
    }
    ServiceStepDescends(w);
    return Service, ServiceStep(w).value;
  }

  /** From every reachable state the two threads alone, with no spurious wake-up, get through. */
  lemma {:induction false} EveryRunCanFinish(env: Environment, run: seq<Action>, w: World)
    returns (rest: seq<Action>, end: World)
    requires Reaches(env, run, w)
    ensures Reaches(env, run + rest, end) && Finished(end) && SpuriousIn(rest) == 0
    decreases Measure(w)
  {
    if Finished(w) {
      assert run + [] == run;
      return [], w;
    }
    ReachableInv(env, run, w);
    var t, v := SomeDescent(w);
    var longer, u := Then(env, run, w, t);
    var more;
    more, end := EveryRunCanFinish(env, longer, v);
    rest := [Run(t)] + more;
    assert longer + more == run + rest;
  }

  lemma {:induction false} MainMaySleepFirst(env: Environment) returns (run: seq<Action>, w: World)
    ensures Reaches(env, run, w) && w.main == MSleep && w.service == SDispatch
  {
    run, w := [], Initial(env);
    while w.main != MSleep
      invariant Reaches(env, run, w) && AwaitingFirstWord(w.main)
      invariant w.service.SUnborn? || w.service.SDispatch?
      decreases MainRank(w)
    {
      ReachableInv(env, run, w);
      run, w := Then(env, run, w, Main);
    }
    ReachableInv(env, run, w);
  }

  /** Main sleeps, and the service thread is on its way through its first critical section. */
  predicate Announcing(w: World) {
    && w.main == MSleep
    && (w.service.SDispatch? || w.service.SLockCalled? || w.service.SSetCalled?
        || w.service.SNotifyCalled? || w.service.SUnlockCalled? || w.service.SLockLooped?)
    && (w.service.SUnlockCalled? || w.service.SLockLooped? ==> w.waiters == {})
  }

  lemma {:induction false} AnnouncesOn(w: World)
    requires Inv(w) && w.env.dispatch == Connected && Announcing(w) && w.service != SLockLooped
    ensures ServiceStep(w).Some? && Announcing(ServiceStep(w).value)
    ensures ServiceRank(ServiceStep(w).value) < ServiceRank(w)
  {
    match w.service {
      case SDispatch =>
      case SLockCalled => LockIsFree(w);
      case SSetCalled =>
      case SNotifyCalled =>
      case SUnlockCalled =>
      case _ =>
    }
  }

  lemma {:induction false} LockIsFree(w: World)
    requires Inv(w) && !MainHolds(w.main) && !ServiceHolds(w.service)
    ensures w.lock == Free
  {
    match w.lock {
      case Free =>
      case Held(Main) =>
      case Held(Service) =>
    }
  }

  lemma {:induction false} ServiceMayPause(env: Environment) returns (run: seq<Action>, w: World)
    requires env.dispatch == Connected
    ensures Reaches(env, run, w) && w.main == MSleep && w.service == SLockLooped && w.waiters == {}
  {
    run, w := MainMaySleepFirst(env);
    while w.service != SLockLooped
      invariant Reaches(env, run, w) && Announcing(w)
      decreases ServiceRank(w)
    {
      ReachableInv(env, run, w);
      AnnouncesOn(w);
      run, w := Then(env, run, w, Service);
    }
  }

  /** With the service thread between two critical sections, nothing holds main up. */
  lemma {:induction false} MainAloneSteps(w: World)
    requires Inv(w) && w.service == SLockLooped && w.waiters == {} && w.main != MServing
    ensures MainStep(w).Some?
    ensures MainStep(w).value.service == SLockLooped && MainStep(w).value.waiters == {}
  {
    match w.lock {
      case Free =>
      case Held(Main) =>
      case Held(Service) =>
    }
  }

  /**
    The race the comment in `serviceMain` names is real: main can be past SERVICE_STARTED before the
    service thread first looks for the end of SERVICE_MAIN_CALLED (and it then still finishes).
   */
  lemma {:induction false} MainMayOvertake(env: Environment) returns (run: seq<Action>, w: World)
    requires env.dispatch == Connected
    ensures Reaches(env, run, w) && w.startup == ServiceStarted && w.service == SLockLooped
  {
    run, w := ServiceMayPause(env);
    while w.main != MServing
      invariant Reaches(env, run, w) && w.service == SLockLooped && w.waiters == {}
      decreases Measure(w)
    {
      ReachableInv(env, run, w);
      MainAloneSteps(w);
      MainStepDescends(w);
      run, w := Then(env, run, w, Main);
    }
    ReachableInv(env, run, w);
  }
}
