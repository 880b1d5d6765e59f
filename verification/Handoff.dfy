/**
  * The command hand-off between a worker thread and one caller, as LightningCastClient and SnapcastComm both run
  * it: OPEN, CLOSE and EXIT travel through cmd, ready and ready_sync, two condition variables and an eventfd.
  * A state machine with one program counter per thread; a run is any interleaving of its steps.
  */
module Handoff {
  /** The two instances differ in how they open, close and notify. */
  datatype Config = Lightning | Snapcast

  datatype Cmd = NONE | OPEN | CLOSE | EXIT

  /** Where handle and do_open stand. */
  datatype WorkerPC =
    | Outside                                      // about to take the mutex, before the switch
    | Dispatch                                     // at switch (cmd), with the mutex
    | Waiting(notified: bool)                      // blocked in cond.wait
    | Predicate                                    // back from cond.wait, with the mutex, testing ready
    | Connect                                      // connectServer
    | Connected                                    // setIsOpen(true)
    | Refused                                      // setIsOpen(false) after a failed connect
    | Announce                                     // LockfinishCmd of a live session
    | GiveUp                                       // LockfinishCmd after a failed connect
    | LoopTest                                     // while (cmd == NONE)
    | Selecting                                    // blocked in select
    | Scan(wakeReady: bool, serverReady: bool)     // the loop over the ready descriptors
    | WakeRead(serverStillReady: bool)             // after wake_fd.Read(), testing cmd
    | Leaving                                      // setIsOpen(false) after the session loop
    | Closing                                      // closing server_fd
    | Gone                                         // handle has returned

  /** Where the caller stands: in which operation, and which one is to follow when a Close comes first. */
  datatype CallerPC =
    | Idle
    | CheckOpen(goal: Cmd)
    | Prepare(op: Cmd, goal: Cmd)                  // about to take the mutex
    | Notify(op: Cmd, goal: Cmd)                   // fields set, about to notify, with the mutex
    | WriteWake(op: Cmd, goal: Cmd)                // about to write wake_fd, with the mutex
    | Test(op: Cmd, goal: Cmd)                     // while (cmd != NONE), with the mutex
    | Blocked(op: Cmd, goal: Cmd)                  // in cond_sync.wait
    | Recheck(op: Cmd, goal: Cmd)                  // back from cond_sync.wait, with the mutex, testing ready_sync
    | Finish(op: Cmd, goal: Cmd)                   // past the loop, with the mutex

  datatype Owner = Free | Worker | Caller

  datatype State = State(
    worker: WorkerPC, caller: CallerPC, mutex: Owner,
    cmd: Cmd, ready: bool, readySync: bool, isOpen: bool,
    syncNotified: bool,      // cond_sync was notified while the caller was blocked
    live: bool,              // server_fd is connected
    wake: bool,              // wake_fd is readable
    pending: bool,           // of LockWait and LockSignal
    senders: nat,            // threads that have sent a command over a session and are about to call LockWait
    waiters: nat,            // threads blocked in LockWait on the same cond
    awakened: nat)           // of those, already notified

  const START := State(Outside, Idle, Free, NONE, false, false, false, false, false, false, false, 0, 0, 0)

  /** Whom notify_one on cond reaches. */
  datatype Target = ToWorker | ToOther | ToNobody

  datatype WorkerEvent =
    | TakeMutex | Switch | WorkerWakes(spurious: bool) | TestReady | TryConnect(ok: bool) | SetIsOpen | FinishLocked
    | TestLoop | SelectReturns(wakeReady: bool, serverReady: bool) | SelectTimesOut(alive: bool) | SelectFails
    | ReadWake | TestCmd | ReadServer(ok: bool) | ScanEnds | CloseFd

  datatype CallerEvent =
    | Call(op: Cmd) | GetIsOpen | SetFields | NotifyOne(target: Target) | WakeUp | TestDone
    | CallerWakes(spurious: bool) | TestSync | Return

  /** processSend and LockWait of the sending threads, and the LockSignal of a reply that doRead has read. */
  datatype OtherEvent = OtherSends | OtherWaits | OtherWakes(spurious: bool) | ReplySignals | ReplyNotifies(target: Target)

  datatype Event = ByWorker(w: WorkerEvent) | ByCaller(c: CallerEvent) | ByOther(o: OtherEvent)

  // ----- Steps -----

  /** notify_one wakes one thread that is blocked and not yet notified, if there is one. */
  predicate CanReach(s: State, target: Target) {
    match target
    case ToWorker => s.worker == Waiting(false)
    case ToOther => s.waiters > s.awakened
    case ToNobody => s.worker != Waiting(false) && s.waiters <= s.awakened
  }

  function Notified(s: State, target: Target): State {
    match target
    case ToWorker => s.(worker := Waiting(true))
    case ToOther => s.(awakened := s.awakened + 1)
    case ToNobody => s
  }

  /** finishCmd, with the mutex held. */
  function FinishCmd(s: State): State {
    s.(cmd := NONE, readySync := true, syncNotified := s.caller.Blocked?)
  }

  predicate WorkerCan(c: Config, s: State, e: WorkerEvent) {
    match e
    case TakeMutex => s.worker.Outside? && s.mutex.Free?
    case Switch => s.worker.Dispatch?
    case WorkerWakes(spurious) => s.worker.Waiting? && (s.worker.notified || spurious) && s.mutex.Free?
    case TestReady => s.worker.Predicate?
    case TryConnect(ok) => s.worker.Connect? && (c.Lightning? || ok)
    case SetIsOpen => (s.worker.Connected? || s.worker.Refused? || s.worker.Leaving?) && s.mutex.Free?
    case FinishLocked => (s.worker.Announce? || s.worker.GiveUp?) && s.mutex.Free?
    case TestLoop => s.worker.LoopTest?
    case SelectReturns(wakeReady, serverReady) => s.worker.Selecting? && (wakeReady || serverReady) && (wakeReady ==> s.wake)
    case SelectTimesOut(_) => s.worker.Selecting? && c.Lightning?
    case SelectFails => s.worker.Selecting?
    case ReadWake => s.worker.Scan? && s.worker.wakeReady
    case TestCmd => s.worker.WakeRead?
    case ReadServer(_) => s.worker.Scan? && s.worker.serverReady
    case ScanEnds => s.worker.Scan? && !s.worker.wakeReady && !s.worker.serverReady
    case CloseFd => s.worker.Closing?
  }

  /** Leaving the session loop: SnapcastComm has no is_open to clear. */
  function Leave(c: Config): WorkerPC {
    if c.Lightning? then Leaving else Closing
  }

  function WorkerStep(c: Config, s: State, e: WorkerEvent): State
    requires WorkerCan(c, s, e)
  {
    match e
    case TakeMutex => s.(mutex := Worker, worker := Dispatch)
    case Switch =>
      (match s.cmd
       case OPEN => s.(mutex := Free, worker := Connect)
       case CLOSE => FinishCmd(s)
       case NONE => if s.ready then s.(ready := false) else s.(mutex := Free, worker := Waiting(false))
       case EXIT => FinishCmd(s).(mutex := Free, worker := Gone))
    case WorkerWakes(_) => s.(mutex := Worker, worker := Predicate)
    case TestReady => if s.ready then s.(ready := false, worker := Dispatch) else s.(mutex := Free, worker := Waiting(false))
    case TryConnect(ok) =>
      if !ok then s.(worker := Refused)
      else s.(live := true, worker := if c.Lightning? then Connected else Announce)
    case SetIsOpen =>
      s.(isOpen := s.worker.Connected?,
         worker := if s.worker.Connected? then Announce else if s.worker.Refused? then GiveUp else Closing)
    case FinishLocked => FinishCmd(s).(worker := if s.worker.Announce? then LoopTest else Outside)
    case TestLoop => s.(worker := if s.cmd == NONE then Selecting else Leave(c))
    case SelectReturns(wakeReady, serverReady) => s.(worker := Scan(wakeReady, serverReady))
    case SelectTimesOut(alive) => s.(worker := if alive then LoopTest else Leave(c))
    case SelectFails => s.(worker := Leave(c))
    case ReadWake => s.(wake := false, worker := WakeRead(s.worker.serverReady))
    case TestCmd => s.(worker := if s.cmd != NONE then LoopTest else Scan(false, s.worker.serverStillReady))
    case ReadServer(ok) => s.(worker := if ok then Scan(s.worker.wakeReady, false) else Leave(c))
    case ScanEnds => s.(worker := LoopTest)
    case CloseFd => s.(live := false, worker := Outside)
  }

  predicate CallerCan(c: Config, s: State, e: CallerEvent) {
    match e
    case Call(op) => s.caller.Idle? && op != NONE
    case GetIsOpen => s.caller.CheckOpen? && s.mutex.Free?
    case SetFields => s.caller.Prepare? && s.mutex.Free?
    case NotifyOne(target) => s.caller.Notify? && CanReach(s, target)
    case WakeUp => s.caller.WriteWake?
    case TestDone => s.caller.Test?
    case CallerWakes(spurious) => s.caller.Blocked? && (s.syncNotified || spurious) && s.mutex.Free?
    case TestSync => s.caller.Recheck?
    case Return => s.caller.Finish?
  }

  function CallerStep(c: Config, s: State, e: CallerEvent): State
    requires CallerCan(c, s, e)
  {
    match e
    case Call(op) => s.(caller := if c.Lightning? && op != CLOSE then CheckOpen(op) else Prepare(op, op))
    case GetIsOpen => s.(caller := Prepare(if s.isOpen then CLOSE else s.caller.goal, s.caller.goal))
    case SetFields =>
      s.(mutex := Caller, cmd := s.caller.op, ready := true, readySync := false,
         isOpen := s.isOpen && !(c.Lightning? && s.caller.op == OPEN), caller := Notify(s.caller.op, s.caller.goal))
    case NotifyOne(target) =>
      var op, goal := s.caller.op, s.caller.goal;
      var s' := Notified(s, target);
      if op == EXIT then s'.(mutex := Free, caller := Idle)
      else s'.(caller := if op == CLOSE then WriteWake(op, goal) else Test(op, goal))
    case WakeUp => s.(wake := true, caller := Test(s.caller.op, s.caller.goal))
    case TestDone =>
      var op, goal := s.caller.op, s.caller.goal;
      if s.cmd == NONE then s.(caller := Finish(op, goal))
      else if s.readySync then s
      else s.(mutex := Free, syncNotified := false, caller := Blocked(op, goal))
    case CallerWakes(_) => s.(mutex := Caller, caller := Recheck(s.caller.op, s.caller.goal))
    case TestSync =>
      var op, goal := s.caller.op, s.caller.goal;
      if s.readySync then s.(caller := Test(op, goal)) else s.(mutex := Free, syncNotified := false, caller := Blocked(op, goal))
    case Return =>
      s.(mutex := Free, isOpen := s.isOpen && !(c.Lightning? && s.caller.op == CLOSE),
         caller := if s.caller.goal == s.caller.op then Idle else Prepare(s.caller.goal, s.caller.goal))
  }

  /** processSend answers true once the socket exists, connected or not; a reply is read in doRead, by the worker. */
  predicate OtherCan(c: Config, s: State, e: OtherEvent) {
    c.Snapcast? &&
    match e
    case OtherSends => s.live || s.worker.Connect?
    case OtherWaits => s.senders > 0 && s.mutex.Free?
    case OtherWakes(spurious) => s.mutex.Free? && if spurious then s.waiters > s.awakened else s.waiters >= s.awakened > 0
    case ReplySignals => s.worker.Scan? && s.worker.serverReady && s.mutex.Free?
    case ReplyNotifies(target) => s.worker.Scan? && s.worker.serverReady && CanReach(s, target)
  }

  function OtherStep(c: Config, s: State, e: OtherEvent): State
    requires OtherCan(c, s, e)
  {
    match e
    case OtherSends => s.(senders := s.senders + 1)
    case OtherWaits =>
      if s.pending then s.(pending := false, senders := s.senders - 1)
      else s.(senders := s.senders - 1, waiters := s.waiters + 1)
    case OtherWakes(spurious) =>
      var s' := if spurious then s else s.(awakened := s.awakened - 1);
      if s.pending then s'.(pending := false, waiters := s.waiters - 1) else s'
    case ReplySignals => s.(pending := true)
    case ReplyNotifies(target) => Notified(s, target)
  }

  predicate Can(c: Config, s: State, e: Event) {
    match e
    case ByWorker(w) => WorkerCan(c, s, w)
    case ByCaller(d) => CallerCan(c, s, d)
    case ByOther(o) => OtherCan(c, s, o)
  }

  function Step(c: Config, s: State, e: Event): State
    requires Can(c, s, e)
  {
    match e
    case ByWorker(w) => WorkerStep(c, s, w)
    case ByCaller(d) => CallerStep(c, s, d)
    case ByOther(o) => OtherStep(c, s, o)
  }

  // ----- Runs -----

  /** The state after a sequence of events, if every one of them is possible. */
  predicate Runs(c: Config, s: State, events: seq<Event>, s': State)
    decreases |events|
  {
    if events == [] then s' == s else Can(c, s, events[0]) && Runs(c, Step(c, s, events[0]), events[1..], s')
  }

  ghost predicate Reachable(c: Config, s: State) {
    exists events :: Runs(c, START, events, s)
  }

  // ----- The invariant -----

  /** The worker is between entering and leaving do_open. */
  predicate InOpen(pc: WorkerPC) {
    pc.Connect? || pc.Connected? || pc.Refused? || pc.Announce? || pc.GiveUp? || InLoop(pc) || pc.Leaving? || pc.Closing?
  }

  /** The session loop. */
  predicate InLoop(pc: WorkerPC) {
    pc.LoopTest? || pc.Selecting? || pc.Scan? || pc.WakeRead?
  }

  /** In do_open, before the command is reported as done. */
  predicate Opening(pc: WorkerPC) {
    pc.Connect? || pc.Connected? || pc.Refused? || pc.Announce? || pc.GiveUp?
  }

  /** The fields are set and the caller has not yet seen them cleared. */
  predicate Pending(pc: CallerPC) {
    pc.Notify? || pc.WriteWake? || pc.Test? || pc.Blocked? || pc.Recheck?
  }

  predicate MutexOk(s: State) {
    && (s.mutex.Worker? <==> s.worker.Dispatch? || s.worker.Predicate?)
    && (s.mutex.Caller? <==> s.caller.Notify? || s.caller.WriteWake? || s.caller.Test? || s.caller.Recheck? || s.caller.Finish?)
    && s.awakened <= s.waiters
  }

  /** server_fd is open exactly between a successful connect and the close. */
  predicate LiveOk(s: State) {
    s.live <==> s.worker.Connected? || s.worker.Announce? || InLoop(s.worker) || s.worker.Leaving? || s.worker.Closing?
  }

  /** While do_open is connecting, its OPEN is still there and the caller waits for it. */
  predicate OpeningOk(s: State) {
    Opening(s.worker) ==> s.cmd == OPEN && (s.caller.Blocked? || s.caller.Recheck? || s.caller.Test?) && s.caller.op == OPEN
  }

  predicate CommandsOk(s: State) {
    && (Pending(s.caller) || s.caller.Finish? || s.caller.Prepare? ==>
          s.caller.op != NONE && s.caller.goal != NONE && (s.caller.op == s.caller.goal || s.caller.op == CLOSE))
    && (s.caller.CheckOpen? ==> s.caller.goal == OPEN || s.caller.goal == EXIT)
    && (s.caller.WriteWake? ==> s.caller.op == CLOSE)
    && ((s.caller.Test? || s.caller.Blocked? || s.caller.Recheck? || s.caller.Finish?) ==> s.caller.op != EXIT)
  }

  /** A waiting caller sees either its command pending with ready_sync false, or NONE with ready_sync true. */
  predicate WaitOk(s: State) {
    && (Pending(s.caller) ==> (s.cmd == s.caller.op && !s.readySync) || (s.cmd == NONE && s.readySync))
    && (s.caller.Notify? || s.caller.WriteWake? ==> s.cmd == s.caller.op)
    && (s.caller.Finish? ==> s.cmd == NONE)
    && (s.caller.Blocked? && !s.syncNotified ==> s.cmd == s.caller.op)
    && (s.caller.Idle? || s.caller.CheckOpen? || s.caller.Prepare? ==> s.cmd == NONE || s.cmd == EXIT)
  }

  /** Once CLOSE is done no session is live. */
  predicate CloseOk(s: State) {
    (Pending(s.caller) || s.caller.Finish?) && s.caller.op == CLOSE && s.cmd == NONE ==> !InOpen(s.worker)
  }

  /** A worker blocked in handle with a command pending has ready set. */
  predicate ReadyOk(s: State) {
    (s.worker.Waiting? || s.worker.Predicate?) && s.cmd != NONE ==> s.ready
  }

  predicate Safe(s: State) {
    MutexOk(s) && LiveOk(s) && OpeningOk(s) && CommandsOk(s) && WaitOk(s) && CloseOk(s) && ReadyOk(s)
  }

  /**
    * The worker will come to a command that has been set: if it sleeps, it has been notified or is just about to be; if
    * it is in select, wake_fd is readable or is just about to be.
    */
  predicate Clear(s: State) {
    && (s.worker == Waiting(false) && s.ready ==> s.caller.Notify?)
    && (s.worker.Selecting? && s.cmd != NONE ==> s.wake || (s.cmd == CLOSE && (s.caller.Notify? || s.caller.WriteWake?)))
  }

  /** What LightningCastClient keeps besides, because only its Open and Exit look at is_open first and only it has cond to itself. */
  predicate LightningOk(s: State) {
    && s.waiters == 0
    && (s.worker.Announce? || InLoop(s.worker) ==> s.isOpen)
    && (s.caller.Prepare? && s.caller.op != CLOSE ==> !Opening(s.worker) && !InLoop(s.worker))
    && (InLoop(s.worker) && s.cmd != NONE ==> s.cmd == CLOSE && Pending(s.caller))
    && Clear(s)
  }

  predicate Inv(c: Config, s: State) {
    Safe(s) && (c.Lightning? ==> LightningOk(s))
  }

  lemma StartIsSafe(c: Config)
    ensures Inv(c, START)
  {
  }

  // Every step keeps the invariant, one lemma for each kind of step.

  lemma TakeMutexKeeps(c: Config, s: State)
    requires WorkerCan(c, s, TakeMutex) && Inv(c, s)
    ensures Inv(c, WorkerStep(c, s, TakeMutex))
  {
  }

  lemma SwitchToOpenKeeps(c: Config, s: State)
    requires WorkerCan(c, s, Switch) && Inv(c, s) && s.cmd == OPEN
    ensures Inv(c, WorkerStep(c, s, Switch))
  {
  }

  lemma SwitchToCloseKeeps(c: Config, s: State)
    requires WorkerCan(c, s, Switch) && Inv(c, s) && s.cmd == CLOSE
    ensures Inv(c, WorkerStep(c, s, Switch))
  {
  }

  lemma SwitchToWaitKeeps(c: Config, s: State)
    requires WorkerCan(c, s, Switch) && Inv(c, s) && s.cmd == NONE
    ensures Inv(c, WorkerStep(c, s, Switch))
  {
  }

  lemma SwitchToExitKeeps(c: Config, s: State)
    requires WorkerCan(c, s, Switch) && Inv(c, s) && s.cmd == EXIT
    ensures Inv(c, WorkerStep(c, s, Switch))
  {
  }

  lemma SwitchKeeps(c: Config, s: State)
    requires WorkerCan(c, s, Switch) && Inv(c, s)
    ensures Inv(c, WorkerStep(c, s, Switch))
  {
    hide *;
    match s.cmd
    case OPEN => SwitchToOpenKeeps(c, s);
    case CLOSE => SwitchToCloseKeeps(c, s);
    case NONE => SwitchToWaitKeeps(c, s);
    case EXIT => SwitchToExitKeeps(c, s);
  }

  lemma WorkerWakesKeeps(c: Config, s: State, spurious: bool)
    requires WorkerCan(c, s, WorkerWakes(spurious)) && Inv(c, s)
    ensures Inv(c, WorkerStep(c, s, WorkerWakes(spurious)))
  {
  }

  lemma TestReadySafe(c: Config, s: State)
    requires WorkerCan(c, s, TestReady) && Safe(s)
    ensures Safe(WorkerStep(c, s, TestReady))
  {
  }

  lemma TestReadyKeeps(c: Config, s: State)
    requires WorkerCan(c, s, TestReady) && Inv(c, s)
    ensures Inv(c, WorkerStep(c, s, TestReady))
  {
    hide Safe;
    TestReadySafe(c, s);
  }

  lemma TryConnectKeeps(c: Config, s: State, ok: bool)
    requires WorkerCan(c, s, TryConnect(ok)) && Inv(c, s)
    ensures Inv(c, WorkerStep(c, s, TryConnect(ok)))
  {
  }

  lemma SetIsOpenKeeps(c: Config, s: State)
    requires WorkerCan(c, s, SetIsOpen) && Inv(c, s)
    ensures Inv(c, WorkerStep(c, s, SetIsOpen))
  {
  }

  lemma FinishLockedKeeps(c: Config, s: State)
    requires WorkerCan(c, s, FinishLocked) && Inv(c, s)
    ensures Inv(c, WorkerStep(c, s, FinishLocked))
  {
  }

  lemma TestLoopKeeps(c: Config, s: State)
    requires WorkerCan(c, s, TestLoop) && Inv(c, s)
    ensures Inv(c, WorkerStep(c, s, TestLoop))
  {
  }

  lemma SelectReturnsKeeps(c: Config, s: State, wakeReady: bool, serverReady: bool)
    requires WorkerCan(c, s, SelectReturns(wakeReady, serverReady)) && Inv(c, s)
    ensures Inv(c, WorkerStep(c, s, SelectReturns(wakeReady, serverReady)))
  {
  }

  lemma SelectTimesOutKeeps(c: Config, s: State, alive: bool)
    requires WorkerCan(c, s, SelectTimesOut(alive)) && Inv(c, s)
    ensures Inv(c, WorkerStep(c, s, SelectTimesOut(alive)))
  {
  }

  lemma SelectFailsKeeps(c: Config, s: State)
    requires WorkerCan(c, s, SelectFails) && Inv(c, s)
    ensures Inv(c, WorkerStep(c, s, SelectFails))
  {
  }

  lemma ReadWakeKeeps(c: Config, s: State)
    requires WorkerCan(c, s, ReadWake) && Inv(c, s)
    ensures Inv(c, WorkerStep(c, s, ReadWake))
  {
  }

  lemma TestCmdKeeps(c: Config, s: State)
    requires WorkerCan(c, s, TestCmd) && Inv(c, s)
    ensures Inv(c, WorkerStep(c, s, TestCmd))
  {
  }

  lemma ReadServerKeeps(c: Config, s: State, ok: bool)
    requires WorkerCan(c, s, ReadServer(ok)) && Inv(c, s)
    ensures Inv(c, WorkerStep(c, s, ReadServer(ok)))
  {
  }

  lemma ScanEndsKeeps(c: Config, s: State)
    requires WorkerCan(c, s, ScanEnds) && Inv(c, s)
    ensures Inv(c, WorkerStep(c, s, ScanEnds))
  {
  }

  lemma CloseFdKeeps(c: Config, s: State)
    requires WorkerCan(c, s, CloseFd) && Inv(c, s)
    ensures Inv(c, WorkerStep(c, s, CloseFd))
  {
  }

  lemma CallKeeps(c: Config, s: State, op: Cmd)
    requires CallerCan(c, s, Call(op)) && Inv(c, s)
    ensures Inv(c, CallerStep(c, s, Call(op)))
  {
  }

  lemma GetIsOpenKeeps(c: Config, s: State)
    requires CallerCan(c, s, GetIsOpen) && Inv(c, s)
    ensures Inv(c, CallerStep(c, s, GetIsOpen))
  {
  }

  lemma SetFieldsKeeps(c: Config, s: State)
    requires CallerCan(c, s, SetFields) && Inv(c, s)
    ensures Inv(c, CallerStep(c, s, SetFields))
  {
  }

  lemma NotifyToWorkerSafe(c: Config, s: State)
    requires CallerCan(c, s, NotifyOne(ToWorker)) && Safe(s)
    ensures Safe(CallerStep(c, s, NotifyOne(ToWorker)))
  {
    match s.caller.op
    case EXIT =>
    case CLOSE =>
    case _ =>
  }

  lemma NotifyToWorkerKeeps(c: Config, s: State)
    requires CallerCan(c, s, NotifyOne(ToWorker)) && Inv(c, s)
    ensures Inv(c, CallerStep(c, s, NotifyOne(ToWorker)))
  {
    NotifyToWorkerSafe(c, s);
    hide Safe;
  }

  lemma NotifyToOtherSafe(c: Config, s: State)
    requires CallerCan(c, s, NotifyOne(ToOther)) && Safe(s)
    ensures Safe(CallerStep(c, s, NotifyOne(ToOther)))
  {
    match s.caller.op
    case EXIT =>
    case CLOSE =>
    case _ =>
  }

  lemma NotifyToOtherKeeps(c: Config, s: State)
    requires CallerCan(c, s, NotifyOne(ToOther)) && Inv(c, s)
    ensures Inv(c, CallerStep(c, s, NotifyOne(ToOther)))
  {
    NotifyToOtherSafe(c, s);
    hide Safe;
  }

  lemma NotifyToNobodyKeeps(c: Config, s: State)
    requires CallerCan(c, s, NotifyOne(ToNobody)) && Inv(c, s)
    ensures Inv(c, CallerStep(c, s, NotifyOne(ToNobody)))
  {
  }

  lemma NotifyOneKeeps(c: Config, s: State, target: Target)
    requires CallerCan(c, s, NotifyOne(target)) && Inv(c, s)
    ensures Inv(c, CallerStep(c, s, NotifyOne(target)))
  {
    hide *;
    match target
    case ToWorker => NotifyToWorkerKeeps(c, s);
    case ToOther => NotifyToOtherKeeps(c, s);
    case ToNobody => NotifyToNobodyKeeps(c, s);
  }

  lemma WakeUpKeeps(c: Config, s: State)
    requires CallerCan(c, s, WakeUp) && Inv(c, s)
    ensures Inv(c, CallerStep(c, s, WakeUp))
  {
  }

  lemma TestDoneKeeps(c: Config, s: State)
    requires CallerCan(c, s, TestDone) && Inv(c, s)
    ensures Inv(c, CallerStep(c, s, TestDone))
  {
  }

  lemma CallerWakesKeeps(c: Config, s: State, spurious: bool)
    requires CallerCan(c, s, CallerWakes(spurious)) && Inv(c, s)
    ensures Inv(c, CallerStep(c, s, CallerWakes(spurious)))
  {
  }

  lemma TestSyncKeeps(c: Config, s: State)
    requires CallerCan(c, s, TestSync) && Inv(c, s)
    ensures Inv(c, CallerStep(c, s, TestSync))
  {
  }

  lemma ReturnKeeps(c: Config, s: State)
    requires CallerCan(c, s, Return) && Inv(c, s)
    ensures Inv(c, CallerStep(c, s, Return))
  {
  }

  lemma OtherSendsKeeps(c: Config, s: State)
    requires OtherCan(c, s, OtherSends) && Inv(c, s)
    ensures Inv(c, OtherStep(c, s, OtherSends))
  {
  }

  lemma OtherWaitsKeeps(c: Config, s: State)
    requires OtherCan(c, s, OtherWaits) && Inv(c, s)
    ensures Inv(c, OtherStep(c, s, OtherWaits))
  {
  }

  lemma OtherWakesKeeps(c: Config, s: State, spurious: bool)
    requires OtherCan(c, s, OtherWakes(spurious)) && Inv(c, s)
    ensures Inv(c, OtherStep(c, s, OtherWakes(spurious)))
  {
  }

  lemma ReplySignalsKeeps(c: Config, s: State)
    requires OtherCan(c, s, ReplySignals) && Inv(c, s)
    ensures Inv(c, OtherStep(c, s, ReplySignals))
  {
  }

  lemma ReplyNotifiesKeeps(c: Config, s: State, target: Target)
    requires OtherCan(c, s, ReplyNotifies(target)) && Inv(c, s)
    ensures Inv(c, OtherStep(c, s, ReplyNotifies(target)))
  {
  }

  lemma WorkerStepKeepsInv(c: Config, s: State, e: WorkerEvent)
    requires WorkerCan(c, s, e) && Inv(c, s)
    ensures Inv(c, WorkerStep(c, s, e))
  {
    hide *;
    match e
    case TakeMutex => TakeMutexKeeps(c, s);
    case Switch => SwitchKeeps(c, s);
    case WorkerWakes(spurious) => WorkerWakesKeeps(c, s, spurious);
    case TestReady => TestReadyKeeps(c, s);
    case TryConnect(ok) => TryConnectKeeps(c, s, ok);
    case SetIsOpen => SetIsOpenKeeps(c, s);
    case FinishLocked => FinishLockedKeeps(c, s);
    case TestLoop => TestLoopKeeps(c, s);
    case SelectReturns(wakeReady, serverReady) => SelectReturnsKeeps(c, s, wakeReady, serverReady);
    case SelectTimesOut(alive) => SelectTimesOutKeeps(c, s, alive);
    case SelectFails => SelectFailsKeeps(c, s);
    case ReadWake => ReadWakeKeeps(c, s);
    case TestCmd => TestCmdKeeps(c, s);
    case ReadServer(ok) => ReadServerKeeps(c, s, ok);
    case ScanEnds => ScanEndsKeeps(c, s);
    case CloseFd => CloseFdKeeps(c, s);
  }

  lemma CallerStepKeepsInv(c: Config, s: State, e: CallerEvent)
    requires CallerCan(c, s, e) && Inv(c, s)
    ensures Inv(c, CallerStep(c, s, e))
  {
    hide *;
    match e
    case Call(op) => CallKeeps(c, s, op);
    case GetIsOpen => GetIsOpenKeeps(c, s);
    case SetFields => SetFieldsKeeps(c, s);
    case NotifyOne(target) => NotifyOneKeeps(c, s, target);
    case WakeUp => WakeUpKeeps(c, s);
    case TestDone => TestDoneKeeps(c, s);
    case CallerWakes(spurious) => CallerWakesKeeps(c, s, spurious);
    case TestSync => TestSyncKeeps(c, s);
    case Return => ReturnKeeps(c, s);
  }

  lemma OtherStepKeepsInv(c: Config, s: State, e: OtherEvent)
    requires OtherCan(c, s, e) && Inv(c, s)
    ensures Inv(c, OtherStep(c, s, e))
  {
    hide *;
    match e
    case OtherSends => OtherSendsKeeps(c, s);
    case OtherWaits => OtherWaitsKeeps(c, s);
    case OtherWakes(spurious) => OtherWakesKeeps(c, s, spurious);
    case ReplySignals => ReplySignalsKeeps(c, s);
    case ReplyNotifies(target) => ReplyNotifiesKeeps(c, s, target);
  }

  /** Every step of either instance keeps the invariant. */
  lemma StepKeepsInv(c: Config, s: State, e: Event)
    requires Can(c, s, e) && Inv(c, s)
    ensures Inv(c, Step(c, s, e))
  {
    hide Inv, WorkerStep, CallerStep, OtherStep, WorkerCan, CallerCan, OtherCan;
    match e
    case ByWorker(w) => WorkerStepKeepsInv(c, s, w);
    case ByCaller(d) => CallerStepKeepsInv(c, s, d);
    case ByOther(o) => OtherStepKeepsInv(c, s, o);
  }

  /** Every state of a run is safe. */
  lemma {:induction false} RunKeepsInv(c: Config, s: State, events: seq<Event>, s': State)
    requires Runs(c, s, events, s') && Inv(c, s)
    ensures Inv(c, s')
    decreases |events|
  {
    hide Inv, Can, Step;
    if events != [] {
      StepKeepsInv(c, s, events[0]);
      RunKeepsInv(c, Step(c, s, events[0]), events[1..], s');
    }
  }

  /** Safety of both instances, in every reachable state. */
  lemma ReachableIsSafe(c: Config, s: State)
    requires Reachable(c, s)
    ensures s.worker.Waiting? && s.cmd != NONE ==> s.ready
    ensures s.caller.Blocked? ==> (s.cmd == s.caller.op && !s.readySync) || (s.cmd == NONE && s.readySync)
    ensures s.caller.Blocked? && s.cmd == NONE ==> s.syncNotified
    ensures !InOpen(s.worker) ==> !s.live
    ensures s.caller.Finish? && s.caller.op == CLOSE ==> !s.live && !InOpen(s.worker)
    ensures Inv(c, s)
  {
    var events :| Runs(c, START, events, s);
    StartIsSafe(c);
    RunKeepsInv(c, START, events, s);
  }

  /**
    * LightningCastClient besides: a sleeping worker with ready set has been notified, or is just about to be; a
    * command that finds a live session is a Close, and wake_fd tells the session about it.
    */
  lemma ReachableLightning(s: State)
    requires Reachable(Lightning, s)
    ensures s.worker == Waiting(false) && s.ready ==> s.caller.Notify?
    ensures InLoop(s.worker) && s.cmd != NONE ==> s.cmd == CLOSE && Pending(s.caller)
    ensures s.worker.Selecting? && s.cmd != NONE ==> s.wake || s.caller.Notify? || s.caller.WriteWake?
    ensures InLoop(s.worker) ==> s.isOpen
  {
    ReachableIsSafe(Lightning, s);
  }

  // ----- The wake token -----

  /** What ends a session from the other side: the server closes or errs, select fails, or the server stays silent. */
  predicate ServerSide(e: Event) {
    e.ByWorker? && (e.w == ReadServer(false) || e.w == SelectTimesOut(false) || e.w.SelectFails?)
  }

  /** A session is left only for a command or for an event of the server's side; wake_fd alone does not end it. */
  lemma SessionEndsBecause(c: Config, s: State, w: WorkerEvent)
    requires WorkerCan(c, s, w) && InLoop(s.worker) && !InLoop(WorkerStep(c, s, w).worker)
    ensures ServerSide(ByWorker(w)) || s.cmd != NONE
  {
    if s.cmd == NONE && !ServerSide(ByWorker(w)) {
      hide *;
      QuietStep(c, s, w);
    }
  }

  /** No command is set, and nothing happens on the server's side. */
  predicate Quiet(events: seq<Event>) {
    forall k :: 0 <= k < |events| ==> !ServerSide(events[k]) && events[k] != ByCaller(SetFields)
  }

  /**
    * Whatever an earlier Close left in wake_fd, a session in which no command arrives and nothing happens on the
    * server's side goes on, however the threads interleave: the token is read and the worker selects again.
    */
  lemma {:induction false} StaleTokenIsHarmless(c: Config, s: State, events: seq<Event>, s': State)
    requires InLoop(s.worker) && s.cmd == NONE && Quiet(events) && Runs(c, s, events, s')
    ensures InLoop(s'.worker) && s'.cmd == NONE && s'.live == s.live
    decreases |events|
  {
    hide Can, Step, InLoop, ServerSide;
    if events != [] {
      SessionGoesOn(c, s, events[0]);
      assert forall k :: 0 <= k < |events[1..]| ==> events[1..][k] == events[k + 1];
      StaleTokenIsHarmless(c, Step(c, s, events[0]), events[1..], s');
    }
  }

  lemma SessionGoesOn(c: Config, s: State, e: Event)
    requires Can(c, s, e) && InLoop(s.worker) && s.cmd == NONE && !ServerSide(e) && e != ByCaller(SetFields)
    ensures var s1 := Step(c, s, e); InLoop(s1.worker) && s1.cmd == NONE && s1.live == s.live
  {
    hide WorkerCan, WorkerStep, CallerCan, CallerStep, OtherCan, OtherStep, InLoop, ServerSide;
    match e
    case ByWorker(w) => QuietStep(c, s, w);
    case ByCaller(d) => LoopIs(s.worker); QuietCaller(c, s, d);
    case ByOther(o) => OthersKeepDistance(c, s, o);
  }

  /** Without setting a command the caller changes nothing for a worker that is not asleep. */
  lemma QuietCaller(c: Config, s: State, d: CallerEvent)
    requires CallerCan(c, s, d) && d != SetFields && s.worker != Waiting(false)
    ensures var s1 := CallerStep(c, s, d); s1.worker == s.worker && s1.cmd == s.cmd && s1.live == s.live
  {
    hide *;
    if d.NotifyOne? {
      QuietNotify(c, s, d.target);
    } else {
      CallerAlone(c, s, d);
    }
  }

  lemma QuietNotify(c: Config, s: State, target: Target)
    requires CallerCan(c, s, NotifyOne(target)) && s.worker != Waiting(false)
    ensures var s1 := CallerStep(c, s, NotifyOne(target)); s1.worker == s.worker && s1.cmd == s.cmd && s1.live == s.live
  {
    hide *;
    NotifyStep(c, s, target);
    NotifiedAwake(c, s, target);
  }

  lemma NotifiedAwake(c: Config, s: State, target: Target)
    requires CallerCan(c, s, NotifyOne(target)) && s.worker != Waiting(false)
    ensures var s1 := Notified(s, target); s1.worker == s.worker && s1.cmd == s.cmd && s1.live == s.live
  {
    assert !target.ToWorker?;
  }

  lemma CallerAlone(c: Config, s: State, d: CallerEvent)
    requires CallerCan(c, s, d) && d != SetFields && !d.NotifyOne?
    ensures var s1 := CallerStep(c, s, d); s1.worker == s.worker && s1.cmd == s.cmd && s1.live == s.live
  {
    match d
    case Call(_) =>
    case GetIsOpen =>
    case WakeUp =>
    case TestDone =>
    case CallerWakes(_) =>
    case TestSync =>
    case Return =>
  }

  lemma QuietStep(c: Config, s: State, w: WorkerEvent)
    requires WorkerCan(c, s, w) && InLoop(s.worker) && s.cmd == NONE && !ServerSide(ByWorker(w))
    ensures var s1 := WorkerStep(c, s, w); InLoop(s1.worker) && s1.cmd == NONE && s1.live == s.live
  {
    hide *;
    LoopIs(s.worker);
    if s.worker.LoopTest? || s.worker.Selecting? {
      QuietSelect(c, s, w);
    } else {
      QuietScan(c, s, w);
    }
  }

  lemma LoopIs(pc: WorkerPC)
    ensures InLoop(pc) <==> pc.LoopTest? || pc.Selecting? || pc.Scan? || pc.WakeRead?
  {
  }

  lemma QuietSelect(c: Config, s: State, w: WorkerEvent)
    requires WorkerCan(c, s, w) && (s.worker.LoopTest? || s.worker.Selecting?) && s.cmd == NONE && !ServerSide(ByWorker(w))
    ensures var s1 := WorkerStep(c, s, w); InLoop(s1.worker) && s1.cmd == NONE && s1.live == s.live
  {
    match s.worker
    case LoopTest => assert w.TestLoop?;
    case Selecting => assert w.SelectReturns? || w.SelectTimesOut?;
    case _ =>
  }

  lemma QuietScan(c: Config, s: State, w: WorkerEvent)
    requires WorkerCan(c, s, w) && (s.worker.Scan? || s.worker.WakeRead?) && s.cmd == NONE && !ServerSide(ByWorker(w))
    ensures var s1 := WorkerStep(c, s, w); InLoop(s1.worker) && s1.cmd == NONE && s1.live == s.live
  {
    match s.worker
    case Scan(_, _) => assert w.ReadWake? || w.ReadServer? || w.ScanEnds?;
    case WakeRead(_) => assert w.TestCmd?;
    case _ =>
  }

  // ----- Progress -----

  /** How far the worker is at most from reporting a pending command as done. */
  function Distance(pc: WorkerPC): nat {
    match pc
    case Gone => 0
    case Announce => 1
    case GiveUp => 1
    case Connected => 2
    case Refused => 2
    case Connect => 3
    case Dispatch => 4
    case Predicate => 5
    case Outside => 5
    case Waiting(_) => 6
    case Closing => 6
    case Leaving => 7
    case LoopTest => 8
    case WakeRead(_) => 9
    case Scan(wakeReady, serverReady) => 10 + (if wakeReady then 1 else 0) + if serverReady then 1 else 0
    case Selecting => 13
  }

  /** The caller is in the wait of Open or Close, its command is not done, and the worker has not left handle. */
  predicate Awaiting(s: State) {
    (s.caller.Blocked? || s.caller.Recheck?) && s.cmd != NONE && !s.worker.Gone?
  }

  /** Exit has been called, the worker has not left handle, and the caller has not set another command since. */
  predicate Exiting(s: State) {
    (s.caller.Idle? || s.caller.CheckOpen? || s.caller.Prepare?) && s.cmd == EXIT && !s.worker.Gone?
  }

  /** The worker still has a command to serve. */
  predicate Owed(s: State) {
    Awaiting(s) || Exiting(s)
  }

  /** The step the worker takes next when nothing comes from outside. */
  function NextMove(s: State): WorkerEvent {
    match s.worker
    case Outside => TakeMutex
    case Dispatch => Switch
    case Waiting(_) => WorkerWakes(false)
    case Predicate => TestReady
    case Connect => TryConnect(true)
    case Connected => SetIsOpen
    case Refused => SetIsOpen
    case Announce => FinishLocked
    case GiveUp => FinishLocked
    case LoopTest => TestLoop
    case Selecting => SelectReturns(true, false)
    case Scan(wakeReady, serverReady) => if wakeReady then ReadWake else if serverReady then ReadServer(true) else ScanEnds
    case WakeRead(_) => TestCmd
    case Leaving => SetIsOpen
    case Closing => CloseFd
    case Gone => TakeMutex
  }

  /**
    * While a command is to be served, and the caller does not hold the mutex for a test of its own, the worker's next
    * step is possible, without spurious wake-ups or timeouts, exactly in the clear states.
    */
  lemma WorkerCanMove(c: Config, s: State)
    requires Inv(c, s) && Owed(s) && !s.caller.Recheck?
    ensures WorkerCan(c, s, NextMove(s)) <==> Clear(s)
  {
  }

  /** Steps inside the session loop, once a command is there. */
  lemma SelectGetsNearer(c: Config, s: State, w: WorkerEvent)
    requires (s.worker.LoopTest? || s.worker.Selecting?) && s.cmd != NONE && WorkerCan(c, s, w)
    ensures var s1 := WorkerStep(c, s, w); s1.cmd == s.cmd && Distance(s1.worker) < Distance(s.worker)
  {
    match s.worker
    case LoopTest => assert w.TestLoop?;
    case Selecting => assert w.SelectReturns? || w.SelectTimesOut? || w.SelectFails?;
    case _ =>
  }

  lemma ScanGetsNearer(c: Config, s: State, w: WorkerEvent)
    requires (s.worker.Scan? || s.worker.WakeRead?) && s.cmd != NONE && WorkerCan(c, s, w)
    ensures var s1 := WorkerStep(c, s, w); s1.cmd == s.cmd && Distance(s1.worker) < Distance(s.worker)
  {
    hide *;
    if s.worker.Scan? {
      ReadyGetsNearer(c, s, w);
    } else {
      WakeGetsNearer(c, s, w);
    }
  }

  lemma ReadyGetsNearer(c: Config, s: State, w: WorkerEvent)
    requires s.worker.Scan? && WorkerCan(c, s, w)
    ensures var s1 := WorkerStep(c, s, w); s1.cmd == s.cmd && Distance(s1.worker) < Distance(s.worker)
  {
    assert w.ReadWake? || w.ReadServer? || w.ScanEnds?;
  }

  lemma WakeGetsNearer(c: Config, s: State, w: WorkerEvent)
    requires s.worker.WakeRead? && s.cmd != NONE && WorkerCan(c, s, w)
    ensures var s1 := WorkerStep(c, s, w); s1.cmd == s.cmd && Distance(s1.worker) < Distance(s.worker)
  {
    assert w.TestCmd?;
  }

  /** Steps that take or test the command itself. */
  lemma SwitchGetsNearer(c: Config, s: State, w: WorkerEvent)
    requires s.worker.Dispatch? || s.worker.Predicate? || s.worker.Announce? || s.worker.GiveUp?
    requires MutexOk(s) && ReadyOk(s) && Awaiting(s) && WorkerCan(c, s, w)
    ensures var s1 := WorkerStep(c, s, w);
      (s1.cmd == NONE && s1.readySync && s1.caller.Blocked? && s1.syncNotified) || (s1.cmd == s.cmd && Distance(s1.worker) < Distance(s.worker))
  {
    match s.worker
    case Dispatch => assert w.Switch?;
    case Predicate => assert w.TestReady?;
    case Announce => assert w.FinishLocked?;
    case GiveUp => assert w.FinishLocked?;
    case _ =>
  }

  lemma OpenGetsNearer(c: Config, s: State, w: WorkerEvent)
    requires (s.worker.Connect? || s.worker.Connected? || s.worker.Refused?) && WorkerCan(c, s, w)
    ensures var s1 := WorkerStep(c, s, w); s1.cmd == s.cmd && Distance(s1.worker) < Distance(s.worker)
  {
    match s.worker
    case Connect => assert w.TryConnect?;
    case Connected => assert w.SetIsOpen?;
    case Refused => assert w.SetIsOpen?;
    case _ =>
  }

  lemma ReturnGetsNearer(c: Config, s: State, w: WorkerEvent)
    requires (s.worker.Outside? || s.worker.Waiting? || s.worker.Leaving? || s.worker.Closing?) && WorkerCan(c, s, w)
    ensures var s1 := WorkerStep(c, s, w); s1.cmd == s.cmd && Distance(s1.worker) < Distance(s.worker)
  {
    match s.worker
    case Outside => assert w.TakeMutex?;
    case Waiting(_) => assert w.WorkerWakes?;
    case Leaving => assert w.SetIsOpen?;
    case Closing => assert w.CloseFd?;
    case _ =>
  }

  /** Every step the worker can take brings it nearer, or the command is done and the caller notified. */
  lemma WorkerGetsNearer(c: Config, s: State, w: WorkerEvent)
    requires Inv(c, s) && Awaiting(s) && WorkerCan(c, s, w)
    ensures var s1 := WorkerStep(c, s, w);
      (s1.cmd == NONE && s1.readySync && s1.caller.Blocked? && s1.syncNotified) || (s1.cmd == s.cmd && Distance(s1.worker) < Distance(s.worker))
  {
    hide *;
    InvMeans(c, s);
    match s.worker
    case LoopTest => SelectGetsNearer(c, s, w);
    case Selecting => SelectGetsNearer(c, s, w);
    case Scan(_, _) => ScanGetsNearer(c, s, w);
    case WakeRead(_) => ScanGetsNearer(c, s, w);
    case Connect => OpenGetsNearer(c, s, w);
    case Connected => OpenGetsNearer(c, s, w);
    case Refused => OpenGetsNearer(c, s, w);
    case Outside => ReturnGetsNearer(c, s, w);
    case Waiting(_) => ReturnGetsNearer(c, s, w);
    case Leaving => ReturnGetsNearer(c, s, w);
    case Closing => ReturnGetsNearer(c, s, w);
    case Gone =>
    case _ => SwitchGetsNearer(c, s, w);
  }

  lemma SwitchExits(c: Config, s: State, w: WorkerEvent)
    requires s.worker.Dispatch? || s.worker.Predicate?
    requires ReadyOk(s) && s.cmd == EXIT && WorkerCan(c, s, w)
    ensures var s1 := WorkerStep(c, s, w); s1.worker.Gone? || (s1.cmd == EXIT && Distance(s1.worker) < Distance(s.worker))
  {
    match s.worker
    case Dispatch => assert w.Switch?;
    case Predicate => assert w.TestReady?;
    case _ =>
  }

  /** After Exit every step the worker can take brings it nearer to leaving handle. */
  lemma ExitGetsNearer(c: Config, s: State, w: WorkerEvent)
    requires Inv(c, s) && Exiting(s) && WorkerCan(c, s, w)
    ensures var s1 := WorkerStep(c, s, w); s1.worker.Gone? || (s1.cmd == EXIT && Distance(s1.worker) < Distance(s.worker))
  {
    hide *;
    ExitMeans(c, s);
    match s.worker
    case LoopTest => SelectGetsNearer(c, s, w);
    case Selecting => SelectGetsNearer(c, s, w);
    case Scan(_, _) => ScanGetsNearer(c, s, w);
    case WakeRead(_) => ScanGetsNearer(c, s, w);
    case Dispatch => SwitchExits(c, s, w);
    case Predicate => SwitchExits(c, s, w);
    case _ => ReturnGetsNearer(c, s, w);
  }

  lemma ExitMeans(c: Config, s: State)
    requires Inv(c, s) && Exiting(s)
    ensures ReadyOk(s) && s.cmd == EXIT && !s.worker.Gone?
    ensures !s.worker.Connect? && !s.worker.Connected? && !s.worker.Refused? && !s.worker.Announce? && !s.worker.GiveUp?
  {
  }

  lemma InvMeans(c: Config, s: State)
    requires Inv(c, s)
    ensures MutexOk(s) && ReadyOk(s) && WaitOk(s)
    ensures Awaiting(s) ==> s.cmd != NONE && !s.worker.Gone?
  {
  }

  /** Nobody else can set the worker back. */
  lemma CallerKeepsDistance(c: Config, s: State, d: CallerEvent)
    requires Awaiting(s) && CallerCan(c, s, d)
    ensures var s1 := CallerStep(c, s, d); s1.worker == s.worker && s1.cmd == s.cmd
  {
    match s.caller
    case Blocked(_, _) => assert d.CallerWakes?;
    case Recheck(_, _) => assert d.TestSync?;
    case _ =>
  }

  lemma CallerKeepsExit(c: Config, s: State, d: CallerEvent)
    requires Exiting(s) && CallerCan(c, s, d)
    ensures var s1 := CallerStep(c, s, d); if d == SetFields then !Owed(s1) else s1.worker == s.worker && s1.cmd == s.cmd
  {
    match s.caller
    case Idle => assert d.Call?;
    case CheckOpen(_) => assert d.GetIsOpen?;
    case Prepare(_, _) => assert d.SetFields?;
    case _ =>
  }

  lemma OthersKeepDistance(c: Config, s: State, o: OtherEvent)
    requires OtherCan(c, s, o)
    ensures var s1 := OtherStep(c, s, o); s1.worker == s.worker && s1.caller == s.caller && s1.cmd == s.cmd && s1.live == s.live
  {
    match o
    case ReplyNotifies(target) => assert !target.ToWorker?;
    case _ =>
  }

  function WorkerSteps(events: seq<Event>): nat {
    if events == [] then 0 else (if events[0].ByWorker? then 1 else 0) + WorkerSteps(events[1..])
  }

  /** There is a command to serve all through the run. */
  predicate OwedAll(c: Config, s: State, events: seq<Event>)
    decreases |events|
  {
    Owed(s) && (events != [] ==> Can(c, s, events[0]) && OwedAll(c, Step(c, s, events[0]), events[1..]))
  }

  lemma StepCounts(c: Config, s: State, e: Event)
    requires Inv(c, s) && Owed(s) && Can(c, s, e) && Owed(Step(c, s, e))
    ensures e.ByWorker? ==> Distance(Step(c, s, e).worker) < Distance(s.worker)
    ensures !e.ByWorker? ==> Distance(Step(c, s, e).worker) == Distance(s.worker)
  {
    hide Inv, Owed, WorkerCan, WorkerStep, CallerCan, CallerStep, OtherCan, OtherStep, Distance;
    OwedMeans(s);
    OwedMeans(Step(c, s, e));
    hide Awaiting, Exiting;
    match e
    case ByWorker(w) =>
      if Awaiting(s) {
        WorkerGetsNearer(c, s, w);
      } else {
        ExitGetsNearer(c, s, w);
      }
    case ByCaller(d) =>
      if Awaiting(s) {
        CallerKeepsDistance(c, s, d);
      } else {
        CallerKeepsExit(c, s, d);
      }
    case ByOther(o) => OthersKeepDistance(c, s, o);
  }

  lemma OwedMeans(s: State)
    ensures Owed(s) ==> s.cmd != NONE && !s.worker.Gone? && (Awaiting(s) || Exiting(s))
  {
  }

  /**
    * A waiting Open or Close is served, and after Exit the worker leaves handle, within 13 steps of the worker, whatever
    * the threads' interleaving, the network and spurious wake-ups do.
    */
  lemma {:induction false} ServedInTime(c: Config, s: State, events: seq<Event>)
    requires Inv(c, s) && OwedAll(c, s, events)
    ensures WorkerSteps(events) <= Distance(s.worker) <= 13
    decreases |events|
  {
    hide Inv, Can, Step, Distance, Owed;
    DistanceBound(s.worker);
    if events != [] {
      var s1 := Step(c, s, events[0]);
      StepKeepsInv(c, s, events[0]);
      OwedNow(c, s1, events[1..]);
      ServedInTime(c, s1, events[1..]);
      StepCounts(c, s, events[0]);
    }
  }

  lemma OwedNow(c: Config, s: State, events: seq<Event>)
    requires OwedAll(c, s, events)
    ensures Owed(s)
  {
    hide Owed, Can, Step;
  }

  lemma DistanceBound(pc: WorkerPC)
    ensures Distance(pc) <= 13
  {
  }

  // ----- When the worker comes to its command -----

  /** A sleeping worker is sure to get a caller's notification exactly when no thread in LockWait could get it instead. */
  lemma NotificationArrives(c: Config, s: State)
    requires s.caller.Notify? && s.worker == Waiting(false)
    ensures (forall target :: CallerCan(c, s, NotifyOne(target)) ==> CallerStep(c, s, NotifyOne(target)).worker == Waiting(true))
      <==> s.waiters <= s.awakened
  {
    hide *;
    forall target
      ensures CallerCan(c, s, NotifyOne(target)) <==> CanReach(s, target)
      ensures CallerCan(c, s, NotifyOne(target)) ==> (CallerStep(c, s, NotifyOne(target)).worker == Waiting(true) <==> target == ToWorker)
    {
      NotifyReaches(c, s, target);
    }
    ReachesOther(s);
  }

  lemma NotifyReaches(c: Config, s: State, target: Target)
    requires s.caller.Notify? && s.worker == Waiting(false)
    ensures CallerCan(c, s, NotifyOne(target)) <==> CanReach(s, target)
    ensures CallerCan(c, s, NotifyOne(target)) ==> (CallerStep(c, s, NotifyOne(target)).worker == Waiting(true) <==> target == ToWorker)
  {
    hide CallerStep, CanReach;
    if CanReach(s, target) {
      NotifyReachesTarget(c, s, target);
    }
  }

  lemma NotifyReachesTarget(c: Config, s: State, target: Target)
    requires s.caller.Notify? && s.worker == Waiting(false) && CallerCan(c, s, NotifyOne(target))
    ensures CallerStep(c, s, NotifyOne(target)).worker == Waiting(true) <==> target == ToWorker
  {
    hide CallerStep, CallerCan, CanReach;
    NotifyStep(c, s, target);
  }

  lemma NotifyStep(c: Config, s: State, target: Target)
    requires CallerCan(c, s, NotifyOne(target))
    ensures var s1, s2 := CallerStep(c, s, NotifyOne(target)), Notified(s, target);
      s1.worker == s2.worker && s1.cmd == s2.cmd && s1.live == s2.live
  {
    hide Notified, CanReach;
  }

  lemma ReachesOther(s: State)
    requires s.worker == Waiting(false)
    ensures CanReach(s, ToOther) <==> s.waiters > s.awakened
    ensures !CanReach(s, ToNobody)
  {
  }

  /**
    * The two steps after which the worker need not come to the command: a notification that goes to a thread in LockWait
    * instead of the sleeping worker, and an Open or Exit that finds the worker in select, since neither writes wake_fd.
    */
  predicate Disturbs(s: State, e: Event) {
    || (e == ByCaller(NotifyOne(ToOther)) && s.worker == Waiting(false))
    || (e == ByCaller(SetFields) && s.caller.Prepare? && s.caller.op != CLOSE && s.worker.Selecting? && !s.wake)
  }

  lemma SelectClear(c: Config, s: State, w: WorkerEvent)
    requires (s.worker.LoopTest? || s.worker.Selecting?) && WorkerCan(c, s, w)
    ensures Clear(WorkerStep(c, s, w))
  {
    match s.worker
    case LoopTest => assert w.TestLoop?;
    case Selecting => assert w.SelectReturns? || w.SelectTimesOut? || w.SelectFails?;
    case _ =>
  }

  lemma ScanClear(c: Config, s: State, w: WorkerEvent)
    requires (s.worker.Scan? || s.worker.WakeRead?) && WorkerCan(c, s, w)
    ensures Clear(WorkerStep(c, s, w))
  {
    match s.worker
    case Scan(_, _) => assert w.ReadWake? || w.ReadServer? || w.ScanEnds?;
    case WakeRead(_) => assert w.TestCmd?;
    case _ =>
  }

  lemma SwitchClear(c: Config, s: State, w: WorkerEvent)
    requires (s.worker.Dispatch? || s.worker.Predicate?) && WorkerCan(c, s, w)
    ensures Clear(WorkerStep(c, s, w))
  {
    match s.worker
    case Dispatch => assert w.Switch?;
    case Predicate => assert w.TestReady?;
    case _ =>
  }

  lemma FinishClear(c: Config, s: State, w: WorkerEvent)
    requires (s.worker.Announce? || s.worker.GiveUp? || s.worker.Connect? || s.worker.Connected? || s.worker.Refused?) && WorkerCan(c, s, w)
    ensures Clear(WorkerStep(c, s, w))
  {
    match s.worker
    case Announce => assert w.FinishLocked?;
    case GiveUp => assert w.FinishLocked?;
    case Connect => assert w.TryConnect?;
    case Connected => assert w.SetIsOpen?;
    case Refused => assert w.SetIsOpen?;
    case _ =>
  }

  lemma ReturnClear(c: Config, s: State, w: WorkerEvent)
    requires (s.worker.Outside? || s.worker.Waiting? || s.worker.Leaving? || s.worker.Closing?) && WorkerCan(c, s, w)
    ensures Clear(WorkerStep(c, s, w))
  {
    match s.worker
    case Outside => assert w.TakeMutex?;
    case Waiting(_) => assert w.WorkerWakes?;
    case Leaving => assert w.SetIsOpen?;
    case Closing => assert w.CloseFd?;
    case _ =>
  }

  lemma GoneStays(c: Config, s: State, w: WorkerEvent)
    requires s.worker.Gone?
    ensures !WorkerCan(c, s, w)
  {
  }

  /** The worker goes to sleep only with ready cleared, and into select only without a command. */
  lemma WorkerStaysClear(c: Config, s: State, w: WorkerEvent)
    requires WorkerCan(c, s, w)
    ensures Clear(WorkerStep(c, s, w))
  {
    hide *;
    match s.worker
    case LoopTest => SelectClear(c, s, w);
    case Selecting => SelectClear(c, s, w);
    case Scan(_, _) => ScanClear(c, s, w);
    case WakeRead(_) => ScanClear(c, s, w);
    case Dispatch => SwitchClear(c, s, w);
    case Predicate => SwitchClear(c, s, w);
    case Outside => ReturnClear(c, s, w);
    case Waiting(_) => ReturnClear(c, s, w);
    case Leaving => ReturnClear(c, s, w);
    case Closing => ReturnClear(c, s, w);
    case Gone => GoneStays(c, s, w);
    case _ => FinishClear(c, s, w);
  }

  lemma OtherStaysClear(c: Config, s: State, o: OtherEvent)
    requires OtherCan(c, s, o) && Clear(s)
    ensures Clear(OtherStep(c, s, o))
  {
    match o
    case ReplyNotifies(target) => assert !target.ToWorker?;
    case _ =>
  }

  lemma SetFieldsClear(c: Config, s: State)
    requires CallerCan(c, s, SetFields) && Inv(c, s) && Clear(s)
    ensures Clear(CallerStep(c, s, SetFields)) <==> !Disturbs(s, ByCaller(SetFields))
  {
  }

  lemma NotifyOneClear(c: Config, s: State, target: Target)
    requires CallerCan(c, s, NotifyOne(target)) && Inv(c, s) && Clear(s)
    ensures Clear(CallerStep(c, s, NotifyOne(target))) <==> !Disturbs(s, ByCaller(NotifyOne(target)))
  {
    match target
    case ToWorker =>
    case ToOther =>
    case ToNobody =>
  }

  lemma CallerStaysClear(c: Config, s: State, d: CallerEvent)
    requires CallerCan(c, s, d) && Clear(s) && !d.SetFields? && !d.NotifyOne?
    ensures Clear(CallerStep(c, s, d))
  {
  }

  /** Exactly those two steps lead out of the clear states, in either instance. */
  lemma ClearUnlessDisturbed(c: Config, s: State, e: Event)
    requires Can(c, s, e) && Inv(c, s) && Clear(s)
    ensures Clear(Step(c, s, e)) <==> !Disturbs(s, e)
  {
    hide Inv, Clear, WorkerStep, CallerStep, OtherStep, WorkerCan, CallerCan, OtherCan;
    match e
    case ByWorker(w) => WorkerStaysClear(c, s, w);
    case ByOther(o) => OtherStaysClear(c, s, o);
    case ByCaller(SetFields) => SetFieldsClear(c, s);
    case ByCaller(NotifyOne(target)) => NotifyOneClear(c, s, target);
    case ByCaller(d) => CallerStaysClear(c, s, d);
  }

  /** Neither is possible in LightningCastClient. */
  lemma LightningUndisturbed(s: State, e: Event)
    requires Can(Lightning, s, e) && Inv(Lightning, s)
    ensures Clear(s) && !Disturbs(s, e)
  {
  }

  /** In SnapcastComm an Open is undisturbed if no thread is left in LockWait and no session is live. */
  lemma SnapcastUndisturbed(s: State, e: Event)
    requires Can(Snapcast, s, e) && Inv(Snapcast, s) && s.waiters <= s.awakened
    requires e == ByCaller(SetFields) && s.caller.Prepare? && s.caller.op == OPEN ==> !s.live
    requires e == ByCaller(SetFields) && s.caller.Prepare? ==> s.caller.op != EXIT
    ensures !Disturbs(s, e)
  {
  }

  predicate Undisturbed(c: Config, s: State, events: seq<Event>)
    decreases |events|
  {
    events != [] ==>
      Can(c, s, events[0]) && !Disturbs(s, events[0]) && Undisturbed(c, Step(c, s, events[0]), events[1..])
  }

  /** A run without them stays clear, so that the worker can always move on while there is a command to serve. */
  lemma {:induction false} UndisturbedIsClear(c: Config, s: State, events: seq<Event>, s': State)
    requires Inv(c, s) && Clear(s) && Runs(c, s, events, s') && Undisturbed(c, s, events)
    ensures Inv(c, s') && Clear(s')
    ensures Owed(s') && !s'.caller.Recheck? ==> WorkerCan(c, s', NextMove(s'))
    decreases |events|
  {
    hide Inv, Clear, Can, Step, Disturbs, Owed, WorkerCan, NextMove;
    if events == [] {
      if Owed(s) && !s.caller.Recheck? {
        WorkerCanMove(c, s);
      }
    } else {
      StepKeepsInv(c, s, events[0]);
      ClearUnlessDisturbed(c, s, events[0]);
      UndisturbedIsClear(c, Step(c, s, events[0]), events[1..], s');
    }
  }

  /** Both steps are taken before the command is there to be served: one that was set and notified in a clear state is served. */
  lemma {:induction false} ServedOnceClear(c: Config, s: State, events: seq<Event>, s': State)
    requires Inv(c, s) && Clear(s) && Runs(c, s, events, s') && OwedAll(c, s, events)
    ensures WorkerSteps(events) <= 13
    ensures !s'.caller.Recheck? ==> WorkerCan(c, s', NextMove(s'))
    decreases |events|
  {
    hide Inv, Clear, Can, Step, WorkerCan, NextMove, Distance, Owed;
    ServedInTime(c, s, events);
    OwedUndisturbed(c, s, events, s');
    UndisturbedIsClear(c, s, events, s');
  }

  lemma {:induction false} OwedUndisturbed(c: Config, s: State, events: seq<Event>, s': State)
    requires OwedAll(c, s, events) && Runs(c, s, events, s')
    ensures Undisturbed(c, s, events) && Owed(s')
    decreases |events|
  {
    hide Can, Step, Owed, Disturbs;
    if events != [] {
      OwedNow(c, Step(c, s, events[0]), events[1..]);
      ServingDisturbsNothing(c, s, events[0]);
      OwedUndisturbed(c, Step(c, s, events[0]), events[1..], s');
    }
  }

  lemma ServingDisturbsNothing(c: Config, s: State, e: Event)
    requires Owed(s) && Can(c, s, e) && Owed(Step(c, s, e))
    ensures !Disturbs(s, e)
  {
    if e == ByCaller(SetFields) {
      CallerKeepsExit(c, s, SetFields);
    }
  }

  // ----- SnapcastComm shares cond -----

  /** The caller waits for its command, and the worker sleeps without having been notified of it. */
  predicate Overslept(s: State) {
    Awaiting(s) && s.worker == Waiting(false)
  }

  /** Only a spurious wake-up helps then: whatever else happens, nobody notifies the worker again. */
  lemma OversleptStays(c: Config, s: State, e: Event)
    requires Inv(c, s) && Overslept(s) && Can(c, s, e) && e != ByWorker(WorkerWakes(true))
    ensures Overslept(Step(c, s, e))
  {
    hide Inv, WorkerCan, WorkerStep, CallerCan, CallerStep, OtherCan, OtherStep;
    match e
    case ByWorker(w) => OnlyWakes(c, s, w);
    case ByCaller(d) => InvMeans(c, s); CallerGoesOnWaiting(c, s, d);
    case ByOther(o) => OthersKeepDistance(c, s, o);
  }

  lemma OnlyWakes(c: Config, s: State, w: WorkerEvent)
    requires WorkerCan(c, s, w) && s.worker == Waiting(false)
    ensures w == WorkerWakes(true)
  {
  }

  lemma CallerGoesOnWaiting(c: Config, s: State, d: CallerEvent)
    requires CallerCan(c, s, d) && WaitOk(s) && Awaiting(s)
    ensures Awaiting(CallerStep(c, s, d)) && CallerStep(c, s, d).worker == s.worker
  {
    match s.caller
    case Blocked(_, _) => assert d.CallerWakes?;
    case Recheck(_, _) => assert d.TestSync?;
    case _ =>
  }

  /**
    * For SnapcastComm this happens: the session in which a thread sent its command ends before the reply, the thread
    * waits in LockWait, and the only notification of the next Open goes to it.
    */
  lemma NotificationCanGetLost()
    ensures Reachable(Snapcast, LOST_STATE)
    ensures LOST_STATE.worker == Waiting(false) && LOST_STATE.caller.Blocked? && LOST_STATE.cmd == OPEN && LOST_STATE.ready
    ensures forall w :: WorkerCan(Snapcast, LOST_STATE, w) ==> w == WorkerWakes(true)
    ensures forall d :: CallerCan(Snapcast, LOST_STATE, d) ==> d == CallerWakes(true)
  {
    LostAfterSession();
  }

  /** A session is live, and the caller has returned from Open. */
  const IN_SESSION := START.(worker := Selecting, ready := true, readySync := true, syncNotified := true, live := true)

  /** The session is over, and a thread that sent in it waits. */
  const LEFT_WAITING := START.(worker := Waiting(false), readySync := true, syncNotified := true, waiters := 1)

  const LOST_STATE := START.(worker := Waiting(false), caller := Blocked(OPEN, OPEN), cmd := OPEN, ready := true, waiters := 1)

  lemma LostAfterSession()
    ensures Reachable(Snapcast, LOST_STATE)
  {
    SessionEnds();
    var s := OpenWaits(LEFT_WAITING, ToOther);
    s := Then(s, ByOther(OtherWakes(false)));
    assert s == LOST_STATE;
  }

  /** The worker goes back to sleep, and only then does the thread that sent its command call LockWait. */
  lemma SessionEnds()
    ensures Reachable(Snapcast, LEFT_WAITING)
  {
    SessionBreaks();
    var asleep := BROKEN.(worker := Waiting(false), ready := false);
    BackToSleep(BROKEN, asleep);
    var s := Then(asleep, ByOther(OtherWaits));
    assert s == LEFT_WAITING;
  }

  lemma BackToSleep(s: State, s': State)
    requires Reachable(Snapcast, s) && s.worker.Outside? && s.mutex.Free? && s.cmd == NONE && s.ready
    requires s' == s.(worker := Waiting(false), ready := false)
    ensures Reachable(Snapcast, s')
  {
    var s1 := s.(mutex := Worker, worker := Dispatch);
    var s2 := s1.(ready := false);
    ThenWorker(s, TakeMutex, s1);
    ThenWorker(s1, Switch, s2);
    ThenWorker(s2, Switch, s');
  }

  const BROKEN := START.(ready := true, readySync := true, syncNotified := true, senders := 1)

  /** A thread sends its command, and the server closes instead of replying. */
  lemma SessionBreaks()
    ensures Reachable(Snapcast, BROKEN)
  {
    SessionBegins();
    var s := Then(IN_SESSION, ByOther(OtherSends));
    ServerCloses(s, BROKEN);
  }

  lemma ServerCloses(s: State, s': State)
    requires Reachable(Snapcast, s) && s.worker.Selecting?
    requires s' == s.(worker := Outside, live := false)
    ensures Reachable(Snapcast, s')
  {
    hide *;
    var s1, s2 := s.(worker := Scan(false, true)), s.(worker := Closing);
    ServerIsReady(s, s1);
    ReadFails(s1, s2);
    FdCloses(s2, s');
  }

  lemma ServerIsReady(s: State, s': State)
    requires Reachable(Snapcast, s) && s.worker.Selecting? && s' == s.(worker := Scan(false, true))
    ensures Reachable(Snapcast, s')
  {
    ThenWorker(s, SelectReturns(false, true), s');
  }

  lemma ReadFails(s: State, s': State)
    requires Reachable(Snapcast, s) && s.worker == Scan(false, true) && s' == s.(worker := Closing)
    ensures Reachable(Snapcast, s')
  {
    ThenWorker(s, ReadServer(false), s');
  }

  lemma FdCloses(s: State, s': State)
    requires Reachable(Snapcast, s) && s.worker.Closing? && s' == s.(worker := Outside, live := false)
    ensures Reachable(Snapcast, s')
  {
    ThenWorker(s, CloseFd, s');
  }

  lemma SessionBegins()
    ensures Reachable(Snapcast, IN_SESSION)
  {
    ServerAnswers();
    var s := Then(ANNOUNCED, ByCaller(CallerWakes(false)));
    s := Then(s, ByCaller(TestSync));
    s := Then(s, ByCaller(TestDone));
    s := Then(s, ByCaller(Return));
    s := Then(s, ByWorker(TestLoop));
    assert s == IN_SESSION;
  }

  const ANNOUNCED := IN_SESSION.(worker := LoopTest, caller := Blocked(OPEN, OPEN))

  lemma ServerAnswers()
    ensures Reachable(Snapcast, ANNOUNCED)
  {
    assert Runs(Snapcast, START, [], START);
    var s := OpenWaits(START, ToNobody);
    s := Then(s, ByWorker(TakeMutex));
    s := Then(s, ByWorker(Switch));
    s := Then(s, ByWorker(TryConnect(true)));
    s := Then(s, ByWorker(FinishLocked));
    assert s == ANNOUNCED;
  }

  /** Open, up to its wait. */
  lemma OpenWaits(s: State, target: Target) returns (s': State)
    requires Reachable(Snapcast, s) && s.caller.Idle? && s.mutex.Free? && CanReach(s, target)
    ensures Reachable(Snapcast, s')
    ensures s' == Notified(s, target).(caller := Blocked(OPEN, OPEN), cmd := OPEN, ready := true, readySync := false, syncNotified := false)
  {
    s' := Then(s, ByCaller(Call(OPEN)));
    s' := Then(s', ByCaller(SetFields));
    s' := Then(s', ByCaller(NotifyOne(target)));
    s' := Then(s', ByCaller(TestDone));
  }

  /** One more step of a run of SnapcastComm. */
  lemma Then(s: State, e: Event) returns (s': State)
    requires Reachable(Snapcast, s) && Can(Snapcast, s, e)
    ensures s' == Step(Snapcast, s, e) && Reachable(Snapcast, s')
  {
    hide Can, Step;
    var events :| Runs(Snapcast, START, events, s);
    s' := Step(Snapcast, s, e);
    OneMoreStep(Snapcast, START, events, s, e);
  }

  lemma ThenWorker(s: State, w: WorkerEvent, s': State)
    requires Reachable(Snapcast, s) && WorkerCan(Snapcast, s, w) && s' == WorkerStep(Snapcast, s, w)
    ensures Reachable(Snapcast, s')
  {
    hide WorkerCan, WorkerStep;
    var t := Then(s, ByWorker(w));
  }

  lemma {:induction false} OneMoreStep(c: Config, s0: State, events: seq<Event>, s: State, e: Event)
    requires Runs(c, s0, events, s) && Can(c, s, e)
    ensures Runs(c, s0, events + [e], Step(c, s, e))
    decreases |events|
  {
    hide Can, Step;
    if events == [] {
      assert Runs(c, Step(c, s, e), [], Step(c, s, e));
    } else {
      OneMoreStep(c, Step(c, s0, events[0]), events[1..], s, e);
      assert (events + [e])[1..] == events[1..] + [e];
    }
  }
}
