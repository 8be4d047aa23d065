/**
 The host supervisor as a state machine. Every step has at most one effect on files or on Docker, the
 answers of Docker and of the health check are arbitrary, and the supervisor may crash between any two steps.
 */
module SupervisorProtocol {
  import opened Text
  import opened SemanticVersions
  import opened SemVerOrder
  import opened Updates

  datatype Request = Request(id: string, currentVersion: string, targetVersion: string, targetImage: string)

  /** The files that survive a crash: the status, the request on host and in the container, the persisted image. */
  datatype World = World(
    status: Option<Status>,
    containerStatus: Option<Status>,
    hostRequest: Option<Request>,
    containerRequest: Option<Request>,
    envImage: string,
    composeImage: string)

  /** Effects and observations, in the order in which they happen. */
  datatype Effect =
    | CopyRequest                                  // the request is copied from the container to the host
    | CopyStatus(copied: bool)                     // and then the status, if that succeeds
    | WriteStatus(status: Status, copied: bool)    // written on the host, then copied into the container
    | RemoveHostRequest
    | RemoveContainerRequest
    | Observe(live: string, image: string)         // live version and image of the running container, if any
    | Pull(usable: bool)                           // the image was pulled, or is allowed and present locally
    | Capture(image: string)                       // image of the running container before the update
    | Recreate(id: string, image: string, ok: bool)
    | Probe(healthy: bool)                         // wait_for_health on the target version
    | Verify(healthy: bool, live: string)          // wait_for_health on the expected version, then the live one
    | PersistEnv(image: string, written: bool)       // a file that is missing or cannot be written is left as it is
    | PersistCompose(image: string, written: bool)

  /** One update in progress: the request, the version it started from, the image to go back to. */
  datatype Job = Job(request: Request, expected: string, previous: string)

  /** Where the supervisor is. Everything here is lost in a crash. */
  datatype Point =
    | Booting
    | Reconciling(live: string)
    | Polling
    | CopyingStatus
    | Reading
    | Examining(request: Request)
    | Deciding(request: Request, running: string)
    | Pulling(job: Job)
    | Capturing(job: Job)
    | Announcing(job: Job)
    | Applying(job: Job)
    | Checking(job: Job)
    | Probing(job: Job)
    | SavingEnv(job: Job)
    | SavingCompose(job: Job)
    | Finishing(job: Job)
    | TurningBack(job: Job)
    | Restoring(job: Job)
    | Verifying(job: Job)
    | RestoringEnv(job: Job, live: string)
    | RestoringCompose(job: Job, live: string)
    | Reporting(job: Job, live: string)
    | GivingUp(job: Job, live: string, recreated: bool)
    | RemovingHost
    | RemovingContainer

  datatype System = System(world: World, point: Point, history: seq<Effect>)

  // ---------------------------------------------------------------- what is computed from the answers

  const ALLOWED_IMAGE_PREFIXES: seq<string> := ["ghcr.io/helloaltr/altr-stream:", "altr-stream:"]

  predicate UnsafeChar(c: char) { c == ';' || c == '|' || c == '&' || c == '`' || c == '$' || c == '<' || c == '>' }

  predicate ValidRequest(r: Request) {
    && (exists i :: 0 <= i < |ALLOWED_IMAGE_PREFIXES| && ALLOWED_IMAGE_PREFIXES[i] <= r.targetImage)
    && r.targetVersion != ""
    && forall i :: 0 <= i < |r.targetVersion| ==> !UnsafeChar(r.targetVersion[i])
  }

  /** The text behind the last colon, if there is one. */
  function ImageTag(image: string): Option<string> {
    if image == "" then None
    else if image[|image| - 1] == ':' then Some("")
    else
      match ImageTag(image[..|image| - 1])
      case None => None
      case Some(tag) => Some(tag + [image[|image| - 1]])
  }

  /** The version the node runs: reported live, or as requested, or read off the image tag. */
  function RunningVersion(live: string, requested: string, image: string): string {
    var known := if live != "" then live else requested;
    if (known == "" || known == "unknown") && ImageTag(image).Some? then ImageTag(image).value else known
  }

  predicate AlreadyThere(running: string, target: string) {
    ParseVersion(running).Some? && ParseVersion(target).Some?
    && Eq(ParseVersion(running).value, ParseVersion(target).value)
  }

  predicate AlreadyNewer(running: string, target: string) {
    ParseVersion(running).Some? && ParseVersion(target).Some?
    && Gt(ParseVersion(running).value, ParseVersion(target).value)
  }

  function ExpectedVersion(running: string, r: Request): string {
    if running != "" then running else r.currentVersion
  }

  function PreviousImage(captured: string, r: Request): string {
    if captured != "" then captured else "ghcr.io/helloaltr/altr-stream:" + r.currentVersion
  }

  function StatusFor(r: Request, state: State, current: string, rolledBack: bool): Status {
    Status(Some(r.id), state, current, r.targetVersion, rolledBack)
  }

  const INVALID_REQUEST: Status := Status(None, Failed, "unknown", "", false)

  /** The outcome that a restart records for an update it finds in progress. */
  function Reconciled(s: Status, live: string): Status {
    if AlreadyThere(live, s.targetVersion) then
      s.(state := Completed, currentVersion := live, rollbackPerformed := false)
    else
      s.(state := Failed, currentVersion := if live != "" then live else s.currentVersion, rollbackPerformed := false)
  }

  // ---------------------------------------------------------------- effects on the files

  function Apply(w: World, e: Effect): World {
    match e
    case CopyRequest => w.(hostRequest := w.containerRequest)
    case CopyStatus(copied) => if copied && w.containerStatus.Some? then w.(status := w.containerStatus) else w
    case WriteStatus(s, copied) =>
      w.(status := Some(s), containerStatus := if copied then Some(s) else w.containerStatus)
    case RemoveHostRequest => w.(hostRequest := None)
    case RemoveContainerRequest => w.(containerRequest := None)
    case PersistEnv(image, written) => if written then w.(envImage := image) else w
    case PersistCompose(image, written) => if written then w.(composeImage := image) else w
    case _ => w
  }

  // ---------------------------------------------------------------- the program

  predicate Writes(e: Effect, s: Status) { e.WriteStatus? && e.status == s }

  /** The next point after effect e, or None if the program does not do e here. */
  function Next(p: Point, w: World, e: Effect): Option<Point> {
    match p
    case Booting =>
      // reconcile_startup_state: an active status was left behind by an interrupted update
      if e.Observe? && w.status.Some? && w.status.value.state.IsActive() then Some(Reconciling(e.live)) else None
    case Reconciling(live) =>
      if w.status.Some? && Writes(e, Reconciled(w.status.value, live)) then Some(RemovingHost) else None
    case Polling =>
      if w.hostRequest.None? && w.containerRequest.Some? && e == CopyRequest then Some(CopyingStatus) else None
    case CopyingStatus =>
      if e.CopyStatus? then Some(Reading) else None
    case Reading => None
    case Examining(r) =>
      if !ValidRequest(r) then (if Writes(e, INVALID_REQUEST) then Some(RemovingHost) else None)
      else if e.Observe? then Some(Deciding(r, RunningVersion(e.live, r.currentVersion, e.image)))
      else None
    case Deciding(r, running) =>
      if AlreadyThere(running, r.targetVersion) then
        (if Writes(e, StatusFor(r, Completed, Format(ParseVersion(running).value), false)) then Some(RemovingHost)
         else None)
      else if AlreadyNewer(running, r.targetVersion) then
        (if Writes(e, StatusFor(r, Failed, Format(ParseVersion(running).value), false)) then Some(RemovingHost)
         else None)
      else if Writes(e, StatusFor(r, Staging, r.currentVersion, false)) then
        Some(Pulling(Job(r, ExpectedVersion(running, r), "")))
      else None
    case Pulling(job) =>
      if e == Pull(true) then Some(Capturing(job))
      else if e == Pull(false) then Some(GivingUp(job, job.request.currentVersion, false))
      else None
    case Capturing(job) =>
      if e.Capture? then Some(Announcing(job.(previous := PreviousImage(e.image, job.request)))) else None
    case Announcing(job) =>
      if Writes(e, StatusFor(job.request, State.Applying, job.request.currentVersion, false)) then
        Some(Point.Applying(job))
      else None
    case Applying(job) =>
      if e == Recreate(job.request.id, job.request.targetImage, true) then Some(Checking(job))
      else if e == Recreate(job.request.id, job.request.targetImage, false) then Some(TurningBack(job))
      else None
    case Checking(job) =>
      if Writes(e, StatusFor(job.request, HealthCheck, job.request.currentVersion, false)) then Some(Probing(job))
      else None
    case Probing(job) =>
      if e == Probe(true) then Some(SavingEnv(job)) else if e == Probe(false) then Some(TurningBack(job)) else None
    case SavingEnv(job) =>
      if e.PersistEnv? && e.image == job.request.targetImage then Some(SavingCompose(job)) else None
    case SavingCompose(job) =>
      if e.PersistCompose? && e.image == job.request.targetImage then Some(Finishing(job)) else None
    case Finishing(job) =>
      if Writes(e, StatusFor(job.request, Completed, job.request.targetVersion, false)) then Some(RemovingHost)
      else None
    case TurningBack(job) =>
      if Writes(e, StatusFor(job.request, RollingBack, job.request.currentVersion, true)) then Some(Restoring(job))
      else None
    case Restoring(job) =>
      if e == Recreate(job.request.id, job.previous, true) then Some(Verifying(job))
      else if e == Recreate(job.request.id, job.previous, false) then
        Some(GivingUp(job, job.request.currentVersion, false))
      else None
    case Verifying(job) =>
      if e.Verify? then
        if e.healthy && StripV(e.live) == StripV(job.expected) then Some(RestoringEnv(job, e.live))
        else Some(GivingUp(job, if e.live != "" then e.live else job.request.currentVersion, true))
      else None
    case RestoringEnv(job, live) =>
      if e.PersistEnv? && e.image == job.previous then Some(RestoringCompose(job, live)) else None
    case RestoringCompose(job, live) =>
      if e.PersistCompose? && e.image == job.previous then Some(Reporting(job, live)) else None
    case Reporting(job, live) =>
      if Writes(e, StatusFor(job.request, RolledBack, if live != "" then live else job.expected, true)) then
        Some(RemovingHost)
      else None
    case GivingUp(job, current, recreated) =>
      if Writes(e, StatusFor(job.request, Failed, current, recreated)) then Some(RemovingHost) else None
    case RemovingHost =>
      if e == RemoveHostRequest then Some(RemovingContainer) else None
    case RemovingContainer =>
      if e == RemoveContainerRequest then Some(Polling) else None
  }

  /** What can happen: an effect of the program, a silent step, a crash, or a new request by the application. */
  datatype Move = Do(effect: Effect) | Silent | Crash | Submit(request: Request, onHost: bool, status: Option<Status>)

  /** Steps without effect: nothing to reconcile at start-up, a request already on the host, and reading it. */
  function SilentStep(p: Point, w: World): Option<Point> {
    if p.Booting? && !(w.status.Some? && w.status.value.state.IsActive()) then Some(Polling)
    else if p.Polling? && w.hostRequest.Some? then Some(Reading)
    else if p.Reading? && w.hostRequest.Some? then Some(Examining(w.hostRequest.value))
    else None
  }

  function After(s: System, m: Move): Option<System> {
    match m
    case Do(e) =>
      (match Next(s.point, s.world, e)
       case Some(p) => Some(System(Apply(s.world, e), p, s.history + [e]))
       case None => None)
    case Silent =>
      (match SilentStep(s.point, s.world)
       case Some(p) => Some(s.(point := p))
       case None => None)
    case Crash => Some(s.(point := Booting))
    case Submit(r, onHost, status) =>
      // the application may submit at any time, through a shared directory or inside the container
      if onHost then Some(s.(world := s.world.(hostRequest := Some(r))))
      else Some(s.(world := s.world.(containerRequest := Some(r), containerStatus := status)))
  }

  /** A run from s, or None if some move is not possible. */
  function Run(s: System, moves: seq<Move>): Option<System> {
    if moves == [] then Some(s)
    else
      match Run(s, moves[..|moves| - 1])
      case None => None
      case Some(t) => After(t, moves[|moves| - 1])
  }

  /** A supervisor about to start over any files, with nothing recorded yet. */
  function Initial(w: World): System { System(w, Booting, []) }
}
