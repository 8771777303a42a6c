/** The speech protocol between the NVDA driver (addon/synthDrivers/samsungTVVoices.py) and
the guest that runs the voices (guest/samsung_guest.cpp), as steps of six threads: the
driver's worker, its speak and cancel thread and its reader; the guest's reader and worker;
and the two message streams between them.

A step is one access to a shared variable, one message sent or received, or one callback of
the engine. Any thread may take the next step; a blocked thread's step changes nothing. */
module Speech {
  import opened Octets
  import opened Options
  import opened Chunks

  /** A request to speak. `req` numbers the requests of a run; no step looks at it. */
  datatype Job = Job(gen: nat, req: nat, text: Bytes)

  /** Messages from the driver to the guest, and back. */
  datatype Down = Speak(job: Job) | Cancel(gen: nat)
  datatype Up = Audio(gen: nat, data: Bytes) | Done(gen: nat) | Error(gen: nat) | Cancelled(gen: nat)

  /** What the engine does: how often it calls back for the chunk of request `req` that starts
  at `offset`, and the samples it passes each time. */
  datatype Engine = Engine(calls: (nat, nat) -> nat, samples: (nat, nat, nat) -> Bytes)

  /** synthesisWorker of the guest. */
  datatype Worker =
    | Waiting
    | Clearing(job: Job)
    | Activating(job: Job)
    | Initializing(job: Job)
    | Looping(job: Job, offset: nat)
    | Calling(job: Job, offset: nat, end: nat, call: nat)
    | Sending(job: Job, offset: nat, end: nat, call: nat)
    | Finishing(job: Job, ok: bool)
    | Reporting(job: Job, ok: bool)
    | Releasing(job: Job)

  /** The reader loop of the guest, with cancelActive. */
  datatype Reader = Reading | Storing(job: Job) | Checking(gen: nat) | Setting(gen: nat) | Acknowledging(gen: nat)

  /** _worker, _render and _synthesizeText of the driver. `fed` is the audio passed to the
  player since the request was sent. */
  datatype Host =
    | Taking
    | Screening(gen: nat, texts: seq<Bytes>)
    | Beginning(gen: nat, texts: seq<Bytes>)
    | Rendering(gen: nat, texts: seq<Bytes>)
    | Requesting(gen: nat, text: Bytes, rest: seq<Bytes>)
    | Listening(job: Job, rest: seq<Bytes>, fed: Bytes)
    | Ending(gen: nat)

  /** speak and cancel of the driver, which one thread calls; refreshFirmwareRuntime restarts
  the guest behind a cancel. */
  datatype Caller = Idle | Putting(gen: nat, texts: seq<Bytes>) | SendingCancel(active: Option<nat>) | Draining | Restarting

  /** The streams: to the guest, from the guest, and the queue of the driver's reader. */
  datatype Net = Net(down: seq<Down>, up: seq<Up>, messages: seq<Up>)

  /** The guest's shared variables and its two threads. */
  datatype Guest = Guest(pending: Option<Job>, cancelling: bool, activeGeneration: nat, worker: Worker, reader: Reader)

  /** The driver's shared variables and its two threads. */
  datatype Driver = Driver(
    jobs: seq<(nat, seq<Bytes>)>, active: Option<nat>, current: nat, host: Host, caller: Caller, requests: nat)

  datatype State = State(net: Net, guest: Guest, driver: Driver)

  /** The choices that the code or its surroundings leave open. */
  datatype Step =
    | WorkerStep(succeeds: bool)
    | ReaderStep
    | DeliverStep
    | HostStep
    | HostRestart
    | HostSendFails
    | SpeakCall(texts: seq<Bytes>)
    | CancelCall
    | CallerStep(restart: bool)
    | CancelLost

  /** Bound of the driver's message queue. */
  const QUEUE: nat := 64

  const NEW_NET := Net([], [], [])
  const NEW_GUEST := Guest(None, false, 0, Waiting, Reading)

  function Init(): State {
    State(NEW_NET, NEW_GUEST, Driver([], None, 1, Taking, Idle, 0))
  }

  /* ---- the guest ---- */

  /** What the guest's worker sends in its next step. */
  function WorkerSays(e: Engine, g: Guest): seq<Up> {
    match g.worker
    case Sending(job, offset, _, call) => [Audio(g.activeGeneration, e.samples(job.req, offset, call))]
    case Reporting(job, ok) => [if ok then Done(job.gen) else Error(job.gen)]
    case _ => []
  }

  function WorkerNext(e: Engine, g: Guest, succeeds: bool): Guest {
    match g.worker
    case Waiting =>
      if g.pending.Some? then g.(worker := Clearing(g.pending.value), pending := None) else g
    case Clearing(job) => g.(cancelling := false, worker := Activating(job))
    case Activating(job) => g.(activeGeneration := job.gen, worker := Initializing(job))
    case Initializing(job) => g.(worker := if succeeds then Looping(job, 0) else Reporting(job, false))
    case Looping(job, offset) =>
      if offset < |job.text| && !g.cancelling
      then g.(worker := Calling(job, offset, ChunkEnd(job.text, offset), 0))
      else g.(worker := Finishing(job, true))
    case Calling(job, offset, end, call) =>
      if call < e.calls(job.req, offset) then
        // streamCallback
        if g.activeGeneration == 0 || g.cancelling || e.samples(job.req, offset, call) == []
        then g.(worker := Calling(job, offset, end, call + 1))
        else g.(worker := Sending(job, offset, end, call))
      else if succeeds then g.(worker := Looping(job, end))
      else g.(worker := Finishing(job, false))
    case Sending(job, offset, end, call) => g.(worker := Calling(job, offset, end, call + 1))
    case Finishing(job, ok) => g.(worker := if g.cancelling then Releasing(job) else Reporting(job, ok))
    case Reporting(job, ok) => g.(worker := Releasing(job))
    case Releasing(job) => g.(activeGeneration := 0, worker := Waiting)
  }

  function ReaderSays(g: Guest): seq<Up> {
    if g.reader.Acknowledging? then [Cancelled(g.reader.gen)] else []
  }

  /** The guest's reader, which takes the first of the messages `down` when it reads. */
  function ReaderNext(g: Guest, down: seq<Down>): Guest {
    match g.reader
    case Reading =>
      if down == [] then g
      else g.(reader := match down[0]
                        case Speak(job) => Storing(job)
                        case Cancel(gen) => Checking(gen))
    case Storing(job) => g.(pending := Some(job), reader := Reading)
    case Checking(gen) => g.(reader := if g.activeGeneration == gen then Setting(gen) else Reading)
    case Setting(gen) => g.(cancelling := true, reader := Acknowledging(gen))
    case Acknowledging(_) => g.(reader := Reading)
  }

  /* ---- the driver ---- */

  /** _reader, into the bounded queue. */
  function DeliverNext(n: Net): Net {
    if n.up != [] && |n.messages| < QUEUE then n.(messages := n.messages + [n.up[0]], up := n.up[1..]) else n
  }

  function HostSays(d: Driver): seq<Down> {
    if d.host.Requesting? then [Speak(Job(d.host.gen, d.requests, d.host.text))] else []
  }

  /** The driver's worker, which takes the first of the `messages` when it listens. */
  function HostNext(d: Driver, messages: seq<Up>): Driver {
    match d.host
    case Taking =>
      if d.jobs == [] then d else d.(jobs := d.jobs[1..], host := Screening(d.jobs[0].0, d.jobs[0].1))
    case Screening(gen, texts) => d.(host := if gen == d.current then Beginning(gen, texts) else Taking)
    case Beginning(gen, texts) =>
      if gen == d.current then d.(active := Some(gen), host := Rendering(gen, texts)) else d.(host := Taking)
    case Rendering(gen, texts) =>
      d.(host := if gen == d.current && texts != [] then Requesting(gen, texts[0], texts[1..]) else Ending(gen))
    case Requesting(gen, text, rest) =>
      d.(requests := d.requests + 1, host := Listening(Job(gen, d.requests, text), rest, []))
    case Listening(job, rest, fed) =>
      if messages == [] then d else d.(host := Heard(d.current, job, rest, fed, messages[0]))
    case Ending(gen) => d.(active := if d.active == Some(gen) then None else d.active, host := Taking)
  }

  /** How _synthesizeText takes a message. */
  function Heard(current: nat, job: Job, rest: seq<Bytes>, fed: Bytes, m: Up): Host {
    if m.gen != job.gen then Listening(job, rest, fed)
    else match m
      case Audio(_, data) => Listening(job, rest, if job.gen == current then fed + data else fed)
      case Done(_) => Rendering(job.gen, rest)
      case _ => Ending(job.gen)
  }

  function CallerSays(d: Driver): seq<Down> {
    if d.caller.SendingCancel? && d.caller.active.Some? then [Cancel(d.caller.active.value)] else []
  }

  function CallerNext(d: Driver, restart: bool): Driver {
    match d.caller
    case Idle => d
    case Putting(gen, texts) => d.(jobs := d.jobs + [(gen, texts)], caller := Idle)
    case SendingCancel(_) => d.(caller := Draining)
    case Draining => if d.jobs != [] then d.(jobs := d.jobs[1..]) else d.(caller := if restart then Restarting else Idle)
    case Restarting => d.(caller := Idle)
  }

  predicate Speakable(texts: seq<Bytes>) {
    forall t :: t in texts ==> t != [] && Utf8(t)
  }

  /** A restart puts a new guest process and empty streams in place. */
  function Next(e: Engine, s: State, step: Step): State {
    var State(n, g, d) := s;
    match step
    case WorkerStep(succeeds) => State(n.(up := n.up + WorkerSays(e, g)), WorkerNext(e, g, succeeds), d)
    case ReaderStep =>
      State(n.(up := n.up + ReaderSays(g), down := if g.reader.Reading? && n.down != [] then n.down[1..] else n.down),
            ReaderNext(g, n.down), d)
    case DeliverStep => State(DeliverNext(n), g, d)
    case HostStep =>
      State(n.(down := n.down + HostSays(d),
               messages := if d.host.Listening? && n.messages != [] then n.messages[1..] else n.messages),
            g, HostNext(d, n.messages))
    // A timeout or a lost connection: the driver restarts the guest and gives up the request. A guest found dead before
    // the request is sent is started again, and the request goes on.
    case HostRestart =>
      if d.host.Listening? then State(NEW_NET, NEW_GUEST, d.(host := Ending(d.host.job.gen)))
      else if d.host.Requesting? then State(NEW_NET, NEW_GUEST, d)
      else s
    case HostSendFails => if d.host.Requesting? then State(n, g, d.(host := Ending(d.host.gen))) else s
    case SpeakCall(texts) =>
      if d.caller.Idle? && Speakable(texts) then State(n, g, d.(caller := Putting(d.current, texts))) else s
    case CancelCall =>
      if d.caller.Idle? then State(n, g, d.(current := d.current + 1, caller := SendingCancel(d.active))) else s
    case CallerStep(restart) =>
      if d.caller.Restarting? then State(NEW_NET, NEW_GUEST, CallerNext(d, restart))
      else State(n.(down := n.down + CallerSays(d)), g, CallerNext(d, restart))
    case CancelLost => if d.caller.SendingCancel? then State(n, g, d.(caller := Draining)) else s
  }
}
