/** What the speech protocol keeps in every run: the audio of a finished request is complete,
in order and its own. */
module SpeechRuns {
  import opened Octets
  import opened Options
  import opened Seqs
  import opened Chunks
  import opened Speech

  /* ---- the audio of a request ---- */

  /** The samples of one chunk from callback `call` on. */
  function Calls(e: Engine, req: nat, offset: nat, call: nat): Bytes
    decreases e.calls(req, offset) - call
  {
    if call >= e.calls(req, offset) then [] else e.samples(req, offset, call) + Calls(e, req, offset, call + 1)
  }

  /** The samples of all chunks of a request from place `offset` on, in order. */
  function Voiced(e: Engine, job: Job, offset: nat): Bytes
    decreases |job.text| - offset
  {
    if offset >= |job.text| || ChunkEnd(job.text, offset) <= offset then []
    else Calls(e, job.req, offset, 0) + Voiced(e, job, ChunkEnd(job.text, offset))
  }

  /** What the guest's worker has still to send for its job. */
  function Rest(e: Engine, w: Worker): Bytes {
    match w
    case Clearing(job) => Voiced(e, job, 0)
    case Activating(job) => Voiced(e, job, 0)
    case Initializing(job) => Voiced(e, job, 0)
    case Looping(job, offset) => Voiced(e, job, offset)
    case Calling(job, offset, end, call) => Calls(e, job.req, offset, call) + Voiced(e, job, end)
    case Sending(job, offset, end, call) => Calls(e, job.req, offset, call) + Voiced(e, job, end)
    case _ => []
  }

  /* ---- what the driver will make of the messages on their way ---- */

  /** A request as the driver hears it: audio so far, an answer behind it, or nonsense. */
  datatype Hearing = Open(audio: Bytes) | Closed(audio: Bytes, done: bool) | Broken

  function Hear(h: Hearing, m: Up, gen: nat): Hearing {
    if m.gen != gen then h
    else if !h.Open? then Broken
    else match m
      case Audio(_, data) => Open(h.audio + data)
      case Done(_) => Closed(h.audio, true)
      case Error(_) => Closed(h.audio, false)
      case Cancelled(_) => Broken
  }

  function HearAll(h: Hearing, q: seq<Up>, gen: nat): Hearing {
    if q == [] then h else Hear(HearAll(h, q[..|q| - 1], gen), q[|q| - 1], gen)
  }

  lemma HearLast(h: Hearing, q: seq<Up>, m: Up, gen: nat)
    ensures HearAll(h, q + [m], gen) == Hear(HearAll(h, q, gen), m, gen)
  {
    assert (q + [m])[..|q|] == q;
  }

  lemma {:induction false} HearFirst(h: Hearing, m: Up, q: seq<Up>, gen: nat)
    ensures HearAll(h, [m] + q, gen) == HearAll(Hear(h, m, gen), q, gen)
  {
    if q == [] {
      assert [m] + q == [] + [m];
      HearLast(h, [], m, gen);
    } else {
      HearFirst(h, m, q[..|q| - 1], gen);
      assert [m] + q == ([m] + q[..|q| - 1]) + [q[|q| - 1]];
      HearLast(h, [m] + q[..|q| - 1], q[|q| - 1], gen);
    }
  }

  /** No message of the generation is on its way. */
  ghost predicate Silent(q: seq<Up>, gen: nat) {
    forall m :: m in q ==> m.gen != gen
  }

  lemma {:induction false} HearSilence(h: Hearing, q: seq<Up>, gen: nat)
    requires Silent(q, gen)
    ensures HearAll(h, q, gen) == h
  {
    if q != [] {
      HearSilence(h, q[..|q| - 1], gen);
      assert q[|q| - 1] in q;
    }
  }

  /** Once answered, a request stays answered only if nothing more is said about it. */
  lemma {:induction false} HearClosed(h: Hearing, q: seq<Up>, gen: nat)
    requires !h.Open?
    ensures !HearAll(h, q, gen).Open?
    ensures HearAll(h, q, gen).Closed? ==> HearAll(h, q, gen) == h && Silent(q, gen)
  {
    if q != [] {
      HearClosed(h, q[..|q| - 1], gen);
      if HearAll(h, q, gen).Closed? {
        assert q == q[..|q| - 1] + [q[|q| - 1]];
      }
    }
  }

  lemma {:induction false} HearOpen(h: Hearing, q: seq<Up>, gen: nat)
    requires h.Open?
    ensures !HearAll(h, q, gen).Broken? ==> h.audio <= HearAll(h, q, gen).audio
  {
    if q != [] {
      HearOpen(h, q[..|q| - 1], gen);
      HearClosed(Broken, [], gen);
    }
  }

  /* ---- the invariant ---- */

  function Coming(n: Net): seq<Up> {
    n.messages + n.up
  }

  ghost predicate DownOld(m: Down, current: nat) {
    match m case Speak(job) => job.gen <= current case Cancel(gen) => gen < current
  }

  ghost predicate UpOld(m: Up, current: nat) {
    m.gen <= current && (m.Cancelled? ==> m.gen < current)
  }

  ghost predicate DownsOld(q: seq<Down>, current: nat) {
    forall m :: m in q ==> DownOld(m, current)
  }

  ghost predicate UpsOld(q: seq<Up>, current: nat) {
    forall m :: m in q ==> UpOld(m, current)
  }

  ghost predicate JobsUpTo(jobs: seq<(nat, seq<Bytes>)>, gen: int) {
    forall j :: j in jobs ==> j.0 <= gen
  }

  ghost predicate JobTextsOk(jobs: seq<(nat, seq<Bytes>)>) {
    forall j :: j in jobs ==> Speakable(j.1)
  }

  /** The generation a thread works for; 0 for none. */
  function HostGen(h: Host): nat {
    match h
    case Taking => 0
    case Listening(job, _, _) => job.gen
    case _ => h.gen
  }

  function WorkerGen(w: Worker): nat {
    if w.Waiting? then 0 else w.job.gen
  }

  ghost predicate CallerCancels(c: Caller) {
    c.SendingCancel? || c.Draining? || c.Restarting?
  }

  /** No generation is above the current one, and cancelled ones are below it. */
  ghost predicate NetOld(n: Net, current: nat) {
    DownsOld(n.down, current) && UpsOld(Coming(n), current)
  }

  /** activeGeneration names the job at work. */
  ghost predicate GuestOk(g: Guest, current: nat) {
    && (g.pending.Some? ==> g.pending.value.gen <= current)
    && WorkerGen(g.worker) <= current
    && (g.reader.Storing? ==> g.reader.job.gen <= current)
    && (g.reader.Checking? || g.reader.Setting? || g.reader.Acknowledging? ==> g.reader.gen < current)
    && g.activeGeneration == if g.worker.Clearing? || g.worker.Activating? then 0 else WorkerGen(g.worker)
  }

  /** While a cancel is under way, the driver has nothing of the new generation yet. Texts to
  speak are UTF-8 and not empty. */
  ghost predicate DriverOk(d: Driver) {
    && d.current > 0
    && JobsUpTo(d.jobs, d.current) && JobTextsOk(d.jobs)
    && HostGen(d.host) <= d.current
    && (d.active.Some? ==> d.active.value <= d.current)
    && (d.caller.Putting? ==> d.caller.gen <= d.current && Speakable(d.caller.texts))
    && (d.caller.SendingCancel? && d.caller.active.Some? ==> d.caller.active.value < d.current)
    && (CallerCancels(d.caller) ==> JobsUpTo(d.jobs, d.current - 1) && HostGen(d.host) < d.current)
    && HostTexts(d.host)
  }

  ghost predicate HostTexts(h: Host) {
    match h
    case Screening(_, texts) => Speakable(texts)
    case Beginning(_, texts) => Speakable(texts)
    case Rendering(_, texts) => Speakable(texts)
    case Requesting(_, text, rest) => text != [] && Utf8(text) && Speakable(rest)
    case Listening(job, rest, _) => job.text != [] && Utf8(job.text) && Speakable(rest)
    case _ => true
  }

  ghost predicate Basics(s: State) {
    NetOld(s.net, s.driver.current) && GuestOk(s.guest, s.driver.current) && DriverOk(s.driver)
  }

  /* ---- queues ---- */

  lemma UpsOldMore(q: seq<Up>, r: seq<Up>, more: seq<Up>, current: nat)
    requires UpsOld(q + r, current) && UpsOld(more, current)
    ensures UpsOld(q + (r + more), current)
  {
    assert q + (r + more) == (q + r) + more;
  }

  lemma UpsOldRest(q: seq<Up>, r: seq<Up>, current: nat)
    requires UpsOld(q + r, current) && q != []
    ensures UpOld(q[0], current) && UpsOld(q[1..] + r, current)
  {
    assert q + r == [q[0]] + (q[1..] + r);
    assert q[0] in q + r;
  }

  lemma Delivered(q: seq<Up>, r: seq<Up>)
    requires r != []
    ensures (q + [r[0]]) + r[1..] == q + r
  {
  }

  lemma DownsOldMore(q: seq<Down>, more: seq<Down>, current: nat)
    requires DownsOld(q, current) && DownsOld(more, current)
    ensures DownsOld(q + more, current)
  {
  }

  lemma DownsOldRest(q: seq<Down>, current: nat)
    requires DownsOld(q, current) && q != []
    ensures DownOld(q[0], current) && DownsOld(q[1..], current)
  {
    assert q[0] in q;
  }

  lemma JobsMore(jobs: seq<(nat, seq<Bytes>)>, j: (nat, seq<Bytes>), gen: int)
    requires JobsUpTo(jobs, gen) && j.0 <= gen && JobTextsOk(jobs) && Speakable(j.1)
    ensures JobsUpTo(jobs + [j], gen) && JobTextsOk(jobs + [j])
  {
  }

  lemma JobsRest(jobs: seq<(nat, seq<Bytes>)>, gen: int)
    requires JobsUpTo(jobs, gen) && JobTextsOk(jobs) && jobs != []
    ensures jobs[0].0 <= gen && JobsUpTo(jobs[1..], gen) && Speakable(jobs[0].1) && JobTextsOk(jobs[1..])
  {
    assert jobs[0] in jobs;
  }

  lemma TextsRest(texts: seq<Bytes>)
    requires Speakable(texts) && texts != []
    ensures texts[0] != [] && Utf8(texts[0]) && Speakable(texts[1..])
  {
    assert texts[0] in texts;
  }

  /* ---- what every step keeps, the stage of the request aside ---- */

  lemma WorkerBasics(e: Engine, g: Guest, ok: bool, current: nat)
    requires GuestOk(g, current)
    ensures GuestOk(WorkerNext(e, g, ok), current) && UpsOld(WorkerSays(e, g), current)
  {
    hide ChunkEnd;
  }

  lemma ReaderBasics(g: Guest, down: seq<Down>, current: nat)
    requires GuestOk(g, current) && DownsOld(down, current)
    ensures GuestOk(ReaderNext(g, down), current) && UpsOld(ReaderSays(g), current)
    ensures down != [] ==> DownsOld(down[1..], current)
  {
    if down != [] {
      DownsOldRest(down, current);
    }
  }

  lemma HostBasics(d: Driver, messages: seq<Up>)
    requires DriverOk(d)
    ensures DriverOk(HostNext(d, messages)) && DownsOld(HostSays(d), d.current)
  {
    hide Speakable, Utf8, JobsUpTo, JobTextsOk;
    match d.host
    case Taking =>
      if d.jobs != [] {
        JobsRest(d.jobs, d.current);
        if CallerCancels(d.caller) {
          JobsRest(d.jobs, d.current - 1);
        }
      }
    case Rendering(_, texts) =>
      if texts != [] {
        TextsRest(texts);
      }
    case _ =>
  }

  lemma CallerBasics(d: Driver, restart: bool)
    requires DriverOk(d)
    ensures DriverOk(CallerNext(d, restart)) && DownsOld(CallerSays(d), d.current)
  {
    hide Speakable, Utf8, JobsUpTo, JobTextsOk;
    match d.caller
    case Putting(gen, texts) => JobsMore(d.jobs, (gen, texts), d.current);
    case Draining =>
      if d.jobs != [] {
        JobsRest(d.jobs, d.current - 1);
        JobsRest(d.jobs, d.current);
      }
    case _ =>
  }

  lemma CancelBasics(s: State)
    requires Basics(s)
    ensures DriverOk(s.driver.(current := s.driver.current + 1, caller := SendingCancel(s.driver.active)))
    ensures NetOld(s.net, s.driver.current + 1) && GuestOk(s.guest, s.driver.current + 1)
  {
    hide Speakable, Utf8, JobTextsOk;
  }

  lemma StepBasics(e: Engine, s: State, step: Step)
    requires Basics(s)
    ensures Basics(Next(e, s, step))
  {
    hide Speakable, Utf8, JobsUpTo, JobTextsOk, DownsOld, UpsOld, GuestOk, DriverOk, WorkerNext, WorkerSays, ReaderNext, ReaderSays,
         HostNext, HostSays, CallerNext, CallerSays;
    var State(n, g, d) := s;
    var c := d.current;
    match step
    case WorkerStep(ok) =>
      WorkerBasics(e, g, ok, c);
      UpsOldMore(n.messages, n.up, WorkerSays(e, g), c);
    case ReaderStep =>
      ReaderBasics(g, n.down, c);
      UpsOldMore(n.messages, n.up, ReaderSays(g), c);
    case DeliverStep =>
      if n.up != [] { Delivered(n.messages, n.up); }
    case HostStep =>
      HostBasics(d, n.messages);
      DownsOldMore(n.down, HostSays(d), c);
      if n.messages != [] { UpsOldRest(n.messages, n.up, c); }
      SameCurrent(d, n.messages);
    case CallerStep(restart) =>
      CallerBasics(d, restart);
      DownsOldMore(n.down, CallerSays(d), c);
      NewGuestBasics(c);
      SameCurrentCaller(d, restart);
    case CancelCall => CancelBasics(s);
    case HostRestart => NewGuestBasics(c); GiveUp(d);
    case _ => GiveUp(d);
  }

  lemma NewGuestBasics(current: nat)
    ensures NetOld(NEW_NET, current) && GuestOk(NEW_GUEST, current)
  {
  }

  lemma SameCurrent(d: Driver, messages: seq<Up>)
    ensures HostNext(d, messages).current == d.current
  {
  }

  lemma SameCurrentCaller(d: Driver, restart: bool)
    ensures CallerNext(d, restart).current == d.current
  {
  }

  lemma GiveUp(d: Driver)
    requires DriverOk(d)
    ensures d.host.Listening? ==> DriverOk(d.(host := Ending(d.host.job.gen)))
    ensures d.host.Requesting? ==> DriverOk(d.(host := Ending(d.host.gen)))
    ensures d.caller.SendingCancel? ==> DriverOk(d.(caller := Draining))
    ensures forall texts :: d.caller.Idle? && Speakable(texts) ==> DriverOk(d.(caller := Putting(d.current, texts)))
  {
    hide Speakable, Utf8, JobsUpTo, JobTextsOk;
  }

  /* ---- the stage of the request the driver waits for ---- */

  ghost predicate NoSpeak(q: seq<Down>, gen: nat) {
    forall m :: m in q ==> !(m.Speak? && m.job.gen == gen)
  }

  ghost predicate PendingHas(g: Guest, gen: nat) {
    g.pending.Some? && g.pending.value.gen == gen
  }

  ghost predicate StoringHas(g: Guest, gen: nat) {
    g.reader.Storing? && g.reader.job.gen == gen
  }

  /** No request of the generation is on its way to the guest's worker. */
  ghost predicate NoneSent(n: Net, g: Guest, gen: nat) {
    NoSpeak(n.down, gen) && !StoringHas(g, gen) && !PendingHas(g, gen)
  }

  ghost predicate WorkerDone(w: Worker, gen: nat) {
    WorkerGen(w) == gen ==> w.Releasing?
  }

  /** Nothing of the generation is anywhere between the driver's worker and the player. */
  ghost predicate Resting(n: Net, g: Guest, gen: nat) {
    NoneSent(n, g, gen) && WorkerDone(g.worker, gen) && Silent(Coming(n), gen)
  }

  /** The request is the last message to the guest, or the next one to store, or the next job. */
  ghost predicate InTransit(n: Net, g: Guest, job: Job) {
    && WorkerDone(g.worker, job.gen) && Silent(Coming(n), job.gen)
    && if n.down != [] then
         && n.down[|n.down| - 1] == Speak(job) && NoSpeak(n.down[..|n.down| - 1], job.gen)
         && !StoringHas(g, job.gen) && !PendingHas(g, job.gen)
       else if g.reader.Storing? then g.reader.job == job && !PendingHas(g, job.gen)
       else g.reader.Reading? && g.pending == Some(job)
  }

  /** The guest's worker is inside the text of its job. */
  ghost predicate InText(e: Engine, w: Worker) {
    match w
    case Looping(job, offset) => offset <= |job.text| && CharsFrom(job.text, offset)
    case Calling(job, offset, end, call) => end <= |job.text| && CharsFrom(job.text, end)
    case Sending(job, offset, end, call) => end <= |job.text| && CharsFrom(job.text, end) && call < e.calls(job.req, offset)
    case _ => true
  }

  ghost predicate Failed(w: Worker) {
    (w.Finishing? || w.Reporting?) && !w.ok
  }

  /** What the driver will have heard when all messages have come. */
  ghost function Hears(n: Net, job: Job, fed: Bytes): Hearing {
    HearAll(Open(fed), Coming(n), job.gen)
  }

  /** The audio sent, with what the guest's worker has still to say, makes up the request. */
  ghost predicate Tally(e: Engine, w: Worker, job: Job, h: Hearing) {
    && h.Open?
    && if Failed(w) then h.audio <= Voiced(e, job, 0) else h.audio + Rest(e, w) == Voiced(e, job, 0)
  }

  /** The guest's worker is at work on the request, and nothing can cancel it. */
  ghost predicate Working(e: Engine, g: Guest, job: Job) {
    && g.reader.Reading? && !PendingHas(g, job.gen)
    && !g.worker.Waiting? && !g.worker.Releasing? && g.worker.job == job && InText(e, g.worker)
    && (g.cancelling ==> g.worker.Clearing?)
  }

  ghost predicate Running(e: Engine, n: Net, g: Guest, job: Job, fed: Bytes) {
    n.down == [] && Working(e, g, job) && Tally(e, g.worker, job, Hears(n, job, fed))
  }

  ghost predicate Whole(e: Engine, job: Job, h: Hearing) {
    h.Closed? && h.audio <= Voiced(e, job, 0) && (h.done ==> h.audio == Voiced(e, job, 0))
  }

  /** The answer is on its way, behind all the audio there is. */
  ghost predicate Answered(e: Engine, n: Net, g: Guest, job: Job, fed: Bytes) {
    NoneSent(n, g, job.gen) && WorkerDone(g.worker, job.gen) && Whole(e, job, Hears(n, job, fed))
  }

  /** The driver waits for a request of a generation that was not cancelled. */
  ghost predicate Live(d: Driver) {
    d.host.Listening? && d.host.job.gen == d.current
  }

  ghost predicate LiveStage(e: Engine, n: Net, g: Guest, job: Job, fed: Bytes) {
    (InTransit(n, g, job) && fed == []) || Running(e, n, g, job, fed) || Answered(e, n, g, job, fed)
  }

  ghost predicate Stage(e: Engine, s: State) {
    if Live(s.driver) then LiveStage(e, s.net, s.guest, s.driver.host.job, s.driver.host.fed)
    else Resting(s.net, s.guest, s.driver.current)
  }

  ghost predicate Inv(e: Engine, s: State) {
    Basics(s) && Stage(e, s)
  }

  /* ---- the audio of a request, step by step ---- */

  lemma VoicedChunk(e: Engine, job: Job, offset: nat)
    requires offset < |job.text| && CharsFrom(job.text, offset)
    ensures var end := ChunkEnd(job.text, offset);
            && CharsFrom(job.text, end)
            && Voiced(e, job, offset) == Calls(e, job.req, offset, 0) + Voiced(e, job, end)
  {
    ChunkIsUtf8(job.text, offset);
  }

  lemma VoicedEnd(e: Engine, job: Job)
    ensures Voiced(e, job, |job.text|) == []
  {
  }

  lemma CallsStep(e: Engine, req: nat, offset: nat, call: nat)
    ensures call < e.calls(req, offset) ==>
              Calls(e, req, offset, call) == e.samples(req, offset, call) + Calls(e, req, offset, call + 1)
    ensures call >= e.calls(req, offset) ==> Calls(e, req, offset, call) == []
  {
  }

  lemma IsPrefix(a: Bytes, b: Bytes, c: Bytes)
    requires a + b == c
    ensures a <= c
  {
  }

  lemma HearMore(h: Hearing, q: seq<Up>, r: seq<Up>, m: Up, gen: nat)
    ensures HearAll(h, q + (r + [m]), gen) == Hear(HearAll(h, q + r, gen), m, gen)
  {
    assert q + (r + [m]) == (q + r) + [m];
    HearLast(h, q + r, m, gen);
  }

  lemma SilentMore(q: seq<Up>, r: seq<Up>, more: seq<Up>, gen: nat)
    requires Silent(q + r, gen) && Silent(more, gen)
    ensures Silent(q + (r + more), gen)
  {
  }

  lemma HearSilent(h: Hearing, q: seq<Up>, r: seq<Up>, more: seq<Up>, gen: nat)
    requires Silent(more, gen) && |more| <= 1
    ensures HearAll(h, q + (r + more), gen) == HearAll(h, q + r, gen)
  {
    if more == [] {
      assert r + more == r;
    } else {
      assert more == [more[0]] && more[0] in more;
      HearMore(h, q, r, more[0], gen);
    }
  }

  /* ---- steps of the guest's worker ---- */

  /** At work on other requests, the worker says nothing about this generation. */
  lemma WorkerAway(e: Engine, g: Guest, gen: nat, ok: bool, current: nat)
    requires GuestOk(g, current) && WorkerDone(g.worker, gen) && !PendingHas(g, gen) && gen > 0
    ensures var g' := WorkerNext(e, g, ok);
            WorkerDone(g'.worker, gen) && !PendingHas(g', gen) && g'.reader == g.reader
    ensures Silent(WorkerSays(e, g), gen) && |WorkerSays(e, g)| <= 1
  {
    hide ChunkEnd;
  }

  /** One step of a worker at work on the live request. */
  lemma WorkerWorks(e: Engine, g: Guest, job: Job, ok: bool, current: nat)
    requires GuestOk(g, current) && Working(e, g, job) && job.gen > 0 && Utf8(job.text)
    ensures var g' := WorkerNext(e, g, ok);
            if g.worker.Reporting? then g'.worker.Releasing? && g'.worker.job == job && g'.reader.Reading? && !PendingHas(g', job.gen)
            else Working(e, g', job)
  {
    hide CharsFrom, ChunkEnd;
    if g.worker.Looping? && g.worker.offset < |job.text| {
      VoicedChunk(e, job, g.worker.offset);
    }
  }

  /** What is said and what is still to say adds up after a step of the worker. */
  ghost predicate TallyKept(e: Engine, g: Guest, job: Job, ok: bool, h: Hearing) {
    var (g', says) := (WorkerNext(e, g, ok), WorkerSays(e, g));
    && |says| <= 1
    && var h' := if says == [] then h else Hear(h, says[0], job.gen);
       if g.worker.Reporting? then Whole(e, job, h') else Tally(e, g'.worker, job, h')
  }

  ghost predicate AtWork(e: Engine, g: Guest, job: Job, h: Hearing) {
    GuestOk(g, job.gen) && Working(e, g, job) && job.gen > 0 && Utf8(job.text) && Tally(e, g.worker, job, h)
  }

  lemma TallyLooping(e: Engine, g: Guest, job: Job, ok: bool, h: Hearing)
    requires AtWork(e, g, job, h) && g.worker.Looping?
    ensures TallyKept(e, g, job, ok, h)
  {
    hide CharsFrom, ChunkEnd, Voiced, Calls;
    PlusNil(h.audio);
    if g.worker.offset < |job.text| {
      VoicedChunk(e, job, g.worker.offset);
    } else {
      VoicedEnd(e, job);
    }
  }

  lemma TallyCalling(e: Engine, g: Guest, job: Job, ok: bool, h: Hearing)
    requires AtWork(e, g, job, h) && g.worker.Calling?
    ensures TallyKept(e, g, job, ok, h)
  {
    hide CharsFrom, ChunkEnd, Voiced, Calls;
    var Calling(_, offset, end, call) := g.worker;
    CallsStep(e, job.req, offset, call);
    PlusNil(Voiced(e, job, end));
    PlusNil(Calls(e, job.req, offset, call + 1));
    IsPrefix(h.audio, Rest(e, g.worker), Voiced(e, job, 0));
  }

  lemma TallySending(e: Engine, g: Guest, job: Job, ok: bool, h: Hearing)
    requires AtWork(e, g, job, h) && g.worker.Sending?
    ensures TallyKept(e, g, job, ok, h)
  {
    hide CharsFrom, ChunkEnd, Voiced, Calls;
    var Sending(_, offset, end, call) := g.worker;
    CallsStep(e, job.req, offset, call);
    var x, y, z := e.samples(job.req, offset, call), Calls(e, job.req, offset, call + 1), Voiced(e, job, end);
    Assoc(x, y, z);
    Assoc(h.audio, x, y + z);
  }

  lemma TallyOther(e: Engine, g: Guest, job: Job, ok: bool, h: Hearing)
    requires AtWork(e, g, job, h) && !g.worker.Looping? && !g.worker.Calling? && !g.worker.Sending?
    ensures TallyKept(e, g, job, ok, h)
  {
    hide CharsFrom, ChunkEnd, Voiced, Calls;
    PlusNil(h.audio);
    if g.worker.Initializing? {
      IsPrefix(h.audio, Rest(e, g.worker), Voiced(e, job, 0));
    }
  }

  lemma WorkerTally(e: Engine, g: Guest, job: Job, ok: bool, h: Hearing)
    requires AtWork(e, g, job, h)
    ensures TallyKept(e, g, job, ok, h)
  {
    hide TallyKept, AtWork;
    match g.worker
    case Looping(_, _) => TallyLooping(e, g, job, ok, h);
    case Calling(_, _, _, _) => TallyCalling(e, g, job, ok, h);
    case Sending(_, _, _, _) => TallySending(e, g, job, ok, h);
    case _ => TallyOther(e, g, job, ok, h);
  }

  function AfterWork(e: Engine, n: Net, g: Guest): Net {
    n.(up := n.up + WorkerSays(e, g))
  }

  lemma WorkerRuns(e: Engine, n: Net, g: Guest, job: Job, fed: Bytes, ok: bool)
    requires GuestOk(g, job.gen) && Running(e, n, g, job, fed) && job.gen > 0 && Utf8(job.text)
    ensures LiveStage(e, AfterWork(e, n, g), WorkerNext(e, g, ok), job, fed)
  {
    hide GuestOk, NoSpeak, Silent, CharsFrom, Tally, Working, Whole, WorkerNext, WorkerSays, Hear, HearAll;
    var gen, says := job.gen, WorkerSays(e, g);
    var h := Hears(n, job, fed);
    WorkerWorks(e, g, job, ok, gen);
    WorkerTally(e, g, job, ok, h);
    if says != [] {
      assert says == [says[0]];
      HearMore(Open(fed), n.messages, n.up, says[0], gen);
    } else {
      assert n.up + says == n.up;
    }
    NoSpeakNil(gen);
    WorkingParts(e, g, job);
  }

  lemma WorkerAnswered(e: Engine, n: Net, g: Guest, job: Job, fed: Bytes, ok: bool)
    requires GuestOk(g, job.gen) && Answered(e, n, g, job, fed) && job.gen > 0
    ensures LiveStage(e, AfterWork(e, n, g), WorkerNext(e, g, ok), job, fed)
  {
    hide GuestOk, NoSpeak, Silent, CharsFrom, Whole, WorkerNext, WorkerSays, Hear, HearAll, Tally, Working;
    WorkerAway(e, g, job.gen, ok, job.gen);
    HearSilent(Open(fed), n.messages, n.up, WorkerSays(e, g), job.gen);
  }

  lemma WorkerInTransit(e: Engine, n: Net, g: Guest, job: Job, ok: bool)
    requires GuestOk(g, job.gen) && InTransit(n, g, job) && job.gen > 0
    ensures LiveStage(e, AfterWork(e, n, g), WorkerNext(e, g, ok), job, [])
  {
    hide GuestOk, NoSpeak, Silent, CharsFrom, Whole, WorkerNext, WorkerSays, Hear, HearAll, Tally, Working;
    if g.worker.Waiting? && n.down == [] && g.reader.Reading? {
      WorkerTakes(e, g, job, ok);
      HearSilence(Open([]), Coming(n), job.gen);
      assert n.up + [] == n.up;
    } else {
      hide InTransit;
      WorkerTransit(e, n, g, job, ok, job.gen);
    }
  }

  lemma WorkerStage(e: Engine, s: State, ok: bool)
    requires Inv(e, s)
    ensures Stage(e, Next(e, s, WorkerStep(ok)))
  {
    hide GuestOk, Silent, InTransit, Running, Answered, LiveStage, Speakable, UpsOld, DownsOld, WorkerNext,
         WorkerSays;
    var State(n, g, d) := s;
    if !Live(d) {
      WorkerAway(e, g, d.current, ok, d.current);
      SilentMore(n.messages, n.up, WorkerSays(e, g), d.current);
    } else {
      var job, fed := d.host.job, d.host.fed;
      StageCases(e, n, g, job, fed);
      if Running(e, n, g, job, fed) {
        WorkerRuns(e, n, g, job, fed, ok);
      } else if Answered(e, n, g, job, fed) {
        WorkerAnswered(e, n, g, job, fed, ok);
      } else {
        WorkerInTransit(e, n, g, job, ok);
      }
    }
  }

  lemma StageCases(e: Engine, n: Net, g: Guest, job: Job, fed: Bytes)
    requires LiveStage(e, n, g, job, fed)
    ensures Running(e, n, g, job, fed) || Answered(e, n, g, job, fed) || (InTransit(n, g, job) && fed == [])
  {
  }

  lemma NoSpeakNil(gen: nat)
    ensures NoSpeak([], gen)
  {
  }

  lemma WorkingParts(e: Engine, g: Guest, job: Job)
    requires Working(e, g, job)
    ensures g.reader.Reading? && !PendingHas(g, job.gen) && !g.worker.Waiting? && g.worker.job == job
  {
  }

  lemma WorkerTakes(e: Engine, g: Guest, job: Job, ok: bool)
    requires g.worker.Waiting? && g.reader.Reading? && g.pending == Some(job)
    ensures WorkerSays(e, g) == [] && Working(e, WorkerNext(e, g, ok), job)
    ensures Tally(e, WorkerNext(e, g, ok).worker, job, Open([]))
  {
    hide Voiced;
    PlusNil(Voiced(e, job, 0));
  }

  lemma WorkerTransit(e: Engine, n: Net, g: Guest, job: Job, ok: bool, current: nat)
    requires GuestOk(g, current) && InTransit(n, g, job) && job.gen > 0
    requires !(g.worker.Waiting? && n.down == [] && g.reader.Reading?)
    ensures InTransit(n.(up := n.up + WorkerSays(e, g)), WorkerNext(e, g, ok), job)
  {
    hide ChunkEnd, NoSpeak;
    if !g.worker.Waiting? {
      assert WorkerNext(e, g, ok).pending == g.pending;
      assert Silent(WorkerSays(e, g), job.gen);
    }
    SilentMore(n.messages, n.up, WorkerSays(e, g), job.gen);
  }

  /* ---- steps of the guest's reader ---- */

  lemma NoSpeakRest(q: seq<Down>, gen: nat)
    requires NoSpeak(q, gen) && q != []
    ensures NoSpeak(q[1..], gen) && !(q[0].Speak? && q[0].job.gen == gen)
  {
    assert q[0] in q;
  }

  lemma NoSpeakMore(q: seq<Down>, more: seq<Down>, gen: nat)
    requires NoSpeak(q, gen) && NoSpeak(more, gen)
    ensures NoSpeak(q + more, gen)
  {
  }

  lemma ReaderSilent(g: Guest, gen: nat, current: nat)
    requires GuestOk(g, current) && gen == current
    ensures Silent(ReaderSays(g), gen) && |ReaderSays(g)| <= 1
  {
  }

  function AfterRead(n: Net, g: Guest): Net {
    n.(up := n.up + ReaderSays(g), down := if g.reader.Reading? && n.down != [] then n.down[1..] else n.down)
  }

  lemma ReaderAway(n: Net, g: Guest, gen: nat)
    requires NoneSent(n, g, gen)
    ensures NoneSent(AfterRead(n, g), ReaderNext(g, n.down), gen)
    ensures ReaderNext(g, n.down).worker == g.worker
  {
    hide NoSpeak;
    if n.down != [] {
      NoSpeakRest(n.down, gen);
    }
  }

  lemma ReaderTransit(n: Net, g: Guest, job: Job, current: nat)
    requires GuestOk(g, current) && InTransit(n, g, job) && job.gen == current
    ensures InTransit(AfterRead(n, g), ReaderNext(g, n.down), job)
  {
    hide NoSpeak;
    ReaderSilent(g, job.gen, current);
    SilentMore(n.messages, n.up, ReaderSays(g), job.gen);
    if n.down != [] && g.reader.Reading? {
      var k := |n.down| - 1;
      if k > 0 {
        NoSpeakRest(n.down[..k], job.gen);
        assert n.down[..k][1..] == n.down[1..][..k - 1];
        assert n.down[..k][0] == n.down[0];
      }
    }
  }

  lemma ReaderStage(e: Engine, s: State)
    requires Inv(e, s)
    ensures Stage(e, Next(e, s, ReaderStep))
  {
    hide GuestOk, NoSpeak, Silent, Tally, Whole, InText, DownsOld, UpsOld, JobsUpTo, JobTextsOk, Speakable;
    var State(n, g, d) := s;
    var gen, says := d.current, ReaderSays(g);
    ReaderSilent(g, gen, gen);
    if !Live(d) {
      ReaderAway(n, g, gen);
      SilentMore(n.messages, n.up, says, gen);
    } else {
      var job, fed := d.host.job, d.host.fed;
      if Running(e, n, g, job, fed) {
        assert n.up + [] == n.up;
      } else if Answered(e, n, g, job, fed) {
        ReaderAway(n, g, gen);
        HearSilent(Open(fed), n.messages, n.up, says, gen);
      } else {
        ReaderTransit(n, g, job, gen);
      }
    }
  }

  /* ---- steps of the driver ---- */

  lemma DeliverStage(e: Engine, s: State)
    requires Inv(e, s)
    ensures Stage(e, Next(e, s, DeliverStep))
  {
    hide GuestOk, NoSpeak, Silent, Tally, Whole, Working, DownsOld, UpsOld, JobsUpTo, JobTextsOk, Speakable;
    if s.net.up != [] {
      Delivered(s.net.messages, s.net.up);
    }
  }

  lemma SilentRest(m: Up, q: seq<Up>, gen: nat)
    requires Silent([m] + q, gen)
    ensures m.gen != gen && Silent(q, gen)
  {
    assert m in [m] + q;
    forall x | x in q ensures x in [m] + q {}
  }

  lemma FirstComing(q: seq<Up>, r: seq<Up>)
    requires q != []
    ensures q + r == [q[0]] + (q[1..] + r)
  {
  }

  /** The driver hears the first message on its way. */
  lemma HostListens(e: Engine, n: Net, g: Guest, d: Driver)
    requires Live(d) && LiveStage(e, n, g, d.host.job, d.host.fed) && n.messages != []
    ensures Stage(e, State(n.(messages := n.messages[1..]), g, HostNext(d, n.messages)))
  {
    hide NoSpeak, Silent, Working, Voiced;
    var job, fed, m := d.host.job, d.host.fed, n.messages[0];
    var q := n.messages[1..] + n.up;
    FirstComing(n.messages, n.up);
    if InTransit(n, g, job) && fed == [] {
      SilentRest(m, q, job.gen);
    } else {
      HearFirst(Open(fed), m, q, job.gen);
      var h := Hear(Open(fed), m, job.gen);
      if !h.Open? {
        HearClosed(h, q, job.gen);
      }
    }
  }

  lemma HostRests(n: Net, g: Guest, d: Driver)
    requires !Live(d) && Resting(n, g, d.current) && HostGen(d.host) <= d.current
    ensures var n' := n.(down := n.down + HostSays(d),
                         messages := if d.host.Listening? && n.messages != [] then n.messages[1..] else n.messages);
            var d' := HostNext(d, n.messages);
            if Live(d') then InTransit(n', g, d'.host.job) && d'.host.fed == [] else Resting(n', g, d.current)
  {
    hide NoSpeak, Silent;
    if d.host.Requesting? {
      var says := HostSays(d);
      assert (n.down + says)[..|n.down|] == n.down;
      if d.host.gen != d.current {
        NoSpeakMore(n.down, says, d.current) by { NoSpeakOther(says[0].job, d.current); }
      }
    } else {
      assert n.down + [] == n.down;
      if d.host.Listening? && n.messages != [] {
        FirstComing(n.messages, n.up);
        SilentRest(n.messages[0], n.messages[1..] + n.up, d.current);
      }
    }
  }

  lemma NoSpeakOther(job: Job, gen: nat)
    requires job.gen != gen
    ensures NoSpeak([Speak(job)], gen)
  {
  }

  lemma NoSpeakCancel(says: seq<Down>, gen: nat)
    requires forall m :: m in says ==> m.Cancel?
    ensures NoSpeak(says, gen)
  {
  }

  lemma HostStage(e: Engine, s: State)
    requires Inv(e, s)
    ensures Stage(e, Next(e, s, HostStep))
  {
    hide GuestOk, LiveStage, Resting, DownsOld, UpsOld, JobsUpTo, JobTextsOk, Speakable;
    var State(n, g, d) := s;
    if !Live(d) {
      HostRests(n, g, d);
      HostLives(e, n, g, d);
    } else {
      assert n.down + [] == n.down;
      if n.messages != [] {
        HostListens(e, n, g, d);
      }
    }
  }

  lemma HostLives(e: Engine, n: Net, g: Guest, d: Driver)
    ensures HostNext(d, n.messages).current == d.current
    ensures forall n', job :: InTransit(n', g, job) ==> LiveStage(e, n', g, job, [])
  {
  }

  lemma FreshGeneration(n: Net, g: Guest, current: nat)
    requires NetOld(n, current) && GuestOk(g, current)
    ensures Resting(n, g, current + 1)
  {
  }

  lemma NewGuestRests(gen: nat)
    requires gen > 0
    ensures Resting(NEW_NET, NEW_GUEST, gen)
  {
  }

  lemma CallerStage(e: Engine, s: State, restart: bool)
    requires Inv(e, s)
    ensures Stage(e, Next(e, s, CallerStep(restart)))
  {
    hide GuestOk, NoSpeak, Silent, LiveStage, DownsOld, UpsOld, JobsUpTo, JobTextsOk, Speakable, HostTexts;
    var State(n, g, d) := s;
    NewGuestRests(d.current);
    NoSpeakCancel(CallerSays(d), d.current);
    if !Live(d) {
      NoSpeakMore(n.down, CallerSays(d), d.current);
    } else {
      assert n.down + [] == n.down;
    }
  }

  lemma StepStage(e: Engine, s: State, step: Step)
    requires Inv(e, s)
    ensures Stage(e, Next(e, s, step))
  {
    match step
    case WorkerStep(ok) => WorkerStage(e, s, ok);
    case ReaderStep => ReaderStage(e, s);
    case DeliverStep => DeliverStage(e, s);
    case HostStep => HostStage(e, s);
    case CallerStep(restart) => CallerStage(e, s, restart);
    case CancelCall =>
      hide LiveStage, NoneSent, NetOld, GuestOk, Resting;
      FreshGeneration(s.net, s.guest, s.driver.current);
    case _ =>
      hide LiveStage, NoneSent, NetOld, GuestOk, Resting;
      NewGuestRests(s.driver.current);
  }

  /* ---- runs ---- */

  function Run(e: Engine, steps: seq<Step>): State {
    if steps == [] then Init() else Next(e, Run(e, steps[..|steps| - 1]), steps[|steps| - 1])
  }

  lemma {:induction false} RunInv(e: Engine, steps: seq<Step>)
    ensures Inv(e, Run(e, steps))
  {
    if steps != [] {
      var s := Run(e, steps[..|steps| - 1]);
      RunInv(e, steps[..|steps| - 1]);
      hide Basics, Stage, Next;
      StepBasics(e, s, steps[|steps| - 1]);
      StepStage(e, s, steps[|steps| - 1]);
    }
  }

  /** The audio of a request, by its chunks: the samples of each chunk, in order. */
  function ChunkAudio(e: Engine, job: Job, offset: nat): seq<Bytes>
    decreases |job.text| - offset
  {
    if offset >= |job.text| || ChunkEnd(job.text, offset) <= offset then []
    else [Calls(e, job.req, offset, 0)] + ChunkAudio(e, job, ChunkEnd(job.text, offset))
  }

  /** Voiced is the concatenation of the chunks' samples, one for each chunk of the text. */
  lemma {:induction false} VoicedByChunks(e: Engine, job: Job, offset: nat)
    requires offset <= |job.text|
    ensures Voiced(e, job, offset) == Concat(ChunkAudio(e, job, offset))
    ensures |ChunkAudio(e, job, offset)| == |ChunksFrom(job.text, offset)|
    decreases |job.text| - offset
  {
    var end := ChunkEnd(job.text, offset);
    if offset < |job.text| && end > offset {
      VoicedByChunks(e, job, end);
      ConcatFirst(Calls(e, job.req, offset, 0), ChunkAudio(e, job, end));
    }
  }

  /** When the driver takes DONE for a request whose generation was not cancelled, it has fed
  exactly the audio of the request's chunks, in order. */
  lemma DoneIsComplete(e: Engine, steps: seq<Step>)
    requires var s := Run(e, steps);
             && s.driver.host.Listening? && s.net.messages != []
             && s.net.messages[0] == Done(s.driver.host.job.gen)
             && s.driver.host.job.gen == s.driver.current
    ensures var h := Run(e, steps).driver.host;
            h.fed == Concat(ChunkAudio(e, h.job, 0)) && Concat(ChunksFrom(h.job.text, 0)) == h.job.text
  {
    RunInv(e, steps);
    var s := Run(e, steps);
    hide Run;
    var job, fed, m := s.driver.host.job, s.driver.host.fed, s.net.messages[0];
    VoicedByChunks(e, job, 0);
    ChunksMakeText(job.text, 0);
    assert job.text[0..] == job.text;
    var q := s.net.messages[1..] + s.net.up;
    FirstComing(s.net.messages, s.net.up);
    assert m in Coming(s.net);
    HearFirst(Open(fed), m, q, job.gen);
    HearClosed(Closed(fed, true), q, job.gen);
  }

  /** In every run, while the driver waits for a request of a generation that was not
  cancelled, the audio fed so far is a prefix of the request's. */
  lemma FedIsPrefix(e: Engine, steps: seq<Step>)
    requires Live(Run(e, steps).driver)
    ensures var h := Run(e, steps).driver.host; h.fed <= Concat(ChunkAudio(e, h.job, 0))
  {
    RunInv(e, steps);
    var s := Run(e, steps);
    hide Run;
    var job, fed := s.driver.host.job, s.driver.host.fed;
    VoicedByChunks(e, job, 0);
    if !(InTransit(s.net, s.guest, job) && fed == []) {
      HearOpen(Open(fed), Coming(s.net), job.gen);
      var h := Hears(s.net, job, fed);
      assert fed <= h.audio;
      if Running(e, s.net, s.guest, job, fed) && !Failed(s.guest.worker) {
        IsPrefix(h.audio, Rest(e, s.guest.worker), Voiced(e, job, 0));
      }
    }
  }

  /** A request of a generation that was not cancelled is never lost: it is on its way to the
  guest's worker, or the worker is at work on it with the cancel flag down, or the answer is
  on its way back. */
  lemma RequestNotLost(e: Engine, steps: seq<Step>)
    requires Live(Run(e, steps).driver)
    ensures var State(n, g, d) := Run(e, steps); var job := d.host.job;
            || Speak(job) in n.down || g.reader == Storing(job) || g.pending == Some(job)
            || (!g.worker.Waiting? && g.worker.job == job && (g.cancelling ==> g.worker.Clearing?))
            || Done(job.gen) in Coming(n) || Error(job.gen) in Coming(n)
  {
    RunInv(e, steps);
    var State(n, g, d) := Run(e, steps);
    hide Run;
    var job, fed := d.host.job, d.host.fed;
    if Answered(e, n, g, job, fed) {
      HasAnswer(Open(fed), Coming(n), job.gen);
    }
  }

  lemma {:induction false} HasAnswer(h: Hearing, q: seq<Up>, gen: nat)
    requires h.Open? && HearAll(h, q, gen).Closed?
    ensures Done(gen) in q || Error(gen) in q
  {
    var q0, m := q[..|q| - 1], q[|q| - 1];
    if HearAll(h, q0, gen).Closed? {
      HasAnswer(h, q0, gen);
    }
  }
}
