/** Laws of the speech protocol over every run: cancelled audio is not played, cancels reach the guest's worker, an
utterance's texts keep their order, and what happens when nothing interferes. */
module SpeechLaws {
  import opened Octets
  import opened Options
  import opened Chunks
  import opened Speech
  import opened SpeechRuns

  /* ---- cancelled audio ---- */

  lemma {:induction false} RequestsCounted(e: Engine, steps: seq<Step>)
    ensures var d := Run(e, steps).driver; d.host.Listening? ==> d.host.job.req < d.requests
  {
    if steps != [] {
      RequestsCounted(e, steps[..|steps| - 1]);
      hide ChunkEnd, Utf8, WorkerNext, ReaderNext;
    }
  }

  /** The generation of the request has been cancelled, and as long as the driver waits for it, it has heard just `fed`. */
  ghost predicate Stale(d: Driver, job: Job, fed: Bytes) {
    && job.gen < d.current && job.req < d.requests
    && (d.host.Listening? && d.host.job.req == job.req ==> d.host.job == job && d.host.fed == fed)
  }

  lemma StaleStep(e: Engine, s: State, step: Step, job: Job, fed: Bytes)
    requires Stale(s.driver, job, fed)
    ensures Stale(Next(e, s, step).driver, job, fed)
  {
    hide ChunkEnd, Utf8, WorkerNext, ReaderNext;
  }

  /** Once its generation has been cancelled, a request is fed no more audio: however the run goes on, while the driver
  still waits for it, the player has got what it had got then. */
  lemma {:induction false} CancelledNotFed(e: Engine, steps: seq<Step>, more: seq<Step>)
    requires var d := Run(e, steps).driver; d.host.Listening? && d.host.job.gen < d.current
    ensures var (h, h') := (Run(e, steps).driver.host, Run(e, steps + more).driver.host);
            Stale(Run(e, steps + more).driver, h.job, h.fed)
            && (h'.Listening? && h'.job == h.job ==> h'.fed == h.fed)
  {
    var h := Run(e, steps).driver.host;
    if more == [] {
      RequestsCounted(e, steps);
      assert steps + more == steps;
    } else {
      var k := |more| - 1;
      CancelledNotFed(e, steps, more[..k]);
      assert (steps + more)[..|steps + more| - 1] == steps + more[..k];
      StaleStep(e, Run(e, steps + more[..k]), more[k], h.job, h.fed);
    }
  }

  /** In every run, audio reaches the player only in the step in which the driver takes it from its queue, for the
  request it waits for, and only while that request's generation is the current one. */
  lemma FedOnlyWhenCurrent(e: Engine, steps: seq<Step>, step: Step)
    requires var (d, d') := (Run(e, steps).driver, Run(e, steps + [step]).driver);
             d.host.Listening? && d'.host.Listening? && d'.host.job == d.host.job && d'.host.fed != d.host.fed
    ensures var (s, h') := (Run(e, steps), Run(e, steps + [step]).driver.host); var h := s.driver.host;
            && step == HostStep && s.net.messages != [] && h.job.gen == s.driver.current
            && s.net.messages[0].Audio? && s.net.messages[0].gen == h.job.gen && h'.fed == h.fed + s.net.messages[0].data
  {
    assert (steps + [step])[..|steps|] == steps;
    RequestsCounted(e, steps);
    hide Run, ChunkEnd, Utf8, WorkerNext, ReaderNext;
  }

  /** The driver no longer waits for request `req`. */
  ghost predicate Left(d: Driver, req: nat) {
    req < d.requests && !(d.host.Listening? && d.host.job.req == req)
  }

  lemma {:induction false} StaysLeft(e: Engine, steps: seq<Step>, more: seq<Step>, req: nat)
    requires Left(Run(e, steps).driver, req)
    ensures Left(Run(e, steps + more).driver, req)
  {
    if more == [] {
      assert steps + more == steps;
    } else {
      var k := |more| - 1;
      StaysLeft(e, steps, more[..k], req);
      assert (steps + more)[..|steps + more| - 1] == steps + more[..k];
      LeftStep(e, Run(e, steps + more[..k]), more[k], req);
    }
  }

  lemma LeftStep(e: Engine, s: State, step: Step, req: nat)
    requires Left(s.driver, req)
    ensures Left(Next(e, s, step).driver, req)
  {
    hide ChunkEnd, Utf8, WorkerNext, ReaderNext;
  }

  /** Any answer to a request, stale or not, ends the wait for it for good. DONE goes on with the next text, an error or
  the guest's word that it was cancelled gives up the utterance. */
  lemma AnswerEnds(e: Engine, steps: seq<Step>, more: seq<Step>)
    requires var s := Run(e, steps);
             && s.driver.host.Listening? && s.net.messages != []
             && s.net.messages[0].gen == s.driver.host.job.gen && !s.net.messages[0].Audio?
    ensures Left(Run(e, steps + [HostStep] + more).driver, Run(e, steps).driver.host.job.req)
    ensures var (s, h') := (Run(e, steps), Run(e, steps + [HostStep]).driver.host);
            if s.net.messages[0].Done? then h' == Rendering(s.driver.host.job.gen, s.driver.host.rest)
            else h' == Ending(s.driver.host.job.gen)
  {
    RequestsCounted(e, steps);
    assert (steps + [HostStep])[..|steps|] == steps;
    StaysLeft(e, steps + [HostStep], more, Run(e, steps).driver.host.job.req);
  }

  /** When a cancel goes on from emptying the driver's queue, nothing is queued. */
  lemma CancelDrains(e: Engine, steps: seq<Step>, restart: bool)
    requires Run(e, steps).driver.caller.Draining? && !Run(e, steps + [CallerStep(restart)]).driver.caller.Draining?
    ensures Run(e, steps + [CallerStep(restart)]).driver.jobs == []
  {
    assert (steps + [CallerStep(restart)])[..|steps|] == steps;
    hide Run;
  }

  /** While it renders a job, the driver's active generation is the job's. */
  ghost predicate ActiveOk(d: Driver) {
    d.host.Rendering? || d.host.Requesting? || d.host.Listening? || d.host.Ending? ==> d.active == Some(HostGen(d.host))
  }

  lemma {:induction false} ActiveNamed(e: Engine, steps: seq<Step>)
    ensures ActiveOk(Run(e, steps).driver)
  {
    if steps != [] {
      ActiveNamed(e, steps[..|steps| - 1]);
      hide ChunkEnd, Utf8, WorkerNext, ReaderNext;
    }
  }

  /** Cancelling while the driver waits for a request: the request's generation is no longer current, and the next
  message to the guest cancels just that generation. */
  lemma CancelNames(e: Engine, steps: seq<Step>, restart: bool)
    requires var d := Run(e, steps).driver; d.host.Listening? && d.caller.Idle?
    ensures var (s, s') := (Run(e, steps), Run(e, steps + [CancelCall] + [CallerStep(restart)]));
            && s'.net.down == s.net.down + [Cancel(s.driver.host.job.gen)]
            && s'.driver.host == s.driver.host && s'.driver.host.job.gen < s'.driver.current
  {
    ActiveNamed(e, steps);
    RunInv(e, steps);
    RunTwo(e, steps, CancelCall, CallerStep(restart));
    hide Run;
    CancelSteps(e, Run(e, steps), restart);
  }

  lemma CancelSteps(e: Engine, s: State, restart: bool)
    requires s.driver.host.Listening? && s.driver.caller.Idle? && ActiveOk(s.driver) && Basics(s)
    ensures var s' := Next(e, Next(e, s, CancelCall), CallerStep(restart));
            && s'.net.down == s.net.down + [Cancel(s.driver.host.job.gen)]
            && s'.driver.host == s.driver.host && s'.driver.host.job.gen < s'.driver.current
  {
    hide NetOld, GuestOk, JobsUpTo, JobTextsOk, HostTexts, Speakable, WorkerNext, ReaderNext, HostNext;
  }

  lemma RunTwo(e: Engine, steps: seq<Step>, a: Step, b: Step)
    ensures Run(e, steps + [a] + [b]) == Next(e, Next(e, Run(e, steps), a), b)
  {
    hide Next;
    assert (steps + [a])[..|steps|] == steps;
    assert (steps + [a] + [b])[..|steps| + 1] == steps + [a];
  }

  /** A cancel of the generation that the guest's worker speaks for, looked at by the guest's reader, silences it. */
  lemma CancelTaken(e: Engine, steps: seq<Step>)
    requires var g := Run(e, steps).guest;
             g.reader.Checking? && (g.worker.Looping? || g.worker.Calling?) && g.worker.job.gen == g.reader.gen
    ensures Silenced(Run(e, steps + [ReaderStep] + [ReaderStep]).guest)
  {
    RunInv(e, steps);
    RunTwo(e, steps, ReaderStep, ReaderStep);
    hide Run;
  }

  /** The cancel flag is up while the guest's worker is in its job, and no callback has got past it. */
  ghost predicate Silenced(g: Guest) {
    g.cancelling && (g.worker.Looping? || g.worker.Calling? || g.worker.Finishing? || g.worker.Releasing?)
  }

  /** From then on the worker sends nothing more for its job, neither audio nor an answer, until it waits for the next. */
  lemma {:induction false} CancelSilences(e: Engine, steps: seq<Step>, more: seq<Step>)
    requires Silenced(Run(e, steps).guest)
    requires forall k :: 0 <= k <= |more| ==> !RunOn(e, steps, more, k).guest.worker.Waiting?
    ensures Silenced(RunOn(e, steps, more, |more|).guest) && WorkerSays(e, RunOn(e, steps, more, |more|).guest) == []
  {
    hide Next, Silenced, WorkerSays;
    assert steps + more[..0] == steps;
    if more != [] {
      var n := |more| - 1;
      forall k | 0 <= k <= n ensures RunOn(e, steps, more[..n], k) == RunOn(e, steps, more, k) {
        assert more[..n][..k] == more[..k];
      }
      CancelSilences(e, steps, more[..n]);
      var s := RunOn(e, steps, more, n);
      assert RunOn(e, steps, more, n + 1) == Next(e, s, more[n]) by {
        assert (steps + more[..n + 1])[..|steps| + n] == steps + more[..n];
      }
      SilencedStep(e, s, more[n]);
    }
    SilencedSays(e, RunOn(e, steps, more, |more|).guest);
  }

  lemma SilencedStep(e: Engine, s: State, step: Step)
    requires Silenced(s.guest)
    ensures Silenced(Next(e, s, step).guest) || Next(e, s, step).guest.worker.Waiting?
  {
    hide ChunkEnd, Utf8, HostNext, HostSays, CallerNext, CallerSays;
  }

  lemma SilencedSays(e: Engine, g: Guest)
    requires Silenced(g)
    ensures WorkerSays(e, g) == []
  {
  }

  /** The state after the first `k` more steps of a run. */
  function RunOn(e: Engine, steps: seq<Step>, more: seq<Step>, k: nat): State
    requires k <= |more|
  {
    Run(e, steps + more[..k])
  }

  /* ---- what happens when nothing interferes ---- */

  function RunAll(e: Engine, s: State, steps: seq<Step>): State
    decreases |steps|
  {
    if steps == [] then s else RunAll(e, Next(e, s, steps[0]), steps[1..])
  }

  /** An utterance handed to an idle driver makes it send its first text to the guest. */
  lemma SpeakIsSent(e: Engine, s: State, texts: seq<Bytes>)
    requires s.driver.caller.Idle? && s.driver.host.Taking? && s.driver.jobs == [] && Speakable(texts) && texts != []
    ensures var host := [HostStep, HostStep, HostStep, HostStep, HostStep];
            var s' := RunAll(e, RunAll(e, s, [SpeakCall(texts), CallerStep(false)]), host);
            && s'.net.down == s.net.down + [Speak(Job(s.driver.current, s.driver.requests, texts[0]))]
            && s'.driver.host == Listening(Job(s.driver.current, s.driver.requests, texts[0]), texts[1..], [])
            && s'.guest == s.guest
  {
    var d := s.driver;
    var s1 := State(s.net, s.guest, d.(jobs := [(d.current, texts)]));
    TwoSteps(e, s, SpeakCall(texts), CallerStep(false));
    assert s.net.down + [] == s.net.down && [] + [(d.current, texts)] == [(d.current, texts)];
    assert RunAll(e, s, [SpeakCall(texts), CallerStep(false)]) == s1;
    HostSends(e, s1, texts);
  }

  lemma TwoSteps(e: Engine, s: State, a: Step, b: Step)
    ensures RunAll(e, s, [a, b]) == Next(e, Next(e, s, a), b)
  {
    hide Next;
    assert [a, b][1..] == [b] && [b][1..] == [];
    assert RunAll(e, Next(e, s, a), [b]) == RunAll(e, Next(e, Next(e, s, a), b), []);
  }

  lemma HostSends(e: Engine, s: State, texts: seq<Bytes>)
    requires s.driver.host.Taking? && s.driver.jobs == [(s.driver.current, texts)] && texts != []
    ensures var s' := RunAll(e, s, [HostStep, HostStep, HostStep, HostStep, HostStep]);
            && s'.net.down == s.net.down + [Speak(Job(s.driver.current, s.driver.requests, texts[0]))]
            && s'.driver.host == Listening(Job(s.driver.current, s.driver.requests, texts[0]), texts[1..], [])
            && s'.guest == s.guest
  {
    hide Speakable, WorkerNext, ReaderNext, CallerNext;
    var d, n, g := s.driver, s.net, s.guest;
    assert n.down + [] == n.down;
    var d1 := d.(jobs := [], host := Screening(d.current, texts));
    var d2 := d1.(host := Beginning(d.current, texts));
    var d3 := d1.(active := Some(d.current), host := Rendering(d.current, texts));
    var d4 := d3.(host := Requesting(d.current, texts[0], texts[1..]));
    assert Next(e, s, HostStep) == State(n, g, d1);
    assert Next(e, State(n, g, d1), HostStep) == State(n, g, d2);
    assert Next(e, State(n, g, d2), HostStep) == State(n, g, d3);
    assert Next(e, State(n, g, d3), HostStep) == State(n, g, d4);
    FiveSteps(e, s, State(n, g, d1), State(n, g, d2), State(n, g, d3), State(n, g, d4), HostStep);
  }

  lemma FiveSteps(e: Engine, s: State, s1: State, s2: State, s3: State, s4: State, a: Step)
    requires Next(e, s, a) == s1 && Next(e, s1, a) == s2 && Next(e, s2, a) == s3 && Next(e, s3, a) == s4
    ensures RunAll(e, s, [a, a, a, a, a]) == Next(e, s4, a)
  {
    hide Next;
    assert [a, a, a, a, a][1..] == [a, a, a, a];
    assert [a, a, a, a][1..] == [a, a, a];
    assert [a, a, a][1..] == [a, a];
    TwoSteps(e, s3, a, a);
    assert RunAll(e, s2, [a, a, a]) == RunAll(e, s3, [a, a]);
    assert RunAll(e, s1, [a, a, a, a]) == RunAll(e, s2, [a, a, a]);
  }

  /** The guest after `n` steps of its worker, with an engine that succeeds. */
  function Worked(e: Engine, g: Guest, n: nat): Guest
    decreases n
  {
    if n == 0 then g else Worked(e, WorkerNext(e, g, true), n - 1)
  }

  /** Left to itself, the guest's worker comes to the end of every UTF-8 text and is about to report DONE. */
  lemma {:induction false} WorkerFinishes(e: Engine, g: Guest) returns (n: nat)
    requires g.worker.Looping? && !g.cancelling && g.worker.offset <= |g.worker.job.text|
    requires CharsFrom(g.worker.job.text, g.worker.offset)
    ensures Worked(e, g, n) == g.(worker := Reporting(g.worker.job, true))
    decreases |g.worker.job.text| - g.worker.offset
  {
    var job, offset := g.worker.job, g.worker.offset;
    hide ChunkEnd, CharsFrom;
    if offset == |job.text| {
      n := 2;
      assert Worked(e, g, 2) == Worked(e, WorkerNext(e, g, true), 1);
      assert Worked(e, WorkerNext(e, g, true), 1) == Worked(e, WorkerNext(e, WorkerNext(e, g, true), true), 0);
    } else {
      var end := ChunkEnd(job.text, offset);
      ChunkIsUtf8(job.text, offset);
      var g1 := g.(worker := Calling(job, offset, end, 0));
      var k := CallsEnd(e, g1);
      var m := WorkerFinishes(e, g.(worker := Looping(job, end)));
      WorkedPlus(e, g1, k, m);
      n := 1 + (k + m);
      assert Worked(e, g, n) == Worked(e, g1, k + m);
    }
  }

  /** The callbacks of one chunk come to an end. */
  lemma {:induction false} CallsEnd(e: Engine, g: Guest) returns (n: nat)
    requires g.worker.Calling? && !g.cancelling
    ensures Worked(e, g, n) == g.(worker := Looping(g.worker.job, g.worker.end))
    decreases e.calls(g.worker.job.req, g.worker.offset) - g.worker.call
  {
    var Calling(job, offset, end, call) := g.worker;
    if call < e.calls(job.req, offset) {
      var m := CallsEnd(e, g.(worker := Calling(job, offset, end, call + 1)));
      var g1 := WorkerNext(e, g, true);
      if g1.worker.Sending? {
        n := 2 + m;
        assert Worked(e, g, n) == Worked(e, g1, 1 + m) == Worked(e, WorkerNext(e, g1, true), m);
      } else {
        n := 1 + m;
        assert Worked(e, g, n) == Worked(e, g1, m);
      }
    } else {
      n := 1;
      assert Worked(e, g, 1) == Worked(e, WorkerNext(e, g, true), 0);
    }
  }

  lemma {:induction false} WorkedPlus(e: Engine, g: Guest, m: nat, n: nat)
    ensures Worked(e, g, m + n) == Worked(e, Worked(e, g, m), n)
    decreases m
  {
    hide WorkerNext;
    if m > 0 {
      WorkedPlus(e, WorkerNext(e, g, true), m - 1, n);
    }
  }

  /* ---- the texts of an utterance ---- */

  /** The texts of the job that the driver's worker took last. */
  function Taken(e: Engine, steps: seq<Step>): seq<Bytes> {
    if steps == [] then [] else
    var (before, s) := (Taken(e, steps[..|steps| - 1]), Run(e, steps[..|steps| - 1]));
    if steps[|steps| - 1].HostStep? && s.driver.host.Taking? && s.driver.jobs != [] then s.driver.jobs[0].1 else before
  }

  /** The texts sent to the guest since then. */
  function Asked(e: Engine, steps: seq<Step>): seq<Bytes> {
    if steps == [] then [] else
    var (before, s) := (Asked(e, steps[..|steps| - 1]), Run(e, steps[..|steps| - 1]));
    if !steps[|steps| - 1].HostStep? then before
    else if s.driver.host.Taking? && s.driver.jobs != [] then []
    else before + SpokenTexts(HostSays(s.driver))
  }

  /** The texts of the requests among messages to the guest. */
  function SpokenTexts(q: seq<Down>): seq<Bytes> {
    if q == [] then [] else (if q[0].Speak? then [q[0].job.text] else []) + SpokenTexts(q[1..])
  }

  /** How often the guest's DONE has been heard since then. */
  function Heeded(e: Engine, steps: seq<Step>): nat {
    if steps == [] then 0 else
    var (before, s) := (Heeded(e, steps[..|steps| - 1]), Run(e, steps[..|steps| - 1]));
    if !steps[|steps| - 1].HostStep? then before
    else if s.driver.host.Taking? && s.driver.jobs != [] then 0
    else if s.driver.host.Listening? && s.net.messages != [] && s.net.messages[0] == Done(s.driver.host.job.gen) then before + 1
    else before
  }

  /** The texts still to be requested. */
  function ToAsk(h: Host): seq<Bytes> {
    match h
    case Screening(_, texts) => texts
    case Beginning(_, texts) => texts
    case Rendering(_, texts) => texts
    case Requesting(_, text, rest) => [text] + rest
    case Listening(_, rest, _) => rest
    case _ => []
  }

  ghost predicate InOrder(h: Host, taken: seq<Bytes>, asked: seq<Bytes>, heeded: nat) {
    h.Taking? || h.Ending? ||
    (&& asked + ToAsk(h) == taken
     && |asked| == heeded + (if h.Listening? then 1 else 0)
     && (h.Listening? ==> asked[|asked| - 1] == h.job.text))
  }

  /** In every run the texts of an utterance are requested in their order, each once and behind the guest's DONE for the
  one before. */
  lemma {:induction false} TextsInOrder(e: Engine, steps: seq<Step>)
    ensures InOrder(Run(e, steps).driver.host, Taken(e, steps), Asked(e, steps), Heeded(e, steps))
    ensures var h := Run(e, steps).driver.host;
            h.Requesting? ==> Heeded(e, steps) < |Taken(e, steps)| && h.text == Taken(e, steps)[Heeded(e, steps)]
  {
    if steps != [] {
      var k := |steps| - 1;
      TextsInOrder(e, steps[..k]);
      var s := Run(e, steps[..k]);
      var taken, asked, heeded := Taken(e, steps[..k]), Asked(e, steps[..k]), Heeded(e, steps[..k]);
      if steps[k].HostStep? {
        OrderStep(s.driver, s.net.messages, taken, asked, heeded);
        AskedNow(e, steps);
      } else {
        OrderOther(e, s, steps[k], taken, asked, heeded);
      }
      hide InOrder, Next;
      FirstToAsk(Run(e, steps).driver.host, Taken(e, steps), Asked(e, steps), Heeded(e, steps));
    }
  }

  /** The next step of the driver's worker, seen from the outside. */
  lemma AskedNow(e: Engine, steps: seq<Step>)
    requires steps != [] && steps[|steps| - 1].HostStep?
    ensures var before := steps[..|steps| - 1];
            var d := Run(e, before).driver;
            Asked(e, steps) == if d.host.Taking? && d.jobs != [] then []
                               else if d.host.Requesting? then Asked(e, before) + [d.host.text] else Asked(e, before)
  {
    hide Run;
    var before := steps[..|steps| - 1];
    var says := HostSays(Run(e, before).driver);
    assert SpokenTexts(says) == if says == [] then [] else [says[0].job.text];
  }

  lemma FirstToAsk(h: Host, taken: seq<Bytes>, asked: seq<Bytes>, heeded: nat)
    requires InOrder(h, taken, asked, heeded)
    ensures h.Requesting? ==> heeded < |taken| && h.text == taken[heeded]
  {
    if h.Requesting? {
      assert (asked + ([h.text] + h.rest))[heeded] == h.text;
    }
  }

  lemma OrderOther(e: Engine, s: State, step: Step, taken: seq<Bytes>, asked: seq<Bytes>, heeded: nat)
    requires InOrder(s.driver.host, taken, asked, heeded) && !step.HostStep?
    ensures InOrder(Next(e, s, step).driver.host, taken, asked, heeded)
  {
    hide ChunkEnd, Utf8, WorkerNext, ReaderNext;
  }

  lemma OrderStep(d: Driver, messages: seq<Up>, taken: seq<Bytes>, asked: seq<Bytes>, heeded: nat)
    requires InOrder(d.host, taken, asked, heeded)
    ensures var takes := d.host.Taking? && d.jobs != [];
            InOrder(HostNext(d, messages).host,
                    if takes then d.jobs[0].1 else taken,
                    if takes then [] else if d.host.Requesting? then asked + [d.host.text] else asked,
                    if takes then 0
                    else if d.host.Listening? && messages != [] && messages[0] == Done(d.host.job.gen) then heeded + 1 else heeded)
  {
    match d.host
    case Rendering(_, texts) =>
      if texts != [] {
        assert [texts[0]] + texts[1..] == texts;
      }
    case Requesting(_, text, rest) =>
      assert asked + ([text] + rest) == (asked + [text]) + rest;
    case _ =>
  }
}
