/** The daemon process pool of the web interface (ui/lib/process-pool.ts). */
module ProcessPools {
  import opened Bytes

  /** What a line of the daemon says once parsed. */
  datatype Reply = Failure(message: string) | Data(json: string)

  const PARSE: string -> Option<Reply>

  /** How a promise ends. */
  datatype Settlement = Resolved(json: string) | Rejected(message: string) | InvalidJson(line: string) | TimedOut

  function SettledBy(line: string): Settlement {
    match PARSE(line)
    case None => InvalidJson(line)
    case Some(Failure(m)) => Rejected(m)
    case Some(Data(j)) => Resolved(j)
  }

  /** Calls are numbered as they are made. */
  datatype Pool = Pool(pending: Option<nat>, queue: seq<nat>, written: seq<nat>, settled: map<nat, Settlement>)

  /** Only the first settlement of a promise counts. */
  function Settle(p: Pool, id: nat, s: Settlement): Pool {
    if id in p.settled then p else p.(settled := p.settled[id := s])
  }

  function Drained(p: Pool): Pool {
    if p.pending.Some? || p.queue == [] then p else p.(pending := Some(p.queue[0]), queue := p.queue[1..])
  }

  function Called(p: Pool, id: nat): Pool {
    if p.pending.Some? then p.(queue := p.queue + [id], written := p.written + [id])
    else p.(pending := Some(id), written := p.written + [id])
  }

  function LineRead(p: Pool, line: string): Pool {
    if p.pending.None? then p else Drained(Settle(p.(pending := None), p.pending.value, SettledBy(line)))
  }

  function TimerFired(p: Pool, id: nat): Pool {
    Drained(Settle(if p.pending == Some(id) then p.(pending := None) else p, id, TimedOut))
  }

  class ProcessPool {
    var pending: Option<nat>
    var queue: seq<nat>
    var written: seq<nat>
    var settled: map<nat, Settlement>

    function State(): Pool
      reads this
    {
      Pool(pending, queue, written, settled)
    }

    constructor ()
      ensures State() == Pool(None, [], [], map[])
    {
      pending, queue, written, settled := None, [], [], map[];
    }

    method SettlePromise(id: nat, s: Settlement)
      modifies this`settled
      ensures State() == Settle(old(State()), id, s)
    {
      if id !in settled { settled := settled[id := s]; }
    }

    method DrainQueue()
      modifies this`pending, this`queue
      ensures State() == Drained(old(State()))
    {
      if pending.Some? || |queue| == 0 { return; }
      pending, queue := Some(queue[0]), queue[1..];
    }

    method CallOnce(id: nat)
      modifies this`pending, this`queue, this`written
      ensures State() == Called(old(State()), id)
    {
      if pending.Some? {
        queue := queue + [id];
        written := written + [id];
      } else {
        pending := Some(id);
        written := written + [id];
      }
    }

    method OnLine(line: string)
      modifies this
      ensures State() == LineRead(old(State()), line)
    {
      if pending.None? { return; }
      var id := pending.value;
      pending := None;
      SettlePromise(id, SettledBy(line));
      DrainQueue();
    }

    method OnTimeout(id: nat)
      modifies this
      ensures State() == TimerFired(old(State()), id)
    {
      if pending == Some(id) { pending := None; }
      SettlePromise(id, TimedOut);
      DrainQueue();
    }
  }

  // ── the pool and its daemon ────────────────────────────────────────────────

  /** The pool, the lines the daemon has printed, and what it answered to each call. The
      run follows one child, and ends when the child is killed. */
  datatype System = System(pool: Pool, calls: nat, stdout: seq<string>, answers: seq<string>, alive: bool)

  /** A call; the daemon answering its next request; a line reaching the pool; a timer.
      When the timer of a last attempt fires the caller is told; before that the wrapper
      kills the child and tries again. */
  datatype Event = Call | Answer(line: string) | Line | Timeout(id: nat, lastAttempt: bool)

  function Start(): System { System(Pool(None, [], [], map[]), 0, [], [], true) }

  /** A timer runs until its promise is settled. */
  predicate Ticking(s: System, id: nat) {
    s.alive && id < s.calls && id !in s.pool.settled
  }

  /** The daemon answers the requests in the order they were written. */
  function Step(s: System, e: Event): System {
    if !s.alive then s else
      match e
      case Call => s.(pool := Called(s.pool, s.calls), calls := s.calls + 1)
      case Answer(line) =>
        if |s.answers| < |s.pool.written| then s.(stdout := s.stdout + [line], answers := s.answers + [line]) else s
      case Line => if s.stdout == [] then s else s.(pool := LineRead(s.pool, s.stdout[0]), stdout := s.stdout[1..])
      case Timeout(id, last) => if Ticking(s, id) then s.(pool := TimerFired(s.pool, id), alive := last) else s
  }

  function Run(es: seq<Event>): System {
    if es == [] then Start() else Step(Run(es[..|es| - 1]), es[|es| - 1])
  }

  lemma RunPush(es: seq<Event>, e: Event)
    ensures Run(es + [e]) == Step(Run(es), e)
  {
    assert (es + [e])[..|es|] == es;
  }

  function Outstanding(p: Pool): seq<nat> {
    (if p.pending.Some? then [p.pending.value] else []) + p.queue
  }

  function Done(s: System): int { s.calls - |Outstanding(s.pool)| }

  function LinesRead(s: System): int { |s.answers| - |s.stdout| }

  // ── what every run keeps ───────────────────────────────────────────────────

  /** Consecutive numbers up to n. */
  ghost predicate Latest(out: seq<nat>, n: nat) {
    |out| <= n && forall i :: 0 <= i < |out| ==> out[i] == n - |out| + i
  }

  /** Calls no longer outstanding are settled; outstanding ones can only have timed out. */
  ghost predicate SettledUpTo(settled: map<nat, Settlement>, done: int, calls: nat) {
    && (forall id :: 0 <= id < done ==> id in settled)
    && (forall id :: id in settled ==> id < calls && (id >= done ==> settled[id] == TimedOut))
  }

  /** Outstanding calls are the latest ones in order, nothing waits when nothing is
      pending, and no line is read before its call leaves. */
  ghost predicate InStep(s: System) {
    && (s.pool.pending.None? ==> s.pool.queue == [])
    && Latest(Outstanding(s.pool), s.calls) && Latest(s.pool.written, s.calls) && |s.pool.written| == s.calls
    && 0 <= LinesRead(s) <= Done(s) && |s.answers| <= s.calls && s.stdout == s.answers[LinesRead(s)..]
    && SettledUpTo(s.pool.settled, Done(s), s.calls)
  }

  lemma LineOutstanding(p: Pool, line: string)
    requires p.pending.Some?
    ensures Outstanding(LineRead(p, line)) == Outstanding(p)[1..]
    ensures LineRead(p, line).pending.None? ==> LineRead(p, line).queue == []
    ensures LineRead(p, line).written == p.written
    ensures LineRead(p, line).settled == Settle(p, Outstanding(p)[0], SettledBy(line)).settled
  {
    hide SettledBy;
  }

  lemma LineDropped(p: Pool, line: string)
    requires p.pending.None?
    ensures LineRead(p, line) == p
  {}

  lemma LineInStep(s: System)
    requires InStep(s) && s.stdout != []
    ensures InStep(Step(s, Line))
  {
    hide SettledBy, LineRead;
    if s.pool.pending.Some? {
      LineOutstanding(s.pool, s.stdout[0]);
    } else {
      LineDropped(s.pool, s.stdout[0]);
    }
    hide Outstanding;
    if s.alive { assert s.stdout[1..] == s.answers[LinesRead(s) + 1..]; }
  }

  lemma CallInStep(s: System)
    requires InStep(s)
    ensures InStep(Step(s, Call))
  {
    hide SettledBy;
    if s.alive { assert Outstanding(Step(s, Call).pool) == Outstanding(s.pool) + [s.calls]; }
  }

  lemma AnswerInStep(s: System, line: string)
    requires InStep(s)
    ensures InStep(Step(s, Answer(line)))
  {
    hide SettledBy, Outstanding;
    if s.alive && |s.answers| < s.calls {
      assert (s.answers + [line])[LinesRead(s)..] == s.answers[LinesRead(s)..] + [line];
    }
  }

  lemma TimerOutstanding(p: Pool, id: nat)
    requires p.pending.None? ==> p.queue == []
    ensures Outstanding(TimerFired(p, id)) == if p.pending == Some(id) then Outstanding(p)[1..] else Outstanding(p)
    ensures TimerFired(p, id).pending.None? ==> TimerFired(p, id).queue == []
    ensures TimerFired(p, id).written == p.written && TimerFired(p, id).settled == Settle(p, id, TimedOut).settled
  {}

  lemma TimeoutInStep(s: System, id: nat, last: bool)
    requires InStep(s)
    ensures InStep(Step(s, Timeout(id, last)))
  {
    hide SettledBy, TimerFired;
    assert s.pool.pending == Some(id) ==> Outstanding(s.pool)[0] == id;
    TimerOutstanding(s.pool, id);
    hide Outstanding;
  }

  lemma StepInStep(s: System, e: Event)
    requires InStep(s)
    ensures InStep(Step(s, e))
  {
    hide InStep;
    match e
    case Call => CallInStep(s);
    case Answer(line) => AnswerInStep(s, line);
    case Line => if s.stdout != [] { LineInStep(s); }
    case Timeout(id, last) => TimeoutInStep(s, id, last);
  }

  lemma {:induction false} RunInStep(es: seq<Event>)
    ensures InStep(Run(es))
  {
    hide InStep, Step;
    if es == [] {
      StartInStep();
    } else {
      RunInStep(es[..|es| - 1]);
      StepInStep(Run(es[..|es| - 1]), es[|es| - 1]);
    }
  }

  lemma StartInStep()
    ensures InStep(Start())
  {
    hide SettledBy;
    assert Outstanding(Start().pool) == [];
  }

  // ── skew ───────────────────────────────────────────────────────────────────

  /** The timer of the call that waits for the next line fires. */
  predicate HitsPending(s: System, e: Event) {
    e.Timeout? && Ticking(s, e.id) && s.pool.pending == Some(e.id)
  }

  /** A line arrives and no call waits for it. */
  predicate DropsLine(s: System, e: Event) {
    e.Line? && s.alive && s.stdout != [] && s.pool.pending.None?
  }

  /** How often a timer hit the pending call, less the lines dropped since. */
  function Skew(es: seq<Event>): int {
    if es == [] then 0 else
      var s, e := Run(es[..|es| - 1]), es[|es| - 1];
      Skew(es[..|es| - 1]) + if HitsPending(s, e) then 1 else if DropsLine(s, e) then -1 else 0
  }

  lemma StepSkew(s: System, e: Event)
    requires InStep(s)
    ensures Done(Step(s, e)) - LinesRead(Step(s, e))
         == Done(s) - LinesRead(s) + if HitsPending(s, e) then 1 else if DropsLine(s, e) then -1 else 0
  {
    hide SettledBy, LineRead, TimerFired;
    match e
    case Call => if s.alive { assert Outstanding(Step(s, e).pool) == Outstanding(s.pool) + [s.calls]; }
    case Answer(line) =>
    case Line => if s.stdout != [] { SkewAtLine(s); }
    case Timeout(id, last) => TimerOutstanding(s.pool, id);
  }

  lemma SkewAtLine(s: System)
    requires InStep(s) && s.stdout != []
    ensures Done(Step(s, Line)) - LinesRead(Step(s, Line))
         == Done(s) - LinesRead(s) + if DropsLine(s, Line) then -1 else 0
  {
    hide SettledBy, LineRead;
    if s.pool.pending.Some? {
      LineOutstanding(s.pool, s.stdout[0]);
    } else {
      LineDropped(s.pool, s.stdout[0]);
    }
  }

  lemma {:induction false} SkewIs(es: seq<Event>)
    ensures Skew(es) == Done(Run(es)) - LinesRead(Run(es))
  {
    hide InStep, Step, Done, LinesRead, HitsPending, DropsLine;
    if es == [] {
      assert Done(Start()) == LinesRead(Start()) by { NothingDone(); }
    } else {
      var init := es[..|es| - 1];
      SkewIs(init);
      RunInStep(init);
      StepSkew(Run(init), es[|es| - 1]);
    }
  }

  lemma NothingDone()
    ensures Done(Start()) == LinesRead(Start())
  {}

  /** In every run, all timers included: the next line is the daemon's answer to the call
      Skew places before the pending one. */
  lemma NextLine(es: seq<Event>)
    requires Run(es).pool.pending.Some? && Run(es).stdout != []
    ensures var s, p := Run(es), Run(es).pool.pending.value;
      0 <= Skew(es) <= p && p - Skew(es) < |s.answers| && s.stdout[0] == s.answers[p - Skew(es)]
  {
    hide Run, Skew;
    RunInStep(es);
    SkewIs(es);
    assert Outstanding(Run(es).pool)[0] == Run(es).pool.pending.value;
  }

  // ── which answer settles which call ────────────────────────────────────────

  /** This line settles the pending call, whose timer has not fired. */
  predicate SettlesCall(s: System, e: Event) {
    e.Line? && s.alive && s.stdout != [] && s.pool.pending.Some? && s.pool.pending.value !in s.pool.settled
  }

  /** For each call settled by a line, the call that line answers: the daemon's answers
      are numbered like the requests, and lines are read in order. */
  function Sources(es: seq<Event>): map<nat, int> {
    if es == [] then map[] else
      var s, e := Run(es[..|es| - 1]), es[|es| - 1];
      if SettlesCall(s, e) then Sources(es[..|es| - 1])[s.pool.pending.value := LinesRead(s)]
      else Sources(es[..|es| - 1])
  }

  /** A settled call was settled by the answer to its source, or else by its timer. */
  ghost predicate SettledFrom(settled: map<nat, Settlement>, answers: seq<string>, sources: map<nat, int>) {
    && (forall id :: id in sources ==> id in settled)
    && forall id :: id in settled ==>
         if id in sources then 0 <= sources[id] < |answers| && settled[id] == SettledBy(answers[sources[id]])
         else settled[id] == TimedOut
  }

  lemma StepSettledFrom(s: System, e: Event, sources: map<nat, int>)
    requires InStep(s) && SettledFrom(s.pool.settled, s.answers, sources)
    ensures var s' := Step(s, e);
      SettledFrom(s'.pool.settled, s'.answers,
                  if SettlesCall(s, e) then sources[s.pool.pending.value := LinesRead(s)] else sources)
  {
    hide SettledBy, Latest, SettledUpTo, Outstanding;
    if e.Line? && s.stdout != [] {
      assert s.stdout[0] == s.answers[LinesRead(s)];
    }
  }

  /** In every run each call is settled by the answer to its source, or by its timer. */
  lemma {:induction false} RunSettledFrom(es: seq<Event>)
    ensures SettledFrom(Run(es).pool.settled, Run(es).answers, Sources(es))
  {
    hide InStep, Step, SettledFrom, SettlesCall, LinesRead;
    if es == [] {
      assert SettledFrom(map[], [], map[]) by { NothingSettled(); }
    } else {
      var init := es[..|es| - 1];
      RunSettledFrom(init);
      RunInStep(init);
      StepSettledFrom(Run(init), es[|es| - 1], Sources(init));
    }
  }

  /** What a settlement tells the caller, in every run: data resolves the call with that data,
      a reported failure rejects it with that message, an unreadable line is handed back, and a
      call that no line settled has timed out. */
  lemma SettlementMeans(es: seq<Event>, id: nat)
    requires id in Run(es).pool.settled
    ensures var s, sources := Run(es).pool.settled[id], Sources(es);
      && (s == TimedOut <==> id !in sources)
      && (id in sources ==>
            0 <= sources[id] < |Run(es).answers|
            && var line := Run(es).answers[sources[id]];
            && (forall json :: s == Resolved(json) <==> PARSE(line) == Some(Data(json)))
            && (forall message :: s == Rejected(message) <==> PARSE(line) == Some(Failure(message)))
            && (s.InvalidJson? <==> PARSE(line).None?) && (s.InvalidJson? ==> s.line == line))
  {
    hide Run, Sources;
    RunSettledFrom(es);
  }

  lemma NothingSettled()
    ensures SettledFrom(map[], [], map[])
  {}

  /** No call was settled by a line while the run was skewed. */
  predicate SettledUnskewed(es: seq<Event>) {
    es == [] ||
    (SettledUnskewed(es[..|es| - 1]) && (SettlesCall(Run(es[..|es| - 1]), es[|es| - 1]) ==> Skew(es[..|es| - 1]) == 0))
  }

  ghost predicate OwnSources(sources: map<nat, int>) {
    forall id :: id in sources ==> sources[id] == id
  }

  /** The exact condition, for every run: each call settled by a line is settled by the
      answer to its own request if and only if no line settles a call at a skew. */
  lemma {:induction false} OwnAnswersExactly(es: seq<Event>)
    ensures OwnSources(Sources(es)) <==> SettledUnskewed(es)
  {
    if es != [] {
      hide Step, Skew, InStep, SettlesCall, Run;
      var init, e := es[..|es| - 1], es[|es| - 1];
      OwnAnswersExactly(init);
      RunSettledFrom(init);
      SourceAt(init, e);
      if SettlesCall(Run(init), e) {
        OwnInsert(Sources(init), Run(init).pool.pending.value, LinesRead(Run(init)));
      }
    }
  }

  lemma OwnInsert(sources: map<nat, int>, id: nat, source: int)
    requires id !in sources
    ensures OwnSources(sources[id := source]) <==> OwnSources(sources) && source == id
  {
    var after := sources[id := source];
    assert id in after && after[id] == source;
    assert forall k :: k in sources ==> k in after && after[k] == sources[k];
  }

  /** A line that settles p comes from the call Skew places earlier, and p had no source. */
  lemma SourceAt(es: seq<Event>, e: Event)
    ensures SettlesCall(Run(es), e) ==>
      LinesRead(Run(es)) == Run(es).pool.pending.value - Skew(es) && Run(es).pool.pending.value !in Run(es).pool.settled
  {
    hide Run, Skew;
    RunInStep(es);
    SkewIs(es);
    if SettlesCall(Run(es), e) { assert Outstanding(Run(es).pool)[0] == Run(es).pool.pending.value; }
  }

  // ── runs that are never skewed ─────────────────────────────────────────────

  /** Timers hit queued calls only. */
  predicate SparesPending(es: seq<Event>) {
    es == [] || (SparesPending(es[..|es| - 1]) && !HitsPending(Run(es[..|es| - 1]), es[|es| - 1]))
  }

  lemma {:induction false} SparedUnskewed(es: seq<Event>)
    requires SparesPending(es)
    ensures Skew(es) == 0 && SettledUnskewed(es)
  {
    if es != [] {
      hide Run, HitsPending, DropsLine, SettlesCall, InStep;
      SparedUnskewed(es[..|es| - 1]);
      SkewIs(es);
      RunInStep(es);
      StillInStep(es);
    }
  }

  lemma StillInStep(es: seq<Event>)
    ensures LinesRead(Run(es)) <= Done(Run(es))
  {
    RunInStep(es);
  }

  predicate NoTimeouts(es: seq<Event>) {
    forall i :: 0 <= i < |es| ==> !es[i].Timeout?
  }

  predicate NoneTimedOut(s: System) {
    forall id :: id in s.pool.settled ==> s.pool.settled[id] != TimedOut
  }

  lemma NotTimedOut(line: string)
    ensures SettledBy(line) != TimedOut
  {}

  lemma StepNoneTimedOut(s: System, e: Event)
    requires NoneTimedOut(s) && !e.Timeout?
    ensures NoneTimedOut(Step(s, e))
  {
    hide SettledBy;
    if e.Line? && s.stdout != [] { NotTimedOut(s.stdout[0]); }
  }

  lemma {:induction false} NoTimeoutsSettled(es: seq<Event>)
    requires NoTimeouts(es)
    ensures SparesPending(es) && NoneTimedOut(Run(es))
  {
    hide Step, NoneTimedOut, Ticking;
    if es == [] {
      assert NoneTimedOut(Start()) by { StartEmpty(); }
    } else {
      NoTimeoutsSettled(es[..|es| - 1]);
      StepNoneTimedOut(Run(es[..|es| - 1]), es[|es| - 1]);
    }
  }

  lemma StartEmpty()
    ensures NoneTimedOut(Start())
  {}

  /** Without timeouts each call is settled by the answer to its own request, the calls
      not yet settled are the pending one followed by the queue, in the order made, and
      nothing is queued when nothing is pending. */
  lemma OwnAnswers(es: seq<Event>)
    requires NoTimeouts(es)
    ensures var s := Run(es);
      && (forall id :: id in s.pool.settled ==> id < |s.answers| && s.pool.settled[id] == SettledBy(s.answers[id]))
      && (forall id :: 0 <= id < s.calls ==> (id in Outstanding(s.pool) <==> id !in s.pool.settled))
      && Latest(Outstanding(s.pool), s.calls)
      && (s.pool.pending.None? ==> s.pool.queue == [])
  {
    hide SettledBy, Run, Skew, Sources, SettledUnskewed, SparesPending;
    NoTimeoutsSettled(es);
    SparedUnskewed(es);
    OwnAnswersExactly(es);
    RunSettledFrom(es);
    RunInStep(es);
    var s := Run(es);
    var out := Outstanding(s.pool);
    forall id | Done(s) <= id < s.calls ensures id in out { assert out[id - Done(s)] == id; }
  }

  // ── a timer that hits the pending call ─────────────────────────────────────

  function Times(e: Event, n: nat): (r: seq<Event>)
    ensures |r| == n
  {
    if n == 0 then [] else Times(e, n - 1) + [e]
  }

  /** The daemon answers n more requests. */
  lemma {:induction false} MoreAnswers(es: seq<Event>, line: string, n: nat)
    requires Run(es).alive && |Run(es).answers| + n <= Run(es).calls
    ensures var s, s' := Run(es), Run(es + Times(Answer(line), n));
      && s'.alive && s'.pool == s.pool && s'.calls == s.calls
      && |s'.answers| == |s.answers| + n && LinesRead(s') == LinesRead(s)
  {
    hide Run;
    if n == 0 {
      assert es + Times(Answer(line), n) == es;
    } else {
      MoreAnswers(es, line, n - 1);
      var now := es + Times(Answer(line), n - 1);
      RunInStep(now);
      RunPush(now, Answer(line));
      assert es + Times(Answer(line), n) == now + [Answer(line)];
    }
  }

  /** n lines arrive for n outstanding calls: those calls leave, in step. */
  lemma {:induction false} MoreLines(es: seq<Event>, n: nat)
    requires Run(es).alive && n <= |Run(es).stdout| && n <= |Outstanding(Run(es).pool)|
    ensures var s, s' := Run(es), Run(es + Times(Line, n));
      && s'.alive && s'.calls == s.calls && s'.answers == s.answers && |s'.stdout| == |s.stdout| - n
      && Outstanding(s'.pool) == Outstanding(s.pool)[n..]
      && (forall id :: id in s'.pool.settled ==> id in s.pool.settled || id in Outstanding(s.pool)[..n])
  {
    hide Run, LineRead, SettledBy;
    if n == 0 {
      assert es + Times(Line, n) == es;
    } else {
      MoreLines(es, n - 1);
      var now, out := es + Times(Line, n - 1), Outstanding(Run(es).pool);
      RunInStep(now);
      RunPush(now, Line);
      assert es + Times(Line, n) == now + [Line];
      LineOutstanding(Run(now).pool, Run(now).stdout[0]);
      assert out[n - 1..][1..] == out[n..] && out[n - 1..][0] == out[n - 1] && out[..n] == out[..n - 1] + [out[n - 1]];
    }
  }

  /** The pending call times out on its last attempt, a call is made, the daemon answers
      everything, and lines arrive until just before that call's turn. */
  function Misled(es: seq<Event>, line: string): seq<Event>
    requires Run(es).pool.pending.Some? && |Run(es).answers| <= Run(es).calls
  {
    var s := Run(es);
    es + [Timeout(s.pool.pending.value, true)] + [Call] + Times(Answer(line), s.calls + 1 - |s.answers|)
       + Times(Line, |s.pool.queue|)
  }

  /** After the timeout and the new call. */
  lemma TimeoutThenCall(s: System)
    requires InStep(s) && s.pool.pending.Some? && Ticking(s, s.pool.pending.value)
    ensures var s2 := Step(Step(s, Timeout(s.pool.pending.value, true)), Call);
      && s2.alive && s2.calls == s.calls + 1 && s2.answers == s.answers && s2.stdout == s.stdout
      && Outstanding(s2.pool) == s.pool.queue + [s.calls] && s.calls !in s2.pool.settled
  {
    hide SettledBy;
  }

  lemma MisledState(es: seq<Event>, line: string)
    requires Run(es).pool.pending.Some? && Ticking(Run(es), Run(es).pool.pending.value)
    ensures |Run(es).answers| <= Run(es).calls
    ensures var s, s' := Run(es), Run(Misled(es, line));
      && s'.alive && Outstanding(s'.pool) == [s.calls] && s'.stdout != [] && s.calls !in s'.pool.settled
      && LinesRead(s') == LinesRead(s) + |s.pool.queue|
  {
    hide Run, Step, InStep, SettledBy, Outstanding, Ticking;
    RunInStep(es);
    var s, p := Run(es), Run(es).pool.pending.value;
    TimeoutThenCall(s);
    InStepBounds(s);
    var es2 := es + [Timeout(p, true)] + [Call];
    RunPush(es, Timeout(p, true)); RunPush(es + [Timeout(p, true)], Call);
    var n := s.calls + 1 - |s.answers|;
    MoreAnswers(es2, line, n);
    var es3 := es2 + Times(Answer(line), n);
    MoreLines(es3, |s.pool.queue|);
    assert Misled(es, line) == es3 + Times(Line, |s.pool.queue|);
    assert (s.pool.queue + [s.calls])[|s.pool.queue|..] == [s.calls];
    assert (s.pool.queue + [s.calls])[..|s.pool.queue|] == s.pool.queue;
  }

  /** From every state whose pending call has a ticking timer: if that timer fires on a
      last attempt, the run can go on so that a later call is settled by the answer to an
      earlier request. */
  lemma PendingTimeoutMisleads(es: seq<Event>, line: string)
    requires Run(es).pool.pending.Some? && Ticking(Run(es), Run(es).pool.pending.value)
    ensures |Run(es).answers| <= Run(es).calls
    ensures var run, late := Misled(es, line) + [Line], Run(es).calls;
      late in Sources(run) && Sources(run)[late] == late - Skew(es) - 1 && Skew(es) >= 0
  {
    RunInStep(es); SkewIs(es);
    MisledState(es, line);
    InStepBounds(Run(es));
    QueueIs(Run(es));
    hide Run, Step, Skew, InStep, SettledBy, Ticking, Misled, Done;
    var es4 := Misled(es, line);
    assert (es4 + [Line])[..|es4|] == es4;
    RunInStep(es4);
    LastOutstanding(Run(es4), Run(es).calls);
  }

  lemma QueueIs(s: System)
    requires InStep(s) && s.pool.pending.Some?
    ensures Done(s) == s.calls - 1 - |s.pool.queue|
  {}

  lemma InStepBounds(s: System)
    requires InStep(s)
    ensures |s.answers| <= s.calls && |s.stdout| <= |s.answers| && LinesRead(s) <= Done(s)
    ensures s.pool.pending.Some? ==> s.calls !in s.pool.queue && LinesRead(s) + |s.pool.queue| < s.calls
  {
    forall i | 0 <= i < |s.pool.queue| && s.pool.pending.Some? ensures s.pool.queue[i] < s.calls {
      assert Outstanding(s.pool)[i + 1] == s.pool.queue[i];
    }
  }

  lemma LastOutstanding(s: System, c: nat)
    requires InStep(s) && Outstanding(s.pool) == [c]
    ensures s.pool.pending == Some(c)
  {
    assert s.pool.pending.Some? ==> Outstanding(s.pool)[0] == s.pool.pending.value;
  }
}
