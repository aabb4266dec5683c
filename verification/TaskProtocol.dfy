/**
 Message passing between tasks as a state machine: a locked queue that is
 swapped out as a whole, and an eventfd counter that wakes the consumer. Every
 step is one critical section or one system call, so every interleaving of the
 threads is a sequence of steps.
 */
module TaskProtocol {

  datatype MsgType = HbReq | HbRsp | Other(code: nat)

  datatype Msg = Msg(kind: MsgType, seqId: nat, body: string)

  const TASK0 := "task0"

  /** The largest value an eventfd counter can hold; a write beyond it fails. */
  const COUNTER_MAX := 0xFFFF_FFFF_FFFF_FFFE

  /** Where a task's own thread is: waiting, between reading the counter and the swap, or draining. */
  datatype Stage = Idle | Woken | Draining

  /** `pending` producers have queued a message and not written the counter yet. */
  datatype Task = Task(
    queue: seq<Msg>,
    tmpQueue: seq<Msg>,
    counter: nat,
    pending: nat,
    stage: Stage,
    processed: seq<Msg>,
    enqueued: seq<Msg>)

  const NEW_TASK := Task([], [], 0, 0, Idle, [], [])

  // ------------------------------------------------------ steps of one task

  function Push(t: Task, m: Msg): Task {
    t.(queue := t.queue + [m], enqueued := t.enqueued + [m], pending := t.pending + 1)
  }

  /** Writing one to the eventfd; at the maximum the write fails and the counter stays. */
  function Signal(t: Task): Task
    requires t.pending > 0
  {
    t.(counter := if t.counter < COUNTER_MAX then t.counter + 1 else t.counter, pending := t.pending - 1)
  }

  function ReadCounter(t: Task): Task {
    t.(counter := 0, stage := Woken)
  }

  function Swap(t: Task): Task {
    t.(queue := t.tmpQueue, tmpQueue := t.queue, stage := Draining)
  }

  function PopFront(t: Task): Task
    requires t.tmpQueue != []
  {
    t.(tmpQueue := t.tmpQueue[1..], processed := t.processed + [t.tmpQueue[0]])
  }

  function Finish(t: Task): Task {
    t.(stage := Idle)
  }

  // ------------------------------------------------------------ the system

  type System = map<string, Task>

  datatype Step =
    | PushStep(to: string, m: Msg)
    | SignalStep(to: string)
    | ReadStep(at: string)
    | SwapStep(at: string)
    | HandleStep(at: string)
    | FinishStep(at: string)

  /** The answer to a heartbeat request drained by task `name`. */
  function Answer(name: string, m: Msg): Msg {
    m.(kind := HbRsp, body := name)
  }

  predicate Enabled(s: System, step: Step) {
    match step
    case PushStep(to, m) => to in s && m.kind != HbRsp
    case SignalStep(to) => to in s && s[to].pending > 0
    case ReadStep(at) => at in s && s[at].stage == Idle && s[at].counter > 0
    case SwapStep(at) => at in s && s[at].stage == Woken
    case HandleStep(at) => at in s && s[at].stage == Draining && s[at].tmpQueue != []
    case FinishStep(at) => at in s && s[at].stage == Draining && s[at].tmpQueue == []
  }

  /** Handling the front message: heartbeats are answered to task 0, everything else is consumed. */
  function Handle(s: System, at: string): System
    requires at in s && s[at].tmpQueue != []
  {
    var m := s[at].tmpQueue[0];
    var s' := s[at := PopFront(s[at])];
    if m.kind == HbReq && at != TASK0 && TASK0 in s then s'[TASK0 := Push(s'[TASK0], Answer(at, m))] else s'
  }

  function Apply(s: System, step: Step): System
    requires Enabled(s, step)
  {
    match step
    case PushStep(to, m) => s[to := Push(s[to], m)]
    case SignalStep(to) => s[to := Signal(s[to])]
    case ReadStep(at) => s[at := ReadCounter(s[at])]
    case SwapStep(at) => s[at := Swap(s[at])]
    case HandleStep(at) => Handle(s, at)
    case FinishStep(at) => s[at := Finish(s[at])]
  }

  /** Any schedule; a step that is not enabled is skipped. */
  function Run(s: System, steps: seq<Step>): System
    decreases |steps|
  {
    if steps == [] then s
    else Run(if Enabled(s, steps[0]) then Apply(s, steps[0]) else s, steps[1..])
  }

  function Init(names: set<string>): System {
    map n | n in names :: NEW_TASK
  }

  /** A heartbeat request drained by another task than task 0 is answered there under its own number. */
  lemma HeartbeatIsAnswered(s: System, at: string)
    requires at in s && "task0" in s && s[at].stage == Draining && s[at].tmpQueue != []
    ensures var m, s' := s[at].tmpQueue[0], Apply(s, HandleStep(at));
            && s'.Keys == s.Keys && s'[at].processed == s[at].processed + [m] && s'[at].tmpQueue == s[at].tmpQueue[1..]
            && (m.kind == HbReq && at != "task0" ==>
                  && s'["task0"].queue == s["task0"].queue + [Msg(HbRsp, m.seqId, at)]
                  && s'["task0"].pending == s["task0"].pending + 1)
            && (m.kind != HbReq || at == "task0" ==> s' == s[at := s'[at]] && s'[at].queue == s[at].queue)
  {
  }

  /** A send queues the message at the end and, in a second step, raises the counter by one as far as it goes. */
  lemma SendQueuesAndSignals(s: System, to: string, m: Msg)
    requires to in s && m.kind != HbRsp
    ensures var s' := Apply(Apply(s, PushStep(to, m)), SignalStep(to));
            && s' == s[to := s'[to]] && s'[to].queue == s[to].queue + [m] && s'[to].pending == s[to].pending
            && s'[to].counter == if s[to].counter < 0xFFFF_FFFF_FFFF_FFFE then s[to].counter + 1 else s[to].counter
  {
  }

  /** A wakeup takes the whole counter, and then the whole queue at once. */
  lemma WakeupTakesAll(s: System, at: string)
    requires at in s && s[at].stage == Idle && s[at].counter > 0
    ensures var s' := Apply(Apply(s, ReadStep(at)), SwapStep(at));
            && s' == s[at := s'[at]] && s'[at].counter == 0 && s'[at].stage == Draining
            && s'[at].tmpQueue == s[at].queue && s'[at].queue == s[at].tmpQueue
  {
  }

  // ------------------------------------------------------------ the invariant

  /** The heartbeat answers task `name` owes for the messages it has processed. */
  function Owed(name: string, processed: seq<Msg>): seq<Msg> {
    if processed == [] then []
    else
      var n := |processed| - 1;
      Owed(name, processed[..n]) + if processed[n].kind == HbReq then [Answer(name, processed[n])] else []
  }

  /** The heartbeat answers from task `name` among `ms`. */
  function AnswersFrom(name: string, ms: seq<Msg>): seq<Msg> {
    if ms == [] then []
    else
      var n := |ms| - 1;
      AnswersFrom(name, ms[..n]) + if ms[n].kind == HbRsp && ms[n].body == name then [ms[n]] else []
  }

  /** Nothing lost, nothing doubled, order kept; a waiting message has a wakeup on its way. */
  ghost predicate TaskOk(t: Task) {
    && t.processed + t.tmpQueue + t.queue == t.enqueued
    && (t.stage != Draining ==> t.tmpQueue == [])
    && (t.queue != [] ==> t.counter > 0 || t.pending > 0 || t.stage == Woken)
    && t.counter <= COUNTER_MAX
  }

  ghost predicate HeartbeatOk(s: System, name: string)
    requires name in s
  {
    name != TASK0 && TASK0 in s ==> AnswersFrom(name, s[TASK0].enqueued) == Owed(name, s[name].processed)
  }

  ghost predicate SystemOk(s: System) {
    && (forall n :: n in s ==> TaskOk(s[n]))
    && (forall n :: n in s ==> HeartbeatOk(s, n))
  }

  lemma OwedSnoc(name: string, processed: seq<Msg>, m: Msg)
    ensures Owed(name, processed + [m]) ==
            Owed(name, processed) + if m.kind == HbReq then [Answer(name, m)] else []
  {
    assert (processed + [m])[..|processed|] == processed;
  }

  lemma AnswersSnoc(name: string, ms: seq<Msg>, m: Msg)
    ensures AnswersFrom(name, ms + [m]) ==
            AnswersFrom(name, ms) + if m.kind == HbRsp && m.body == name then [m] else []
  {
    assert (ms + [m])[..|ms|] == ms;
  }

  lemma PushKeepsTask(t: Task, m: Msg)
    requires TaskOk(t)
    ensures TaskOk(Push(t, m))
  {
    assert t.processed + t.tmpQueue + (t.queue + [m]) == t.processed + t.tmpQueue + t.queue + [m];
  }

  lemma PopKeepsTask(t: Task)
    requires TaskOk(t) && t.stage == Draining && t.tmpQueue != []
    ensures TaskOk(PopFront(t))
  {
    assert t.tmpQueue == [t.tmpQueue[0]] + t.tmpQueue[1..];
    assert t.processed + [t.tmpQueue[0]] + t.tmpQueue[1..] == t.processed + t.tmpQueue;
  }

  /** Queueing a message at one task changes no other; an answer at task 0 is the only one that counts. */
  lemma PushKeeps(s: System, to: string, m: Msg)
    requires SystemOk(s) && to in s && m.kind != HbRsp
    ensures SystemOk(s[to := Push(s[to], m)])
  {
    var s' := s[to := Push(s[to], m)];
    PushKeepsTask(s[to], m);
    forall n | n in s' ensures HeartbeatOk(s', n) {
      assert HeartbeatOk(s, n);
      AnswersSnoc(n, s[to].enqueued, m);
    }
  }

  lemma PopKeeps(s: System, at: string)
    requires SystemOk(s) && at in s && s[at].stage == Draining && s[at].tmpQueue != []
    requires !Answers(s, at)
    ensures SystemOk(s[at := PopFront(s[at])])
  {
    var s' := s[at := PopFront(s[at])];
    PopKeepsTask(s[at]);
    forall n | n in s' ensures HeartbeatOk(s', n) {
      assert HeartbeatOk(s, n);
      OwedSnoc(n, s[at].processed, s[at].tmpQueue[0]);
    }
  }

  /** The message at the front of `at` will be answered to task 0. */
  predicate Answers(s: System, at: string)
    requires at in s && s[at].tmpQueue != []
  {
    s[at].tmpQueue[0].kind == HbReq && at != TASK0 && TASK0 in s
  }

  lemma AnswerKeeps(s: System, at: string)
    requires SystemOk(s) && at in s && s[at].stage == Draining && s[at].tmpQueue != []
    requires Answers(s, at)
    ensures SystemOk(Handle(s, at))
  {
    hide Owed, AnswersFrom;
    var m := s[at].tmpQueue[0];
    var t, t0 := PopFront(s[at]), Push(s[TASK0], Answer(at, m));
    var s' := s[at := t][TASK0 := t0];
    PopKeepsTask(s[at]);
    PushKeepsTask(s[TASK0], Answer(at, m));
    forall n | n in s' ensures HeartbeatOk(s', n) {
      assert HeartbeatOk(s, n);
      OwedSnoc(n, s[at].processed, m);
      AnswersSnoc(n, s[TASK0].enqueued, Answer(at, m));
    }
  }

  lemma OwnStepKeeps(s: System, at: string, t: Task)
    requires SystemOk(s) && at in s && TaskOk(t)
    requires t.processed == s[at].processed && t.enqueued == s[at].enqueued
    ensures SystemOk(s[at := t])
  {
    var s' := s[at := t];
    forall n | n in s' ensures HeartbeatOk(s', n) {
      assert HeartbeatOk(s, n);
    }
  }

  lemma StepKeeps(s: System, step: Step)
    requires SystemOk(s) && Enabled(s, step)
    ensures SystemOk(Apply(s, step))
  {
    match step
    case HandleStep(at) =>
      if Answers(s, at) { AnswerKeeps(s, at); } else { PopKeeps(s, at); }
    case PushStep(to, m) => PushKeeps(s, to, m);
    case SignalStep(to) => OwnStepKeeps(s, to, Signal(s[to]));
    case ReadStep(at) => OwnStepKeeps(s, at, ReadCounter(s[at]));
    case SwapStep(at) => OwnStepKeeps(s, at, Swap(s[at]));
    case FinishStep(at) => OwnStepKeeps(s, at, Finish(s[at]));
  }

  lemma {:induction false} RunKeeps(s: System, steps: seq<Step>)
    requires SystemOk(s)
    ensures SystemOk(Run(s, steps)) && Run(s, steps).Keys == s.Keys
    decreases |steps|
  {
    if steps != [] {
      if Enabled(s, steps[0]) {
        StepKeeps(s, steps[0]);
        RunKeeps(Apply(s, steps[0]), steps[1..]);
      } else {
        RunKeeps(s, steps[1..]);
      }
    }
  }

  /**
   In every state any schedule can reach: messages are processed in the order
   they were queued and exactly once, no wakeup is lost, and task 0 has been
   sent exactly the heartbeat answers due, in order.
   */
  lemma EveryScheduleIsSafe(names: set<string>, steps: seq<Step>)
    ensures var s := Run(Init(names), steps);
            s.Keys == names && SystemOk(s)
  {
    RunKeeps(Init(names), steps);
  }

  /** When a task's thread sleeps and no producer is about to signal it, it has processed everything. */
  lemma QuietMeansProcessed(names: set<string>, steps: seq<Step>, name: string)
    requires name in names
    ensures var s := Run(Init(names), steps);
            name in s &&
            (s[name].stage == Idle && s[name].counter == 0 && s[name].pending == 0 ==>
               s[name].processed == s[name].enqueued)
  {
    EveryScheduleIsSafe(names, steps);
    var t := Run(Init(names), steps)[name];
    assert TaskOk(t);
    if t.tmpQueue == [] && t.queue == [] {
      assert t.processed + [] + [] == t.processed;
    }
  }

  function Repeat(step: Step, n: nat): seq<Step> {
    if n == 0 then [] else [step] + Repeat(step, n - 1)
  }

  lemma {:induction false} RunConcat(s: System, a: seq<Step>, b: seq<Step>)
    ensures Run(s, a + b) == Run(Run(s, a), b)
    decreases |a|
  {
    if a == [] {
      assert a + b == b;
    } else {
      assert (a + b)[1..] == a[1..] + b;
      RunConcat(if Enabled(s, a[0]) then Apply(s, a[0]) else s, a[1..], b);
    }
  }

  lemma RunOne(s: System, a: Step)
    requires Enabled(s, a)
    ensures Run(s, [a]) == Apply(s, a)
  {
    assert [a][1..] == [];
  }

  lemma RunTwo(s: System, a: Step, b: Step)
    requires Enabled(s, a) && Enabled(Apply(s, a), b)
    ensures Run(s, [a, b]) == Apply(Apply(s, a), b)
  {
    assert [a, b][1..] == [b];
    RunOne(Apply(s, a), b);
  }

  lemma {:induction false} DrainsAll(s: System, at: string)
    requires at in s && s[at].stage == Draining
    ensures var s' := Run(s, Repeat(HandleStep(at), |s[at].tmpQueue|));
            at in s' && s'[at].stage == Draining && s'[at].tmpQueue == [] &&
            s'[at].processed == s[at].processed + s[at].tmpQueue
    decreases |s[at].tmpQueue|
  {
    var q := s[at].tmpQueue;
    if q != [] {
      var s1 := Handle(s, at);
      DrainsAll(s1, at);
      assert Repeat(HandleStep(at), |q|)[1..] == Repeat(HandleStep(at), |q| - 1);
      assert q == [q[0]] + q[1..];
    }
  }

  /** No producer has come further with a send, and no thread but that of `at` has moved. */
  predicate Unmoved(s: System, s': System, at: string) {
    && s.Keys == s'.Keys
    && forall n :: n in s ==> s'[n].pending == s[n].pending && (n != at ==> s'[n].stage == s[n].stage)
  }

  lemma OwnSchedule(s: System, step: Step, at: string)
    requires Enabled(s, step) && step in {ReadStep(at), SwapStep(at), FinishStep(at)}
    ensures Run(s, [step]) == Apply(s, step) && Unmoved(s, Apply(s, step), at)
  {
    RunOne(s, step);
  }

  /** A message that is consumed. */
  lemma ConsumeSchedule(s: System, at: string)
    requires at in s && s[at].stage == Draining && s[at].tmpQueue != [] && !Answers(s, at)
    ensures var s' := s[at := PopFront(s[at])];
            Run(s, [HandleStep(at)]) == s' && Unmoved(s, s', at)
  {
    RunOne(s, HandleStep(at));
  }

  /** A message that is answered, and the signal for the answer. */
  lemma AnswerSchedule(s: System, at: string)
    requires at in s && s[at].stage == Draining && s[at].tmpQueue != [] && Answers(s, at)
    ensures var s' := s[at := PopFront(s[at])];
            var s'' := s'[TASK0 := Signal(Push(s'[TASK0], Answer(at, s[at].tmpQueue[0])))];
            Run(s, [HandleStep(at), SignalStep(TASK0)]) == s'' && Unmoved(s, s'', at)
  {
    RunTwo(s, HandleStep(at), SignalStep(TASK0));
  }

  lemma NothingMoved(s: System, at: string)
    ensures Run(s, []) == s && Unmoved(s, s, at)
  {
  }

  lemma UnmovedTwice(s: System, s': System, s'': System, at: string)
    requires Unmoved(s, s', at) && Unmoved(s', s'', at)
    ensures Unmoved(s, s'', at)
  {
  }

  /** Every task waits for its eventfd, and nobody is in the middle of a send. */
  predicate Resting(s: System) {
    forall n :: n in s ==> s[n].stage == Idle && s[n].pending == 0
  }

  /** A task at rest: what it has not processed waits in its queue, with a wakeup on its way. */
  lemma RestingWithoutLoss(s: System, name: string)
    requires SystemOk(s) && Resting(s) && name in s
    ensures s[name].processed + s[name].queue == s[name].enqueued
    ensures s[name].queue == [] || s[name].counter > 0
  {
    assert TaskOk(s[name]);
    assert s[name].processed + [] == s[name].processed;
  }

  /** From any reachable state where a task sleeps on a queued, signalled message, one wakeup processes it all. */
  lemma OneWakeupProcessesAll(s: System, at: string)
    requires SystemOk(s) && at in s && s[at].stage == Idle && s[at].pending == 0 && s[at].queue != []
    ensures var steps := [ReadStep(at), SwapStep(at)] + Repeat(HandleStep(at), |s[at].queue|);
            var s' := Run(s, steps);
            at in s' && s'[at].processed == s[at].enqueued
  {
    var q := s[at].queue;
    assert TaskOk(s[at]);
    var s1 := Apply(s, ReadStep(at));
    var s2 := Apply(s1, SwapStep(at));
    var wake := [ReadStep(at), SwapStep(at)];
    RunTwo(s, ReadStep(at), SwapStep(at));
    RunConcat(s, wake, Repeat(HandleStep(at), |q|));
    DrainsAll(s2, at);
    assert s[at].processed + [] == s[at].processed;
  }
}
