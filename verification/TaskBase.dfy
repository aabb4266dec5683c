/** The task objects themselves: what each thread executes is a schedule of the protocol. */
module TaskBase {
  import opened TaskProtocol

  class Worker {
    const name: string
    var taskQueue: seq<Msg>
    var tmpTaskQueue: seq<Msg>
    var counter: nat            // the eventfd

    ghost var pending: nat
    ghost var stage: Stage
    ghost var processed: seq<Msg>
    ghost var enqueued: seq<Msg>

    constructor (name: string)
      ensures this.name == name && State() == NEW_TASK
    {
      this.name := name;
      taskQueue, tmpTaskQueue, counter := [], [], 0;
      pending, stage, processed, enqueued := 0, Idle, [], [];
    }

    ghost function State(): Task
      reads this
    {
      Task(taskQueue, tmpTaskQueue, counter, pending, stage, processed, enqueued)
    }

    /** Queues a message, under the lock. */
    method InQueue(msg: Msg)
      modifies this
      ensures State() == Push(old(State()), msg)
    {
      taskQueue := taskQueue + [msg];
      pending, enqueued := pending + 1, enqueued + [msg];
    }

    method WriteEventFd() returns (ok: bool)
      requires pending > 0
      modifies this
      ensures State() == Signal(old(State()))
      ensures ok == (old(counter) < COUNTER_MAX)
    {
      ok := counter < COUNTER_MAX;
      if ok {
        counter := counter + 1;
      }
      pending := pending - 1;
    }

    /** A read of an eventfd takes the whole count; at zero it would block and fails. */
    method ReadEventFd() returns (ok: bool, one: nat)
      requires stage == Idle
      modifies this
      ensures ok == (old(counter) > 0)
      ensures ok ==> State() == ReadCounter(old(State())) && one == old(counter)
      ensures !ok ==> State() == old(State())
    {
      ok, one := counter > 0, counter;
      if ok {
        counter, stage := 0, Woken;
      }
    }

    /** Exchanges the two queues, under the lock. */
    method SwapQueues()
      requires stage == Woken
      modifies this
      ensures State() == Swap(old(State()))
    {
      taskQueue, tmpTaskQueue := tmpTaskQueue, taskQueue;
      stage := Draining;
    }

    method Pop()
      requires tmpTaskQueue != []
      modifies this
      ensures State() == PopFront(old(State()))
    {
      processed := processed + [tmpTaskQueue[0]];
      tmpTaskQueue := tmpTaskQueue[1..];
    }

    ghost method Finish()
      modifies this
      ensures State() == TaskProtocol.Finish(old(State()))
    {
      stage := Idle;
    }
  }

  class TaskManager {
    var taskMap: map<string, Worker>

    ghost predicate Valid()
      reads this, taskMap.Values
    {
      forall n :: n in taskMap ==> taskMap[n].name == n
    }

    ghost function States(): System
      reads this, taskMap.Values
    {
      map n | n in taskMap :: taskMap[n].State()
    }

    constructor ()
      ensures Valid() && taskMap == map[]
    {
      taskMap := map[];
    }

    /** Adds a task under its name, in place of another one of that name. */
    method AddTask(task: Worker)
      requires Valid()
      modifies this
      ensures Valid() && taskMap == old(taskMap)[task.name := task]
    {
      taskMap := taskMap[task.name := task];
    }

    /** Queues a message at the named task and signals it; false if there is no such task. */
    method Send2Task(name: string, msg: Msg) returns (ok: bool)
      requires Valid()
      modifies taskMap.Values
      ensures Valid()
      ensures name !in taskMap ==> !ok && States() == old(States())
      ensures name in taskMap ==>
                States() == old(States())[name := Signal(Push(old(States())[name], msg))] &&
                ok == (old(States())[name].counter < COUNTER_MAX)
    {
      if name !in taskMap {
        return false;
      }
      var task := taskMap[name];
      task.InQueue(msg);
      ok := task.WriteEventFd();
      Differs(name);
    }

    /** Tasks have different names, so only the entry of `name` can have changed. */
    twostate lemma Differs(name: string)
      requires old(Valid()) && Valid() && name in taskMap && taskMap == old(taskMap)
      requires forall w: Worker :: w in taskMap.Values && w != taskMap[name] ==> w.State() == old(w.State())
      ensures States() == old(States())[name := taskMap[name].State()]
    {
    }

    /** The eventfd callback: a failed read does nothing, otherwise the queued messages are processed. */
    method EvfdCallback(task: Worker) returns (ghost steps: seq<Step>)
      requires Valid() && task.name in taskMap && taskMap[task.name] == task && task.stage == Idle
      modifies taskMap.Values
      ensures Valid() && States() == Run(old(States()), steps) && Unmoved(old(States()), States(), task.name)
      ensures task.stage == Idle
      ensures old(task.counter) > 0 ==> task.processed == old(task.processed + task.taskQueue)
      ensures old(task.counter) == 0 ==> steps == []
    {
      hide Unmoved, Run;
      ghost var s := States();
      var ok, one := task.ReadEventFd();
      if !ok {
        NothingMoved(s, task.name);
        assert States() == s;
        return [];
      }
      Differs(task.name);
      ghost var read := States();
      OwnSchedule(s, ReadStep(task.name), task.name);
      ghost var more := ProcessMsg(task);
      steps := [ReadStep(task.name)] + more;
      RunConcat(s, [ReadStep(task.name)], more);
      UnmovedTwice(s, read, States(), task.name);
    }

    /** Swaps the queues and drains; heartbeat requests are answered to task 0. */
    method ProcessMsg(task: Worker) returns (ghost steps: seq<Step>)
      requires Valid() && task.name in taskMap && taskMap[task.name] == task && task.stage == Woken
      modifies taskMap.Values
      ensures Valid() && States() == Run(old(States()), steps) && Unmoved(old(States()), States(), task.name)
      ensures task.stage == Idle && task.tmpTaskQueue == []
      ensures task.processed == old(task.processed + task.taskQueue)
    {
      hide Unmoved, Run;
      ghost var s := States();
      task.SwapQueues();
      Differs(task.name);
      ghost var swapped := States();
      OwnSchedule(s, SwapStep(task.name), task.name);
      ghost var drain := DrainTmpQueue(task);
      steps := [SwapStep(task.name)] + drain;
      RunConcat(s, [SwapStep(task.name)], drain);
      UnmovedTwice(s, swapped, States(), task.name);
    }

    method DrainTmpQueue(task: Worker) returns (ghost steps: seq<Step>)
      requires Valid() && task.name in taskMap && taskMap[task.name] == task && task.stage == Draining
      modifies taskMap.Values
      ensures Valid() && States() == Run(old(States()), steps) && Unmoved(old(States()), States(), task.name)
      ensures task.stage == Idle && task.tmpTaskQueue == []
      ensures task.processed == old(task.processed + task.tmpTaskQueue)
    {
      hide Unmoved, Run;
      ghost var start := States();
      steps := [];
      NothingMoved(start, task.name);
      while |task.tmpTaskQueue| != 0
        invariant States() == Run(start, steps) && Unmoved(start, States(), task.name)
        invariant task.stage == Draining
        invariant task.processed + task.tmpTaskQueue == old(task.processed + task.tmpTaskQueue)
        decreases |task.tmpTaskQueue|
      {
        ghost var q, s := task.tmpTaskQueue, States();
        ghost var more := HandleFront(task);
        RunConcat(start, steps, more);
        UnmovedTwice(start, s, States(), task.name);
        steps := steps + more;
        assert q == [q[0]] + q[1..];
      }
      ghost var drained := States();
      label Drained:
      task.Finish();
      Differs@Drained(task.name);
      OwnSchedule(drained, FinishStep(task.name), task.name);
      RunConcat(start, steps, [FinishStep(task.name)]);
      UnmovedTwice(start, drained, States(), task.name);
      steps := steps + [FinishStep(task.name)];
    }

    /** Takes the front message off; only heartbeat requests at other tasks go further. */
    method HandleFront(task: Worker) returns (ghost steps: seq<Step>)
      requires Valid() && task.name in taskMap && taskMap[task.name] == task
      requires task.stage == Draining && task.tmpTaskQueue != []
      modifies taskMap.Values
      ensures Valid() && States() == Run(old(States()), steps) && Unmoved(old(States()), States(), task.name)
      ensures task.stage == Draining
      ensures task.tmpTaskQueue == old(task.tmpTaskQueue)[1..]
      ensures task.processed == old(task.processed) + [old(task.tmpTaskQueue)[0]]
    {
      hide Unmoved, Run;
      ghost var s, at := States(), task.name;
      var tmp := task.tmpTaskQueue[0];
      task.Pop();
      Differs(at);
      if tmp.kind == HbReq && task.name != TASK0 && TASK0 in taskMap {
        AnswerSchedule(s, at);
        steps := [HandleStep(at), SignalStep(TASK0)];
      } else {
        ConsumeSchedule(s, at);
        steps := [HandleStep(at)];
      }
      if tmp.kind == HbReq && task.name != TASK0 {
        var ok := Send2Task(TASK0, tmp.(body := task.name, kind := HbRsp));
      }
    }
  }

  /** New tasks of the given names, and then task 0. */
  method Launch(names: seq<string>) returns (tm: TaskManager)
    ensures fresh(tm) && fresh(tm.taskMap.Values) && tm.Valid()
    ensures tm.States() == Init((set n | n in names) + {TASK0})
  {
    tm := new TaskManager();
    for i := 0 to |names|
      invariant fresh(tm) && fresh(tm.taskMap.Values) && tm.Valid()
      invariant tm.States() == Init(set n | n in names[..i])
    {
      AddNew(tm, names[i]);
      assert names[..i + 1] == names[..i] + [names[i]];
    }
    assert names[..|names|] == names;
    AddNew(tm, TASK0);
  }

  method AddNew(tm: TaskManager, name: string)
    requires tm.Valid()
    modifies tm
    ensures tm.Valid() && fresh(tm.taskMap.Values - old(tm.taskMap.Values))
    ensures tm.States() == old(tm.States())[name := NEW_TASK]
  {
    var task := new Worker(name);
    tm.AddTask(task);
  }

  /** What happens to the tasks: somebody sends a message, or a task's eventfd is looked at. */
  datatype Turn = Send(to: string, msg: Msg) | Poll(at: string)

  method TakeTurn(tm: TaskManager, turn: Turn) returns (ghost steps: seq<Step>)
    requires tm.Valid() && Resting(tm.States()) && (turn.Send? ==> turn.msg.kind != HbRsp)
    modifies tm.taskMap.Values
    ensures tm.Valid() && Resting(tm.States()) && tm.States() == Run(old(tm.States()), steps)
  {
    hide Run;
    ghost var s := tm.States();
    steps := [];
    NothingMoved(s, TASK0);
    match turn
    case Send(to, msg) =>
      var ok := tm.Send2Task(to, msg);
      if to in tm.taskMap {
        RunTwo(s, PushStep(to, msg), SignalStep(to));
        steps := [PushStep(to, msg), SignalStep(to)];
      }
    case Poll(at) =>
      if at in tm.taskMap {
        assert tm.States()[at].stage == Idle;
        assert tm.taskMap[at].name == at;
        steps := tm.EvfdCallback(tm.taskMap[at]);
      }
  }

  /**
   Tasks under any sequence of messages and polls: no message is lost, doubled or
   overtaken, and one that waits has its task's counter raised. A poll that finds
   the counter raised empties the queue.
   */
  method Drive(names: seq<string>, turns: seq<Turn>) returns (tm: TaskManager, ghost steps: seq<Step>)
    requires forall t :: t in turns && t.Send? ==> t.msg.kind != HbRsp
    ensures tm.Valid() && tm.taskMap.Keys == (set n | n in names) + {TASK0}
    ensures tm.States() == Run(Init(tm.taskMap.Keys), steps) && SystemOk(tm.States())
    ensures forall n :: n in tm.taskMap ==>
              var t := tm.taskMap[n];
              && t.processed + t.taskQueue == t.enqueued
              && (t.taskQueue == [] || t.counter > 0)
  {
    hide SystemOk, Run;
    tm := Launch(names);
    steps := [];
    ghost var start := tm.States();
    NothingMoved(start, TASK0);
    for i := 0 to |turns|
      invariant tm.Valid() && fresh(tm) && fresh(tm.taskMap.Values)
      invariant tm.States() == Run(start, steps) && Resting(tm.States())
    {
      ghost var more := TakeTurn(tm, turns[i]);
      RunConcat(start, steps, more);
      steps := steps + more;
    }
    ghost var all := (set n | n in names) + {TASK0};
    EveryScheduleIsSafe(all, steps);
    assert tm.States().Keys == tm.taskMap.Keys;
    forall n | n in tm.taskMap
      ensures var t := tm.taskMap[n]; t.processed + t.taskQueue == t.enqueued && (t.taskQueue == [] || t.counter > 0)
    {
      RestingWithoutLoss(tm.States(), n);
    }
  }
}
