/**
 What monitoring changes: how many callbacks are put on the reply list a second
 time, and which assertion can no longer fail.
 */
module AsyncMonitor {
  import opened Bytes
  import opened Resp
  import opened CallbackList
  import opened Subscription
  import opened AsyncProtocol
  import opened AsyncSafety

  /** Every callback put on the list since `c` is one of an accepted command, and monitoring has not ended. */
  ghost predicate InPace(c: Context, d: Context) {
    && Extends(c.log.queued, d.log.queued, c.log.accepted, d.log.accepted)
    && (c.flags.monitoring ==> d.flags.monitoring) && d.failure == c.failure
    && d.flags.inCallback == c.flags.inCallback
  }

  lemma InPaceItself(c: Context, d: Context)
    requires d.log.queued == c.log.queued && d.log.accepted == c.log.accepted
    requires d.flags.monitoring == c.flags.monitoring && d.failure == c.failure
    requires d.flags.inCallback == c.flags.inCallback
    ensures InPace(c, d)
  {
    ExtendsItself(c.log.queued, c.log.accepted);
  }

  lemma InPaceTwice(c: Context, d: Context, e: Context)
    requires InPace(c, d) && InPace(d, e)
    ensures InPace(c, e)
  {
    hide Extends;
    ExtendsTwice(c.log.queued, d.log.queued, e.log.queued, c.log.accepted, d.log.accepted, e.log.accepted);
  }

  lemma GrownInPace(c: Context, d: Context)
    requires Grown(c, d)
    ensures InPace(c, d)
  {
    var more := d.replies[|c.replies|..];
    assert d.log.queued[|c.log.queued|..] == more;
  }

  lemma CallbackInPace(user: Program, c: Context, s: Settled)
    requires !c.flags.inCallback
    ensures InPace(c, RunCallback(user, c, s))
  {
    hide Grown, RunCallback, Extends;
    CallbackGrows(user, c, s);
    GrownInPace(Called(c, s), RunCallback(user, c, s));
    InPaceItself(c, Called(c, s));
    InPaceTwice(c, Called(c, s), RunCallback(user, c, s));
  }

  // ------------------------------------------------------------------ tearing down

  lemma {:induction false} DrainRepliesInPace(user: Program, c: Context)
    requires Closing(c) && !c.flags.inCallback
    ensures InPace(c, DrainReplies(user, c))
    decreases |c.replies|
  {
    hide RunCallback, Extends;
    if c.replies == [] {
      InPaceItself(c, c);
    } else {
      var d := Settle(c, None);
      var e := RunCallback(user, d, Settled(c.replies[0], None));
      ServeGrows(user, c, None);
      InPaceItself(c, d);
      CallbackInPace(user, d, Settled(c.replies[0], None));
      InPaceTwice(c, d, e);
      DrainRepliesInPace(user, e);
      InPaceTwice(c, e, DrainReplies(user, e));
    }
  }

  lemma {:induction false} DrainInvalidInPace(user: Program, c: Context)
    requires Closing(c) && !c.flags.inCallback
    ensures InPace(c, DrainInvalid(user, c))
    decreases |c.sub.invalid|
  {
    hide RunCallback, Extends;
    if c.sub.invalid == [] {
      InPaceItself(c, c);
    } else {
      var s, d := Settled(c.sub.invalid[0], None), ShiftInvalid(c);
      var e := RunCallback(user, d, s);
      CallbackGrows(user, d, s);
      InPaceItself(c, d);
      CallbackInPace(user, d, s);
      InPaceTwice(c, d, e);
      DrainInvalidInPace(user, e);
      InPaceTwice(c, e, DrainInvalid(user, e));
    }
  }

  lemma {:induction false} SweepInPace(user: Program, c: Context, table: map<string, Callback>, keys: seq<string>)
    requires !c.flags.inCallback
    ensures InPace(c, SweepTable(user, c, table, keys))
    decreases |keys|
  {
    hide RunCallback, Extends;
    if keys == [] {
      InPaceItself(c, c);
    } else if keys[0] in table {
      var s := Settled(table[keys[0]], None);
      var d := RunCallback(user, c, s);
      CallbackInPace(user, c, s);
      SweepInPace(user, d, table, keys[1..]);
      InPaceTwice(c, d, SweepTable(user, d, table, keys[1..]));
    } else {
      SweepInPace(user, c, table, keys[1..]);
    }
  }

  lemma FreeInPace(user: Program, c: Context, sweep: Sweep)
    requires Closing(c) && Ready(c)
    ensures InPace(c, Free(user, c, sweep)) && !Alive(Free(user, c, sweep))
  {
    hide DrainReplies, DrainInvalid, SweepTable, Extends;
    var d := DrainReplies(user, c);
    DrainRepliesInPace(user, c);
    DrainStaysClosed(user, c);
    var e := DrainInvalid(user, d);
    DrainInvalidInPace(user, d);
    var f := SweepTable(user, e, e.sub.channels, sweep.channels);
    SweepInPace(user, e, e.sub.channels, sweep.channels);
    var g := SweepTable(user, f, f.sub.patterns, sweep.patterns);
    SweepInPace(user, f, f.sub.patterns, sweep.patterns);
    InPaceTwice(c, d, e);
    InPaceTwice(c, e, f);
    InPaceTwice(c, f, g);
    InPaceItself(g, Free(user, c, sweep));
    InPaceTwice(c, g, Free(user, c, sweep));
  }

  lemma DisconnectInPace(user: Program, c: Context, sweep: Sweep)
    requires Ready(c) && (c.err == 0 ==> c.replies == [] && c.flags.disconnecting)
    ensures InPace(c, Disconnect(user, c, sweep)) && !Alive(Disconnect(user, c, sweep))
  {
    hide Free, Extends;
    var d := if c.err == 0 then c else c.(flags := c.flags.(disconnecting := true));
    InPaceItself(c, d);
    FreeInPace(user, d, sweep);
    InPaceTwice(c, d, Free(user, d, sweep));
  }

  // ------------------------------------------------------------------------ replies

  /** How many callbacks more have been put on the list than commands with one were accepted. */
  function Surplus(c: Context): int {
    |c.log.queued| - |c.log.accepted|
  }

  lemma SameSurplus(c: Context, d: Context)
    requires InPace(c, d)
    ensures Surplus(d) == Surplus(c)
  {
  }

  /** What `again` callbacks put on the list a second time make of `c`. */
  ghost predicate Onward(c: Context, d: Context, again: nat) {
    && Surplus(d) == Surplus(c) + again
    && (again == 0 && c.log.queued == c.log.accepted ==> d.log.queued == d.log.accepted)
    && (c.flags.monitoring ==> d.flags.monitoring)
    && (c.flags.monitoring && c.failure != Spontaneous ==> d.failure != Spontaneous)
  }

  lemma OnwardInPace(c: Context, d: Context)
    requires InPace(c, d)
    ensures Onward(c, d, 0)
  {
    if c.log.queued == c.log.accepted {
      assert d.log.queued == c.log.queued + d.log.queued[|c.log.queued|..];
    }
  }

  lemma OnwardTwice(c: Context, d: Context, e: Context, m: nat, n: nat)
    requires Onward(c, d, m) && Onward(d, e, n)
    ensures Onward(c, e, m + n)
  {
  }

  /** A reply finds its callback, and the callback runs. */
  lemma DeliveryInPace(user: Program, c: Context, reply: Reply, last: Callback)
    requires Ready(c)
    ensures match Addressee(c, reply, last)
            case Malformed(d) => InPace(c, d)
            case Found(d, cb) => InPace(c, RunCallback(user, d, Settled(cb, Some(reply))))
  {
    hide WellFormed, Ends, RunCallback, Extends;
    match Addressee(c, reply, last)
    case Malformed(d) => InPaceItself(c, d);
    case Found(d, cb) =>
      var s := Settled(cb, Some(reply));
      InPaceItself(c, d);
      CallbackInPace(user, d, s);
      InPaceTwice(c, d, RunCallback(user, d, s));
  }

  /** A callback is put on the list again exactly if the context is left alive and monitoring. */
  lemma {:induction false} ProcessOnward(user: Program, c: Context, last: Callback, sweep: Sweep)
    requires Ready(c)
    ensures var d := Process(user, c, last, sweep);
            Onward(c, d, if Alive(d) && d.flags.monitoring then 1 else 0)
    decreases Unread(c.reader)
  {
    hide Disconnect, Free, RunCallback, Addressee, Extends, Onward, InPace;
    var got, d := Ask(c), Process(user, c, last, sweep);
    if got.state.Dead? || got.values == [] {
      QuietOnward(user, c, last, sweep);
    } else {
      AskShrinks(c);
      var reply := got.values[0];
      var e := Receive(c, reply, got.state);
      InPaceItself(c, e);
      if e.replies == [] && reply.Error? {
        DisconnectInPace(user, e.(err := ERR_OTHER), sweep);
        InPaceItself(e, e.(err := ERR_OTHER));
        InPaceTwice(c, e, e.(err := ERR_OTHER));
        InPaceTwice(c, e.(err := ERR_OTHER), d);
        OnwardInPace(c, d);
      } else if Unexpected(e, reply) {
        FailedOnward(c, e);
      } else {
        DeliveryKeeps(user, e, reply, last);
        DeliveryInPace(user, e, reply, last);
        match Addressee(e, reply, last)
        case Malformed(f) =>
          InPaceTwice(c, e, f);
          MalformedOnward(c, f);
        case Found(f, cb) =>
          var g := RunCallback(user, f, Settled(cb, Some(reply)));
          InPaceTwice(c, e, g);
          OnwardInPace(c, g);
          if cb.fn != 0 && g.flags.freeing {
            FreeInPace(user, g, sweep);
            InPaceTwice(c, g, d);
            OnwardInPace(c, d);
          } else {
            ProcessOnward(user, g, cb, sweep);
            OnwardTwice(c, g, d, 0, if Alive(d) && d.flags.monitoring then 1 else 0);
          }
      }
    }
  }

  lemma QuietOnward(user: Program, c: Context, last: Callback, sweep: Sweep)
    requires Ready(c) && (Ask(c).state.Dead? || Ask(c).values == [])
    ensures var d := Process(user, c, last, sweep);
            Onward(c, d, if Alive(d) && d.flags.monitoring then 1 else 0)
  {
    hide Disconnect, InPace;
    var got, d := Ask(c), Process(user, c, last, sweep);
    if got.state.Dead? {
      var e := c.(reader := got.state, err := ERR_PROTOCOL);
      InPaceItself(c, e);
      DisconnectInPace(user, e, sweep);
      InPaceTwice(c, e, d);
      OnwardInPace(c, d);
    } else if c.flags.disconnecting && c.obuf == "" && c.replies == [] {
      DisconnectInPace(user, c, sweep);
      OnwardInPace(c, d);
    }
  }

  /** The assertion fails on a context that is not monitoring only. */
  lemma FailedOnward(c: Context, d: Context)
    requires InPace(c, d) && !d.flags.monitoring
    ensures Onward(c, d.(failure := Spontaneous), 0)
  {
    OnwardInPace(c, d);
  }

  lemma MalformedOnward(c: Context, d: Context)
    requires InPace(c, d)
    ensures Onward(c, d.(failure := BadMessage), 0)
  {
    OnwardInPace(c, d);
  }

  // ------------------------------------------------------------------------- runs

  /** A read event that ends with the context alive, connected and monitoring. */
  predicate PushesAgain(c: Context, e: Event, d: Context) {
    Ready(c) && e.ReadEvent? && Alive(d) && d.flags.connected && d.flags.monitoring
  }

  lemma ReadOnward(user: Program, c: Context, read: Read, sweep: Sweep)
    requires Ready(c)
    ensures var d := HandleRead(user, c, read, sweep);
            Onward(c, d, if Alive(d) && d.flags.monitoring then 1 else 0)
  {
    hide Disconnect, Process, InPace, Onward;
    var d := HandleRead(user, c, read, sweep);
    if c.err == 0 && read.ReadAgain? {
      ProcessOnward(user, c, NO_CALLBACK, sweep);
    } else if c.err == 0 && read.Arrived? && c.reader.Live? {
      var e := Take(c, read.bytes);
      ProcessOnward(user, e, NO_CALLBACK, sweep);
      InPaceItself(c, e);
      OnwardInPace(c, e);
      OnwardTwice(c, e, d, 0, if Alive(d) && d.flags.monitoring then 1 else 0);
    } else {
      var e := if c.err != 0 then c
               else c.(err := if read.ReadFailed? then ERR_IO else if read.EndOfFile? then ERR_EOF else ERR_PROTOCOL);
      InPaceItself(c, e);
      DisconnectInPace(user, e, sweep);
      InPaceTwice(c, e, d);
      OnwardInPace(c, d);
    }
  }

  lemma WriteOnward(user: Program, c: Context, write: Write, sweep: Sweep)
    requires Ready(c)
    ensures Onward(c, HandleWrite(user, c, write, sweep), 0)
  {
    hide Disconnect, InPace, Onward;
    var d := HandleWrite(user, c, write, sweep);
    if c.err != 0 || (c.obuf != "" && write.WriteFailed?) {
      var e := if c.err != 0 then c else c.(err := ERR_IO);
      InPaceItself(c, e);
      DisconnectInPace(user, e, sweep);
      InPaceTwice(c, e, d);
    } else {
      InPaceItself(c, d);
    }
    OnwardInPace(c, d);
  }

  lemma StepOnward(user: Program, c: Context, e: Event, sweep: Sweep)
    ensures var d := Step(user, c, e, sweep);
            Onward(c, d, if PushesAgain(c, e, d) then 1 else 0)
  {
    hide Disconnect, Free, HandleRead, HandleWrite, Issue, InPace, Onward, Extends;
    var d := Step(user, c, e, sweep);
    InPaceItself(c, c);
    OnwardInPace(c, c);
    if Ready(c) {
      match e
      case CommandEvent(cb, name, args) =>
        IssueGrows(c, cb, name, args);
        GrownInPace(c, d);
        OnwardInPace(c, d);
      case DisconnectEvent =>
        var f := c.(flags := c.flags.(disconnecting := true));
        InPaceItself(c, f);
        if c.replies == [] {
          DisconnectInPace(user, f, sweep);
          InPaceTwice(c, f, d);
        }
        OnwardInPace(c, d);
      case FreeEvent =>
        var f := c.(flags := c.flags.(freeing := true));
        InPaceItself(c, f);
        FreeInPace(user, f, sweep);
        InPaceTwice(c, f, d);
        OnwardInPace(c, d);
      case ReadEvent(connect, read) => SocketOnward(user, c, connect, sweep);
        if !Refuses(c, connect) && Connects(c, connect).flags.connected {
          var f := Connects(c, connect);
          ReadOnward(user, f, read, sweep);
          OnwardTwice(c, f, d, 0, if Alive(d) && d.flags.monitoring then 1 else 0);
          ReadKeepsConnected(user, f, read, sweep);
        }
      case WriteEvent(connect, write) => SocketOnward(user, c, connect, sweep);
        if !Refuses(c, connect) && Connects(c, connect).flags.connected {
          WriteOnward(user, Connects(c, connect), write, sweep);
          OnwardTwice(c, Connects(c, connect), d, 0, 0);
        }
    }
  }

  /** What looking at the connection does. */
  lemma SocketOnward(user: Program, c: Context, connect: Connect, sweep: Sweep)
    requires Ready(c)
    ensures Refuses(c, connect) ==>
              var d := Disconnect(user, c.(err := ERR_IO), sweep);
              Onward(c, d, 0) && !Alive(d)
    ensures Onward(c, Connects(c, connect), 0)
  {
    hide Disconnect, InPace, Onward;
    var e := c.(err := ERR_IO);
    InPaceItself(c, e);
    DisconnectInPace(user, e, sweep);
    InPaceTwice(c, e, Disconnect(user, e, sweep));
    OnwardInPace(c, Disconnect(user, e, sweep));
    InPaceItself(c, Connects(c, connect));
    OnwardInPace(c, Connects(c, connect));
  }

  lemma {:induction false} ProcessKeepsConnected(user: Program, c: Context, last: Callback, sweep: Sweep)
    requires Ready(c)
    ensures var d := Process(user, c, last, sweep);
            Alive(d) ==> d.flags.connected == c.flags.connected
    decreases Unread(c.reader)
  {
    hide CallEverybody, RunCallback, WellFormed, Ends, Extends;
    if Ask(c).values != [] && !Ask(c).state.Dead? {
      AskShrinks(c);
      var reply := Ask(c).values[0];
      var d := Receive(c, reply, Ask(c).state);
      DeliveryKeeps(user, d, reply, last);
      match Addressee(d, reply, last)
      case Malformed(_) =>
      case Found(e, cb) =>
        CallbackGrows(user, e, Settled(cb, Some(reply)));
        var f := RunCallback(user, e, Settled(cb, Some(reply)));
        if !(cb.fn != 0 && f.flags.freeing) {
          ProcessKeepsConnected(user, f, cb, sweep);
        }
    }
  }

  lemma ReadKeepsConnected(user: Program, c: Context, read: Read, sweep: Sweep)
    requires Ready(c)
    ensures var d := HandleRead(user, c, read, sweep);
            Alive(d) ==> d.flags.connected == c.flags.connected
  {
    hide CallEverybody, Process;
    ProcessKeepsConnected(user, c, NO_CALLBACK, sweep);
    if read.Arrived? {
      ProcessKeepsConnected(user, Take(c, read.bytes), NO_CALLBACK, sweep);
    }
  }

  /** How many events of a run put a callback on the list again. */
  function PushedAgain(user: Program, c: Context, ticks: seq<Tick>): nat
    decreases |ticks|
  {
    if ticks == [] then 0
    else
      var d := Step(user, c, ticks[0].event, ticks[0].sweep);
      (if PushesAgain(c, ticks[0].event, d) then 1 else 0) + PushedAgain(user, d, ticks[1..])
  }

  lemma {:induction false} RunOnward(user: Program, c: Context, ticks: seq<Tick>)
    ensures Onward(c, Run(user, c, ticks), PushedAgain(user, c, ticks))
    decreases |ticks|
  {
    hide Step, Onward, PushesAgain;
    if ticks == [] {
      InPaceItself(c, c);
      OnwardInPace(c, c);
    } else {
      var e := ticks[0].event;
      var d := Step(user, c, e, ticks[0].sweep);
      StepOnward(user, c, e, ticks[0].sweep);
      RunOnward(user, d, ticks[1..]);
      var now := if PushesAgain(c, e, d) then 1 else 0;
      OnwardTwice(c, d, Run(user, d, ticks[1..]), now, PushedAgain(user, d, ticks[1..]));
    }
  }

  // ----------------------------------------------------------------- main results

  /**
   In every run the reply list has been given one callback for each accepted command
   that waits for a reply, and one more for each read event that ends with the context
   alive, connected and monitoring. So callbacks are settled once per command, in
   order, exactly as long as there has been no such event.
   */
  lemma OnePushPerMonitoringRead(user: Program, err: int, ticks: seq<Tick>)
    ensures var c, again := Run(user, NewContext(err), ticks), PushedAgain(user, NewContext(err), ticks);
            && |c.log.queued| == |c.log.accepted| + again
            && (again == 0 <==> c.log.queued == c.log.accepted)
            && |c.log.settled| <= |c.log.queued|
            && forall k :: 0 <= k < |c.log.settled| ==> c.log.settled[k].cb == c.log.queued[k]
  {
    hide Run, PushedAgain, WithFunction;
    RunOnward(user, NewContext(err), ticks);
    RunFromNew(user, err, ticks);
    CallbacksLength(Run(user, NewContext(err), ticks).log.settled);
  }

  /** Once a monitor command was accepted, the assertion about replies nobody waits for cannot fail any more. */
  lemma MonitoringExpectsEverything(user: Program, c: Context, cb: Callback, name: string, args: seq<string>,
                                    ticks: seq<Tick>)
    requires c.failure != Spontaneous && Accepts(c, name, args) && KindOfCommand(name, args) == CommandKind.Monitor
    ensures Run(user, Issue(c, cb, name, args), ticks).failure != Spontaneous
  {
    hide Run, PushedAgain, KindOfCommand;
    RunOnward(user, Issue(c, cb, name, args), ticks);
  }
}
