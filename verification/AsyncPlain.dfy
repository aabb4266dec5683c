/**
 Runs without subscribe and monitor commands: when a run is one, and runs that
 show why the guarantees about replies need it.
 */
module AsyncPlain {
  import opened Bytes
  import opened Resp
  import S = Streams
  import opened CallbackList
  import opened Subscription
  import opened AsyncProtocol
  import opened AsyncSafety

  predicate RegularTick(t: Tick) {
    t.event.CommandEvent? ==> KindOfCommand(t.event.name, t.event.args) == Regular
  }

  predicate RegularAction(a: Action) {
    a.CommandCall? ==> KindOfCommand(a.name, a.args) == Regular
  }

  ghost predicate RegularProgram(user: Program) {
    forall k, s :: forall i :: 0 <= i < |user(k, s)| ==> RegularAction(user(k, s)[i])
  }

  /** What keeps a run plain: it holds while only regular commands are sent. */
  ghost predicate Unsubscribed(c: Context) {
    c.log.plain && !c.flags.subscribed && !c.flags.monitoring && c.sub == Subscriptions([], map[], map[])
  }

  lemma {:induction false} ScriptStaysPlain(c: Context, actions: seq<Action>)
    requires Unsubscribed(c) && forall i :: 0 <= i < |actions| ==> RegularAction(actions[i])
    ensures Unsubscribed(Script(c, actions))
    decreases |actions|
  {
    hide KindOfCommand;
    if actions != [] {
      assert RegularAction(actions[0]);
      ScriptStaysPlain(Act(c, actions[0]), actions[1..]);
    }
  }

  lemma CallbackStaysPlain(user: Program, c: Context, s: Settled)
    requires RegularProgram(user) && Unsubscribed(c)
    ensures Unsubscribed(RunCallback(user, c, s))
  {
    hide Script;
    if s.cb.fn != 0 {
      ScriptStaysPlain(SetInCallback(Called(c, s), true), user(|c.log.calls|, s));
    }
  }

  lemma {:induction false} DrainStaysPlain(user: Program, c: Context)
    requires RegularProgram(user) && Unsubscribed(c) && Closing(c) && !c.flags.inCallback
    ensures Unsubscribed(DrainReplies(user, c))
    decreases |c.replies|
  {
    hide RunCallback;
    if c.replies != [] {
      CallbackStaysPlain(user, Settle(c, None), Settled(c.replies[0], None));
      ServeGrows(user, c, None);
      DrainStaysPlain(user, Serve(user, c, None));
    }
  }

  lemma {:induction false} NothingToSweep(user: Program, c: Context, keys: seq<string>)
    ensures SweepTable(user, c, map[], keys) == c
    decreases |keys|
  {
    if keys != [] {
      NothingToSweep(user, c, keys[1..]);
    }
  }

  lemma FreeStaysPlain(user: Program, c: Context, sweep: Sweep)
    requires RegularProgram(user) && Unsubscribed(c) && Closing(c) && Ready(c)
    ensures Unsubscribed(Free(user, c, sweep))
  {
    hide DrainReplies, SweepTable;
    DrainStaysPlain(user, c);
    DrainStaysClosed(user, c);
    NothingToSweep(user, DrainReplies(user, c), sweep.channels);
    NothingToSweep(user, DrainReplies(user, c), sweep.patterns);
  }

  lemma DisconnectStaysPlain(user: Program, c: Context, sweep: Sweep)
    requires RegularProgram(user) && Unsubscribed(c) && Ready(c)
    requires c.err == 0 ==> c.replies == [] && c.flags.disconnecting
    ensures Unsubscribed(Disconnect(user, c, sweep))
  {
    hide Free;
    FreeStaysPlain(user, if c.err == 0 then c else c.(flags := c.flags.(disconnecting := true)), sweep);
  }

  lemma {:induction false} ProcessStaysPlain(user: Program, c: Context, last: Callback, sweep: Sweep)
    requires RegularProgram(user) && Unsubscribed(c) && Ready(c)
    ensures Unsubscribed(Process(user, c, last, sweep))
    decreases Unread(c.reader)
  {
    hide Free, Disconnect, RunCallback;
    var got := Ask(c);
    if got.state.Dead? {
      DisconnectStaysPlain(user, c.(reader := got.state, err := ERR_PROTOCOL), sweep);
    } else if got.values == [] {
      if c.flags.disconnecting && c.obuf == "" && c.replies == [] {
        DisconnectStaysPlain(user, c, sweep);
      }
    } else {
      AskShrinks(c);
      var reply := got.values[0];
      var d := Receive(c, reply, got.state);
      if d.replies == [] {
        if reply.Error? {
          DisconnectStaysPlain(user, d.(err := ERR_OTHER), sweep);
        }
      } else {
        var e, s := Settle(d, Some(reply)), Settled(d.replies[0], Some(reply));
        DeliveryKeeps(user, d, reply, last);
        CallbackStaysPlain(user, e, s);
        var f := RunCallback(user, e, s);
        if s.cb.fn != 0 && f.flags.freeing {
          FreeStaysPlain(user, f, sweep);
        } else {
          ProcessStaysPlain(user, f, s.cb, sweep);
        }
      }
    }
  }

  lemma StepStaysPlain(user: Program, c: Context, t: Tick)
    requires RegularProgram(user) && Unsubscribed(c) && RegularTick(t)
    ensures Unsubscribed(Step(user, c, t.event, t.sweep))
  {
    hide Free, Disconnect, Process, KindOfCommand;
    if Ready(c) {
      match t.event
      case CommandEvent(_, _, _) =>
      case DisconnectEvent =>
        if c.replies == [] {
          DisconnectStaysPlain(user, c.(flags := c.flags.(disconnecting := true)), t.sweep);
        }
      case FreeEvent => FreeStaysPlain(user, c.(flags := c.flags.(freeing := true)), t.sweep);
      case ReadEvent(connect, read) =>
        if Refuses(c, connect) {
          DisconnectStaysPlain(user, c.(err := ERR_IO), t.sweep);
        } else {
          ReadStaysPlain(user, Connects(c, connect), read, t.sweep);
        }
      case WriteEvent(connect, write) =>
        if Refuses(c, connect) {
          DisconnectStaysPlain(user, c.(err := ERR_IO), t.sweep);
        } else {
          WriteStaysPlain(user, Connects(c, connect), write, t.sweep);
        }
    }
  }

  lemma ReadStaysPlain(user: Program, c: Context, read: Read, sweep: Sweep)
    requires RegularProgram(user) && Unsubscribed(c) && Ready(c)
    ensures Unsubscribed(HandleRead(user, c, read, sweep))
  {
    hide Disconnect, Process;
    if c.err != 0 {
      DisconnectStaysPlain(user, c, sweep);
    } else {
      match read
      case ReadAgain => ProcessStaysPlain(user, c, NO_CALLBACK, sweep);
      case ReadFailed => DisconnectStaysPlain(user, c.(err := ERR_IO), sweep);
      case EndOfFile => DisconnectStaysPlain(user, c.(err := ERR_EOF), sweep);
      case Arrived(bytes) =>
        if c.reader.Dead? {
          DisconnectStaysPlain(user, c.(err := ERR_PROTOCOL), sweep);
        } else {
          ProcessStaysPlain(user, Take(c, bytes), NO_CALLBACK, sweep);
        }
    }
  }

  lemma WriteStaysPlain(user: Program, c: Context, write: Write, sweep: Sweep)
    requires RegularProgram(user) && Unsubscribed(c) && Ready(c)
    ensures Unsubscribed(HandleWrite(user, c, write, sweep))
  {
    hide Disconnect;
    if c.err != 0 {
      DisconnectStaysPlain(user, c, sweep);
    } else if c.obuf != "" && write.WriteFailed? {
      DisconnectStaysPlain(user, c.(err := ERR_IO), sweep);
    }
  }

  lemma {:induction false} TicksStayPlain(user: Program, c: Context, ticks: seq<Tick>)
    requires RegularProgram(user) && Unsubscribed(c) && forall i :: 0 <= i < |ticks| ==> RegularTick(ticks[i])
    ensures Unsubscribed(Run(user, c, ticks))
    decreases |ticks|
  {
    hide Unsubscribed, Step;
    if ticks != [] {
      assert RegularTick(ticks[0]);
      StepStaysPlain(user, c, ticks[0]);
      TicksStayPlain(user, Step(user, c, ticks[0].event, ticks[0].sweep), ticks[1..]);
    }
  }

  /** A run is plain if the application and its callbacks send regular commands only. */
  lemma RegularRunsArePlain(user: Program, err: int, ticks: seq<Tick>)
    requires RegularProgram(user) && forall i :: 0 <= i < |ticks| ==> RegularTick(ticks[i])
    ensures Run(user, NewContext(err), ticks).log.plain
  {
    TicksStayPlain(user, NewContext(err), ticks);
  }

  // ------------------------------------------------------------- what goes wrong

  /** One status line, read from the front of what has arrived. */
  lemma StatusLine(text: string, rest: string)
    requires !HasCrlf(text)
    ensures PARSE("+" + text + CRLF + rest) == S.Ok(Status(text), rest)
  {
    hide ParseItem;
    ParseHeader('+', text, rest, 0);
    assert ['+'] + text + CRLF + rest == "+" + text + CRLF + rest;
  }

  /** One status line on a new connection is enough to make the assertion about replies fail. */
  lemma SpontaneousReplyFails(user: Program, sweep: Sweep)
    ensures var t := Tick(ReadEvent(Established, Arrived("+OK" + CRLF)), sweep);
            Run(user, NewContext(0), [t]).failure == Spontaneous
  {
    hide ParseItem, Disconnect, Free;
    var line := "+OK" + CRLF;
    var t := Tick(ReadEvent(Established, Arrived(line)), sweep);
    StatusLine("OK", "");
    assert "+" + "OK" + CRLF + "" == line && "" + line == line;
    assert Step(user, NewContext(0), t.event, sweep).failure == Spontaneous;
    assert [t][1..] == [];
  }

  function Idle(k: nat, s: Settled): seq<Action> {
    []
  }

  const TWO_LINES := "+OK" + CRLF + "+x" + CRLF

  /** A connection on which one monitor command was sent, when two status lines have arrived. */
  function Monitored(cb: Callback): Context {
    var c := Connects(Issue(NewContext(0), cb, MONITOR, []), Established);
    Take(c, TWO_LINES)
  }

  lemma MonitorIsMonitor()
    ensures KindOfCommand(MONITOR, []) == CommandKind.Monitor
  {
    var v := MONITOR + CRLF;
    assert v[0] == 'm' && Lower(v[0]) == 'm' && WithoutP(v) == v;
    assert (UNSUBSCRIBE + CRLF)[0] == 'u';
    assert forall i :: 0 <= i < |v| ==> Lower(v[i]) == v[i];
  }

  lemma BothLines(cb: Callback)
    ensures var c, tail := Monitored(cb), "+x" + CRLF;
            && Ask(c) == S.Outcome(S.Live(tail), [Status("OK")])
            && (forall d: Context :: d.reader == S.Live(tail) ==> Ask(d) == S.Outcome(S.Live(""), [Status("x")]))
            && (forall d: Context :: d.reader == S.Live("") ==> Ask(d) == S.Outcome(S.Live(""), []))
  {
    hide ParseItem, KindOfCommand;
    StatusLine("OK", "+x" + CRLF);
    StatusLine("x", "");
    assert "+" + "OK" + CRLF + ("+x" + CRLF) == TWO_LINES && "" + TWO_LINES == TWO_LINES;
    assert "+" + "x" + CRLF + "" == "+x" + CRLF;
    NothingFromNothing();
  }

  lemma NothingFromNothing()
    ensures PARSE("") == S.More
  {
  }

  /** While monitoring, one callback is called for reply after reply: not once per command. */
  lemma MonitorCallsAgain(cb: Callback, sweep: Sweep)
    requires cb.fn != 0
    ensures var ticks := [Tick(CommandEvent(cb, MONITOR, []), sweep),
                          Tick(ReadEvent(Established, Arrived(TWO_LINES)), sweep)];
            var c := Run(Idle, NewContext(0), ticks);
            && c.failure == NoFailure && c.log.accepted == [cb]
            && c.log.calls == [Settled(cb, Some(Status("OK"))), Settled(cb, Some(Status("x")))]
  {
    hide Process, Issue, Extends, Plainly, Shut, Step;
    var t := Tick(CommandEvent(cb, MONITOR, []), sweep);
    var u := Tick(ReadEvent(Established, Arrived(TWO_LINES)), sweep);
    MonitoredTwice(cb, sweep);
    var c := Issue(NewContext(0), cb, MONITOR, []);
    IssueGrows(NewContext(0), cb, MONITOR, []);
    StepsTaken(cb, c, sweep);
    TwoTicks(Idle, NewContext(0), t, u);
  }

  lemma StepsTaken(cb: Callback, c: Context, sweep: Sweep)
    requires Ready(c) && !c.flags.connected && c.err == 0 && c.reader.Live?
    ensures Step(Idle, NewContext(0), CommandEvent(cb, MONITOR, []), sweep) == Issue(NewContext(0), cb, MONITOR, [])
    ensures Step(Idle, c, ReadEvent(Established, Arrived(TWO_LINES)), sweep) ==
            Process(Idle, Take(Connects(c, Established), TWO_LINES), NO_CALLBACK, sweep)
  {
    hide Process, Issue;
  }

  lemma TwoTicks(user: Program, c: Context, t: Tick, u: Tick)
    ensures Run(user, c, [t, u]) == Step(user, Step(user, c, t.event, t.sweep), u.event, u.sweep)
  {
    hide Step;
    assert [t, u][1..] == [u] && [u][1..] == [];
    assert Run(user, Step(user, c, t.event, t.sweep), [u])
        == Run(user, Step(user, Step(user, c, t.event, t.sweep), u.event, u.sweep), []);
  }

  lemma MonitoredTwice(cb: Callback, sweep: Sweep)
    requires cb.fn != 0
    ensures var c := Monitored(cb);
            && Ready(c) && c.err == 0
            && var d := Process(Idle, c, NO_CALLBACK, sweep);
               && d.failure == NoFailure && d.log.accepted == [cb]
               && d.log.calls == [Settled(cb, Some(Status("OK"))), Settled(cb, Some(Status("x")))]
  {
    MonitorIsMonitor();
    BothLines(cb);
    hide Ask, KindOfCommand, Disconnect, Free;
    var c := Monitored(cb);
    var c1 := RunCallback(Idle, Settle(Receive(c, Status("OK"), S.Live("+x" + CRLF)), Some(Status("OK"))),
                          Settled(cb, Some(Status("OK"))));
    assert Process(Idle, c, NO_CALLBACK, sweep) == Process(Idle, c1, cb, sweep);
    var c2 := RunCallback(Idle, Receive(c1, Status("x"), S.Live("")), Settled(cb, Some(Status("x"))));
    assert Process(Idle, c1, cb, sweep) == Process(Idle, c2, cb, sweep);
    assert Process(Idle, c2, cb, sweep) == Repush(c2, cb);
  }
}
