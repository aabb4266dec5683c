/**
 What every run of the asynchronous context keeps: callbacks are settled once
 and in order, each with the reply of its own command or, at teardown, without.
 */
module AsyncSafety {
  import opened Bytes
  import opened Resp
  import S = Streams
  import opened CallbackList
  import opened Subscription
  import opened AsyncProtocol

  function Callbacks(settled: seq<Settled>): seq<Callback> {
    if settled == [] then []
    else Callbacks(settled[..|settled| - 1]) + [settled[|settled| - 1].cb]
  }

  /** The settled callbacks that have a function. */
  function WithFunction(settled: seq<Settled>): seq<Settled> {
    if settled == [] then []
    else
      var s := settled[|settled| - 1];
      WithFunction(settled[..|settled| - 1]) + if s.cb.fn == 0 then [] else [s]
  }

  /** The books balance: nothing put on the list is lost, doubled or reordered, no byte either. */
  ghost predicate Balanced(c: Context) {
    && c.log.queued == Callbacks(c.log.settled) + c.replies
    && c.log.issued == c.log.sent + c.obuf
  }

  /** The first callbacks got the replies, in order, and the others got none. */
  ghost predicate Answered(c: Context) {
    forall i :: 0 <= i < |c.log.settled| ==>
      c.log.settled[i].reply == if i < |c.log.received| then Some(c.log.received[i]) else None
  }

  /** As long as no subscribe or monitor command was accepted, replies and callbacks go in step. */
  ghost predicate InStep(c: Context) {
    c.log.plain ==>
      && !c.flags.subscribed && !c.flags.monitoring && c.sub == Subscriptions([], map[], map[])
      && c.log.queued == c.log.accepted && c.log.calls == WithFunction(c.log.settled) && Answered(c)
  }

  /** The replies handed out, and those still in the reader, are those of the bytes that arrived. */
  ghost predicate Parsed(c: Context)
    requires S.Stable(PARSE)
  {
    S.ThenDrain(PARSE, S.Outcome(c.reader, c.log.received)) == S.Drain(PARSE, S.Live(c.log.arrived))
  }

  ghost predicate Sound(c: Context)
    requires S.Stable(PARSE)
  {
    Balanced(c) && InStep(c) && Parsed(c) && !c.flags.inCallback
  }

  /** Between events. */
  ghost predicate Ok(c: Context)
    requires S.Stable(PARSE)
  {
    && Sound(c)
    && (Alive(c) ==> !c.flags.freeing && c.log.goodbye == None && (c.log.plain ==> |c.log.received| == |c.log.settled|))
    && (c.failure == Spontaneous ==> Astray(c))
    && (c.failure != NoFailure ==> c.log.frees == 0 && (c.log.plain ==> c.failure == Spontaneous))
    && (c.failure == NoFailure && c.log.frees > 0 ==> Gone(c))
  }

  /** The last reply came although nobody waited for one, not even a subscriber or a monitor. */
  ghost predicate Astray(c: Context) {
    && c.replies == [] && !c.flags.subscribed && !c.flags.monitoring
    && c.log.received != [] && !c.log.received[|c.log.received| - 1].Error?
    && (c.log.plain ==> |c.log.received| == |c.log.accepted| + 1)
  }

  /** Torn down, once: every callback is settled, and without an error none went unanswered. */
  ghost predicate Gone(c: Context) {
    && c.log.frees == 1 && Closing(c) && c.replies == [] && c.sub.invalid == []
    && |c.log.settled| == |c.log.queued|
    && (c.log.plain && !c.flags.freeing && c.err == 0 ==> |c.log.received| == |c.log.settled|)
    && c.log.goodbye == if c.flags.connected then Some(c.flags.freeing || c.err == 0) else None
  }

  // ------------------------------------------------------------ keeping the books

  lemma {:induction false} CallbacksLength(settled: seq<Settled>)
    ensures |Callbacks(settled)| == |settled|
    ensures forall i :: 0 <= i < |settled| ==> Callbacks(settled)[i] == settled[i].cb
    decreases |settled|
  {
    if settled != [] {
      CallbacksLength(settled[..|settled| - 1]);
    }
  }

  lemma MoreSettled(settled: seq<Settled>, s: Settled)
    ensures Callbacks(settled + [s]) == Callbacks(settled) + [s.cb]
    ensures WithFunction(settled + [s]) == WithFunction(settled) + if s.cb.fn == 0 then [] else [s]
    ensures Callbacks([]) == [] && WithFunction([]) == []
  {
    assert (settled + [s])[..|settled|] == settled;
  }

  lemma GrownIsSound(c: Context, d: Context)
    requires S.Stable(PARSE) && Grown(c, d) && Sound(c)
    ensures Sound(d)
  {
    hide S.Drain, S.ThenDrain, S.Stable, Callbacks, WithFunction;
    Assoc(Callbacks(c.log.settled), c.replies, d.replies[|c.replies|..]);
    Assoc(c.log.sent, c.obuf, d.obuf[|c.obuf|..]);
  }

  /** What serving, delivering and sweeping leave as it was. */
  ghost predicate Later(c: Context, d: Context) {
    && d.log.received == c.log.received && d.log.frees == c.log.frees && d.log.goodbye == c.log.goodbye
    && d.failure == c.failure && d.err == c.err && d.reader == c.reader
    && d.flags.connected == c.flags.connected && (d.log.plain ==> c.log.plain)
    && (c.flags.disconnecting ==> d.flags.disconnecting) && (c.flags.freeing ==> d.flags.freeing)
    && (Closing(c) ==> d.obuf == c.obuf && d.log.accepted == c.log.accepted && d.log.issued == c.log.issued)
  }

  /** Off the beaten track the books still balance: a call of a callback changes no list. */
  lemma CallbackIsSound(user: Program, c: Context, s: Settled)
    requires S.Stable(PARSE) && Sound(c) && (c.log.plain ==> s.cb.fn == 0)
    ensures var d := RunCallback(user, c, s);
            && Sound(d) && Later(c, d) && d.log.settled == c.log.settled
            && (Closing(c) ==> d.replies == c.replies && d.sub == c.sub)
  {
    hide S.Drain, S.ThenDrain, S.Stable, Callbacks, WithFunction, Script, Extends;
    CallbackGrows(user, c, s);
    GrownIsSound(Called(c, s), RunCallback(user, c, s));
  }

  lemma SettleIsSound(c: Context, reply: Option<Reply>)
    requires S.Stable(PARSE) && c.replies != [] && Sound(c)
    requires c.log.plain ==>
               reply == if |c.log.settled| < |c.log.received| then Some(c.log.received[|c.log.settled|]) else None
    ensures Sound(Called(Settle(c, reply), Settled(c.replies[0], reply)))
  {
    hide S.Drain, S.ThenDrain, S.Stable, Callbacks, WithFunction;
    MoreSettled(c.log.settled, Settled(c.replies[0], reply));
    Assoc(Callbacks(c.log.settled), [c.replies[0]], c.replies[1..]);
    assert c.replies == [c.replies[0]] + c.replies[1..];
  }

  /** Serving a callback for the reply just received, or for none when there is none to come. */
  lemma ServeIsSound(user: Program, c: Context, reply: Option<Reply>)
    requires S.Stable(PARSE) && c.replies != [] && Sound(c)
    requires c.log.plain ==>
               reply == if |c.log.settled| < |c.log.received| then Some(c.log.received[|c.log.settled|]) else None
    ensures var d := Serve(user, c, reply);
            && Sound(d) && Later(c, d) && |d.log.settled| == |c.log.settled| + 1
            && (Closing(c) ==> d.replies == c.replies[1..] && d.sub == c.sub)
            && (d.flags.freeing ==> c.flags.freeing || c.replies[0].fn != 0)
  {
    hide S.Drain, S.ThenDrain, S.Stable, Callbacks, WithFunction, Extends;
    SettleIsSound(c, reply);
    ServeGrows(user, c, reply);
    GrownIsSound(Called(Settle(c, reply), Settled(c.replies[0], reply)), Serve(user, c, reply));
  }

  // ------------------------------------------------------------------ tearing down

  /** Teardown settles every waiting callback, in order and without a reply, and accepts no command. */
  lemma {:induction false} DrainSettlesAll(user: Program, c: Context)
    requires S.Stable(PARSE) && Closing(c) && Sound(c)
    requires c.log.plain ==> |c.log.received| <= |c.log.settled| || c.replies == []
    ensures var d := DrainReplies(user, c);
            && Sound(d) && Later(c, d) && d.replies == [] && d.sub == c.sub
            && (c.replies == [] ==> d == c)
    decreases |c.replies|
  {
    hide S.Drain, S.ThenDrain, S.Stable, Callbacks, WithFunction, Extends, Serve;
    if c.replies != [] {
      ServeIsSound(user, c, None);
      DrainSettlesAll(user, Serve(user, c, None));
    }
  }

  lemma {:induction false} DrainInvalidIsSound(user: Program, c: Context)
    requires S.Stable(PARSE) && Closing(c) && Sound(c) && c.replies == []
    ensures var d := DrainInvalid(user, c);
            && Sound(d) && Later(c, d) && d.replies == [] && d.sub == c.sub.(invalid := [])
            && (c.sub.invalid == [] ==> d == c)
    decreases |c.sub.invalid|
  {
    hide S.Drain, S.ThenDrain, S.Stable, Callbacks, WithFunction, Extends, RunCallback;
    if c.sub.invalid != [] {
      var s, d := Settled(c.sub.invalid[0], None), ShiftInvalid(c);
      CallbackIsSound(user, d, s);
      DrainInvalidIsSound(user, RunCallback(user, d, s));
    }
  }

  lemma {:induction false} SweepIsSound(user: Program, c: Context, table: map<string, Callback>, keys: seq<string>)
    requires S.Stable(PARSE) && Closing(c) && Sound(c) && c.replies == []
    requires c.log.plain ==> table == map[]
    ensures var d := SweepTable(user, c, table, keys);
            && Sound(d) && Later(c, d) && d.replies == [] && d.sub == c.sub
            && (table == map[] ==> d == c)
    decreases |keys|
  {
    hide S.Drain, S.ThenDrain, S.Stable, Callbacks, WithFunction, Extends, RunCallback;
    if keys != [] {
      var s := if keys[0] in table then Settled(table[keys[0]], None) else Settled(NO_CALLBACK, None);
      var d := if keys[0] in table then RunCallback(user, c, s) else c;
      if keys[0] in table {
        CallbackIsSound(user, c, s);
      }
      SweepIsSound(user, d, table, keys[1..]);
    }
  }

  lemma CallEverybodyIsSound(user: Program, c: Context, sweep: Sweep)
    requires S.Stable(PARSE) && Closing(c) && Sound(c)
    requires c.log.plain ==> |c.log.received| <= |c.log.settled| || c.replies == []
    ensures var d := CallEverybody(user, c, sweep);
            && Sound(d) && Later(c, d) && d.replies == [] && d.sub == c.sub.(invalid := [])
            && (c.log.plain && c.replies == [] ==> d == c)
  {
    hide S.Drain, S.ThenDrain, S.Stable, Callbacks, WithFunction, Extends, RunCallback;
    hide DrainReplies, DrainInvalid, SweepTable;
    DrainSettlesAll(user, c);
    var d := DrainReplies(user, c);
    DrainInvalidIsSound(user, d);
    var e := DrainInvalid(user, d);
    SweepIsSound(user, e, e.sub.channels, sweep.channels);
    var f := SweepTable(user, e, e.sub.channels, sweep.channels);
    SweepIsSound(user, f, f.sub.patterns, sweep.patterns);
  }

  lemma FreeIsOk(user: Program, c: Context, sweep: Sweep)
    requires S.Stable(PARSE) && Closing(c) && Ready(c) && Sound(c)
    requires c.log.plain ==> |c.log.received| == |c.log.settled| || c.replies == []
    requires c.log.plain && !c.flags.freeing && c.err == 0 ==> c.replies == [] && |c.log.received| == |c.log.settled|
    ensures var d := Free(user, c, sweep);
            Ok(d) && Gone(d) && d.log.accepted == c.log.accepted && d.obuf == c.obuf
  {
    hide S.Drain, S.ThenDrain, S.Stable, WithFunction, Callbacks, CallEverybody;
    CallEverybodyIsSound(user, c, sweep);
    CallbacksLength(CallEverybody(user, c, sweep).log.settled);
  }

  /** Without an error no callback is left when the context is disconnected. */
  lemma DisconnectIsOk(user: Program, c: Context, sweep: Sweep)
    requires S.Stable(PARSE) && Ready(c) && Sound(c) && !c.flags.freeing
    requires c.err == 0 ==> c.flags.disconnecting && c.replies == []
    requires c.log.plain ==> |c.log.received| == |c.log.settled| || (c.replies == [] && c.err != 0)
    ensures Ok(Disconnect(user, c, sweep)) && Gone(Disconnect(user, c, sweep))
    ensures Disconnect(user, c, sweep).log.accepted == c.log.accepted
  {
    hide S.Drain, S.ThenDrain, S.Stable, Callbacks, WithFunction, Free;
    FreeIsOk(user, if c.err == 0 then c else c.(flags := c.flags.(disconnecting := true)), sweep);
  }

  // ---------------------------------------------------------------------- replies

  /** Whatever the reader answers keeps to the bytes that arrived. */
  lemma AskIsParsed(c: Context)
    requires S.Stable(PARSE) && Parsed(c)
    ensures var got := Ask(c);
            && Parsed(c.(reader := got.state, log := c.log.(received := c.log.received + got.values)))
            && |got.values| <= 1
  {
    var got, left := Ask(c), S.Drain(PARSE, Ask(c).state);
    assert S.Drain(PARSE, c.reader) == S.Outcome(left.state, got.values + left.values);
    Assoc(c.log.received, got.values, left.values);
  }

  /** Receiving one more reply. */
  lemma ReceiveIsSound(c: Context)
    requires S.Stable(PARSE) && Sound(c) && Ask(c).values != []
    requires c.log.plain ==> |c.log.received| == |c.log.settled|
    ensures Sound(Receive(c, Ask(c).values[0], Ask(c).state))
  {
    hide S.Drain, S.ThenDrain, S.Stable, S.Step, Callbacks, WithFunction;
    AskIsParsed(c);
    assert Ask(c).values == [Ask(c).values[0]];
  }

  lemma AskWithoutReply(c: Context)
    requires S.Stable(PARSE) && Sound(c) && Ask(c).values == []
    ensures Sound(c.(reader := Ask(c).state))
  {
    hide S.Drain, S.ThenDrain, S.Stable, S.Step, Callbacks, WithFunction;
    AskIsParsed(c);
    assert c.log.received + [] == c.log.received;
  }

  /** In step, the reply just received is the next to be given to a callback. */
  ghost predicate Due(c: Context, reply: Reply) {
    c.log.plain ==> |c.log.received| == |c.log.settled| + 1 && c.log.received[|c.log.settled|] == reply
  }

  /** A reply goes to the first waiting callback, or else to one that is subscribed or monitoring. */
  lemma DeliveryIsSound(user: Program, c: Context, reply: Reply, last: Callback)
    requires S.Stable(PARSE) && Sound(c) && Ready(c) && Due(c, reply) && (c.log.plain ==> c.replies != [])
    ensures match Addressee(c, reply, last)
            case Malformed(_) => !c.log.plain
            case Found(e, cb) =>
              var f := RunCallback(user, e, Settled(cb, Some(reply)));
              && Sound(f) && Later(c, f) && (f.log.plain ==> |f.log.received| == |f.log.settled|)
              && (f.flags.freeing ==> c.flags.freeing || cb.fn != 0)
  {
    hide SubscribeCallback, RunCallback, Sound, Later, Due;
    if c.replies != [] {
      DeliverSettled(user, c, reply);
    } else {
      DeliverElsewhere(user, c, reply, last);
    }
  }

  lemma DeliverElsewhere(user: Program, c: Context, reply: Reply, last: Callback)
    requires S.Stable(PARSE) && Sound(c) && Ready(c) && c.replies == [] && !c.log.plain
    ensures match Addressee(c, reply, last)
            case Malformed(_) => true
            case Found(e, cb) =>
              var f := RunCallback(user, e, Settled(cb, Some(reply)));
              Sound(f) && Later(c, f) && !f.log.plain && (f.flags.freeing ==> c.flags.freeing || cb.fn != 0)
  {
    hide S.Drain, S.ThenDrain, S.Stable, Callbacks, WithFunction, RunCallback, WellFormed, Ends, Answered;
    match Addressee(c, reply, last)
    case Malformed(_) =>
    case Found(e, cb) =>
      CallbackIsSound(user, e, Settled(cb, Some(reply)));
      if cb.fn == 0 {
        NoFunctionNoCall(user, e, Settled(cb, Some(reply)));
      }
  }

  lemma NoFunctionNoCall(user: Program, c: Context, s: Settled)
    requires s.cb.fn == 0
    ensures RunCallback(user, c, s) == c
  {
  }

  lemma DeliverSettled(user: Program, c: Context, reply: Reply)
    requires S.Stable(PARSE) && Sound(c) && c.replies != [] && Due(c, reply)
    ensures var f := RunCallback(user, Settle(c, Some(reply)), Settled(c.replies[0], Some(reply)));
            && Sound(f) && Later(c, f) && (f.log.plain ==> |f.log.received| == |f.log.settled|)
            && (f.flags.freeing ==> c.flags.freeing || c.replies[0].fn != 0)
  {
    hide S.Drain, S.ThenDrain, S.Stable, Callbacks, WithFunction, Extends, RunCallback;
    ServeIsSound(user, c, Some(reply));
  }

  lemma RepushIsOk(c: Context, last: Callback)
    requires S.Stable(PARSE) && Ok(c) && Ready(c)
    ensures Ok(Repush(c, last))
  {
    hide S.Drain, S.ThenDrain, S.Stable, Callbacks, WithFunction;
    Assoc(Callbacks(c.log.settled), c.replies, [last]);
  }

  lemma {:induction false} ProcessIsOk(user: Program, c: Context, last: Callback, sweep: Sweep)
    requires S.Stable(PARSE) && Ok(c) && Ready(c)
    ensures Ok(Process(user, c, last, sweep))
    decreases Unread(c.reader)
  {
    hide S.Drain, S.ThenDrain, S.Stable, S.Step, Callbacks, WithFunction, Free, Disconnect, RunCallback, Extends;
    var got := Ask(c);
    if got.state.Dead? || got.values == [] {
      QuietProcessIsOk(user, c, last, sweep);
    } else {
      ReceiveIsSound(c);
      AskIsParsed(c);
      var reply := got.values[0];
      var d := Receive(c, reply, got.state);
      if d.replies == [] && (reply.Error? || Unexpected(d, reply)) {
        SurplusIsOk(user, c, reply, got.state, sweep);
      } else {
        DeliveryIsSound(user, d, reply, last);
        match Addressee(d, reply, last)
        case Malformed(_) =>
        case Found(e, cb) =>
          DeliveryKeeps(user, d, reply, last);
          AskShrinks(c);
          var f := RunCallback(user, e, Settled(cb, Some(reply)));
          if cb.fn != 0 && f.flags.freeing {
            FreeIsOk(user, f, sweep);
          } else {
            ProcessIsOk(user, f, cb, sweep);
          }
      }
    }
  }

  lemma AskShrinks(c: Context)
    ensures Ask(c).values != [] ==> Unread(Ask(c).state) < Unread(c.reader) && !Ask(c).state.Dead?
  {
  }

  /** The reader has no reply: an error of its own, an awaited disconnect, or nothing to do. */
  lemma QuietProcessIsOk(user: Program, c: Context, last: Callback, sweep: Sweep)
    requires S.Stable(PARSE) && Ok(c) && Ready(c)
    requires Ask(c).state.Dead? || Ask(c).values == []
    ensures Ok(Process(user, c, last, sweep))
  {
    hide S.Drain, S.ThenDrain, S.Stable, Callbacks, WithFunction, Free, Disconnect;
    AskShrinks(c);
    AskWithoutReply(c);
    if Ask(c).state.Dead? {
      DisconnectIsOk(user, c.(reader := Ask(c).state, err := ERR_PROTOCOL), sweep);
    } else if c.flags.disconnecting && c.obuf == "" && c.replies == [] {
      DisconnectIsOk(user, c, sweep);
    } else {
      RepushIsOk(c, last);
    }
  }

  /** A reply nobody waits for closes the context if it is an error, and is a failed assertion otherwise. */
  lemma SurplusIsOk(user: Program, c: Context, reply: Reply, reader: S.State, sweep: Sweep)
    requires S.Stable(PARSE) && Ok(c) && Ready(c) && Sound(Receive(c, reply, reader)) && c.replies == []
    ensures reply.Error? ==> Ok(Disconnect(user, Receive(c, reply, reader).(err := ERR_OTHER), sweep))
    ensures Unexpected(c, reply) ==> Ok(Receive(c, reply, reader).(failure := Spontaneous))
  {
    hide S.Drain, S.ThenDrain, S.Stable, Callbacks, WithFunction, Disconnect;
    CallbacksLength(c.log.settled);
    if reply.Error? {
      DisconnectIsOk(user, Receive(c, reply, reader).(err := ERR_OTHER), sweep);
    }
  }

  // ------------------------------------------------------------------------- runs

  lemma IssueIsOk(c: Context, cb: Callback, name: string, args: seq<string>)
    requires S.Stable(PARSE) && Ok(c) && Ready(c)
    ensures Ok(Issue(c, cb, name, args))
  {
    hide S.Drain, S.ThenDrain, S.Stable, Callbacks, WithFunction, Extends, Answered, Issue;
    IssueGrows(c, cb, name, args);
    GrownIsSound(c, Issue(c, cb, name, args));
    IssueRaisesNothing(c, cb, name, args);
  }

  lemma IssueRaisesNothing(c: Context, cb: Callback, name: string, args: seq<string>)
    ensures Issue(c, cb, name, args).flags.freeing == c.flags.freeing
  {
    hide KindOfCommand;
  }

  lemma TakeIsParsed(c: Context, bytes: string)
    requires S.Stable(PARSE) && Parsed(c)
    ensures Parsed(Take(c, bytes))
  {
    var before := S.Drain(PARSE, c.reader);
    S.DrainInTwo(PARSE, c.reader, bytes);
    S.DrainInTwo(PARSE, S.Live(c.log.arrived), bytes);
    Assoc(c.log.received, before.values, S.Drain(PARSE, S.Append(before.state, bytes)).values);
  }

  lemma ReadIsOk(user: Program, c: Context, read: Read, sweep: Sweep)
    requires S.Stable(PARSE) && Ok(c) && Ready(c)
    ensures Ok(HandleRead(user, c, read, sweep))
  {
    hide S.Drain, S.ThenDrain, S.Stable, Callbacks, WithFunction, Process, Disconnect;
    if c.err != 0 {
      DisconnectIsOk(user, c, sweep);
    } else {
      match read
      case ReadAgain => ProcessIsOk(user, c, NO_CALLBACK, sweep);
      case ReadFailed => DisconnectIsOk(user, c.(err := ERR_IO), sweep);
      case EndOfFile => DisconnectIsOk(user, c.(err := ERR_EOF), sweep);
      case Arrived(bytes) =>
        if c.reader.Dead? {
          DisconnectIsOk(user, c.(err := ERR_PROTOCOL), sweep);
        } else {
          TakeIsParsed(c, bytes);
          ProcessIsOk(user, Take(c, bytes), NO_CALLBACK, sweep);
        }
    }
  }

  lemma WriteIsOk(user: Program, c: Context, write: Write, sweep: Sweep)
    requires S.Stable(PARSE) && Ok(c) && Ready(c)
    ensures Ok(HandleWrite(user, c, write, sweep))
  {
    hide S.Drain, S.ThenDrain, S.Stable, Callbacks, WithFunction, Disconnect;
    if c.err != 0 {
      DisconnectIsOk(user, c, sweep);
    } else if c.obuf != "" {
      match write
      case WriteAgain =>
      case WriteFailed => DisconnectIsOk(user, c.(err := ERR_IO), sweep);
      case Wrote(n) =>
        var k := if n <= |c.obuf| then n else |c.obuf|;
        assert c.obuf == c.obuf[..k] + c.obuf[k..];
        Assoc(c.log.sent, c.obuf[..k], c.obuf[k..]);
    }
  }

  lemma StepIsOk(user: Program, c: Context, e: Event, sweep: Sweep)
    requires S.Stable(PARSE) && Ok(c)
    ensures Ok(Step(user, c, e, sweep))
  {
    hide S.Drain, S.ThenDrain, S.Stable, Callbacks, WithFunction;
    hide Disconnect, HandleRead, HandleWrite, Issue, Free;
    if Ready(c) {
      match e
      case CommandEvent(cb, name, args) => IssueIsOk(c, cb, name, args);
      case DisconnectEvent =>
        if c.replies == [] {
          DisconnectIsOk(user, c.(flags := c.flags.(disconnecting := true)), sweep);
        }
      case FreeEvent => FreeIsOk(user, c.(flags := c.flags.(freeing := true)), sweep);
      case ReadEvent(connect, read) =>
        if Refuses(c, connect) {
          DisconnectIsOk(user, c.(err := ERR_IO), sweep);
        } else if Connects(c, connect).flags.connected {
          ReadIsOk(user, Connects(c, connect), read, sweep);
        }
      case WriteEvent(connect, write) =>
        if Refuses(c, connect) {
          DisconnectIsOk(user, c.(err := ERR_IO), sweep);
        } else if Connects(c, connect).flags.connected {
          WriteIsOk(user, Connects(c, connect), write, sweep);
        }
    }
  }

  lemma {:induction false} RunIsOk(user: Program, c: Context, ticks: seq<Tick>)
    requires S.Stable(PARSE) && Ok(c)
    ensures Ok(Run(user, c, ticks))
    decreases |ticks|
  {
    hide Ok;
    if ticks != [] {
      StepIsOk(user, c, ticks[0].event, ticks[0].sweep);
      RunIsOk(user, Step(user, c, ticks[0].event, ticks[0].sweep), ticks[1..]);
    }
  }

  lemma RunFromNew(user: Program, err: int, ticks: seq<Tick>)
    ensures S.Stable(PARSE) && Ok(Run(user, NewContext(err), ticks))
  {
    RepliesAreStable();
    RunIsOk(user, NewContext(err), ticks);
  }

  // ----------------------------------------------------------------- main results

  /** The replies in the bytes that arrived, whatever pieces they arrived in. */
  ghost function Stream(c: Context): seq<Reply>
    requires S.Stable(PARSE)
  {
    S.Drain(PARSE, S.Live(c.log.arrived)).values
  }

  /** What a run that starts on a new context can be relied on. */
  ghost predicate SettledInOrder(c: Context)
    requires S.Stable(PARSE)
  {
    && |c.log.settled| <= |c.log.accepted|
    && (forall k :: 0 <= k < |c.log.settled| ==>
          c.log.settled[k] == Settled(c.log.accepted[k],
                                      if k < |c.log.received| then Some(c.log.received[k]) else None))
    && c.log.calls == WithFunction(c.log.settled)
    && (Alive(c) ==> |c.log.received| == |c.log.settled|)
    && (c.log.frees > 0 ==> |c.log.settled| == |c.log.accepted|)
  }

  /**
   In every run without subscribe and monitor commands the k-th accepted command's
   callback gets the k-th reply of the bytes that arrived or, at teardown, none,
   and only once. No run at all tears a context down twice.
   */
  lemma CallbacksSettledInOrder(user: Program, err: int, ticks: seq<Tick>)
    ensures S.Stable(PARSE)
    ensures var c := Run(user, NewContext(err), ticks);
            c.log.frees <= 1 && c.log.received <= Stream(c) && (c.log.plain ==> SettledInOrder(c))
  {
    hide Run, S.Drain, S.Stable, WithFunction;
    RunFromNew(user, err, ticks);
    var c := Run(user, NewContext(err), ticks);
    CallbacksLength(c.log.settled);
    assert Stream(c) == c.log.received + S.Drain(PARSE, c.reader).values;
  }

  /** Every byte of every accepted command is written in order, or waits in the output buffer. */
  lemma BytesAreSentInOrder(user: Program, err: int, ticks: seq<Tick>)
    ensures var c := Run(user, NewContext(err), ticks);
            c.log.sent + c.obuf == c.log.issued
  {
    RunFromNew(user, err, ticks);
  }

  /** A context that was torn down without an error, and was not freed, has answered every command. */
  lemma CleanDisconnectDropsNothing(user: Program, err: int, ticks: seq<Tick>)
    ensures S.Stable(PARSE)
    ensures var c := Run(user, NewContext(err), ticks);
            c.log.plain && c.log.frees > 0 && !c.flags.freeing && c.err == 0 ==>
              |c.log.accepted| <= |Stream(c)| && |c.log.settled| == |c.log.accepted| &&
              forall k :: 0 <= k < |c.log.accepted| ==>
                c.log.settled[k] == Settled(c.log.accepted[k], Some(Stream(c)[k]))
  {
    hide Run, S.Drain, S.Stable, WithFunction, Callbacks;
    RunFromNew(user, err, ticks);
    CallbacksSettledInOrder(user, err, ticks);
  }

  /** No reply that has arrived in full waits in the reader. */
  predicate UpToDate(c: Context) {
    Alive(c) ==> Ask(c) == S.Outcome(c.reader, [])
  }

  lemma {:induction false} ProcessIsUpToDate(user: Program, c: Context, last: Callback, sweep: Sweep)
    requires Ready(c)
    ensures UpToDate(Process(user, c, last, sweep))
    decreases Unread(c.reader)
  {
    hide CallEverybody, RunCallback, Addressee;
    if Ask(c).values != [] && !Ask(c).state.Dead? {
      AskShrinks(c);
      var reply := Ask(c).values[0];
      var d := Receive(c, reply, Ask(c).state);
      DeliveryKeeps(user, d, reply, last);
      match Addressee(d, reply, last)
      case Malformed(_) =>
      case Found(e, cb) =>
        var f := RunCallback(user, e, Settled(cb, Some(reply)));
        if !(cb.fn != 0 && f.flags.freeing) {
          ProcessIsUpToDate(user, f, cb, sweep);
        }
    }
  }

  lemma StepIsUpToDate(user: Program, c: Context, e: Event, sweep: Sweep)
    requires UpToDate(c)
    ensures UpToDate(Step(user, c, e, sweep))
  {
    hide CallEverybody, Process, KindOfCommand;
    if Ready(c) && e.ReadEvent? && !Refuses(c, e.connect) {
      var d := Connects(c, e.connect);
      if d.err == 0 && e.read.ReadAgain? {
        ProcessIsUpToDate(user, d, NO_CALLBACK, sweep);
      } else if d.err == 0 && e.read.Arrived? {
        ProcessIsUpToDate(user, Take(d, e.read.bytes), NO_CALLBACK, sweep);
      }
    }
  }

  lemma {:induction false} RunIsUpToDate(user: Program, c: Context, ticks: seq<Tick>)
    requires UpToDate(c)
    ensures UpToDate(Run(user, c, ticks))
    decreases |ticks|
  {
    hide UpToDate;
    if ticks != [] {
      StepIsUpToDate(user, c, ticks[0].event, ticks[0].sweep);
      RunIsUpToDate(user, Step(user, c, ticks[0].event, ticks[0].sweep), ticks[1..]);
    }
  }

  /** As long as a context lives, every reply that has arrived has been dealt with. */
  lemma NoReplyIsHeldBack(user: Program, err: int, ticks: seq<Tick>)
    ensures S.Stable(PARSE)
    ensures var c := Run(user, NewContext(err), ticks);
            Alive(c) ==> c.log.received == Stream(c) && (c.log.plain ==> |c.log.settled| == |Stream(c)|)
  {
    hide Run;
    RunFromNew(user, err, ticks);
    RunIsUpToDate(user, NewContext(err), ticks);
    var c := Run(user, NewContext(err), ticks);
    assert c.log.received + [] == c.log.received;
  }

  /**
   The assertion about replies nobody waits for does not always hold. It fails only on
   a context that is neither subscribed nor monitoring; without such commands, on a
   context not torn down, it has failed exactly if more replies have arrived than
   commands were accepted.
   */
  lemma FailsExactlyOnSurplusReply(user: Program, err: int, ticks: seq<Tick>)
    ensures S.Stable(PARSE)
    ensures var c := Run(user, NewContext(err), ticks);
            && (c.failure == Spontaneous ==> c.log.frees == 0 && Astray(c))
            && (c.log.plain && c.log.frees == 0 ==>
                  (c.failure == Spontaneous <==> |c.log.accepted| < |Stream(c)|))
            && (c.log.plain ==> c.failure != BadMessage)
  {
    hide Run, S.Drain, S.Stable, WithFunction;
    CallbacksSettledInOrder(user, err, ticks);
    RunFromNew(user, err, ticks);
    NoReplyIsHeldBack(user, err, ticks);
  }
}
