/**
 What single calls and events do, in full: what a command of each kind leaves
 behind, what a user's function can bring about, what is written, and why and
 how a context ends.
 */
module AsyncEffects {
  import opened Bytes
  import opened Resp
  import S = Streams
  import opened CallbackList
  import opened Subscription
  import opened Command
  import opened AsyncProtocol
  import opened AsyncSafety
  import T = AsyncTeardown

  // ----------------------------------------------------------------- commands

  /** Every name in `args` is mapped to `cb`, and nothing else changes. */
  ghost predicate Added(table: map<string, Callback>, args: seq<string>, cb: Callback, table': map<string, Callback>) {
    && (forall k :: k in args ==> k in table' && table'[k] == cb)
    && (forall k :: k !in args ==> (k in table' <==> k in table) && (k in table ==> table'[k] == table[k]))
  }

  lemma RegisteredIsAdded(table: map<string, Callback>, args: seq<string>, cb: Callback)
    ensures Added(table, args, cb, Registered(table, args, cb))
  {
  }

  /** A command is refused by a closing context, or if it unsubscribes without a subscription. */
  lemma RefusedExactly(c: Context, cb: Callback, name: string, args: seq<string>)
    ensures !Accepts(c, name, args) <==>
            c.flags.disconnecting || c.flags.freeing || (Names(name, "unsubscribe") && !c.flags.subscribed)
    ensures !Accepts(c, name, args) ==> Issue(c, cb, name, args) == c
  {
    KindExactly(name, args);
  }

  /** The bytes of an accepted command are put behind those that wait to be sent. */
  lemma CommandIsBuffered(c: Context, cb: Callback, name: string, args: seq<string>)
    requires Accepts(c, name, args)
    ensures Issue(c, cb, name, args).obuf == c.obuf + CommandBytes([name] + args)
  {
    hide KindOfCommand, CommandBytes;
  }

  /**
   An accepted subscribe command raises the flag and maps each of its arguments to the
   callback: in the table for patterns if the name begins with a p, otherwise in that
   for channels.
   */
  lemma SubscribeRegisters(c: Context, cb: Callback, name: string, args: seq<string>)
    requires !c.flags.disconnecting && !c.flags.freeing
    requires Names(name, "subscribe") && args != []
    ensures var d := Issue(c, cb, name, args);
            && d.flags == c.flags.(subscribed := true) && d.replies == c.replies && d.sub.invalid == c.sub.invalid
            && (name[0] in "pP" ==>
                  d.sub.channels == c.sub.channels && Added(c.sub.patterns, args, cb, d.sub.patterns))
            && (name[0] !in "pP" ==>
                  d.sub.patterns == c.sub.patterns && Added(c.sub.channels, args, cb, d.sub.channels))
  {
    assert name != "";
    hide KindOfCommand, CommandBytes, Names, Registered;
    KindExactly(name, args);
    RegisteredIsAdded(c.sub.patterns, args, cb);
    RegisteredIsAdded(c.sub.channels, args, cb);
  }

  /** What the other kinds of accepted commands leave: nothing, or a callback that waits on one of the lists. */
  lemma OthersWait(c: Context, cb: Callback, name: string, args: seq<string>)
    requires Accepts(c, name, args) && !(Names(name, "subscribe") && args != [])
    ensures var d := Issue(c, cb, name, args);
            && d.sub.channels == c.sub.channels && d.sub.patterns == c.sub.patterns
            && (Names(name, "unsubscribe") ==> d.replies == c.replies && d.sub == c.sub && d.flags == c.flags)
            && (Names(name, "monitor") ==>
                  d.replies == c.replies + [cb] && d.sub == c.sub && d.flags == c.flags.(monitoring := true))
            && (!Names(name, "unsubscribe") && !Names(name, "monitor") ==>
                  && d.flags == c.flags
                  && (c.flags.subscribed ==> d.replies == c.replies && d.sub.invalid == c.sub.invalid + [cb])
                  && (!c.flags.subscribed ==> d.replies == c.replies + [cb] && d.sub == c.sub))
  {
    hide KindOfCommand, CommandBytes, Names, Registered;
    KindExactly(name, args);
  }

  // ---------------------------------------------------------------- callbacks

  /** The calls a user's function makes happen in their order, one after the other. */
  lemma {:induction false} ScriptAppends(c: Context, a: seq<Action>, b: seq<Action>)
    ensures Script(c, []) == c
    ensures forall who, name, args :: Script(c, [CommandCall(who, name, args)]) == Issue(c, who, name, args)
    ensures Script(c, a + b) == Script(Script(c, a), b)
    decreases |a|
  {
    hide Issue;
    forall who, name, args
      ensures Script(c, [CommandCall(who, name, args)]) == Issue(c, who, name, args)
    {
      assert [CommandCall(who, name, args)][1..] == [];
    }
    if a == [] {
      assert a + b == b;
    } else {
      assert (a + b)[1..] == a[1..] + b;
      ScriptAppends(Act(c, a[0]), a[1..], b);
    }
  }

  lemma IssueClosesNothing(c: Context, a: Action)
    ensures a.CommandCall? ==>
              var d := Act(c, a);
              d.flags.freeing == c.flags.freeing && d.flags.disconnecting == c.flags.disconnecting
  {
    hide KindOfCommand, CommandBytes, Registered;
  }

  lemma {:induction false} ScriptFlags(c: Context, actions: seq<Action>)
    ensures var d := Script(c, actions);
            && d.flags.freeing == (c.flags.freeing || FreeCall in actions)
            && d.flags.disconnecting == (c.flags.disconnecting || DisconnectCall in actions)
    decreases |actions|
  {
    hide Issue, Extends;
    if actions != [] {
      IssueClosesNothing(c, actions[0]);
      ScriptFlags(Act(c, actions[0]), actions[1..]);
      assert actions == [actions[0]] + actions[1..];
    }
  }

  /**
   A user's function is called with its callback and the reply it is due, and what it
   asks for happens: free and disconnect calls raise their flags, and its commands are
   issued one after the other.
   */
  lemma CallsTakeEffect(user: Program, c: Context, cb: Callback, reply: Option<Reply>)
    requires cb.fn != 0
    ensures var actions := user(|c.log.calls|, Settled(cb, reply));
            var d := RunCallback(user, c, Settled(cb, reply));
            && d.log.calls == c.log.calls + [Settled(cb, reply)] && !d.flags.inCallback
            && d.flags.freeing == (c.flags.freeing || FreeCall in actions)
            && d.flags.disconnecting == (c.flags.disconnecting || DisconnectCall in actions)
    ensures var inside := c.(flags := c.flags.(inCallback := true),
                             log := c.log.(calls := c.log.calls + [Settled(cb, reply)]));
            var d := Script(inside, user(|c.log.calls|, Settled(cb, reply)));
            RunCallback(user, c, Settled(cb, reply)) == d.(flags := d.flags.(inCallback := false))
  {
    hide Extends, Issue;
    var s := Settled(cb, reply);
    var actions, d := user(|c.log.calls|, s), SetInCallback(Called(c, s), true);
    ScriptFlags(d, actions);
    ScriptGrows(d, actions);
  }

  // ------------------------------------------------------------------- events

  /** A write event sends what the socket takes, at most everything, off the front of the output buffer. */
  lemma WritesFromTheFront(user: Program, c: Context, connect: Connect, n: nat, sweep: Sweep)
    requires Ready(c) && c.err == 0 && c.flags.connected
    ensures var d, k := Step(user, c, WriteEvent(connect, Wrote(n)), sweep), if n <= |c.obuf| then n else |c.obuf|;
            && d.log.sent == c.log.sent + c.obuf[..k] && d.obuf == c.obuf[k..]
            && d == c.(obuf := d.obuf, log := c.log.(sent := d.log.sent))
    ensures Step(user, c, WriteEvent(connect, WriteAgain), sweep) == c
  {
  }

  /**
   A read event that completes no reply ends a context that was asked to disconnect, once
   everything is sent and answered; otherwise nothing happens, except that a monitoring
   context puts a callback without a function on the list.
   */
  lemma ReadsNothing(user: Program, c: Context, connect: Connect, sweep: Sweep)
    requires Ready(c) && c.err == 0 && c.flags.connected
    requires c.reader.Live? && ParseItem(c.reader.pending, 0).More?
    ensures var d, due := Step(user, c, ReadEvent(connect, ReadAgain), sweep),
                          c.flags.disconnecting && c.obuf == "" && c.replies == [];
            && (due ==> d.log.frees == 1 && d.err == 0)
            && (!due && !c.flags.monitoring ==> d == c)
            && (!due && c.flags.monitoring ==>
                  d == c.(replies := c.replies + [Callback(0, 0)],
                          log := c.log.(queued := c.log.queued + [Callback(0, 0)])))
  {
    hide Free, ParseItem;
    if c.flags.disconnecting && c.obuf == "" && c.replies == [] {
      T.FreeStaysClosed(user, c, sweep);
      T.FreeKeepsTables(user, c, sweep);
    }
  }

  /** Nothing happens after the end or a failed assertion, and no event comes in the middle of a callback. */
  lemma GoneForGood(user: Program, c: Context, e: Event, sweep: Sweep)
    requires c.log.frees > 0 || c.failure != NoFailure || c.flags.inCallback
    ensures Step(user, c, e, sweep) == c
  {
  }

  /** Why a context ends: the error each kind of failure leaves when it tears the context down. */
  lemma FailuresEndIt(user: Program, c: Context, connect: Connect, bytes: string, sweep: Sweep)
    requires Ready(c) && c.flags.connected && c.err == 0
    ensures var d := Step(user, c, ReadEvent(connect, ReadFailed), sweep);
            d.log.frees == 1 && d.err == 1
    ensures var d := Step(user, c, ReadEvent(connect, EndOfFile), sweep);
            d.log.frees == 1 && d.err == 3
    ensures c.obuf != "" ==>
              var d := Step(user, c, WriteEvent(connect, WriteFailed), sweep);
              d.log.frees == 1 && d.err == 1
    ensures c.reader.Live? && ParseItem(c.reader.pending + bytes, 0).Bad? ==>
              var d := Step(user, c, ReadEvent(connect, Arrived(bytes)), sweep);
              d.log.frees == 1 && d.err == 4
    ensures c.reader.Live? && c.replies == [] && ParseItem(c.reader.pending + bytes, 0).Ok?
            && ParseItem(c.reader.pending + bytes, 0).value.Error? ==>
              var d := Step(user, c, ReadEvent(connect, Arrived(bytes)), sweep);
              d.log.frees == 1 && d.err == 2
  {
    hide Free, ParseItem;
    EndsWith(user, c.(err := ERR_IO), sweep);
    EndsWith(user, c.(err := ERR_EOF), sweep);
    if c.reader.Live? {
      var e := Take(c, bytes);
      var got := Ask(e);
      EndsWith(user, e.(reader := got.state, err := ERR_PROTOCOL), sweep);
      if got.values != [] {
        EndsWith(user, Receive(e, got.values[0], got.state).(err := ERR_OTHER), sweep);
      }
    }
  }

  lemma EndsWith(user: Program, c: Context, sweep: Sweep)
    requires Ready(c) && c.err != 0
    ensures var d := Disconnect(user, c, sweep);
            d.log.frees == 1 && d.err == c.err
  {
    hide CallEverybody, Free;
    var b := c.(flags := c.flags.(disconnecting := true));
    T.FreeStaysClosed(user, b, sweep);
    T.FreeKeepsTables(user, b, sweep);
  }

  /** The first look at a connection: refused, still being made, or there. */
  lemma ConnectingTakesEffect(user: Program, c: Context, sweep: Sweep)
    requires Ready(c) && !c.flags.connected
    ensures var d := Step(user, c, WriteEvent(Refused, WriteAgain), sweep);
            d.log.frees == 1 && d.err == 1
    ensures Step(user, c, WriteEvent(InProgress, WriteAgain), sweep) == c.(err := 1)
    ensures c.err == 0 ==>
              Step(user, c, WriteEvent(Established, WriteAgain), sweep) ==
              c.(flags := c.flags.(connected := true))
    ensures forall read :: Step(user, c, ReadEvent(Refused, read), sweep).log.frees == 1
    ensures forall read :: Step(user, c, ReadEvent(InProgress, read), sweep) == c.(err := 1)
    ensures forall read :: Step(user, c, ReadEvent(Established, read), sweep) ==
                           Step(user, c.(flags := c.flags.(connected := true)), ReadEvent(Established, read), sweep)
  {
    hide Free, Disconnect, HandleRead;
    EndsWith(user, c.(err := ERR_IO), sweep);
  }

  /** Asking to disconnect closes the context, and ends it at once if nobody waits; freeing always ends it. */
  lemma ClosingTakesEffect(user: Program, c: Context, sweep: Sweep)
    requires Ready(c)
    ensures var d := Step(user, c, DisconnectEvent, sweep);
            && (c.replies != [] ==> d == c.(flags := c.flags.(disconnecting := true)))
            && (c.replies == [] ==> d.log.frees == 1 && d.err == c.err)
    ensures var d := Step(user, c, FreeEvent, sweep);
            d.log.frees == 1 && d.err == c.err
  {
    hide Free;
    var b := c.(flags := c.flags.(disconnecting := true));
    T.FreeStaysClosed(user, b, sweep);
    T.FreeKeepsTables(user, b, sweep);
    var f := c.(flags := c.flags.(freeing := true));
    T.FreeStaysClosed(user, f, sweep);
    T.FreeKeepsTables(user, f, sweep);
  }

  /**
   The disconnect callback is told, once and at teardown, that all is well if the context
   was freed or ended without an error, and nothing if it never was connected.
   */
  lemma DisconnectStatus(user: Program, err: int, ticks: seq<Tick>)
    ensures var c := Run(user, NewContext(err), ticks);
            && (c.log.frees == 0 && c.failure == NoFailure ==> c.log.goodbye == None)
            && (c.log.frees > 0 ==>
                  c.log.goodbye == if c.flags.connected then Some(c.flags.freeing || c.err == 0) else None)
  {
    hide Run;
    RunFromNew(user, err, ticks);
  }
}
