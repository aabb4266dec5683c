/**
 Subscribers: who a message on a subscribed connection goes to, and that over
 whole runs every message reaches the callback of its channel or pattern.
 */
module PubSub {
  import opened Bytes
  import opened Resp
  import S = Streams
  import opened CallbackList
  import opened Subscription
  import opened Command
  import opened AsyncProtocol
  import opened AsyncSafety
  import opened AsyncEffects
  import ReaderRuns

  // ------------------------------------------------------------- one message

  /** The message the server sends: what it is about, the channel or pattern, and the rest. */
  function Message(n: int, kind: string, name: string, more: seq<Reply>): Reply {
    Array(n, [Bulk(kind), Bulk(name)] + more)
  }

  /** A waiting callback takes a reply first, subscribed or not. */
  lemma WaitingComeFirst(c: Context, reply: Reply, last: Callback)
    requires c.replies != []
    ensures Addressee(c, reply, last) ==
            Found(c.(replies := c.replies[1..],
                     log := c.log.(settled := c.log.settled + [Settled(c.replies[0], Some(reply))])), c.replies[0])
  {
  }

  /** On a monitoring connection a reply nobody waits for goes to the last callback used. */
  lemma MonitorsShareTheLast(c: Context, reply: Reply, last: Callback)
    requires c.replies == [] && !c.flags.subscribed
    ensures Addressee(c, reply, last) == Found(c, last)
  {
  }

  /** Messages for a channel go to the channel's callback, those for a pattern to the pattern's. */
  lemma MessageFindsItsCallback(c: Context, n: int, name: string, more: seq<Reply>, last: Callback)
    requires c.replies == [] && c.flags.subscribed
    ensures forall kind :: kind in {"message", "subscribe"} ==>
              Addressee(c, Message(n, kind, name, more), last) ==
              Found(c, if name in c.sub.channels then c.sub.channels[name] else last)
    ensures forall kind :: kind in {"pmessage", "psubscribe"} ==>
              Addressee(c, Message(n, kind, name, more), last) ==
              Found(c, if name in c.sub.patterns then c.sub.patterns[name] else last)
  {
    hide IsPattern, EqualsNoCase, WithoutP, CString;
    NotUnsubscribe();
  }

  lemma NotUnsubscribe()
    ensures forall kind :: kind in {"message", "subscribe", "pmessage", "psubscribe"} ==>
              && IsPattern(kind) == (kind in {"pmessage", "psubscribe"})
              && !EqualsNoCase(WithoutP(CString(kind)), UNSUBSCRIBE)
  {
    hide IsPattern, EqualsNoCase, WithoutP, CString;
    OtherLength("message");
    OtherLength("subscribe");
    OtherLength("pmessage");
    OtherLength("psubscribe");
  }

  lemma OtherLength(kind: string)
    requires '\0' !in kind && kind != "" && |kind| < 11
    ensures IsPattern(kind) == (Lower(kind[0]) == 'p') && !EqualsNoCase(WithoutP(CString(kind)), UNSUBSCRIBE)
  {
    CStringStopsAtNul(kind);
  }

  /** A word in any case, behind a p or not, is what the code takes the word for. */
  lemma SpelledUnsubscribe(kind: string)
    ensures Spells(kind, "unsubscribe") ==>
              !IsPattern(kind) && EqualsNoCase(WithoutP(CString(kind)), UNSUBSCRIBE)
    ensures kind != "" && kind[0] in "pP" && Spells(kind[1..], "unsubscribe") ==>
              IsPattern(kind) && EqualsNoCase(WithoutP(CString(kind)), UNSUBSCRIBE)
  {
    hide Spells, EqualsNoCase, CString;
    if Spells(kind, "unsubscribe") {
      NoNuls(kind, "unsubscribe");
    }
    if kind != "" && kind[0] in "pP" && Spells(kind[1..], "unsubscribe") {
      NoNuls(kind[1..], "unsubscribe");
      assert kind == [kind[0]] + kind[1..] && '\0' !in [kind[0]];
    }
    CStringStopsAtNul(kind);
  }

  lemma NoNuls(s: string, word: string)
    requires IsWord(word) && word != "" && word[0] == 'u' && Spells(s, word)
    ensures '\0' !in s && s != "" && Lower(s[0]) == 'u' && EqualsNoCase(s, word)
  {
    SpellsNoCase(s, word);
    assert s[0] == word[0] || s[0] as int == word[0] as int - 32;
    forall i | 0 <= i < |s| ensures s[i] != '\0' {
      assert word[i] as int >= 97;
    }
  }

  /**
   An unsubscribe message, in letters of either case, takes its channel out of the table
   for channels, or its pattern out of the one for patterns, and nothing else; the
   context stays subscribed exactly if the count in it is not zero.
   */
  lemma UnsubscribeMessageRemoves(c: Context, n: int, kind: string, name: string, count: int, more: seq<Reply>,
                                  last: Callback)
    requires c.replies == [] && c.flags.subscribed
    ensures var message := Message(n, kind, name, [Integer(count)] + more);
            && (Spells(kind, "unsubscribe") ==>
                  Addressee(c, message, last) ==
                  if name in c.sub.channels then
                    Found(c.(sub := c.sub.(channels := c.sub.channels - {name}),
                             flags := c.flags.(subscribed := count != 0)), c.sub.channels[name])
                  else Found(c, last))
            && (kind != "" && kind[0] in "pP" && Spells(kind[1..], "unsubscribe") ==>
                  Addressee(c, message, last) ==
                  if name in c.sub.patterns then
                    Found(c.(sub := c.sub.(patterns := c.sub.patterns - {name}),
                             flags := c.flags.(subscribed := count != 0)), c.sub.patterns[name])
                  else Found(c, last))
  {
    hide IsPattern, WithoutP, EqualsNoCase, CString, Spells;
    SpelledUnsubscribe(kind);
  }

  /** A reply that is no array is for a command sent while subscribed; an array of another form fails an assertion. */
  lemma OtherRepliesFindTheirs(c: Context, reply: Reply, last: Callback)
    requires c.replies == [] && c.flags.subscribed
    ensures !reply.Array? ==>
              Addressee(c, reply, last) ==
              if c.sub.invalid == [] then Found(c, last)
              else Found(c.(sub := c.sub.(invalid := c.sub.invalid[1..])), c.sub.invalid[0])
    ensures reply.Array? && (|reply.items| < 2 || !reply.items[0].Bulk? || !reply.items[1].Bulk?) ==>
              Addressee(c, reply, last) == Malformed(c)
  {
  }

  // ------------------------------------------------------------------- whole runs

  /** Whom a message is for, as far as it says so and somebody has registered. */
  predicate IsFor(sub: Subscriptions, message: Reply, cb: Callback) {
    && message.Array? && |message.items| >= 2 && message.items[0].Bulk? && message.items[1].Bulk?
    && var kind, name := message.items[0].text, message.items[1].text;
       || (kind in {"message", "subscribe"} && name in sub.channels && sub.channels[name] == cb)
       || (kind in {"pmessage", "psubscribe"} && name in sub.patterns && sub.patterns[name] == cb)
  }

  /** Each message with the callback it is for. */
  ghost predicate Due(sub: Subscriptions, messages: seq<Reply>, calls: seq<Settled>) {
    && |calls| == |messages|
    && forall i :: 0 <= i < |calls| ==>
         calls[i].cb.fn != 0 && IsFor(sub, messages[i], calls[i].cb) && calls[i].reply == Some(messages[i])
  }

  /** A subscriber whose own commands are ordinary ones; it does not close the context. */
  ghost predicate Steady(user: Program) {
    forall k, s :: forall i :: 0 <= i < |user(k, s)| ==> OrdinaryCall(user(k, s)[i])
  }

  predicate OrdinaryCall(a: Action) {
    a.CommandCall? && KindOfCommand(a.name, a.args) == Regular
  }

  /** Connected, subscribed, and with nothing else to wait for. */
  predicate Listening(c: Context) {
    && Ready(c) && c.err == 0 && c.flags.connected && c.flags.subscribed && !c.flags.monitoring
    && !c.flags.disconnecting && !c.flags.freeing && c.replies == []
  }

  /** What may change while a subscriber listens. */
  predicate ListensOn(c: Context, d: Context) {
    Listening(d) && d.sub.channels == c.sub.channels && d.sub.patterns == c.sub.patterns
  }

  lemma OrdinaryCallsListenOn(c: Context, a: Action)
    requires c.flags.inCallback && Listening(c.(flags := c.flags.(inCallback := false))) && OrdinaryCall(a)
    ensures var d := Act(c, a);
            && d.flags == c.flags && d.replies == [] && d.reader == c.reader && d.err == c.err && Alive(d)
            && d.sub.channels == c.sub.channels && d.sub.patterns == c.sub.patterns
            && d.log.calls == c.log.calls && d.log.received == c.log.received
  {
    hide KindOfCommand;
  }

  lemma {:induction false} ScriptListensOn(c: Context, actions: seq<Action>)
    requires c.flags.inCallback && Listening(c.(flags := c.flags.(inCallback := false)))
    requires forall i :: 0 <= i < |actions| ==> OrdinaryCall(actions[i])
    ensures var d := Script(c, actions);
            && d.flags == c.flags && d.replies == [] && d.reader == c.reader && d.err == c.err && Alive(d)
            && d.sub.channels == c.sub.channels && d.sub.patterns == c.sub.patterns
            && d.log.calls == c.log.calls && d.log.received == c.log.received
    decreases |actions|
  {
    hide Act;
    if actions != [] {
      OrdinaryCallsListenOn(c, actions[0]);
      ScriptListensOn(Act(c, actions[0]), actions[1..]);
    }
  }

  /** One message: exactly one call, of the callback it is for, with that message. */
  lemma OneMessage(user: Program, c: Context, message: Reply, cb: Callback, last: Callback)
    requires Steady(user) && Listening(c) && IsFor(c.sub, message, cb) && cb.fn != 0
    ensures Addressee(c, message, last) == Found(c, cb)
    ensures var d := RunCallback(user, c, Settled(cb, Some(message)));
            && ListensOn(c, d) && d.reader == c.reader && d.log.received == c.log.received
            && d.log.calls == c.log.calls + [Settled(cb, Some(message))]
  {
    var kind, name, more := message.items[0].text, message.items[1].text, message.items[2..];
    assert message == Message(message.count, kind, name, more);
    MessageFindsItsCallback(c, message.count, name, more, last);
    hide Addressee;
    var s := Settled(cb, Some(message));
    ScriptListensOn(SetInCallback(Called(c, s), true), user(|c.log.calls|, s));
  }

  /** What the reader still has is drained one reply at a time. */
  lemma DrainOne(c: Context)
    requires S.Stable(PARSE) && c.reader.Live? && S.Drain(PARSE, c.reader).state.Live?
    ensures var all, got := S.Drain(PARSE, c.reader), Ask(c);
            && got.state.Live?
            && (got.values == [] ==> all == S.Outcome(c.reader, []) && got.state == c.reader)
            && (got.values != [] ==>
                  var left := S.Drain(PARSE, got.state);
                  all.values == [got.values[0]] + left.values && all.state == left.state)
  {
  }

  lemma {:induction false} ProcessDelivers(user: Program, c: Context, last: Callback, sweep: Sweep,
                                           calls: seq<Settled>)
    requires S.Stable(PARSE) && Steady(user) && Listening(c) && c.reader.Live?
    requires S.Drain(PARSE, c.reader).state.Live? && Due(c.sub, S.Drain(PARSE, c.reader).values, calls)
    ensures var d, all := Process(user, c, last, sweep), S.Drain(PARSE, c.reader);
            && ListensOn(c, d) && d.reader == all.state
            && d.log.received == c.log.received + all.values && d.log.calls == c.log.calls + calls
    decreases Unread(c.reader)
  {
    hide Free, Disconnect, RunCallback, Addressee, S.Drain, S.Stable, Steady, IsFor;
    var got, all := Ask(c), S.Drain(PARSE, c.reader);
    DrainOne(c);
    if got.values == [] {
      assert c.log.received + [] == c.log.received && c.log.calls + [] == c.log.calls;
      assert calls == [];
    } else {
      AskShrinks(c);
      var reply, cb := got.values[0], calls[0].cb;
      var d := Receive(c, reply, got.state);
      assert all.values[0] == reply && calls[0] == Settled(cb, Some(reply)) && IsFor(c.sub, reply, cb);
      IsForArrays(c.sub, reply, cb);
      OneMessage(user, d, reply, cb, last);
      DeliveryKeeps(user, d, reply, last);
      var f := RunCallback(user, d, calls[0]);
      LaterCalls(c.sub, all.values, calls);
      assert all.values[1..] == S.Drain(PARSE, got.state).values;
      SameTables(c.sub, f.sub, all.values[1..], calls[1..]);
      ProcessDelivers(user, f, cb, sweep, calls[1..]);
      Assoc(c.log.received, [reply], all.values[1..]);
      Assoc(c.log.calls, [calls[0]], calls[1..]);
      assert calls == [calls[0]] + calls[1..];
    }
  }

  lemma IsForArrays(sub: Subscriptions, message: Reply, cb: Callback)
    requires IsFor(sub, message, cb)
    ensures message.Array?
  {
  }

  lemma LaterCalls(sub: Subscriptions, messages: seq<Reply>, calls: seq<Settled>)
    requires Due(sub, messages, calls) && messages != []
    ensures Due(sub, messages[1..], calls[1..])
  {
    hide IsFor;
  }

  lemma SameTables(sub: Subscriptions, sub': Subscriptions, messages: seq<Reply>, calls: seq<Settled>)
    requires Due(sub, messages, calls) && sub'.channels == sub.channels && sub'.patterns == sub.patterns
    ensures Due(sub', messages, calls)
  {
  }

  /** An event that neither fails nor asks for an end; commands are ordinary ones. */
  predicate Calm(e: Event) {
    match e
    case CommandEvent(_, name, args) => KindOfCommand(name, args) == Regular
    case ReadEvent(_, read) => read.ReadAgain? || read.Arrived?
    case WriteEvent(_, write) => write.WriteAgain? || write.Wrote?
    case _ => false
  }

  function ArrivingNow(e: Event): string {
    if e.ReadEvent? && e.read.Arrived? then e.read.bytes else ""
  }

  /** The bytes that arrive during some events. */
  function Arriving(ticks: seq<Tick>): string {
    if ticks == [] then "" else ArrivingNow(ticks[0].event) + Arriving(ticks[1..])
  }

  lemma NothingToDrain(c: Context)
    requires S.Stable(PARSE) && Ready(c) && UpToDate(c) && c.reader.Live?
    ensures S.Drain(PARSE, c.reader) == S.Outcome(c.reader, []) && S.Append(c.reader, "") == c.reader
  {
  }

  lemma StepDelivers(user: Program, c: Context, t: Tick, calls: seq<Settled>)
    requires S.Stable(PARSE) && Steady(user) && Listening(c) && UpToDate(c) && c.reader.Live? && Calm(t.event)
    requires var all := S.Drain(PARSE, S.Append(c.reader, ArrivingNow(t.event)));
             all.state.Live? && Due(c.sub, all.values, calls)
    ensures var d, all := Step(user, c, t.event, t.sweep), S.Drain(PARSE, S.Append(c.reader, ArrivingNow(t.event)));
            && ListensOn(c, d) && UpToDate(d) && d.reader == all.state
            && d.log.received == c.log.received + all.values && d.log.calls == c.log.calls + calls
  {
    hide Process, S.Drain, S.Stable, UpToDate, Steady, IsFor, KindOfCommand;
    StepIsUpToDate(user, c, t.event, t.sweep);
    NothingToDrain(c);
    assert c.log.received + [] == c.log.received && (calls == [] ==> c.log.calls + calls == c.log.calls);
    match t.event
    case CommandEvent(cb, name, args) =>
    case ReadEvent(connect, read) =>
      if read.Arrived? {
        ProcessDelivers(user, Take(c, read.bytes), NO_CALLBACK, t.sweep, calls);
      } else {
        ProcessDelivers(user, c, NO_CALLBACK, t.sweep, calls);
      }
    case WriteEvent(connect, write) =>
  }

  /** Draining what arrives now and later is draining now, and the rest later. */
  lemma DrainLater(st: S.State, now: string, later: string)
    requires S.Stable(PARSE) && S.Drain(PARSE, S.Append(st, now + later)).state.Live?
    ensures var early := S.Drain(PARSE, S.Append(st, now));
            var left, all := S.Drain(PARSE, S.Append(early.state, later)), S.Drain(PARSE, S.Append(st, now + later));
            early.state.Live? && all == S.Outcome(left.state, early.values + left.values)
  {
    S.DrainInTwo(PARSE, S.Append(st, now), later);
    if st.Live? {
      Assoc(st.pending, now, later);
    }
  }

  lemma DueInTwo(sub: Subscriptions, a: seq<Reply>, b: seq<Reply>, calls: seq<Settled>)
    requires Due(sub, a + b, calls)
    ensures Due(sub, a, calls[..|a|]) && Due(sub, b, calls[|a|..])
  {
    hide IsFor;
    forall i | 0 <= i < |b| ensures (a + b)[|a| + i] == b[i] && calls[|a|..][i] == calls[|a| + i] {
    }
  }

  /**
   As long as the messages that arrive are for channels and patterns somebody has
   registered, in whatever pieces and between whatever writes and ordinary commands, each
   is given to exactly the callback it is for: every one, once and in order.
   */
  lemma {:induction false} SubscribersGetEveryMessage(user: Program, c: Context, ticks: seq<Tick>, calls: seq<Settled>)
    requires S.Stable(PARSE) && Steady(user) && Listening(c) && UpToDate(c) && c.reader.Live?
    requires forall i :: 0 <= i < |ticks| ==> Calm(ticks[i].event)
    requires var all := S.Drain(PARSE, S.Append(c.reader, Arriving(ticks)));
             all.state.Live? && Due(c.sub, all.values, calls)
    ensures var d, all := Run(user, c, ticks), S.Drain(PARSE, S.Append(c.reader, Arriving(ticks)));
            && ListensOn(c, d) && d.reader == all.state
            && d.log.received == c.log.received + all.values && d.log.calls == c.log.calls + calls
    decreases |ticks|
  {
    hide Step, S.Drain, S.Stable, UpToDate, Steady, IsFor, Calm, Due;
    if ticks == [] {
      NothingToDrain(c);
      NoneDue(c.sub, calls);
      assert c.log.received + [] == c.log.received && c.log.calls + [] == c.log.calls;
    } else {
      var t, now, later := ticks[0], ArrivingNow(ticks[0].event), Arriving(ticks[1..]);
      var all, early := S.Drain(PARSE, S.Append(c.reader, now + later)), S.Drain(PARSE, S.Append(c.reader, now));
      DrainLater(c.reader, now, later);
      var left := S.Drain(PARSE, S.Append(early.state, later));
      var n := |early.values|;
      DueInTwo(c.sub, early.values, left.values, calls);
      DueLength(c.sub, all.values, calls);
      StepDelivers(user, c, t, calls[..n]);
      var d := Step(user, c, t.event, t.sweep);
      SameTables(c.sub, d.sub, left.values, calls[n..]);
      SubscribersGetEveryMessage(user, d, ticks[1..], calls[n..]);
      Assoc(c.log.received, early.values, left.values);
      Assoc(c.log.calls, calls[..n], calls[n..]);
      assert calls == calls[..n] + calls[n..];
    }
  }

  lemma NoneDue(sub: Subscriptions, calls: seq<Settled>)
    ensures Due(sub, [], calls) ==> calls == []
  {
  }

  lemma DueLength(sub: Subscriptions, messages: seq<Reply>, calls: seq<Settled>)
    requires Due(sub, messages, calls)
    ensures |calls| == |messages|
  {
  }

  /** A message, or the confirmation, for one of the channels. */
  predicate About(args: seq<string>, message: Reply) {
    && message.Array? && |message.items| >= 2 && message.items[0].Bulk? && message.items[1].Bulk?
    && message.items[0].text in {"message", "subscribe"} && message.items[1].text in args
  }

  /** After a subscribe command, every message for its channels goes to its callback, from the first one on. */
  lemma {:induction false} SubscribedChannelsAreServed(
    user: Program, c: Context, cb: Callback, name: string, args: seq<string>, ticks: seq<Tick>, messages: seq<Reply>)
    requires S.Stable(PARSE) && Steady(user) && UpToDate(c) && c.reader.Live? && cb.fn != 0
    requires Ready(c) && c.err == 0 && c.flags.connected && !c.flags.monitoring && c.replies == []
    requires !c.flags.disconnecting && !c.flags.freeing
    requires Names(name, "subscribe") && args != [] && name[0] !in "pP"
    requires forall i :: 0 <= i < |ticks| ==> Calm(ticks[i].event)
    requires var all := S.Drain(PARSE, S.Append(c.reader, Arriving(ticks)));
             all.state.Live? && all.values == messages && forall m :: m in messages ==> About(args, m)
    ensures Run(user, Issue(c, cb, name, args), ticks).log.calls ==
            c.log.calls + seq(|messages|, i requires 0 <= i < |messages| => Settled(cb, Some(messages[i])))
  {
    hide Run, S.Drain, S.Stable, Steady, Calm, Issue, Names;
    var d := Issue(c, cb, name, args);
    var calls := seq(|messages|, i requires 0 <= i < |messages| => Settled(cb, Some(messages[i])));
    SubscribeRegisters(c, cb, name, args);
    IssueGrows(c, cb, name, args);
    forall i | 0 <= i < |messages| ensures IsFor(d.sub, messages[i], cb) {
      assert messages[i] in messages;
    }
    SubscribersGetEveryMessage(user, d, ticks, calls);
  }

  /** A message as the server publishes it. */
  function Published(channel: string, payload: string): Reply {
    Message(3, "message", channel, [Bulk(payload)])
  }

  lemma PublishedIsClean(channel: string, payload: string)
    ensures Clean(Published(channel, payload)) && Nesting(Published(channel, payload)) <= 8
    ensures forall args: seq<string> :: channel in args ==> About(args, Published(channel, payload))
  {
    var m := Published(channel, payload);
    assert m.items == [Bulk("message"), Bulk(channel), Bulk(payload)];
    DeepestBounds(m.items, 0);
  }

  /**
   End to end: whatever is published on the channels of a subscribe command, cut into any
   pieces on the way, the callback is called with exactly those messages, in order.
   */
  lemma {:induction false} PublishedMessagesArrive(
    user: Program, c: Context, cb: Callback, name: string, args: seq<string>, ticks: seq<Tick>, messages: seq<Reply>)
    requires Steady(user) && c.reader == S.Live("") && cb.fn != 0
    requires Ready(c) && c.err == 0 && c.flags.connected && !c.flags.monitoring && c.replies == []
    requires !c.flags.disconnecting && !c.flags.freeing
    requires Names(name, "subscribe") && args != [] && name[0] !in "pP"
    requires forall i :: 0 <= i < |ticks| ==> Calm(ticks[i].event)
    requires Arriving(ticks) == EncodeItems(messages)
    requires forall i :: 0 <= i < |messages| ==>
               exists channel, payload :: channel in args && messages[i] == Published(channel, payload)
    ensures Run(user, Issue(c, cb, name, args), ticks).log.calls ==
            c.log.calls + seq(|messages|, i requires 0 <= i < |messages| => Settled(cb, Some(messages[i])))
  {
    hide Run, S.Drain, S.Stable, Steady, Calm, Issue, Names, Published;
    forall i | 0 <= i < |messages|
      ensures Clean(messages[i]) && Nesting(messages[i]) <= 8 && About(args, messages[i])
    {
      var channel, payload :| channel in args && messages[i] == Published(channel, payload);
      PublishedIsClean(channel, payload);
    }
    ReaderRuns.EncodedRepliesDrain(messages);
    assert "" + Arriving(ticks) == Arriving(ticks);
    NothingYet(c);
    SubscribedChannelsAreServed(user, c, cb, name, args, ticks, messages);
  }

  lemma NothingYet(c: Context)
    requires c.reader == S.Live("")
    ensures UpToDate(c)
  {
  }
}
