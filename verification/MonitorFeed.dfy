/**
 What a monitoring client hears: everything, as long as each read event brings
 at least one whole reply. A read event that brings none costs it a reply.
 */
module MonitorFeed {
  import opened Bytes
  import opened Resp
  import S = Streams
  import opened CallbackList
  import opened AsyncProtocol
  import opened AsyncSafety
  import PubSub
  import ReaderRuns

  /** Users' functions that make no calls. */
  ghost predicate Silent(user: Program) {
    forall k, s :: user(k, s) == []
  }

  /** Connected and monitoring, with no subscription and no wish to close. */
  predicate Watching(c: Context) {
    && Ready(c) && c.err == 0 && c.flags.connected && c.flags.monitoring && !c.flags.subscribed
    && !c.flags.disconnecting && !c.flags.freeing && c.reader.Live?
  }

  /** Error replies end a context on which nobody waits. */
  predicate NoErrors(rs: seq<Reply>) {
    forall i :: 0 <= i < |rs| ==> !rs[i].Error?
  }

  /** The calls for some replies: the waiting callbacks in turn, then the last one again and again. */
  function Heard(waiting: seq<Callback>, last: Callback, rs: seq<Reply>): seq<Settled>
    decreases |rs|
  {
    if rs == [] then []
    else
      var cb := if waiting == [] then last else waiting[0];
      (if cb.fn == 0 then [] else [Settled(cb, Some(rs[0]))]) +
      Heard(if waiting == [] then [] else waiting[1..], cb, rs[1..])
  }

  /** The callbacks that wait after these replies: those not reached, and the last one used again. */
  function WaitingNext(waiting: seq<Callback>, last: Callback, rs: seq<Reply>): seq<Callback>
    decreases |rs|
  {
    if rs == [] then waiting + [last]
    else WaitingNext(if waiting == [] then [] else waiting[1..], if waiting == [] then last else waiting[0], rs[1..])
  }

  lemma OneReply(user: Program, c: Context, reply: Reply, last: Callback)
    requires Silent(user) && Watching(c) && !reply.Error?
    ensures var cb := if c.replies == [] then last else c.replies[0];
            && Addressee(c, reply, last).Found? && Addressee(c, reply, last).cb == cb
            && var d := RunCallback(user, Addressee(c, reply, last).context, Settled(cb, Some(reply)));
               && Watching(d) && d.reader == c.reader && d.log.received == c.log.received
               && d.replies == (if c.replies == [] then [] else c.replies[1..])
               && d.log.calls == c.log.calls + if cb.fn == 0 then [] else [Settled(cb, Some(reply))]
  {
  }

  lemma {:induction false} ProcessFeeds(user: Program, c: Context, last: Callback, sweep: Sweep, rs: seq<Reply>)
    requires S.Stable(PARSE) && Silent(user) && Watching(c) && NoErrors(rs)
    requires S.Drain(PARSE, c.reader).state.Live? && S.Drain(PARSE, c.reader).values == rs
    ensures var d := Process(user, c, last, sweep);
            && Watching(d) && d.reader == S.Drain(PARSE, c.reader).state
            && d.replies == WaitingNext(c.replies, last, rs)
            && d.log.received == c.log.received + rs && d.log.calls == c.log.calls + Heard(c.replies, last, rs)
    decreases Unread(c.reader)
  {
    hide Free, Disconnect, RunCallback, Addressee, S.Drain, S.Stable, Silent;
    var got := Ask(c);
    PubSub.DrainOne(c);
    if got.values == [] {
      assert c.log.received + [] == c.log.received && c.log.calls + [] == c.log.calls;
    } else {
      AskShrinks(c);
      var reply := got.values[0];
      assert rs[0] == reply && rs == [reply] + rs[1..];
      var d := Receive(c, reply, got.state);
      OneReply(user, d, reply, last);
      DeliveryKeeps(user, d, reply, last);
      var cb := if c.replies == [] then last else c.replies[0];
      var f := RunCallback(user, Addressee(d, reply, last).context, Settled(cb, Some(reply)));
      ProcessFeeds(user, f, cb, sweep, rs[1..]);
      Assoc(c.log.received, [reply], rs[1..]);
      Assoc(c.log.calls, if cb.fn == 0 then [] else [Settled(cb, Some(reply))], Heard(f.replies, cb, rs[1..]));
    }
  }

  // ------------------------------------------------------------------- whole runs

  /** A read event that finds the connection in order. */
  predicate Reads(e: Event) {
    e.ReadEvent? && (e.read.ReadAgain? || e.read.Arrived?)
  }

  lemma StepFeeds(user: Program, c: Context, t: Tick, rs: seq<Reply>)
    requires S.Stable(PARSE) && Silent(user) && Watching(c) && Reads(t.event) && NoErrors(rs)
    requires var all := S.Drain(PARSE, S.Append(c.reader, PubSub.ArrivingNow(t.event)));
             all.state.Live? && all.values == rs
    ensures var d := Step(user, c, t.event, t.sweep);
            && Watching(d) && d.reader == S.Drain(PARSE, S.Append(c.reader, PubSub.ArrivingNow(t.event))).state
            && d.replies == WaitingNext(c.replies, NO_CALLBACK, rs)
            && d.log.received == c.log.received + rs && d.log.calls == c.log.calls + Heard(c.replies, NO_CALLBACK, rs)
  {
    hide Process, S.Drain, S.Stable, Silent, WaitingNext, Heard;
    if t.event.read.Arrived? {
      ProcessFeeds(user, Take(c, t.event.read.bytes), NO_CALLBACK, t.sweep, rs);
    } else {
      assert S.Append(c.reader, "") == c.reader;
      ProcessFeeds(user, c, NO_CALLBACK, t.sweep, rs);
    }
  }

  /** All of some replies, given to one callback. */
  function ToOne(cb: Callback, rs: seq<Reply>): (calls: seq<Settled>)
    ensures |calls| == |rs| && forall i :: 0 <= i < |rs| ==> calls[i] == Settled(cb, Some(rs[i]))
  {
    seq(|rs|, i requires 0 <= i < |rs| => Settled(cb, Some(rs[i])))
  }

  lemma {:induction false} OneWaitsForAll(cb: Callback, waiting: seq<Callback>, last: Callback, rs: seq<Reply>)
    requires cb.fn != 0 && rs != [] && (waiting == [cb] || (waiting == [] && last == cb))
    ensures Heard(waiting, last, rs) == ToOne(cb, rs) && WaitingNext(waiting, last, rs) == [cb]
    decreases |rs|
  {
    assert ToOne(cb, rs) == [Settled(cb, Some(rs[0]))] + ToOne(cb, rs[1..]);
    if |rs| > 1 {
      OneWaitsForAll(cb, [], cb, rs[1..]);
    } else {
      assert rs[1..] == [] && [] + [cb] == [cb];
    }
  }

  /** Each tick is a read event that completes at least one reply; together they bring `rs`. */
  ghost predicate Feeding(st: S.State, ticks: seq<Tick>, rs: seq<Reply>)
    requires S.Stable(PARSE)
    decreases |ticks|
  {
    if ticks == [] then rs == []
    else
      var now := S.Drain(PARSE, S.Append(st, PubSub.ArrivingNow(ticks[0].event)));
      && Reads(ticks[0].event) && now.state.Live? && now.values != [] && now.values <= rs
      && Feeding(now.state, ticks[1..], rs[|now.values|..])
  }

  lemma NoErrorsInParts(a: seq<Reply>, b: seq<Reply>)
    requires NoErrors(a + b)
    ensures NoErrors(a) && NoErrors(b)
  {
    assert forall i :: 0 <= i < |a| ==> (a + b)[i] == a[i];
    assert forall i :: 0 <= i < |b| ==> (a + b)[|a| + i] == b[i];
  }

  /** One such tick: all it brings goes to the callback, which then waits again. */
  lemma FeedOne(user: Program, c: Context, cb: Callback, t: Tick, rs: seq<Reply>)
    requires S.Stable(PARSE) && Silent(user) && Watching(c) && c.replies == [cb] && cb.fn != 0
    requires Reads(t.event) && NoErrors(rs) && rs != []
    requires var now := S.Drain(PARSE, S.Append(c.reader, PubSub.ArrivingNow(t.event)));
             now.state.Live? && now.values == rs
    ensures var d := Step(user, c, t.event, t.sweep);
            && Watching(d) && d.replies == [cb] && d.log.received == c.log.received + rs
            && d.reader == S.Drain(PARSE, S.Append(c.reader, PubSub.ArrivingNow(t.event))).state
            && d.log.calls == c.log.calls + ToOne(cb, rs)
  {
    hide Step, S.Drain, S.Stable, Silent, Heard, WaitingNext, Watching, NoErrors, Reads;
    StepFeeds(user, c, t, rs);
    OneWaitsForAll(cb, [cb], NO_CALLBACK, rs);
  }

  /** The callback of a monitor command hears every reply if no read event comes without one. */
  lemma {:induction false} MonitorsHearEverything(user: Program, c: Context, cb: Callback, ticks: seq<Tick>,
                                                  rs: seq<Reply>)
    requires S.Stable(PARSE) && Silent(user) && Watching(c) && c.replies == [cb] && cb.fn != 0
    requires NoErrors(rs) && Feeding(c.reader, ticks, rs)
    ensures var d := Run(user, c, ticks);
            && Watching(d) && d.replies == [cb] && d.log.received == c.log.received + rs
            && d.log.calls == c.log.calls + ToOne(cb, rs)
    decreases |ticks|
  {
    hide Step, S.Drain, S.Stable, Silent, Watching, NoErrors, Reads;
    if ticks == [] {
      assert c.log.received + [] == c.log.received && c.log.calls + ToOne(cb, []) == c.log.calls;
    } else {
      var first := S.Drain(PARSE, S.Append(c.reader, PubSub.ArrivingNow(ticks[0].event))).values;
      var later := rs[|first|..];
      assert rs == first + later;
      NoErrorsInParts(first, later);
      FeedOne(user, c, cb, ticks[0], first);
      MonitorsHearEverything(user, Step(user, c, ticks[0].event, ticks[0].sweep), cb, ticks[1..], later);
      Assoc(c.log.received, first, later);
      AllToOne(cb, c.log.calls, first, later);
    }
  }

  lemma AllToOne(cb: Callback, calls: seq<Settled>, a: seq<Reply>, b: seq<Reply>)
    ensures calls + ToOne(cb, a) + ToOne(cb, b) == calls + ToOne(cb, a + b)
  {
  }

  /**
   A read event without a whole reply puts no callback in the queue behind the one that
   waits, and the second reply after it is lost: it is received, and nobody is called.
   */
  lemma EmptyReadLosesAReply(user: Program, c: Context, cb: Callback, first: Reply, second: Reply, sweep: Sweep)
    requires Silent(user) && Watching(c) && c.replies == [cb] && cb.fn != 0 && c.reader == S.Live("")
    requires Clean(first) && Clean(second) && Nesting(first) <= 8 && Nesting(second) <= 8
    requires !first.Error? && !second.Error?
    ensures var ticks := [Tick(ReadEvent(Established, ReadAgain), sweep),
                          Tick(ReadEvent(Established, Arrived(Encode(first))), sweep),
                          Tick(ReadEvent(Established, Arrived(Encode(second))), sweep)];
            var d := Run(user, c, ticks);
            && d.failure == NoFailure && d.log.received == c.log.received + [first, second]
            && d.log.calls == c.log.calls + [Settled(cb, Some(first))]
  {
    hide Step, Run, S.Drain, S.Stable, Silent, Clean, Nesting, Encode, Heard, WaitingNext;
    var t := Tick(ReadEvent(Established, ReadAgain), sweep);
    var u := Tick(ReadEvent(Established, Arrived(Encode(first))), sweep);
    var v := Tick(ReadEvent(Established, Arrived(Encode(second))), sweep);
    BringsNothing();
    BringsOne(first);
    BringsOne(second);
    StepFeeds(user, c, t, []);
    NothingHeard(cb);
    var c1 := Step(user, c, t.event, sweep);
    assert c.log.received + [] == c.log.received && c.log.calls + [] == c.log.calls;
    StepFeeds(user, c1, u, [first]);
    var c2 := Step(user, c1, u.event, sweep);
    TwoWait(cb, NO_CALLBACK, first);
    StepFeeds(user, c2, v, [second]);
    TwoWait(NO_CALLBACK, cb, second);
    var d := Step(user, c2, v.event, sweep);
    assert c.log.received + [first] + [second] == c.log.received + [first, second];
    var calls := c.log.calls + [Settled(cb, Some(first))];
    assert calls + [] == calls;
    ThreeTicks(user, c, t, u, v);
  }

  lemma NothingHeard(cb: Callback)
    ensures Heard([cb], NO_CALLBACK, []) == [] && WaitingNext([cb], NO_CALLBACK, []) == [cb, NO_CALLBACK]
  {
  }

  lemma TwoWait(a: Callback, b: Callback, r: Reply)
    ensures Heard([a, b], NO_CALLBACK, [r]) == if a.fn == 0 then [] else [Settled(a, Some(r))]
    ensures WaitingNext([a, b], NO_CALLBACK, [r]) == [b, a]
  {
    assert [r][1..] == [] && [a, b][1..] == [b];
    assert Heard([b], a, []) == [] && WaitingNext([b], a, []) == [b] + [a];
  }

  lemma BringsNothing()
    ensures S.Stable(PARSE) && S.Drain(PARSE, S.Append(S.Live(""), "")) == S.Outcome(S.Live(""), [])
  {
    RepliesAreStable();
  }

  lemma BringsOne(r: Reply)
    requires Clean(r) && Nesting(r) <= 8
    ensures S.Stable(PARSE) && S.Drain(PARSE, S.Append(S.Live(""), Encode(r))) == S.Outcome(S.Live(""), [r])
  {
    hide Clean, Nesting, Encode, S.Drain, S.Stable;
    ReaderRuns.EncodedRepliesDrain([r]);
    assert [r][1..] == [] && EncodeItems([r]) == Encode(r) + EncodeItems([]);
    assert "" + Encode(r) == Encode(r) == Encode(r) + "";
  }

  lemma ThreeTicks(user: Program, c: Context, t: Tick, u: Tick, v: Tick)
    ensures Run(user, c, [t, u, v]) ==
            Step(user, Step(user, Step(user, c, t.event, t.sweep), u.event, u.sweep), v.event, v.sweep)
  {
    RunNone(user, c);
    RunSnoc(user, c, [], t);
    RunSnoc(user, c, [t], u);
    RunSnoc(user, c, [t, u], v);
    assert [] + [t] == [t] && [t] + [u] == [t, u] && [t, u] + [v] == [t, u, v];
  }
}
