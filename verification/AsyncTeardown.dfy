/**
 How a context ends: nothing is accepted any more, everybody who waits or is
 subscribed is called exactly once, and when the end comes.
 */
module AsyncTeardown {
  import opened Bytes
  import opened Resp
  import S = Streams
  import opened CallbackList
  import opened AsyncProtocol
  import opened AsyncSafety

  // ------------------------------------------------------------- everybody, once

  /** One call without a reply for each callback. */
  function Unanswered(cbs: seq<Callback>): seq<Settled> {
    seq(|cbs|, i requires 0 <= i < |cbs| => Settled(cbs[i], None))
  }

  /** The callbacks of `keys`, as far as the table has them. */
  function Values(table: map<string, Callback>, keys: seq<string>): seq<Callback> {
    if keys == [] then []
    else (if keys[0] in table then [table[keys[0]]] else []) + Values(table, keys[1..])
  }

  /** `keys` are the keys of the table, each once. */
  ghost predicate Enumerates(keys: seq<string>, table: map<string, Callback>) {
    && (forall k :: k in keys <==> k in table)
    && (forall i, j :: 0 <= i < j < |keys| ==> keys[i] != keys[j])
  }

  /** A complete walk meets every entry of the table, and each one once. */
  lemma {:induction false} WalkMeetsAll(table: map<string, Callback>, keys: seq<string>)
    requires forall i :: 0 <= i < |keys| ==> keys[i] in table
    ensures |Values(table, keys)| == |keys|
    ensures forall i :: 0 <= i < |keys| ==> Values(table, keys)[i] == table[keys[i]]
    decreases |keys|
  {
    if keys != [] {
      WalkMeetsAll(table, keys[1..]);
    }
  }

  lemma {:induction false} WithFunctionAppend(a: seq<Settled>, b: seq<Settled>)
    ensures WithFunction(a + b) == WithFunction(a) + WithFunction(b)
    decreases |b|
  {
    if b == [] {
      assert a + b == a;
    } else {
      var n := |b| - 1;
      assert (a + b)[..|a| + n] == a + b[..n] && (a + b)[|a| + n] == b[n];
      WithFunctionAppend(a, b[..n]);
      Assoc(WithFunction(a), WithFunction(b[..n]), if b[n].cb.fn == 0 then [] else [b[n]]);
    }
  }

  /** The calls for one callback more at the front. */
  lemma OneMoreCall(cb: Callback, cbs: seq<Callback>)
    ensures WithFunction(Unanswered([cb] + cbs)) ==
            (if cb.fn == 0 then [] else [Settled(cb, None)]) + WithFunction(Unanswered(cbs))
  {
    var one := [Settled(cb, None)];
    assert Unanswered([cb] + cbs) == one + Unanswered(cbs);
    WithFunctionAppend(one, Unanswered(cbs));
    assert one[..0] == [];
  }

  /** What a call without a reply does to a closing context: it is noted, and at most a flag is raised. */
  ghost predicate Noted(c: Context, d: Context, cbs: seq<Callback>) {
    && StaysClosed(c, d) && !d.flags.inCallback
    && d.err == c.err && d.log.received == c.log.received && d.log.frees == c.log.frees
    && d.log.calls == c.log.calls + WithFunction(Unanswered(cbs))
  }

  lemma NotedOne(user: Program, c: Context, cb: Callback)
    requires Closing(c) && !c.flags.inCallback
    ensures var d := RunCallback(user, c, Settled(cb, None));
            Noted(c, d, [cb]) && d.sub == c.sub && d.replies == c.replies
  {
    hide Extends, Script;
    CallbackGrows(user, c, Settled(cb, None));
    OneMoreCall(cb, []);
    assert [cb] + [] == [cb] && Unanswered([]) == [];
    assert WithFunction([]) == [];
  }

  lemma NotedTwice(c: Context, d: Context, e: Context, a: seq<Callback>, b: seq<Callback>)
    requires Noted(c, d, a) && Noted(d, e, b)
    ensures Noted(c, e, a + b)
  {
    assert Unanswered(a + b) == Unanswered(a) + Unanswered(b);
    WithFunctionAppend(Unanswered(a), Unanswered(b));
    Assoc(c.log.calls, WithFunction(Unanswered(a)), WithFunction(Unanswered(b)));
  }

  lemma NotedNone(c: Context)
    requires Closing(c) && !c.flags.inCallback
    ensures Noted(c, c, [])
  {
    assert Unanswered([]) == [];
    assert c.log.calls + WithFunction([]) == c.log.calls;
  }

  lemma {:induction false} DrainCalls(user: Program, c: Context)
    requires Closing(c) && !c.flags.inCallback
    ensures var d := DrainReplies(user, c);
            Noted(c, d, c.replies) && d.sub == c.sub
    decreases |c.replies|
  {
    hide RunCallback, Noted;
    if c.replies == [] {
      NotedNone(c);
    } else {
      var cb, d := c.replies[0], Settle(c, None);
      ServeGrows(user, c, None);
      NotedOne(user, d, cb);
      var e := RunCallback(user, d, Settled(cb, None));
      DrainCalls(user, e);
      NotedTwice(d, e, DrainReplies(user, e), [cb], c.replies[1..]);
      assert c.replies == [cb] + c.replies[1..];
      SameCalls(c, d, DrainReplies(user, e), c.replies);
    }
  }

  lemma SameCalls(c: Context, c': Context, d: Context, cbs: seq<Callback>)
    requires Noted(c', d, cbs) && c'.err == c.err && c'.flags.inCallback == c.flags.inCallback
    requires c'.log == c.log.(settled := c'.log.settled)
    ensures Noted(c, d, cbs)
  {
  }

  lemma {:induction false} DrainInvalidCalls(user: Program, c: Context)
    requires Closing(c) && !c.flags.inCallback
    ensures var d := DrainInvalid(user, c);
            Noted(c, d, c.sub.invalid) && d.sub == c.sub.(invalid := [])
    decreases |c.sub.invalid|
  {
    hide RunCallback, Noted;
    if c.sub.invalid == [] {
      NotedNone(c);
    } else {
      var cb, d := c.sub.invalid[0], ShiftInvalid(c);
      CallbackGrows(user, d, Settled(cb, None));
      NotedOne(user, d, cb);
      var e := RunCallback(user, d, Settled(cb, None));
      DrainInvalidCalls(user, e);
      NotedTwice(d, e, DrainInvalid(user, e), [cb], c.sub.invalid[1..]);
      assert c.sub.invalid == [cb] + c.sub.invalid[1..];
      SameCalls(c, d, DrainInvalid(user, e), c.sub.invalid);
    }
  }

  /** Nothing a callback does while a table is walked changes the table. */
  lemma {:induction false} SweepCalls(user: Program, c: Context, table: map<string, Callback>, keys: seq<string>)
    requires Closing(c) && !c.flags.inCallback
    ensures var d := SweepTable(user, c, table, keys);
            Noted(c, d, Values(table, keys)) && d.sub == c.sub
    decreases |keys|
  {
    hide RunCallback, Noted;
    if keys == [] {
      NotedNone(c);
    } else if keys[0] in table {
      var cb := table[keys[0]];
      NotedOne(user, c, cb);
      var d := RunCallback(user, c, Settled(cb, None));
      NotedCloses(c, d, [cb]);
      SweepCalls(user, d, table, keys[1..]);
      NotedTwice(c, d, SweepTable(user, d, table, keys[1..]), [cb], Values(table, keys[1..]));
    } else {
      SweepCalls(user, c, table, keys[1..]);
      assert [] + Values(table, keys[1..]) == Values(table, keys[1..]);
    }
  }

  lemma NotedCloses(c: Context, d: Context, cbs: seq<Callback>)
    requires Noted(c, d, cbs)
    ensures Closing(d) && !d.flags.inCallback
  {
  }

  lemma TeardownNoted(user: Program, c: Context, sweep: Sweep)
    requires Closing(c) && !c.flags.inCallback
    ensures Noted(c, CallEverybody(user, c, sweep),
                  c.replies + c.sub.invalid + Values(c.sub.channels, sweep.channels)
                  + Values(c.sub.patterns, sweep.patterns))
  {
    hide DrainReplies, DrainInvalid, SweepTable, Values, Noted;
    var channels, patterns := Values(c.sub.channels, sweep.channels), Values(c.sub.patterns, sweep.patterns);
    DrainCalls(user, c);
    var d := DrainReplies(user, c);
    NotedCloses(c, d, c.replies);
    DrainInvalidCalls(user, d);
    var e := DrainInvalid(user, d);
    NotedCloses(d, e, c.sub.invalid);
    SweepCalls(user, e, e.sub.channels, sweep.channels);
    var f := SweepTable(user, e, e.sub.channels, sweep.channels);
    NotedCloses(e, f, channels);
    SweepCalls(user, f, f.sub.patterns, sweep.patterns);
    NotedTwice(c, d, e, c.replies, c.sub.invalid);
    NotedTwice(c, e, f, c.replies + c.sub.invalid, channels);
    var last := SweepTable(user, f, f.sub.patterns, sweep.patterns);
    NotedTwice(c, f, last, c.replies + c.sub.invalid + channels, patterns);
  }

  /**
   Teardown calls, without a reply, every callback that waits for one, then those of
   commands sent while subscribed, then those of all channels and of all patterns:
   each exactly once, whatever the callbacks themselves do.
   */
  lemma TeardownCallsEachOnce(user: Program, c: Context, sweep: Sweep)
    requires Closing(c) && Ready(c)
    requires Enumerates(sweep.channels, c.sub.channels) && Enumerates(sweep.patterns, c.sub.patterns)
    ensures var channels, patterns := Values(c.sub.channels, sweep.channels), Values(c.sub.patterns, sweep.patterns);
            && Free(user, c, sweep).log.calls ==
               c.log.calls + WithFunction(Unanswered(c.replies + c.sub.invalid + channels + patterns))
            && |channels| == |sweep.channels| && |patterns| == |sweep.patterns|
            && (forall i :: 0 <= i < |channels| ==> channels[i] == c.sub.channels[sweep.channels[i]])
            && (forall i :: 0 <= i < |patterns| ==> patterns[i] == c.sub.patterns[sweep.patterns[i]])
  {
    hide CallEverybody, Unanswered, WithFunction, Values;
    WalkMeetsAll(c.sub.channels, sweep.channels);
    WalkMeetsAll(c.sub.patterns, sweep.patterns);
    TeardownNoted(user, c, sweep);
  }

  // ------------------------------------------------------------------ which tick it was

  /** `d` is what freeing the closing context `b` leaves; the tables are as they were. */
  ghost predicate FreedFrom(user: Program, b: Context, d: Context, sweep: Sweep) {
    && Closing(b) && Ready(b) && d == Free(user, b, sweep) && d.log.frees == 1
    && d.sub.channels == b.sub.channels && d.sub.patterns == b.sub.patterns
  }

  lemma FreeKeepsTables(user: Program, b: Context, sweep: Sweep)
    requires Closing(b) && Ready(b)
    ensures FreedFrom(user, b, Free(user, b, sweep), sweep)
  {
    hide DrainReplies, DrainInvalid, SweepTable, Values, WithFunction, Unanswered;
    DrainCalls(user, b);
    var d := DrainReplies(user, b);
    DrainInvalidCalls(user, d);
    var e := DrainInvalid(user, d);
    SweepCalls(user, e, e.sub.channels, sweep.channels);
    var f := SweepTable(user, e, e.sub.channels, sweep.channels);
    SweepCalls(user, f, f.sub.patterns, sweep.patterns);
  }

  lemma DisconnectFrees(user: Program, c: Context, sweep: Sweep) returns (b: Context)
    requires Ready(c) && (c.err == 0 ==> c.replies == [] && c.flags.disconnecting)
    ensures FreedFrom(user, b, Disconnect(user, c, sweep), sweep)
  {
    hide Free, FreedFrom;
    b := if c.err == 0 then c else c.(flags := c.flags.(disconnecting := true));
    FreeKeepsTables(user, b, sweep);
  }

  lemma {:induction false} ProcessFrees(user: Program, c: Context, last: Callback, sweep: Sweep) returns (b: Context)
    requires Ready(c) && Process(user, c, last, sweep).log.frees > 0
    ensures FreedFrom(user, b, Process(user, c, last, sweep), sweep)
    decreases Unread(c.reader)
  {
    hide Free, Disconnect, RunCallback, WellFormed, Ends, FreedFrom, S.Step;
    var got := Ask(c);
    if got.state.Dead? {
      b := DisconnectFrees(user, c.(reader := got.state, err := ERR_PROTOCOL), sweep);
    } else if got.values == [] {
      b := DisconnectFrees(user, c, sweep);
    } else {
      AskShrinks(c);
      var reply := got.values[0];
      var d := Receive(c, reply, got.state);
      if d.replies == [] && reply.Error? {
        b := DisconnectFrees(user, d.(err := ERR_OTHER), sweep);
      } else {
        DeliveryKeeps(user, d, reply, last);
        match Addressee(d, reply, last)
        case Malformed(_) =>
        case Found(e, cb) =>
          var f := RunCallback(user, e, Settled(cb, Some(reply)));
          if cb.fn != 0 && f.flags.freeing {
            b := f;
            FreeKeepsTables(user, f, sweep);
          } else {
            b := ProcessFrees(user, f, cb, sweep);
          }
      }
    }
  }

  lemma ReadFrees(user: Program, c: Context, read: Read, sweep: Sweep) returns (b: Context)
    requires Ready(c) && HandleRead(user, c, read, sweep).log.frees > 0
    ensures FreedFrom(user, b, HandleRead(user, c, read, sweep), sweep)
  {
    hide Disconnect, Process, FreedFrom;
    if c.err != 0 {
      b := DisconnectFrees(user, c, sweep);
    } else {
      match read
      case ReadAgain => b := ProcessFrees(user, c, NO_CALLBACK, sweep);
      case ReadFailed => b := DisconnectFrees(user, c.(err := ERR_IO), sweep);
      case EndOfFile => b := DisconnectFrees(user, c.(err := ERR_EOF), sweep);
      case Arrived(bytes) =>
        if c.reader.Dead? {
          b := DisconnectFrees(user, c.(err := ERR_PROTOCOL), sweep);
        } else {
          b := ProcessFrees(user, Take(c, bytes), NO_CALLBACK, sweep);
        }
    }
  }

  /** An event that ends a context ends it by freeing a context `b` that is closing, with its own walk. */
  lemma StepFrees(user: Program, c: Context, e: Event, sweep: Sweep) returns (b: Context)
    requires c.log.frees == 0 && Step(user, c, e, sweep).log.frees > 0
    ensures Ready(c) && FreedFrom(user, b, Step(user, c, e, sweep), sweep)
  {
    hide Disconnect, Free, HandleRead, HandleWrite, Issue, FreedFrom, Extends;
    match e
    case CommandEvent(cb, name, args) => IssueGrows(c, cb, name, args);
    case DisconnectEvent => b := DisconnectFrees(user, c.(flags := c.flags.(disconnecting := true)), sweep);
    case FreeEvent =>
      b := c.(flags := c.flags.(freeing := true));
      FreeKeepsTables(user, b, sweep);
    case ReadEvent(connect, read) =>
      if Refuses(c, connect) {
        b := DisconnectFrees(user, c.(err := ERR_IO), sweep);
      } else {
        b := ReadFrees(user, Connects(c, connect), read, sweep);
      }
    case WriteEvent(connect, write) =>
      if Refuses(c, connect) {
        b := DisconnectFrees(user, c.(err := ERR_IO), sweep);
      } else {
        b := WriteFrees(user, Connects(c, connect), write, sweep);
      }
  }

  lemma WriteFrees(user: Program, c: Context, write: Write, sweep: Sweep) returns (b: Context)
    requires Ready(c) && HandleWrite(user, c, write, sweep).log.frees > 0
    ensures FreedFrom(user, b, HandleWrite(user, c, write, sweep), sweep)
  {
    hide Disconnect, FreedFrom;
    b := DisconnectFrees(user, if c.err != 0 then c else c.(err := ERR_IO), sweep);
  }

  /**
   Tick `i` of a run tore the context down: it was alive before, and `b` is the closing
   context it was freed from, with a walk that met every entry of both tables.
   */
  ghost predicate TearsDown(user: Program, c: Context, ticks: seq<Tick>, i: nat, b: Context)
    requires i < |ticks|
  {
    var sweep := ticks[i].sweep;
    && Ready(Run(user, c, ticks[..i])) && FreedFrom(user, b, Run(user, c, ticks[..i + 1]), sweep)
    && Run(user, c, ticks) == Run(user, c, ticks[..i + 1])
    && Enumerates(sweep.channels, b.sub.channels) && Enumerates(sweep.patterns, b.sub.patterns)
  }

  /** One tick more, on a context that is still there, and ends it. */
  lemma TearsDownNow(user: Program, c: Context, ticks: seq<Tick>, t: Tick) returns (b: Context)
    requires Run(user, c, ticks).log.frees == 0 && Run(user, c, ticks + [t]).log.frees > 0
    requires Enumerates(t.sweep.channels, Run(user, c, ticks + [t]).sub.channels)
    requires Enumerates(t.sweep.patterns, Run(user, c, ticks + [t]).sub.patterns)
    ensures TearsDown(user, c, ticks + [t], |ticks|, b)
  {
    hide Step, Run;
    RunSnoc(user, c, ticks, t);
    var all := ticks + [t];
    assert all[..|ticks|] == ticks && all[..|ticks| + 1] == all;
    b := StepFrees(user, Run(user, c, ticks), t.event, t.sweep);
  }

  /** One tick more, on a context that is gone. */
  lemma TearsDownStill(user: Program, c: Context, ticks: seq<Tick>, t: Tick, i: nat, b: Context)
    requires i < |ticks| && TearsDown(user, c, ticks, i, b)
    ensures TearsDown(user, c, ticks + [t], i, b)
  {
    hide Run;
    RunSnoc(user, c, ticks, t);
    assert (ticks + [t])[..i] == ticks[..i] && (ticks + [t])[..i + 1] == ticks[..i + 1];
  }

  /** A whole run that ends with a teardown calls, at its end, everybody who waits or is subscribed, each once. */
  lemma TornDownRunsCallEachOnce(user: Program, c: Context, ticks: seq<Tick>, i: nat, b: Context)
    requires i < |ticks| && TearsDown(user, c, ticks, i, b)
    ensures var sweep := ticks[i].sweep;
            var channels, patterns := Values(b.sub.channels, sweep.channels), Values(b.sub.patterns, sweep.patterns);
            && Run(user, c, ticks).log.calls ==
               b.log.calls + WithFunction(Unanswered(b.replies + b.sub.invalid + channels + patterns))
            && |channels| == |b.sub.channels| && |patterns| == |b.sub.patterns|
  {
    hide Run, Free, Values, WithFunction, Unanswered;
    TeardownCallsEachOnce(user, b, ticks[i].sweep);
    EnumeratedOnce(ticks[i].sweep.channels, b.sub.channels);
    EnumeratedOnce(ticks[i].sweep.patterns, b.sub.patterns);
  }

  lemma EnumeratedOnce(keys: seq<string>, table: map<string, Callback>)
    requires Enumerates(keys, table)
    ensures |keys| == |table|
  {
    DistinctCount(keys);
    assert (set k | k in keys) == table.Keys;
  }

  lemma {:induction false} DistinctCount(keys: seq<string>)
    requires forall i, j :: 0 <= i < j < |keys| ==> keys[i] != keys[j]
    ensures |set k | k in keys| == |keys|
    decreases |keys|
  {
    if keys != [] {
      DistinctCount(keys[1..]);
      assert keys == [keys[0]] + keys[1..];
      assert (set k | k in keys) == {keys[0]} + set k | k in keys[1..];
    }
  }

  // ---------------------------------------------------------------------- closing

  lemma CallbackStaysClosed(user: Program, c: Context, s: Settled)
    requires Closing(c) && !c.flags.inCallback
    ensures var d := RunCallback(user, c, s);
            StaysClosed(c, d) && d.replies == c.replies && d.obuf == c.obuf && d.sub == c.sub
  {
    hide Extends, Script;
    CallbackGrows(user, c, s);
  }

  lemma FreeStaysClosed(user: Program, c: Context, sweep: Sweep)
    requires Closing(c) && Ready(c)
    ensures StaysClosed(c, Free(user, c, sweep)) && !Alive(Free(user, c, sweep))
    ensures Free(user, c, sweep).err == c.err && Free(user, c, sweep).log.received == c.log.received
  {
    hide CallEverybody, Values, WithFunction;
    TeardownNoted(user, c, sweep);
  }

  lemma DisconnectStaysClosed(user: Program, c: Context, sweep: Sweep)
    requires Closing(c) && Ready(c) && (c.err == 0 ==> c.replies == [] && c.flags.disconnecting)
    ensures StaysClosed(c, Disconnect(user, c, sweep)) && !Alive(Disconnect(user, c, sweep))
  {
    hide Free;
    FreeStaysClosed(user, if c.err == 0 then c else c.(flags := c.flags.(disconnecting := true)), sweep);
  }

  /** Finding and running a callback of a closing context accepts no command. */
  lemma DeliveryStaysClosed(user: Program, c: Context, reply: Reply, last: Callback)
    requires Closing(c) && Ready(c)
    ensures match Addressee(c, reply, last)
            case Malformed(e) => StaysClosed(c, e)
            case Found(e, cb) =>
              var f := RunCallback(user, e, Settled(cb, Some(reply)));
              && StaysClosed(c, f) && f.obuf == c.obuf
              && (c.flags.disconnecting ==> f.flags.disconnecting)
  {
    hide WellFormed, Ends, RunCallback, Extends, Plainly;
    match Addressee(c, reply, last)
    case Malformed(_) =>
    case Found(e, cb) =>
      CallbackStaysClosed(user, e, Settled(cb, Some(reply)));
      CallbackGrows(user, e, Settled(cb, Some(reply)));
  }

  lemma {:induction false} ProcessStaysClosed(user: Program, c: Context, last: Callback, sweep: Sweep)
    requires Closing(c) && Ready(c)
    ensures var d := Process(user, c, last, sweep);
            StaysClosed(c, d) && (c.obuf == "" && c.flags.disconnecting && Alive(d) ==> d.replies != [])
    decreases Unread(c.reader)
  {
    hide Free, Disconnect, RunCallback, Addressee, S.Step;
    var got := Ask(c);
    if got.state.Dead? {
      DisconnectStaysClosed(user, c.(reader := got.state, err := ERR_PROTOCOL), sweep);
    } else if got.values == [] {
      if c.flags.disconnecting && c.obuf == "" && c.replies == [] {
        DisconnectStaysClosed(user, c, sweep);
      }
    } else {
      AskShrinks(c);
      var reply := got.values[0];
      var d := Receive(c, reply, got.state);
      if d.replies == [] && reply.Error? {
        DisconnectStaysClosed(user, d.(err := ERR_OTHER), sweep);
      } else if !Unexpected(d, reply) {
        DeliveryKeeps(user, d, reply, last);
        DeliveryStaysClosed(user, d, reply, last);
        match Addressee(d, reply, last)
        case Malformed(_) =>
        case Found(e, cb) =>
          var f := RunCallback(user, e, Settled(cb, Some(reply)));
          if cb.fn != 0 && f.flags.freeing {
            FreeStaysClosed(user, f, sweep);
          } else {
            ProcessStaysClosed(user, f, cb, sweep);
          }
      }
    }
  }

  lemma ReadStaysClosed(user: Program, c: Context, read: Read, sweep: Sweep)
    requires Closing(c) && Ready(c)
    ensures var d := HandleRead(user, c, read, sweep);
            StaysClosed(c, d) && (c.obuf == "" && c.flags.disconnecting && Alive(d) ==> d.replies != [])
  {
    hide Disconnect, Process;
    if c.err != 0 {
      DisconnectStaysClosed(user, c, sweep);
    } else {
      match read
      case ReadAgain => ProcessStaysClosed(user, c, NO_CALLBACK, sweep);
      case ReadFailed => DisconnectStaysClosed(user, c.(err := ERR_IO), sweep);
      case EndOfFile => DisconnectStaysClosed(user, c.(err := ERR_EOF), sweep);
      case Arrived(bytes) =>
        if c.reader.Dead? {
          DisconnectStaysClosed(user, c.(err := ERR_PROTOCOL), sweep);
        } else {
          ProcessStaysClosed(user, Take(c, bytes), NO_CALLBACK, sweep);
        }
    }
  }

  lemma WriteStaysClosed(user: Program, c: Context, write: Write, sweep: Sweep)
    requires Closing(c) && Ready(c)
    ensures StaysClosed(c, HandleWrite(user, c, write, sweep))
  {
    hide Disconnect;
    if c.err != 0 {
      DisconnectStaysClosed(user, c, sweep);
    } else if c.obuf != "" && write.WriteFailed? {
      DisconnectStaysClosed(user, c.(err := ERR_IO), sweep);
    }
  }

  lemma StepStaysClosed(user: Program, c: Context, e: Event, sweep: Sweep)
    requires Closing(c)
    ensures StaysClosed(c, Step(user, c, e, sweep))
  {
    hide Disconnect, Free, HandleRead, HandleWrite;
    if Ready(c) {
      match e
      case CommandEvent(_, _, _) =>
      case DisconnectEvent =>
        if c.replies == [] {
          DisconnectStaysClosed(user, c.(flags := c.flags.(disconnecting := true)), sweep);
        }
      case FreeEvent => FreeStaysClosed(user, c.(flags := c.flags.(freeing := true)), sweep);
      case ReadEvent(connect, read) =>
        if Refuses(c, connect) {
          DisconnectStaysClosed(user, c.(err := ERR_IO), sweep);
        } else {
          ReadStaysClosed(user, Connects(c, connect), read, sweep);
        }
      case WriteEvent(connect, write) =>
        if Refuses(c, connect) {
          DisconnectStaysClosed(user, c.(err := ERR_IO), sweep);
        } else {
          WriteStaysClosed(user, Connects(c, connect), write, sweep);
        }
    }
  }

  /** Once a disconnect or free was asked for, no command is ever accepted again. */
  lemma {:induction false} ClosingAcceptsNothing(user: Program, c: Context, ticks: seq<Tick>)
    requires Closing(c)
    ensures StaysClosed(c, Run(user, c, ticks))
    decreases |ticks|
  {
    hide Step;
    if ticks != [] {
      StepStaysClosed(user, c, ticks[0].event, ticks[0].sweep);
      ClosingAcceptsNothing(user, Step(user, c, ticks[0].event, ticks[0].sweep), ticks[1..]);
    }
  }

  /**
   A context asked to disconnect is torn down by the first read after which
   nothing is left to be sent and nothing is left to be answered.
   */
  lemma DisconnectIsDone(user: Program, c: Context, read: Read, sweep: Sweep)
    requires Ready(c) && c.flags.disconnecting && c.flags.connected && c.obuf == ""
    ensures var d := Step(user, c, ReadEvent(InProgress, read), sweep);
            Alive(d) ==> d.replies != []
  {
    hide HandleRead;
    ReadStaysClosed(user, c, read, sweep);
  }

  // ------------------------------------------------------------ after an error

  /** No reply comes out of a context with an error: the next sign of life ends it. */
  lemma {:induction false} ErrorsAreFinal(user: Program, c: Context, ticks: seq<Tick>)
    requires c.err != 0 && !c.flags.inCallback
    ensures Run(user, c, ticks).log.received == c.log.received
    decreases |ticks|
  {
    hide Step;
    if ticks != [] {
      ErrorStep(user, c, ticks[0].event, ticks[0].sweep);
      ErrorsAreFinal(user, Step(user, c, ticks[0].event, ticks[0].sweep), ticks[1..]);
    }
  }

  lemma ErrorStep(user: Program, c: Context, e: Event, sweep: Sweep)
    requires c.err != 0 && !c.flags.inCallback
    ensures var d := Step(user, c, e, sweep);
            d.err != 0 && !d.flags.inCallback && d.log.received == c.log.received
  {
    hide Free, Disconnect, HandleRead, HandleWrite, Issue, Extends, Plainly, Shut;
    if Ready(c) {
      match e
      case CommandEvent(cb, name, args) => IssueGrows(c, cb, name, args);
      case DisconnectEvent =>
        if c.replies == [] {
          ErrorEnds(user, c.(flags := c.flags.(disconnecting := true)), sweep);
        }
      case FreeEvent => FreeStaysClosed(user, c.(flags := c.flags.(freeing := true)), sweep);
      case ReadEvent(connect, read) =>
        ErrorEnds(user, c.(err := ERR_IO), sweep);
        ErrorOfEvent(user, Connects(c, connect), read, WriteAgain, sweep);
      case WriteEvent(connect, write) =>
        ErrorEnds(user, c.(err := ERR_IO), sweep);
        ErrorOfEvent(user, Connects(c, connect), ReadAgain, write, sweep);
    }
  }

  lemma ErrorOfEvent(user: Program, c: Context, read: Read, write: Write, sweep: Sweep)
    requires c.err != 0 && Ready(c)
    ensures var d := HandleRead(user, c, read, sweep);
            d.err != 0 && !d.flags.inCallback && d.log.received == c.log.received
    ensures HandleWrite(user, c, write, sweep) == HandleRead(user, c, read, sweep)
  {
    hide Free, Disconnect, Process;
    ErrorEnds(user, c, sweep);
  }

  lemma ErrorEnds(user: Program, c: Context, sweep: Sweep)
    requires c.err != 0 && Ready(c)
    ensures var d := Disconnect(user, c, sweep);
            d.err != 0 && !d.flags.inCallback && d.log.received == c.log.received
  {
    hide Free;
    FreeStaysClosed(user, c.(flags := c.flags.(disconnecting := true)), sweep);
  }

  /** Looking at a connection that is still being made is such an error. */
  lemma LookingTooEarlyIsFinal(user: Program, c: Context, e: Event, sweep: Sweep, ticks: seq<Tick>)
    requires Ready(c) && !c.flags.connected
    requires (e.ReadEvent? || e.WriteEvent?) && e.connect == InProgress
    ensures Run(user, Step(user, c, e, sweep), ticks).log.received == c.log.received
  {
    ErrorsAreFinal(user, Step(user, c, e, sweep), ticks);
  }
}
