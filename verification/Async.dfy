/**
 The asynchronous context itself: flags, buffers, a reply reader and linked
 lists of callbacks. Each entry point does what its step of the protocol says,
 also when callbacks re-enter it; the recursion ends because a call from within
 a callback only notes what is to be done.
 */
module Async {
  import opened Bytes
  import opened Resp
  import opened CallbackList
  import opened Subscription
  import opened Command
  import opened Reader
  import ReaderRuns
  import P = AsyncProtocol
  import Safety = AsyncSafety
  import Teardown = AsyncTeardown
  import S = Streams
  import opened Dict
  import opened DictIterator
  import opened SubscriptionTables

  class AsyncContext {
    const user: P.Program
    const reader: RedisReader
    const replies: CallbackList
    const invalid: CallbackList
    const sub: SubscriptionTables
    var flags: P.Flags
    var err: int
    var obuf: string
    var failure: P.Failure      // which assertion did not hold
    var freed: bool             // the memory has been released
    var ran: nat                // what users' functions remember: how often one was called

    ghost var log: P.Log

    /** The context itself with its lists and its reader; the hash tables are apart. */
    ghost var repr: set<object>

    ghost predicate Parts()
      reads `repr, replies, replies.nodes, invalid, invalid.nodes, reader, reader.rstack, reader.nodes, sub, sub.repr
      ensures Parts() ==> reader.BufferOk() && {this, replies, invalid, reader} <= repr && repr !! sub.repr
      ensures Parts() ==> sub !in repr && sub.channels !in repr && sub.patterns !in repr
    {
      && {this, replies, invalid, reader, reader.rstack} <= repr && repr !! sub.repr
      && (forall n :: n in replies.nodes ==> n in repr) && (forall n :: n in invalid.nodes ==> n in repr)
      && reader.nodes <= repr
      && reader.BufferOk() && reader.Valid() && replies.Valid() && invalid.Valid() && replies != invalid
      && sub.Valid()
    }

    ghost predicate Valid()
      reads this, replies, replies.nodes, invalid, invalid.nodes, reader, reader.rstack, reader.nodes, sub, sub.repr
    {
      Parts() && freed == (log.frees > 0) && ran == |log.calls|
    }

    ghost function State(): P.Context
      requires reader.BufferOk()
      reads this, replies`nodes, invalid`nodes, reader, sub.channels`contents, sub.patterns`contents
    {
      P.Context(flags, err, ReaderRuns.StateOf(reader), obuf, replies.Contents(),
                P.Subscriptions(invalid.Contents(), sub.channels.contents, sub.patterns.contents), failure, log)
    }

    /** A call changes the hash tables only as long as the context is not closing. */
    ghost function Open(objects: set<object>): set<object>
      reads `flags
    {
      if flags.disconnecting || flags.freeing then {} else objects
    }

    constructor (user: P.Program, err: int)
      ensures Valid() && fresh(repr) && fresh(sub.repr)
      ensures this.user == user && State() == P.NewContext(err)
    {
      hide SubscriptionTables.Valid, RedisReader.Valid, CallbackList.Valid, Dict.Valid, Parts;
      this.user := user;
      reader := new RedisReader();
      sub := new SubscriptionTables();
      replies := new CallbackList();
      invalid := new CallbackList();
      flags := P.Flags(false, false, false, false, false, false);
      this.err, obuf, failure, freed, ran := err, "", P.NoFailure, false, 0;
      log := P.NEW_LOG;
      new;
      Own();
    }

    /** Takes possession of new and empty parts. */
    ghost method Own()
      requires reader.Valid() && replies.Valid() && invalid.Valid() && sub.Valid() && replies != invalid
      requires replies.nodes == [] && invalid.nodes == [] && reader.nodes == {}
      requires {this, replies, invalid, reader, reader.rstack} !! sub.repr
      modifies `repr
      ensures Parts() && repr == {this, replies, invalid, reader, reader.rstack}
    {
      hide SubscriptionTables.Valid, RedisReader.Resting, CallbackList.Valid;
      repr := {this, replies, invalid, reader, reader.rstack};
    }

    // ------------------------------------------------------- calls into the library

    /** False when the command is refused; `cmd` is the formatted command. */
    method AsyncCommand(cb: Callback, cmd: string, ghost name: string, ghost args: seq<string>) returns (ok: bool)
      requires Valid() && cmd == CommandBytes([name] + args)
      modifies repr
      modifies Open(sub.repr)
      ensures Valid() && fresh(repr - old(repr)) && fresh(sub.repr - old(sub.repr))
      ensures State() == P.Issue(old(State()), cb, name, args) && ok == P.Accepts(old(State()), name, args)
    {
      hide KindOfCommand, CommandBytes, P.Enlist, HasKind, IsPattern;
      hide Parts, RedisReader.BufferOk, ReaderRuns.StateOf;
      if flags.disconnecting || flags.freeing {
        return false;
      }
      var kind, pattern, p := Recognise(cmd, name, args);
      if kind == Unsubscribe && !flags.subscribed {
        return false;
      }
      ghost var wasSubscribed := flags.subscribed;
      Enlist(cb, cmd, kind, pattern, p, name, args);
      obuf := obuf + cmd;
      log := log.(issued := log.issued + cmd, plain := log.plain && kind == Regular && !wasSubscribed);
      ok := true;
    }

    /** Registers the callback where the kind of command wants it. */
    method Enlist(cb: Callback, cmd: string, kind: CommandKind, pattern: bool, p: nat,
                  ghost name: string, ghost args: seq<string>)
      requires Valid() && cmd == CommandBytes([name] + args)
      requires kind == KindOfCommand(name, args) && pattern == IsPattern(name + CRLF)
      requires p == NextArgument.Offset([name] + args, 1) <= |cmd|
      modifies repr
      modifies sub.repr
      ensures Valid() && fresh(repr - old(repr)) && fresh(sub.repr - old(sub.repr))
      ensures State() == P.Enlist(old(State()), cb, name, args)
    {
      hide KindOfCommand, CommandBytes, NextArgument.Offset, IsPattern, Registered;
      hide RedisReader.Valid, RedisReader.BufferOk, ReaderRuns.StateOf, CallbackList.Valid, SubscriptionTables.Valid;
      match kind
      case Subscribe =>
        flags := flags.(subscribed := true);
        sub.Register(pattern, cb, cmd, p, name, args);
      case Unsubscribe =>
      case Monitor =>
        flags := flags.(monitoring := true);
        PushReply(cb);
      case Regular =>
        if flags.subscribed {
          PushInvalid(cb);
        } else {
          PushReply(cb);
        }
    }

    method PushReply(cb: Callback)
      requires Valid()
      modifies repr
      ensures Valid() && fresh(repr - old(repr)) && State() == P.Enqueue(old(State()), cb)
    {
      hide Parts, RedisReader.BufferOk, ReaderRuns.StateOf;
      PushWaiting(cb);
      log := log.(accepted := log.accepted + [cb], queued := log.queued + [cb]);
    }

    /** Appends to the reply list. */
    method PushWaiting(cb: Callback)
      requires Valid()
      modifies repr
      ensures Valid() && fresh(repr - old(repr))
      ensures State() == old(State()).(replies := old(State()).replies + [cb])
    {
      hide RedisReader.Valid, RedisReader.BufferOk, ReaderRuns.StateOf, CallbackList.Valid, SubscriptionTables.Valid;
      invalid.Owned();
      replies.Owned();
      replies.Push(cb);
      repr := repr + set n | n in replies.nodes;
    }

    /** Appends to the list of callbacks of commands sent while subscribed. */
    method PushInvalid(cb: Callback)
      requires Valid()
      modifies repr
      ensures Valid() && fresh(repr - old(repr))
      ensures State() == old(State()).(sub := old(State()).sub.(invalid := old(State()).sub.invalid + [cb]))
    {
      hide RedisReader.Valid, RedisReader.BufferOk, ReaderRuns.StateOf, CallbackList.Valid, SubscriptionTables.Valid;
      invalid.Owned();
      replies.Owned();
      invalid.Push(cb);
      repr := repr + set n | n in invalid.nodes;
    }

    method NoneWaits() returns (empty: bool)
      requires Valid()
      ensures empty == (State().replies == [])
    {
      empty := replies.IsEmpty();
    }

    method AsyncFree() returns (ghost sweep: P.Sweep)
      requires Valid() && P.Alive(State())
      modifies repr
      ensures Valid() && fresh(repr - old(repr)) && State() == P.AsyncFree(user, old(State()), sweep)
      ensures freed ==> Walked(sweep)
      decreases if flags.inCallback then 0 else 1, 4
    {
      hide Parts, RedisReader.BufferOk, ReaderRuns.StateOf;
      hide P.Free;
      sweep := P.Sweep([], []);
      flags := flags.(freeing := true);
      if !flags.inCallback {
        sweep := FreeContext();
      }
    }

    method AsyncDisconnect() returns (ghost sweep: P.Sweep)
      requires Valid() && P.Alive(State())
      modifies repr
      ensures Valid() && fresh(repr - old(repr)) && State() == P.AsyncDisconnect(user, old(State()), sweep)
      ensures freed ==> Walked(sweep)
      decreases if flags.inCallback then 0 else 1, 5
    {
      hide Parts, RedisReader.BufferOk, ReaderRuns.StateOf;
      hide P.Disconnect;
      sweep := P.Sweep([], []);
      flags := flags.(disconnecting := true);
      var empty := NoneWaits();
      if !flags.inCallback && empty {
        sweep := DisconnectContext();
      }
    }

    /** Both tables were walked from end to end. */
    ghost predicate Walked(sweep: P.Sweep)
      reads sub.channels`contents, sub.patterns`contents
    {
      && Teardown.Enumerates(sweep.channels, sub.channels.contents)
      && Teardown.Enumerates(sweep.patterns, sub.patterns.contents)
    }

    // ---------------------------------------------------------------------- callbacks

    /** Whatever a user's function does, call by call. */
    method CallUser(actions: seq<P.Action>)
      requires Valid() && P.Alive(State()) && flags.inCallback
      modifies repr
      modifies Open(sub.repr)
      ensures Valid() && fresh(repr - old(repr)) && fresh(sub.repr - old(sub.repr))
      ensures State() == P.Script(old(State()), actions)
      decreases 0, 7
    {
      hide Parts, RedisReader.BufferOk, ReaderRuns.StateOf;
      hide P.Act, P.Grown;
      assert actions[0..] == actions;
      for i := 0 to |actions|
        invariant Valid() && fresh(repr - old(repr)) && P.Alive(State()) && flags.inCallback
        invariant P.Closing(old(State())) ==> P.Closing(State())
        invariant fresh(sub.repr - old(sub.repr))
        invariant P.Script(State(), actions[i..]) == P.Script(old(State()), actions)
      {
        ghost var c := State();
        StillInside(c, actions[i]);
        assert actions[i..][1..] == actions[i + 1..];
        CallOne(actions[i]);
      }
    }

    /** One call from within a callback. */
    method CallOne(action: P.Action)
      requires Valid() && P.Alive(State()) && flags.inCallback
      modifies repr
      modifies Open(sub.repr)
      ensures Valid() && fresh(repr - old(repr)) && fresh(sub.repr - old(sub.repr))
      ensures State() == P.Act(old(State()), action)
      decreases 0, 6
    {
      hide Parts, RedisReader.BufferOk, ReaderRuns.StateOf;
      hide P.Issue, P.Free, P.Disconnect;
      match action
      case CommandCall(cb, name, args) =>
        var ok := AsyncCommand(cb, CommandBytes([name] + args), name, args);
      case DisconnectCall =>
        ghost var sweep := AsyncDisconnect();
      case FreeCall =>
        ghost var sweep := AsyncFree();
    }

    /** A call from within a callback does not end the callback, or the context. */
    lemma StillInside(c: P.Context, action: P.Action)
      requires P.Alive(c) && c.flags.inCallback
      ensures P.Alive(P.Act(c, action)) && P.Act(c, action).flags.inCallback
      ensures P.Closing(c) ==> P.Closing(P.Act(c, action))
    {
      hide P.Extends, P.Act;
      P.ActGrows(c, action);
    }

    method RunCallback(s: P.Settled)
      requires Valid() && P.Ready(State())
      modifies repr
      modifies Open(sub.repr)
      ensures Valid() && fresh(repr - old(repr)) && fresh(sub.repr - old(sub.repr))
      ensures State() == P.RunCallback(user, old(State()), s)
      decreases 1, 0
    {
      hide Parts, RedisReader.BufferOk, ReaderRuns.StateOf;
      hide P.Script;
      if s.cb.fn != 0 {
        var actions := user(ran, s);
        BeginCallback(s);
        CallUser(actions);
        flags := flags.(inCallback := false);
      }
    }

    method BeginCallback(s: P.Settled)
      requires Valid() && s.cb.fn != 0
      modifies this`flags, this`ran, this`log
      ensures Valid() && State() == P.SetInCallback(P.Called(old(State()), s), true)
    {
      hide Parts, RedisReader.BufferOk, ReaderRuns.StateOf;
      flags, ran, log := flags.(inCallback := true), ran + 1, log.(calls := log.calls + [s]);
    }

    method ShiftCallback(reply: Option<Reply>) returns (cb: Option<Callback>)
      requires Valid()
      modifies this`log, replies
      ensures Valid()
      ensures cb == if old(State()).replies == [] then None else Some(old(State()).replies[0])
      ensures State() == if old(State()).replies == [] then old(State()) else P.Settle(old(State()), reply)
    {
      hide RedisReader.Valid, RedisReader.BufferOk, ReaderRuns.StateOf, CallbackList.Valid, SubscriptionTables.Valid;
      cb := replies.Shift();
      if cb.Some? {
        log := log.(settled := log.settled + [P.Settled(cb.value, reply)]);
      }
    }

    method ShiftInvalid() returns (cb: Option<Callback>)
      requires Valid()
      modifies invalid
      ensures Valid()
      ensures cb == if old(State()).sub.invalid == [] then None else Some(old(State()).sub.invalid[0])
      ensures State() == if old(State()).sub.invalid == [] then old(State()) else P.ShiftInvalid(old(State()))
    {
      hide RedisReader.Valid, RedisReader.BufferOk, ReaderRuns.StateOf, CallbackList.Valid, SubscriptionTables.Valid;
      cb := invalid.Shift();
    }

    // -------------------------------------------------------------------- tearing down

    /** Everybody who waits for a reply is called without one. */
    method DrainReplies()
      requires Valid() && P.Ready(State()) && P.Closing(State())
      modifies repr
      ensures Valid() && fresh(repr - old(repr)) && State() == P.DrainReplies(user, old(State()))
      ensures P.Ready(State()) && P.Closing(State())
      decreases 1, 1
    {
      hide Parts, RedisReader.BufferOk, ReaderRuns.StateOf;
      hide P.RunCallback, P.Grown, P.DrainReplies;
      while true
        invariant Valid() && fresh(repr - old(repr)) && P.Ready(State()) && P.Closing(State())
        invariant P.DrainReplies(user, State()) == P.DrainReplies(user, old(State()))
        decreases |State().replies|
      {
        P.DrainOne(user, State());
        var cb := ShiftCallback(None);
        if cb == None {
          break;
        }
        RunCallback(P.Settled(cb.value, None));
      }
    }

    method DrainInvalid()
      requires Valid() && P.Ready(State()) && P.Closing(State())
      modifies repr
      ensures Valid() && fresh(repr - old(repr)) && State() == P.DrainInvalid(user, old(State()))
      ensures P.Ready(State()) && P.Closing(State())
      decreases 1, 1
    {
      hide Parts, RedisReader.BufferOk, ReaderRuns.StateOf;
      hide P.RunCallback, P.Grown, P.DrainInvalid;
      while true
        invariant Valid() && fresh(repr - old(repr)) && P.Ready(State()) && P.Closing(State())
        invariant P.DrainInvalid(user, State()) == P.DrainInvalid(user, old(State()))
        decreases |State().sub.invalid|
      {
        P.DrainOneInvalid(user, State());
        var cb := ShiftInvalid();
        if cb == None {
          break;
        }
        RunCallback(P.Settled(cb.value, None));
      }
    }

    lemma TableIsValid(table: Dict)
      requires Valid() && (table == sub.channels || table == sub.patterns)
      ensures table.Valid() && table.Shape() && table !in repr
    {
      hide RedisReader.Valid, RedisReader.BufferOk, CallbackList.Valid, Dict.Shape, Dict.Indexed;
      sub.BothValid();
    }

    /** Calls the callback of one entry of a table. */
    method SweepEntry(table: Dict, de: DictEntry, ghost start: P.Context, ghost keys: seq<string>)
      requires Valid() && P.Ready(State()) && P.Closing(State())
      requires (table == sub.channels || table == sub.patterns) && table.Valid() && de in Flatten(table.chains)
      requires State() == P.SweepTable(user, start, table.contents, keys)
      modifies repr
      ensures Valid() && fresh(repr - old(repr)) && P.Ready(State()) && P.Closing(State())
      ensures table.Valid() && table.Shape() && unchanged(table)
      ensures State() == P.SweepTable(user, start, table.contents, keys + [de.key])
      decreases 1, 1
    {
      hide Parts, RedisReader.BufferOk, ReaderRuns.StateOf;
      hide P.RunCallback, P.Grown, P.SweepTable, Dict.Valid, Dict.Shape, Flatten;
      TableIsValid(table);
      EntryHolds(table, de);
      P.SweepSnoc(user, start, table.contents, keys, de.key);
      P.CallKeepsOpen(user, State(), P.Settled(de.val, None));
      RunCallback(P.Settled(de.val, None));
      TableIsValid(table);
    }

    /** Walks a whole hash table with its iterator; callbacks of a closing context do not change it. */
    method SweepTable(table: Dict) returns (ghost keys: seq<string>)
      requires Valid() && P.Ready(State()) && P.Closing(State())
      requires table == sub.channels || table == sub.patterns
      modifies repr
      ensures Valid() && fresh(repr - old(repr)) && State() == P.SweepTable(user, old(State()), table.contents, keys)
      ensures P.Ready(State()) && P.Closing(State())
      ensures Teardown.Enumerates(keys, table.contents)
      decreases 1, 2
    {
      hide Parts, RedisReader.BufferOk, State, P.Ready, P.Closing, P.SweepTable;
      hide Dict.Valid, Dict.Shape, DictIterator.Valid, DictIterator.Todo, DictIterator.Reached, Flatten;
      ghost var visited: Chain := [];
      TableIsValid(table);
      keys := [];
      P.SweepNone(user, State(), table.contents);
      var iter := new DictIterator(table);
      var de := iter.Start();
      while de != null
        invariant Valid() && fresh(repr - old(repr)) && P.Ready(State()) && P.Closing(State())
        invariant table.Valid() && table.Shape() && table !in repr
        invariant iter.Reached(visited, de) && iter.ht == table && fresh(iter) && iter !in repr
        invariant keys == KeysOf(visited)
        invariant State() == P.SweepTable(user, old(State()), table.contents, keys)
        decreases |Flatten(table.chains)| - |visited|
      {
        var e: DictEntry := de;
        iter.ReachedEntry(visited, e);
        SweepEntry(table, e, old(State()), keys);
        KeysOfSnoc(visited, e);
        de := iter.Advance(visited, e);
        visited, keys := visited + [e], keys + [e.key];
      }
      iter.ReachedEnd(visited);
      EveryKeyOnce(table);
    }

    /** The body of the free function, with its four drains. */
    method FreeContext() returns (ghost sweep: P.Sweep)
      requires Valid() && P.Ready(State()) && P.Closing(State())
      modifies repr
      ensures Valid() && fresh(repr - old(repr)) && State() == P.Free(user, old(State()), sweep)
      ensures Walked(sweep)
      decreases 1, 3
    {
      hide Parts, RedisReader.BufferOk, ReaderRuns.StateOf;
      hide P.DrainReplies, P.DrainInvalid, P.SweepTable;
      DrainReplies();
      DrainInvalid();
      ghost var first := SweepTable(sub.channels);
      ghost var second := SweepTable(sub.patterns);
      sweep := P.Sweep(first, second);
      freed := true;
      log := log.(frees := log.frees + 1,
                  goodbye := if flags.connected then Some(flags.freeing || err == 0) else None);
    }

    method DisconnectContext() returns (ghost sweep: P.Sweep)
      requires Valid() && P.Ready(State())
      requires err == 0 ==> State().replies == [] && flags.disconnecting
      modifies repr
      ensures Valid() && fresh(repr - old(repr)) && State() == P.Disconnect(user, old(State()), sweep)
      ensures Walked(sweep)
      decreases 1, 4
    {
      hide Parts, RedisReader.BufferOk, ReaderRuns.StateOf;
      hide P.Free;
      if err == 0 {
        var cb := ShiftCallback(None);
        assert cb == None;
      } else {
        flags := flags.(disconnecting := true);
      }
      sweep := FreeContext();
    }

    // ------------------------------------------------------------------------ replies

    /** Asks the reader; an error of the reader becomes the context's. A reply is read out of its tree. */
    method GetReply() returns (ok: bool, reply: Option<Reply>)
      requires Valid()
      modifies repr
      ensures Valid() && fresh(repr - old(repr))
      ensures var got, c := P.Ask(old(State())), old(State());
              && ok == !got.state.Dead?
              && (!ok ==> State() == c.(reader := got.state, err := P.ERR_PROTOCOL))
              && (ok && got.values == [] ==> reply == None && State() == c)
              && (ok && got.values != [] ==>
                    reply == Some(got.values[0]) && State() == P.Receive(c, got.values[0], got.state))
    {
      hide RedisReader.Valid, CallbackList.Valid, SubscriptionTables.Valid, Represents, Unshared;
      ghost var got := P.Ask(State());
      var r, tree := AskReader();
      ok, reply := reader.err == 0, None;
      if !ok {
        err := reader.err;
      } else if r != null {
        var v := ReadTree(r, got.values[0], tree);
        reply := Some(v);
        log := log.(received := log.received + [v]);
      }
    }

    /** The reader's own call. */
    method AskReader() returns (r: ReplyNode?, ghost tree: set<ReplyNode>)
      requires Valid()
      modifies repr
      ensures Valid() && fresh(repr - old(repr))
      ensures var got := P.Ask(old(State()));
              && State() == old(State()).(reader := got.state)
              && (got.values == [] ==> r == null)
              && (got.values != [] ==> r != null && Represents(r, got.values[0], tree))
      ensures reader.err == if State().reader.Live? then 0 else P.ERR_PROTOCOL
    {
      hide RedisReader.Valid, RedisReader.BufferOk, ReaderRuns.StateOf, CallbackList.Valid, SubscriptionTables.Valid;
      hide Represents, Unshared, S.Step;
      r, tree := ReaderRuns.Call(reader, S.Get);
      repr := repr + reader.nodes;
      ErrorOfReader();
    }

    lemma ErrorOfReader()
      requires reader.Valid()
      ensures reader.BufferOk()
      ensures reader.err == if ReaderRuns.StateOf(reader).Live? then 0 else P.ERR_PROTOCOL
    {
      hide RedisReader.Resting;
    }

    /** Who a reply nobody waits for belongs to, on a subscribed connection; false for a malformed message. */
    method GetSubscribeCallback(reply: Reply, last: Callback) returns (ok: bool, cb: Callback)
      requires Valid()
      modifies this`flags, invalid, sub.repr
      ensures Valid() && fresh(repr - old(repr)) && fresh(sub.repr - old(sub.repr))
      ensures match P.SubscribeCallback(old(State()), reply, last)
              case Malformed(c) => !ok && State() == c
              case Found(c, found) => ok && cb == found && State() == c
    {
      hide RedisReader.Valid, RedisReader.BufferOk, ReaderRuns.StateOf, CallbackList.Valid, SubscriptionTables.Valid;
      hide EqualsNoCase, IsPattern, WithoutP, CString;
      ok, cb := true, last;
      if !reply.Array? {
        var shifted := ShiftInvalid();
        if shifted.Some? {
          cb := shifted.value;
        }
        return;
      }
      if |reply.items| < 2 || !reply.items[0].Bulk? || !reply.items[1].Bulk? {
        return false, last;
      }
      var stype, sname := reply.items[0].text, reply.items[1].text;
      var pvariant := IsPattern(stype);
      var registered := sub.Find(pvariant, sname);
      if registered.Some? {
        cb := registered.value;
        if EqualsNoCase(WithoutP(CString(stype)), UNSUBSCRIBE) {
          sub.Remove(pvariant, sname);
          if |reply.items| < 3 || !reply.items[2].Integer? {
            return false, last;
          }
          flags := flags.(subscribed := reply.items[2].value != 0);
        }
      }
    }

    /** Without a reply: the awaited disconnect, or the last callback back on the list while monitoring. */
    method NoReply(last: Callback) returns (ghost sweep: P.Sweep)
      requires Valid() && P.Ready(State())
      modifies repr
      ensures Valid() && fresh(repr - old(repr)) && (freed ==> Walked(sweep))
      ensures var c := old(State());
              State() == if c.flags.disconnecting && c.obuf == "" && c.replies == []
                         then P.Disconnect(user, c, sweep) else P.Repush(c, last)
    {
      hide Parts, RedisReader.BufferOk, ReaderRuns.StateOf;
      hide P.Disconnect;
      sweep := P.Sweep([], []);
      var empty := NoneWaits();
      if flags.disconnecting && obuf == "" && empty {
        sweep := DisconnectContext();
      } else if flags.monitoring {
        PushWaiting(last);
        log := log.(queued := log.queued + [last]);
      }
    }

    /** Who gets a reply; without anybody the context is closed, or an assertion fails. */
    method FindCallback(reply: Reply, last: Callback) returns (found: bool, cb: Callback, ghost sweep: P.Sweep)
      requires Valid() && P.Ready(State())
      modifies repr
      modifies sub.repr
      ensures fresh(sub.repr - old(sub.repr))
      ensures Valid() && fresh(repr - old(repr)) && (freed ==> Walked(sweep))
      ensures var c := old(State());
              if c.replies == [] && reply.Error? then
                !found && State() == P.Disconnect(user, c.(err := P.ERR_OTHER), sweep)
              else if P.Unexpected(c, reply) then !found && State() == c.(failure := P.Spontaneous)
              else
                match P.Addressee(c, reply, last)
                case Malformed(d) => !found && State() == d.(failure := P.BadMessage)
                case Found(d, who) => found && cb == who && State() == d
    {
      hide Parts, RedisReader.BufferOk, ReaderRuns.StateOf;
      hide P.Disconnect, P.SubscribeCallback;
      found, cb, sweep := false, last, P.Sweep([], []);
      var shifted := ShiftCallback(Some(reply));
      if shifted.Some? {
        return true, shifted.value, sweep;
      }
      if reply.Error? {
        err := P.ERR_OTHER;
        sweep := DisconnectContext();
        return;
      }
      if !flags.subscribed && !flags.monitoring {
        failure := P.Spontaneous;
        return;
      }
      found := true;
      if flags.subscribed {
        found, cb := GetSubscribeCallback(reply, last);
        if !found {
          failure := P.BadMessage;
        }
      }
    }

    /** Hands out one reply, if the reader has one; `more` says whether to ask for another. */
    method ProcessReply(last: Callback) returns (more: bool, cb: Callback, ghost sweep: P.Sweep)
      requires Valid() && P.Ready(State())
      modifies repr
      modifies sub.repr
      ensures fresh(sub.repr - old(sub.repr))
      ensures Valid() && fresh(repr - old(repr))
      ensures freed && !more ==> Walked(sweep)
      ensures !more ==> State() == P.Process(user, old(State()), last, sweep)
      ensures more ==>
                P.Ready(State()) && P.Unread(State().reader) < P.Unread(old(State()).reader) &&
                forall s :: P.Process(user, old(State()), last, s) == P.Process(user, State(), cb, s)
    {
      hide Parts, RedisReader.BufferOk, ReaderRuns.StateOf;
      hide P.Disconnect, P.Free, P.RunCallback, S.Step, P.WellFormed, P.Ends;
      ghost var c := State();
      more, cb, sweep := false, last, P.Sweep([], []);
      var ok, reply := GetReply();
      if !ok {
        sweep := DisconnectContext();
        return;
      }
      if reply == None {
        sweep := NoReply(last);
        return;
      }
      Safety.AskShrinks(c);
      ghost var d := State();
      P.DeliveryKeeps(user, d, reply.value, last);
      var found;
      found, cb, sweep := FindCallback(reply.value, last);
      if !found {
        return;
      }
      RunCallback(P.Settled(cb, reply));
      if cb.fn != 0 && flags.freeing {
        sweep := FreeContext();
        return;
      }
      more := true;
    }

    /** Hands out replies until the reader has no more, or the context comes to its end. */
    method ProcessCallbacks() returns (ghost sweep: P.Sweep)
      requires Valid() && P.Ready(State())
      modifies repr
      modifies sub.repr
      ensures fresh(sub.repr - old(sub.repr))
      ensures Valid() && fresh(repr - old(repr)) && (freed ==> Walked(sweep))
      ensures State() == P.Process(user, old(State()), P.NO_CALLBACK, sweep)
    {
      hide Parts, RedisReader.BufferOk, ReaderRuns.StateOf;
      hide P.Process;
      var more, cb := true, P.NO_CALLBACK;
      sweep := P.Sweep([], []);
      while more
        invariant Valid() && fresh(repr - old(repr))
        invariant fresh(sub.repr - old(sub.repr))
        invariant freed && !more ==> Walked(sweep)
        invariant !more ==> State() == P.Process(user, old(State()), P.NO_CALLBACK, sweep)
        invariant more ==>
                    P.Ready(State()) &&
                    forall s :: P.Process(user, old(State()), P.NO_CALLBACK, s) == P.Process(user, State(), cb, s)
        decreases more, P.Unread(State().reader)
      {
        more, cb, sweep := ProcessReply(cb);
      }
    }

    // ------------------------------------------------------------------------- events

    /** False if the connection was refused, and the context is gone. */
    method HandleConnect(connect: P.Connect) returns (ok: bool, ghost sweep: P.Sweep)
      requires Valid() && P.Ready(State()) && !flags.connected
      modifies repr
      ensures Valid() && fresh(repr - old(repr)) && ok == (connect != P.Refused) && (freed ==> Walked(sweep))
      ensures State() == if ok then P.Connects(old(State()), connect)
                         else P.Disconnect(user, old(State()).(err := P.ERR_IO), sweep)
    {
      hide Parts, RedisReader.BufferOk, ReaderRuns.StateOf;
      hide P.Disconnect;
      sweep := P.Sweep([], []);
      ok := CheckSocketError(connect);
      if !ok {
        if connect == P.InProgress {
          return true, sweep;
        }
        sweep := DisconnectContext();
        return;
      }
      flags := flags.(connected := true);
    }

    /** A socket that is not connected, or not yet, leaves an error. */
    method CheckSocketError(connect: P.Connect) returns (ok: bool)
      requires Valid()
      modifies this`err
      ensures Valid() && ok == (connect == P.Established)
      ensures State() == if ok then old(State()) else old(State()).(err := P.ERR_IO)
    {
      hide Parts, RedisReader.BufferOk, ReaderRuns.StateOf;
      ok := connect == P.Established;
      if !ok {
        err := P.ERR_IO;
      }
    }

    /** What the socket gave, or false after an error, old or new. */
    method BufferRead(read: P.Read) returns (ok: bool)
      requires Valid()
      modifies this`err, this`log, reader
      ensures Valid() && ok == (old(err) == 0 && (read.ReadAgain? || (read.Arrived? && old(State()).reader.Live?)))
      ensures reader.nodes == old(reader.nodes)
      ensures ok && read.Arrived? ==> State() == P.Take(old(State()), read.bytes)
      ensures ok && !read.Arrived? ==> State() == old(State())
      ensures !ok ==> err != 0
      ensures !ok ==>
                State() == old(State()).(err := if old(err) != 0 then old(err)
                                                else if read.ReadFailed? then P.ERR_IO
                                                else if read.EndOfFile? then P.ERR_EOF
                                                else P.ERR_PROTOCOL)
    {
      hide Parts, RedisReader.BufferOk, ReaderRuns.StateOf;
      if err != 0 {
        return false;
      }
      ok := true;
      match read
      case ReadAgain =>
      case ReadFailed =>
        err := P.ERR_IO;
        ok := false;
      case EndOfFile =>
        err := P.ERR_EOF;
        ok := false;
      case Arrived(bytes) =>
        ok := FeedReader(bytes);
    }

    /** Gives bytes to the reader; an error of the reader becomes the context's. */
    method FeedReader(bytes: string) returns (ok: bool)
      requires Valid()
      modifies this`err, this`log, reader
      ensures Valid() && ok == old(State()).reader.Live? && reader.nodes == old(reader.nodes)
      ensures State() == if ok then P.Take(old(State()), bytes) else old(State()).(err := P.ERR_PROTOCOL)
    {
      hide CallbackList.Valid, SubscriptionTables.Valid, RedisReader.Resting;
      var fed := reader.Feed(bytes);
      ok := fed;
      if ok {
        log := log.(arrived := log.arrived + bytes);
      } else {
        err := reader.err;
      }
    }

    method HandleRead(connect: P.Connect, read: P.Read) returns (ghost sweep: P.Sweep)
      requires Valid() && P.Ready(State())
      modifies repr
      modifies sub.repr
      ensures fresh(sub.repr - old(sub.repr))
      ensures Valid() && fresh(repr - old(repr)) && (freed ==> Walked(sweep))
      ensures State() == P.Step(user, old(State()), P.ReadEvent(connect, read), sweep)
    {
      hide Parts, RedisReader.BufferOk, ReaderRuns.StateOf;
      hide P.HandleRead, P.Disconnect;
      if !flags.connected {
        var ok;
        ok, sweep := HandleConnect(connect);
        if !ok || !flags.connected {
          return;
        }
      }
      sweep := ReadReplies(read);
    }

    method ReadReplies(read: P.Read) returns (ghost sweep: P.Sweep)
      requires Valid() && P.Ready(State())
      modifies repr
      modifies sub.repr
      ensures fresh(sub.repr - old(sub.repr))
      ensures Valid() && fresh(repr - old(repr)) && (freed ==> Walked(sweep))
      ensures State() == P.HandleRead(user, old(State()), read, sweep)
    {
      hide Parts, RedisReader.BufferOk, ReaderRuns.StateOf;
      hide P.Process, P.Disconnect;
      var ok := BufferRead(read);
      if ok {
        sweep := ProcessCallbacks();
      } else {
        sweep := DisconnectContext();
      }
    }

    /** Writes what the socket takes off the front of the output buffer; false after an error. */
    method BufferWrite(write: P.Write) returns (ok: bool, done: bool)
      requires Valid() && P.Ready(State())
      modifies this`err, this`obuf, this`log
      ensures Valid() && (ok ==> done == (obuf == ""))
      ensures !ok ==> State() == old(State()).(err := if old(err) == 0 then P.ERR_IO else old(err)) && err != 0
      ensures ok == (old(err) == 0 && !(old(obuf) != "" && write.WriteFailed?))
      ensures ok ==> forall s :: State() == P.HandleWrite(user, old(State()), write, s)
    {
      hide Parts, RedisReader.BufferOk, ReaderRuns.StateOf;
      ok, done := true, false;
      if err != 0 {
        return false, false;
      }
      if |obuf| > 0 {
        match write
        case WriteAgain =>
        case WriteFailed =>
          err := P.ERR_IO;
          return false, false;
        case Wrote(n) =>
          var nwritten := if n <= |obuf| then n else |obuf|;
          log := log.(sent := log.sent + obuf[..nwritten]);
          if nwritten == |obuf| {
            obuf := "";
          } else {
            obuf := obuf[nwritten..];
          }
      }
      done := |obuf| == 0;
    }

    method FlushOutput(write: P.Write) returns (ghost sweep: P.Sweep)
      requires Valid() && P.Ready(State())
      modifies repr
      ensures Valid() && fresh(repr - old(repr)) && (freed ==> Walked(sweep))
      ensures State() == P.HandleWrite(user, old(State()), write, sweep)
    {
      hide Parts, RedisReader.BufferOk, ReaderRuns.StateOf;
      hide P.Disconnect;
      sweep := P.Sweep([], []);
      var ok, done := BufferWrite(write);
      if !ok {
        sweep := DisconnectContext();
      }
    }

    method HandleWrite(connect: P.Connect, write: P.Write) returns (ghost sweep: P.Sweep)
      requires Valid() && P.Ready(State())
      modifies repr
      ensures Valid() && fresh(repr - old(repr)) && (freed ==> Walked(sweep))
      ensures State() == P.Step(user, old(State()), P.WriteEvent(connect, write), sweep)
    {
      hide Parts, RedisReader.BufferOk, ReaderRuns.StateOf;
      hide P.HandleWrite, P.Disconnect;
      if !flags.connected {
        var ok;
        ok, sweep := HandleConnect(connect);
        if !ok || !flags.connected {
          return;
        }
      }
      sweep := FlushOutput(write);
    }

    /** One event; the application and the event loop do not touch a context that is gone. */
    method Handle(e: P.Event) returns (ghost sweep: P.Sweep)
      requires Valid()
      modifies repr
      modifies sub.repr
      ensures fresh(sub.repr - old(sub.repr))
      ensures Valid() && fresh(repr - old(repr)) && (freed && !old(freed) ==> Walked(sweep))
      ensures old(freed) ==> freed
      ensures State() == P.Step(user, old(State()), e, sweep)
    {
      hide Parts, RedisReader.BufferOk, ReaderRuns.StateOf;
      hide P.HandleRead, P.HandleWrite, P.Disconnect, P.Free, P.Issue, P.Extends;
      sweep := P.Sweep([], []);
      if flags.inCallback || failure != P.NoFailure || freed {
        return;
      }
      match e
      case CommandEvent(cb, name, args) =>
        P.IssueGrows(State(), cb, name, args);
        var ok := AsyncCommand(cb, CommandBytes([name] + args), name, args);
      case DisconnectEvent => sweep := AsyncDisconnect();
      case FreeEvent => sweep := AsyncFree();
      case ReadEvent(connect, read) => sweep := HandleRead(connect, read);
      case WriteEvent(connect, write) => sweep := HandleWrite(connect, write);
    }
  }

  /** A context driven by any events, with users' functions that make any calls. */
  method Drive(user: P.Program, err: int, events: seq<P.Event>) returns (ac: AsyncContext, ghost ticks: seq<P.Tick>)
    ensures |ticks| == |events| && forall i :: 0 <= i < |events| ==> ticks[i].event == events[i]
    ensures ac.Valid() && ac.State() == P.Run(user, P.NewContext(err), ticks)
    ensures S.Stable(PARSE) && (ac.log.plain ==> Safety.SettledInOrder(ac.State()))
    ensures ac.log.plain && !ac.freed ==>
              (ac.failure == P.Spontaneous <==> |ac.log.accepted| < |Safety.Stream(ac.State())|)
    ensures ac.freed ==>
              exists i, b :: 0 <= i < |ticks| && Teardown.TearsDown(user, P.NewContext(err), ticks, i, b)
  {
    hide P.Step, AsyncContext.Parts, ReaderRuns.StateOf, Safety.SettledInOrder;
    hide Teardown.TearsDown;
    ac := new AsyncContext(user, err);
    ticks := [];
    ghost var end: nat, b := 0, P.NewContext(err);
    P.RunNone(user, P.NewContext(err));
    for i := 0 to |events|
      invariant fresh(ac.repr) && fresh(ac.sub.repr)
      invariant ac.Valid() && ac.user == user
      invariant |ticks| == i && forall k :: 0 <= k < i ==> ticks[k].event == events[k]
      invariant ac.State() == P.Run(user, P.NewContext(err), ticks)
      invariant ac.freed ==> end < i && Teardown.TearsDown(user, P.NewContext(err), ticks, end, b)
    {
      ghost var was := ac.freed;
      ghost var sweep := ac.Handle(events[i]);
      ghost var tick := P.Tick(events[i], sweep);
      P.RunSnoc(user, P.NewContext(err), ticks, tick);
      if was {
        Teardown.TearsDownStill(user, P.NewContext(err), ticks, tick, end, b);
      } else if ac.freed {
        end := i;
        b := Teardown.TearsDownNow(user, P.NewContext(err), ticks, tick);
      }
      ticks := ticks + [tick];
    }
    Safety.CallbacksSettledInOrder(user, err, ticks);
    Safety.FailsExactlyOnSurplusReply(user, err, ticks);
  }
}
