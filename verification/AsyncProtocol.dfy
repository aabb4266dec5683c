/**
 The asynchronous context as a state machine. Every entry point of the library
 is a step, callbacks re-enter the library with any finite list of calls, and
 tearing the context down is itself a sequence of callbacks.
 */
module AsyncProtocol {
  import opened Bytes
  import opened Resp
  import opened CallbackList
  import opened Subscription
  import opened Command
  import S = Streams

  const ERR_IO := 1
  const ERR_OTHER := 2
  const ERR_EOF := 3
  const ERR_PROTOCOL := 4

  /** A callback and the reply it is given; none at teardown. */
  datatype Settled = Settled(cb: Callback, reply: Option<Reply>)

  datatype Flags = Flags(
    connected: bool,
    disconnecting: bool,
    freeing: bool,
    inCallback: bool,
    subscribed: bool,
    monitoring: bool)

  /** Callbacks of commands sent while subscribed, and of channels and patterns. */
  datatype Subscriptions = Subscriptions(
    invalid: seq<Callback>,
    channels: map<string, Callback>,
    patterns: map<string, Callback>)

  /** Which assertion did not hold: about a reply nobody waits for, or about the form of a message. */
  datatype Failure = NoFailure | Spontaneous | BadMessage

  /** What happened so far; the program itself keeps none of this. */
  datatype Log = Log(
    accepted: seq<Callback>,      // the callbacks of accepted commands that wait for a reply
    queued: seq<Callback>,        // every callback put on the reply list
    settled: seq<Settled>,        // every callback taken off the reply list
    calls: seq<Settled>,          // every call of a user's function
    received: seq<Reply>,         // every reply the reader handed out
    arrived: string,              // every byte given to the reader
    issued: string,               // every byte of an accepted command
    sent: string,                 // every byte written to the socket
    plain: bool,                  // no subscribe or monitor command was accepted
    frees: nat,                   // how often the context was torn down
    goodbye: Option<bool>)        // the status the disconnect callback was given

  datatype Context = Context(
    flags: Flags,
    err: int,
    reader: S.State,
    obuf: string,
    replies: seq<Callback>,
    sub: Subscriptions,
    failure: Failure,
    log: Log)

  const NEW_LOG := Log([], [], [], [], [], "", "", "", true, 0, None)

  /** A new context; connecting may already have left an error. */
  function NewContext(err: int): Context {
    Context(Flags(false, false, false, false, false, false), err, S.Live(""), "", [],
            Subscriptions([], map[], map[]), NoFailure, NEW_LOG)
  }

  predicate Closing(c: Context) {
    c.flags.disconnecting || c.flags.freeing
  }

  predicate Alive(c: Context) {
    c.log.frees == 0 && c.failure == NoFailure
  }

  predicate Ready(c: Context) {
    Alive(c) && !c.flags.inCallback
  }

  // ------------------------------------------------------- calls into the library

  /** False for a context that is closing, and for an unsubscribe command without a subscription. */
  predicate Accepts(c: Context, name: string, args: seq<string>) {
    !Closing(c) && (KindOfCommand(name, args) == Unsubscribe ==> c.flags.subscribed)
  }

  /** Registers the callback where its kind of command wants it. */
  function Enlist(c: Context, cb: Callback, name: string, args: seq<string>): Context {
    match KindOfCommand(name, args)
    case Subscribe =>
      var sub := if IsPattern(name + CRLF) then c.sub.(patterns := Registered(c.sub.patterns, args, cb))
                 else c.sub.(channels := Registered(c.sub.channels, args, cb));
      c.(flags := c.flags.(subscribed := true), sub := sub)
    case Unsubscribe => c
    case Monitor => Enqueue(c.(flags := c.flags.(monitoring := true)), cb)
    case Regular =>
      if c.flags.subscribed then c.(sub := c.sub.(invalid := c.sub.invalid + [cb])) else Enqueue(c, cb)
  }

  function Enqueue(c: Context, cb: Callback): Context {
    c.(replies := c.replies + [cb],
       log := c.log.(accepted := c.log.accepted + [cb], queued := c.log.queued + [cb]))
  }

  /** Issues the command with first argument `name`, unless it is refused. */
  function Issue(c: Context, cb: Callback, name: string, args: seq<string>): Context {
    if !Accepts(c, name, args) then c
    else
      var d, cmd := Enlist(c, cb, name, args), CommandBytes([name] + args);
      d.(obuf := d.obuf + cmd,
         log := d.log.(issued := d.log.issued + cmd,
                       plain := d.log.plain && KindOfCommand(name, args) == Regular && !c.flags.subscribed))
  }

  datatype Action = CommandCall(cb: Callback, name: string, args: seq<string>) | DisconnectCall | FreeCall

  /** What users' functions do: the k-th call of one makes any calls, depending on callback and reply. */
  type Program = (nat, Settled) -> seq<Action>

  /** A call from within a callback; disconnecting and freeing are only noted. */
  function Act(c: Context, a: Action): Context {
    match a
    case CommandCall(cb, name, args) => Issue(c, cb, name, args)
    case DisconnectCall => c.(flags := c.flags.(disconnecting := true))
    case FreeCall => c.(flags := c.flags.(freeing := true))
  }

  function Script(c: Context, actions: seq<Action>): Context
    decreases |actions|
  {
    if actions == [] then c else Script(Act(c, actions[0]), actions[1..])
  }

  function SetInCallback(c: Context, on: bool): Context {
    c.(flags := c.flags.(inCallback := on))
  }

  /** A call of a user's function, if there is one, is about to be made. */
  function Called(c: Context, s: Settled): Context {
    if s.cb.fn == 0 then c else c.(log := c.log.(calls := c.log.calls + [s]))
  }

  /** Calls the user's function, if there is one. */
  function RunCallback(user: Program, c: Context, s: Settled): Context {
    if s.cb.fn == 0 then c
    else SetInCallback(Script(SetInCallback(Called(c, s), true), user(|c.log.calls|, s)), false)
  }

  /** Takes the first callback off the reply list. */
  function Settle(c: Context, reply: Option<Reply>): Context
    requires c.replies != []
  {
    c.(replies := c.replies[1..], log := c.log.(settled := c.log.settled + [Settled(c.replies[0], reply)]))
  }

  /** The first callback, taken off for a reply or for none, and called. */
  function Serve(user: Program, c: Context, reply: Option<Reply>): Context
    requires c.replies != []
  {
    RunCallback(user, Settle(c, reply), Settled(c.replies[0], reply))
  }

  // ------------------------------------------------------------- what calls keep

  /** What is behind `a` in `b` has also been added to `x`, giving `y`. */
  predicate Extends<T(==)>(a: seq<T>, b: seq<T>, x: seq<T>, y: seq<T>) {
    a <= b && y == x + b[|a|..]
  }

  lemma ExtendsTwice<T>(a: seq<T>, b: seq<T>, c: seq<T>, x: seq<T>, y: seq<T>, z: seq<T>)
    requires Extends(a, b, x, y) && Extends(b, c, y, z)
    ensures Extends(a, c, x, z)
  {
    assert c[|a|..] == b[|a|..] + c[|b|..];
    Assoc(x, b[|a|..], c[|b|..]);
  }

  lemma ExtendsItself<T>(a: seq<T>, x: seq<T>)
    ensures Extends(a, a, x, x)
  {
    assert a[|a|..] == [];
  }

  lemma ExtendsByOne<T>(a: seq<T>, x: seq<T>, more: seq<T>)
    ensures Extends(a, a + more, x, x + more)
  {
    assert (a + more)[|a|..] == more;
  }

  /** What calls from within a callback may change, and what they may not. */
  predicate Framed(c: Context, d: Context) {
    d == c.(flags := c.flags.(disconnecting := d.flags.disconnecting, freeing := d.flags.freeing,
                              subscribed := d.flags.subscribed, monitoring := d.flags.monitoring),
            replies := d.replies, obuf := d.obuf, sub := d.sub,
            log := c.log.(accepted := d.log.accepted, queued := d.log.queued,
                          issued := d.log.issued, plain := d.log.plain))
    && (c.flags.disconnecting ==> d.flags.disconnecting) && (c.flags.freeing ==> d.flags.freeing)
    && (c.flags.monitoring ==> d.flags.monitoring)
  }

  /** A closing context takes no command. */
  predicate Shut(c: Context, d: Context) {
    Closing(c) ==>
      && d.replies == c.replies && d.obuf == c.obuf && d.sub == c.sub && d.log == c.log
      && d.flags.subscribed == c.flags.subscribed && d.flags.monitoring == c.flags.monitoring
  }

  /** Without subscribe and monitor commands nothing is registered anywhere else. */
  predicate Plainly(c: Context, d: Context) {
    d.log.plain ==>
      && c.log.plain && d.sub == c.sub
      && d.flags.subscribed == c.flags.subscribed && d.flags.monitoring == c.flags.monitoring
  }

  /** What `d` has and `c` has not: flags, and what some accepted commands left. */
  predicate Grown(c: Context, d: Context) {
    && Extends(c.replies, d.replies, c.log.queued, d.log.queued)
    && Extends(c.replies, d.replies, c.log.accepted, d.log.accepted)
    && Extends(c.obuf, d.obuf, c.log.issued, d.log.issued)
    && Framed(c, d) && Shut(c, d) && Plainly(c, d)
  }

  lemma GrownItself(c: Context)
    ensures Grown(c, c)
  {
    ExtendsItself(c.replies, c.log.queued);
    ExtendsItself(c.replies, c.log.accepted);
    ExtendsItself(c.obuf, c.log.issued);
  }

  lemma EnlistGrows(c: Context, cb: Callback, name: string, args: seq<string>)
    requires Accepts(c, name, args)
    ensures var d := Enlist(c, cb, name, args);
            && Extends(c.replies, d.replies, c.log.queued, d.log.queued)
            && Extends(c.replies, d.replies, c.log.accepted, d.log.accepted)
  {
    hide Registered, KindOfCommand;
    ExtendsItself(c.replies, c.log.queued);
    ExtendsItself(c.replies, c.log.accepted);
    ExtendsByOne(c.replies, c.log.queued, [cb]);
    ExtendsByOne(c.replies, c.log.accepted, [cb]);
  }

  lemma IssueGrows(c: Context, cb: Callback, name: string, args: seq<string>)
    ensures Grown(c, Issue(c, cb, name, args))
  {
    hide Registered, KindOfCommand, CommandBytes, Extends;
    if Accepts(c, name, args) {
      EnlistGrows(c, cb, name, args);
      ExtendsByOne(c.obuf, c.log.issued, CommandBytes([name] + args));
    } else {
      GrownItself(c);
    }
  }

  lemma ActGrows(c: Context, a: Action)
    ensures Grown(c, Act(c, a))
  {
    match a
    case CommandCall(cb, name, args) => IssueGrows(c, cb, name, args);
    case DisconnectCall => GrownItself(c);
    case FreeCall => GrownItself(c);
  }

  lemma GrownTwice(c: Context, d: Context, e: Context)
    requires Grown(c, d) && Grown(d, e)
    ensures Grown(c, e)
  {
    hide Extends;
    ExtendsTwice(c.replies, d.replies, e.replies, c.log.queued, d.log.queued, e.log.queued);
    ExtendsTwice(c.obuf, d.obuf, e.obuf, c.log.issued, d.log.issued, e.log.issued);
    ExtendsTwice(c.replies, d.replies, e.replies, c.log.accepted, d.log.accepted, e.log.accepted);
  }

  lemma {:induction false} ScriptGrows(c: Context, actions: seq<Action>)
    ensures Grown(c, Script(c, actions))
    decreases |actions|
  {
    hide Grown, Act;
    if actions == [] {
      GrownItself(c);
    } else {
      ActGrows(c, actions[0]);
      ScriptGrows(Act(c, actions[0]), actions[1..]);
      GrownTwice(c, Act(c, actions[0]), Script(c, actions));
    }
  }

  /** Running a callback is noted as a call; beyond that it is what calls into the library may do. */
  lemma CallbackGrows(user: Program, c: Context, s: Settled)
    requires !c.flags.inCallback
    ensures Grown(Called(c, s), RunCallback(user, c, s))
  {
    hide Extends, Script;
    if s.cb.fn == 0 {
      GrownItself(c);
    } else {
      ScriptGrows(SetInCallback(Called(c, s), true), user(|c.log.calls|, s));
    }
  }

  // ------------------------------------------------------------------- tearing down

  /** The order in which a teardown walks the two tables. */
  datatype Sweep = Sweep(channels: seq<string>, patterns: seq<string>)

  /** Calls every callback that waits for a reply, without one. */
  function DrainReplies(user: Program, c: Context): Context
    requires Closing(c) && !c.flags.inCallback
    decreases |c.replies|
  {
    if c.replies == [] then c
    else
      ServeGrows(user, c, None);
      DrainReplies(user, Serve(user, c, None))
  }

  /** Takes the first callback off the list for commands sent while subscribed. */
  function ShiftInvalid(c: Context): Context
    requires c.sub.invalid != []
  {
    c.(sub := c.sub.(invalid := c.sub.invalid[1..]))
  }

  function DrainInvalid(user: Program, c: Context): Context
    requires Closing(c) && !c.flags.inCallback
    decreases |c.sub.invalid|
  {
    if c.sub.invalid == [] then c
    else
      var s, d := Settled(c.sub.invalid[0], None), ShiftInvalid(c);
      CallbackGrows(user, d, s);
      DrainInvalid(user, RunCallback(user, d, s))
  }

  /** Calls the callbacks of `keys` in a table, without a reply. */
  function SweepTable(user: Program, c: Context, table: map<string, Callback>, keys: seq<string>): Context
    decreases |keys|
  {
    if keys == [] then c
    else
      var d := if keys[0] in table then RunCallback(user, c, Settled(table[keys[0]], None)) else c;
      SweepTable(user, d, table, keys[1..])
  }

  /** Everybody who still waits or is subscribed is called once more, without a reply. */
  function CallEverybody(user: Program, c: Context, sweep: Sweep): Context
    requires Closing(c) && !c.flags.inCallback
  {
    var d := DrainReplies(user, c);
    DrainStaysClosed(user, c);
    var e := DrainInvalid(user, d);
    var f := SweepTable(user, e, e.sub.channels, sweep.channels);
    SweepTable(user, f, f.sub.patterns, sweep.patterns)
  }

  /** The body of the free function: it runs once, on a context that takes no more commands. */
  function Free(user: Program, c: Context, sweep: Sweep): Context
    requires Closing(c) && Ready(c)
  {
    var d := CallEverybody(user, c, sweep);
    d.(log := d.log.(frees := d.log.frees + 1,
                     goodbye := if d.flags.connected then Some(d.flags.freeing || d.err == 0) else None))
  }

  /** The body of the disconnect function: without an error there is nothing left to answer. */
  function Disconnect(user: Program, c: Context, sweep: Sweep): Context
    requires Ready(c) && (c.err == 0 ==> c.replies == [] && c.flags.disconnecting)
  {
    Free(user, if c.err == 0 then c else c.(flags := c.flags.(disconnecting := true)), sweep)
  }

  /** Serving is taking the first callback off, noting its call, and what calls may do. */
  lemma ServeGrows(user: Program, c: Context, reply: Option<Reply>)
    requires c.replies != [] && !c.flags.inCallback
    ensures Grown(Called(Settle(c, reply), Settled(c.replies[0], reply)), Serve(user, c, reply))
  {
    CallbackGrows(user, Settle(c, reply), Settled(c.replies[0], reply));
  }

  /** `d` is further on than `c`, still closing, and has taken no command. */
  predicate StaysClosed(c: Context, d: Context) {
    && Closing(d) && d.log.accepted == c.log.accepted && d.log.issued == c.log.issued
    && d.flags.inCallback == c.flags.inCallback
  }

  lemma {:induction false} DrainStaysClosed(user: Program, c: Context)
    requires Closing(c) && !c.flags.inCallback
    ensures StaysClosed(c, DrainReplies(user, c)) && DrainReplies(user, c).replies == []
    decreases |c.replies|
  {
    if c.replies != [] {
      ServeGrows(user, c, None);
      DrainStaysClosed(user, Serve(user, c, None));
    }
  }

  // ------------------------------------------------------------ one round of a drain

  /** A callback that is called on a closing context leaves it open and closing. */
  lemma CallKeepsOpen(user: Program, c: Context, s: Settled)
    requires Closing(c) && Ready(c)
    ensures var d := RunCallback(user, c, s);
            Closing(d) && Ready(d) && d.sub == c.sub && d.replies == c.replies
  {
    hide Extends, RunCallback;
    CallbackGrows(user, c, s);
  }

  lemma DrainOne(user: Program, c: Context)
    requires Closing(c) && Ready(c)
    ensures c.replies == [] ==> DrainReplies(user, c) == c
    ensures c.replies != [] ==>
              var d := Serve(user, c, None);
              && Closing(d) && Ready(d) && |d.replies| < |c.replies| && d.sub == c.sub
              && DrainReplies(user, c) == DrainReplies(user, d)
  {
    hide RunCallback;
    if c.replies != [] {
      CallKeepsOpen(user, Settle(c, None), Settled(c.replies[0], None));
    }
  }

  lemma DrainOneInvalid(user: Program, c: Context)
    requires Closing(c) && Ready(c)
    ensures c.sub.invalid == [] ==> DrainInvalid(user, c) == c
    ensures c.sub.invalid != [] ==>
              var d := RunCallback(user, ShiftInvalid(c), Settled(c.sub.invalid[0], None));
              && Closing(d) && Ready(d) && d.sub == c.sub.(invalid := c.sub.invalid[1..])
              && DrainInvalid(user, c) == DrainInvalid(user, d)
  {
    hide RunCallback;
    if c.sub.invalid != [] {
      CallKeepsOpen(user, ShiftInvalid(c), Settled(c.sub.invalid[0], None));
    }
  }

  lemma SweepNone(user: Program, c: Context, table: map<string, Callback>)
    ensures SweepTable(user, c, table, []) == c
  {
  }

  lemma {:induction false} SweepSnoc(user: Program, c: Context, table: map<string, Callback>,
                                         keys: seq<string>, k: string)
    requires k in table
    ensures SweepTable(user, c, table, keys + [k]) ==
            RunCallback(user, SweepTable(user, c, table, keys), Settled(table[k], None))
    decreases |keys|
  {
    hide RunCallback;
    if keys == [] {
      assert keys + [k] == [k] && [k][1..] == [];
    } else {
      assert (keys + [k])[1..] == keys[1..] + [k];
      var d := if keys[0] in table then RunCallback(user, c, Settled(table[keys[0]], None)) else c;
      SweepSnoc(user, d, table, keys[1..], k);
    }
  }

  // ------------------------------------------------------------------------ replies

  /** One question to the reader. */
  function Ask(c: Context): S.Outcome<Reply> {
    S.Step(PARSE, c.reader, S.Get)
  }

  function Unread(reader: S.State): nat {
    if reader.Live? then |reader.pending| else 0
  }

  function Receive(c: Context, reply: Reply, reader: S.State): Context {
    c.(reader := reader, log := c.log.(received := c.log.received + [reply]))
  }

  /** Out of a message on a subscribed connection: whose it is, and whether it ends a subscription. */
  predicate WellFormed(message: Reply) {
    message.Array? && |message.items| >= 2 && message.items[0].Bulk? && message.items[1].Bulk?
  }

  predicate Ends(message: Reply)
    requires WellFormed(message)
  {
    EqualsNoCase(WithoutP(CString(message.items[0].text)), UNSUBSCRIBE)
  }

  datatype Found = Malformed(context: Context) | Found(context: Context, cb: Callback)

  /** The callback for a reply on a subscribed connection; the last one used if nothing else is found. */
  function SubscribeCallback(c: Context, reply: Reply, last: Callback): Found {
    if !reply.Array? then
      if c.sub.invalid == [] then Found(c, last) else Found(ShiftInvalid(c), c.sub.invalid[0])
    else if !WellFormed(reply) then Malformed(c)
    else
      var pattern, sname := IsPattern(reply.items[0].text), reply.items[1].text;
      var table := if pattern then c.sub.patterns else c.sub.channels;
      if sname !in table then Found(c, last)
      else if !Ends(reply) then Found(c, table[sname])
      else
        var sub := if pattern then c.sub.(patterns := table - {sname}) else c.sub.(channels := table - {sname});
        if |reply.items| < 3 || !reply.items[2].Integer? then Malformed(c.(sub := sub))
        else Found(c.(sub := sub, flags := c.flags.(subscribed := reply.items[2].value != 0)), table[sname])
  }

  /** The callback a reply goes to, taken from where it was. */
  function Addressee(c: Context, reply: Reply, last: Callback): Found {
    if c.replies != [] then Found(Settle(c, Some(reply)), c.replies[0])
    else if c.flags.subscribed then SubscribeCallback(c, reply, last)
    else Found(c, last)
  }

  /** Finding and running a callback leaves the reader alone and the context alive. */
  lemma DeliveryKeeps(user: Program, c: Context, reply: Reply, last: Callback)
    requires Ready(c)
    ensures match Addressee(c, reply, last)
            case Malformed(_) => true
            case Found(e, cb) =>
              var f := RunCallback(user, e, Settled(cb, Some(reply)));
              Ready(e) && Ready(f) && f.reader == c.reader
  {
    hide WellFormed, Ends, RunCallback, Extends;
    match Addressee(c, reply, last)
    case Malformed(_) =>
    case Found(e, cb) => CallbackGrows(user, e, Settled(cb, Some(reply)));
  }

  /** The assertion that a reply nobody waits for comes on a subscribed or monitoring connection. */
  predicate Unexpected(c: Context, reply: Reply) {
    c.replies == [] && !reply.Error? && !c.flags.subscribed && !c.flags.monitoring
  }

  /** While monitoring, the last callback used is put on the list again. */
  function Repush(c: Context, last: Callback): Context {
    if c.flags.monitoring then
      c.(replies := c.replies + [last], log := c.log.(queued := c.log.queued + [last]))
    else c
  }

  /** Hands out replies as long as there are any, and disconnects when that is due. */
  function Process(user: Program, c: Context, last: Callback, sweep: Sweep): Context
    requires Ready(c)
    decreases Unread(c.reader)
  {
    var got := Ask(c);
    if got.state.Dead? then Disconnect(user, c.(reader := got.state, err := ERR_PROTOCOL), sweep)
    else if got.values == [] then
      if c.flags.disconnecting && c.obuf == "" && c.replies == [] then Disconnect(user, c, sweep)
      else Repush(c, last)
    else
      var reply := got.values[0];
      var d := Receive(c, reply, got.state);
      if d.replies == [] && reply.Error? then Disconnect(user, d.(err := ERR_OTHER), sweep)
      else if Unexpected(d, reply) then d.(failure := Spontaneous)
      else
        match Addressee(d, reply, last)
        case Malformed(e) => e.(failure := BadMessage)
        case Found(e, cb) =>
          DeliveryKeeps(user, d, reply, last);
          var f := RunCallback(user, e, Settled(cb, Some(reply)));
          if cb.fn != 0 && f.flags.freeing then Free(user, f, sweep) else Process(user, f, cb, sweep)
  }

  // ------------------------------------------------------------------------- events

  /** What the socket says the first time it is looked at. */
  datatype Connect = InProgress | Refused | Established

  datatype Read = ReadAgain | ReadFailed | EndOfFile | Arrived(bytes: string)

  datatype Write = WriteAgain | WriteFailed | Wrote(n: nat)

  datatype Event =
    | CommandEvent(cb: Callback, name: string, args: seq<string>)
    | DisconnectEvent
    | FreeEvent
    | ReadEvent(connect: Connect, read: Read)
    | WriteEvent(connect: Connect, write: Write)

  const NO_CALLBACK := Callback(0, 0)

  function AsyncFree(user: Program, c: Context, sweep: Sweep): Context
    requires Alive(c)
  {
    var d := c.(flags := c.flags.(freeing := true));
    if d.flags.inCallback then d else Free(user, d, sweep)
  }

  function AsyncDisconnect(user: Program, c: Context, sweep: Sweep): Context
    requires Alive(c)
  {
    var d := c.(flags := c.flags.(disconnecting := true));
    if !d.flags.inCallback && d.replies == [] then Disconnect(user, d, sweep) else d
  }

  predicate Refuses(c: Context, connect: Connect) {
    !c.flags.connected && connect == Refused
  }

  /** Looking at a connection that is still being made leaves an error behind. */
  function Connects(c: Context, connect: Connect): Context {
    if c.flags.connected then c
    else if connect == Established then c.(flags := c.flags.(connected := true))
    else c.(err := ERR_IO)
  }

  function HandleRead(user: Program, c: Context, read: Read, sweep: Sweep): Context
    requires Ready(c)
  {
    if c.err != 0 then Disconnect(user, c, sweep)
    else
      match read
      case ReadAgain => Process(user, c, NO_CALLBACK, sweep)
      case ReadFailed => Disconnect(user, c.(err := ERR_IO), sweep)
      case EndOfFile => Disconnect(user, c.(err := ERR_EOF), sweep)
      case Arrived(bytes) =>
        if c.reader.Dead? then Disconnect(user, c.(err := ERR_PROTOCOL), sweep)
        else Process(user, Take(c, bytes), NO_CALLBACK, sweep)
  }

  /** Gives bytes to the reader. */
  function Take(c: Context, bytes: string): Context {
    c.(reader := S.Append(c.reader, bytes), log := c.log.(arrived := c.log.arrived + bytes))
  }

  /** A write takes some bytes off the front of the output buffer. */
  function HandleWrite(user: Program, c: Context, write: Write, sweep: Sweep): Context
    requires Ready(c)
  {
    if c.err != 0 then Disconnect(user, c, sweep)
    else if c.obuf == "" then c
    else
      match write
      case WriteAgain => c
      case WriteFailed => Disconnect(user, c.(err := ERR_IO), sweep)
      case Wrote(n) =>
        var k := if n <= |c.obuf| then n else |c.obuf|;
        c.(obuf := c.obuf[k..], log := c.log.(sent := c.log.sent + c.obuf[..k]))
  }

  /** One event on a context; one that is gone, or has failed, sees no more of them. */
  function Step(user: Program, c: Context, e: Event, sweep: Sweep): Context {
    if !Ready(c) then c
    else
      match e
      case CommandEvent(cb, name, args) => Issue(c, cb, name, args)
      case DisconnectEvent => AsyncDisconnect(user, c, sweep)
      case FreeEvent => AsyncFree(user, c, sweep)
      case ReadEvent(connect, read) =>
        if Refuses(c, connect) then Disconnect(user, c.(err := ERR_IO), sweep)
        else
          var d := Connects(c, connect);
          if d.flags.connected then HandleRead(user, d, read, sweep) else d
      case WriteEvent(connect, write) =>
        if Refuses(c, connect) then Disconnect(user, c.(err := ERR_IO), sweep)
        else
          var d := Connects(c, connect);
          if d.flags.connected then HandleWrite(user, d, write, sweep) else d
  }

  /** An event, and the order in which it walks the tables should it tear the context down. */
  datatype Tick = Tick(event: Event, sweep: Sweep)

  function Run(user: Program, c: Context, ticks: seq<Tick>): Context
    decreases |ticks|
  {
    if ticks == [] then c else Run(user, Step(user, c, ticks[0].event, ticks[0].sweep), ticks[1..])
  }

  lemma RunNone(user: Program, c: Context)
    ensures Run(user, c, []) == c
  {
  }

  lemma {:induction false} RunSnoc(user: Program, c: Context, ticks: seq<Tick>, t: Tick)
    ensures Run(user, c, ticks + [t]) == Step(user, Run(user, c, ticks), t.event, t.sweep)
    decreases |ticks|
  {
    hide Step;
    if ticks == [] {
      assert [] + [t] == [t] && [t][1..] == [];
    } else {
      assert (ticks + [t])[1..] == ticks[1..] + [t];
      RunSnoc(user, Step(user, c, ticks[0].event, ticks[0].sweep), ticks[1..], t);
    }
  }
}
