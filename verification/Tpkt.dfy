/**
 Length-framed messages over a TCP session: a version byte, a 24-bit length
 that counts the header, then the payload.
 */
module Tpkt {
  import opened Bytes
  import opened Streams

  const TPKT1_LENGTH := 4
  const TPKT1_MAX_MSG_LENGTH := 0xFFFFFF
  const TPKT_VERSION1_LOW_BYTE := 1 as char

  function ByteOf(n: int): (c: char)
    requires 0 <= n < 256
    ensures c as int == n
  {
    n as char
  }

  /** The header of a message of `length` bytes; lengths are taken modulo 2^24. */
  function Header(length: nat): (h: string)
    ensures |h| == TPKT1_LENGTH
  {
    var n := length + TPKT1_LENGTH;
    [TPKT_VERSION1_LOW_BYTE,
     ByteOf(n % 0x100_0000 / 0x1_0000),
     ByteOf(n % 0x1_0000 / 0x100),
     ByteOf(n % 0x100)]
  }

  /** A version byte of one, then the length of the whole frame in three bytes, the highest first. */
  lemma HeaderOnTheWire(length: nat)
    requires length + 4 <= 0xFFFFFF
    ensures var h := Header(length);
            && |h| == 4 && h[0] == 1 as char
            && (forall i :: 0 <= i < 4 ==> h[i] as int < 256)
            && h[1] as int * 0x1_0000 + h[2] as int * 0x100 + h[3] as int == length + 4
  {
    LengthBytes(length + 4);
  }

  function Frame(msg: string): string {
    Header(|msg|) + msg
  }

  /** The header's length bytes are bytes. */
  predicate IsOctets(s: string) {
    |s| >= TPKT1_LENGTH && (s[1] as int) < 256 && (s[2] as int) < 256 && (s[3] as int) < 256
  }

  function PacketLength(buf: string): nat
    requires |buf| >= TPKT1_LENGTH
  {
    buf[1] as int * 0x1_0000 + buf[2] as int * 0x100 + buf[3] as int
  }

  /** The frame at the front of the input; errors are what a well-formed stream never shows. */
  function ParseFrame(s: string): (p: Parse<string>)
    ensures p.Ok? ==> |p.rest| < |s|
  {
    if |s| < TPKT1_LENGTH then More
    else if !IsOctets(s) || s[0] != TPKT_VERSION1_LOW_BYTE then Bad("TPKT magic number is lost")
    else
      var n := PacketLength(s);
      if n < TPKT1_LENGTH then Bad("packet shorter than its header")
      else if n > |s| then More
      else Ok(s[TPKT1_LENGTH..n], s[n..])
  }

  const PARSE: string -> Parse<string> := s => ParseFrame(s)
  const FRAME: string -> string := m => Frame(m)

  lemma FramesAreStable()
    ensures Stable(PARSE)
  {
    forall s, t | !PARSE(s).More? ensures PARSE(s + t) == Extend(PARSE(s), t) {
      if PARSE(s).Ok? {
        var n := PacketLength(s);
        assert PacketLength(s + t) == n;
        assert (s + t)[TPKT1_LENGTH..n] == s[TPKT1_LENGTH..n] && (s + t)[n..] == s[n..] + t;
      }
    }
  }

  lemma Remainder(d: nat, k: nat, r: nat)
    requires r < d && d in {0x100, 0x1_0000}
    ensures (d * k + r) % d == r
  {
  }

  lemma LowTwoBytes(n: nat)
    ensures n % 0x1_0000 == n % 0x100_0000 % 0x1_0000
  {
    var m, q := n % 0x100_0000, n / 0x100_0000;
    var t, r := m / 0x1_0000, m % 0x1_0000;
    Remainder(0x1_0000, t + 0x100 * q, r);
  }

  lemma LowByte(n: nat)
    ensures n % 0x100 == n % 0x1_0000 % 0x100
  {
    var m, q := n % 0x1_0000, n / 0x1_0000;
    var t, r := m / 0x100, m % 0x100;
    Remainder(0x100, t + 0x100 * q, r);
  }

  lemma LengthBytes(n: nat)
    ensures n % 0x100_0000 / 0x1_0000 * 0x1_0000 + n % 0x1_0000 / 0x100 * 0x100 + n % 0x100 == n % 0x100_0000
  {
    LowTwoBytes(n);
    LowByte(n);
  }

  lemma FrameLength(msg: string, t: string)
    ensures IsOctets(Frame(msg) + t)
    ensures PacketLength(Frame(msg) + t) == (|msg| + TPKT1_LENGTH) % 0x100_0000
  {
    LengthBytes(|msg| + TPKT1_LENGTH);
  }

  /** A frame comes back as the message that was sent, for exactly the messages whose length fits. */
  lemma FrameRoundTripExactly(msg: string, t: string)
    ensures ParseFrame(Frame(msg) + t) == Ok(msg, t) <==> |msg| + 4 <= 0xFFFFFF
    ensures Frame(msg) == Header(|msg|) + msg
  {
    var s, n := Frame(msg) + t, |msg| + TPKT1_LENGTH;
    FrameLength(msg, t);
    assert s[0] == TPKT_VERSION1_LOW_BYTE;
    hide Header, PacketLength;
    if n <= TPKT1_MAX_MSG_LENGTH {
      assert s[TPKT1_LENGTH..n] == msg && s[n..] == t;
    }
  }

  /** What is parsed as a frame is the frame of what is delivered. */
  lemma ParsedIsFramed(s: string)
    requires ParseFrame(s).Ok?
    ensures s == Frame(ParseFrame(s).value) + ParseFrame(s).rest
  {
    var n := PacketLength(s);
    var msg := s[TPKT1_LENGTH..n];
    HeaderOfLength(s[1] as int, s[2] as int, s[3] as int);
    SameHeader(Header(|msg|), s[..TPKT1_LENGTH]);
    assert s == s[..TPKT1_LENGTH] + msg + s[n..];
  }

  lemma SameHeader(a: string, b: string)
    requires |a| == |b| == TPKT1_LENGTH && a[0] == b[0]
    requires a[1] as int == b[1] as int && a[2] as int == b[2] as int && a[3] as int == b[3] as int
    ensures a == b
  {
    assert a[1] == a[1] as int as char && a[2] == a[2] as int as char && a[3] == a[3] as int as char;
  }

  lemma HeaderOfLength(a: int, b: int, c: int)
    requires 0 <= a < 256 && 0 <= b < 256 && 0 <= c < 256
    ensures var n := a * 0x1_0000 + b * 0x100 + c;
            n % 0x100_0000 / 0x1_0000 == a && n % 0x1_0000 / 0x100 == b && n % 0x100 == c
  {
  }

  // ----------------------------------------------------------------- sessions

  class TcpSession {
    var input: string
    var output: string
    var open: bool

    constructor ()
      ensures input == "" && output == "" && open
    {
      input, output, open := "", "", true;
    }

    method Send(data: string) returns (ok: bool)
      modifies this`output
      ensures ok == open && output == if open then old(output) + data else old(output)
    {
      if open {
        output := output + data;
      }
      ok := open;
    }

    /** Takes `size` bytes off the input buffer. */
    method ReadInputBuffer(size: nat) returns (data: string)
      requires size <= |input|
      modifies this`input
      ensures data == old(input)[..size] && input == old(input)[size..]
    {
      data := input[..size];
      input := input[size..];
    }
  }

  class TcpServerTPKT {
    var delivered: seq<string>

    constructor ()
      ensures delivered == []
    {
      delivered := [];
    }

    method OnRead(msg: string)
      modifies this
      ensures delivered == old(delivered) + [msg]
    {
      delivered := delivered + [msg];
    }

    method SendWithTPKT(session: TcpSession, data: string) returns (ok: bool)
      modifies session`output
      ensures ok == session.open
      ensures session.output == if ok then old(session.output) + Frame(data) else old(session.output)
    {
      var header := Header(|data|);
      ok := session.Send(header);
      if !ok {
        return false;
      }
      ok := session.Send(data);
    }

    /** Delivers every complete frame of a well-formed input and keeps the rest. */
    method OnSessionRead(session: TcpSession)
      requires Stable(PARSE) && Drain(PARSE, Live(session.input)).state.Live?
      modifies this, session`input
      ensures var left := Drain(PARSE, Live(old(session.input)));
              delivered == old(delivered) + left.values && Live(session.input) == left.state
    {
      ghost var all := Drain(PARSE, Live(session.input));
      while true
        invariant Drain(PARSE, Live(session.input)).state == all.state
        invariant delivered + Drain(PARSE, Live(session.input)).values == old(delivered) + all.values
        decreases |session.input|
      {
        var length := |session.input|;
        if length < 1 {
          break;
        }
        if length < TPKT1_LENGTH {
          return;
        }
        ghost var before, now := delivered, ParseFrame(session.input);
        var buf := session.input[..TPKT1_LENGTH];
        assert buf[0] == TPKT_VERSION1_LOW_BYTE;
        var packetLength := PacketLength(buf);
        assert packetLength == PacketLength(session.input);
        if packetLength > length {
          break;
        }
        var buffer := session.ReadInputBuffer(packetLength);
        OnRead(buffer[TPKT1_LENGTH..]);
        assert now == Ok(buffer[TPKT1_LENGTH..], session.input);
        Assoc(before, [now.value], Drain(PARSE, Live(session.input)).values);
      }
    }

    /** Bytes arrive in pieces, and the server is called after each. */
    method Receive(session: TcpSession, chunks: seq<string>, ghost earlier: string, ghost msgs: seq<string>)
      requires forall i :: 0 <= i < |msgs| ==> |msgs[i]| + TPKT1_LENGTH <= TPKT1_MAX_MSG_LENGTH
      requires earlier + Concat(chunks) == EncodeAll(FRAME, msgs)
      requires Stable(PARSE) && Outcome(Live(session.input), delivered) == Drain(PARSE, Live(earlier))
      modifies this, session`input
      ensures delivered == msgs && session.input == ""
      decreases |chunks|
    {
      if chunks == [] {
        AllDelivered(msgs);
        assert earlier + "" == earlier;
        return;
      }
      ghost var later := Concat(chunks[1..]);
      ghost var now := earlier + chunks[0];
      assert earlier + Concat(chunks) == now + later;
      session.input := session.input + chunks[0];
      AllDelivered(msgs);
      DrainInTwo(PARSE, Live(earlier), chunks[0]);
      DrainInTwo(PARSE, Live(now), later);
      OnSessionRead(session);
      Receive(session, chunks[1..], now, msgs);
    }
  }

  function Concat(chunks: seq<string>): string {
    if chunks == [] then "" else chunks[0] + Concat(chunks[1..])
  }

  /** Draining the frames of messages that fit gives exactly those messages. */
  lemma AllDelivered(msgs: seq<string>)
    requires forall i :: 0 <= i < |msgs| ==> |msgs[i]| + TPKT1_LENGTH <= TPKT1_MAX_MSG_LENGTH
    ensures Stable(PARSE)
    ensures Drain(PARSE, Live(EncodeAll(FRAME, msgs))) == Outcome(Live(""), msgs)
  {
    FramesAreStable();
    forall i | 0 <= i < |msgs| ensures Returns(PARSE, FRAME, msgs[i]) {
      forall t ensures PARSE(FRAME(msgs[i]) + t) == Ok(msgs[i], t) {
        FrameRoundTripExactly(msgs[i], t);
      }
    }
    DrainEncoded(PARSE, FRAME, msgs, "");
    assert EncodeAll(FRAME, msgs) + "" == EncodeAll(FRAME, msgs);
  }

  /** Between calls the input starts on a frame boundary: delivered frames and input are all there was. */
  lemma InputOnFrameBoundary(received: string)
    ensures Stable(PARSE)
    ensures var left := Drain(PARSE, Live(received));
            left.state.Live? ==> received == EncodeAll(FRAME, left.values) + left.state.pending
  {
    FramesAreStable();
    forall s | PARSE(s).Ok? ensures s == FRAME(PARSE(s).value) + PARSE(s).rest {
      ParsedIsFramed(s);
    }
    DrainConserves(PARSE, FRAME, received);
  }
}
