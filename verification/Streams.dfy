/**
 Parsing a stream that arrives in pieces. A parser of whole prefixes is fed and
 asked in any order; if more bytes never revise a decided answer, what comes
 out depends on the concatenated bytes alone.
 */
module Streams {
  import opened Bytes

  /** What a stream holds at its front: too little, an error, or a value and what follows it. */
  datatype Parse<+T> = More | Bad(message: string) | Ok(value: T, rest: string)

  function Extend<T>(p: Parse<T>, t: string): Parse<T> {
    if p.Ok? then Ok(p.value, p.rest + t) else p
  }

  /** Values take at least one byte, and a decided prefix decides the stream. */
  ghost predicate Stable<T(!new)>(parse: string -> Parse<T>) {
    && (forall s :: parse(s).Ok? ==> |parse(s).rest| < |s|)
    && (forall s, t :: !parse(s).More? ==> parse(s + t) == Extend(parse(s), t))
  }

  datatype Op = Feed(data: string) | Get

  /** `Dead` is a sticky error state. */
  datatype State = Live(pending: string) | Dead(message: string)

  datatype Outcome<+T> = Outcome(state: State, values: seq<T>)

  function Step<T>(parse: string -> Parse<T>, st: State, op: Op): Outcome<T> {
    match (st, op)
    case (Dead(_), _) => Outcome(st, [])
    case (Live(p), Feed(data)) => Outcome(Live(p + data), [])
    case (Live(p), Get) =>
      match parse(p)
      case More => Outcome(st, [])
      case Bad(m) => Outcome(Dead(m), [])
      case Ok(v, rest) => Outcome(Live(rest), [v])
  }

  function Run<T>(parse: string -> Parse<T>, st: State, ops: seq<Op>): Outcome<T>
    decreases |ops|
  {
    if ops == [] then Outcome(st, [])
    else
      var first := Step(parse, st, ops[0]);
      var others := Run(parse, first.state, ops[1..]);
      Outcome(others.state, first.values + others.values)
  }

  /** Asking until nothing more comes. */
  ghost function Drain<T(!new)>(parse: string -> Parse<T>, st: State): Outcome<T>
    requires Stable(parse)
    decreases if st.Live? then |st.pending| else 0
  {
    if st.Dead? then Outcome(st, [])
    else
      match parse(st.pending)
      case More => Outcome(st, [])
      case Bad(m) => Outcome(Dead(m), [])
      case Ok(v, rest) =>
        var others := Drain(parse, Live(rest));
        Outcome(others.state, [v] + others.values)
  }

  /** All bytes offered, in order. */
  function FedBytes(ops: seq<Op>): string {
    if ops == [] then ""
    else (if ops[0].Feed? then ops[0].data else "") + FedBytes(ops[1..])
  }

  function Append(st: State, data: string): State {
    if st.Live? then Live(st.pending + data) else st
  }

  ghost function ThenDrain<T(!new)>(parse: string -> Parse<T>, run: Outcome<T>): Outcome<T>
    requires Stable(parse)
  {
    var left := Drain(parse, run.state);
    Outcome(left.state, run.values + left.values)
  }

  /** What a run emitted, plus what is still to be had, is a matter of the bytes alone. */
  lemma {:induction false} RunThenDrain<T(!new)>(parse: string -> Parse<T>, st: State, ops: seq<Op>)
    requires Stable(parse)
    ensures ThenDrain(parse, Run(parse, st, ops)) == Drain(parse, Append(st, FedBytes(ops)))
    decreases |ops|
  {
    if ops == [] {
      assert st.Live? ==> st.pending + "" == st.pending;
    } else {
      var first := Step(parse, st, ops[0]);
      var later := FedBytes(ops[1..]);
      RunThenDrain(parse, first.state, ops[1..]);
      var others := Run(parse, first.state, ops[1..]);
      var left := Drain(parse, others.state);
      assert first.values + others.values + left.values == first.values + (others.values + left.values);
      StepThenDrain(parse, st, ops[0], later);
    }
  }

  /** One step, seen through a later drain. */
  lemma StepThenDrain<T(!new)>(parse: string -> Parse<T>, st: State, op: Op, later: string)
    requires Stable(parse)
    ensures var first := Step(parse, st, op);
            var all := Drain(parse, Append(st, (if op.Feed? then op.data else "") + later));
            var left := Drain(parse, Append(first.state, later));
            all == Outcome(left.state, first.values + left.values)
  {
    if st.Live? {
      var p := st.pending;
      if op.Feed? {
        assert p + op.data + later == p + (op.data + later);
      } else {
        assert "" + later == later;
        assert !parse(p).More? ==> parse(p + later) == Extend(parse(p), later);
      }
    }
  }

  /** Two runs that were fed the same bytes cannot be told apart once both are drained. */
  lemma ChunkIndependence<T(!new)>(parse: string -> Parse<T>, ops: seq<Op>, ops': seq<Op>)
    requires Stable(parse) && FedBytes(ops) == FedBytes(ops')
    ensures ThenDrain(parse, Run(parse, Live(""), ops)) == ThenDrain(parse, Run(parse, Live(""), ops'))
  {
    RunThenDrain(parse, Live(""), ops);
    RunThenDrain(parse, Live(""), ops');
  }

  /** Draining early, and again after more bytes, is draining once at the end. */
  lemma {:induction false} DrainInTwo<T(!new)>(parse: string -> Parse<T>, st: State, data: string)
    requires Stable(parse)
    ensures var early := Drain(parse, st);
            ThenDrain(parse, Outcome(Append(early.state, data), early.values)) == Drain(parse, Append(st, data))
    decreases if st.Live? then |st.pending| else 0
  {
    if st.Live? && !parse(st.pending).More? {
      var p := st.pending;
      assert parse(p + data) == Extend(parse(p), data);
      if parse(p).Ok? {
        var rest := Live(parse(p).rest);
        DrainInTwo(parse, rest, data);
        var early := Drain(parse, rest);
        var late := Drain(parse, Append(early.state, data));
        ConsAppend([parse(p).value] + early.values, late.values);
      }
    }
  }

  // --------------------------------------------------------- encoded streams

  function EncodeAll<T>(encode: T -> string, vs: seq<T>): string {
    if vs == [] then "" else encode(vs[0]) + EncodeAll(encode, vs[1..])
  }

  /** The parser gives `v` back from its encoding and leaves exactly what follows. */
  ghost predicate Returns<T>(parse: string -> Parse<T>, encode: T -> string, v: T) {
    forall t :: parse(encode(v) + t) == Ok(v, t)
  }

  lemma {:induction false} DrainEncoded<T(!new)>(parse: string -> Parse<T>, encode: T -> string, vs: seq<T>, t: string)
    requires Stable(parse) && forall i :: 0 <= i < |vs| ==> Returns(parse, encode, vs[i])
    ensures Drain(parse, Live(EncodeAll(encode, vs) + t)) == ThenDrain(parse, Outcome(Live(t), vs))
    decreases |vs|
  {
    if vs == [] {
      assert EncodeAll(encode, vs) + t == t;
    } else {
      var tail := EncodeAll(encode, vs[1..]) + t;
      assert EncodeAll(encode, vs) + t == encode(vs[0]) + tail;
      DrainFirst(parse, encode, vs[0], tail);
      DrainEncoded(parse, encode, vs[1..], t);
      ConsAppend(vs, Drain(parse, Live(t)).values);
    }
  }

  lemma ConsAppend<T>(vs: seq<T>, ws: seq<T>)
    requires vs != []
    ensures vs + ws == [vs[0]] + (vs[1..] + ws)
  {
  }

  /** A parser that only takes values apart from their own encodings loses no byte. */
  lemma {:induction false} DrainConserves<T(!new)>(parse: string -> Parse<T>, encode: T -> string, p: string)
    requires Stable(parse)
    requires forall s :: parse(s).Ok? ==> s == encode(parse(s).value) + parse(s).rest
    ensures var left := Drain(parse, Live(p));
            left.state.Live? ==> p == EncodeAll(encode, left.values) + left.state.pending
    decreases |p|
  {
    if parse(p).Ok? {
      var v, rest := parse(p).value, parse(p).rest;
      DrainConserves(parse, encode, rest);
      var left := Drain(parse, Live(rest));
      assert ([v] + left.values)[1..] == left.values;
      if left.state.Live? {
        Assoc(encode(v), EncodeAll(encode, left.values), left.state.pending);
      }
    } else {
      assert "" + p == p;
    }
  }

  lemma DrainFirst<T(!new)>(parse: string -> Parse<T>, encode: T -> string, v: T, tail: string)
    requires Stable(parse) && Returns(parse, encode, v)
    ensures var left := Drain(parse, Live(tail));
            Drain(parse, Live(encode(v) + tail)) == Outcome(left.state, [v] + left.values)
  {
    assert parse(encode(v) + tail) == Ok(v, tail);
  }

  /** However the encoding of a list of values is cut up, exactly that list comes out. */
  lemma EncodedValuesArrive<T(!new)>(parse: string -> Parse<T>, encode: T -> string, vs: seq<T>, ops: seq<Op>)
    requires Stable(parse) && forall i :: 0 <= i < |vs| ==> Returns(parse, encode, vs[i])
    requires parse("").More?
    requires FedBytes(ops) == EncodeAll(encode, vs)
    ensures ThenDrain(parse, Run(parse, Live(""), ops)) == Outcome(Live(""), vs)
  {
    RunThenDrain(parse, Live(""), ops);
    DrainEncoded(parse, encode, vs, "");
    assert "" + EncodeAll(encode, vs) == EncodeAll(encode, vs) + "";
  }
}
