/**
 Whole runs of the reader: any mixture of feeding and asking, with the bytes
 cut anywhere, delivers what one pass over the concatenated bytes delivers.
 */
module ReaderRuns {
  import opened Resp
  import opened Streams
  import opened Reader

  /** Two runs fed the same bytes cannot be told apart once both are drained, errors included. */
  lemma ReaderChunkIndependence(ops: seq<Op>, ops': seq<Op>)
    requires FedBytes(ops) == FedBytes(ops')
    ensures Stable(PARSE)
    ensures ThenDrain(PARSE, Run(PARSE, Live(""), ops)) == ThenDrain(PARSE, Run(PARSE, Live(""), ops'))
  {
    RepliesAreStable();
    ChunkIndependence(PARSE, ops, ops');
  }

  lemma {:induction false} EncodingsAgree(rs: seq<Reply>)
    ensures EncodeAll(ENCODE, rs) == EncodeItems(rs)
  {
    if rs != [] {
      EncodingsAgree(rs[1..]);
    }
  }

  lemma RepliesReturn(rs: seq<Reply>)
    requires forall i :: 0 <= i < |rs| ==> Clean(rs[i]) && Nesting(rs[i]) <= 8
    ensures Stable(PARSE) && forall i :: 0 <= i < |rs| ==> Returns(PARSE, ENCODE, rs[i])
    ensures EncodeAll(ENCODE, rs) == EncodeItems(rs) && PARSE("").More?
  {
    RepliesAreStable();
    EncodingsAgree(rs);
    forall i | 0 <= i < |rs| ensures Returns(PARSE, ENCODE, rs[i]) {
      forall t ensures PARSE(ENCODE(rs[i]) + t) == Ok(rs[i], t) {
        RoundTripExactly(rs[i], t);
      }
    }
  }

  /** However the encodings of a list of replies are cut up, exactly that list comes out. */
  lemma EncodedRepliesArrive(rs: seq<Reply>, ops: seq<Op>)
    requires forall i :: 0 <= i < |rs| ==> Clean(rs[i]) && Nesting(rs[i]) <= 8
    requires FedBytes(ops) == EncodeItems(rs)
    ensures Stable(PARSE)
    ensures ThenDrain(PARSE, Run(PARSE, Live(""), ops)) == Outcome(Live(""), rs)
  {
    RepliesReturn(rs);
    EncodedValuesArrive(PARSE, ENCODE, rs, ops);
  }

  /** All at once, they are drained to that list. */
  lemma EncodedRepliesDrain(rs: seq<Reply>)
    requires forall i :: 0 <= i < |rs| ==> Clean(rs[i]) && Nesting(rs[i]) <= 8
    ensures Stable(PARSE) && Drain(PARSE, Live(EncodeItems(rs))) == Outcome(Live(""), rs)
  {
    hide Stable, Clean, Nesting, Returns;
    RepliesReturn(rs);
    DrainEncoded(PARSE, ENCODE, rs, "");
    assert EncodeItems(rs) + "" == EncodeItems(rs) && rs + [] == rs;
  }

  // ------------------------------------------------ an actual reader does this

  ghost function StateOf(r: RedisReader): State
    requires r.BufferOk()
    reads r
  {
    if r.err == 0 then Live(r.Pending()) else Dead(r.errstr)
  }

  /** `n` is an intact tree for the reply `v`, and none of its nodes belongs to the reader. */
  ghost predicate Given(r: RedisReader, n: ReplyNode, v: Reply, tree: set<ReplyNode>)
    reads r, tree
  {
    tree !! r.nodes && Represents(n, v, tree) && Unshared(n, v, tree)
  }

  /** The trees handed out so far are intact, share nothing with each other and no longer touched by the reader. */
  ghost predicate HandedOut(r: RedisReader, got: seq<ReplyNode>, trees: seq<set<ReplyNode>>, values: seq<Reply>)
    reads r, set t, n | t in trees && n in t :: n
  {
    && |got| == |trees| == |values|
    && (forall i :: 0 <= i < |got| ==> Given(r, got[i], values[i], trees[i]))
    && (forall i, j :: 0 <= i < j < |got| ==> trees[i] !! trees[j])
  }

  /** One call on a reader is one step of a run. */
  method Call(r: RedisReader, op: Op) returns (n: ReplyNode?, ghost tree: set<ReplyNode>)
    requires r.Valid()
    modifies r, r.rstack, r.nodes
    ensures r.Valid() && fresh(r.nodes - old(r.nodes)) && fresh(tree - old(r.nodes)) && tree !! r.nodes
    ensures StateOf(r) == Step(PARSE, old(StateOf(r)), op).state
    ensures Step(PARSE, old(StateOf(r)), op).values == [] ==> n == null
    ensures Step(PARSE, old(StateOf(r)), op).values != [] ==>
              && n != null && Represents(n, Step(PARSE, old(StateOf(r)), op).values[0], tree)
              && Unshared(n, Step(PARSE, old(StateOf(r)), op).values[0], tree)
  {
    hide RedisReader.Resting, Represents, Unshared, ParseItem;
    match op
    case Feed(data) =>
      var ok := r.Feed(data);
      n, tree := null, {};
    case Get =>
      var ok;
      ok, n, tree := r.GetReply();
  }

  lemma RunOneMore<T>(parse: string -> Parse<T>, st: State, ops: seq<Op>)
    requires ops != []
    ensures var first := Step(parse, st, ops[0]);
            var others := Run(parse, first.state, ops[1..]);
            |first.values| <= 1 && Run(parse, st, ops) == Outcome(others.state, first.values + others.values)
  {
  }

  /** Any sequence of calls on a reader is a run, and leaves every earlier reply as it was. */
  method Drive(r: RedisReader, ops: seq<Op>) returns (got: seq<ReplyNode>, ghost trees: seq<set<ReplyNode>>)
    requires r.Valid()
    modifies r, r.rstack, r.nodes
    ensures r.Valid() && fresh(r.nodes - old(r.nodes))
    ensures StateOf(r) == Run(PARSE, old(StateOf(r)), ops).state
    ensures HandedOut(r, got, trees, Run(PARSE, old(StateOf(r)), ops).values)
    ensures forall t :: t in trees ==> fresh(t - old(r.nodes))
    decreases |ops|
  {
    hide RedisReader.Resting, Represents, Unshared, HandedOut, Step;
    if ops == [] {
      NothingHandedOut(r);
      return [], [];
    }
    ghost var values := Run(PARSE, StateOf(r), ops).values;
    ghost var first := Step(PARSE, StateOf(r), ops[0]).values;
    RunOneMore(PARSE, StateOf(r), ops);
    var n, tree := Call(r, ops[0]);
    got, trees := Drive(r, ops[1..]);
    if n != null {
      HandOutFirst(r, n, tree, first[0], got, trees, values[1..]);
      got, trees := [n] + got, [tree] + trees;
      assert values == [first[0]] + values[1..];
    } else {
      assert values == values[0..];
    }
  }

  lemma NothingHandedOut(r: RedisReader)
    ensures HandedOut(r, [], [], [])
  {
  }

  lemma HandOutFirst(r: RedisReader, n: ReplyNode, tree: set<ReplyNode>, v: Reply,
                     got: seq<ReplyNode>, trees: seq<set<ReplyNode>>, values: seq<Reply>)
    requires HandedOut(r, got, trees, values)
    requires Given(r, n, v, tree)
    requires forall t :: t in trees ==> tree !! t
    ensures HandedOut(r, [n] + got, [tree] + trees, [v] + values)
  {
    hide Given;
    var got', trees', values' := [n] + got, [tree] + trees, [v] + values;
    forall i | 0 <= i < |got'| ensures Given(r, got'[i], values'[i], trees'[i]) {
      if i > 0 {
        assert Given(r, got[i - 1], values[i - 1], trees[i - 1]);
      }
    }
    forall i, j | 0 <= i < j < |got'| ensures trees'[i] !! trees'[j] {
      assert trees'[j] == trees[j - 1];
      if i > 0 {
        assert trees[i - 1] !! trees[j - 1];
      } else {
        assert trees[j - 1] in trees;
      }
    }
  }
}
