/**
 The Redis serialization protocol (RESP2): replies, their encoding, and a
 recursive-descent parser over a whole byte stream. This parser is what the
 incremental reader is proved against.
 */
module Resp {
  import opened Bytes
  import opened Streams

  /** `count` is the announced number of elements; it is negative only for a malformed count. */
  datatype Reply =
    | Nil
    | Status(text: string)
    | Error(text: string)
    | Bulk(text: string)
    | Integer(value: int)
    | Array(count: int, items: seq<Reply>)

  datatype Kind = StatusKind | ErrorKind | IntegerKind | BulkKind | ArrayKind

  /** Deepest level of the task stack; an array may not start there. */
  const MAX_DEPTH := 8

  function KindOf(c: char): Option<Kind> {
    if c == '-' then Some(ErrorKind)
    else if c == '+' then Some(StatusKind)
    else if c == ':' then Some(IntegerKind)
    else if c == '$' then Some(BulkKind)
    else if c == '*' then Some(ArrayKind)
    else None
  }

  // ------------------------------------------------------------ error texts

  const TOO_DEEP := "No support for nested multi bulk replies with depth > 7"

  /** A byte in double quotes, escaped the way the reader reports it. */
  function QuotedByte(c: char): string {
    "\"" + Escape(c) + "\""
  }

  function BadTypeByte(c: char): string {
    "Protocol error, got " + QuotedByte(c) + " as reply type byte"
  }

  // ----------------------------------------------------------------- parsing

  function ParseItem(s: string, depth: nat): (p: Parse<Reply>)
    ensures p.Ok? ==> |p.rest| < |s|
    decreases |s|, 0
  {
    if s == "" then More
    else
      match KindOf(s[0])
      case None => Bad(BadTypeByte(s[0]))
      case Some(kind) => ParseBody(kind, s[1..], depth)
  }

  /** The rest of an item whose type byte has been read. */
  function ParseBody(kind: Kind, s: string, depth: nat): (p: Parse<Reply>)
    ensures p.Ok? ==> |p.rest| < |s|
    decreases |s|, 2
  {
    if kind == ArrayKind && depth == MAX_DEPTH then Bad(TOO_DEEP)
    else
      match FindCrlf(s)
      case None => More
      case Some(n) => ParseLine(kind, s[..n], s[n + 2..], depth)
  }

  /** An item whose first line is complete; `rest` is what follows that line. */
  function ParseLine(kind: Kind, line: string, rest: string, depth: nat): (p: Parse<Reply>)
    ensures p.Ok? ==> |p.rest| <= |rest|
    decreases |rest|, 2
  {
    match kind
    case StatusKind => Ok(Status(line), rest)
    case ErrorKind => Ok(Error(line), rest)
    case IntegerKind => Ok(Integer(ReadNumber(line)), rest)
    case BulkKind => ParseBulk(ReadNumber(line), rest)
    case ArrayKind => ParseArray(ReadNumber(line), rest, depth)
  }

  function ParseArray(count: int, rest: string, depth: nat): (p: Parse<Reply>)
    ensures p.Ok? ==> |p.rest| <= |rest|
    decreases |rest|, 1, count + 2
  {
    if count == -1 then Ok(Nil, rest)
    else if count <= 0 then Ok(Array(count, []), rest)
    else
      match ParseItems(count, rest, depth + 1)
      case More => More
      case Bad(m) => Bad(m)
      case Ok(items, rest') => Ok(Array(count, items), rest')
  }

  /** The two bytes after the payload are skipped unread. */
  function ParseBulk(len: int, rest: string): (p: Parse<Reply>)
    ensures p.Ok? ==> |p.rest| <= |rest|
  {
    if len < 0 then Ok(Nil, rest)
    else if len + 2 <= |rest| then Ok(Bulk(rest[..len]), rest[len + 2..])
    else More
  }

  function ParseItems(n: nat, s: string, depth: nat): (p: Parse<seq<Reply>>)
    ensures p.Ok? ==> |p.rest| <= |s| && |p.value| == n
    decreases |s|, 1, n
  {
    if n == 0 then Ok([], s)
    else
      match ParseItem(s, depth)
      case More => More
      case Bad(m) => Bad(m)
      case Ok(first, rest) =>
        match ParseItems(n - 1, rest, depth)
        case More => More
        case Bad(m) => Bad(m)
        case Ok(others, rest') => Ok([first] + others, rest')
  }

  // ------------------------------------- a decided prefix decides the stream

  lemma {:induction false} ParseItemExtends(s: string, t: string, depth: nat)
    requires !ParseItem(s, depth).More?
    ensures ParseItem(s + t, depth) == Extend(ParseItem(s, depth), t)
    decreases |s|, 0
  {
    assert (s + t)[1..] == s[1..] + t;
    if KindOf(s[0]).Some? {
      ParseBodyExtends(KindOf(s[0]).value, s[1..], t, depth);
    }
  }

  lemma {:induction false} ParseBodyExtends(kind: Kind, s: string, t: string, depth: nat)
    requires !ParseBody(kind, s, depth).More?
    ensures ParseBody(kind, s + t, depth) == Extend(ParseBody(kind, s, depth), t)
    decreases |s|, 2
  {
    if kind == ArrayKind && depth == MAX_DEPTH {
      return;
    }
    FindCrlfExtends(s, t);
    var n := FindCrlf(s).value;
    assert (s + t)[..n] == s[..n] && (s + t)[n + 2..] == s[n + 2..] + t;
    ParseLineExtends(kind, s[..n], s[n + 2..], t, depth);
  }

  lemma {:induction false} ParseLineExtends(kind: Kind, line: string, rest: string, t: string, depth: nat)
    requires !ParseLine(kind, line, rest, depth).More?
    ensures ParseLine(kind, line, rest + t, depth) == Extend(ParseLine(kind, line, rest, depth), t)
    decreases |rest|, 2
  {
    var n := ReadNumber(line);
    if kind == BulkKind && 0 <= n {
      assert (rest + t)[..n] == rest[..n];
      assert (rest + t)[n + 2..] == rest[n + 2..] + t;
    } else if kind == ArrayKind && n > 0 {
      ParseItemsExtends(n, rest, t, depth + 1);
    }
  }

  lemma {:induction false} ParseItemsExtends(n: nat, s: string, t: string, depth: nat)
    requires !ParseItems(n, s, depth).More?
    ensures ParseItems(n, s + t, depth) == Extend(ParseItems(n, s, depth), t)
    decreases |s|, 1, n
  {
    if n > 0 {
      ParseItemExtends(s, t, depth);
      var p := ParseItem(s, depth);
      if p.Ok? {
        ParseItemsExtends(n - 1, p.rest, t, depth);
      }
    }
  }

  /** The parser of one reply at the top level. */
  const PARSE: string -> Parse<Reply> := s => ParseItem(s, 0)

  /** More bytes never revise a reply or an error the reader has decided on. */
  lemma RepliesAreStable()
    ensures Stable(PARSE)
  {
    forall s, t | !PARSE(s).More? ensures PARSE(s + t) == Extend(PARSE(s), t) {
      ParseItemExtends(s, t, 0);
    }
  }

  // ---------------------------------------------------------------- encoding

  function Encode(r: Reply): string {
    match r
    case Nil => "$-1" + CRLF
    case Status(text) => "+" + text + CRLF
    case Error(text) => "-" + text + CRLF
    case Integer(v) => ":" + SignedDecimal(v) + CRLF
    case Bulk(text) => "$" + SignedDecimal(|text|) + CRLF + text + CRLF
    case Array(count, items) => "*" + SignedDecimal(count) + CRLF + EncodeItems(items)
  }

  const ENCODE: Reply -> string := r => Encode(r)

  /** `EncodeAll` for replies, written out because it recurs with `Encode`; see `ReaderRuns.EncodingsAgree`. */
  function EncodeItems(rs: seq<Reply>): string {
    if rs == [] then "" else Encode(rs[0]) + EncodeItems(rs[1..])
  }

  /**
   The replies that survive a trip over the wire at nesting level `depth`. The
   reader echoes a count below -1 as an array without elements.
   */
  ghost predicate Transmissible(r: Reply, depth: nat) {
    match r
    case Status(text) => !HasCrlf(text)
    case Error(text) => !HasCrlf(text)
    case Array(count, items) =>
      depth < MAX_DEPTH && |items| == (if count < -1 then 0 else count) &&
      forall i :: 0 <= i < |items| ==> Transmissible(items[i], depth + 1)
    case _ => true
  }

  lemma ParseTypeByte(c: char, body: string, depth: nat)
    requires KindOf(c).Some?
    ensures ParseItem([c] + body, depth) == ParseBody(KindOf(c).value, body, depth)
  {
    assert ([c] + body)[1..] == body;
  }

  lemma ParseHeader(c: char, line: string, rest: string, depth: nat)
    requires KindOf(c).Some? && (c == '*' ==> depth < MAX_DEPTH) && !HasCrlf(line)
    ensures ParseItem([c] + line + CRLF + rest, depth) == ParseLine(KindOf(c).value, line, rest, depth)
  {
    var body := line + CRLF + rest;
    assert [c] + line + CRLF + rest == [c] + body;
    ParseTypeByte(c, body, depth);
    FindCrlfAfterLine(line, rest);
    assert body[..|line|] == line && body[|line| + 2..] == rest;
  }

  lemma ParseNumberHeader(c: char, n: int, rest: string, depth: nat)
    requires c in ":$*" && (c == '*' ==> depth < MAX_DEPTH)
    ensures ParseItem([c] + SignedDecimal(n) + CRLF + rest, depth) ==
            if c == ':' then Ok(Integer(n), rest)
            else if c == '$' then ParseBulk(n, rest)
            else ParseArray(n, rest, depth)
  {
    DecimalHasNoCrlf(n);
    ReadNumberInvertsPrinting(n);
    ParseHeader(c, SignedDecimal(n), rest, depth);
  }

  lemma TextInvertsEncode(r: Reply, depth: nat, t: string)
    requires r.Status? || r.Error?
    requires !HasCrlf(r.text)
    ensures ParseItem(Encode(r) + t, depth) == Ok(r, t)
  {
    var c := if r.Status? then '+' else '-';
    ParseHeader(c, r.text, t, depth);
    assert Encode(r) == [c] + r.text + CRLF;
  }

  lemma NumberInvertsEncode(r: Reply, depth: nat, t: string)
    requires r.Nil? || r.Integer?
    ensures ParseItem(Encode(r) + t, depth) == Ok(r, t)
  {
    var c, n := if r.Nil? then '$' else ':', if r.Nil? then -1 else r.value;
    ParseNumberHeader(c, n, t, depth);
    assert SignedDecimal(-1) == "-" + Decimal(1) == "-1";
    assert Encode(r) == [c] + SignedDecimal(n) + CRLF;
  }

  lemma BulkInvertsEncode(r: Reply, depth: nat, t: string)
    requires r.Bulk?
    ensures ParseItem(Encode(r) + t, depth) == Ok(r, t)
  {
    hide ParseItem, SignedDecimal;
    var n, rest := |r.text|, r.text + CRLF + t;
    ParseNumberHeader('$', n, rest, depth);
    Assoc("$" + SignedDecimal(n) + CRLF, r.text, CRLF);
    Assoc("$" + SignedDecimal(n) + CRLF, r.text + CRLF, t);
    assert rest[..n] == r.text && rest[n + 2..] == t;
  }

  /** Parsing undoes encoding and leaves exactly what follows. */
  lemma {:induction false} ParseInvertsEncode(r: Reply, depth: nat, t: string)
    requires depth <= MAX_DEPTH && Transmissible(r, depth)
    ensures ParseItem(Encode(r) + t, depth) == Ok(r, t)
    decreases r, 0
  {
    hide ParseItem, ParseItems, Encode;
    if r.Array? {
      ParseArrayHeader(r.count, r.items, t, depth);
      if r.count > 0 {
        ParseItemsInvertsEncode(r.items, depth + 1, t);
      } else {
        assert EncodeItems(r.items) + t == t;
      }
    } else if r.Bulk? {
      BulkInvertsEncode(r, depth, t);
    } else if r.Nil? || r.Integer? {
      NumberInvertsEncode(r, depth, t);
    } else {
      TextInvertsEncode(r, depth, t);
    }
  }

  lemma ParseArrayHeader(count: int, items: seq<Reply>, t: string, depth: nat)
    requires depth < MAX_DEPTH
    ensures ParseItem(Encode(Array(count, items)) + t, depth) == ParseArray(count, EncodeItems(items) + t, depth)
  {
    var rest := EncodeItems(items) + t;
    ParseNumberHeader('*', count, rest, depth);
    assert Encode(Array(count, items)) + t == "*" + SignedDecimal(count) + CRLF + rest;
  }

  /** Items are read one by one: a first one that comes back is followed by the others. */
  lemma FirstOk(n: nat, s: string, depth: nat, first: Reply, rest: string)
    requires n > 0 && ParseItem(s, depth) == Ok(first, rest)
    ensures var others := ParseItems(n - 1, rest, depth);
            ParseItems(n, s, depth) ==
            if others.Ok? then Ok([first] + others.value, others.rest)
            else if others.Bad? then Bad(others.message) else More
  {
    hide ParseItem;
  }

  lemma FirstBad(n: nat, s: string, depth: nat, m: string)
    requires n > 0 && ParseItem(s, depth) == Bad(m)
    ensures ParseItems(n, s, depth) == Bad(m)
  {
    hide ParseItem;
  }

  lemma FirstOfItems(n: nat, s: string, depth: nat)
    requires n > 0 && ParseItems(n, s, depth).Ok?
    ensures ParseItem(s, depth).Ok? && ParseItems(n, s, depth).value[0] == ParseItem(s, depth).value
  {
    hide ParseItem;
  }

  lemma FirstItem(rs: seq<Reply>, t: string)
    requires rs != []
    ensures EncodeItems(rs) + t == Encode(rs[0]) + (EncodeItems(rs[1..]) + t)
  {
    Assoc(Encode(rs[0]), EncodeItems(rs[1..]), t);
  }

  lemma {:induction false} ParseItemsInvertsEncode(rs: seq<Reply>, depth: nat, t: string)
    requires depth <= MAX_DEPTH && forall i :: 0 <= i < |rs| ==> Transmissible(rs[i], depth)
    ensures ParseItems(|rs|, EncodeItems(rs) + t, depth) == Ok(rs, t)
    decreases rs, 1
  {
    if rs == [] {
      assert EncodeItems(rs) + t == t;
    } else {
      hide *;
      var tail := EncodeItems(rs[1..]) + t;
      FirstItem(rs, t);
      ParseInvertsEncode(rs[0], depth, tail);
      ParseItemsInvertsEncode(rs[1..], depth, t);
      FirstOk(|rs|, Encode(rs[0]) + tail, depth, rs[0], tail);
      assert [rs[0]] + rs[1..] == rs;
    }
  }

  /** On the deepest level an array is refused at its type byte. */
  lemma NoRoom(r: Reply, t: string)
    requires r.Array?
    ensures ParseItem(Encode(r) + t, MAX_DEPTH) == Bad(TOO_DEEP)
  {
    hide ParseItem, EncodeItems, SignedDecimal;
    var body := SignedDecimal(r.count) + CRLF + EncodeItems(r.items) + t;
    assert Encode(r) + t == "*" + body;
    ParseTypeByte('*', body, MAX_DEPTH);
  }

  /** Nothing else survives: the parse of any other encoding does not give the reply back. */
  lemma {:induction false} OnlyTransmissibleReturns(r: Reply, depth: nat, t: string)
    requires depth <= MAX_DEPTH && !Transmissible(r, depth)
    ensures ParseItem(Encode(r) + t, depth).Ok? ==> ParseItem(Encode(r) + t, depth).value != r
    decreases r, 0
  {
    match r {
      case Status(text) =>
        LineIsCut('+', text, t, depth);
      case Error(text) =>
        LineIsCut('-', text, t, depth);
      case Array(count, items) =>
        if depth == MAX_DEPTH {
          NoRoom(r, t);
        } else {
          ParseArrayHeader(count, items, t, depth);
          if count == |items| && count > 0 {
            OnlyTransmissibleListsReturn(items, depth + 1, t);
          }
        }
    }
  }

  /** A status or error text that holds a CRLF arrives shorter than it was sent. */
  lemma LineIsCut(c: char, text: string, t: string, depth: nat)
    requires c in "+-" && HasCrlf(text)
    ensures var p := ParseItem([c] + text + CRLF + t, depth);
            p.Ok? && (p.value.Status? || p.value.Error?) && |p.value.text| < |text|
  {
    var body := text + CRLF + t;
    assert [c] + text + CRLF + t == [c] + body;
    ParseTypeByte(c, body, depth);
    var i :| CrlfAt(text, i);
    assert CrlfAt(body, i);
  }

  lemma {:induction false} OnlyTransmissibleListsReturn(rs: seq<Reply>, depth: nat, t: string)
    requires depth <= MAX_DEPTH && exists i :: 0 <= i < |rs| && !Transmissible(rs[i], depth)
    ensures var p := ParseItems(|rs|, EncodeItems(rs) + t, depth);
            p.Ok? ==> p.value != rs
    decreases rs, 1
  {
    hide *;
    var tail := EncodeItems(rs[1..]) + t;
    var s := Encode(rs[0]) + tail;
    FirstItem(rs, t);
    if Transmissible(rs[0], depth) {
      LaterOne(rs, depth);
      ParseInvertsEncode(rs[0], depth, tail);
      OnlyTransmissibleListsReturn(rs[1..], depth, t);
      FirstOk(|rs|, s, depth, rs[0], tail);
      assert [rs[0]] + rs[1..] == rs;
    } else if ParseItems(|rs|, s, depth).Ok? {
      OnlyTransmissibleReturns(rs[0], depth, tail);
      FirstOfItems(|rs|, s, depth);
    }
  }

  lemma LaterOne(rs: seq<Reply>, depth: nat)
    requires exists i :: 0 <= i < |rs| && !Transmissible(rs[i], depth)
    requires rs != [] && Transmissible(rs[0], depth)
    ensures exists i :: 0 <= i < |rs[1..]| && !Transmissible(rs[1..][i], depth)
  {
    hide *;
    var i :| 0 <= i < |rs| && !Transmissible(rs[i], depth);
    assert rs[1..][i - 1] == rs[i];
  }

  /** A reply with good texts and counts, however deep its arrays nest. */
  ghost predicate Clean(r: Reply) {
    match r
    case Status(text) => !HasCrlf(text)
    case Error(text) => !HasCrlf(text)
    case Array(count, items) =>
      |items| == (if count < -1 then 0 else count) && forall i :: 0 <= i < |items| ==> Clean(items[i])
    case _ => true
  }

  /** A clean reply that is not transmissible is an array too many, or holds one. */
  lemma TooDeepSomewhere(r: Reply, depth: nat)
    requires depth <= MAX_DEPTH && Clean(r) && !Transmissible(r, depth)
    ensures r.Array?
    ensures depth < MAX_DEPTH ==>
              && r.count == |r.items| > 0 && (forall i :: 0 <= i < |r.items| ==> Clean(r.items[i]))
              && exists i :: 0 <= i < |r.items| && !Transmissible(r.items[i], depth + 1)
  {
  }

  lemma RefusedInside(count: nat, rest: string, depth: nat, m: string)
    requires count > 0 && ParseItems(count, rest, depth + 1) == Bad(m)
    ensures ParseArray(count, rest, depth) == Bad(m)
  {
    hide ParseItems;
  }

  /** What a clean reply lacks to be transmissible is room: its nesting is refused, and nothing else happens. */
  lemma {:induction false} RefusedForNesting(r: Reply, depth: nat, t: string)
    requires depth <= MAX_DEPTH && Clean(r) && !Transmissible(r, depth)
    ensures ParseItem(Encode(r) + t, depth) == Bad(TOO_DEEP)
    decreases r, 0
  {
    hide *;
    TooDeepSomewhere(r, depth);
    if depth == MAX_DEPTH {
      NoRoom(r, t);
    } else {
      ParseArrayHeader(r.count, r.items, t, depth);
      TooDeepInside(r.items, depth + 1, t);
      RefusedInside(r.count, EncodeItems(r.items) + t, depth, TOO_DEEP);
    }
  }

  lemma {:induction false} TooDeepInside(rs: seq<Reply>, depth: nat, t: string)
    requires depth <= MAX_DEPTH && forall i :: 0 <= i < |rs| ==> Clean(rs[i])
    requires exists i :: 0 <= i < |rs| && !Transmissible(rs[i], depth)
    ensures ParseItems(|rs|, EncodeItems(rs) + t, depth) == Bad(TOO_DEEP)
    decreases rs, 1
  {
    hide *;
    var tail := EncodeItems(rs[1..]) + t;
    var s := Encode(rs[0]) + tail;
    FirstItem(rs, t);
    if Transmissible(rs[0], depth) {
      LaterOne(rs, depth);
      ParseInvertsEncode(rs[0], depth, tail);
      TooDeepInside(rs[1..], depth, t);
      FirstOk(|rs|, s, depth, rs[0], tail);
    } else {
      RefusedForNesting(rs[0], depth, tail);
      FirstBad(|rs|, s, depth, TOO_DEEP);
    }
  }

  // ------------------------------------------------------------------ nesting

  /** How many arrays are inside each other, at most. */
  function Nesting(r: Reply): nat {
    match r
    case Array(_, items) => 1 + Deepest(items)
    case _ => 0
  }

  function Deepest(rs: seq<Reply>): nat {
    if rs == [] then 0
    else if Nesting(rs[0]) > Deepest(rs[1..]) then Nesting(rs[0])
    else Deepest(rs[1..])
  }

  lemma {:induction false} DeepestBounds(rs: seq<Reply>, n: nat)
    ensures Deepest(rs) <= n <==> forall i :: 0 <= i < |rs| ==> Nesting(rs[i]) <= n
    decreases |rs|
  {
    if rs != [] {
      DeepestBounds(rs[1..], n);
      assert forall i :: 1 <= i < |rs| ==> rs[i] == rs[1..][i - 1];
    }
  }

  /** There is room for eight arrays inside each other. */
  lemma {:induction false} RoomForEight(r: Reply, depth: nat)
    requires depth <= 8
    ensures Transmissible(r, depth) <==> Clean(r) && depth + Nesting(r) <= 8
    decreases r
  {
    if r.Array? && depth < 8 {
      forall i | 0 <= i < |r.items|
        ensures Transmissible(r.items[i], depth + 1) <==> Clean(r.items[i]) && Nesting(r.items[i]) <= 7 - depth
      {
        RoomForEight(r.items[i], depth + 1);
      }
      DeepestBounds(r.items, 7 - depth);
    }
  }

  /** A reply comes back exactly if its texts and counts are good and at most eight arrays are inside each other. */
  lemma RoundTripExactly(r: Reply, t: string)
    ensures ParseItem(Encode(r) + t, 0) == Ok(r, t) <==> Clean(r) && Nesting(r) <= 8
  {
    RoomForEight(r, 0);
    if Transmissible(r, 0) {
      ParseInvertsEncode(r, 0, t);
    } else {
      OnlyTransmissibleReturns(r, 0, t);
    }
  }

  /** A ninth array inside eight others is refused, wherever it is. */
  lemma NinthLevelIsAnError(r: Reply, t: string)
    requires Clean(r) && Nesting(r) >= 9
    ensures ParseItem(Encode(r) + t, 0) == Bad("No support for nested multi bulk replies with depth > 7")
  {
    RoomForEight(r, 0);
    RefusedForNesting(r, 0, t);
  }

  /** So a clean reply always comes back, or is refused for its nesting. */
  lemma CleanRepliesReturnOrAreRefused(r: Reply, t: string)
    requires Clean(r)
    ensures ParseItem(Encode(r) + t, 0) ==
            if Nesting(r) <= 8 then Ok(r, t)
            else Bad("No support for nested multi bulk replies with depth > 7")
  {
    if Nesting(r) <= 8 {
      RoundTripExactly(r, t);
    } else {
      NinthLevelIsAnError(r, t);
    }
  }
}
