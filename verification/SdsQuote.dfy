/** Quoting a byte string for a command line, and splitting a line into arguments. */
module SdsQuote {
  import opened Bytes

  const NUL := '\0'

  /** The byte at `i` of a NUL-terminated line. */
  function At(line: string, i: nat): char {
    if i < |line| then line[i] else NUL
  }

  predicate IsByte(c: char) {
    c as int < 256
  }

  // ----------------------------------------------------------------- quoting

  predicate OfBytes(p: string) {
    forall i :: 0 <= i < |p| ==> IsByte(p[i])
  }

  function EscapeAll(p: string): string
    requires OfBytes(p)
  {
    if p == "" then "" else Escape(p[0]) + EscapeAll(p[1..])
  }

  function Quote(p: string): string
    requires OfBytes(p)
  {
    "\"" + EscapeAll(p) + "\""
  }

  lemma {:induction false} EscapeAllSnoc(p: string, c: char)
    requires OfBytes(p) && IsByte(c)
    ensures OfBytes(p + [c]) && EscapeAll(p + [c]) == EscapeAll(p) + Escape(c)
    decreases |p|
  {
    if p == "" {
      assert p + [c] == [c] && [c][1..] == "";
      assert EscapeAll([c]) == Escape(c) + "";
    } else {
      assert (p + [c])[1..] == p[1..] + [c];
      EscapeAllSnoc(p[1..], c);
      Assoc(Escape(p[0]), EscapeAll(p[1..]), Escape(c));
    }
  }

  /** Appends the quoted form of `p` to `s`. */
  method CatRepr(s: string, p: string) returns (r: string)
    requires OfBytes(p)
    ensures r == s + Quote(p)
  {
    r := s + "\"";
    var i := 0;
    while i < |p|
      invariant 0 <= i <= |p|
      invariant r == s + "\"" + EscapeAll(p[..i])
    {
      ghost var before := EscapeAll(p[..i]);
      var c := p[i];
      var e;
      if c == '\\' || c == '"' {
        e := ['\\', c];
      } else if c == '\n' {
        e := "\\n";
      } else if c == '\r' {
        e := "\\r";
      } else if c == '\t' {
        e := "\\t";
      } else if c == BEL {
        e := "\\a";
      } else if c == BS {
        e := "\\b";
      } else if IsPrint(c) {
        e := [c];
      } else {
        e := "\\x" + [HexDigit(c as int / 16), HexDigit(c as int % 16)];
      }
      assert e == Escape(c);
      r := r + e;
      TakeSnoc(p, i);
      EscapeAllSnoc(p[..i], c);
      Assoc(s + "\"", before, e);
      i := i + 1;
    }
    assert p[..i] == p;
    r := r + "\"";
    Assoc(s, "\"", EscapeAll(p));
    Assoc(s, "\"" + EscapeAll(p), "\"");
  }

  // --------------------------------------------------------------- splitting

  datatype Mode = Plain | Quoted | Single

  datatype Token = Malformed | Token(text: string, rest: string)

  function Unescape(c: char): char {
    if c == 'n' then '\n'
    else if c == 'r' then '\r'
    else if c == 't' then '\t'
    else if c == 'b' then BS
    else if c == 'a' then BEL
    else c
  }

  predicate IsHexEscape(s: string) {
    At(s, 0) == '\\' && At(s, 1) == 'x' && IsHexDigit(At(s, 2)) && IsHexDigit(At(s, 3))
  }

  function HexByte(s: string): char {
    (HexDigitToInt(At(s, 2)) * 16 + HexDigitToInt(At(s, 3))) as char
  }

  /** A closing quote must be followed by a space or nothing at all. */
  predicate Closes(s: string) {
    At(s, 1) == NUL || IsSpace(At(s, 1))
  }

  /** The rest of a token, when `cur` has been read of it. */
  function ReadToken(s: string, mode: Mode, cur: string): (t: Token)
    ensures t.Token? ==> |t.rest| <= |s| && (At(s, 0) != NUL ==> |t.rest| < |s|)
    decreases |s|
  {
    var c := At(s, 0);
    match mode
    case Quoted =>
      if IsHexEscape(s) then ReadToken(s[4..], Quoted, cur + [HexByte(s)])
      else if c == '\\' && At(s, 1) != NUL then ReadToken(s[2..], Quoted, cur + [Unescape(At(s, 1))])
      else if c == '"' then (if Closes(s) then Token(cur, s[1..]) else Malformed)
      else if c == NUL then Malformed
      else ReadToken(s[1..], Quoted, cur + [c])
    case Single =>
      if c == '\\' && At(s, 1) == '\'' then ReadToken(s[2..], Single, cur + "'")
      else if c == '\'' then (if Closes(s) then Token(cur, s[1..]) else Malformed)
      else if c == NUL then Malformed
      else ReadToken(s[1..], Single, cur + [c])
    case Plain =>
      if c == NUL then Token(cur, s)
      else if c == ' ' || c == '\n' || c == '\r' || c == '\t' then Token(cur, s[1..])
      else if c == '"' then ReadToken(s[1..], Quoted, cur)
      else if c == '\'' then ReadToken(s[1..], Single, cur)
      else ReadToken(s[1..], Plain, cur + [c])
  }

  /** All arguments of a line; `None` for unbalanced or badly closed quotes. */
  function SplitLine(s: string): Option<seq<string>>
    decreases |s|
  {
    if At(s, 0) == NUL then Some([])
    else if IsSpace(s[0]) then SplitLine(s[1..])
    else
      match ReadToken(s, Plain, "")
      case Malformed => None
      case Token(text, rest) =>
        match SplitLine(rest)
        case None => None
        case Some(others) => Some([text] + others)
  }

  // ------------------------------------------------------------- round trip

  /** Reading back one escaped byte, whatever follows it. */
  lemma EscapeIsReadBack(c: char, tail: string, cur: string)
    requires IsByte(c)
    ensures ReadToken(Escape(c) + tail, Quoted, cur) == ReadToken(tail, Quoted, cur + [c])
  {
    var e := Escape(c);
    var s := e + tail;
    assert s[|e|..] == tail;
    if |e| == 4 {
      assert At(s, 2) == HexDigit(c as int / 16) && At(s, 3) == HexDigit(c as int % 16);
      assert HexByte(s) == c;
    }
  }

  lemma {:induction false} EscapesAreReadBack(p: string, tail: string, cur: string)
    requires OfBytes(p) && (At(tail, 0) == NUL || IsSpace(At(tail, 0)))
    ensures ReadToken(EscapeAll(p) + "\"" + tail, Quoted, cur) == Token(cur + p, tail)
    decreases |p|
  {
    var s := EscapeAll(p) + "\"" + tail;
    if p == "" {
      assert s == "\"" + tail && s[1..] == tail;
      assert At(s, 1) == At(tail, 0);
      assert cur + p == cur;
    } else {
      var rest := EscapeAll(p[1..]) + "\"" + tail;
      Assoc(Escape(p[0]), EscapeAll(p[1..]), "\"");
      Assoc(Escape(p[0]), EscapeAll(p[1..]) + "\"", tail);
      EscapeIsReadBack(p[0], rest, cur);
      EscapesAreReadBack(p[1..], tail, cur + [p[0]]);
      Assoc(cur, [p[0]], p[1..]);
      assert [p[0]] + p[1..] == p;
    }
  }

  lemma QuoteIsReadBack(p: string, tail: string)
    requires OfBytes(p) && (At(tail, 0) == NUL || IsSpace(At(tail, 0)))
    ensures ReadToken(Quote(p) + tail, Plain, "") == Token(p, tail)
  {
    var rest := EscapeAll(p) + "\"" + tail;
    Assoc("\"", EscapeAll(p), "\"");
    Assoc("\"", EscapeAll(p) + "\"", tail);
    assert Quote(p) + tail == "\"" + rest;
    assert ("\"" + rest)[1..] == rest;
    EscapesAreReadBack(p, tail, "");
    assert "" + p == p;
  }

  ghost predicate AllBytes(args: seq<string>) {
    forall i :: 0 <= i < |args| ==> OfBytes(args[i])
  }

  /** The quoted arguments with single spaces between them. */
  function QuoteLine(args: seq<string>): string
    requires AllBytes(args)
  {
    if args == [] then ""
    else if |args| == 1 then Quote(args[0])
    else Quote(args[0]) + (" " + QuoteLine(args[1..]))
  }

  /** Splitting a line of quoted arguments returns exactly those arguments. */
  lemma {:induction false} SplitInvertsQuote(args: seq<string>)
    requires AllBytes(args)
    ensures SplitLine(QuoteLine(args)) == Some(args)
    decreases |args|
  {
    if args != [] {
      var tail := if |args| == 1 then "" else " " + QuoteLine(args[1..]);
      var line := QuoteLine(args);
      assert line == Quote(args[0]) + tail;
      QuoteIsReadBack(args[0], tail);
      SplitInvertsQuote(args[1..]);
      if |args| > 1 {
        assert tail[1..] == QuoteLine(args[1..]);
      }
      assert SplitLine(tail) == Some(args[1..]);
      assert line[0] == '"';
      assert [args[0]] + args[1..] == args;
    }
  }

  // ------------------------------------------------------------ the splitter

  /** One byte, or one escape, between double quotes; `q` is the last position it takes. */
  method InQuotes(line: string, p: nat, current: string) returns (ok: bool, done: bool, q: nat, current': string)
    requires p <= |line|
    ensures p <= q <= |line|
    ensures !ok ==> ReadToken(line[p..], Quoted, current) == Malformed
    ensures ok ==>
              At(line, q) != NUL && q < |line| &&
              ReadToken(line[p..], Quoted, current) ==
              if done then Token(current', line[q + 1..]) else ReadToken(line[q + 1..], Quoted, current')
  {
    ghost var s := line[p..];
    AtSuffix(line, p);
    ok, done, q, current' := true, false, p, current;
    var c := At(line, p);
    if c == '\\' && At(line, p + 1) == 'x' && IsHexDigit(At(line, p + 2)) && IsHexDigit(At(line, p + 3)) {
      var byte := (HexDigitToInt(At(line, p + 2)) * 16 + HexDigitToInt(At(line, p + 3))) as char;
      current' := current + [byte];
      q := p + 3;
    } else if c == '\\' && At(line, p + 1) != NUL {
      q := p + 1;
      current' := current + [Unescape(At(line, q))];
    } else if c == '"' {
      ok := At(line, p + 1) == NUL || IsSpace(At(line, p + 1));
      done := ok;
    } else if c == NUL {
      ok := false;
    } else {
      current' := current + [c];
    }
  }

  /** One byte, or one escaped quote, between single quotes; `q` is the last position it takes. */
  method InSingleQuotes(line: string, p: nat, current: string) returns (ok: bool, done: bool, q: nat, current': string)
    requires p <= |line|
    ensures p <= q <= |line|
    ensures !ok ==> ReadToken(line[p..], Single, current) == Malformed
    ensures ok ==>
              At(line, q) != NUL && q < |line| &&
              ReadToken(line[p..], Single, current) ==
              if done then Token(current', line[q + 1..]) else ReadToken(line[q + 1..], Single, current')
  {
    ghost var s := line[p..];
    AtSuffix(line, p);
    ok, done, q, current' := true, false, p, current;
    var c := At(line, p);
    if c == '\\' && At(line, p + 1) == '\'' {
      q := p + 1;
      current' := current + "'";
    } else if c == '\'' {
      ok := At(line, p + 1) == NUL || IsSpace(At(line, p + 1));
      done := ok;
    } else if c == NUL {
      ok := false;
    } else {
      current' := current + [c];
    }
  }

  /** One byte outside quotes: the end of the token, an opening quote, or a byte of the token. */
  method Unquoted(line: string, p: nat, current: string) returns (done: bool, inq: bool, insq: bool, current': string)
    requires p <= |line|
    ensures At(line, p) == NUL ==> done
    ensures !(inq && insq) && (done ==> !inq && !insq)
    ensures var rest := line[if At(line, p) == NUL then p else p + 1..];
            ReadToken(line[p..], Plain, current) ==
            if done then Token(current', rest)
            else ReadToken(rest, if inq then Quoted else if insq then Single else Plain, current')
  {
    AtSuffix(line, p);
    done, inq, insq, current' := false, false, false, current;
    var c := At(line, p);
    if c == ' ' || c == '\n' || c == '\r' || c == '\t' || c == NUL {
      done := true;
    } else if c == '"' {
      inq := true;
    } else if c == '\'' {
      insq := true;
    } else {
      current' := current + [c];
    }
  }

  /** One token from position `p` on; `None` for a quoting error. */
  method TakeToken(line: string, start: nat) returns (r: Option<string>, p: nat)
    requires start <= |line|
    ensures p <= |line|
    ensures match ReadToken(line[start..], Plain, "")
            case Malformed => r == None
            case Token(text, rest) => r == Some(text) && line[p..] == rest
  {
    hide ReadToken;
    var current, inq, insq, done := "", false, false, false;
    p := start;
    ghost var goal := ReadToken(line[start..], Plain, "");
    while !done
      invariant p <= |line| && !(inq && insq)
      invariant !done ==>
                  goal == ReadToken(line[p..], if inq then Quoted else if insq then Single else Plain, current)
      invariant done ==> goal == Token(current, line[p..])
      decreases !done, |line| - p
    {
      if inq {
        var ok;
        ok, done, p, current := InQuotes(line, p, current);
        if !ok {
          return None, p;
        }
      } else if insq {
        var ok;
        ok, done, p, current := InSingleQuotes(line, p, current);
        if !ok {
          return None, p;
        }
      } else {
        done, inq, insq, current := Unquoted(line, p, current);
      }
      if At(line, p) != NUL {
        p := p + 1;
      }
    }
    r := Some(current);
  }

  lemma AtSuffix(line: string, p: nat)
    requires p <= |line|
    ensures var s := line[p..];
            At(s, 0) == At(line, p) && At(s, 1) == At(line, p + 1) &&
            At(s, 2) == At(line, p + 2) && At(s, 3) == At(line, p + 3) &&
            (p + 1 <= |line| ==> s[1..] == line[p + 1..]) &&
            (p + 2 <= |line| ==> s[2..] == line[p + 2..]) &&
            (p + 4 <= |line| ==> s[4..] == line[p + 4..])
  {
  }

  method SplitArgs(line: string) returns (vector: Option<seq<string>>)
    ensures vector == SplitLine(line)
  {
    var p, args := 0, [];
    assert line[p..] == line;
    ghost var whole := SplitLine(line);
    assert whole.Some? ==> args + whole.value == whole.value;
    while true
      invariant p <= |line|
      invariant whole == match SplitLine(line[p..]) { case None => None case Some(rest) => Some(args + rest) }
      decreases |line| - p
    {
      p := SkipBlanks(line, p);
      if At(line, p) == NUL {
        assert args + [] == args;
        return Some(args);
      }
      ghost var from := p;
      var token;
      token, p := TakeToken(line, p);
      if token.None? {
        return None;
      }
      AppendToken(args, token.value, SplitLine(line[p..]));
      args := args + [token.value];
    }
  }

  lemma AppendToken(args: seq<string>, text: string, rest: Option<seq<string>>)
    ensures rest.Some? ==> args + ([text] + rest.value) == args + [text] + rest.value
  {
  }

  method SkipBlanks(line: string, start: nat) returns (p: nat)
    requires start <= |line|
    ensures start <= p <= |line| && !IsSpace(At(line, p))
    ensures SplitLine(line[p..]) == SplitLine(line[start..])
  {
    p := start;
    while At(line, p) != NUL && IsSpace(At(line, p))
      invariant start <= p <= |line|
      invariant SplitLine(line[p..]) == SplitLine(line[start..])
      decreases |line| - p
    {
      assert line[p..][1..] == line[p + 1..];
      p := p + 1;
    }
  }
}
