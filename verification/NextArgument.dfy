/** The scanner that walks over the arguments of a formatted command. */
module NextArgument {
  import opened Bytes
  import opened Command

  /** The C string at `p` of a NUL-terminated buffer holding `buf`: `strchr`. */
  function StrChr(buf: string, p: nat, c: char): (r: Option<nat>)
    requires p <= |buf|
    ensures r.Some? ==> p <= r.value < |buf| && buf[r.value] == c
    decreases |buf| - p
  {
    if p == |buf| || (buf[p] == '\0' && c != '\0') then None
    else if buf[p] == c then Some(p)
    else StrChr(buf, p + 1, c)
  }

  function DigitsOf(acc: int, s: string): int
    decreases |s|
  {
    if s != "" && IsDigit(s[0]) then DigitsOf(10 * acc + DigitValue(s[0]), s[1..]) else acc
  }

  /** `strtol` in base ten. */
  function StrToL(s: string): int
    decreases |s|
  {
    if s == "" then 0
    else if IsSpace(s[0]) then StrToL(s[1..])
    else if s[0] == '-' then -DigitsOf(0, s[1..])
    else if s[0] == '+' then DigitsOf(0, s[1..])
    else DigitsOf(0, s)
  }

  /** `NoLineEnd` stands for the assertion that a length line ends in CR. */
  datatype Next = NoArgument | NoLineEnd | Argument(str: nat, len: int, next: int)

  /** The argument at or after `start`, and where the one after it begins. */
  function NextArgument(buf: string, start: nat): Next
    requires start <= |buf|
  {
    match (if start < |buf| && buf[start] == '$' then Some(start) else StrChr(buf, start, '$'))
    case None => NoArgument
    case Some(p) =>
      var len := StrToL(buf[p + 1..]);
      match StrChr(buf, p, '\r')
      case None => NoLineEnd
      case Some(q) => Argument(q + 2, len, q + 2 + len + 2)
  }

  // ------------------------------------------------------- on encoded commands

  /** Where argument `k` begins. */
  function Offset(argv: seq<string>, k: nat): nat
    requires k <= |argv|
  {
    |HeaderBytes(|argv|)| + |ArgumentsBytes(argv[..k])|
  }

  lemma {:induction false} DigitsOfDecimal(acc: int, a: string, b: string)
    requires forall i :: 0 <= i < |a| ==> IsDigit(a[i])
    requires b != "" && !IsDigit(b[0])
    ensures ReadDigits(acc, a) == Some(DigitsOf(acc, a + b))
    decreases |a|
  {
    if a == "" {
      assert a + b == b;
    } else {
      assert (a + b)[1..] == a[1..] + b;
      DigitsOfDecimal(10 * acc + DigitValue(a[0]), a[1..], b);
    }
  }

  lemma StrToLReadsDecimal(n: nat, b: string)
    requires b != "" && !IsDigit(b[0])
    ensures StrToL(Decimal(n) + b) == n
  {
    var d := Decimal(n);
    assert (d + b)[0] == d[0] && IsDigit(d[0]);
    DigitsOfDecimal(0, d, b);
    ReadDecimal(n);
  }

  lemma {:induction false} StrChrSkips(buf: string, p: nat, q: nat, c: char)
    requires p <= q < |buf| && buf[q] == c
    requires forall i :: p <= i < q ==> buf[i] != c && buf[i] != '\0'
    ensures c != '\0' ==> StrChr(buf, p, c) == Some(q)
    decreases q - p
  {
    if p < q {
      StrChrSkips(buf, p + 1, q, c);
    }
  }

  lemma {:induction false} StrChrMisses(buf: string, p: nat, c: char)
    requires p <= |buf| && forall i :: p <= i < |buf| ==> buf[i] != c
    ensures StrChr(buf, p, c) == None
    decreases |buf| - p
  {
    if p < |buf| {
      StrChrMisses(buf, p + 1, c);
    }
  }

  /** At the first byte of an argument the scanner finds it, whatever bytes it holds. */
  lemma ArgumentFound(buf: string, p: nat, arg: string, tail: string)
    requires p <= |buf| && buf[p..] == ArgumentBytes(arg) + tail
    ensures var next := NextArgument(buf, p);
            next.Argument? && next.next == p + |ArgumentBytes(arg)| &&
            next.len == |arg| && next.str + |arg| <= |buf| && buf[next.str..next.str + |arg|] == arg &&
            buf[next.str..] == arg + CRLF + tail
  {
    hide Decimal, ArgumentBytes, StrToL, StrChr;
    var d := Decimal(|arg|);
    var rest := CRLF + arg + CRLF + tail;
    SplitArgument(arg, tail);
    LengthLine(buf, p, d, rest);
    StrToLReadsDecimal(|arg|, rest);
    BehindLineEnd(buf, p + 1 + |d|, arg, tail);
  }

  /** A dollar sign and digits up to a line end. */
  lemma LengthLine(buf: string, p: nat, d: string, rest: string)
    requires p <= |buf| && buf[p..] == "$" + d + rest
    requires (forall i :: 0 <= i < |d| ==> IsDigit(d[i])) && rest != "" && rest[0] == '\r'
    ensures p < |buf| && buf[p] == '$' && buf[p + 1..] == d + rest
    ensures p + 1 + |d| < |buf| && buf[p + 1 + |d|..] == rest && StrChr(buf, p, '\r') == Some(p + 1 + |d|)
  {
    hide StrChr;
    var q := p + 1 + |d|;
    assert buf[p] == buf[p..][0] && buf[q] == buf[p..][1 + |d|];
    assert forall i :: p + 1 <= i < q ==> buf[i] == buf[p..][i - p] == d[i - p - 1];
    StrChrSkips(buf, p, q, '\r');
  }

  lemma BehindLineEnd(buf: string, q: nat, arg: string, tail: string)
    requires q <= |buf| && buf[q..] == CRLF + arg + CRLF + tail
    ensures q + 2 + |arg| <= |buf| && buf[q + 2..] == arg + CRLF + tail && buf[q + 2..q + 2 + |arg|] == arg
  {
    assert buf[q + 2..] == buf[q..][2..];
    assert buf[q + 2..q + 2 + |arg|] == buf[q + 2..][..|arg|];
  }

  lemma SplitArgument(arg: string, tail: string)
    ensures ArgumentBytes(arg) + tail == "$" + Decimal(|arg|) + (CRLF + arg + CRLF + tail)
    ensures |ArgumentBytes(arg)| == 1 + |Decimal(|arg|)| + 2 + |arg| + 2
  {
    var d := Decimal(|arg|);
    Assoc("$" + d, CRLF, arg);
    Assoc("$" + d, CRLF + arg, CRLF);
    Assoc("$" + d, CRLF + arg + CRLF, tail);
  }

  lemma AtOffset(argv: seq<string>, k: nat)
    requires k <= |argv|
    ensures Offset(argv, k) <= |CommandBytes(argv)|
    ensures CommandBytes(argv)[Offset(argv, k)..] == ArgumentsBytes(argv[k..])
  {
    var header, done, rest := HeaderBytes(|argv|), ArgumentsBytes(argv[..k]), ArgumentsBytes(argv[k..]);
    assert argv == argv[..k] + argv[k..];
    ArgumentsAppend(argv[..k], argv[k..]);
    Assoc(header, done, rest);
  }

  lemma OffsetStep(argv: seq<string>, k: nat)
    requires k < |argv|
    ensures Offset(argv, k + 1) == Offset(argv, k) + |ArgumentBytes(argv[k])|
  {
    ArgumentsSnoc("", argv, k);
  }

  /** The command's own header holds no argument: the scan from its start finds the first one. */
  lemma HeaderSkipped(argv: seq<string>)
    requires argv != []
    ensures NextArgument(CommandBytes(argv), 0) == NextArgument(CommandBytes(argv), Offset(argv, 0))
  {
    hide HeaderBytes, NextArgument;
    AtOffset(argv, 0);
    HeaderHasNoDollar(|argv|);
    assert argv[..0] == [];
    FoundBehind(HeaderBytes(|argv|), ArgumentsBytes(argv));
  }

  /** Bytes without a dollar sign in front of one make no difference. */
  lemma FoundBehind(header: string, body: string)
    requires forall i :: 0 <= i < |header| ==> header[i] != '$' && header[i] != '\0'
    requires body != "" && body[0] == '$'
    ensures NextArgument(header + body, 0) == NextArgument(header + body, |header|)
  {
    hide StrToL, StrChr;
    StrChrSkips(header + body, 0, |header|, '$');
  }

  lemma HeaderHasNoDollar(n: nat)
    ensures forall i :: 0 <= i < |HeaderBytes(n)| ==> HeaderBytes(n)[i] != '$' && HeaderBytes(n)[i] != '\0'
  {
    var d := Decimal(n);
    forall i | 0 <= i < |HeaderBytes(n)| ensures HeaderBytes(n)[i] != '$' && HeaderBytes(n)[i] != '\0' {
      assert 1 <= i < 1 + |d| ==> HeaderBytes(n)[i] == d[i - 1];
    }
  }

  /** The scanner visits argument `k` at its offset and then stands at the next one. */
  lemma VisitsArgument(argv: seq<string>, k: nat)
    requires k < |argv|
    ensures Offset(argv, k) <= |CommandBytes(argv)|
    ensures var next := NextArgument(CommandBytes(argv), Offset(argv, k));
            next.Argument? && next.next == Offset(argv, k + 1) && next.len == |argv[k]| &&
            next.str + |argv[k]| <= |CommandBytes(argv)| &&
            CommandBytes(argv)[next.str..next.str + |argv[k]|] == argv[k] &&
            CommandBytes(argv)[next.str..] == argv[k] + CRLF + ArgumentsBytes(argv[k + 1..])
  {
    AtOffset(argv, k);
    OffsetStep(argv, k);
    assert argv[k..][1..] == argv[k + 1..];
    ArgumentFound(CommandBytes(argv), Offset(argv, k), argv[k], ArgumentsBytes(argv[k + 1..]));
  }

  lemma StopsAtTheEnd(argv: seq<string>)
    ensures Offset(argv, |argv|) == |CommandBytes(argv)|
    ensures NextArgument(CommandBytes(argv), |CommandBytes(argv)|) == NoArgument
  {
    assert argv[..|argv|] == argv;
  }

  /** What the scanner finds at the offset of argument `k`. */
  ghost predicate FindsArgument(cmd: string, argv: seq<string>, k: nat)
    requires k <= |argv|
  {
    Offset(argv, k) <= |cmd| &&
    var next := NextArgument(cmd, Offset(argv, k));
    if k == |argv| then next == NoArgument
    else
      next.Argument? && next.next == Offset(argv, k + 1) && next.len == |argv[k]| &&
      next.str + next.len <= |cmd| && cmd[next.str..next.str + next.len] == argv[k] &&
      cmd[next.str..] == argv[k] + CRLF + ArgumentsBytes(argv[k + 1..])
  }

  lemma FindsEveryArgument(cmd: string, argv: seq<string>)
    requires argv != [] && cmd == CommandBytes(argv)
    ensures NextArgument(cmd, 0) == NextArgument(cmd, Offset(argv, 0))
    ensures forall k :: 0 <= k <= |argv| ==> FindsArgument(cmd, argv, k)
  {
    hide NextArgument;
    HeaderSkipped(argv);
    forall k | 0 <= k <= |argv| ensures FindsArgument(cmd, argv, k) {
      if k == |argv| {
        StopsAtTheEnd(argv);
      } else {
        VisitsArgument(argv, k);
      }
    }
  }

  /** Walking over a formatted command meets exactly its arguments, in order, and then stops. */
  method Walk(cmd: string, ghost argv: seq<string>) returns (args: seq<string>, last: Next)
    requires argv != [] && cmd == CommandBytes(argv)
    ensures args == argv && last == NoArgument
  {
    FindsEveryArgument(cmd, argv);
    args, last := WalkOn(cmd, argv);
  }

  method WalkOn(cmd: string, ghost argv: seq<string>) returns (args: seq<string>, last: Next)
    requires argv != [] && Offset(argv, 0) <= |cmd|
    requires NextArgument(cmd, 0) == NextArgument(cmd, Offset(argv, 0))
    requires forall k :: 0 <= k <= |argv| ==> FindsArgument(cmd, argv, k)
    ensures args == argv && last == NoArgument
  {
    hide NextArgument, Offset;
    assert FindsArgument(cmd, argv, 0);
    args, last := [], NextArgument(cmd, 0);
    while last.Argument?
      invariant |args| <= |argv| && args == argv[..|args|]
      invariant FindsArgument(cmd, argv, |args|) && last == NextArgument(cmd, Offset(argv, |args|))
      decreases |argv| - |args|
    {
      assert FindsArgument(cmd, argv, |args| + 1);
      TakeSnoc(argv, |args|);
      args := args + [cmd[last.str..last.str + last.len]];
      last := NextArgument(cmd, last.next);
    }
  }
}
