/**
 Commands on the wire. Three encoders build the same bytes, two of them into a
 buffer whose length they work out beforehand.
 */
module Command {
  import opened Bytes
  import opened Resp
  import opened Streams
  import SdsFormat

  /** Lengths and positions of a command are C `int`s. */
  const INT_LIMIT := 0x8000_0000

  function ArgumentBytes(arg: string): string {
    "$" + Decimal(|arg|) + CRLF + arg + CRLF
  }

  function ArgumentsBytes(argv: seq<string>): string {
    if argv == [] then "" else ArgumentBytes(argv[0]) + ArgumentsBytes(argv[1..])
  }

  function HeaderBytes(argc: nat): string {
    "*" + Decimal(argc) + CRLF
  }

  /** The wire form of a command. */
  function CommandBytes(argv: seq<string>): string {
    HeaderBytes(|argv|) + ArgumentsBytes(argv)
  }

  lemma {:induction false} ArgumentsAppend(a: seq<string>, b: seq<string>)
    ensures ArgumentsBytes(a + b) == ArgumentsBytes(a) + ArgumentsBytes(b)
    decreases |a|
  {
    if a == [] {
      assert a + b == b;
    } else {
      assert (a + b)[1..] == a[1..] + b;
      ArgumentsAppend(a[1..], b);
    }
  }

  lemma ArgumentsSnoc(header: string, argv: seq<string>, j: nat)
    requires j < |argv|
    ensures ArgumentsBytes(argv[..j + 1]) == ArgumentsBytes(argv[..j]) + ArgumentBytes(argv[j])
    ensures header + ArgumentsBytes(argv[..j + 1]) == header + ArgumentsBytes(argv[..j]) + ArgumentBytes(argv[j])
  {
    assert argv[..j + 1] == argv[..j] + [argv[j]];
    ArgumentsAppend(argv[..j], [argv[j]]);
    assert ArgumentsBytes([argv[j]]) == ArgumentBytes(argv[j]) + "";
    Assoc(header, ArgumentsBytes(argv[..j]), ArgumentBytes(argv[j]));
  }

  /** The wire form, byte for byte: a count, then length, bytes and line end of each argument. */
  lemma CommandOnTheWire(argv: seq<string>)
    ensures CommandBytes(argv) == "*" + Decimal(|argv|) + "\r\n" + ArgumentsBytes(argv)
    ensures ArgumentsBytes([]) == ""
    ensures argv != [] ==>
              ArgumentsBytes(argv) ==
              "$" + Decimal(|argv[0]|) + "\r\n" + argv[0] + "\r\n" + ArgumentsBytes(argv[1..])
  {
  }

  // --------------------------------------------------------- read by the reader

  function BulkItems(argv: seq<string>): seq<Reply> {
    seq(|argv|, i requires 0 <= i < |argv| => Bulk(argv[i]))
  }

  lemma {:induction false} ArgumentsAreEncodedBulks(argv: seq<string>)
    ensures ArgumentsBytes(argv) == EncodeItems(BulkItems(argv))
    decreases |argv|
  {
    if argv != [] {
      ArgumentsAreEncodedBulks(argv[1..]);
      assert BulkItems(argv)[1..] == BulkItems(argv[1..]);
    }
  }

  /** The reply reader takes a command apart into exactly its arguments. */
  lemma ReaderRecoversArguments(argv: seq<string>, t: string)
    ensures ParseItem(CommandBytes(argv) + t, 0) == Ok(Array(|argv|, BulkItems(argv)), t)
  {
    ArgumentsAreEncodedBulks(argv);
    var r := Array(|argv|, BulkItems(argv));
    assert CommandBytes(argv) == Encode(r);
    ParseInvertsEncode(r, 0, t);
  }

  // -------------------------------------------------------- length prediction

  lemma FourDigits(v: nat)
    requires 10000 <= v
    ensures |Decimal(v)| == |Decimal(v / 10000)| + 4
  {
    var a := v / 10;
    var b := a / 10;
    var c := b / 10;
    assert c / 10 == v / 10000;
    assert |Decimal(v)| == |Decimal(a)| + 1;
    assert |Decimal(a)| == |Decimal(b)| + 1;
    assert |Decimal(b)| == |Decimal(c)| + 1;
  }

  lemma FewDigits(v: nat)
    requires v < 10000
    ensures |Decimal(v)| == if v < 10 then 1 else if v < 100 then 2 else if v < 1000 then 3 else 4
  {
    var a := v / 10;
    var b := a / 10;
    assert v >= 10 ==> |Decimal(v)| == |Decimal(a)| + 1;
    assert a >= 10 ==> |Decimal(a)| == |Decimal(b)| + 1;
    assert b >= 10 ==> |Decimal(b)| == |Decimal(b / 10)| + 1;
  }

  /** The number of decimal digits, found without printing. */
  method CountDigits(n: nat) returns (result: nat)
    ensures result == |Decimal(n)|
  {
    var v := n;
    result := 1;
    while true
      invariant |Decimal(n)| == result - 1 + |Decimal(v)|
      decreases v
    {
      if v < 10000 {
        FewDigits(v);
      }
      if v < 10 { return result; }
      if v < 100 { return result + 1; }
      if v < 1000 { return result + 2; }
      if v < 10000 { return result + 3; }
      FourDigits(v);
      v := v / 10000;
      result := result + 4;
    }
  }

  method BulkLen(len: nat) returns (r: nat)
    ensures forall arg: string :: |arg| == len ==> r == |ArgumentBytes(arg)|
  {
    var digits := CountDigits(len);
    r := 1 + digits + 2 + len + 2;
  }

  // ---------------------------------------------------------------- arguments

  /** The bytes of `s` up to its first NUL. */
  function CString(s: string): string {
    if s == "" || s[0] == '\0' then "" else [s[0]] + CString(s[1..])
  }

  /** Up to the first NUL, which is left out; without one, everything. */
  lemma {:induction false} CStringStopsAtNul(s: string)
    ensures CString(s) <= s && '\0' !in CString(s)
    ensures |CString(s)| < |s| ==> s[|CString(s)|] == '\0'
    ensures '\0' !in s ==> CString(s) == s
    decreases |s|
  {
    if s != "" && s[0] != '\0' {
      CStringStopsAtNul(s[1..]);
      assert s == [s[0]] + s[1..];
    }
  }

  /** The arguments a caller means: counted when lengths are given, NUL-terminated otherwise. */
  function Arguments(argv: seq<string>, argvlen: Option<seq<nat>>): (args: seq<string>)
    requires ArgumentsGiven(argv, argvlen)
    ensures |args| == |argv|
  {
    seq(|argv|, j requires 0 <= j < |argv| =>
      if argvlen.Some? then argv[j][..argvlen.value[j]] else CString(argv[j]))
  }

  /** Without lengths, arguments that hold no NUL are meant as they are. */
  lemma TerminatedArguments(argv: seq<string>)
    requires forall j :: 0 <= j < |argv| ==> '\0' !in argv[j]
    ensures Arguments(argv, None) == argv
  {
    forall j | 0 <= j < |argv| ensures CString(argv[j]) == argv[j] {
      CStringStopsAtNul(argv[j]);
    }
  }

  /** With lengths, each argument is as many bytes as announced, whatever they are. */
  lemma CountedArguments(argv: seq<string>, lens: seq<nat>, j: nat)
    requires ArgumentsGiven(argv, Some(lens)) && j < |argv|
    ensures Arguments(argv, Some(lens))[j] == argv[j][..lens[j]]
    ensures lens[j] == |argv[j]| ==> Arguments(argv, Some(lens))[j] == argv[j]
  {
  }

  predicate ArgumentsGiven(argv: seq<string>, argvlen: Option<seq<nat>>) {
    argvlen.Some? ==>
      |argvlen.value| == |argv| && forall j :: 0 <= j < |argv| ==> argvlen.value[j] <= |argv[j]|
  }

  // ---------------------------------------------------------- the buffer builder

  /** Copies `s` into `cmd` at `pos`. */
  method Put(cmd: array<char>, pos: nat, s: string) returns (pos': nat)
    requires pos + |s| <= cmd.Length
    modifies cmd
    ensures pos' == pos + |s|
    ensures cmd[..pos'] == old(cmd[..pos]) + s
  {
    forall i | 0 <= i < |s| {
      cmd[pos + i] := s[i];
    }
    pos' := pos + |s|;
  }

  /** Writes one argument: its length line, its bytes and a line end. */
  method PutArgument(cmd: array<char>, pos: nat, arg: string) returns (pos': nat)
    requires pos + |ArgumentBytes(arg)| <= cmd.Length
    modifies cmd
    ensures pos' == pos + |ArgumentBytes(arg)|
    ensures cmd[..pos'] == old(cmd[..pos]) + ArgumentBytes(arg)
  {
    ghost var done := cmd[..pos];
    var header := "$" + Decimal(|arg|) + CRLF;
    pos' := Put(cmd, pos, header);
    pos' := Put(cmd, pos', arg);
    pos' := Put(cmd, pos', CRLF);
    assert done + ArgumentBytes(arg) == done + header + arg + CRLF;
  }

  /** Builds the command at protocol level; `totlen` was computed from the argument lengths. */
  method Build(args: seq<string>, totlen: nat) returns (cmd: array<char>)
    requires totlen == |CommandBytes(args)|
    ensures fresh(cmd) && cmd.Length == totlen + 1
    ensures cmd[..totlen] == CommandBytes(args) && cmd[totlen] == '\0'
  {
    cmd := new char[totlen + 1];
    var header := HeaderBytes(|args|);
    var pos := Put(cmd, 0, header);
    var j := 0;
    while j < |args|
      invariant 0 <= j <= |args|
      invariant pos == |header| + |ArgumentsBytes(args[..j])| <= totlen
      invariant cmd[..pos] == header + ArgumentsBytes(args[..j])
    {
      ArgumentsSnoc(header, args, j);
      ArgumentsPrefix(args, j + 1);
      pos := PutArgument(cmd, pos, args[j]);
      j := j + 1;
    }
    assert args[..j] == args;
    assert pos == totlen;
    cmd[pos] := '\0';
  }

  lemma ArgumentsPrefix(args: seq<string>, j: nat)
    requires j <= |args|
    ensures |ArgumentsBytes(args[..j])| <= |ArgumentsBytes(args)|
  {
    assert args == args[..j] + args[j..];
    ArgumentsAppend(args[..j], args[j..]);
  }

  /** The total length of a command, from the lengths of its arguments alone. */
  method TotalLength(args: seq<string>) returns (totlen: nat)
    ensures totlen == |CommandBytes(args)|
  {
    var digits := CountDigits(|args|);
    totlen := 1 + digits + 2;
    var j := 0;
    while j < |args|
      invariant 0 <= j <= |args|
      invariant totlen == |HeaderBytes(|args|)| + |ArgumentsBytes(args[..j])|
    {
      var n := BulkLen(|args[j]|);
      ArgumentsSnoc("", args, j);
      totlen := totlen + n;
      j := j + 1;
    }
    assert args[..j] == args;
  }

  // ------------------------------------------------------------- the encoders

  method FormatCommandArgv(argv: seq<string>, argvlen: Option<seq<nat>>) returns (cmd: array<char>, totlen: nat)
    requires ArgumentsGiven(argv, argvlen)
    requires |CommandBytes(Arguments(argv, argvlen))| < INT_LIMIT
    ensures totlen == |CommandBytes(Arguments(argv, argvlen))|
    ensures fresh(cmd) && cmd.Length == totlen + 1
    ensures cmd[..totlen] == CommandBytes(Arguments(argv, argvlen)) && cmd[totlen] == '\0'
    ensures argvlen == None && (forall j :: 0 <= j < |argv| ==> '\0' !in argv[j]) ==>
              ParseItem(cmd[..totlen], 0) == Ok(Array(|argv|, BulkItems(argv)), "")
  {
    var args := Arguments(argv, argvlen);
    totlen := TotalLength(args);
    cmd := Build(args, totlen);
    ReadBack(argv, argvlen);
  }

  method FormatSdsCommandArgv(argv: seq<string>, argvlen: Option<seq<nat>>) returns (cmd: string, totlen: nat)
    requires ArgumentsGiven(argv, argvlen)
    requires |CommandBytes(Arguments(argv, argvlen))| < INT_LIMIT
    ensures cmd == CommandBytes(Arguments(argv, argvlen)) && totlen == |cmd|
    ensures argvlen == None && (forall j :: 0 <= j < |argv| ==> '\0' !in argv[j]) ==>
              ParseItem(cmd, 0) == Ok(Array(|argv|, BulkItems(argv)), "")
  {
    hide ParseItem, Arguments, ArgumentBytes;
    var args := Arguments(argv, argvlen);
    totlen := TotalLength(args);
    CountFits(args);
    cmd := CatNumberLine("", "*%i\r\n", '*', SdsFormat.Int(|args|));
    ghost var header := cmd;
    var j := 0;
    while j < |args|
      invariant 0 <= j <= |args|
      invariant cmd == header + ArgumentsBytes(args[..j])
    {
      ArgumentFits(args, j);
      cmd := CatArgument(cmd, args[j]);
      ArgumentsSnoc(header, args, j);
      j := j + 1;
    }
    assert args[..j] == args;
    assert |cmd| == totlen;
    ReadBack(argv, argvlen);
  }

  /** What a reader makes of the command for arguments that hold no NUL. */
  lemma ReadBack(argv: seq<string>, argvlen: Option<seq<nat>>)
    requires ArgumentsGiven(argv, argvlen)
    ensures argvlen == None && (forall j :: 0 <= j < |argv| ==> '\0' !in argv[j]) ==>
              ParseItem(CommandBytes(Arguments(argv, argvlen)), 0) == Ok(Array(|argv|, BulkItems(argv)), "")
  {
    hide ParseItem, CommandBytes;
    if argvlen == None && forall j :: 0 <= j < |argv| ==> '\0' !in argv[j] {
      TerminatedArguments(argv);
      ReaderRecoversArguments(argv, "");
      assert CommandBytes(argv) + "" == CommandBytes(argv);
    }
  }

  method CatArgument(s: string, arg: string) returns (r: string)
    requires |arg| < INT_LIMIT
    ensures r == s + ArgumentBytes(arg)
  {
    hide Decimal;
    // the length is passed as an `unsigned int`
    var len := |arg| % 0x1_0000_0000;
    r := CatNumberLine(s, "$%u\r\n", '$', SdsFormat.Unsigned(len));
    r := r + arg;
    r := r + CRLF;
    OneArgument(s, arg);
  }

  lemma OneArgument(done: string, arg: string)
    ensures done + ['$'] + Decimal(|arg|) + CRLF + arg + CRLF == done + ArgumentBytes(arg)
  {
    Reassociate(done, "$", Decimal(|arg|), CRLF, arg);
  }

  lemma Reassociate(a: string, b: string, c: string, d: string, e: string)
    ensures a + b + c + d + e + d == a + (b + c + d + e + d)
  {
    assert a + (b + c) == a + b + c;
    assert a + (b + c + d) == a + (b + c) + d;
    assert a + (b + c + d + e) == a + (b + c + d) + e;
    assert a + (b + c + d + e + d) == a + (b + c + d + e) + d;
  }

  method CatNumberLine(s: string, fmt: string, ghost letter: char, arg: SdsFormat.FmtArg) returns (r: string)
    requires letter != '%' && !arg.Str? && fmt == [letter, '%', if arg.Int? then 'i' else 'u', '\r', '\n']
    requires if arg.Int? then 0 <= arg.i < INT_LIMIT else arg.u < 0x1_0000_0000
    ensures r == s + [letter] + Decimal(if arg.Int? then arg.i else arg.u) + CRLF
  {
    SdsFormat.NumberLine(fmt, letter, arg);
    r := SdsFormat.CatFmt(s, fmt, [arg]);
  }

  lemma {:induction false} CountFits(args: seq<string>)
    ensures |args| <= |ArgumentsBytes(args)| <= |CommandBytes(args)|
    decreases |args|
  {
    if args != [] {
      CountFits(args[1..]);
    }
  }

  lemma {:induction false} ArgumentFits(args: seq<string>, j: nat)
    requires j < |args|
    ensures |args[j]| < |ArgumentsBytes(args)| <= |CommandBytes(args)|
    decreases |args|
  {
    if j > 0 {
      ArgumentFits(args[1..], j - 1);
    }
  }

  /** The encoder of the C++ adapter, which appends to a string stream. */
  method RedisFormatCommand(argv: seq<string>) returns (buffer: string)
    ensures buffer == CommandBytes(argv)
  {
    buffer := "" + "*" + Decimal(|argv|) + "\r\n";
    ghost var header := buffer;
    var iter := 0;
    while iter != |argv|
      invariant 0 <= iter <= |argv|
      invariant buffer == header + ArgumentsBytes(argv[..iter])
    {
      ghost var done := buffer;
      buffer := buffer + "$" + Decimal(|argv[iter]|) + "\r\n";
      buffer := buffer + argv[iter] + "\r\n";
      OneArgument(done, argv[iter]);
      ArgumentsSnoc(header, argv, iter);
      iter := iter + 1;
    }
    assert argv[..iter] == argv;
  }
}
