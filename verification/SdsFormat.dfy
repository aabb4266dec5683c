/** Decimal conversion and the small formatter of the dynamic string library. */
module SdsFormat {
  import opened Bytes

  datatype FmtArg = Str(text: string) | Int(i: int) | Unsigned(u: nat)

  function Backwards(s: string): (r: string)
    ensures |r| == |s|
  {
    if s == "" then "" else Backwards(s[1..]) + [s[0]]
  }

  lemma {:induction false} BackwardsAt(s: string, k: nat)
    requires k < |s|
    ensures Backwards(s)[k] == s[|s| - 1 - k]
    decreases |s|
  {
    if k < |s| - 1 {
      BackwardsAt(s[1..], k);
    }
  }

  lemma {:induction false} BackwardsSnoc(s: string, c: char)
    ensures Backwards(s + [c]) == [c] + Backwards(s)
    decreases |s|
  {
    if s == "" {
      assert Backwards([c]) == Backwards("") + [c] == [c];
      assert s + [c] == [c];
    } else {
      assert (s + [c])[1..] == s[1..] + [c];
      BackwardsSnoc(s[1..], c);
    }
  }

  /** Swaps the first `n` bytes of `s` end to end. */
  method SwapEnds(s: array<char>, n: nat)
    requires n <= s.Length
    modifies s
    ensures s[..n] == Backwards(old(s[..n])) && s[n..] == old(s[n..])
  {
    ghost var was := s[..n];
    var i, j := 0, n - 1;
    while i < j
      invariant 0 <= i && j == n - 1 - i && i <= j + 1
      invariant forall k :: 0 <= k < i ==> s[k] == was[n - 1 - k] && s[n - 1 - k] == was[k]
      invariant forall k :: i <= k <= j ==> s[k] == was[k]
      invariant s[n..] == old(s[n..])
    {
      var aux := s[i];
      s[i] := s[j];
      s[j] := aux;
      i, j := i + 1, j - 1;
    }
    forall k | 0 <= k < n ensures s[k] == Backwards(was)[k] {
      BackwardsAt(was, k);
    }
  }

  // ------------------------------------------------------------ number printing

  /** Room for the longest 64-bit number, a sign and a NUL. */
  const LLSTR_SIZE := 21
  const ULL_LIMIT := 0x1_0000_0000_0000_0000
  const LL_LIMIT := 0x8000_0000_0000_0000

  function PowerOfTen(k: nat): nat {
    if k == 0 then 1 else 10 * PowerOfTen(k - 1)
  }

  lemma {:induction false} DigitsBelow(n: nat, k: nat)
    requires 0 < k && n < PowerOfTen(k)
    ensures |Decimal(n)| <= k
    decreases k
  {
    if 10 <= n {
      assert k > 1 by { assert PowerOfTen(1) == 10 * PowerOfTen(0) == 10; }
      DigitsBelow(n / 10, k - 1);
    }
  }

  lemma NumbersFit(n: nat)
    ensures n < ULL_LIMIT ==> |Decimal(n)| <= 20
    ensures n < LL_LIMIT ==> |Decimal(n)| <= 19
  {
    assert PowerOfTen(5) == 100000;
    assert PowerOfTen(10) == 10000000000;
    assert PowerOfTen(15) == 1000000000000000;
    assert PowerOfTen(19) == 10000000000000000000;
    if n < ULL_LIMIT { DigitsBelow(n, 20); }
    if n < LL_LIMIT { DigitsBelow(n, 19); }
  }

  /** Writes the digits of `n`, last digit first. */
  method DigitsBackwards(s: array<char>, n: nat) returns (p: nat)
    requires |Decimal(n)| <= s.Length
    modifies s
    ensures p == |Decimal(n)| && Backwards(s[..p]) == Decimal(n)
  {
    var v := n;
    p := 0;
    while true
      invariant p + |Decimal(v)| == |Decimal(n)|
      invariant Decimal(v) + Backwards(s[..p]) == Decimal(n)
      decreases v
    {
      ghost var before, digit := s[..p], DigitChar(v % 10);
      s[p] := DigitChar(v % 10);
      p := p + 1;
      assert s[..p] == before + [digit];
      BackwardsSnoc(before, digit);
      if v / 10 == 0 {
        assert Decimal(v) == [digit];
        return;
      }
      assert Decimal(v) == Decimal(v / 10) + [digit];
      v := v / 10;
    }
  }

  /** Prints an unsigned number into a buffer of `LLSTR_SIZE` bytes. */
  method Ull2Str(s: array<char>, v: nat) returns (l: nat)
    requires s.Length == LLSTR_SIZE && v < ULL_LIMIT
    modifies s
    ensures l < LLSTR_SIZE && s[..l] == Decimal(v) && s[l] == '\0'
  {
    NumbersFit(v);
    l := DigitsBackwards(s, v);
    s[l] := '\0';
    SwapEnds(s, l);
    assert s[l..][0] == '\0';
  }

  /** Prints a signed number into a buffer of `LLSTR_SIZE` bytes. */
  method Ll2Str(s: array<char>, value: int) returns (l: nat)
    requires s.Length == LLSTR_SIZE && -LL_LIMIT < value < LL_LIMIT
    modifies s
    ensures l < LLSTR_SIZE && s[..l] == SignedDecimal(value) && s[l] == '\0'
  {
    var v := if value < 0 then -value else value;
    NumbersFit(v);
    l := DigitsBackwards(s, v);
    if value < 0 {
      ghost var digits := s[..l];
      s[l] := '-';
      l := l + 1;
      assert s[..l] == digits + "-";
      BackwardsSnoc(digits, '-');
    }
    s[l] := '\0';
    SwapEnds(s, l);
    assert s[l..][0] == '\0';
  }

  // -------------------------------------------------------------- the formatter

  /** `args` are the arguments the directives of `fmt` ask for, in range for their C types. */
  predicate Typed(fmt: string, args: seq<FmtArg>) {
    if fmt == "" then args == []
    else if fmt[0] != '%' then Typed(fmt[1..], args)
    else
      |fmt| > 1 &&
      if fmt[1] in "sS" then
        args != [] && args[0].Str? && (fmt[1] == 's' ==> '\0' !in args[0].text) && Typed(fmt[2..], args[1..])
      else if fmt[1] in "iI" then
        args != [] && args[0].Int? && -LL_LIMIT < args[0].i < LL_LIMIT && Typed(fmt[2..], args[1..])
      else if fmt[1] in "uU" then
        args != [] && args[0].Unsigned? && args[0].u < ULL_LIMIT && Typed(fmt[2..], args[1..])
      else
        Typed(fmt[2..], args)
  }

  function ArgText(arg: FmtArg): string {
    match arg
    case Str(text) => text
    case Int(i) => SignedDecimal(i)
    case Unsigned(u) => Decimal(u)
  }

  /** The formatted text; an unknown directive stands for its own letter. */
  function FormatText(fmt: string, args: seq<FmtArg>): string
    requires Typed(fmt, args)
  {
    if fmt == "" then ""
    else if fmt[0] != '%' then [fmt[0]] + FormatText(fmt[1..], args)
    else if fmt[1] in "sSiIuU" then ArgText(args[0]) + FormatText(fmt[2..], args[1..])
    else [fmt[1]] + FormatText(fmt[2..], args)
  }

  /** What the directives stand for; any other letter behind a percent sign stands for itself. */
  lemma DirectivesMean(text: string, i: int, u: nat, c: char)
    requires -LL_LIMIT < i < LL_LIMIT && u < ULL_LIMIT
    ensures '\0' !in text ==> Typed("%s", [Str(text)]) && FormatText("%s", [Str(text)]) == text
    ensures Typed("%S", [Str(text)]) && FormatText("%S", [Str(text)]) == text
    ensures Typed("%i", [Int(i)]) && FormatText("%i", [Int(i)]) == SignedDecimal(i)
    ensures Typed("%I", [Int(i)]) && FormatText("%I", [Int(i)]) == SignedDecimal(i)
    ensures Typed("%u", [Unsigned(u)]) && FormatText("%u", [Unsigned(u)]) == Decimal(u)
    ensures Typed("%U", [Unsigned(u)]) && FormatText("%U", [Unsigned(u)]) == Decimal(u)
    ensures c !in "sSiIuU" ==> Typed(['%', c], []) && FormatText(['%', c], []) == [c]
    ensures c != '%' ==> Typed([c], []) && FormatText([c], []) == [c]
  {
    OneDirectiveMeans('s', Str(text));
    OneDirectiveMeans('S', Str(text));
    OneDirectiveMeans('i', Int(i));
    OneDirectiveMeans('I', Int(i));
    OneDirectiveMeans('u', Unsigned(u));
    OneDirectiveMeans('U', Unsigned(u));
    assert ['%', c][2..] == "" && [c][1..] == "" && FormatText("", []) == "";
  }

  lemma OneDirectiveMeans(letter: char, arg: FmtArg)
    requires if arg.Str? then letter == 'S' || (letter == 's') else if arg.Int? then letter in "iI" else letter in "uU"
    requires arg.Int? ==> -LL_LIMIT < arg.i < LL_LIMIT
    requires arg.Unsigned? ==> arg.u < ULL_LIMIT
    ensures (arg.Str? && letter == 's' ==> '\0' !in arg.text) ==>
              Typed(['%', letter], [arg]) && FormatText(['%', letter], [arg]) == ArgText(arg)
  {
    assert ['%', letter][2..] == "" && [arg][1..] == [];
    assert ArgText(arg) + "" == ArgText(arg);
  }

  /** A format is formatted from left to right, each directive with the next argument. */
  lemma {:induction false} FormatsInOrder(f: string, g: string, a: seq<FmtArg>, b: seq<FmtArg>)
    requires Typed(f, a) && Typed(g, b)
    ensures Typed(f + g, a + b) && FormatText(f + g, a + b) == FormatText(f, a) + FormatText(g, b)
    decreases |f|
  {
    if f == "" {
      assert f + g == g && a + b == b;
    } else {
      var n := if f[0] == '%' then 2 else 1;
      var used := if f[0] == '%' && f[1] in "sSiIuU" then 1 else 0;
      assert (f + g)[n..] == f[n..] + g && (f + g)[0] == f[0];
      assert (a + b)[used..] == a[used..] + b && a[0..] == a;
      FormatsInOrder(f[n..], g, a[used..], b);
      var first := if used == 1 then ArgText(a[0]) else [f[n - 1]];
      Assoc(first, FormatText(f[n..], a[used..]), FormatText(g, b));
    }
  }

  method CatArg(s: string, arg: FmtArg) returns (r: string)
    requires arg.Int? ==> -LL_LIMIT < arg.i < LL_LIMIT
    requires arg.Unsigned? ==> arg.u < ULL_LIMIT
    ensures r == s + ArgText(arg)
  {
    match arg
    case Str(text) =>
      r := s + text;
    case Int(i) =>
      var buf := new char[LLSTR_SIZE];
      var l := Ll2Str(buf, i);
      r := s + buf[..l];
    case Unsigned(u) =>
      var buf := new char[LLSTR_SIZE];
      var l := Ull2Str(buf, u);
      r := s + buf[..l];
  }

  method CatFmt(s: string, fmt: string, args: seq<FmtArg>) returns (r: string)
    requires Typed(fmt, args)
    ensures r == s + FormatText(fmt, args)
  {
    r := s;
    var f, k := 0, 0;
    assert fmt[f..] == fmt && args[k..] == args;
    while f < |fmt|
      invariant 0 <= f <= |fmt| && 0 <= k <= |args|
      invariant Typed(fmt[f..], args[k..])
      invariant r + FormatText(fmt[f..], args[k..]) == s + FormatText(fmt, args)
      decreases |fmt| - f
    {
      ghost var before, rest := r, fmt[f..];
      assert rest[1..] == fmt[f + 1..];
      if fmt[f] == '%' {
        assert rest[2..] == fmt[f + 2..];
        var next := fmt[f + 1];
        f := f + 1;
        if next in "sSiIuU" {
          assert args[k..][1..] == args[k + 1..];
          r := CatArg(r, args[k]);
          k := k + 1;
        } else {
          r := r + [next];
        }
      } else {
        r := r + [fmt[f]];
      }
      f := f + 1;
      Assoc(before, r[|before|..], FormatText(fmt[f..], args[k..]));
    }
    assert FormatText(fmt[f..], args[k..]) == "";
  }

  lemma NumberLine(fmt: string, letter: char, arg: FmtArg)
    requires letter != '%'
    requires !arg.Str? && fmt == [letter, '%', if arg.Int? then 'i' else 'u', '\r', '\n']
    requires if arg.Int? then -LL_LIMIT < arg.i < LL_LIMIT else arg.u < ULL_LIMIT
    ensures Typed(fmt, [arg]) && FormatText(fmt, [arg]) == [letter] + ArgText(arg) + CRLF
  {
    var directive := ['%', if arg.Int? then 'i' else 'u'];
    assert fmt == [letter] + (directive + CRLF);
    LineEndLiteral();
    DirectiveFirst(directive, CRLF, arg);
    assert fmt[1..] == directive + CRLF;
    Assoc([letter], ArgText(arg), CRLF);
  }

  lemma LineEndLiteral()
    ensures Typed(CRLF, []) && FormatText(CRLF, []) == CRLF
  {
    assert CRLF[1..] == "\n" && "\n"[1..] == "";
    assert Typed("\n", []) && FormatText("\n", []) == "\n";
  }

  /** A directive stands for its argument, and the rest for itself. */
  lemma DirectiveFirst(directive: string, rest: string, arg: FmtArg)
    requires directive == ['%', if arg.Int? then 'i' else 'u'] && !arg.Str? && Typed(rest, [])
    requires if arg.Int? then -LL_LIMIT < arg.i < LL_LIMIT else arg.u < ULL_LIMIT
    ensures Typed(directive + rest, [arg])
    ensures FormatText(directive + rest, [arg]) == ArgText(arg) + FormatText(rest, [])
  {
    assert (directive + rest)[2..] == rest && [arg][1..] == [];
  }
}
