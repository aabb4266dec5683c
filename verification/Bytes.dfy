/**
 Byte strings and decimal numbers, as the protocol code sees them.

 A byte is a `char`; `string` plays the part of a counted buffer, so NULs are
 ordinary elements. Numbers are unbounded.
 */
module Bytes {

  datatype Option<+T> = None | Some(value: T)

  const CRLF := "\r\n"

  lemma Assoc<T>(a: seq<T>, b: seq<T>, c: seq<T>)
    ensures a + b + c == a + (b + c)
  {
  }

  lemma TakeSnoc<T>(s: seq<T>, k: nat)
    requires k < |s|
    ensures s[..k + 1] == s[..k] + [s[k]]
  {
  }

  lemma SuffixSlice<T>(s: seq<T>, p: nat, a: nat, b: nat)
    requires a <= b && p + b <= |s|
    ensures s[p..][a..b] == s[p + a..p + b] && s[p..][b..] == s[p + b..]
  {
  }

  lemma PrefixSlice<T>(s: seq<T>, n: nat, a: nat, b: nat)
    requires a <= b <= n <= |s|
    ensures s[..n][a..b] == s[a..b]
  {
  }

  predicate CrlfAt(s: string, i: int) {
    0 <= i && i + 1 < |s| && s[i] == '\r' && s[i + 1] == '\n'
  }

  ghost predicate HasCrlf(s: string) {
    exists i :: CrlfAt(s, i)
  }

  /** The position of the first CRLF of `s`. */
  function FindCrlf(s: string): (r: Option<nat>)
    ensures r.Some? ==> CrlfAt(s, r.value) && forall i :: 0 <= i < r.value ==> !CrlfAt(s, i)
    ensures r.None? ==> forall i :: !CrlfAt(s, i)
  {
    if |s| < 2 then None
    else if CrlfAt(s, 0) then Some(0)
    else
      var tail := FindCrlf(s[1..]);
      assert forall i :: 1 <= i < |s| ==> (CrlfAt(s, i) <==> CrlfAt(s[1..], i - 1));
      match tail
      case None => None
      case Some(n) => Some(n + 1)
  }

  lemma FindCrlfUnique(s: string, n: nat)
    requires CrlfAt(s, n) && forall i :: 0 <= i < n ==> !CrlfAt(s, i)
    ensures FindCrlf(s) == Some(n)
  {
  }

  /** More bytes never move a line end that was already there. */
  lemma FindCrlfExtends(s: string, t: string)
    requires FindCrlf(s).Some?
    ensures FindCrlf(s + t) == FindCrlf(s)
  {
    var n := FindCrlf(s).value;
    assert CrlfAt(s + t, n);
    forall i | 0 <= i < n ensures !CrlfAt(s + t, i) {
      assert !CrlfAt(s, i);
    }
    FindCrlfUnique(s + t, n);
  }

  /** A line without CRLF is found whole, even when it ends in a lone CR. */
  lemma FindCrlfAfterLine(line: string, t: string)
    requires !HasCrlf(line)
    ensures FindCrlf(line + CRLF + t) == Some(|line|)
  {
    var s := line + CRLF + t;
    assert CrlfAt(s, |line|);
    forall i | 0 <= i < |line| ensures !CrlfAt(s, i) {
      assert !CrlfAt(line, i);
    }
    FindCrlfUnique(s, |line|);
  }

  lemma SplitAtCrlf(s: string, n: nat)
    requires CrlfAt(s, n)
    ensures s[..n + 2] == s[..n] + CRLF
  {
    assert CRLF == [s[n], s[n + 1]];
  }

  lemma CutAtCrlf(s: string, n: nat)
    requires CrlfAt(s, n)
    ensures s == s[..n] + CRLF + s[n + 2..]
  {
    SplitAtCrlf(s, n);
    assert s == s[..n + 2] + s[n + 2..];
  }

  lemma NoCrlfBefore(s: string, n: nat)
    requires n <= |s| && forall i :: 0 <= i < n ==> !CrlfAt(s, i)
    ensures !HasCrlf(s[..n])
  {
    forall i ensures !CrlfAt(s[..n], i) {
      assert 0 <= i < n ==> !CrlfAt(s, i);
    }
  }

  /** The first line of `s`, apart from the rest. */
  lemma FirstLine(s: string)
    requires FindCrlf(s).Some?
    ensures var n := FindCrlf(s).value;
            n + 2 <= |s| && !HasCrlf(s[..n]) && s == s[..n] + CRLF + s[n + 2..]
  {
    hide HasCrlf, FindCrlf;
    var n := FindCrlf(s).value;
    CutAtCrlf(s, n);
    NoCrlfBefore(s, n);
  }

  // ------------------------------------------------------------- characters

  const BEL := 7 as char
  const BS := 8 as char

  predicate IsSpace(c: char) {
    c == ' ' || c == '\t' || c == '\n' || c == '\r' || c == 11 as char || c == 12 as char
  }

  predicate IsPrint(c: char) {
    ' ' <= c <= '~'
  }

  predicate IsHexDigit(c: char) {
    '0' <= c <= '9' || 'a' <= c <= 'f' || 'A' <= c <= 'F'
  }

  function HexDigitToInt(c: char): (d: int)
    ensures 0 <= d < 16
  {
    if '0' <= c <= '9' then c as int - '0' as int
    else if 'a' <= c <= 'f' then c as int - 'a' as int + 10
    else if 'A' <= c <= 'F' then c as int - 'A' as int + 10
    else 0
  }

  function HexDigit(d: int): (c: char)
    requires 0 <= d < 16
    ensures IsHexDigit(c) && HexDigitToInt(c) == d
  {
    if d < 10 then ('0' as int + d) as char else ('a' as int + d - 10) as char
  }

  /** A byte inside double quotes: itself, or one of the escapes for quotes and unprintable bytes. */
  function Escape(c: char): string
  {
    if c == '\\' || c == '"' then ['\\', c]
    else if c == '\n' then "\\n"
    else if c == '\r' then "\\r"
    else if c == '\t' then "\\t"
    else if c == BEL then "\\a"
    else if c == BS then "\\b"
    else if IsPrint(c) then [c]
    else ['\\', 'x', HexDigit(c as int / 16 % 16), HexDigit(c as int % 16)]
  }

  // ---------------------------------------------------------------- decimals

  predicate IsDigit(c: char) {
    '0' <= c <= '9'
  }

  function DigitValue(c: char): int {
    c as int - '0' as int
  }

  function DigitChar(d: nat): (c: char)
    requires d < 10
    ensures IsDigit(c) && DigitValue(c) == d
  {
    ('0' as int + d) as char
  }

  /** Decimal printing, without leading zeros. */
  function Decimal(n: nat): (s: string)
    ensures |s| > 0
    ensures forall i :: 0 <= i < |s| ==> IsDigit(s[i])
  {
    if n < 10 then [DigitChar(n)] else Decimal(n / 10) + [DigitChar(n % 10)]
  }

  function SignedDecimal(v: int): string {
    if v < 0 then "-" + Decimal(-v) else Decimal(v)
  }

  /**
   The digits of `s` up to its first CR (or its end), continuing from `acc`;
   `None` when a byte that is not a digit comes first.
   */
  function ReadDigits(acc: int, s: string): Option<int>
    decreases |s|
  {
    if s == "" || s[0] == '\r' then Some(acc)
    else if IsDigit(s[0]) then ReadDigits(10 * acc + DigitValue(s[0]), s[1..])
    else None
  }

  predicate HasSign(s: string) {
    s != "" && (s[0] == '-' || s[0] == '+')
  }

  /** The number on a protocol line: -1 also stands for unexpected input. */
  function ReadNumber(s: string): int {
    match ReadDigits(0, if HasSign(s) then s[1..] else s)
    case None => -1
    case Some(v) => if s != "" && s[0] == '-' then -v else v
  }

  lemma {:induction false} ReadDigitsAppend(acc: int, a: string, b: string)
    requires '\r' !in a
    ensures ReadDigits(acc, a + b) ==
            match ReadDigits(acc, a) { case None => None case Some(v) => ReadDigits(v, b) }
    decreases |a|
  {
    if a == "" {
      assert a + b == b;
    } else {
      assert (a + b)[1..] == a[1..] + b;
      if IsDigit(a[0]) {
        ReadDigitsAppend(10 * acc + DigitValue(a[0]), a[1..], b);
      }
    }
  }

  lemma {:induction false} ReadDecimal(n: nat)
    ensures ReadDigits(0, Decimal(n)) == Some(n)
  {
    if n < 10 {
      assert Decimal(n)[1..] == "";
    } else {
      ReadDecimal(n / 10);
      var d := [DigitChar(n % 10)];
      ReadDigitsAppend(0, Decimal(n / 10), d);
      assert d[1..] == "";
      assert ReadDigits(n / 10, d) == Some(10 * (n / 10) + n % 10);
    }
  }

  /** The number that decimal digits stand for. */
  function Positional(s: string): int {
    if s == "" then 0 else 10 * Positional(s[..|s| - 1]) + (s[|s| - 1] as int - 48)
  }

  /** Printing gives the decimal digits of a number, the highest first, and no leading zero. */
  lemma {:induction false} DecimalIsPositional(n: nat)
    ensures Positional(Decimal(n)) == n
    ensures forall i :: 0 <= i < |Decimal(n)| ==> 48 <= Decimal(n)[i] as int <= 57
    ensures n > 0 ==> Decimal(n)[0] as int != 48
    ensures n == 0 ==> Decimal(n) == "0"
  {
    var s := Decimal(n);
    if n < 10 {
      assert s[..0] == "";
    } else {
      DecimalIsPositional(n / 10);
      assert s[..|s| - 1] == Decimal(n / 10);
    }
  }

  /** Reading inverts printing, for every integer. */
  lemma ReadNumberInvertsPrinting(v: int)
    ensures ReadNumber(SignedDecimal(v)) == v
  {
    var s := SignedDecimal(v);
    if v < 0 {
      assert s[1..] == Decimal(-v);
      ReadDecimal(-v);
    } else {
      assert IsDigit(s[0]);
      ReadDecimal(v);
    }
  }

  lemma DecimalHasNoCrlf(v: int)
    ensures !HasCrlf(SignedDecimal(v))
    ensures '\r' !in SignedDecimal(v)
  {
    var s := SignedDecimal(v);
    forall i | 0 <= i < |s| ensures s[i] != '\r' {
      if v < 0 && i > 0 {
        assert s[i] == Decimal(-v)[i - 1];
      }
    }
  }
}
