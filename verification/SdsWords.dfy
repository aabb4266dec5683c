/**
 What a line of arguments means: bare words, words in double or single quotes,
 escapes, and the lines that are refused.
 */
module SdsWords {
  import opened Bytes
  import opened SdsQuote

  /** Bytes that stand for themselves outside quotes. */
  predicate Bare(w: string) {
    forall i :: 0 <= i < |w| ==> w[i] !in "\0\"' \t\n\r" && w[i] as int != 11 && w[i] as int != 12
  }

  /** The end of a line, or a blank. */
  predicate EndsWord(tail: string) {
    tail == "" || tail[0] in "\0 \t\n\r" || tail[0] as int == 11 || tail[0] as int == 12
  }

  lemma EndsWordIsBlank(tail: string)
    ensures EndsWord(tail) <==> At(tail, 0) == NUL || IsSpace(At(tail, 0))
  {
  }

  // --------------------------------------------------------------- bare words

  lemma {:induction false} BarePrefix(w: string, s: string, cur: string)
    requires Bare(w)
    ensures ReadToken(w + s, Plain, cur) == ReadToken(s, Plain, cur + w)
    decreases |w|
  {
    if w == "" {
      assert w + s == s && cur + w == cur;
    } else {
      assert w[0] !in "\0\"' \t\n\r";
      assert (w + s)[1..] == w[1..] + s;
      BarePrefix(w[1..], s, cur + [w[0]]);
      Assoc(cur, [w[0]], w[1..]);
      assert [w[0]] + w[1..] == w;
    }
  }

  lemma OutsideQuotes(s: string, cur: string)
    ensures ReadToken("", Plain, cur) == Token(cur, "")
    ensures ReadToken(" " + s, Plain, cur) == Token(cur, s)
    ensures ReadToken("\"" + s, Plain, cur) == ReadToken(s, Quoted, cur)
    ensures ReadToken("'" + s, Plain, cur) == ReadToken(s, Single, cur)
  {
    assert (" " + s)[1..] == s && ("\"" + s)[1..] == s && ("'" + s)[1..] == s;
  }

  // ------------------------------------------------------------ double quotes

  /** What the escapes between double quotes mean. */
  lemma EscapesMean(c: char, tail: string, cur: string)
    ensures ReadToken("\\n" + tail, Quoted, cur) == ReadToken(tail, Quoted, cur + "\n")
    ensures ReadToken("\\r" + tail, Quoted, cur) == ReadToken(tail, Quoted, cur + "\r")
    ensures ReadToken("\\t" + tail, Quoted, cur) == ReadToken(tail, Quoted, cur + "\t")
    ensures ReadToken("\\b" + tail, Quoted, cur) == ReadToken(tail, Quoted, cur + [8 as char])
    ensures ReadToken("\\a" + tail, Quoted, cur) == ReadToken(tail, Quoted, cur + [7 as char])
    ensures c !in "nrtbax\0" ==> ReadToken(['\\', c] + tail, Quoted, cur) == ReadToken(tail, Quoted, cur + [c])
    ensures c !in "\\\"\0" ==> ReadToken([c] + tail, Quoted, cur) == ReadToken(tail, Quoted, cur + [c])
  {
    hide ReadToken;
    OneEscape('n', tail, cur);
    OneEscape('r', tail, cur);
    OneEscape('t', tail, cur);
    OneEscape('b', tail, cur);
    OneEscape('a', tail, cur);
    if c !in "nrtbax\0" {
      OneEscape(c, tail, cur);
    }
    if c !in "\\\"\0" {
      OneOrdinary(c, tail, cur);
    }
  }

  lemma OneOrdinary(c: char, tail: string, cur: string)
    requires c !in "\\\"\0"
    ensures ReadToken([c] + tail, Quoted, cur) == ReadToken(tail, Quoted, cur + [c])
  {
    assert ([c] + tail)[1..] == tail;
  }

  lemma OneEscape(c: char, tail: string, cur: string)
    requires c !in "x\0"
    ensures ReadToken(['\\', c] + tail, Quoted, cur) == ReadToken(tail, Quoted, cur + [Unescape(c)])
  {
    assert (['\\', c] + tail)[2..] == tail;
  }

  /** Two hexadecimal digits, of either case, are one byte. */
  lemma HexEscapesMean(hi: nat, lo: nat, tail: string, cur: string)
    requires hi < 16 && lo < 16
    ensures ReadToken(['\\', 'x', "0123456789abcdef"[hi], "0123456789abcdef"[lo]] + tail, Quoted, cur) ==
            ReadToken(tail, Quoted, cur + [(16 * hi + lo) as char])
    ensures ReadToken(['\\', 'x', "0123456789ABCDEF"[hi], "0123456789ABCDEF"[lo]] + tail, Quoted, cur) ==
            ReadToken(tail, Quoted, cur + [(16 * hi + lo) as char])
  {
    HexDigits(hi);
    HexDigits(lo);
    OneHexEscape("0123456789abcdef"[hi], "0123456789abcdef"[lo], hi, lo, tail, cur);
    OneHexEscape("0123456789ABCDEF"[hi], "0123456789ABCDEF"[lo], hi, lo, tail, cur);
  }

  lemma HexDigits(d: nat)
    requires d < 16
    ensures IsHexDigit("0123456789abcdef"[d]) && HexDigitToInt("0123456789abcdef"[d]) == d
    ensures IsHexDigit("0123456789ABCDEF"[d]) && HexDigitToInt("0123456789ABCDEF"[d]) == d
  {
  }

  lemma OneHexEscape(h: char, l: char, hi: nat, lo: nat, tail: string, cur: string)
    requires IsHexDigit(h) && IsHexDigit(l) && HexDigitToInt(h) == hi && HexDigitToInt(l) == lo
    ensures ReadToken(['\\', 'x', h, l] + tail, Quoted, cur) == ReadToken(tail, Quoted, cur + [(16 * hi + lo) as char])
  {
    assert (['\\', 'x', h, l] + tail)[4..] == tail;
  }

  /** How a quoted byte is written. */
  lemma WrittenEscapes(c: char)
    ensures Escape('\\') == "\\\\" && Escape('"') == "\\\""
    ensures Escape('\n') == "\\n" && Escape('\r') == "\\r" && Escape('\t') == "\\t"
    ensures Escape(7 as char) == "\\a" && Escape(8 as char) == "\\b"
    ensures 32 <= c as int <= 126 && c !in "\\\"" ==> Escape(c) == [c]
    ensures c as int < 256 && !(32 <= c as int <= 126) && c !in "\n\r\t" && c as int != 7 && c as int != 8 ==>
              Escape(c) == ['\\', 'x', "0123456789abcdef"[c as int / 16], "0123456789abcdef"[c as int % 16]]
  {
    if c as int < 256 && !(32 <= c as int <= 126) && c !in "\n\r\t" && c as int != 7 && c as int != 8 {
      WrittenInHex(c);
    }
  }

  lemma WrittenInHex(c: char)
    requires c as int < 256 && !(32 <= c as int <= 126) && c !in "\n\r\t" && c as int != 7 && c as int != 8
    ensures Escape(c) == ['\\', 'x', "0123456789abcdef"[c as int / 16], "0123456789abcdef"[c as int % 16]]
  {
    hide HexDigit;
    HexWritten(c as int / 16);
    HexWritten(c as int % 16);
    assert c as int / 16 % 16 == c as int / 16;
  }

  lemma HexWritten(d: nat)
    requires d < 16
    ensures HexDigit(d) == "0123456789abcdef"[d]
  {
  }

  /** A closing double quote in front of anything but a blank or the end is an error, and so is a missing one. */
  lemma {:induction false} DoubleQuotesRefused(p: string, tail: string, cur: string)
    requires OfBytes(p)
    ensures ReadToken(EscapeAll(p), Quoted, cur) == Malformed
    ensures !EndsWord(tail) ==> ReadToken(EscapeAll(p) + ("\"" + tail), Quoted, cur) == Malformed
    decreases |p|
  {
    var close := "\"" + tail;
    if p == "" {
      assert EscapeAll(p) + close == close && At(close, 1) == At(tail, 0);
      EndsWordIsBlank(tail);
    } else {
      Assoc(Escape(p[0]), EscapeAll(p[1..]), close);
      EscapeIsReadBack(p[0], EscapeAll(p[1..]), cur);
      EscapeIsReadBack(p[0], EscapeAll(p[1..]) + close, cur);
      DoubleQuotesRefused(p[1..], tail, cur + [p[0]]);
    }
  }

  // ------------------------------------------------------------ single quotes

  /** Between single quotes only the quote itself is escaped. */
  function EscapeQuotes(p: string): string {
    if p == "" then "" else (if p[0] == '\'' then "\\'" else [p[0]]) + EscapeQuotes(p[1..])
  }

  /** One byte between single quotes, when what follows does not make a backslash an escape. */
  lemma OneSingle(c: char, rest: string, cur: string)
    requires c != NUL && (c == '\\' ==> At(rest, 0) != '\'')
    ensures var e := if c == '\'' then "\\'" else [c];
            ReadToken(e + rest, Single, cur) == ReadToken(rest, Single, cur + [c])
  {
    var e := if c == '\'' then "\\'" else [c];
    assert (e + rest)[|e|..] == rest;
  }

  /** What is written between single quotes never starts with a quote itself. */
  lemma QuotesAreHidden(q: string, tail: string)
    requires q != ""
    ensures EscapeQuotes(q) != "" && EscapeQuotes(q)[0] != '\'' && At(EscapeQuotes(q) + tail, 0) != '\''
  {
  }

  lemma {:induction false} SinglesAreReadBack(p: string, tail: string, cur: string)
    requires '\0' !in p && (p != "" ==> p[|p| - 1] != '\\')
    ensures ReadToken(EscapeQuotes(p) + ("'" + tail), Single, cur) ==
            if EndsWord(tail) then Token(cur + p, tail) else Malformed
    decreases |p|
  {
    var close := "'" + tail;
    if p == "" {
      assert EscapeQuotes(p) + close == close && close[1..] == tail && At(close, 1) == At(tail, 0);
      assert cur + p == cur;
      EndsWordIsBlank(tail);
    } else {
      var e := if p[0] == '\'' then "\\'" else [p[0]];
      var rest := EscapeQuotes(p[1..]) + close;
      Assoc(e, EscapeQuotes(p[1..]), close);
      if p[0] == '\\' {
        QuotesAreHidden(p[1..], close);
      }
      assert p[0] in p;
      OneSingle(p[0], rest, cur);
      SinglesAreReadBack(p[1..], tail, cur + [p[0]]);
      Assoc(cur, [p[0]], p[1..]);
      assert [p[0]] + p[1..] == p;
    }
  }

  lemma {:induction false} SinglesUnclosed(p: string, cur: string)
    requires '\0' !in p
    ensures ReadToken(EscapeQuotes(p), Single, cur) == Malformed
    decreases |p|
  {
    if p != "" {
      assert p[0] in p;
      var rest := EscapeQuotes(p[1..]);
      if p[1..] != "" {
        QuotesAreHidden(p[1..], "");
      }
      OneSingle(p[0], rest, cur);
      SinglesUnclosed(p[1..], cur + [p[0]]);
    }
  }

  /** What has been read of a token stays in front. */
  lemma {:induction false} TokensGrow(s: string, mode: Mode, cur: string)
    ensures var t := ReadToken(s, mode, cur);
            t.Token? ==> cur <= t.text
    decreases |s|
  {
    var c := At(s, 0);
    match mode
    case Quoted =>
      if IsHexEscape(s) {
        TokensGrow(s[4..], Quoted, cur + [HexByte(s)]);
      } else if c == '\\' && At(s, 1) != NUL {
        TokensGrow(s[2..], Quoted, cur + [Unescape(At(s, 1))]);
      } else if c != '"' && c != NUL {
        TokensGrow(s[1..], Quoted, cur + [c]);
      }
    case Single =>
      if c == '\\' && At(s, 1) == '\'' {
        TokensGrow(s[2..], Single, cur + "'");
      } else if c != '\'' && c != NUL {
        TokensGrow(s[1..], Single, cur + [c]);
      }
    case Plain =>
      if c == '"' {
        TokensGrow(s[1..], Quoted, cur);
      } else if c == '\'' {
        TokensGrow(s[1..], Single, cur);
      } else if c !in "\0 \n\r\t" {
        TokensGrow(s[1..], Plain, cur + [c]);
      }
  }

  /** Bytes that end in a backslash cannot be put in single quotes: the backslash takes the closing quote along. */
  lemma {:induction false} BackslashTakesTheQuote(p: string, tail: string, cur: string)
    requires '\0' !in p && p != "" && p[|p| - 1] == '\\'
    ensures var t := ReadToken(EscapeQuotes(p) + ("'" + tail), Single, cur);
            t.Token? ==> t.text != cur + p
    decreases |p|
  {
    var close := "'" + tail;
    if |p| == 1 {
      assert EscapeQuotes(p) + close == "\\'" + tail by {
        assert p == "\\" && p[1..] == "";
      }
      QuoteInstead(tail, cur);
      assert cur + p == cur + "\\";
    } else {
      hide ReadToken;
      var e := if p[0] == '\'' then "\\'" else [p[0]];
      Assoc(e, EscapeQuotes(p[1..]), close);
      QuotesAreHidden(p[1..], close);
      assert p[0] in p && p[1..][|p| - 2] == '\\';
      OneSingle(p[0], EscapeQuotes(p[1..]) + close, cur);
      BackslashTakesTheQuote(p[1..], tail, cur + [p[0]]);
      Assoc(cur, [p[0]], p[1..]);
      assert [p[0]] + p[1..] == p;
    }
  }

  lemma QuoteInstead(tail: string, cur: string)
    ensures var t := ReadToken("\\'" + tail, Single, cur);
            t.Token? ==> t.text != cur + "\\"
  {
    var s := "\\'" + tail;
    assert s[2..] == tail && At(s, 0) == '\\' && At(s, 1) == '\'';
    assert ReadToken(s, Single, cur) == ReadToken(tail, Single, cur + "'");
    hide ReadToken;
    TokensGrow(tail, Single, cur + "'");
    assert (cur + "'")[|cur|] == '\'' && (cur + "\\")[|cur|] == '\\';
  }

  /** Single quotes give bytes back exactly if those do not end in a backslash. */
  lemma SingleQuotesExactly(p: string, tail: string)
    requires '\0' !in p && EndsWord(tail)
    ensures ReadToken("'" + EscapeQuotes(p) + "'" + tail, Plain, "") == Token(p, tail) <==>
            p == "" || p[|p| - 1] != '\\'
  {
    var body := EscapeQuotes(p) + ("'" + tail);
    Assoc("'", EscapeQuotes(p), "'");
    Assoc("'" + EscapeQuotes(p), "'", tail);
    Assoc("'", EscapeQuotes(p), "'" + tail);
    OutsideQuotes(body, "");
    assert "" + p == p;
    if p == "" || p[|p| - 1] != '\\' {
      SinglesAreReadBack(p, tail, "");
    } else {
      BackslashTakesTheQuote(p, tail, "");
    }
  }

  // ------------------------------------------------------------- whole lines

  /** A word of a line: bare, or with a part in quotes behind a bare part that may be empty. */
  datatype Word = Unquoted(text: string) | Double(before: string, text: string) | InSingle(before: string, text: string)

  predicate Writable(w: Word) {
    match w
    case Unquoted(text) => text != "" && Bare(text)
    case Double(before, text) => Bare(before) && OfBytes(text)
    case InSingle(before, text) => Bare(before) && '\0' !in text && (text != "" ==> text[|text| - 1] != '\\')
  }

  function Written(w: Word): string
    requires Writable(w)
  {
    match w
    case Unquoted(text) => text
    case Double(before, text) => before + ("\"" + (EscapeAll(text) + "\""))
    case InSingle(before, text) => before + ("'" + (EscapeQuotes(text) + "'"))
  }

  function Meant(w: Word): string {
    match w
    case Unquoted(text) => text
    case Double(before, text) => before + text
    case InSingle(before, text) => before + text
  }

  /** What is left of the line behind a word: a bare one takes the blank after it along. */
  lemma WordIsRead(w: Word, tail: string)
    requires Writable(w) && (tail == "" || tail[0] == ' ')
    ensures ReadToken(Written(w) + tail, Plain, "") ==
            Token(Meant(w), if w.Unquoted? && tail != "" then tail[1..] else tail)
  {
    hide ReadToken, EscapeAll, EscapeQuotes, Bare;
    match w
    case Unquoted(text) =>
      BarePrefix(text, tail, "");
      OutsideQuotes(if tail == "" then "" else tail[1..], text);
      assert "" + text == text && (tail != "" ==> tail == " " + tail[1..]);
    case Double(before, text) =>
      var body := EscapeAll(text) + "\"" + tail;
      Assoc(before, "\"" + (EscapeAll(text) + "\""), tail);
      Assoc("\"", EscapeAll(text) + "\"", tail);
      BarePrefix(before, "\"" + body, "");
      assert "" + before == before;
      OutsideQuotes(body, before);
      EscapesAreReadBack(text, tail, before);
    case InSingle(before, text) =>
      var body := EscapeQuotes(text) + ("'" + tail);
      Assoc(before, "'" + (EscapeQuotes(text) + "'"), tail);
      Assoc("'", EscapeQuotes(text) + "'", tail);
      Assoc(EscapeQuotes(text), "'", tail);
      BarePrefix(before, "'" + body, "");
      assert "" + before == before;
      OutsideQuotes(body, before);
      SinglesAreReadBack(text, tail, before);
  }

  lemma WordsStart(w: Word)
    requires Writable(w)
    ensures Written(w) != "" && Written(w)[0] != NUL && !IsSpace(Written(w)[0])
  {
    match w
    case Unquoted(text) => assert text[0] !in "\0\"' \t\n\r";
    case Double(before, _) => assert before != "" ==> before[0] !in "\0\"' \t\n\r";
    case InSingle(before, _) => assert before != "" ==> before[0] !in "\0\"' \t\n\r";
  }

  lemma BlanksAreSkipped(c: char, s: string)
    requires c in " \t\n\r" || c as int == 11 || c as int == 12
    ensures SplitLine([c] + s) == SplitLine(s)
  {
    assert ([c] + s)[1..] == s;
  }

  /** The words, each with a space after it. */
  function Lead(words: seq<Word>): string
    requires forall i :: 0 <= i < |words| ==> Writable(words[i])
  {
    if words == [] then "" else Written(words[0]) + (" " + Lead(words[1..]))
  }

  function Meanings(words: seq<Word>): (texts: seq<string>)
    ensures |texts| == |words| && forall i :: 0 <= i < |words| ==> texts[i] == Meant(words[i])
  {
    seq(|words|, i requires 0 <= i < |words| => Meant(words[i]))
  }

  /** The words at the front of a line are its first arguments, and the rest decides about the rest. */
  lemma {:induction false} WordsComeFirst(words: seq<Word>, s: string)
    requires forall i :: 0 <= i < |words| ==> Writable(words[i])
    ensures SplitLine(Lead(words) + s) ==
            match SplitLine(s) { case None => None case Some(more) => Some(Meanings(words) + more) }
    decreases |words|
  {
    if words == [] {
      assert Lead(words) + s == s;
      assert SplitLine(s).Some? ==> [] + SplitLine(s).value == SplitLine(s).value;
    } else {
      hide SplitLine, Written, Writable, Meant;
      var w, rest := words[0], Lead(words[1..]) + s;
      Assoc(Written(w), " " + Lead(words[1..]), s);
      Assoc(" ", Lead(words[1..]), s);
      WordThenRest(w, rest);
      WordsComeFirst(words[1..], s);
      assert Meanings(words) == [Meant(w)] + Meanings(words[1..]);
      if SplitLine(s).Some? {
        Assoc([Meant(w)], Meanings(words[1..]), SplitLine(s).value);
      }
    }
  }

  /** One word and a blank in front of a line are one argument more. */
  lemma WordThenRest(w: Word, rest: string)
    requires Writable(w)
    ensures SplitLine(Written(w) + (" " + rest)) ==
            match SplitLine(rest) { case None => None case Some(more) => Some([Meant(w)] + more) }
  {
    hide ReadToken, Written, Writable, Meant;
    var line := Written(w) + (" " + rest);
    WordsStart(w);
    assert line[0] == Written(w)[0];
    WordIsRead(w, " " + rest);
    assert (" " + rest)[1..] == rest;
    BlanksAreSkipped(' ', rest);
  }

  /** A line of words splits into what the words mean; the last one may end the line. */
  lemma LinesSplitIntoWords(words: seq<Word>, last: Word)
    requires (forall i :: 0 <= i < |words| ==> Writable(words[i])) && Writable(last)
    ensures SplitLine(Lead(words)) == Some(Meanings(words))
    ensures SplitLine(Lead(words) + Written(last)) == Some(Meanings(words) + [Meant(last)])
  {
    hide *;
    LinesOfOne(last);
    WordsComeFirst(words, "");
    assert Lead(words) + "" == Lead(words) && Meanings(words) + [] == Meanings(words);
    WordsComeFirst(words, Written(last));
  }

  lemma LinesOfOne(last: Word)
    requires Writable(last)
    ensures SplitLine("") == Some([]) && SplitLine(Written(last)) == Some([Meant(last)])
  {
    hide ReadToken, Written, Meant, Writable;
    WordIsRead(last, "");
    WordsStart(last);
    assert Written(last) + "" == Written(last);
    assert [Meant(last)] + [] == [Meant(last)];
  }

  /** An opening quote without its closing one is refused, wherever in the line it comes. */
  lemma UnclosedIsRefused(words: seq<Word>, before: string, text: string)
    requires (forall i :: 0 <= i < |words| ==> Writable(words[i])) && Bare(before)
    ensures OfBytes(text) ==> SplitLine(Lead(words) + (before + ("\"" + EscapeAll(text)))) == None
    ensures '\0' !in text ==> SplitLine(Lead(words) + (before + ("'" + EscapeQuotes(text)))) == None
  {
    hide EscapeAll, EscapeQuotes, SplitLine;
    if OfBytes(text) {
      DoubleQuotesRefused(text, "", before);
      QuotedPart(words, before, "\"" + EscapeAll(text));
    }
    if '\0' !in text {
      SinglesUnclosed(text, before);
      QuotedPart(words, before, "'" + EscapeQuotes(text));
    }
  }

  /** A closing quote must be followed by a blank or the end of the line. */
  lemma BadlyClosedIsRefused(words: seq<Word>, before: string, text: string, tail: string)
    requires (forall i :: 0 <= i < |words| ==> Writable(words[i])) && Bare(before) && !EndsWord(tail)
    ensures OfBytes(text) ==> SplitLine(Lead(words) + (before + ("\"" + (EscapeAll(text) + ("\"" + tail))))) == None
    ensures '\0' !in text && (text != "" ==> text[|text| - 1] != '\\') ==>
              SplitLine(Lead(words) + (before + ("'" + (EscapeQuotes(text) + ("'" + tail))))) == None
  {
    hide EscapeAll, EscapeQuotes, SplitLine;
    if OfBytes(text) {
      DoubleQuotesRefused(text, tail, before);
      QuotedPart(words, before, "\"" + (EscapeAll(text) + ("\"" + tail)));
    }
    if '\0' !in text && (text != "" ==> text[|text| - 1] != '\\') {
      SinglesAreReadBack(text, tail, before);
      QuotedPart(words, before, "'" + (EscapeQuotes(text) + ("'" + tail)));
    }
  }

  /** A quoting error behind good words is an error of the line. */
  lemma QuotedPart(words: seq<Word>, before: string, quoted: string)
    requires (forall i :: 0 <= i < |words| ==> Writable(words[i])) && Bare(before)
    requires quoted != "" && quoted[0] in "\"'"
    requires ReadToken(quoted[1..], if quoted[0] == '"' then Quoted else Single, before) == Malformed
    ensures SplitLine(Lead(words) + (before + quoted)) == None
  {
    hide ReadToken, SplitLine, Lead, Writable;
    var s := before + quoted;
    WordsComeFirst(words, s);
    BarePrefix(before, quoted, "");
    assert "" + before == before && [quoted[0]] + quoted[1..] == quoted;
    OutsideQuotes(quoted[1..], before);
    assert s[0] == (if before == "" then quoted[0] else before[0]);
    assert before != "" ==> before[0] !in "\0\"' \t\n\r";
    MalformedToken(s);
  }

  lemma MalformedToken(s: string)
    requires s != "" && s[0] != NUL && !IsSpace(s[0]) && ReadToken(s, Plain, "") == Malformed
    ensures SplitLine(s) == None
  {
    hide ReadToken;
  }
}
