/**
 Command templates: a format whose spaces separate arguments and whose `%s` and
 `%b` are filled in. The fast form scans format and values in one pass; the
 simple form splits the format into words first and fills them in afterwards.
 */
module Template {
  import opened Bytes
  import opened Command

  datatype Piece = Lit(c: char) | Text | Binary | Blank

  /** Only literals and the directives `%s`, `%b` and `%%`; a lone `%` at the end is a literal. */
  predicate Supported(format: string) {
    if format == "" then true
    else if format[0] != '%' || |format| == 1 then format[0] != '\0' && Supported(format[1..])
    else format[1] in "sb%" && Supported(format[2..])
  }

  function Pieces(format: string): seq<Piece>
    requires Supported(format)
  {
    if format == "" then []
    else if format[0] != '%' || |format| == 1 then
      [if format[0] == ' ' then Blank else Lit(format[0])] + Pieces(format[1..])
    else
      [if format[1] == 's' then Text else if format[1] == 'b' then Binary else Lit('%')] + Pieces(format[2..])
  }

  predicate IsHole(p: Piece) {
    p == Text || p == Binary
  }

  function Holes(ps: seq<Piece>): nat {
    if ps == [] then 0 else (if IsHole(ps[0]) then 1 else 0) + Holes(ps[1..])
  }

  // ------------------------------------------------------------- simple form

  /** The pieces before the first blank. */
  function FirstWord(ps: seq<Piece>): (w: seq<Piece>)
    ensures |w| <= |ps|
  {
    if ps == [] || ps[0] == Blank then [] else [ps[0]] + FirstWord(ps[1..])
  }

  /** What follows the first word and the blank after it. */
  function AfterWord(ps: seq<Piece>): (rest: seq<Piece>)
    ensures ps != [] ==> |rest| < |ps|
  {
    if ps == [] then [] else if ps[0] == Blank then ps[1..] else AfterWord(ps[1..])
  }

  /** The words of a format: maximal stretches without a blank. */
  function Words(ps: seq<Piece>): seq<seq<Piece>>
    decreases |ps|
  {
    if ps == [] then []
    else if ps[0] == Blank then Words(ps[1..])
    else [FirstWord(ps)] + Words(AfterWord(ps))
  }

  function FillPiece(p: Piece, args: seq<string>): string {
    match p
    case Lit(c) => [c]
    case Blank => ""
    case Text => if args == [] then "" else CString(args[0])
    case Binary => if args == [] then "" else args[0]
  }

  /** The arguments left once the holes of `ps` have taken theirs. */
  function Remaining(ps: seq<Piece>, args: seq<string>): seq<string> {
    if Holes(ps) <= |args| then args[Holes(ps)..] else []
  }

  /** A word with its holes filled, left to right. */
  function Fill(word: seq<Piece>, args: seq<string>): string {
    if word == [] then ""
    else FillPiece(word[0], args) + Fill(word[1..], Remaining(word[..1], args))
  }

  /** Word by word; the number of results is the number of words, whatever the values hold. */
  function FillAll(words: seq<seq<Piece>>, args: seq<string>): (r: seq<string>)
    ensures |r| == |words|
  {
    if words == [] then []
    else [Fill(words[0], args)] + FillAll(words[1..], Remaining(words[0], args))
  }

  // --------------------------------------------------------------- one pass

  /** Scanning the rest of a format with `cur` as the argument so far. */
  function Scan(ps: seq<Piece>, cur: string, touched: bool, args: seq<string>): seq<string> {
    if ps == [] then (if touched then [cur] else [])
    else if ps[0] == Blank then
      if touched then [cur] + Scan(ps[1..], "", false, args) else Scan(ps[1..], cur, false, args)
    else Scan(ps[1..], cur + FillPiece(ps[0], args), true, Remaining(ps[..1], args))
  }

  lemma HolesFirst(ps: seq<Piece>)
    requires ps != []
    ensures Holes(ps[..1]) == if IsHole(ps[0]) then 1 else 0
  {
    assert ps[..1][1..] == [];
  }

  lemma RemainingFirst(ps: seq<Piece>, args: seq<string>)
    requires ps != []
    ensures Remaining(ps, args) == Remaining(ps[1..], Remaining(ps[..1], args))
  {
    HolesFirst(ps);
  }

  lemma {:induction false} ScanInsideWord(ps: seq<Piece>, cur: string, args: seq<string>)
    ensures var w := FirstWord(ps);
            Scan(ps, cur, true, args) ==
            [cur + Fill(w, args)] + Scan(AfterWord(ps), "", false, Remaining(w, args))
    decreases |ps|
  {
    var w := FirstWord(ps);
    if ps == [] || ps[0] == Blank {
      assert cur + "" == cur;
      assert args[0..] == args;
    } else {
      assert w[1..] == FirstWord(ps[1..]) && w[..1] == ps[..1];
      var args' := Remaining(ps[..1], args);
      ScanInsideWord(ps[1..], cur + FillPiece(ps[0], args), args');
      Assoc(cur, FillPiece(ps[0], args), Fill(w[1..], args'));
      RemainingFirst(w, args);
    }
  }

  /** Substituting while scanning is splitting first and substituting afterwards. */
  lemma {:induction false} SubstitutionCommutesWithSplitting(ps: seq<Piece>, args: seq<string>)
    ensures Scan(ps, "", false, args) == FillAll(Words(ps), args)
    decreases |ps|
  {
    if ps != [] {
      if ps[0] == Blank {
        SubstitutionCommutesWithSplitting(ps[1..], args);
      } else {
        var w := FirstWord(ps);
        assert w[1..] == FirstWord(ps[1..]) && w[..1] == ps[..1];
        var args' := Remaining(ps[..1], args);
        ScanInsideWord(ps[1..], "" + FillPiece(ps[0], args), args');
        Assoc("", FillPiece(ps[0], args), Fill(w[1..], args'));
        assert "" + Fill(w, args) == Fill(w, args);
        assert Words(ps)[1..] == Words(AfterWord(ps));
        assert AfterWord(ps) == AfterWord(ps[1..]);
        RemainingFirst(w, args);
        SubstitutionCommutesWithSplitting(AfterWord(ps), Remaining(w, args));
      }
    }
  }

  /** The arguments a template stands for. */
  function Expand(format: string, args: seq<string>): (r: seq<string>)
    requires Supported(format)
    ensures |r| == |Words(Pieces(format))|
  {
    FillAll(Words(Pieces(format)), args)
  }

  /** Counts and boundaries come from the format: other values only change the filled-in bytes. */
  lemma {:induction false} LiteralsStay(words: seq<seq<Piece>>, args: seq<string>, args': seq<string>, i: nat)
    requires i < |words| && Holes(words[i]) == 0
    ensures FillAll(words, args)[i] == FillAll(words, args')[i]
    decreases |words|
  {
    if i == 0 {
      FillLiteral(words[0], args, args');
    } else {
      LiteralsStay(words[1..], Remaining(words[0], args), Remaining(words[0], args'), i - 1);
    }
  }

  lemma {:induction false} FillLiteral(word: seq<Piece>, args: seq<string>, args': seq<string>)
    requires Holes(word) == 0
    ensures Fill(word, args) == Fill(word, args')
    decreases |word|
  {
    if word != [] {
      FillLiteral(word[1..], Remaining(word[..1], args), Remaining(word[..1], args'));
    }
  }

  // ------------------------------------------------------ what a template means

  /** A percent sign at the end belongs to a directive. */
  predicate Complete(format: string) {
    if format == "" then true
    else if format[0] != '%' then Complete(format[1..])
    else |format| > 1 && Complete(format[2..])
  }

  /** How many bytes of a format its first piece takes. */
  function FirstSize(f: string): nat {
    if f != "" && f[0] != '%' then 1 else 2
  }

  lemma FirstPiece(f: string, g: string)
    requires f != "" && Complete(f) && Supported(f)
    ensures var n := FirstSize(f);
            && n <= |f| && Complete(f[n..]) && Supported(f[n..])
            && Pieces(f) == [Pieces(f)[0]] + Pieces(f[n..])
            && (Supported(f[n..] + g) ==>
                  Supported(f + g) && Pieces(f + g) == [Pieces(f)[0]] + Pieces(f[n..] + g))
  {
    var n := FirstSize(f);
    assert (f + g)[n..] == f[n..] + g && (f + g)[0] == f[0];
    if f[0] == '%' {
      assert (f + g)[1] == f[1];
    }
  }

  lemma {:induction false} PiecesAppend(f: string, g: string)
    requires Complete(f) && Supported(f) && Supported(g)
    ensures Supported(f + g) && Pieces(f + g) == Pieces(f) + Pieces(g)
    decreases |f|
  {
    if f == "" {
      assert f + g == g;
    } else {
      hide Pieces, Supported, Complete;
      FirstPiece(f, g);
      PiecesAppend(f[FirstSize(f)..], g);
      Assoc([Pieces(f)[0]], Pieces(f[FirstSize(f)..]), Pieces(g));
    }
  }

  lemma {:induction false} HolesAppend(ps: seq<Piece>, qs: seq<Piece>)
    ensures Holes(ps + qs) == Holes(ps) + Holes(qs)
    decreases |ps|
  {
    if ps == [] {
      assert ps + qs == qs;
    } else {
      assert (ps + qs)[1..] == ps[1..] + qs;
      HolesAppend(ps[1..], qs);
    }
  }

  /** The first piece takes its value, if it needs one, from the front. */
  lemma FirstTakes(ps: seq<Piece>, qs: seq<Piece>, a: seq<string>, b: seq<string>)
    requires ps != [] && Holes(ps) == |a|
    ensures (ps + qs)[0] == ps[0] && (ps + qs)[1..] == ps[1..] + qs && (ps + qs)[..1] == ps[..1]
    ensures FillPiece(ps[0], a + b) == FillPiece(ps[0], a)
    ensures Remaining(ps[..1], a + b) == Remaining(ps[..1], a) + b && Holes(ps[1..]) == |Remaining(ps[..1], a)|
  {
    hide FillPiece, Remaining;
    HolesFirst(ps);
    FirstRemain(ps[..1], a, b);
    FirstValue(ps[0], a, b);
  }

  lemma FirstRemain(one: seq<Piece>, a: seq<string>, b: seq<string>)
    requires Holes(one) <= |a|
    ensures Remaining(one, a + b) == Remaining(one, a) + b && |Remaining(one, a)| == |a| - Holes(one)
  {
  }

  lemma FirstValue(piece: Piece, a: seq<string>, b: seq<string>)
    requires IsHole(piece) ==> a != []
    ensures FillPiece(piece, a + b) == FillPiece(piece, a)
  {
  }

  lemma {:induction false} FillAppend(ps: seq<Piece>, qs: seq<Piece>, a: seq<string>, b: seq<string>)
    requires Holes(ps) == |a| && Holes(qs) == |b|
    ensures Fill(ps + qs, a + b) == Fill(ps, a) + Fill(qs, b)
    decreases |ps|
  {
    if ps == [] {
      assert ps + qs == qs && a + b == b;
    } else {
      FirstTakes(ps, qs, a, b);
      var a' := Remaining(ps[..1], a);
      FillAppend(ps[1..], qs, a', b);
      Assoc(FillPiece(ps[0], a), Fill(ps[1..], a'), Fill(qs, b));
    }
  }

  lemma {:induction false} ScanToBlank(ps: seq<Piece>, qs: seq<Piece>, cur: string, touched: bool,
                                       a: seq<string>, b: seq<string>)
    requires Holes(ps) == |a| && Holes(qs) == |b| && (!touched ==> cur == "")
    ensures Scan(ps + [Blank] + qs, cur, touched, a + b) == Scan(ps, cur, touched, a) + Scan(qs, "", false, b)
    decreases |ps|
  {
    var all := ps + [Blank] + qs;
    if ps == [] {
      assert all[1..] == qs && a + b == b;
    } else {
      var rest := [Blank] + qs;
      assert all == ps + rest && ps[1..] + [Blank] + qs == ps[1..] + rest;
      FirstTakes(ps, rest, a, b);
      if ps[0] == Blank {
        ScanToBlank(ps[1..], qs, "", false, a, b);
        Assoc([cur], Scan(ps[1..], "", false, a), Scan(qs, "", false, b));
      } else {
        ScanToBlank(ps[1..], qs, cur + FillPiece(ps[0], a), true, Remaining(ps[..1], a), b);
      }
    }
  }

  lemma {:induction false} OneWord(ps: seq<Piece>)
    requires Blank !in ps
    ensures FirstWord(ps) == ps && AfterWord(ps) == []
    decreases |ps|
  {
    if ps != [] {
      OneWord(ps[1..]);
    }
  }

  /** A piece is a blank only for a space in the format. */
  lemma {:induction false} BlanksAreSpaces(f: string)
    requires Supported(f)
    ensures Blank in Pieces(f) ==> ' ' in f
    ensures Pieces(f) == [] <==> f == ""
    decreases |f|
  {
    if f != "" {
      var n := if f[0] != '%' || |f| == 1 then 1 else 2;
      BlanksAreSpaces(f[n..]);
    }
  }

  /** A format without a space is one argument: all of its pieces, filled. */
  lemma WordIsFilled(f: string, args: seq<string>)
    requires Supported(f) && f != "" && ' ' !in f
    ensures Expand(f, args) == [Fill(Pieces(f), args)]
  {
    BlanksAreSpaces(f);
    OneWord(Pieces(f));
    assert Words(Pieces(f)) == [Pieces(f)];
    assert FillAll([Pieces(f)], args) == [Fill(Pieces(f), args)];
  }

  /** A space ends an argument, and the values go to the directives in their order. */
  lemma SpaceSeparates(f: string, g: string, a: seq<string>, b: seq<string>)
    requires Complete(f) && Supported(f) && Supported(g)
    requires Holes(Pieces(f)) == |a| && Holes(Pieces(g)) == |b|
    ensures Supported(f + " " + g) && Expand(f + " " + g, a + b) == Expand(f, a) + Expand(g, b)
  {
    var blank := " ";
    assert blank[1..] == "" && Supported(blank) && Pieces(blank) == [Blank];
    assert Complete(blank);
    PiecesAppend(blank, g);
    PiecesAppend(f, blank + g);
    Assoc(f, blank, g);
    Assoc(Pieces(f), [Blank], Pieces(g));
    SubstitutionCommutesWithSplitting(Pieces(f + " " + g), a + b);
    SubstitutionCommutesWithSplitting(Pieces(f), a);
    SubstitutionCommutesWithSplitting(Pieces(g), b);
    ScanToBlank(Pieces(f), Pieces(g), "", false, a, b);
  }

  /** Without a space between them, two pieces of a format belong to one argument. */
  lemma NoSpaceJoins(f: string, g: string, a: seq<string>, b: seq<string>)
    requires Complete(f) && Supported(f) && Supported(g) && f != "" && g != "" && ' ' !in f && ' ' !in g
    requires Holes(Pieces(f)) == |a| && Holes(Pieces(g)) == |b|
    ensures Supported(f + g) && Expand(f + g, a + b) == [Expand(f, a)[0] + Expand(g, b)[0]]
  {
    PiecesAppend(f, g);
    WordIsFilled(f, a);
    WordIsFilled(g, b);
    WordIsFilled(f + g, a + b);
    FillAppend(Pieces(f), Pieces(g), a, b);
  }

  /** `%b` stands for its value byte for byte, `%s` for its value up to a NUL, `%%` for a percent sign. */
  lemma DirectivesStandFor(v: string)
    ensures Complete("%b") && Complete("%s") && Complete("%%")
    ensures Supported("%b") && Holes(Pieces("%b")) == 1 && Expand("%b", [v]) == [v]
    ensures Supported("%s") && Holes(Pieces("%s")) == 1 && |Expand("%s", [v])| == 1 && Expand("%s", [v])[0] <= v
    ensures '\0' !in v ==> Expand("%s", [v]) == [v]
    ensures '\0' in v ==>
              var text := Expand("%s", [v])[0];
              '\0' !in text && |text| < |v| && v[|text|] == '\0'
    ensures Supported("%%") && Holes(Pieces("%%")) == 0 && Expand("%%", []) == ["%"]
    ensures Supported("%") && Holes(Pieces("%")) == 0 && Expand("%", []) == ["%"]
    ensures Supported("") && Expand("", []) == []
  {
    hide Fill;
    CStringStopsAtNul(v);
    assert Words(Pieces("")) == [];
    OneDirective('b', Binary, [v]);
    OneDirective('s', Text, [v]);
    OneDirective('%', Lit('%'), []);
    assert "%b"[2..] == "" && "%s"[2..] == "" && "%%"[2..] == "";
    assert "%"[1..] == "" && Pieces("%") == [Lit('%')];
    WordIsFilled("%", []);
  }

  lemma OneDirective(letter: char, piece: Piece, args: seq<string>)
    requires (letter, piece) in {('b', Binary), ('s', Text), ('%', Lit('%'))}
    ensures var f := ['%', letter];
            Supported(f) && Pieces(f) == [piece] && Holes([piece]) == (if letter == '%' then 0 else 1) &&
            Expand(f, args) == [FillPiece(piece, args)]
  {
    var f := ['%', letter];
    assert f[2..] == "" && Supported("") && Pieces("") == [];
    assert [piece][1..] == [];
    WordIsFilled(f, args);
    assert FillPiece(piece, args) + "" == FillPiece(piece, args);
  }

  /** Every other byte stands for itself. */
  lemma {:induction false} LiteralsStandForThemselves(w: string)
    requires w != "" && forall i :: 0 <= i < |w| ==> w[i] !in "% \0"
    ensures Supported(w) && Complete(w) && Holes(Pieces(w)) == 0 && Expand(w, []) == [w]
    decreases |w|
  {
    var c := [w[0]];
    assert c[1..] == "" && Supported("") && Pieces(c) == [Lit(w[0])];
    WordIsFilled(c, []);
    assert [Lit(w[0])][1..] == [] && [w[0]] + "" == c;
    if |w| == 1 {
      assert w == c;
    } else {
      var none: seq<string> := [];
      LiteralsStandForThemselves(w[1..]);
      NoSpaceJoins(c, w[1..], none, none);
      HolesAppend(Pieces(c), Pieces(w[1..]));
      PiecesAppend(c, w[1..]);
      assert w == c + w[1..] && none + none == none;
    }
  }

  /** A value between two stretches of text, as in `key:%b:field`. */
  lemma ValueInsideWord(before: string, v: string, after: string)
    requires before != "" && forall i :: 0 <= i < |before| ==> before[i] !in "% \0"
    requires after != "" && forall i :: 0 <= i < |after| ==> after[i] !in "% \0"
    ensures Supported(before + ("%b" + after)) && Expand(before + ("%b" + after), [v]) == [before + (v + after)]
    ensures Supported(before + ("%s" + after))
    ensures '\0' !in v ==> Expand(before + ("%s" + after), [v]) == [before + (v + after)]
  {
    LiteralsStandForThemselves(before);
    LiteralsStandForThemselves(after);
    DirectivesStandFor(v);
    HoleInside("%b", before, v, after);
    HoleInside("%s", before, v, after);
  }

  lemma HoleInside(f: string, before: string, v: string, after: string)
    requires f in {"%b", "%s"} && Supported(f) && Holes(Pieces(f)) == 1 && |Expand(f, [v])| == 1
    requires before != "" && ' ' !in before && Supported(before) && Complete(before) && Expand(before, []) == [before]
    requires after != "" && ' ' !in after && Supported(after) && Expand(after, []) == [after]
    requires Holes(Pieces(before)) == 0 == Holes(Pieces(after))
    ensures Supported(before + (f + after))
    ensures Expand(before + (f + after), [v]) == [before + (Expand(f, [v])[0] + after)]
  {
    hide *;
    DirectivesStandFor(v);
    NoSpaceJoins(f, after, [v], []);
    PiecesAppend(f, after);
    HolesAppend(Pieces(f), Pieces(after));
    assert [v] + [] == [v] && [] + [v] == [v];
    NoSpaceJoins(before, f + after, [], [v]);
  }

  /** For example: key and value of `SET %b %b` arrive whole, whatever bytes they hold. */
  lemma SetCommand(key: string, value: string)
    ensures Supported("SET %b %b") && Holes(Pieces("SET %b %b")) == 2
    ensures Expand("SET %b %b", [key, value]) == ["SET", key, value]
  {
    hide *;
    LiteralsStandForThemselves("SET");
    DirectivesStandFor(key);
    DirectivesStandFor(value);
    SpaceSeparates("%b", "%b", [key], [value]);
    PiecesOfTwo("%b", "%b");
    assert [key] + [value] == [key, value] && "%b" + " " + "%b" == "%b %b";
    SpaceSeparates("SET", "%b %b", [], [key, value]);
    PiecesOfTwo("SET", "%b %b");
    assert [] + [key, value] == [key, value] && "SET" + " " + "%b %b" == "SET %b %b";
  }

  lemma PiecesOfTwo(f: string, g: string)
    requires Complete(f) && Supported(f) && Supported(g)
    ensures Supported(f + " " + g) && Holes(Pieces(f + " " + g)) == Holes(Pieces(f)) + Holes(Pieces(g))
  {
    var blank := " ";
    assert blank[1..] == "" && Supported(blank) && Pieces(blank) == [Blank] && Complete(blank);
    PiecesAppend(blank, g);
    PiecesAppend(f, blank + g);
    Assoc(f, blank, g);
    HolesAppend([Blank], Pieces(g));
    HolesAppend(Pieces(f), [Blank] + Pieces(g));
    assert [Blank][1..] == [];
  }

  // ------------------------------------------------------------- the scanner

  /** `args` holds the variadic values in the order the directives ask for them. */
  method FormatCommand(format: string, args: seq<string>) returns (cmd: array<char>, totlen: nat)
    requires Supported(format) && Holes(Pieces(format)) == |args|
    requires |CommandBytes(Expand(format, args))| < INT_LIMIT
    ensures totlen == |CommandBytes(Expand(format, args))|
    ensures fresh(cmd) && cmd.Length == totlen + 1
    ensures cmd[..totlen] == CommandBytes(Expand(format, args)) && cmd[totlen] == '\0'
  {
    var curargv, argsLen := Split(format, args);
    SubstitutionCommutesWithSplitting(Pieces(format), args);
    var digits := CountDigits(|curargv|);
    totlen := argsLen + 1 + digits + 2;
    cmd := Build(curargv, totlen);
  }

  /** The scanning loop; `totlen` is the length of the arguments' encodings. */
  method Split(format: string, args: seq<string>) returns (curargv: seq<string>, totlen: nat)
    requires Supported(format) && Holes(Pieces(format)) == |args|
    ensures curargv == Scan(Pieces(format), "", false, args)
    ensures totlen == |ArgumentsBytes(curargv)|
  {
    hide ArgumentsBytes, Scan, Pieces, Supported, Holes;
    EmptyFormat();
    var c, k := 0, 0;
    var curarg, touched := "", false;
    curargv, totlen := [], 0;
    assert format[c..] == format && args[k..] == args;
    ghost var ps := Pieces(format);
    ghost var result := Scan(ps, "", false, args);
    while c < |format|
      invariant 0 <= c <= |format| && 0 <= k <= |args|
      invariant Supported(format[c..]) && ps == Pieces(format[c..]) && Holes(ps) == |args| - k
      invariant curargv + Scan(ps, curarg, touched, args[k..]) == result
      invariant totlen == |ArgumentsBytes(curargv)|
      invariant !touched ==> curarg == ""
      decreases |format| - c
    {
      ghost var rest := format[c..];
      PiecesFirst(rest);
      if format[c] != '%' || c + 1 == |format| {
        assert rest[1..] == format[c + 1..];
        if format[c] == ' ' {
          if touched {
            ScanBlank(ps, curarg, touched, args[k..]);
            Assoc(curargv, [curarg], Scan(ps[1..], "", false, args[k..]));
            curargv, totlen := AddArgument(curargv, totlen, curarg);
            curarg, touched := "", false;
          } else {
            ScanBlank(ps, curarg, touched, args[k..]);
          }
        } else {
          ScanPiece(ps, curarg, touched, args, k);
          curarg := curarg + [format[c]];
          touched := true;
        }
      } else {
        assert rest[2..] == format[c + 2..];
        ScanPiece(ps, curarg, touched, args, k);
        curarg, k := Directive(format[c + 1], curarg, args, k);
        touched := true;
        c := c + 1;
      }
      c := c + 1;
      ps := ps[1..];
    }
    ScanEnd(curarg, touched, args[k..]);
    assert format[c..] == "" && ps == [] && curargv + [] == curargv;
    if touched {
      curargv, totlen := AddArgument(curargv, totlen, curarg);
    }
  }

  lemma EmptyFormat()
    ensures Supported("") && Pieces("") == [] && Holes([]) == 0 && ArgumentsBytes([]) == ""
  {
  }

  lemma ScanBlank(ps: seq<Piece>, cur: string, touched: bool, args: seq<string>)
    requires ps != [] && ps[0] == Blank
    ensures Scan(ps, cur, touched, args) ==
            if touched then [cur] + Scan(ps[1..], "", false, args) else Scan(ps[1..], cur, false, args)
  {
  }

  lemma ScanEnd(cur: string, touched: bool, args: seq<string>)
    ensures Scan([], cur, touched, args) == if touched then [cur] else []
  {
  }

  /** One of the directives `%s`, `%b` and `%%`; the first two use up an argument. */
  method Directive(letter: char, curarg: string, args: seq<string>, k: nat) returns (newarg: string, k': nat)
    requires letter in "sb%" && k <= |args| && (letter != '%' ==> k < |args|)
    ensures var p := if letter == 's' then Text else if letter == 'b' then Binary else Lit('%');
            newarg == curarg + FillPiece(p, args[k..])
    ensures k' == if letter == '%' then k else k + 1
  {
    newarg, k' := curarg, k;
    if letter == 's' {
      var arg := CString(args[k]);
      if |arg| > 0 {
        newarg := curarg + arg;
      }
      k' := k + 1;
    } else if letter == 'b' {
      if |args[k]| > 0 {
        newarg := curarg + args[k];
      }
      k' := k + 1;
    } else {
      newarg := curarg + "%";
    }
  }

  lemma ScanPiece(ps: seq<Piece>, cur: string, touched: bool, args: seq<string>, k: nat)
    requires ps != [] && ps[0] != Blank && k + Holes(ps) == |args|
    ensures var k' := if IsHole(ps[0]) then k + 1 else k;
            k' <= |args| &&
            Scan(ps, cur, touched, args[k..]) ==
            Scan(ps[1..], cur + FillPiece(ps[0], args[k..]), true, args[k'..])
  {
    HolesFirst(ps);
    if k < |args| {
      assert args[k..][1..] == args[k + 1..];
    }
  }

  method AddArgument(argv: seq<string>, totlen: nat, arg: string) returns (argv': seq<string>, totlen': nat)
    requires totlen == |ArgumentsBytes(argv)|
    ensures argv' == argv + [arg] && totlen' == |ArgumentsBytes(argv')|
  {
    argv' := argv + [arg];
    var n := BulkLen(|arg|);
    totlen' := totlen + n;
    ArgumentsSnoc("", argv', |argv|);
    assert argv'[..|argv|] == argv && argv'[..|argv| + 1] == argv';
  }

  /** The first piece of a format, apart from the rest. */
  lemma PiecesFirst(format: string)
    requires format != "" && Supported(format)
    ensures var ps, directive := Pieces(format), format[0] == '%' && |format| > 1;
            && ps != [] && Holes(ps) == (if IsHole(ps[0]) then 1 else 0) + Holes(ps[1..])
            && (directive ==> format[1] in "sb%")
            && ps[0] == (if !directive then (if format[0] == ' ' then Blank else Lit(format[0]))
                         else if format[1] == 's' then Text else if format[1] == 'b' then Binary else Lit('%'))
            && var rest := if directive then format[2..] else format[1..];
               Supported(rest) && ps[1..] == Pieces(rest)
  {
    HolesFirst(Pieces(format));
  }
}
