/**
 The bytes of the protocol, spelled out: what each kind of reply looks like on
 the wire, what the reader makes of it, and what it refuses.
 */
module WireForms {
  import opened Bytes
  import opened Resp
  import opened Streams
  import opened Pushdown

  /** How each reply is written. */
  lemma WrittenForms(text: string, v: int, count: int, items: seq<Reply>)
    ensures Encode(Nil) == "$-1\r\n"
    ensures Encode(Status(text)) == "+" + text + "\r\n"
    ensures Encode(Error(text)) == "-" + text + "\r\n"
    ensures Encode(Integer(v)) == ":" + SignedDecimal(v) + "\r\n"
    ensures Encode(Bulk(text)) == "$" + SignedDecimal(|text|) + "\r\n" + text + "\r\n"
    ensures Encode(Array(count, items)) == "*" + SignedDecimal(count) + "\r\n" + EncodeItems(items)
    ensures EncodeItems([]) == ""
    ensures items != [] ==> EncodeItems(items) == Encode(items[0]) + EncodeItems(items[1..])
  {
  }

  /** Signs and digits. */
  lemma WrittenNumbers(v: int)
    ensures v >= 0 ==> SignedDecimal(v) == Decimal(v) && Positional(Decimal(v)) == v
    ensures v < 0 ==> SignedDecimal(v) == "-" + Decimal(-v) && Positional(Decimal(-v)) == -v
  {
    DecimalIsPositional(if v < 0 then -v else v);
  }

  lemma {:induction false} DigitsAreRead(ds: string)
    requires forall i :: 0 <= i < |ds| ==> 48 <= ds[i] as int <= 57
    ensures ReadDigits(0, ds) == Some(Positional(ds))
    decreases |ds|
  {
    if ds != "" {
      var n := |ds| - 1;
      var d := [ds[n]];
      assert ds == ds[..n] + d && d[1..] == "";
      DigitsAreRead(ds[..n]);
      ReadDigitsAppend(0, ds[..n], d);
      assert ReadDigits(Positional(ds[..n]), d) == Some(10 * Positional(ds[..n]) + (ds[n] as int - 48));
    }
  }

  /** Without a sign in front, the digits are the number. */
  lemma WithoutSign(s: string)
    requires s == "" || s[0] !in "+-"
    ensures ReadNumber(s) == match ReadDigits(0, s) { case None => -1 case Some(v) => v }
  {
    hide ReadDigits;
  }

  lemma WithSign(s: string)
    ensures ReadNumber("+" + s) == match ReadDigits(0, s) { case None => -1 case Some(v) => v }
    ensures ReadNumber("-" + s) == match ReadDigits(0, s) { case None => -1 case Some(v) => -v }
  {
    hide ReadDigits;
    assert ("+" + s)[1..] == s && ("-" + s)[1..] == s;
  }

  /** Digits end at the first CR; any other byte makes the line no number. */
  lemma DigitsEnd(ds: string, c: char, more: string)
    requires forall i :: 0 <= i < |ds| ==> 48 <= ds[i] as int <= 57
    ensures ReadDigits(0, ds + ("\r" + more)) == Some(Positional(ds))
    ensures !(48 <= c as int <= 57) && c != '\r' ==> ReadDigits(0, ds + ([c] + more)) == None
  {
    hide Positional;
    DigitsAreRead(ds);
    ReadDigitsAppend(0, ds, "\r" + more);
    ReadDigitsAppend(0, ds, [c] + more);
  }

  /** The number on a line: an optional sign, and digits up to the first CR; -1 if there is any other byte. */
  lemma NumbersOnLines(ds: string, c: char, more: string)
    requires forall i :: 0 <= i < |ds| ==> 48 <= ds[i] as int <= 57
    ensures ReadNumber(ds) == Positional(ds) == ReadNumber("+" + ds) && ReadNumber("-" + ds) == -Positional(ds)
    ensures ReadNumber(ds + ("\r" + more)) == Positional(ds)
    ensures !(48 <= c as int <= 57) && c != '\r' && (ds == "" ==> c !in "+-") ==> ReadNumber(ds + ([c] + more)) == -1
  {
    hide ReadNumber, ReadDigits, Positional;
    DigitsAreRead(ds);
    WithSign(ds);
    WithoutSign(ds);
    DigitsEnd(ds, c, more);
    WithoutSign(ds + ("\r" + more));
    if ds != "" || c !in "+-" {
      WithoutSign(ds + ([c] + more));
    }
  }

  // ------------------------------------------------------------------ reading

  lemma ReadsLines(text: string, t: string, depth: nat)
    requires !HasCrlf(text)
    ensures ParseItem("+" + text + "\r\n" + t, depth) == Ok(Status(text), t)
    ensures ParseItem("-" + text + "\r\n" + t, depth) == Ok(Error(text), t)
  {
    ParseHeader('+', text, t, depth);
    ParseHeader('-', text, t, depth);
    assert ['+'] + text + CRLF + t == "+" + text + "\r\n" + t;
    assert ['-'] + text + CRLF + t == "-" + text + "\r\n" + t;
  }

  lemma ReadsIntegers(v: int, t: string, depth: nat)
    ensures ParseItem(":" + SignedDecimal(v) + "\r\n" + t, depth) == Ok(Integer(v), t)
  {
    ParseNumberHeader(':', v, t, depth);
  }

  /** A payload is as long as announced, whatever it holds; a negative length is nil. */
  lemma ReadsBulks(text: string, n: int, t: string, depth: nat)
    ensures ParseItem("$" + SignedDecimal(|text|) + "\r\n" + (text + "\r\n" + t), depth) == Ok(Bulk(text), t)
    ensures n < 0 ==> ParseItem("$" + SignedDecimal(n) + "\r\n" + t, depth) == Ok(Nil, t)
  {
    hide ParseItem, SignedDecimal;
    var rest := text + "\r\n" + t;
    ParseNumberHeader('$', |text|, rest, depth);
    assert rest[..|text|] == text && rest[|text| + 2..] == t;
    ParseNumberHeader('$', n, t, depth);
  }

  /** The elements of an array follow its count; -1 is nil, and other counts below one have no elements. */
  lemma ReadsArrays(items: seq<Reply>, n: int, t: string, depth: nat)
    requires depth < 8 && forall i :: 0 <= i < |items| ==> Clean(items[i]) && Nesting(items[i]) <= 7 - depth
    ensures ParseItem("*" + SignedDecimal(|items|) + "\r\n" + (EncodeItems(items) + t), depth) ==
            Ok(Array(|items|, items), t)
    ensures ParseItem("*" + SignedDecimal(-1) + "\r\n" + t, depth) == Ok(Nil, t)
    ensures n < -1 ==> ParseItem("*" + SignedDecimal(n) + "\r\n" + t, depth) == Ok(Array(n, []), t)
  {
    hide ParseItem, SignedDecimal, ParseItems;
    ParseNumberHeader('*', |items|, EncodeItems(items) + t, depth);
    ParseNumberHeader('*', -1, t, depth);
    ParseNumberHeader('*', n, t, depth);
    if items == [] {
      assert EncodeItems(items) + t == t;
    } else {
      forall i | 0 <= i < |items| ensures Transmissible(items[i], depth + 1) {
        RoomForEight(items[i], depth + 1);
      }
      ParseItemsInvertsEncode(items, depth + 1, t);
    }
  }

  /** No reply starts with any other byte. */
  lemma RefusesOtherBytes(c: char, s: string, depth: nat)
    requires c !in "+-:$*"
    ensures ParseItem([c] + s, depth) == Bad("Protocol error, got \"" + Escape(c) + "\" as reply type byte")
  {
    hide Escape;
    assert KindOf(c) == None;
    assert BadTypeByte(c) == "Protocol error, got \"" + Escape(c) + "\" as reply type byte" by {
      Assoc("Protocol error, got ", "\"" + Escape(c) + "\"", " as reply type byte");
    }
  }

  /** Without a line end, or without the bytes announced, the reader waits. */
  lemma WaitsForTheRest(c: char, s: string, n: nat, depth: nat)
    requires c in "+-:$*" && (c == '*' ==> depth < 8)
    ensures ParseItem("", depth).More?
    ensures !HasCrlf(s) ==> ParseItem([c] + s, depth).More?
    ensures |s| < n + 2 ==> ParseItem("$" + SignedDecimal(n) + "\r\n" + s, depth).More?
  {
    if !HasCrlf(s) {
      assert FindCrlf(s) == None;
      ParseTypeByte(c, s, depth);
    }
    ParseNumberHeader('$', n, s, depth);
  }

  // ------------------------------------------------------------- eight levels

  /** The headers of `k` arrays of one element, each inside the one before. */
  function Opened(k: nat): string {
    if k == 0 then "" else Opened(k - 1) + "*1\r\n"
  }

  function Stacked(k: nat): (frames: seq<Frame>)
    ensures |frames| == k
  {
    seq(k, _ => Frame(1, []))
  }

  lemma OpensOne(k: nat)
    requires k < 8
    ensures Advances(Busy(Stacked(k), None), "*1\r\n", Busy(Stacked(k + 1), None))
  {
    hide Advances;
    var line := "1\r\n";
    assert SignedDecimal(1) == "1";
    ReadNumberInvertsPrinting(1);
    DecimalHasNoCrlf(1);
    FindCrlfAfterLine("1", "");
    assert "1" + CRLF + "" == line && line[..1] == "1" && line[..3] == line;
    ReadTypeByte(Stacked(k), '*');
    OpenArray(Stacked(k), line, 1, 1);
    assert Stacked(k) + [Frame(1, [])] == Stacked(k + 1);
    AdvancesTransitively(Busy(Stacked(k), None), "*", Busy(Stacked(k), Some(ArrayKind)), line,
                         Busy(Stacked(k + 1), None));
    assert "*" + line == "*1\r\n";
  }

  /** Eight arrays can be open at once, in eight slots with the ninth for what is inside; one more is refused. */
  lemma {:induction false} NineSlotsAreUsed(k: nat, t: string)
    requires k <= 8
    ensures Advances(Busy([], None), Opened(k), Busy(Stacked(k), None))
    ensures k == 8 ==>
              ParseItem(Opened(k) + "*" + t, 0) == Bad("No support for nested multi bulk replies with depth > 7")
    decreases k
  {
    hide Advances;
    if k == 0 {
      AdvancesNothing(Busy([], None));
      assert Stacked(0) == [];
    } else {
      NineSlotsAreUsed(k - 1, t);
      OpensOne(k - 1);
      AdvancesTransitively(Busy([], None), Opened(k - 1), Busy(Stacked(k - 1), None), "*1\r\n",
                           Busy(Stacked(k), None));
    }
    if k == 8 {
      Assoc(Opened(k), "*", t);
      AdvanceThenAnswer(Busy([], None), Opened(k), Busy(Stacked(k), None), "*" + t);
      StartIsParseItem(Opened(k) + ("*" + t));
      ParseTypeByte('*', t, 8);
      assert ['*'] + t == "*" + t;
    }
  }
}
