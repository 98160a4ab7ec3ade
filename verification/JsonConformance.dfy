/** Every text that the grammar of RFC 8259 derives is read as what it means, unless an integer in it is too long. */
module JsonConformance {
  import opened Utf16
  import opened JsonText
  import opened JsonPrinter
  import opened JsonReader
  import opened JsonGrammar
  import opened Options
  import Decimal

  /** The text t stands at position p of the source. */
  ghost predicate At(r: Reader, p: nat, t: Text): (b: bool)
    ensures b ==> p + |t| <= |r.src|
  {
    p + |t| <= |r.src| && forall i :: 0 <= i < |t| ==> r.src[p + i] == t[i]
  }

  predicate ContinuesNumber(table: CharTable, c: Code) {
    IsDigit(table, c) || c == DOT || c == LOWER_E || c == UPPER_E
  }

  /** A number ends at p: nothing there could continue a numeral. */
  predicate EndsNumber(r: Reader, p: nat)
    requires p <= |r.src|
  {
    p == |r.src| || !ContinuesNumber(r.table, r.src[p])
  }

  lemma AtSplit(r: Reader, p: nat, a: Text, b: Text)
    requires At(r, p, a + b)
    ensures At(r, p, a) && At(r, p + |a|, b)
  {
    var t := a + b;
    forall i | 0 <= i < |a|
      ensures r.src[p + i] == a[i]
    {
      assert t[i] == a[i];
    }
    forall i | 0 <= i < |b|
      ensures r.src[p + |a| + i] == b[i]
    {
      assert r.src[p + (|a| + i)] == t[|a| + i] == b[i];
    }
  }

  lemma AtChar(r: Reader, p: nat, t: Text)
    requires At(r, p, t) && t != []
    ensures p < |r.src| && r.src[p] == t[0]
    ensures At(r, p + 1, t[1..])
  {
    assert r.src[p + 0] == t[0];
    forall i | 0 <= i < |t[1..]|
      ensures r.src[p + 1 + i] == t[1..][i]
    {
      assert r.src[p + (1 + i)] == t[1 + i];
    }
  }

  lemma AtSlice(r: Reader, p: nat, t: Text)
    requires At(r, p, t)
    ensures r.src[p..p + |t|] == t
  {
  }

  // ---- White space and marks ----

  lemma {:induction false} SkipWs(r: Reader, p: nat, t: Text)
    requires At(r, p, t) && IsWs(t)
    ensures r.Skip(p) == r.Skip(p + |t|)
    decreases |t|
  {
    if t != [] {
      AtChar(r, p, t);
      hide At;
      assert t[0] in t && forall c <- t[1..] :: c in t;
      SkipWs(r, p + 1, t[1..]);
    }
  }

  predicate IsMark(c: Code) {
    c == COMMA || c == COLON || c == LBRACE || c == RBRACE || c == LBRACKET || c == RBRACKET || c == QUOTE
  }

  /** A punctuation mark of JSON at p ends a number, and is not skipped. */
  lemma AtMark(r: Reader, p: nat, c: Code)
    requires At(r, p, [c]) && IsMark(c)
    ensures p < |r.src| && r.src[p] == c && EndsNumber(r, p)
    ensures r.Skip(p) == p && r.Expect(c, p) == Ok((), p + 1)
  {
    hide At;
    AtChar(r, p, [c]);
  }

  /** White space and a mark after it end a number, and the mark is what is found. */
  lemma WsThenMark(r: Reader, p: nat, ws: Text, c: Code)
    requires At(r, p, ws) && IsWs(ws) && At(r, p + |ws|, [c]) && IsMark(c)
    ensures EndsNumber(r, p) && r.Skip(p) == p + |ws| < |r.src| && r.src[p + |ws|] == c
    ensures r.Expect(c, p) == Ok((), p + |ws| + 1) && r.Peek(p + |ws|) == c
  {
    hide At;
    SkipWs(r, p, ws);
    AtMark(r, p + |ws|, c);
    if ws != [] {
      AtChar(r, p, ws);
      assert ws[0] in ws;
    }
  }

  // ---- Strings ----

  lemma HexValueSnoc(r: Reader, t: Text, n: nat, c: Code)
    requires IsHexCode(c) && r.HexValue(t) == Some(n)
    ensures r.HexValue(t + [c]) == Some(16 * n + HexCodeValue(c))
  {
    var u := t + [c];
    assert u[..|u| - 1] == t && u[|u| - 1] == c;
  }

  /** Integer.parseInt reads four hexadecimal digits as the number they stand for. */
  lemma ReadHexDigits(r: Reader, ds: Text)
    requires ValidChar(Hex(ds))
    ensures r.ParseHex(ds) == Some(CharMeaning(Hex(ds)))
  {
    var t1, t2, t3 := [ds[0]], [ds[0], ds[1]], [ds[0], ds[1], ds[2]];
    HexValueSnoc(r, [], 0, ds[0]);
    assert [] + [ds[0]] == t1;
    HexValueSnoc(r, t1, HexCodeValue(ds[0]), ds[1]);
    assert t1 + [ds[1]] == t2;
    HexValueSnoc(r, t2, 16 * HexCodeValue(ds[0]) + HexCodeValue(ds[1]), ds[2]);
    assert t2 + [ds[2]] == t3;
    HexValueSnoc(r, t3, 16 * (16 * HexCodeValue(ds[0]) + HexCodeValue(ds[1])) + HexCodeValue(ds[2]), ds[3]);
    assert t3 + [ds[3]] == ds;
    hide r.HexValue;
  }

  lemma ScanPlain(r: Reader, p: nat, text: Text)
    requires p < |r.src| && r.src[p] != QUOTE && r.src[p] != BACKSLASH
    ensures r.ScanStr(p, text) == r.ScanStr(p + 1, text + [r.src[p]])
  {
  }

  lemma ScanShort(r: Reader, p: nat, text: Text)
    requires p + 1 < |r.src| && r.src[p] == BACKSLASH && r.src[p + 1] != LOWER_U
    ensures r.ScanStr(p, text) == r.ScanStr(p + 2, text + [Unescape(r.src[p + 1])])
  {
  }

  lemma ScanHex(r: Reader, p: nat, ds: Text, text: Text)
    requires At(r, p, CharText(Hex(ds))) && ValidChar(Hex(ds))
    ensures r.ScanStr(p, text) == r.ScanStr(p + 6, text + [CharMeaning(Hex(ds))])
  {
    hide At, CharMeaning;
    AtSplit(r, p, [BACKSLASH, LOWER_U], ds);
    AtChar(r, p, [BACKSLASH, LOWER_U]);
    AtChar(r, p + 1, [LOWER_U]);
    AtSlice(r, p + 2, ds);
    ReadHexDigits(r, ds);
  }

  /** One character of a string is read as what it means. */
  lemma ScanChar(r: Reader, p: nat, ch: Char, text: Text)
    requires At(r, p, CharText(ch)) && ValidChar(ch)
    ensures r.ScanStr(p, text) == r.ScanStr(p + |CharText(ch)|, text + [CharMeaning(ch)])
  {
    hide At, r.ScanStr;
    match ch
    case Raw(c) =>
      AtChar(r, p, [c]);
      ScanPlain(r, p, text);
    case Short(c) =>
      AtChar(r, p, [BACKSLASH, c]);
      AtChar(r, p + 1, [BACKSLASH, c][1..]);
      ScanShort(r, p, text);
    case Hex(ds) => ScanHex(r, p, ds, text);
  }

  lemma ScanQuote(r: Reader, p: nat, text: Text)
    requires At(r, p, [QUOTE])
    ensures r.ScanStr(p, text) == Ok(text, p + 1)
  {
    hide At;
    AtChar(r, p, [QUOTE]);
  }

  /** The characters of a string are read as what they mean, up to and including the closing quote. */
  lemma {:induction false} ScanChars(r: Reader, p: nat, chars: seq<Char>, text: Text)
    requires At(r, p, CharsText(chars) + [QUOTE]) && ValidChars(chars)
    ensures r.ScanStr(p, text) == Ok(text + CharsMeaning(chars), p + |CharsText(chars)| + 1)
    decreases chars
  {
    hide At, r.ScanStr, CharText, CharMeaning, ValidChar;
    if chars == [] {
      assert CharsText(chars) + [QUOTE] == [QUOTE];
      ScanQuote(r, p, text);
      assert text + CharsMeaning(chars) == text;
    } else {
      var first, rest := CharText(chars[0]), CharsText(chars[1..]) + [QUOTE];
      var c := CharMeaning(chars[0]);
      assert CharsText(chars) + [QUOTE] == first + rest;
      AtSplit(r, p, first, rest);
      ScanChar(r, p, chars[0], text);
      ScanChars(r, p + |first|, chars[1..], text + [c]);
      assert text + [c] + CharsMeaning(chars[1..]) == text + CharsMeaning(chars);
    }
  }

  lemma ReadString(r: Reader, p: nat, chars: seq<Char>)
    requires At(r, p, StringText(chars)) && ValidChars(chars)
    ensures r.ParseStr(p) == Ok(CharsMeaning(chars), p + |StringText(chars)|)
    ensures r.Skip(p) == p && p < |r.src| && r.src[p] == QUOTE
  {
    hide At, r.ScanStr, CharsText, CharsMeaning, ValidChars;
    AtSplit(r, p, [QUOTE], CharsText(chars) + [QUOTE]);
    AtMark(r, p, QUOTE);
    ScanChars(r, p + 1, chars, []);
    assert [] + CharsMeaning(chars) == CharsMeaning(chars);
  }

  // ---- Numbers ----

  predicate EndsDigits(r: Reader, p: nat) {
    p == |r.src| || (p < |r.src| && !IsDigit(r.table, r.src[p]))
  }

  lemma {:induction false} SkipDigitsTo(r: Reader, p: nat, q: nat)
    requires p <= q && EndsDigits(r, q)
    requires r.AsciiDigits(p, q)
    ensures r.SkipDigits(p) == q
    decreases q - p
  {
    if p < q {
      assert IsDigit(r.table, r.src[p]);
      SkipDigitsTo(r, p + 1, q);
    }
  }

  /** A run of printed digits is skipped to its end, and is ASCII throughout. */
  lemma SkipPrintedDigits(r: Reader, p: nat, ds: seq<Decimal.Digit>)
    requires At(r, p, DigitCodes(ds)) && EndsDigits(r, p + |ds|)
    ensures r.SkipDigits(p) == p + |ds|
    ensures r.AsciiDigits(p, p + |ds|)
  {
    forall i | p <= i < p + |ds|
      ensures ZERO <= r.src[i] < ZERO + 10
    {
      assert r.src[p + (i - p)] == DigitCodes(ds)[i - p];
    }
    SkipDigitsTo(r, p, p + |ds|);
  }

  lemma SkipSign(r: Reader, p: nat, minus: bool, t: Text)
    requires At(r, p, Sign(minus) + t)
    requires t != [] && t[0] != MINUS
    ensures r.SkipMinus(p) == p + |Sign(minus)|
    ensures At(r, p + |Sign(minus)|, t)
  {
    hide At;
    AtSplit(r, p, Sign(minus), t);
    AtChar(r, p + |Sign(minus)|, t);
    if minus {
      AtChar(r, p, Sign(minus));
    }
  }

  lemma {:induction false} DecimalValueOf(r: Reader, ds: seq<Decimal.Digit>)
    ensures r.DecimalValue(DigitCodes(ds)) == Some(Decimal.Value(ds))
  {
    if ds != [] {
      var init, t := ds[..|ds| - 1], DigitCodes(ds);
      assert t[..|t| - 1] == DigitCodes(init);
      DecimalValueOf(r, init);
    }
  }

  /** Long.parseLong reads an integer numeral as the number it stands for, if a long can hold it. */
  lemma ParseLongOf(r: Reader, d: Numeral)
    requires WellFormed(d) && IsInteger(d)
    ensures r.ParseLong(PrintNumeral(d)) ==
            if LONG_MIN <= IntegerOf(d) <= LONG_MAX then Some(IntegerOf(d)) else None
  {
    DecimalValueOf(r, d.whole);
    var t, digits := PrintNumeral(d), DigitCodes(d.whole);
    assert t == Sign(d.minus) + digits;
    hide r.DecimalValue, PrintNumeral, Decimal.Value;
    if d.minus {
      assert t[0] == MINUS && t[1..] == digits;
    } else {
      assert t == digits && t[0] == ZERO + d.whole[0];
    }
  }

  lemma SkipPrintedFraction(r: Reader, p: nat, frac: seq<Decimal.Digit>, rest: Text)
    requires At(r, p, PrintFraction(frac)) && At(r, p + |PrintFraction(frac)|, rest)
    requires EndsDigits(r, p + |PrintFraction(frac)|) && (p < |r.src| && frac == [] ==> r.src[p] != DOT)
    ensures r.SkipFraction(p) == p + |PrintFraction(frac)|
    ensures frac != [] ==> r.AsciiDigits(p + 1, p + |PrintFraction(frac)|)
  {
    hide At;
    if frac != [] {
      AtSplit(r, p, [DOT], DigitCodes(frac));
      AtChar(r, p, [DOT]);
      SkipPrintedDigits(r, p + 1, frac);
    }
  }

  /** Where the digits of an exponent begin. */
  lemma ExponentDigitsAfterSign(r: Reader, p: nat, letter: Code, sign: Text, ds: seq<Decimal.Digit>)
    requires WellFormedExponent(Exponent(letter, sign, ds)) && At(r, p, PrintExponent(Exponent(letter, sign, ds)))
    ensures r.AtExponent(p)
    ensures r.ExponentDigits(p) == p + 1 + |sign|
    ensures At(r, p + 1 + |sign|, DigitCodes(ds))
  {
    hide At;
    var t := sign + DigitCodes(ds);
    AtSplit(r, p, [letter], t);
    AtChar(r, p, [letter]);
    AtSplit(r, p + 1, sign, DigitCodes(ds));
    AtChar(r, p + 1 + |sign|, DigitCodes(ds));
    if sign != [] {
      AtChar(r, p + 1, sign);
    }
  }

  /** An exponent, from its letter to its last digit. */
  lemma SkipPrintedExponent(r: Reader, p: nat, e: Exponent)
    requires WellFormedExponent(e)
    requires At(r, p, PrintExponent(e)) && EndsNumber(r, p + |PrintExponent(e)|)
    ensures r.SkipExponent(p) == p + |PrintExponent(e)|
    ensures e.NoExponent? ==> !r.AtExponent(p)
    ensures e.Exponent? ==> r.AtExponent(p) && r.ExponentDigits(p) < r.SkipExponent(p)
                            && r.AsciiDigits(r.ExponentDigits(p), r.SkipExponent(p))
  {
    if e.Exponent? {
      hide At, EndsNumber, r.SkipDigits, r.ExponentDigits, r.AsciiDigits, WellFormedExponent;
      EndsBoth(r, p + |PrintExponent(e)|);
      ExponentDigitsAfterSign(r, p, e.letter, e.sign, e.digits);
      assert WellFormedExponent(e) ==> e.digits != [];
      SkipPrintedDigits(r, p + 1 + |e.sign|, e.digits);
    }
  }

  lemma EndsBoth(r: Reader, p: nat)
    requires p <= |r.src| && EndsNumber(r, p)
    ensures EndsDigits(r, p)
  {
  }

  lemma SplitNumeral(r: Reader, p: nat, d: Numeral)
    requires WellFormed(d) && At(r, p, PrintNumeral(d))
    ensures var s := p + |Sign(d.minus)|;
            var w := s + |d.whole|;
            var f := w + |PrintFraction(d.frac)|;
            && r.SkipMinus(p) == s && At(r, s, DigitCodes(d.whole)) && At(r, w, PrintFraction(d.frac))
            && At(r, f, PrintExponent(d.exponent)) && f + |PrintExponent(d.exponent)| == p + |PrintNumeral(d)|
  {
    hide At, PrintFraction, PrintExponent, WellFormedExponent;
    var whole, frac, exponent := DigitCodes(d.whole), PrintFraction(d.frac), PrintExponent(d.exponent);
    SkipSign(r, p, d.minus, whole + (frac + exponent));
    var s := p + |Sign(d.minus)|;
    AtSplit(r, s, whole, frac + exponent);
    AtSplit(r, s + |whole|, frac, exponent);
  }

  /** What follows a run of digits within a numeral is not a digit, and is a dot only before a fraction. */
  lemma AfterDigits(r: Reader, p: nat, frac: seq<Decimal.Digit>, e: Exponent)
    requires WellFormedExponent(e)
    requires At(r, p, PrintFraction(frac)) && At(r, p + |PrintFraction(frac)|, PrintExponent(e))
    requires EndsNumber(r, p + |PrintFraction(frac)| + |PrintExponent(e)|)
    ensures EndsDigits(r, p) && EndsDigits(r, p + |PrintFraction(frac)|)
    ensures p < |r.src| && frac == [] ==> r.src[p] != DOT
  {
    FractionBegins(frac);
    ExponentBegins(e);
    hide At, PrintFraction, PrintExponent;
    if frac != [] {
      AtChar(r, p, PrintFraction(frac));
    }
    if e.Exponent? {
      AtChar(r, p + |PrintFraction(frac)|, PrintExponent(e));
    }
  }

  lemma FractionBegins(frac: seq<Decimal.Digit>)
    ensures |PrintFraction(frac)| == if frac == [] then 0 else |frac| + 1
    ensures frac != [] ==> PrintFraction(frac)[0] == DOT
  {
  }

  lemma ExponentBegins(e: Exponent)
    ensures PrintExponent(e) == [] <==> e.NoExponent?
    ensures e.Exponent? ==> PrintExponent(e)[0] == e.letter
  {
  }

  /** Where the pieces of a numeral end up, one after the other. */
  lemma SkipNumeral(r: Reader, s: nat, d: Numeral)
    requires WellFormed(d) && At(r, s, DigitCodes(d.whole)) && At(r, s + |d.whole|, PrintFraction(d.frac))
    requires At(r, s + |d.whole| + |PrintFraction(d.frac)|, PrintExponent(d.exponent))
    requires EndsNumber(r, s + |d.whole| + |PrintFraction(d.frac)| + |PrintExponent(d.exponent)|)
    ensures var w := s + |d.whole|;
            var f := w + |PrintFraction(d.frac)|;
            var x := f + |PrintExponent(d.exponent)|;
            && r.SkipDigits(s) == w && r.SkipFraction(w) == f && r.SkipExponent(f) == x
            && r.DoubleAccepts(s, w, f, x)
  {
    hide At, EndsNumber, EndsDigits, PrintFraction, PrintExponent, DigitCodes, WellFormedExponent;
    hide r.SkipDigits, r.SkipFraction, r.SkipExponent, r.AsciiDigits, r.ExponentDigits;
    var w := s + |d.whole|;
    var f := w + |PrintFraction(d.frac)|;
    FractionBegins(d.frac);
    ExponentBegins(d.exponent);
    AfterDigits(r, w, d.frac, d.exponent);
    SkipPrintedDigits(r, s, d.whole);
    SkipPrintedFraction(r, w, d.frac, PrintExponent(d.exponent));
    SkipPrintedExponent(r, f, d.exponent);
  }

  lemma ParseNumberIs(r: Reader, p: nat, s: nat, w: nat, f: nat, x: nat)
    requires p <= |r.src| && r.SkipMinus(p) == s && r.SkipDigits(s) == w
    requires r.SkipFraction(w) == f && r.SkipExponent(f) == x && r.DoubleAccepts(s, w, f, x)
    ensures f > w || x > f ==> r.ParseNumber(p) == Ok(Double(r.src[p..x]), x)
    ensures f == w && x == f && r.ParseLong(r.src[p..x]).Some? ==>
              var n := r.ParseLong(r.src[p..x]).value;
              r.ParseNumber(p) == Ok(Number(n, BoxFor(n)), x)
    ensures f == w && x == f && r.ParseLong(r.src[p..x]).None? ==> r.ParseNumber(p) == Throw(NumberFormat)
  {
    hide r.SkipMinus, r.SkipDigits, r.SkipFraction, r.SkipExponent, r.DoubleAccepts, r.ParseLong;
  }

  /** What the parser makes of a derivation tree that ends at q: its meaning, or an exception. */
  function Reading(t: Tree, q: nat): Outcome<Value>
    requires Valid(t)
  {
    if Fits(t) then Ok(Meaning(t), q) else Throw(NumberFormat)
  }

  /**
   * A number is read whole: as a boxed integer, or as the text that Double.parseDouble
   * is given. An integer that no long can hold is an exception.
   */
  lemma ReadNumeral(r: Reader, p: nat, d: Numeral)
    requires WellFormed(d) && At(r, p, PrintNumeral(d)) && EndsNumber(r, p + |PrintNumeral(d)|)
    ensures r.ParseNumber(p) ==
            if Fits(NumberTree(d)) then Ok(NumberMeaning(d), p + |PrintNumeral(d)|) else Throw(NumberFormat)
  {
    hide At, EndsNumber, PrintNumeral, DigitCodes, Sign, WellFormedExponent;
    hide r.ParseNumber, r.SkipMinus, r.SkipDigits, r.SkipFraction, r.SkipExponent, r.DoubleAccepts, r.ParseLong;
    SplitNumeral(r, p, d);
    var s := p + |Sign(d.minus)|;
    var w := s + |d.whole|;
    var f := w + |PrintFraction(d.frac)|;
    var x := f + |PrintExponent(d.exponent)|;
    assert f > w <==> d.frac != [];
    assert x > f <==> d.exponent.Exponent?;
    hide PrintFraction, PrintExponent;
    AtSlice(r, p, PrintNumeral(d));
    SkipNumeral(r, s, d);
    ParseNumberIs(r, p, s, w, f, x);
    if IsInteger(d) {
      ParseLongOf(r, d);
    }
  }

  // ---- Values ----

  /** The character that a value begins with, by which the parser chooses. */
  predicate Announces(c: Code, t: Tree) {
    match t
    case NullTree => c == LOWER_N
    case BoolTree(_) => c == LOWER_T || c == LOWER_F
    case NumberTree(_) => c == MINUS || ZERO <= c < ZERO + 10
    case StrTree(_) => c == QUOTE
    case EmptyObject(_) => c == LBRACE
    case ObjectTree(_) => c == LBRACE
    case EmptyArray(_) => c == LBRACKET
    case ArrayTree(_) => c == LBRACKET
  }

  lemma TextAnnounces(t: Tree)
    requires Valid(t)
    ensures TreeText(t) != [] && Announces(TreeText(t)[0], t)
  {
    if t.NumberTree? {
      assert DigitCodes(t.d.whole)[0] == ZERO + t.d.whole[0];
    }
  }

  /** A value starts right at p: the parser skips nothing. */
  lemma SkipNothing(r: Reader, p: nat, t: Tree)
    requires Valid(t) && At(r, p, TreeText(t))
    ensures p < |r.src| && Announces(r.src[p], t) && r.Skip(p) == p
  {
    hide At;
    TextAnnounces(t);
    AtChar(r, p, TreeText(t));
  }

  lemma ReadWord(r: Reader, p: nat, t: Tree)
    requires t.NullTree? || t.BoolTree?
    requires At(r, p, TreeText(t))
    ensures t.NullTree? ==> r.ParseNull(p) == Ok(Null, p + |TreeText(t)|)
    ensures t.BoolTree? ==> r.ParseBool(p) == Ok(Bool(t.b), p + |TreeText(t)|)
  {
    hide At;
    AtSlice(r, p, TreeText(t));
    AtChar(r, p, TreeText(t));
  }

  predicate IsScalar(t: Tree) {
    t.NullTree? || t.BoolTree? || t.NumberTree? || t.StrTree?
  }

  lemma ReadScalar(r: Reader, p: nat, t: Tree)
    requires Valid(t) && IsScalar(t)
    requires At(r, p, TreeText(t)) && EndsNumber(r, p + |TreeText(t)|)
    ensures r.ParseValue(p) == Reading(t, p + |TreeText(t)|)
  {
    hide At, EndsNumber, PrintNumeral, WellFormed, StringText, ValidChars, CharsMeaning, r.Skip;
    hide r.ParseNull, r.ParseBool, r.ParseNumber, r.ParseStr, r.ParseObj, r.ParseArr;
    SkipNothing(r, p, t);
    match t
    case NumberTree(d) => ReadNumeral(r, p, d);
    case StrTree(chars) => ReadString(r, p, chars);
    case _ => ReadWord(r, p, t);
  }

  // ---- Where the parts of a collection stand ----

  lemma AtBracketed(r: Reader, p: nat, open: Code, body: Text, close: Code)
    requires At(r, p, [open] + body + [close])
    ensures At(r, p, [open]) && At(r, p + 1, body) && At(r, p + 1 + |body|, [close])
  {
    hide At;
    AtSplit(r, p, [open] + body, [close]);
    AtSplit(r, p, [open], body);
  }

  lemma AtJoined(r: Reader, p: nat, texts: seq<Text>)
    requires |texts| > 1 && At(r, p, Join(texts))
    ensures At(r, p, texts[0])
    ensures var c := p + |texts[0]|;
            && At(r, c, [COMMA]) && At(r, c + 1, Join(texts[1..]))
            && c + 1 + |Join(texts[1..])| == p + |Join(texts)|
  {
    hide At;
    AtSplit(r, p, texts[0], [COMMA] + Join(texts[1..]));
    AtSplit(r, p + |texts[0]|, [COMMA], Join(texts[1..]));
  }

  lemma AtElement(r: Reader, p: nat, e: Element)
    requires At(r, p, ElementText(e))
    ensures At(r, p, e.before) && At(r, p + |e.before|, TreeText(e.tree))
    ensures At(r, p + |e.before| + |TreeText(e.tree)|, e.after)
    ensures |e.before| + |TreeText(e.tree)| + |e.after| == |ElementText(e)|
  {
    hide At, TreeText;
    AtSplit(r, p, e.before, TreeText(e.tree) + e.after);
    AtSplit(r, p + |e.before|, TreeText(e.tree), e.after);
  }

  lemma AtMember(r: Reader, p: nat, m: Member)
    requires At(r, p, MemberText(m))
    ensures var n := p + |m.before|;
            var a := n + |StringText(m.name)|;
            var b := a + |m.after|;
            && At(r, p, m.before) && At(r, n, StringText(m.name)) && At(r, a, m.after) && At(r, b, [COLON])
            && At(r, b + 1, ElementText(m.value)) && b + 1 + |ElementText(m.value)| == p + |MemberText(m)|
  {
    hide At, ElementText, StringText;
    var name, value := StringText(m.name), ElementText(m.value);
    AtSplit(r, p, m.before, name + (m.after + ([COLON] + value)));
    var n := p + |m.before|;
    AtSplit(r, n, name, m.after + ([COLON] + value));
    AtSplit(r, n + |name|, m.after, [COLON] + value);
    AtSplit(r, n + |name| + |m.after|, [COLON], value);
  }

  // ---- One turn of each parser loop, given what its parts return ----

  /** The parser skips white space first, so it does not matter where in it it starts. */
  lemma FromSkip(r: Reader, p: nat, q: nat)
    requires p <= |r.src| && q <= |r.src| && r.Skip(p) == r.Skip(q)
    ensures r.ParseValue(p) == r.ParseValue(q)
  {
    hide r.Skip, r.ParseObj, r.ParseArr, r.ParseStr, r.ParseBool, r.ParseNull, r.ParseNumber;
  }

  lemma ElementsFromSkip(r: Reader, p: nat, items: seq<Value>)
    requires p <= |r.src|
    ensures r.ParseElements(r.Skip(p), items) == r.ParseElements(p, items)
  {
    SkipTwice(r, p);
    FromSkip(r, r.Skip(p), p);
    hide r.Skip, r.Expect, r.ParseValue, r.ParseElements;
    ElementsTurn(r, p, items);
    ElementsTurn(r, r.Skip(p), items);
  }

  lemma MembersFromSkip(r: Reader, p: nat, fields: seq<Field>)
    requires p <= |r.src|
    ensures r.ParseMembers(r.Skip(p), fields) == r.ParseMembers(p, fields)
  {
    hide r.Skip, r.ParseMember, r.ParseMembers, r.Expect, r.Peek, Put;
    MemberFromSkip(r, p);
    MembersTurn(r, p, fields);
    MembersTurn(r, r.Skip(p), fields);
  }

  lemma MemberFromSkip(r: Reader, p: nat)
    requires p <= |r.src|
    ensures r.ParseMember(r.Skip(p)) == r.ParseMember(p)
  {
    SkipTwice(r, p);
    hide r.Skip, r.ParseValue, r.ParseStr, r.Expect;
  }

  lemma {:induction false} SkipTwice(r: Reader, p: nat)
    requires p <= |r.src|
    ensures r.Skip(r.Skip(p)) == r.Skip(p)
    decreases |r.src| - p
  {
    if p < |r.src| && IsSpace(r.table, r.src[p]) {
      SkipTwice(r, p + 1);
    }
  }

  lemma EnterArr(r: Reader, p: nat)
    requires At(r, p, [LBRACKET]) && r.Peek(r.Skip(p + 1)) != RBRACKET
    ensures r.ParseValue(p) == r.ParseElements(r.Skip(p + 1), [])
  {
    AtMark(r, p, LBRACKET);
    hide At, r.Skip, r.Expect, r.ParseStr, r.ParseNumber, r.ParseBool, r.ParseNull, r.ParseElements;
  }

  lemma ReadEmptyArr(r: Reader, p: nat)
    requires At(r, p, [LBRACKET]) && r.Peek(r.Skip(p + 1)) == RBRACKET
    ensures r.ParseValue(p) == Ok(JsonArray([]), r.Skip(p + 1) + 1)
  {
    AtMark(r, p, LBRACKET);
    hide At, r.Skip, r.Expect, r.ParseStr, r.ParseNumber, r.ParseBool, r.ParseNull, r.ParseElements;
  }

  lemma EnterObj(r: Reader, p: nat)
    requires At(r, p, [LBRACE]) && r.Peek(r.Skip(p + 1)) != RBRACE
    ensures r.ParseValue(p) == r.ParseMembers(r.Skip(p + 1), [])
  {
    AtMark(r, p, LBRACE);
    hide At, r.Skip, r.Expect, r.ParseStr, r.ParseNumber, r.ParseBool, r.ParseNull, r.ParseMembers;
  }

  lemma ReadEmptyObj(r: Reader, p: nat)
    requires At(r, p, [LBRACE]) && r.Peek(r.Skip(p + 1)) == RBRACE
    ensures r.ParseValue(p) == Ok(JsonObject([]), r.Skip(p + 1) + 1)
  {
    AtMark(r, p, LBRACE);
    hide At, r.Skip, r.Expect, r.ParseStr, r.ParseNumber, r.ParseBool, r.ParseNull, r.ParseMembers;
  }

  lemma NextElement(r: Reader, p: nat, sofar: seq<Value>, item: Value, v: nat, c: nat)
    requires p <= |r.src| && r.ParseValue(p) == Ok(item, v) && r.Skip(v) == c && At(r, c, [COMMA])
    ensures r.ParseElements(p, sofar) == r.ParseElements(c + 1, sofar + [item])
  {
    hide At, EndsNumber, r.Skip, r.Expect, r.ParseValue, r.ParseElements;
    AtMark(r, c, COMMA);
    ElementsTurn(r, p, sofar);
  }

  lemma LastElement(r: Reader, p: nat, sofar: seq<Value>, item: Value, v: nat, c: nat)
    requires p <= |r.src| && r.ParseValue(p) == Ok(item, v) && r.Skip(v) == c && At(r, c, [RBRACKET])
    ensures r.ParseElements(p, sofar) == Ok(JsonArray(sofar + [item]), c + 1)
  {
    hide At, EndsNumber, r.Skip, r.Expect, r.ParseValue, r.ParseElements;
    AtMark(r, c, RBRACKET);
    ElementsTurn(r, p, sofar);
  }

  lemma ElementThrows(r: Reader, p: nat, sofar: seq<Value>, error: Exception)
    requires p <= |r.src| && r.ParseValue(p) == Throw(error)
    ensures r.ParseElements(p, sofar) == Throw(error)
  {
    hide r.Skip, r.Expect, r.ParseValue, r.ParseElements;
    ElementsTurn(r, p, sofar);
  }

  lemma MemberThrows(r: Reader, p: nat, sofar: seq<Field>, error: Exception)
    requires p <= |r.src| && r.ParseMember(p) == Throw(error)
    ensures r.ParseMembers(p, sofar) == Throw(error)
  {
    hide r.Skip, r.Expect, r.ParseMember, r.ParseMembers, Put;
    MembersTurn(r, p, sofar);
  }

  lemma NextMember(r: Reader, p: nat, sofar: seq<Field>, f: Field, v: nat, c: nat)
    requires p <= |r.src| && r.ParseMember(p) == Ok(f, v) && r.Skip(v) == c && At(r, c, [COMMA])
    ensures r.ParseMembers(p, sofar) == r.ParseMembers(c + 1, Put(sofar, f.name, f.value))
  {
    hide At, EndsNumber, r.Skip, r.Expect, r.ParseMember, r.ParseMembers, Put;
    AtMark(r, c, COMMA);
    MembersTurn(r, p, sofar);
  }

  lemma LastMember(r: Reader, p: nat, sofar: seq<Field>, f: Field, v: nat, c: nat)
    requires p <= |r.src| && r.ParseMember(p) == Ok(f, v) && r.Skip(v) == c && At(r, c, [RBRACE])
    ensures r.ParseMembers(p, sofar) == Ok(JsonObject(Put(sofar, f.name, f.value)), c + 1)
  {
    hide At, EndsNumber, r.Skip, r.Expect, r.ParseMember, r.ParseMembers, Put;
    AtMark(r, c, RBRACE);
    MembersTurn(r, p, sofar);
  }

  // ---- Conformance ----

  /**
   * Wherever the text of a derivation tree stands, and whatever follows that does
   * not extend a number, the parser returns what the tree means and stops exactly
   * at its end, if a long can hold every integer of the tree; and if and only if
   * one cannot, it throws.
   */
  lemma {:induction false} ReadTree(r: Reader, p: nat, t: Tree)
    requires Valid(t) && At(r, p, TreeText(t)) && EndsNumber(r, p + |TreeText(t)|)
    ensures r.ParseValue(p) == Reading(t, p + |TreeText(t)|)
    decreases t, 3
  {
    hide At, EndsNumber, r.ParseValue, TreeText, Reading;
    if IsScalar(t) {
      ReadScalar(r, p, t);
    } else {
      ReadContainer(r, p, t);
    }
  }

  /** An object or array ends with its own mark, whatever follows. */
  lemma {:induction false} ReadContainer(r: Reader, p: nat, t: Tree)
    requires Valid(t) && !IsScalar(t) && At(r, p, TreeText(t))
    ensures r.ParseValue(p) == Reading(t, p + |TreeText(t)|)
    decreases t, 2
  {
    hide At, EndsNumber, r.ParseValue, ElementText, MemberText;
    match t
    case EmptyObject(gap) =>
      AtBracketed(r, p, LBRACE, gap, RBRACE);
      WsThenMark(r, p + 1, gap, RBRACE);
      ReadEmptyObj(r, p);
    case ObjectTree(members) => ReadObject(r, p, members);
    case EmptyArray(gap) =>
      AtBracketed(r, p, LBRACKET, gap, RBRACKET);
      WsThenMark(r, p + 1, gap, RBRACKET);
      ReadEmptyArr(r, p);
    case ArrayTree(elements) => ReadArray(r, p, elements);
  }

  lemma {:induction false} ReadArray(r: Reader, p: nat, elements: seq<Element>)
    requires Valid(ArrayTree(elements)) && At(r, p, TreeText(ArrayTree(elements)))
    ensures r.ParseValue(p) == Reading(ArrayTree(elements), p + |TreeText(ArrayTree(elements))|)
    decreases elements, 2
  {
    hide At, r.ParseValue, r.ParseElements, r.Skip, Join, ElementTexts, ElementsMeaning, ElementsFit, ValidElement;
    var body := Join(ElementTexts(elements));
    AtBracketed(r, p, LBRACKET, body, RBRACKET);
    FirstElement(r, p + 1, elements);
    ReadElements(r, p + 1, elements, []);
    EnterArr(r, p);
    ElementsFromSkip(r, p + 1, []);
    assert [] + ElementsMeaning(elements) == ElementsMeaning(elements);
  }

  lemma {:induction false} ReadObject(r: Reader, p: nat, members: seq<Member>)
    requires Valid(ObjectTree(members)) && At(r, p, TreeText(ObjectTree(members)))
    ensures r.ParseValue(p) == Reading(ObjectTree(members), p + |TreeText(ObjectTree(members))|)
    decreases members, 2
  {
    hide At, r.ParseValue, r.ParseMembers, r.Skip, Join, MemberTexts, MembersMeaning, MembersFit, ValidMember;
    var body := Join(MemberTexts(members));
    AtBracketed(r, p, LBRACE, body, RBRACE);
    FirstMember(r, p + 1, members);
    ReadMembers(r, p + 1, members, []);
    EnterObj(r, p);
    MembersFromSkip(r, p + 1, []);
  }

  /** The first element does not look like the end of the array. */
  lemma FirstElement(r: Reader, p: nat, elements: seq<Element>)
    requires elements != [] && ValidElement(elements[0]) && At(r, p, Join(ElementTexts(elements)))
    ensures r.Peek(r.Skip(p)) != RBRACKET
  {
    var texts, e := ElementTexts(elements), elements[0];
    if |texts| > 1 {
      AtJoined(r, p, texts);
    }
    AtElement(r, p, e);
    hide At, r.Skip, TreeText;
    SkipWs(r, p, e.before);
    SkipNothing(r, p + |e.before|, e.tree);
  }

  lemma FirstMember(r: Reader, p: nat, members: seq<Member>)
    requires members != [] && ValidMember(members[0]) && At(r, p, Join(MemberTexts(members)))
    ensures r.Peek(r.Skip(p)) != RBRACE
  {
    var texts, m := MemberTexts(members), members[0];
    if |texts| > 1 {
      AtJoined(r, p, texts);
    }
    AtMember(r, p, m);
    hide At, r.Skip, StringText;
    SkipWs(r, p, m.before);
    ReadString(r, p + |m.before|, m.name);
  }

  /** An element and the mark after it. */
  lemma {:induction false} ReadElement(r: Reader, p: nat, e: Element, mark: Code) returns (v: nat)
    requires ValidElement(e) && At(r, p, ElementText(e)) && At(r, p + |ElementText(e)|, [mark]) && IsMark(mark)
    ensures v <= |r.src| && r.ParseValue(p) == Reading(e.tree, v) && r.Skip(v) == p + |ElementText(e)|
    decreases e, 4
  {
    hide At, EndsNumber, r.ParseValue, r.Skip, TreeText, ElementText, Meaning, Valid, IsWs, IsMark;
    AtElement(r, p, e);
    v := p + |e.before| + |TreeText(e.tree)|;
    WsThenMark(r, v, e.after, mark);
    SkipWs(r, p, e.before);
    FromSkip(r, p, p + |e.before|);
    ReadTree(r, p + |e.before|, e.tree);
  }

  lemma {:induction false} ReadElements(r: Reader, p: nat, elements: seq<Element>, sofar: seq<Value>)
    requires elements != [] && forall e <- elements :: ValidElement(e)
    requires At(r, p, Join(ElementTexts(elements))) && At(r, p + |Join(ElementTexts(elements))|, [RBRACKET])
    ensures r.ParseElements(p, sofar) ==
            if ElementsFit(elements)
            then Ok(JsonArray(sofar + ElementsMeaning(elements)), p + |Join(ElementTexts(elements))| + 1)
            else Throw(NumberFormat)
    decreases elements, 1
  {
    hide At, r.ParseValue, r.ParseElements, r.Skip, ElementText, Meaning, Fits;
    var texts, e := ElementTexts(elements), elements[0];
    assert e in elements && ValidElement(e);
    hide ValidElement;
    var c := p + |texts[0]|;
    if |texts| == 1 {
      var v := ReadElement(r, p, e, RBRACKET);
      if Fits(e.tree) {
        LastElement(r, p, sofar, Meaning(e.tree), v, c);
      } else {
        ElementThrows(r, p, sofar, NumberFormat);
      }
      assert |elements[1..]| == 0 && ElementsMeaning(elements[1..]) == [];
      assert ElementsMeaning(elements) == [Meaning(e.tree)];
    } else {
      AtJoined(r, p, texts);
      var v := ReadElement(r, p, e, COMMA);
      if Fits(e.tree) {
        NextElement(r, p, sofar, Meaning(e.tree), v, c);
      } else {
        ElementThrows(r, p, sofar, NumberFormat);
      }
      ReadElements(r, c + 1, elements[1..], sofar + [Meaning(e.tree)]);
      assert sofar + [Meaning(e.tree)] + ElementsMeaning(elements[1..]) == sofar + ElementsMeaning(elements);
    }
  }

  /** A name, a colon, a value, and the mark after them. */
  lemma {:induction false} ReadMember(r: Reader, p: nat, m: Member, mark: Code) returns (v: nat)
    requires ValidMember(m) && ValidElement(m.value)
    requires At(r, p, MemberText(m)) && At(r, p + |MemberText(m)|, [mark]) && IsMark(mark)
    ensures r.ParseMember(p) ==
            if Fits(m.value.tree) then Ok(Field(CharsMeaning(m.name), Meaning(m.value.tree)), v)
            else Throw(NumberFormat)
    ensures v <= |r.src| && r.Skip(v) == p + |MemberText(m)|
    decreases m, 5
  {
    hide At, EndsNumber, r.ParseValue, r.ParseStr, r.Skip, r.Expect, StringText, ElementText, MemberText;
    hide Meaning, Fits, CharsMeaning, Valid, ValidChars, IsWs;
    AtMember(r, p, m);
    var n := p + |m.before|;
    var a := n + |StringText(m.name)|;
    SkipWs(r, p, m.before);
    ReadString(r, n, m.name);
    WsThenMark(r, a, m.after, COLON);
    AtMark(r, a + |m.after|, COLON);
    v := ReadElement(r, a + |m.after| + 1, m.value, mark);
  }

  lemma {:induction false} ReadMembers(r: Reader, p: nat, members: seq<Member>, sofar: seq<Field>)
    requires members != [] && forall m <- members :: ValidMember(m)
    requires At(r, p, Join(MemberTexts(members))) && At(r, p + |Join(MemberTexts(members))|, [RBRACE])
    ensures r.ParseMembers(p, sofar) ==
            if MembersFit(members)
            then Ok(JsonObject(MembersMeaning(members, sofar)), p + |Join(MemberTexts(members))| + 1)
            else Throw(NumberFormat)
    decreases members, 1
  {
    hide At, r.ParseMember, r.ParseMembers, r.Skip, MemberText, Meaning, Fits, CharsMeaning, Put;
    var texts, m := MemberTexts(members), members[0];
    assert m in members && ValidMember(m) && ValidElement(m.value);
    var c := p + |texts[0]|;
    var f := Field(CharsMeaning(m.name), Meaning(m.value.tree));
    if |texts| == 1 {
      var v := ReadMember(r, p, m, RBRACE);
      if Fits(m.value.tree) {
        LastMember(r, p, sofar, f, v, c);
      } else {
        MemberThrows(r, p, sofar, NumberFormat);
      }
    } else {
      AtJoined(r, p, texts);
      var v := ReadMember(r, p, m, COMMA);
      if Fits(m.value.tree) {
        NextMember(r, p, sofar, f, v, c);
      } else {
        MemberThrows(r, p, sofar, NumberFormat);
      }
      ReadMembers(r, c + 1, members[1..], Put(sofar, f.name, f.value));
    }
  }
}
