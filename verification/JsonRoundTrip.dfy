/** What the writer prints is derived by the grammar, and so the parser reads it back. */
module JsonRoundTrip {
  import opened Utf16
  import opened JsonText
  import opened JsonPrinter
  import opened JsonReader
  import opened JsonGrammar
  import opened JsonConformance
  import Decimal

  // ---- Strings ----

  /** How the writer puts a code unit. */
  function CharOf(c: Code): Char {
    if c == QUOTE || c == BACKSLASH then Short(c)
    else if c == 0x08 then Short(LOWER_B)
    else if c == 0x0C then Short(LOWER_F)
    else if c == 0x0A then Short(LOWER_N)
    else if c == 0x0D then Short(LOWER_R)
    else if c == TAB then Short(LOWER_T)
    else if c < 0x20 then Hex(Hex4(c))
    else Raw(c)
  }

  function CharsOf(s: Text): (chars: seq<Char>)
    ensures |chars| == |s|
  {
    if s == [] then [] else [CharOf(s[0])] + CharsOf(s[1..])
  }

  lemma HexDigitsOf(c: Code)
    ensures 16 * (16 * (16 * (c / 4096) + c / 256 % 16) + c / 16 % 16) + c % 16 == c
  {
    var b := c / 16;
    var a := b / 16;
    assert a == c / 256 && a / 16 == c / 4096;
  }

  /** One escaped code unit is a character of the grammar that means that code unit. */
  lemma EscapeMeans(c: Code)
    ensures ValidChar(CharOf(c)) && CharText(CharOf(c)) == Escape(c) && CharMeaning(CharOf(c)) == c
  {
    HexDigitsOf(c);
  }

  /** Unescaping undoes escaping: an escaped text is derived by the grammar and means the text itself. */
  lemma {:induction false} EscapedMeans(s: Text)
    ensures ValidChars(CharsOf(s)) && CharsText(CharsOf(s)) == EscapeAll(s) && CharsMeaning(CharsOf(s)) == s
    decreases |s|
  {
    if s != [] {
      hide ValidChar, CharOf, CharText, CharMeaning, Escape;
      EscapeMeans(s[0]);
      EscapedMeans(s[1..]);
      assert s == [s[0]] + s[1..];
      forall ch <- CharsOf(s)
        ensures ValidChar(ch)
      {
        assert ch == CharOf(s[0]) || ch in CharsOf(s[1..]);
      }
    }
  }

  lemma StringMeans(s: Text)
    ensures ValidChars(CharsOf(s)) && StringText(CharsOf(s)) == PrintStr(s) && CharsMeaning(CharsOf(s)) == s
  {
    EscapedMeans(s);
  }

  // ---- Values ----

  function NumeralOf(n: int): Numeral {
    Numeral(n < 0, Decimal.Digits(if n < 0 then -n else n), [], NoExponent)
  }

  lemma NumeralMeans(n: int)
    ensures WellFormed(NumeralOf(n)) && NoLeadingZero(NumeralOf(n)) && IsInteger(NumeralOf(n))
    ensures PrintNumeral(NumeralOf(n)) == PrintInt(n) && IntegerOf(NumeralOf(n)) == n
  {
    Decimal.ValueOfDigits(if n < 0 then -n else n);
    var ds := DigitCodes(NumeralOf(n).whole);
    assert ds + ([] + []) == ds && [] + ds == ds;
  }

  ghost function NumeralOfDouble(t: Text): (d: Numeral)
    requires IsFiniteDouble(t)
    ensures WellFormed(d) && NoLeadingZero(d) && !IsInteger(d) && PrintNumeral(d) == t
  {
    var d: Numeral :| WellFormed(d) && NoLeadingZero(d) && !IsInteger(d) && PrintNumeral(d) == t;
    d
  }

  /** The derivation tree of a printed value. */
  ghost function TreeOf(v: Value, str: ToString): Tree
    requires Representable(v, str)
    decreases v
  {
    match v
    case Null => NullTree
    case Bool(b) => BoolTree(b)
    case Number(n, _) => NumberTree(NumeralOf(n))
    case Double(_) => NumberTree(NumeralOfDouble(str(v)))
    case Str(s) => StrTree(CharsOf(s))
    case Map(entries) => if entries == [] then EmptyObject([]) else ObjectTree(MembersOf(entries, str))
    case List(elements) => if elements == [] then EmptyArray([]) else ArrayTree(ElementsOf(elements, str))
    case JsonObject(_) => StrTree(CharsOf(str(v)))
    case JsonArray(_) => StrTree(CharsOf(str(v)))
    case Other(_) => StrTree(CharsOf(str(v)))
  }

  ghost function MembersOf(fields: seq<Field>, str: ToString): (ms: seq<Member>)
    requires forall f <- fields :: Representable(f.value, str)
    ensures |ms| == |fields|
    decreases fields
  {
    if fields == [] then []
    else
      var f := fields[0];
      [Member([], CharsOf(f.name), [], Element([], TreeOf(f.value, str), []))] + MembersOf(fields[1..], str)
  }

  ghost function ElementsOf(items: seq<Value>, str: ToString): (es: seq<Element>)
    requires forall x <- items :: Representable(x, str)
    ensures |es| == |items|
    decreases items
  {
    if items == [] then [] else [Element([], TreeOf(items[0], str), [])] + ElementsOf(items[1..], str)
  }

  /** The tree of a value is valid, its text is what the writer prints, and it means the value as read back. */
  lemma {:induction false} TreeMeans(v: Value, str: ToString)
    requires Representable(v, str)
    ensures var t := TreeOf(v, str);
            Valid(t) && Fits(t) && TreeText(t) == Print(v, str) && Meaning(t) == ReadBack(v, str)
    decreases v, 1
  {
    hide PrintStr, StringText, CharsText, CharsMeaning;
    match v
    case Null =>
    case Bool(_) =>
    case Number(n, _) => NumeralMeans(n);
    case Double(_) =>
    case Map(entries) => MapMeans(entries, str);
    case List(elements) => ListMeans(elements, str);
    case Str(s) => StringMeans(s);
    case _ => StringMeans(str(v));
  }

  lemma NamesStayDistinct(fields: seq<Field>, str: ToString)
    requires DistinctNames(fields)
    ensures DistinctNames([] + ReadBackFields(fields, str))
  {
    assert [] + ReadBackFields(fields, str) == ReadBackFields(fields, str);
    hide ReadBack;
  }

  lemma {:induction false} MapMeans(entries: seq<Field>, str: ToString)
    requires Representable(Map(entries), str)
    ensures var t := TreeOf(Map(entries), str);
            && Valid(t) && Fits(t) && TreeText(t) == Print(Map(entries), str)
            && Meaning(t) == ReadBack(Map(entries), str)
    decreases entries, 2
  {
    assert DistinctNames(entries) && forall f <- entries :: Representable(f.value, str);
    hide Representable, DistinctNames, MembersMeaning, MemberTexts, MembersFit, PrintFields, ReadBackFields;
    NamesStayDistinct(entries, str);
    MembersMean(entries, str);
    MembersMeanDistinct(entries, str, []);
    assert [] + ReadBackFields(entries, str) == ReadBackFields(entries, str);
  }

  lemma {:induction false} ListMeans(items: seq<Value>, str: ToString)
    requires Representable(List(items), str)
    ensures var t := TreeOf(List(items), str);
            && Valid(t) && Fits(t) && TreeText(t) == Print(List(items), str)
            && Meaning(t) == ReadBack(List(items), str)
    decreases items, 2
  {
    ElementsMean(items, str);
  }

  lemma {:induction false} ElementsMean(items: seq<Value>, str: ToString)
    requires forall x <- items :: Representable(x, str)
    ensures var es := ElementsOf(items, str);
            && (forall e <- es :: ValidElement(e)) && ElementsFit(es)
            && ElementTexts(es) == PrintItems(items, str) && ElementsMeaning(es) == ReadBackItems(items, str)
    decreases items, 0
  {
    if items != [] {
      hide TreeText, Print, Representable, ReadBack, Meaning, TreeOf;
      TreeMeans(items[0], str);
      ElementsMean(items[1..], str);
      var es, t := ElementsOf(items, str), Print(items[0], str);
      assert es[1..] == ElementsOf(items[1..], str);
      assert [] + (t + []) == t;
      assert ValidElement(es[0]);
      forall e <- es
        ensures ValidElement(e)
      {
        assert e == es[0] || e in es[1..];
      }
    }
  }

  lemma {:induction false} MembersMean(fields: seq<Field>, str: ToString)
    requires forall f <- fields :: Representable(f.value, str)
    ensures var ms := MembersOf(fields, str);
            (forall m <- ms :: ValidMember(m)) && MembersFit(ms) && MemberTexts(ms) == PrintFields(fields, str)
    decreases fields, 0
  {
    if fields != [] {
      hide TreeText, Print, Representable, TreeOf, Meaning, ReadBack;
      var f := fields[0];
      TreeMeans(f.value, str);
      StringMeans(f.name);
      MembersMean(fields[1..], str);
      var ms, t := MembersOf(fields, str), Print(f.value, str);
      assert ms[1..] == MembersOf(fields[1..], str);
      assert ElementText(ms[0].value) == t by {
        assert [] + (t + []) == t;
      }
      assert MemberText(ms[0]) == PrintField(f.name, t);
      assert ValidElement(ms[0].value);
      forall m <- ms
        ensures ValidMember(m)
      {
        assert m == ms[0] || m in ms[1..];
      }
    }
  }

  /** A field whose name is new goes to the end of the map. */
  lemma {:induction false} PutFresh(sofar: seq<Field>, f: Field)
    requires forall i :: 0 <= i < |sofar| ==> sofar[i].name != f.name
    ensures Put(sofar, f.name, f.value) == sofar + [f]
  {
    if sofar != [] {
      PutFresh(sofar[1..], f);
      assert sofar + [f] == [sofar[0]] + (sofar[1..] + [f]);
    }
  }

  lemma NextIsFresh(sofar: seq<Field>, fields: seq<Field>)
    requires fields != [] && DistinctNames(sofar + fields)
    ensures Put(sofar, fields[0].name, fields[0].value) == sofar + [fields[0]]
    ensures sofar + [fields[0]] + fields[1..] == sofar + fields
  {
    var all := sofar + fields;
    forall i | 0 <= i < |sofar|
      ensures sofar[i].name != fields[0].name
    {
      assert all[i] == sofar[i] && all[|sofar|] == fields[0];
    }
    PutFresh(sofar, fields[0]);
  }

  lemma {:induction false} MembersMeanDistinct(fields: seq<Field>, str: ToString, sofar: seq<Field>)
    requires forall f <- fields :: Representable(f.value, str)
    requires DistinctNames(sofar + ReadBackFields(fields, str))
    ensures forall m <- MembersOf(fields, str) :: ValidMember(m)
    ensures MembersMeaning(MembersOf(fields, str), sofar) == sofar + ReadBackFields(fields, str)
    decreases fields, 1
  {
    MembersMean(fields, str);
    if fields != [] {
      hide TreeText, Print, Representable, TreeOf, Meaning, ReadBack, Put, DistinctNames, ValidMember;
      var f, back := fields[0], ReadBackFields(fields, str);
      TreeMeans(f.value, str);
      StringMeans(f.name);
      NextIsFresh(sofar, back);
      var ms := MembersOf(fields, str);
      assert ms[1..] == MembersOf(fields[1..], str) && back[1..] == ReadBackFields(fields[1..], str);
      MembersMeanDistinct(fields[1..], str, sofar + [back[0]]);
    }
  }

  // ---- The round trip ----

  /**
   * Wherever a printed value stands in a text, and whatever follows that does not
   * extend a number, the parser returns the value as it is read back, and stops
   * exactly at its end.
   */
  lemma ReadsPrinted(r: Reader, p: nat, v: Value, str: ToString)
    requires Representable(v, str) && At(r, p, Print(v, str)) && EndsNumber(r, p + |Print(v, str)|)
    ensures r.ParseValue(p) == Ok(ReadBack(v, str), p + |Print(v, str)|)
  {
    hide At, EndsNumber, r.ParseValue, Representable, TreeOf, TreeText, Print, Meaning, ReadBack;
    TreeMeans(v, str);
    ReadTree(r, p, TreeOf(v, str));
  }
}
