/** JSON values and the text that JsonHelper writes for them. */
module JsonPrinter {
  import opened Utf16
  import opened JsonText
  import Decimal

  /** java.lang.Integer or java.lang.Long */
  datatype Box = IntegerBox | LongBox

  /**
   * A value handed to the writer or returned by the parser. A map keeps its fields
   * in LinkedHashMap order. A double is known by a numeral for it. The parser makes
   * the wrappers JsonObject and JsonArray where it reads objects and arrays; the
   * writer knows Map and List, and takes any other object by its toString.
   */
  datatype Value =
    | Null
    | Bool(b: bool)
    | Number(n: int, box: Box)
    | Double(numeral: Text)
    | Str(s: Text)
    | Map(entries: seq<Field>)
    | List(elements: seq<Value>)
    | JsonObject(fields: seq<Field>)
    | JsonArray(items: seq<Value>)
    | Other(id: int)

  datatype Field = Field(name: Text, value: Value)

  /** Object.toString, of doubles and of the objects that the writer knows nothing else about. */
  type ToString = Value -> Text

  const INT_MIN := -0x8000_0000
  const INT_MAX := 0x7FFF_FFFF
  const LONG_MIN := -0x8000_0000_0000_0000
  const LONG_MAX := 0x7FFF_FFFF_FFFF_FFFF

  // ---- Strings ----

  function HexChar(d: int): Code
    requires 0 <= d < 16
  {
    if d < 10 then ZERO + d else LOWER_A + d - 10
  }

  /** String.format("%04x", c) */
  function Hex4(c: Code): (t: Text)
    ensures |t| == 4
  {
    [HexChar(c / 4096), HexChar(c / 256 % 16), HexChar(c / 16 % 16), HexChar(c % 16)]
  }

  function Escape(c: Code): (t: Text)
    ensures t != []
  {
    if c == QUOTE then [BACKSLASH, QUOTE]
    else if c == BACKSLASH then [BACKSLASH, BACKSLASH]
    else if c == 0x08 then [BACKSLASH, LOWER_B]
    else if c == 0x0C then [BACKSLASH, LOWER_F]
    else if c == 0x0A then [BACKSLASH, LOWER_N]
    else if c == 0x0D then [BACKSLASH, LOWER_R]
    else if c == TAB then [BACKSLASH, LOWER_T]
    else if c < 0x20 then [BACKSLASH, LOWER_U] + Hex4(c)
    else [c]
  }

  function EscapeAll(s: Text): Text {
    if s == [] then [] else Escape(s[0]) + EscapeAll(s[1..])
  }

  function PrintStr(s: Text): Text {
    [QUOTE] + EscapeAll(s) + [QUOTE]
  }

  // ---- Numbers ----

  function DigitCodes(ds: seq<Decimal.Digit>): (t: Text)
    ensures |t| == |ds|
    ensures forall i :: 0 <= i < |ds| ==> t[i] == ZERO + ds[i]
  {
    seq(|ds|, i requires 0 <= i < |ds| => ZERO + ds[i])
  }

  function PrintInt(n: int): (t: Text)
    ensures t != []
  {
    if n < 0 then [MINUS] + DigitCodes(Decimal.Digits(-n)) else DigitCodes(Decimal.Digits(n))
  }

  /** A number as the parser takes it: one of RFC 8259, section 6, or one with leading zeros. */
  datatype Numeral = Numeral(minus: bool, whole: seq<Decimal.Digit>, frac: seq<Decimal.Digit>, exponent: Exponent)
  datatype Exponent = NoExponent | Exponent(letter: Code, sign: Text, digits: seq<Decimal.Digit>)

  function Sign(minus: bool): Text {
    if minus then [MINUS] else []
  }

  function PrintFraction(frac: seq<Decimal.Digit>): Text {
    if frac == [] then [] else [DOT] + DigitCodes(frac)
  }

  function PrintExponent(e: Exponent): Text {
    match e
    case NoExponent => []
    case Exponent(letter, sign, digits) => [letter] + (sign + DigitCodes(digits))
  }

  function PrintNumeral(d: Numeral): Text {
    Sign(d.minus) + (DigitCodes(d.whole) + (PrintFraction(d.frac) + PrintExponent(d.exponent)))
  }

  predicate WellFormed(d: Numeral) {
    d.whole != [] && WellFormedExponent(d.exponent)
  }

  predicate WellFormedExponent(e: Exponent) {
    match e
    case NoExponent => true
    case Exponent(letter, sign, digits) =>
      (letter == LOWER_E || letter == UPPER_E) && (sign == [] || sign == [PLUS] || sign == [MINUS]) && digits != []
  }

  predicate IsInteger(d: Numeral) {
    d.frac == [] && d.exponent.NoExponent?
  }

  /** As section 6 has it. */
  predicate NoLeadingZero(d: Numeral) {
    |d.whole| > 1 ==> d.whole[0] != 0
  }

  /** What Double.toString gives for every finite double, such as -12.5 or 1.0E-5. */
  ghost predicate IsFiniteDouble(t: Text) {
    exists d: Numeral :: WellFormed(d) && NoLeadingZero(d) && !IsInteger(d) && PrintNumeral(d) == t
  }

  // ---- Values ----

  function Print(v: Value, str: ToString): Text
    decreases v
  {
    match v
    case Null => NULL_TEXT
    case Bool(b) => if b then TRUE_TEXT else FALSE_TEXT
    case Number(n, _) => PrintInt(n)
    case Double(_) => str(v)
    case Str(s) => PrintStr(s)
    case Map(entries) => [LBRACE] + Join(PrintFields(entries, str)) + [RBRACE]
    case List(elements) => [LBRACKET] + Join(PrintItems(elements, str)) + [RBRACKET]
    case JsonObject(_) => PrintStr(str(v))
    case JsonArray(_) => PrintStr(str(v))
    case Other(_) => PrintStr(str(v))
  }

  function PrintItems(items: seq<Value>, str: ToString): (ts: seq<Text>)
    ensures |ts| == |items|
    decreases items
  {
    if items == [] then [] else [Print(items[0], str)] + PrintItems(items[1..], str)
  }

  function PrintFields(fields: seq<Field>, str: ToString): (ts: seq<Text>)
    ensures |ts| == |fields|
    decreases fields
  {
    if fields == [] then []
    else [PrintField(fields[0].name, Print(fields[0].value, str))] + PrintFields(fields[1..], str)
  }

  function PrintField(name: Text, value: Text): Text {
    PrintStr(name) + ([COLON] + value)
  }

  /** The texts with a comma between each two. */
  function Join(texts: seq<Text>): Text {
    if texts == [] then []
    else if |texts| == 1 then texts[0]
    else texts[0] + ([COMMA] + Join(texts[1..]))
  }

  // ---- What a map of values is, on either side ----

  predicate DistinctNames(fields: seq<Field>) {
    forall i, j :: 0 <= i < j < |fields| ==> fields[i].name != fields[j].name
  }

  /** What Java can hold and JSON can say: boxed ranges, finite doubles, one value per map key. */
  ghost predicate Representable(v: Value, str: ToString)
    decreases v
  {
    match v
    case Number(n, box) => if box.IntegerBox? then INT_MIN <= n <= INT_MAX else LONG_MIN <= n <= LONG_MAX
    case Double(_) => IsFiniteDouble(str(v))
    case Map(entries) => DistinctNames(entries) && forall f <- entries :: Representable(f.value, str)
    case List(elements) => forall x <- elements :: Representable(x, str)
    case _ => true
  }

  function BoxFor(n: int): Box {
    if INT_MIN <= n <= INT_MAX then IntegerBox else LongBox
  }

  /**
   * What a printed value is when it is read again: integers are in the smallest box
   * that holds them, doubles are known by the numerals that they were printed as,
   * maps and lists are wrapped, and other objects have become the strings that they
   * were printed as.
   */
  function ReadBack(v: Value, str: ToString): Value
    decreases v
  {
    match v
    case Number(n, _) => Number(n, BoxFor(n))
    case Double(_) => Double(str(v))
    case Map(entries) => JsonObject(ReadBackFields(entries, str))
    case List(elements) => JsonArray(ReadBackItems(elements, str))
    case JsonObject(_) => Str(str(v))
    case JsonArray(_) => Str(str(v))
    case Other(_) => Str(str(v))
    case _ => v
  }

  function ReadBackFields(fields: seq<Field>, str: ToString): (r: seq<Field>)
    ensures |r| == |fields|
    ensures forall i :: 0 <= i < |r| ==> r[i].name == fields[i].name
    decreases fields
  {
    if fields == [] then []
    else [Field(fields[0].name, ReadBack(fields[0].value, str))] + ReadBackFields(fields[1..], str)
  }

  function ReadBackItems(items: seq<Value>, str: ToString): (r: seq<Value>)
    ensures |r| == |items|
    decreases items
  {
    if items == [] then [] else [ReadBack(items[0], str)] + ReadBackItems(items[1..], str)
  }
}
