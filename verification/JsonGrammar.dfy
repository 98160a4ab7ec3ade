/** The grammar of RFC 8259 as derivation trees: the text of a tree and what it means. */
module JsonGrammar {
  import opened Utf16
  import opened JsonText
  import opened JsonPrinter
  import opened JsonReader
  import Decimal

  // ---- Strings: section 7 ----

  /** A character of a string: as itself, after a backslash, or as four hexadecimal digits. */
  datatype Char = Raw(c: Code) | Short(c: Code) | Hex(digits: Text)

  predicate IsHexCode(c: Code) {
    ZERO <= c < ZERO + 10 || LOWER_A <= c < LOWER_A + 6 || 0x41 <= c < 0x41 + 6
  }

  function HexCodeValue(c: Code): (d: int)
    requires IsHexCode(c)
    ensures 0 <= d < 16
  {
    if c < ZERO + 10 then c - ZERO else if c >= LOWER_A then c - LOWER_A + 10 else c - 0x41 + 10
  }

  /** What may follow a backslash alone. */
  predicate IsShortEscape(c: Code) {
    || c == QUOTE || c == BACKSLASH || c == SLASH || c == LOWER_B || c == LOWER_F
    || c == LOWER_N || c == LOWER_R || c == LOWER_T
  }

  predicate ValidChar(ch: Char) {
    match ch
    case Raw(c) => c >= 0x20 && c != QUOTE && c != BACKSLASH
    case Short(c) => IsShortEscape(c)
    case Hex(ds) => |ds| == 4 && IsHexCode(ds[0]) && IsHexCode(ds[1]) && IsHexCode(ds[2]) && IsHexCode(ds[3])
  }

  function CharText(ch: Char): (t: Text)
    ensures t != []
  {
    match ch
    case Raw(c) => [c]
    case Short(c) => [BACKSLASH, c]
    case Hex(ds) => [BACKSLASH, LOWER_U] + ds
  }

  /** b, f, n, r and t stand for control characters, and the other three for themselves. */
  function ShortMeaning(c: Code): Code {
    if c == 'b' as int then 0x08
    else if c == 'f' as int then 0x0C
    else if c == 'n' as int then 0x0A
    else if c == 'r' as int then 0x0D
    else if c == 't' as int then 0x09
    else c
  }

  function CharMeaning(ch: Char): Code
    requires ValidChar(ch)
  {
    match ch
    case Raw(c) => c
    case Short(c) => ShortMeaning(c)
    case Hex(ds) =>
      16 * (16 * (16 * HexCodeValue(ds[0]) + HexCodeValue(ds[1])) + HexCodeValue(ds[2])) + HexCodeValue(ds[3])
  }

  predicate ValidChars(chars: seq<Char>) {
    forall ch <- chars :: ValidChar(ch)
  }

  function CharsText(chars: seq<Char>): Text {
    if chars == [] then [] else CharText(chars[0]) + CharsText(chars[1..])
  }

  function CharsMeaning(chars: seq<Char>): (s: Text)
    requires ValidChars(chars)
    ensures |s| == |chars|
  {
    if chars == [] then [] else [CharMeaning(chars[0])] + CharsMeaning(chars[1..])
  }

  function StringText(chars: seq<Char>): Text {
    [QUOTE] + (CharsText(chars) + [QUOTE])
  }

  // ---- Values: sections 2 to 6 ----

  datatype Tree =
    | NullTree
    | BoolTree(b: bool)
    | NumberTree(d: Numeral)
    | StrTree(chars: seq<Char>)
    | EmptyObject(gap: Text)
    | ObjectTree(members: seq<Member>)
    | EmptyArray(gap: Text)
    | ArrayTree(elements: seq<Element>)

  /** A value with the white space around it. */
  datatype Element = Element(before: Text, tree: Tree, after: Text)

  /** A name with the white space around it, and the value after the colon. */
  datatype Member = Member(before: Text, name: seq<Char>, after: Text, value: Element)

  predicate IsWs(t: Text) {
    forall c <- t :: c == 0x20 || c == TAB || c == 0x0A || c == 0x0D
  }

  function IntegerOf(d: Numeral): int {
    if d.minus then -(Decimal.Value(d.whole) as int) else Decimal.Value(d.whole)
  }

  /** Derived by the grammar. */
  predicate Valid(t: Tree)
    decreases t
  {
    match t
    case NullTree => true
    case BoolTree(_) => true
    case NumberTree(d) => WellFormed(d) && NoLeadingZero(d)
    case StrTree(chars) => ValidChars(chars)
    case EmptyObject(gap) => IsWs(gap)
    case ObjectTree(members) => members != [] && forall m <- members :: ValidMember(m)
    case EmptyArray(gap) => IsWs(gap)
    case ArrayTree(elements) => elements != [] && forall e <- elements :: ValidElement(e)
  }

  predicate ValidElement(e: Element)
    decreases e
  {
    IsWs(e.before) && Valid(e.tree) && IsWs(e.after)
  }

  predicate ValidMember(m: Member)
    decreases m
  {
    IsWs(m.before) && ValidChars(m.name) && IsWs(m.after) && ValidElement(m.value)
  }

  /** Every integer of the tree fits a long. */
  predicate Fits(t: Tree)
    decreases t
  {
    match t
    case NumberTree(d) => IsInteger(d) ==> LONG_MIN <= IntegerOf(d) <= LONG_MAX
    case ObjectTree(members) => MembersFit(members)
    case ArrayTree(elements) => ElementsFit(elements)
    case _ => true
  }

  predicate ElementsFit(elements: seq<Element>)
    decreases elements
  {
    elements == [] || (Fits(elements[0].tree) && ElementsFit(elements[1..]))
  }

  predicate MembersFit(members: seq<Member>)
    decreases members
  {
    members == [] || (Fits(members[0].value.tree) && MembersFit(members[1..]))
  }

  function TreeText(t: Tree): Text
    decreases t
  {
    match t
    case NullTree => NULL_TEXT
    case BoolTree(b) => if b then TRUE_TEXT else FALSE_TEXT
    case NumberTree(d) => PrintNumeral(d)
    case StrTree(chars) => StringText(chars)
    case EmptyObject(gap) => [LBRACE] + gap + [RBRACE]
    case ObjectTree(members) => [LBRACE] + Join(MemberTexts(members)) + [RBRACE]
    case EmptyArray(gap) => [LBRACKET] + gap + [RBRACKET]
    case ArrayTree(elements) => [LBRACKET] + Join(ElementTexts(elements)) + [RBRACKET]
  }

  function ElementText(e: Element): Text
    decreases e
  {
    e.before + (TreeText(e.tree) + e.after)
  }

  function MemberText(m: Member): Text
    decreases m
  {
    m.before + (StringText(m.name) + (m.after + ([COLON] + ElementText(m.value))))
  }

  function ElementTexts(elements: seq<Element>): (ts: seq<Text>)
    ensures |ts| == |elements|
    decreases elements
  {
    if elements == [] then [] else [ElementText(elements[0])] + ElementTexts(elements[1..])
  }

  function MemberTexts(members: seq<Member>): (ts: seq<Text>)
    ensures |ts| == |members|
    decreases members
  {
    if members == [] then [] else [MemberText(members[0])] + MemberTexts(members[1..])
  }

  // ---- Meaning ----

  function NumberMeaning(d: Numeral): Value {
    var n := IntegerOf(d);
    if !IsInteger(d) then Double(PrintNumeral(d))
    else Number(n, if -0x8000_0000 <= n <= 0x7FFF_FFFF then IntegerBox else LongBox)
  }

  function Meaning(t: Tree): Value
    requires Valid(t)
    decreases t
  {
    match t
    case NullTree => Null
    case BoolTree(b) => Bool(b)
    case NumberTree(d) => NumberMeaning(d)
    case StrTree(chars) => Str(CharsMeaning(chars))
    case EmptyObject(_) => JsonObject([])
    case ObjectTree(members) => JsonObject(MembersMeaning(members, []))
    case EmptyArray(_) => JsonArray([])
    case ArrayTree(elements) => JsonArray(ElementsMeaning(elements))
  }

  /** A repeated name keeps its first place and takes its last value. */
  function MembersMeaning(members: seq<Member>, sofar: seq<Field>): seq<Field>
    requires forall m <- members :: ValidMember(m)
    decreases members
  {
    if members == [] then sofar
    else
      var m := members[0];
      assert ValidMember(m) && ValidElement(m.value);
      MembersMeaning(members[1..], Put(sofar, CharsMeaning(m.name), Meaning(m.value.tree)))
  }

  function ElementsMeaning(elements: seq<Element>): (vs: seq<Value>)
    requires forall e <- elements :: ValidElement(e)
    ensures |vs| == |elements|
    decreases elements
  {
    if elements == [] then []
    else
      assert ValidElement(elements[0]);
      [Meaning(elements[0].tree)] + ElementsMeaning(elements[1..])
  }
}
