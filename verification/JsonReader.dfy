/** The recursive-descent parser of JsonHelper as functions of the source text and a position. */
module JsonReader {
  import opened Utf16
  import opened JsonText
  import opened JsonPrinter
  import opened Options

  /** The unchecked exceptions that the parser lets through. */
  datatype Exception = IllegalState(at: nat) | NumberFormat | OutOfBounds

  /** A value and the position after it, or an exception. */
  datatype Outcome<+T> = Ok(value: T, pos: nat) | Throw(error: Exception) {
    predicate IsFailure() {
      Throw?
    }

    function PropagateFailure<U>(): (r: Outcome<U>)
      requires Throw?
    {
      Throw(error)
    }

    function Extract(): (T, nat)
      requires Ok?
    {
      (value, pos)
    }
  }

  /** LinkedHashMap.put: a name already present keeps its place and takes the new value. */
  function Put(fields: seq<Field>, name: Text, value: Value): seq<Field> {
    if fields == [] then [Field(name, value)]
    else if fields[0].name == name then [Field(name, value)] + fields[1..]
    else [fields[0]] + Put(fields[1..], name, value)
  }

  /** A new name goes to the end, and a known one keeps its place k. */
  lemma {:induction false} PutMeans(fields: seq<Field>, name: Text, value: Value, k: nat)
    requires k <= |fields| && forall j :: 0 <= j < k ==> fields[j].name != name
    requires k < |fields| ==> fields[k].name == name
    ensures Put(fields, name, value) ==
            if k < |fields| then fields[k := Field(name, value)] else fields + [Field(name, value)]
    decreases k
  {
    if k > 0 {
      PutMeans(fields[1..], name, value, k - 1);
    }
  }

  function Unescape(c: Code): Code {
    if c == LOWER_B then 0x08
    else if c == LOWER_F then 0x0C
    else if c == LOWER_N then 0x0A
    else if c == LOWER_R then 0x0D
    else if c == LOWER_T then TAB
    else c
  }

  datatype Reader = Reader(src: Text, table: CharTable) {

    function Skip(p: nat): (q: nat)
      requires p <= |src|
      ensures p <= q <= |src|
      ensures q < |src| ==> !IsSpace(table, src[q])
      decreases |src| - p
    {
      if p < |src| && IsSpace(table, src[p]) then Skip(p + 1) else p
    }

    function Peek(p: nat): Code {
      if p < |src| then src[p] else 0
    }

    function Expect(c: Code, p: nat): (r: Outcome<()>)
      requires p <= |src|
      ensures r.Ok? ==> p < r.pos <= |src| && src[r.pos - 1] == c
    {
      var q := Skip(p);
      if q >= |src| || src[q] != c then Throw(IllegalState(q)) else Ok((), q + 1)
    }

    predicate StartsWith(t: Text, p: nat)
      requires p <= |src|
    {
      p + |t| <= |src| && src[p..p + |t|] == t
    }

    // ---- Strings ----

    function HexValue(t: Text): (n: Option<nat>) {
      if t == [] then Some(0)
      else
        var high := HexValue(t[..|t| - 1]);
        var low := HexDigit(table, t[|t| - 1]);
        if high.None? || low < 0 then None else Some(16 * high.value + low)
    }

    /** Integer.parseInt(t, 16): one sign is accepted in front of the digits. */
    function ParseHex(t: Text): Option<int> {
      var signed := t != [] && (t[0] == PLUS || t[0] == MINUS);
      var digits := if signed then t[1..] else t;
      if digits == [] then None
      else
        match HexValue(digits)
        case None => None
        case Some(n) => Some(if signed && t[0] == MINUS then -(n as int) else n)
    }

    /** The loop of parseStr, entered at p with text already collected. */
    function ScanStr(p: nat, text: Text): (r: Outcome<Text>)
      requires p <= |src|
      ensures r.Ok? ==> p <= r.pos <= |src|
      decreases |src| - p
    {
      if p >= |src| then Ok(text, p)
      else if src[p] == QUOTE then Ok(text, p + 1)
      else if src[p] == BACKSLASH then
        if p + 1 >= |src| then Ok(text, p + 1)
        else if src[p + 1] == LOWER_U then
          if p + 6 > |src| then Throw(OutOfBounds)
          else
            match ParseHex(src[p + 2..p + 6])
            case None => Throw(NumberFormat)
            case Some(n) => ScanStr(p + 6, text + [n % 0x1_0000])
        else ScanStr(p + 2, text + [Unescape(src[p + 1])])
      else ScanStr(p + 1, text + [src[p]])
    }

    function ParseStr(p: nat): (r: Outcome<Text>)
      requires p <= |src|
      ensures r.Ok? ==> p < r.pos <= |src|
    {
      var (_, q) :- Expect(QUOTE, p);
      ScanStr(q, [])
    }

    // ---- Numbers ----

    function SkipDigits(p: nat): (q: nat)
      requires p <= |src|
      ensures p <= q <= |src|
      decreases |src| - p
    {
      if p < |src| && IsDigit(table, src[p]) then SkipDigits(p + 1) else p
    }

    function SkipMinus(p: nat): (q: nat)
      requires p <= |src|
      ensures p <= q <= |src|
    {
      if Peek(p) == MINUS then p + 1 else p
    }

    function SkipFraction(p: nat): (q: nat)
      requires p <= |src|
      ensures p <= q <= |src|
    {
      if p < |src| && src[p] == DOT then SkipDigits(p + 1) else p
    }

    /** Past the e or E of an exponent and its sign, if there is one at p. */
    function ExponentDigits(p: nat): (q: nat)
      requires p < |src|
      ensures p < q <= |src|
    {
      if p + 1 < |src| && (src[p + 1] == PLUS || src[p + 1] == MINUS) then p + 2 else p + 1
    }

    predicate AtExponent(p: nat) {
      p < |src| && (src[p] == LOWER_E || src[p] == UPPER_E)
    }

    function SkipExponent(p: nat): (q: nat)
      requires p <= |src|
      ensures p <= q <= |src|
    {
      if AtExponent(p) then SkipDigits(ExponentDigits(p)) else p
    }

    function DecimalValue(t: Text): (n: Option<nat>) {
      if t == [] then Some(0)
      else
        var high := DecimalValue(t[..|t| - 1]);
        var low := DecimalDigit(table, t[|t| - 1]);
        if high.None? || low < 0 then None else Some(10 * high.value + low)
    }

    /** Long.parseLong, on text that begins with a digit or a minus sign. */
    function ParseLong(t: Text): (n: Option<int>)
      ensures n.Some? ==> t != []
    {
      var minus := t != [] && t[0] == MINUS;
      var digits := if minus then t[1..] else t;
      if digits == [] then None
      else
        match DecimalValue(digits)
        case None => None
        case Some(m) =>
          var n := if minus then -(m as int) else m;
          if LONG_MIN <= n <= LONG_MAX then Some(n) else None
    }

    predicate AsciiDigits(p: nat, q: nat)
      requires p <= q <= |src|
    {
      forall i :: p <= i < q ==> ZERO <= src[i] < ZERO + 10
    }

    /**
     * Whether Double.parseDouble accepts src[start..x], where whole digits end at w,
     * the fraction at f and the exponent at x: ASCII digits only, at least one of
     * them before the exponent, and one in the exponent when it is there.
     */
    predicate DoubleAccepts(p: nat, w: nat, f: nat, x: nat)
      requires p <= w <= f <= x <= |src|
    {
      var wholeDigits := w - p;
      var fracDigits := if f > w then f - w - 1 else 0;
      && wholeDigits + fracDigits > 0
      && AsciiDigits(p, w)
      && (f > w ==> AsciiDigits(w + 1, f))
      && (x > f ==> ExponentDigits(f) < x && AsciiDigits(ExponentDigits(f), x))
    }

    function ParseNumber(p: nat): (r: Outcome<Value>)
      requires p <= |src|
      ensures r.Ok? ==> p < r.pos <= |src|
    {
      var s := SkipMinus(p);
      var w := SkipDigits(s);
      var f := SkipFraction(w);
      var x := SkipExponent(f);
      if f > w || x > f then
        if DoubleAccepts(s, w, f, x) then Ok(Double(src[p..x]), x) else Throw(NumberFormat)
      else
        match ParseLong(src[p..x])
        case None => Throw(NumberFormat)
        case Some(n) => Ok(Number(n, BoxFor(n)), x)
    }

    // ---- Values ----

    function ParseBool(p: nat): (r: Outcome<Value>)
      requires p <= |src|
      ensures r.Ok? ==> p < r.pos <= |src|
    {
      if StartsWith(TRUE_TEXT, p) then Ok(Bool(true), p + 4)
      else if StartsWith(FALSE_TEXT, p) then Ok(Bool(false), p + 5)
      else Throw(IllegalState(p))
    }

    function ParseNull(p: nat): (r: Outcome<Value>)
      requires p <= |src|
      ensures r.Ok? ==> p < r.pos <= |src|
    {
      if StartsWith(NULL_TEXT, p) then Ok(Null, p + 4) else Throw(IllegalState(p))
    }

    /**
     * Every call returns within the text or throws, and the only value that takes
     * no text is the null returned at the end of the input.
     */
    function ParseValue(p: nat): (r: Outcome<Value>)
      requires p <= |src|
      ensures r.Ok? ==> Skip(p) <= r.pos <= |src|
      ensures r.Ok? && r.pos == Skip(p) ==> r.pos == |src| && r.value == Null
      decreases |src| - p, 1
    {
      var q := Skip(p);
      if q >= |src| then Ok(Null, q)
      else if src[q] == LBRACE then ParseObj(q)
      else if src[q] == LBRACKET then ParseArr(q)
      else if src[q] == QUOTE then
        var (s, e) :- ParseStr(q);
        Ok(Str(s), e)
      else if src[q] == LOWER_T || src[q] == LOWER_F then ParseBool(q)
      else if src[q] == LOWER_N then ParseNull(q)
      else ParseNumber(q)
    }

    function ParseObj(p: nat): (r: Outcome<Value>)
      requires p <= |src|
      ensures r.Ok? ==> p < r.pos <= |src| && r.value.JsonObject?
      decreases |src| - p, 0
    {
      var (_, q) :- Expect(LBRACE, p);
      var s := Skip(q);
      if Peek(s) == RBRACE then Ok(JsonObject([]), s + 1) else ParseMembers(s, [])
    }

    /** A key, a colon and a value. */
    function ParseMember(p: nat): (r: Outcome<Field>)
      requires p <= |src|
      ensures r.Ok? ==> p < r.pos <= |src|
      decreases |src| - p, 1
    {
      var (name, a) :- ParseStr(Skip(p));
      var (_, b) :- Expect(COLON, Skip(a));
      var (value, c) :- ParseValue(b);
      Ok(Field(name, value), c)
    }

    /** The loop of parseObj, entered at p with fields already collected. */
    function ParseMembers(p: nat, fields: seq<Field>): (r: Outcome<Value>)
      requires p <= |src|
      ensures r.Ok? ==> p < r.pos <= |src| && r.value.JsonObject?
      decreases |src| - p, 2
    {
      var (f, c) :- ParseMember(p);
      var more := Put(fields, f.name, f.value);
      var d := Skip(c);
      if Peek(d) == COMMA then ParseMembers(d + 1, more)
      else
        var (_, e) :- Expect(RBRACE, d);
        Ok(JsonObject(more), e)
    }

    function ParseArr(p: nat): (r: Outcome<Value>)
      requires p <= |src|
      ensures r.Ok? ==> p < r.pos <= |src| && r.value.JsonArray?
      decreases |src| - p, 0
    {
      var (_, q) :- Expect(LBRACKET, p);
      var s := Skip(q);
      if Peek(s) == RBRACKET then Ok(JsonArray([]), s + 1) else ParseElements(s, [])
    }

    /** The loop of parseArr, entered at p with items already collected. */
    function ParseElements(p: nat, items: seq<Value>): (r: Outcome<Value>)
      requires p <= |src|
      ensures r.Ok? ==> p < r.pos <= |src| && r.value.JsonArray?
      decreases |src| - p, 2
    {
      var (item, c) :- ParseValue(p);
      var d := Skip(c);
      if Peek(d) == COMMA then ParseElements(d + 1, items + [item])
      else
        var (_, e) :- Expect(RBRACKET, d);
        Ok(JsonArray(items + [item]), e)
    }
  }

  // How the parts of an object and of an array follow one another, one step at a time.

  lemma ObjectStart(r: Reader, p: nat)
    requires p <= |r.src|
    ensures match r.Expect(LBRACE, p)
            case Throw(e) => r.ParseObj(p) == Throw(e)
            case Ok(_, q) =>
              var s := r.Skip(q);
              if r.Peek(s) == RBRACE then r.ParseObj(p) == Ok(JsonObject([]), s + 1)
              else r.ParseObj(p) == r.ParseMembers(s, [])
  {
    hide r.Skip, r.Expect, r.ParseMembers;
  }

  lemma ArrayStart(r: Reader, p: nat)
    requires p <= |r.src|
    ensures match r.Expect(LBRACKET, p)
            case Throw(e) => r.ParseArr(p) == Throw(e)
            case Ok(_, q) =>
              var s := r.Skip(q);
              if r.Peek(s) == RBRACKET then r.ParseArr(p) == Ok(JsonArray([]), s + 1)
              else r.ParseArr(p) == r.ParseElements(s, [])
  {
    hide r.Skip, r.Expect, r.ParseElements;
  }

  lemma MemberParts(r: Reader, p: nat)
    requires p <= |r.src|
    ensures match r.ParseStr(r.Skip(p))
            case Throw(e) => r.ParseMember(p) == Throw(e)
            case Ok(name, a) =>
              match r.Expect(COLON, r.Skip(a))
              case Throw(e) => r.ParseMember(p) == Throw(e)
              case Ok(_, b) =>
                match r.ParseValue(b)
                case Throw(e) => r.ParseMember(p) == Throw(e)
                case Ok(value, c) => r.ParseMember(p) == Ok(Field(name, value), c)
  {
    hide r.Skip, r.Expect, r.ParseStr, r.ParseValue;
  }

  /** One turn of the loop of parseObj. */
  lemma MembersTurn(r: Reader, p: nat, fields: seq<Field>)
    requires p <= |r.src|
    ensures match r.ParseMember(p)
            case Throw(e) => r.ParseMembers(p, fields) == Throw(e)
            case Ok(f, c) =>
              var more, d := Put(fields, f.name, f.value), r.Skip(c);
              if r.Peek(d) == COMMA then r.ParseMembers(p, fields) == r.ParseMembers(d + 1, more)
              else match r.Expect(RBRACE, d)
                   case Throw(e) => r.ParseMembers(p, fields) == Throw(e)
                   case Ok(_, e) => r.ParseMembers(p, fields) == Ok(JsonObject(more), e)
  {
    hide r.ParseMember, r.Skip, r.Expect, Put;
  }

  /** One turn of the loop of parseArr. */
  lemma ElementsTurn(r: Reader, p: nat, items: seq<Value>)
    requires p <= |r.src|
    ensures match r.ParseValue(p)
            case Throw(e) => r.ParseElements(p, items) == Throw(e)
            case Ok(item, c) =>
              var more, d := items + [item], r.Skip(c);
              if r.Peek(d) == COMMA then r.ParseElements(p, items) == r.ParseElements(d + 1, more)
              else match r.Expect(RBRACKET, d)
                   case Throw(e) => r.ParseElements(p, items) == Throw(e)
                   case Ok(_, e) => r.ParseElements(p, items) == Ok(JsonArray(more), e)
  {
    hide r.ParseValue, r.Skip, r.Expect;
  }

  // ---- Entry points ----

  function ToJson(entries: seq<Field>, str: ToString): Text {
    Print(Map(entries), str)
  }

  /** parseObject and parseArray; None stands for a null argument. */
  function ParseObject(json: Option<Text>, table: CharTable): Outcome<seq<Field>> {
    if json.None? || Trim(json.value) == [] then Ok([], 0)
    else
      var (v, p) :- Reader(Trim(json.value), table).ParseValue(0);
      Ok(if v.JsonObject? then v.fields else [], p)
  }

  function ParseArray(json: Option<Text>, table: CharTable): Outcome<seq<Value>> {
    if json.None? || Trim(json.value) == [] then Ok([], 0)
    else
      var (v, p) :- Reader(Trim(json.value), table).ParseValue(0);
      Ok(if v.JsonArray? then v.items else [], p)
  }
}
