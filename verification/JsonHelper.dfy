/** JsonHelper itself: a writer over a StringBuilder and a parser with a moving position. */
module JsonHelper {
  import opened Utf16
  import opened JsonText
  import opened JsonPrinter
  import opened JsonReader
  import opened Options

  class Writer {
    /** The contents of the StringBuilder. */
    var out: Text

    /** What toString answers, value by value. */
    const str: ToString

    constructor (str: ToString)
      ensures out == [] && this.str == str
    {
      out := [];
      this.str := str;
    }

    method WriteValue(value: Value)
      modifies this
      ensures out == old(out) + Print(value, str)
      decreases value, 1
    {
      match value
      case Null => out := out + NULL_TEXT;
      case Bool(b) => out := out + if b then TRUE_TEXT else FALSE_TEXT;
      case Number(n, _) => out := out + PrintInt(n);
      case Double(_) => out := out + str(value);
      case Str(s) => WriteString(s);
      case Map(entries) => WriteMap(entries);
      case List(elements) => WriteList(elements);
      case JsonObject(_) => WriteString(str(value));
      case JsonArray(_) => WriteString(str(value));
      case Other(_) => WriteString(str(value));
    }

    method WriteString(s: Text)
      modifies this
      ensures out == old(out) + PrintStr(s)
    {
      hide Escape, EscapeAll;
      out := out + [QUOTE];
      ghost var start := out;
      EscapeFrom(s, 0);
      for i := 0 to |s|
        invariant out + EscapeAll(s[i..]) == start + EscapeAll(s)
      {
        EscapeFrom(s, i);
        Reassociate(out, Escape(s[i]), EscapeAll(s[i + 1..]));
        out := out + Escape(s[i]);
      }
      EscapeFrom(s, |s|);
      Reassociate(old(out), [QUOTE], EscapeAll(s));
      Reassociate(old(out), [QUOTE] + EscapeAll(s), [QUOTE]);
      out := out + [QUOTE];
    }

    method WriteMap(fields: seq<Field>)
      modifies this
      ensures out == old(out) + Print(Map(fields), str)
      decreases fields, 0
    {
      hide Print, PrintFields, PrintStr, Rest;
      out := out + [LBRACE];
      ghost var start := out;
      RestStart(out, PrintFields(fields, str));
      for i := 0 to |fields|
        invariant Rest(out, PrintFields(fields, str), i, start)
      {
        ghost var before := out;
        if i > 0 {
          out := out + [COMMA];
        }
        WriteString(fields[i].name);
        out := out + [COLON];
        WriteValue(fields[i].value);
        PrintFieldsAt(fields, i, str);
        Reassociate3(before, if i > 0 then [COMMA] else [], PrintStr(fields[i].name), [COLON],
                     Print(fields[i].value, str));
        RestStep(before, out, PrintFields(fields, str), i, start);
      }
      RestEnd(out, PrintFields(fields, str), start);
      PrintMapIs(fields, str, old(out));
      out := out + [RBRACE];
    }

    method WriteList(items: seq<Value>)
      modifies this
      ensures out == old(out) + Print(List(items), str)
      decreases items, 0
    {
      hide Print, PrintItems, Rest;
      out := out + [LBRACKET];
      ghost var start := out;
      RestStart(out, PrintItems(items, str));
      for i := 0 to |items|
        invariant Rest(out, PrintItems(items, str), i, start)
      {
        ghost var before := out;
        if i > 0 {
          out := out + [COMMA];
        }
        WriteValue(items[i]);
        PrintItemsAt(items, i, str);
        RestStep(before, out, PrintItems(items, str), i, start);
      }
      RestEnd(out, PrintItems(items, str), start);
      PrintListIs(items, str, old(out));
      out := out + [RBRACKET];
    }
  }

  lemma Reassociate(a: Text, b: Text, c: Text)
    ensures a + b + c == a + (b + c)
  {
  }

  lemma Reassociate3(out: Text, comma: Text, name: Text, colon: Text, value: Text)
    ensures out + comma + name + colon + value == out + comma + (name + (colon + value))
  {
  }

  lemma EscapeFrom(s: Text, i: nat)
    requires i <= |s|
    ensures s[0..] == s
    ensures if i == |s| then EscapeAll(s[i..]) == [] else EscapeAll(s[i..]) == Escape(s[i]) + EscapeAll(s[i + 1..])
  {
    hide Escape;
    if i < |s| {
      assert s[i..][0] == s[i] && s[i..][1..] == s[i + 1..];
    }
  }

  lemma PrintMapIs(fields: seq<Field>, str: ToString, out: Text)
    ensures out + [LBRACE] + Join(PrintFields(fields, str)) + [RBRACE] == out + Print(Map(fields), str)
  {
    var body := Join(PrintFields(fields, str));
    hide PrintFields, Join;
    assert out + [LBRACE] + body + [RBRACE] == out + ([LBRACE] + body + [RBRACE]);
  }

  lemma PrintListIs(items: seq<Value>, str: ToString, out: Text)
    ensures out + [LBRACKET] + Join(PrintItems(items, str)) + [RBRACKET] == out + Print(List(items), str)
  {
    var body := Join(PrintItems(items, str));
    hide PrintItems, Join;
    assert out + [LBRACKET] + body + [RBRACKET] == out + ([LBRACKET] + body + [RBRACKET]);
  }

  /** After writing texts[..i] on top of start, what is still missing is the rest of the joined text. */
  ghost predicate Rest(out: Text, texts: seq<Text>, i: nat, start: Text)
    requires i <= |texts|
  {
    out + Missing(texts, i) == start + Join(texts)
  }

  ghost function Missing(texts: seq<Text>, i: nat): Text
    requires i <= |texts|
  {
    if i == |texts| then []
    else if i == 0 then Join(texts)
    else [COMMA] + Join(texts[i..])
  }

  lemma RestStart(out: Text, texts: seq<Text>)
    ensures Rest(out, texts, 0, out)
  {
  }

  lemma RestEnd(out: Text, texts: seq<Text>, start: Text)
    requires Rest(out, texts, |texts|, start)
    ensures out == start + Join(texts)
  {
    assert out + [] == out;
  }

  lemma MissingStep(texts: seq<Text>, i: nat)
    requires i < |texts|
    ensures Missing(texts, i) == (if i > 0 then [COMMA] else []) + (texts[i] + Missing(texts, i + 1))
  {
    var tail := texts[i..];
    assert tail[0] == texts[i] && tail[1..] == texts[i + 1..];
    assert i == 0 ==> tail == texts;
    assert Join(tail) == texts[i] + Missing(texts, i + 1);
  }

  lemma RestStep(before: Text, after: Text, texts: seq<Text>, i: nat, start: Text)
    requires i < |texts| && Rest(before, texts, i, start)
    requires after == before + (if i > 0 then [COMMA] else []) + texts[i]
    ensures Rest(after, texts, i + 1, start)
  {
    MissingStep(texts, i);
    hide Missing, Join;
    var comma := if i > 0 then [COMMA] else [];
    Reassociate(before + comma, texts[i], Missing(texts, i + 1));
    Reassociate(before, comma, texts[i] + Missing(texts, i + 1));
  }

  lemma {:induction false} PrintItemsAt(items: seq<Value>, i: nat, str: ToString)
    requires i < |items|
    ensures PrintItems(items, str)[i] == Print(items[i], str)
    decreases i
  {
    if i > 0 {
      PrintItemsAt(items[1..], i - 1, str);
    }
  }

  lemma {:induction false} PrintFieldsAt(fields: seq<Field>, i: nat, str: ToString)
    requires i < |fields|
    ensures PrintFields(fields, str)[i] == PrintField(fields[i].name, Print(fields[i].value, str))
    decreases i
  {
    if i > 0 {
      PrintFieldsAt(fields[1..], i - 1, str);
    }
  }

  method ToJsonText(entries: seq<Field>, str: ToString) returns (json: Text)
    ensures json == ToJson(entries, str)
  {
    var sb := new Writer(str);
    sb.WriteMap(entries);
    json := sb.out;
  }

  // ---- Reading ----

  datatype Result<+T> = Returned(value: T) | Raised(error: Exception)

  /** A call that ended with r at position pos did what the specification o says. */
  predicate Agrees<T(==)>(r: Result<T>, pos: nat, o: Outcome<T>) {
    match o
    case Ok(v, p) => r == Returned(v) && pos == p
    case Throw(e) => r == Raised(e)
  }

  class Parser {
    const src: Text
    const table: CharTable
    var pos: nat

    constructor (src: Text, table: CharTable)
      ensures this.src == src && this.table == table && pos == 0
    {
      this.src := src;
      this.table := table;
      pos := 0;
    }

    /** The text and character table, without the moving position. */
    function Source(): Reader {
      Reader(src, table)
    }

    method SkipWhitespace()
      requires pos <= |src|
      modifies this
      ensures pos == Source().Skip(old(pos))
    {
      while pos < |src| && IsSpace(table, src[pos])
        invariant pos <= |src|
        invariant Source().Skip(pos) == Source().Skip(old(pos))
      {
        pos := pos + 1;
      }
    }

    function Peek(): Code
      reads this
    {
      if pos < |src| then src[pos] else 0
    }

    method Expect(c: Code) returns (r: Result<()>)
      requires pos <= |src|
      modifies this
      ensures pos <= |src| && Agrees(r, pos, Source().Expect(c, old(pos)))
    {
      SkipWhitespace();
      if pos >= |src| || src[pos] != c {
        return Raised(IllegalState(pos));
      }
      pos := pos + 1;
      r := Returned(());
    }

    method ParseStr() returns (r: Result<Text>)
      requires pos <= |src|
      modifies this
      ensures pos <= |src| && Agrees(r, pos, Source().ParseStr(old(pos)))
    {
      hide Reader.ParseHex, Unescape, Reader.Skip;
      var open := Expect(QUOTE);
      if open.Raised? {
        return Raised(open.error);
      }
      var sb: Text := [];
      while pos < |src|
        invariant pos <= |src|
        invariant Source().ScanStr(pos, sb) == Source().ParseStr(old(pos))
        decreases |src| - pos
      {
        hide Reader.ParseStr, Reader.Expect;
        var c := src[pos];
        pos := pos + 1;
        if c == QUOTE {
          return Returned(sb);
        }
        if c == BACKSLASH {
          if pos >= |src| {
            break;
          }
          var esc := src[pos];
          pos := pos + 1;
          if esc == LOWER_U {
            if pos + 4 > |src| {
              return Raised(OutOfBounds);
            }
            var code := Source().ParseHex(src[pos..pos + 4]);
            if code.None? {
              return Raised(NumberFormat);
            }
            sb := sb + [code.value % 0x1_0000];
            pos := pos + 4;
          } else {
            sb := sb + [Unescape(esc)];
          }
        } else {
          sb := sb + [c];
        }
      }
      r := Returned(sb);
    }

    method ConsumeDigits()
      requires pos <= |src|
      modifies this
      ensures pos == Source().SkipDigits(old(pos))
    {
      while pos < |src| && IsDigit(table, src[pos])
        invariant pos <= |src|
        invariant Source().SkipDigits(pos) == Source().SkipDigits(old(pos))
      {
        pos := pos + 1;
      }
    }

    method ConsumeFraction() returns (found: bool)
      requires pos <= |src|
      modifies this
      ensures pos == Source().SkipFraction(old(pos)) && found == (pos > old(pos))
    {
      if pos < |src| && src[pos] == DOT {
        pos := pos + 1;
        ConsumeDigits();
        return true;
      }
      return false;
    }

    method ConsumeExponent() returns (found: bool)
      requires pos <= |src|
      modifies this
      ensures pos == Source().SkipExponent(old(pos)) && found == (pos > old(pos))
    {
      if pos < |src| && (src[pos] == LOWER_E || src[pos] == UPPER_E) {
        pos := pos + 1;
        if pos < |src| && (src[pos] == PLUS || src[pos] == MINUS) {
          pos := pos + 1;
        }
        ConsumeDigits();
        return true;
      }
      return false;
    }

    method ParseNumber() returns (r: Result<Value>)
      requires pos <= |src|
      modifies this
      ensures pos <= |src| && Agrees(r, pos, Source().ParseNumber(old(pos)))
    {
      var start := pos;
      if Peek() == MINUS {
        pos := pos + 1;
      }
      var s := pos;
      ConsumeDigits();
      var w := pos;
      var hasFraction := ConsumeFraction();
      var f := pos;
      var hasExponent := ConsumeExponent();
      var numStr := src[start..pos];
      if hasFraction || hasExponent {
        if Source().DoubleAccepts(s, w, f, pos) {
          return Returned(Double(numStr));
        }
        return Raised(NumberFormat);
      }
      var l := Source().ParseLong(numStr);
      if l.None? {
        return Raised(NumberFormat);
      }
      if INT_MIN <= l.value <= INT_MAX {
        return Returned(Number(l.value, IntegerBox));
      }
      return Returned(Number(l.value, LongBox));
    }

    method ParseBool() returns (r: Result<Value>)
      requires pos <= |src|
      modifies this
      ensures pos <= |src| && Agrees(r, pos, Source().ParseBool(old(pos)))
    {
      if pos + 4 <= |src| && src[pos..pos + 4] == TRUE_TEXT {
        pos := pos + 4;
        return Returned(Bool(true));
      }
      if pos + 5 <= |src| && src[pos..pos + 5] == FALSE_TEXT {
        pos := pos + 5;
        return Returned(Bool(false));
      }
      return Raised(IllegalState(pos));
    }

    method ParseNull() returns (r: Result<Value>)
      requires pos <= |src|
      modifies this
      ensures pos <= |src| && Agrees(r, pos, Source().ParseNull(old(pos)))
    {
      if pos + 4 <= |src| && src[pos..pos + 4] == NULL_TEXT {
        pos := pos + 4;
        return Returned(Null);
      }
      return Raised(IllegalState(pos));
    }

    method ParseValue() returns (r: Result<Value>)
      requires pos <= |src|
      modifies this
      ensures pos <= |src| && Agrees(r, pos, Source().ParseValue(old(pos)))
      decreases |src| - pos, 1
    {
      hide Reader.ParseObj, Reader.ParseArr, Reader.ParseNumber, Reader.ParseStr, Reader.ParseBool, Reader.ParseNull;
      SkipWhitespace();
      if pos >= |src| {
        return Returned(Null);
      }
      var c := src[pos];
      if c == LBRACE {
        r := ParseObj();
      } else if c == LBRACKET {
        r := ParseArr();
      } else if c == QUOTE {
        var s := ParseStr();
        r := if s.Raised? then Raised(s.error) else Returned(Str(s.value));
      } else if c == LOWER_T || c == LOWER_F {
        r := ParseBool();
      } else if c == LOWER_N {
        r := ParseNull();
      } else {
        r := ParseNumber();
      }
    }

    /** What the loop of parseObj reads in one turn: a key, a colon and a value. */
    method ParseMember() returns (r: Result<Field>)
      requires pos <= |src|
      modifies this
      ensures pos <= |src| && Agrees(r, pos, Source().ParseMember(old(pos)))
      decreases |src| - pos, 2
    {
      hide Reader.ParseMember, Reader.ParseValue, Reader.ParseStr, Reader.Skip, Reader.Expect;
      MemberParts(Source(), pos);
      SkipWhitespace();
      var key := ParseStr();
      if key.Raised? {
        return Raised(key.error);
      }
      SkipWhitespace();
      var colon := Expect(COLON);
      if colon.Raised? {
        return Raised(colon.error);
      }
      var val := ParseValue();
      if val.Raised? {
        return Raised(val.error);
      }
      r := Returned(Field(key.value, val.value));
    }

    method ParseObj() returns (r: Result<Value>)
      requires pos <= |src|
      modifies this
      ensures pos <= |src| && Agrees(r, pos, Source().ParseObj(old(pos)))
      decreases |src| - pos, 0
    {
      hide Reader.ParseObj, Reader.ParseMember, Reader.ParseMembers, Reader.Skip, Reader.Expect, Put;
      ObjectStart(Source(), pos);
      var open := Expect(LBRACE);
      if open.Raised? {
        return Raised(open.error);
      }
      var map_: seq<Field> := [];
      SkipWhitespace();
      if Peek() == RBRACE {
        pos := pos + 1;
        return Returned(JsonObject(map_));
      }
      while true
        invariant old(pos) < pos <= |src|
        invariant Source().ParseMembers(pos, map_) == Source().ParseObj(old(pos))
        decreases |src| - pos
      {
        MembersTurn(Source(), pos, map_);
        var entry := ParseMember();
        if entry.Raised? {
          return Raised(entry.error);
        }
        map_ := Put(map_, entry.value.name, entry.value.value);
        SkipWhitespace();
        if Peek() == COMMA {
          pos := pos + 1;
        } else {
          break;
        }
      }
      var close := Expect(RBRACE);
      if close.Raised? {
        return Raised(close.error);
      }
      r := Returned(JsonObject(map_));
    }

    method ParseArr() returns (r: Result<Value>)
      requires pos <= |src|
      modifies this
      ensures pos <= |src| && Agrees(r, pos, Source().ParseArr(old(pos)))
      decreases |src| - pos, 0
    {
      hide Reader.ParseArr, Reader.ParseElements, Reader.ParseValue, Reader.Skip, Reader.Expect;
      ArrayStart(Source(), pos);
      var open := Expect(LBRACKET);
      if open.Raised? {
        return Raised(open.error);
      }
      var list: seq<Value> := [];
      SkipWhitespace();
      if Peek() == RBRACKET {
        pos := pos + 1;
        return Returned(JsonArray(list));
      }
      while true
        invariant old(pos) < pos <= |src|
        invariant Source().ParseElements(pos, list) == Source().ParseArr(old(pos))
        decreases |src| - pos
      {
        ElementsTurn(Source(), pos, list);
        var val := ParseValue();
        if val.Raised? {
          return Raised(val.error);
        }
        list := list + [val.value];
        SkipWhitespace();
        if Peek() == COMMA {
          pos := pos + 1;
        } else {
          break;
        }
      }
      var close := Expect(RBRACKET);
      if close.Raised? {
        return Raised(close.error);
      }
      r := Returned(JsonArray(list));
    }
  }

  method ParseObjectText(json: Option<Text>, table: CharTable) returns (r: Result<seq<Field>>)
    ensures match JsonReader.ParseObject(json, table)
            case Ok(fields, _) => r == Returned(fields)
            case Throw(e) => r == Raised(e)
  {
    hide Reader.ParseValue;
    if json.None? || Trim(json.value) == [] {
      return Returned([]);
    }
    var p := new Parser(Trim(json.value), table);
    var val := p.ParseValue();
    if val.Raised? {
      return Raised(val.error);
    }
    r := Returned(if val.value.JsonObject? then val.value.fields else []);
  }

  method ParseArrayText(json: Option<Text>, table: CharTable) returns (r: Result<seq<Value>>)
    ensures match JsonReader.ParseArray(json, table)
            case Ok(items, _) => r == Returned(items)
            case Throw(e) => r == Raised(e)
  {
    hide Reader.ParseValue;
    if json.None? || Trim(json.value) == [] {
      return Returned([]);
    }
    var p := new Parser(Trim(json.value), table);
    var val := p.ParseValue();
    if val.Raised? {
      return Raised(val.error);
    }
    r := Returned(if val.value.JsonArray? then val.value.items else []);
  }
}
