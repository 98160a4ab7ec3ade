/** What JsonHelper promises to its callers. */
module JsonTheorems {
  import opened Utf16
  import opened JsonText
  import opened JsonPrinter
  import opened JsonReader
  import opened JsonGrammar
  import opened JsonConformance
  import opened JsonRoundTrip
  import opened Options

  // ---- What any text parses to ----

  /**
   * A value as the parser builds it: wrapped, one value per name, and at any depth an
   * Integer exactly for the integers of 32 bits and a Long for all others of 64.
   */
  ghost predicate Built(v: Value)
    decreases v
  {
    match v
    case Number(n, box) =>
      && -0x8000_0000_0000_0000 <= n <= 0x7FFF_FFFF_FFFF_FFFF
      && (box.IntegerBox? <==> -0x8000_0000 <= n <= 0x7FFF_FFFF)
    case JsonObject(fields) => DistinctNames(fields) && forall f <- fields :: Built(f.value)
    case JsonArray(items) => forall x <- items :: Built(x)
    case _ => !v.Map? && !v.List? && !v.Other?
  }

  ghost predicate BuiltFields(fields: seq<Field>) {
    DistinctNames(fields) && forall f <- fields :: Built(f.value)
  }

  lemma {:induction false} PutDistinct(fields: seq<Field>, name: Text, value: Value)
    requires DistinctNames(fields)
    ensures DistinctNames(Put(fields, name, value))
    ensures forall f <- Put(fields, name, value) :: f == Field(name, value) || f in fields
    decreases fields
  {
    if fields != [] && fields[0].name != name {
      var head, rest := fields[0], fields[1..];
      assert forall i :: 0 <= i < |rest| ==> rest[i] == fields[i + 1];
      PutDistinct(rest, name, value);
      var r := Put(rest, name, value);
      forall i | 0 <= i < |r|
        ensures r[i].name != head.name
      {
        assert r[i] in r;
        if r[i] != Field(name, value) {
          var j :| 0 <= j < |rest| && rest[j] == r[i];
        }
      }
      assert Put(fields, name, value) == [head] + r;
    }
  }

  lemma ScalarsBuilt(r: Reader, p: nat)
    requires p <= |r.src|
    ensures r.ParseNumber(p).Ok? ==> Built(r.ParseNumber(p).value)
    ensures r.ParseBool(p).Ok? ==> Built(r.ParseBool(p).value)
    ensures r.ParseNull(p).Ok? ==> Built(r.ParseNull(p).value)
  {
    hide Reader.SkipDigits, Reader.SkipFraction, Reader.SkipExponent, Reader.SkipMinus, Reader.DecimalValue;
  }

  lemma {:induction false} ValueBuilt(r: Reader, p: nat)
    requires p <= |r.src|
    ensures r.ParseValue(p).Ok? ==> Built(r.ParseValue(p).value)
    decreases |r.src| - p, 1
  {
    hide Reader.ParseNumber, Reader.ParseBool, Reader.ParseNull, Reader.ParseStr;
    var q := r.Skip(p);
    if q < |r.src| {
      ScalarsBuilt(r, q);
      if r.src[q] == LBRACE {
        var s := r.Skip(q + 1);
        MembersBuilt(r, s, []);
      } else if r.src[q] == LBRACKET {
        var s := r.Skip(q + 1);
        ElementsBuilt(r, s, []);
      }
    }
  }

  lemma {:induction false} ElementsBuilt(r: Reader, p: nat, items: seq<Value>)
    requires p <= |r.src| && forall x <- items :: Built(x)
    ensures r.ParseElements(p, items).Ok? ==> Built(r.ParseElements(p, items).value)
    decreases |r.src| - p, 2
  {
    hide Reader.ParseValue;
    ValueBuilt(r, p);
    match r.ParseValue(p)
    case Throw(_) =>
    case Ok(item, c) =>
      var more := items + [item];
      assert forall x <- more :: Built(x);
      var d := r.Skip(c);
      if r.Peek(d) == COMMA {
        ElementsBuilt(r, d + 1, more);
      }
  }

  lemma {:induction false} MembersBuilt(r: Reader, p: nat, fields: seq<Field>)
    requires p <= |r.src| && BuiltFields(fields)
    ensures r.ParseMembers(p, fields).Ok? ==> Built(r.ParseMembers(p, fields).value)
    decreases |r.src| - p, 2
  {
    hide Reader.ParseValue, Reader.ParseStr, Put;
    var name := r.ParseStr(r.Skip(p));
    if name.Ok? {
      var colon := r.Expect(COLON, r.Skip(name.pos));
      if colon.Ok? {
        ValueBuilt(r, colon.pos);
        var value := r.ParseValue(colon.pos);
        if value.Ok? {
          PutDistinct(fields, name.value, value.value);
          var d := r.Skip(value.pos);
          if r.Peek(d) == COMMA {
            MembersBuilt(r, d + 1, Put(fields, name.value, value.value));
          }
        }
      }
    }
  }

  /** Whatever the text, what parseObject and parseArray return is built so. */
  lemma ParsedIsBuilt(json: Option<Text>, table: CharTable)
    ensures ParseObject(json, table).Ok? ==> BuiltFields(ParseObject(json, table).value)
    ensures ParseArray(json, table).Ok? ==> forall x <- ParseArray(json, table).value :: Built(x)
  {
    hide Reader.ParseValue, Trim;
    if json.Some? {
      ValueBuilt(Reader(Trim(json.value), table), 0);
    }
  }

  // ---- toJson, then parseObject ----

  /** What is read says what was handed to the writer: the same numbers, texts, names and order. */
  ghost predicate Alike(v: Value, w: Value, str: ToString)
    decreases v
  {
    match v
    case Null => w == Null
    case Bool(b) => w == Bool(b)
    case Number(n, _) => w.Number? && w.n == n
    case Double(_) => w == Double(str(v))
    case Str(s) => w == Str(s)
    case Map(entries) =>
      && w.JsonObject? && |w.fields| == |entries|
      && forall i :: 0 <= i < |entries| ==>
           w.fields[i].name == entries[i].name && Alike(entries[i].value, w.fields[i].value, str)
    case List(elements) =>
      && w.JsonArray? && |w.items| == |elements|
      && forall i :: 0 <= i < |elements| ==> Alike(elements[i], w.items[i], str)
    case _ => w == Str(str(v))
  }

  lemma {:induction false} ReadsBackAlike(v: Value, str: ToString)
    ensures Alike(v, ReadBack(v, str), str)
    decreases v
  {
    match v
    case Map(entries) =>
      forall i | 0 <= i < |entries|
        ensures Alike(entries[i].value, ReadBackFields(entries, str)[i].value, str)
      {
        ReadsBackAlike(entries[i].value, str);
        ReadBackAt(entries, str, i);
      }
    case List(elements) =>
      forall i | 0 <= i < |elements|
        ensures Alike(elements[i], ReadBackItems(elements, str)[i], str)
      {
        ReadsBackAlike(elements[i], str);
        ItemReadBack(elements, str, i);
      }
    case _ =>
  }

  lemma {:induction false} ReadBackAt(fields: seq<Field>, str: ToString, i: nat)
    requires i < |fields|
    ensures ReadBackFields(fields, str)[i].value == ReadBack(fields[i].value, str)
  {
    hide ReadBack;
    if i > 0 {
      ReadBackAt(fields[1..], str, i - 1);
    }
  }

  lemma {:induction false} ItemReadBack(items: seq<Value>, str: ToString, i: nat)
    requires i < |items|
    ensures ReadBackItems(items, str)[i] == ReadBack(items[i], str)
  {
    hide ReadBack;
    if i > 0 {
      ItemReadBack(items[1..], str, i - 1);
    }
  }

  lemma AtStart(r: Reader, t: Text, rest: Text)
    requires r.src == t + rest
    ensures At(r, 0, t)
  {
  }

  lemma PrintedAsWhole(v: Value, str: ToString, table: CharTable)
    requires Representable(v, str)
    ensures var t := Print(v, str); Reader(t, table).ParseValue(0) == Ok(ReadBack(v, str), |t|)
  {
    hide At, Reader.ParseValue, Print, ReadBack, Representable;
    var t := Print(v, str);
    var r := Reader(t, table);
    assert t + [] == t;
    AtStart(r, t, []);
    assert EndsNumber(r, 0 + |t|);
    ReadsPrinted(r, 0, v, str);
  }

  /** parseObject after toJson gives every map that Java can hold (doubles finite), read back. */
  lemma ParseObjectUndoesToJson(entries: seq<Field>, str: ToString, table: CharTable)
    requires Representable(Map(entries), str)
    ensures ParseObject(Some(ToJson(entries, str)), table) ==
            Ok(ReadBackFields(entries, str), |ToJson(entries, str)|)
    ensures BuiltFields(ReadBackFields(entries, str))
    ensures Alike(Map(entries), JsonObject(ReadBackFields(entries, str)), str)
  {
    ReadsBackAlike(Map(entries), str);
    PrintedAsWhole(Map(entries), str, table);
    ParsedIsBuilt(Some(ToJson(entries, str)), table);
    hide Reader.ParseValue, Built, Alike;
  }

  /** And parseArray reads back every printed list. */
  lemma ParseArrayUndoesPrint(elements: seq<Value>, str: ToString, table: CharTable)
    requires Representable(List(elements), str)
    ensures var t := Print(List(elements), str);
            ParseArray(Some(t), table) == Ok(ReadBackItems(elements, str), |t|)
    ensures forall x <- ReadBackItems(elements, str) :: Built(x)
    ensures Alike(List(elements), JsonArray(ReadBackItems(elements, str)), str)
  {
    ReadsBackAlike(List(elements), str);
    PrintedAsWhole(List(elements), str, table);
    ParsedIsBuilt(Some(Print(List(elements), str)), table);
    hide Reader.ParseValue, Built, Alike;
  }

  /** Two values print alike only if they are the same once read back. */
  lemma PrintIsInjective(v: Value, w: Value, str: ToString)
    requires Representable(v, str) && Representable(w, str)
    requires Print(v, str) == Print(w, str)
    ensures ReadBack(v, str) == ReadBack(w, str)
  {
    hide Reader.ParseValue;
    var table := CharTable(_ => false, _ => -1, _ => -1);
    PrintedAsWhole(v, str, table);
    PrintedAsWhole(w, str, table);
  }

  // ---- What is printed is JSON ----

  ghost predicate IsJson(t: Text) {
    exists tree: Tree :: Valid(tree) && TreeText(tree) == t
  }

  ghost predicate IsJsonString(t: Text) {
    exists chars: seq<Char> :: ValidChars(chars) && StringText(chars) == t
  }

  /** Every printed string, whatever its code units, is a string of RFC 8259, section 7. */
  lemma PrintedStringConforms(s: Text)
    ensures IsJsonString(PrintStr(s))
  {
    StringMeans(s);
  }

  /** Every printed value is a text of RFC 8259. */
  lemma PrintedValueConforms(v: Value, str: ToString)
    requires Representable(v, str)
    ensures IsJson(Print(v, str))
  {
    TreeMeans(v, str);
  }

  // ---- Whatever follows the value ----

  predicate Blank(t: Text) {
    forall c <- t :: c <= 0x20
  }

  lemma {:induction false} TrimLeftBlank(before: Text, t: Text)
    requires Blank(before) && t != [] && t[0] > 0x20
    ensures TrimLeft(before + t) == t
    decreases |before|
  {
    if before == [] {
      assert before + t == t;
    } else {
      assert before[0] in before && forall c <- before[1..] :: c in before;
      assert (before + t)[1..] == before[1..] + t;
      TrimLeftBlank(before[1..], t);
    }
  }

  lemma {:induction false} TrimRightAfter(t: Text, rest: Text)
    requires t != [] && t[|t| - 1] > 0x20
    ensures TrimRight(t + rest) == t + TrimRight(rest)
    decreases |rest|
  {
    if rest != [] && rest[|rest| - 1] <= 0x20 {
      assert (t + rest)[..|t + rest| - 1] == t + rest[..|rest| - 1];
      TrimRightAfter(t, rest[..|rest| - 1]);
    }
  }

  predicate IsObjectTree(t: Tree) {
    t.EmptyObject? || t.ObjectTree?
  }

  predicate IsArrayTree(t: Tree) {
    t.EmptyArray? || t.ArrayTree?
  }

  lemma ContainerMarks(t: Tree)
    requires !IsScalar(t)
    ensures var text := TreeText(t); text != [] && text[0] > 0x20 && text[|text| - 1] > 0x20
  {
    hide Join, MemberTexts, ElementTexts;
  }

  /** White space before an object or array goes, and whatever follows it is never looked at. */
  lemma ContainerAtFront(before: Text, t: Tree, rest: Text, table: CharTable)
    requires Blank(before) && Valid(t) && !IsScalar(t)
    ensures var json := Trim(before + TreeText(t) + rest);
            json != [] && Reader(json, table).ParseValue(0) == Reading(t, |TreeText(t)|)
  {
    hide Reader.ParseValue, TreeText, Reading, TrimLeft, TrimRight;
    var text := TreeText(t);
    ContainerMarks(t);
    assert before + text + rest == before + (text + rest);
    TrimLeftBlank(before, text + rest);
    TrimRightAfter(text, rest);
    var r := Reader(text + TrimRight(rest), table);
    AtStart(r, text, TrimRight(rest));
    ReadContainer(r, 0, t);
  }

  /**
   * parseObject reads every object that the grammar derives as what it means, and
   * ignores what follows it; it throws if and only if an integer is too long.
   */
  lemma ParseObjectReads(before: Text, t: Tree, rest: Text, table: CharTable)
    requires Blank(before) && Valid(t) && IsObjectTree(t)
    ensures ParseObject(Some(before + TreeText(t) + rest), table) ==
            if Fits(t) then Ok(Meaning(t).fields, |TreeText(t)|) else Throw(NumberFormat)
    ensures Fits(t) ==> BuiltFields(Meaning(t).fields)
  {
    hide Reader.ParseValue, TreeText, Trim, Built;
    ContainerAtFront(before, t, rest, table);
    ParsedIsBuilt(Some(before + TreeText(t) + rest), table);
  }

  lemma ParseArrayReads(before: Text, t: Tree, rest: Text, table: CharTable)
    requires Blank(before) && Valid(t) && IsArrayTree(t)
    ensures ParseArray(Some(before + TreeText(t) + rest), table) ==
            if Fits(t) then Ok(Meaning(t).items, |TreeText(t)|) else Throw(NumberFormat)
    ensures Fits(t) ==> forall x <- Meaning(t).items :: Built(x)
  {
    hide Reader.ParseValue, TreeText, Trim, Built;
    ContainerAtFront(before, t, rest, table);
    ParsedIsBuilt(Some(before + TreeText(t) + rest), table);
  }

  lemma {:induction false} BlankIsTrimmed(t: Text)
    requires Blank(t)
    ensures Trim(t) == []
    decreases |t|
  {
    if t != [] {
      assert t[0] in t && forall c <- t[1..] :: c in t;
      BlankIsTrimmed(t[1..]);
    }
  }

  /** A null, a blank text, and an array where an object is wanted or the reverse give nothing, without an exception. */
  lemma NothingToRead(blank: Text, t: Tree, rest: Text, table: CharTable)
    requires Blank(blank) && Valid(t) && !IsScalar(t) && Fits(t)
    ensures ParseObject(None, table) == Ok([], 0) && ParseArray(None, table) == Ok([], 0)
    ensures ParseObject(Some(blank), table) == Ok([], 0) && ParseArray(Some(blank), table) == Ok([], 0)
    ensures IsArrayTree(t) ==> ParseObject(Some(blank + TreeText(t) + rest), table) == Ok([], |TreeText(t)|)
    ensures IsObjectTree(t) ==> ParseArray(Some(blank + TreeText(t) + rest), table) == Ok([], |TreeText(t)|)
  {
    BlankIsTrimmed(blank);
    ContainerAtFront(blank, t, rest, table);
    hide Reader.ParseValue, TreeText, Trim;
  }

  // ---- For instance ----

  lemma WordIsRead(r: Reader)
    requires |r.src| > 0 && 0x20 < r.src[0] < 128
    ensures r.Skip(0) == 0
  {
  }

  /** The three words are what they say. */
  lemma WordsAreRead(table: CharTable)
    ensures Reader(Ascii("true"), table).ParseValue(0) == Ok(Bool(true), 4)
    ensures Reader(Ascii("false"), table).ParseValue(0) == Ok(Bool(false), 5)
    ensures Reader(Ascii("null"), table).ParseValue(0) == Ok(Null, 4)
  {
    Characters();
    WordIsRead(Reader(TRUE_TEXT, table));
    WordIsRead(Reader(FALSE_TEXT, table));
    WordIsRead(Reader(NULL_TEXT, table));
    hide Ascii, Reader.ParseObj, Reader.ParseArr, Reader.ParseStr, Reader.ParseNumber;
  }
}
