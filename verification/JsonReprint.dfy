/** What becomes of a parsed object that is printed from its rawMap and parsed again. */
module JsonReprint {
  import opened Utf16
  import opened JsonText
  import opened JsonPrinter
  import opened JsonReader
  import opened JsonGrammar
  import opened JsonConformance
  import opened JsonRoundTrip
  import opened JsonTheorems
  import opened Options

  // ---- Doubles ----

  const INFINITY: Text := [0x49, 0x6E, 0x66, 0x69, 0x6E, 0x69, 0x74, 0x79]

  /** A double beyond the range of the type, as 1e999 is read: its toString is no number of JSON. */
  predicate IsInfinite(v: Value, str: ToString) {
    v.Double? && (str(v) == INFINITY || str(v) == [MINUS] + INFINITY)
  }

  /** Double.toString gives a number of JSON or an infinity, and parsing that gives the same double. */
  ghost predicate PrintsFaithfully(v: Value, str: ToString) {
    v.Double? ==> (IsFiniteDouble(str(v)) || IsInfinite(v, str)) && str(Double(str(v))) == str(v)
  }

  /** Equal to Java: doubles that have the same toString are the same. */
  predicate SameValue(v: Value, w: Value, str: ToString) {
    v == w || (v.Double? && w.Double? && str(v) == str(w))
  }

  predicate SameFields(fields: seq<Field>, others: seq<Field>, str: ToString) {
    && |fields| == |others|
    && forall i :: 0 <= i < |fields| ==>
         fields[i].name == others[i].name && SameValue(fields[i].value, others[i].value, str)
  }

  /** Printed from its rawMap and parsed again, the object is the same. */
  predicate Survives(fields: seq<Field>, str: ToString, table: CharTable) {
    var again := ParseObject(Some(ToJson(fields, str)), table);
    again.Ok? && SameFields(again.value, fields, str)
  }

  predicate IsWrapper(v: Value) {
    v.JsonObject? || v.JsonArray?
  }

  // ---- Without infinities ----

  lemma BuiltReadsBack(v: Value, str: ToString)
    requires Built(v) && PrintsFaithfully(v, str)
    ensures SameValue(ReadBack(v, str), v, str) <==> !IsWrapper(v)
  {
  }

  lemma BuiltFieldsReadBack(fields: seq<Field>, str: ToString)
    requires forall f <- fields :: Built(f.value) && PrintsFaithfully(f.value, str)
    ensures SameFields(ReadBackFields(fields, str), fields, str) <==> forall f <- fields :: !IsWrapper(f.value)
  {
    hide Built, PrintsFaithfully, ReadBack, ReadBackFields, SameValue, IsWrapper;
    forall i: nat | i < |fields|
      ensures SameValue(ReadBackFields(fields, str)[i].value, fields[i].value, str) <==> !IsWrapper(fields[i].value)
    {
      assert fields[i] in fields;
      ReadBackAt(fields, str, i);
      BuiltReadsBack(fields[i].value, str);
    }
  }

  lemma BuiltIsRepresentable(fields: seq<Field>, str: ToString)
    requires BuiltFields(fields)
    requires forall f <- fields :: PrintsFaithfully(f.value, str) && !IsInfinite(f.value, str)
    ensures Representable(Map(fields), str)
  {
    forall f <- fields
      ensures Representable(f.value, str)
    {
      assert Built(f.value) && PrintsFaithfully(f.value, str);
    }
  }

  // ---- With an infinity ----

  /** What is printed for an infinity begins like a number, and is none. */
  lemma InfinityThrows(r: Reader, p: nat, v: Value, str: ToString)
    requires IsInfinite(v, str) && At(r, p, str(v))
    ensures p <= |r.src| && r.ParseValue(p) == Throw(NumberFormat)
  {
    var s := if str(v)[0] == MINUS then p + 1 else p;
    assert str(v)[s - p] == 0x49;
    AtChar(r, p, str(v));
    if s == p + 1 {
      AtChar(r, p + 1, str(v)[1..]);
    }
    hide At;
    assert r.SkipMinus(p) == s && r.SkipDigits(s) == s && r.SkipFraction(s) == s && r.SkipExponent(s) == s;
    assert r.src[p..s] == if s == p then [] else [MINUS];
    assert r.ParseLong(r.src[p..s]) == None;
    assert r.Skip(p) == p;
    hide r.SkipDigits, r.SkipFraction, r.SkipExponent, r.ParseLong, r.Skip;
  }

  lemma NameIsRead(r: Reader, p: nat, name: Text, value: Text)
    requires At(r, p, PrintField(name, value))
    ensures p < |r.src| && r.src[p] == QUOTE && r.Skip(p) == p
    ensures var a := p + |PrintStr(name)|;
            && a < |r.src| && r.ParseStr(p) == Ok(name, a) && r.Skip(a) == a
            && r.Expect(COLON, a) == Ok((), a + 1) && At(r, a + 1, value)
  {
    hide At, PrintStr, StringText, r.ParseStr, r.Skip, r.Expect;
    AtSplit(r, p, PrintStr(name), [COLON] + value);
    var a := p + |PrintStr(name)|;
    AtSplit(r, a, [COLON], value);
    StringMeans(name);
    ReadString(r, p, CharsOf(name));
    AtMark(r, a, COLON);
  }

  lemma InfiniteMemberThrows(r: Reader, p: nat, f: Field, str: ToString)
    requires IsInfinite(f.value, str) && At(r, p, PrintField(f.name, Print(f.value, str)))
    ensures p <= |r.src| && r.ParseMember(p) == Throw(NumberFormat)
  {
    hide At, IsInfinite, PrintField, PrintStr, r.ParseStr, r.ParseValue, r.Skip, r.Expect, r.ParseMember;
    NameIsRead(r, p, f.name, Print(f.value, str));
    assert Print(f.value, str) == str(f.value) by {
      assert IsInfinite(f.value, str) ==> f.value.Double? by {
        InfiniteIsDouble(f.value, str);
      }
    }
    InfinityThrows(r, p + |PrintStr(f.name)| + 1, f.value, str);
    MemberParts(r, p);
  }

  lemma InfiniteIsDouble(v: Value, str: ToString)
    requires IsInfinite(v, str)
    ensures v.Double?
  {
  }

  /** A field that can be represented is read, up to the comma after it. */
  lemma FiniteMember(r: Reader, p: nat, f: Field, str: ToString) returns (m: Field, v: nat)
    requires Representable(f.value, str)
    requires var text := PrintField(f.name, Print(f.value, str)); At(r, p, text) && At(r, p + |text|, [COMMA])
    ensures p <= |r.src| && v <= |r.src| && r.ParseMember(p) == Ok(m, v)
    ensures r.Skip(v) == p + |PrintField(f.name, Print(f.value, str))|
  {
    hide At, r.ParseMember, r.Skip, Representable, Print, PrintField, TreeOf, TreeText, Meaning, CharsMeaning;
    hide ValidMember, ValidElement, MemberText;
    var fields := [f];
    assert forall g <- fields :: Representable(g.value, str);
    MembersMean(fields, str);
    var ms := MembersOf(fields, str);
    var member := ms[0];
    assert ValidMember(member) && ms[1..] == [] && MembersFit(ms) == Fits(member.value.tree);
    assert MemberTexts(ms)[0] == MemberText(member);
    assert PrintFields(fields, str)[0] == PrintField(f.name, Print(f.value, str));
    MemberHasValue(member);
    v := ReadMember(r, p, member, COMMA);
    m := Field(CharsMeaning(member.name), Meaning(member.value.tree));
  }

  lemma MemberHasValue(m: Member)
    requires ValidMember(m)
    ensures ValidElement(m.value) && ValidChars(m.name) && Valid(m.value.tree)
  {
  }

  predicate HasInfinity(fields: seq<Field>, str: ToString) {
    fields != [] && (IsInfinite(fields[0].value, str) || HasInfinity(fields[1..], str))
  }

  ghost predicate Printable(fields: seq<Field>, str: ToString) {
    forall f <- fields :: Representable(f.value, str) || IsInfinite(f.value, str)
  }

  lemma {:induction false} HasInfinityExactlyWhen(fields: seq<Field>, str: ToString)
    ensures HasInfinity(fields, str) <==> exists f <- fields :: IsInfinite(f.value, str)
    decreases |fields|
  {
    if fields != [] {
      hide IsInfinite;
      HasInfinityExactlyWhen(fields[1..], str);
      assert fields == [fields[0]] + fields[1..];
      assert forall f <- fields :: f == fields[0] || f in fields[1..];
    }
  }

  lemma BuiltIsPrintable(fields: seq<Field>, str: ToString)
    requires forall f <- fields :: Built(f.value) && PrintsFaithfully(f.value, str)
    ensures Printable(fields, str)
  {
    forall f <- fields
      ensures Representable(f.value, str) || IsInfinite(f.value, str)
    {
      assert Built(f.value) && PrintsFaithfully(f.value, str);
    }
  }

  lemma FirstText(fields: seq<Field>, str: ToString)
    requires fields != []
    ensures PrintFields(fields, str)[0] == PrintField(fields[0].name, Print(fields[0].value, str))
    ensures PrintFields(fields, str)[1..] == PrintFields(fields[1..], str)
  {
    hide Print, PrintField;
  }

  lemma JoinOne(texts: seq<Text>)
    ensures |texts| == 1 ==> Join(texts) == texts[0]
  {
  }

  /** The texts of the first field and of the others, and where they stand. */
  lemma AtFields(r: Reader, p: nat, fields: seq<Field>, str: ToString)
    requires fields != [] && At(r, p, Join(PrintFields(fields, str)))
    ensures var text := PrintField(fields[0].name, Print(fields[0].value, str));
            && At(r, p, text)
            && (|fields| > 1 ==>
                  && At(r, p + |text|, [COMMA])
                  && At(r, p + |text| + 1, Join(PrintFields(fields[1..], str))))
  {
    hide At, Print, PrintField, PrintFields, Join;
    var texts := PrintFields(fields, str);
    FirstText(fields, str);
    JoinOne(texts);
    if |texts| > 1 {
      AtJoined(r, p, texts);
    }
  }

  lemma InfinityWithin(fields: seq<Field>, str: ToString)
    requires HasInfinity(fields, str) && Printable(fields, str)
    ensures fields != [] && Printable(fields[1..], str)
    ensures Representable(fields[0].value, str) || IsInfinite(fields[0].value, str)
    ensures !IsInfinite(fields[0].value, str) ==> |fields| > 1 && HasInfinity(fields[1..], str)
  {
    hide Representable, IsInfinite;
    assert fields == [fields[0]] + fields[1..];
  }

  lemma FiniteMemberPassed(
    r: Reader, p: nat, f: Field, rest: Text, str: ToString, sofar: seq<Field>) returns (m: Field, c: nat)
    requires Representable(f.value, str)
    requires var text := PrintField(f.name, Print(f.value, str));
             At(r, p, text) && At(r, p + |text|, [COMMA]) && At(r, p + |text| + 1, rest)
    ensures p <= |r.src| && At(r, c, rest)
    ensures c <= |r.src| && r.ParseMembers(p, sofar) == r.ParseMembers(c, Put(sofar, m.name, m.value))
  {
    hide At, r.ParseMember, r.ParseMembers, r.Skip, Representable, Print, PrintField, Put;
    var v;
    m, v := FiniteMember(r, p, f, str);
    var d := p + |PrintField(f.name, Print(f.value, str))|;
    NextMember(r, p, sofar, m, v, d);
    AtMark(r, d, COMMA);
    c := d + 1;
  }

  /** Reading printed fields throws at the first infinity. */
  lemma {:induction false} InfiniteMembersThrow(r: Reader, p: nat, fields: seq<Field>, str: ToString, sofar: seq<Field>)
    requires HasInfinity(fields, str) && Printable(fields, str)
    requires At(r, p, Join(PrintFields(fields, str)))
    ensures p <= |r.src| && r.ParseMembers(p, sofar) == Throw(NumberFormat)
    decreases |fields|
  {
    InfinityWithin(fields, str);
    hide At, r.ParseMember, r.ParseMembers, r.Skip, Representable, IsInfinite, Print, PrintField, Put, Join;
    hide PrintFields, HasInfinity, Printable;
    var f := fields[0];
    AtFields(r, p, fields, str);
    if IsInfinite(f.value, str) {
      InfiniteMemberThrows(r, p, f, str);
      MemberThrows(r, p, sofar, NumberFormat);
    } else {
      var m, c := FiniteMemberPassed(r, p, f, Join(PrintFields(fields[1..], str)), str, sofar);
      InfiniteMembersThrow(r, c, fields[1..], str, Put(sofar, m.name, m.value));
    }
  }

  lemma FirstIsName(r: Reader, p: nat, fields: seq<Field>, str: ToString)
    requires fields != [] && At(r, p, Join(PrintFields(fields, str)))
    ensures p < |r.src| && r.Skip(p) == p && r.src[p] == QUOTE
  {
    AtFields(r, p, fields, str);
    hide At, r.Skip, Print, PrintFields;
    NameIsRead(r, p, fields[0].name, Print(fields[0].value, str));
  }

  lemma TrimmedJson(fields: seq<Field>, str: ToString, table: CharTable)
    ensures var json := ToJson(fields, str);
            Trim(json) == json != [] && At(Reader(json, table), 0, [LBRACE] + Join(PrintFields(fields, str)) + [RBRACE])
  {
    hide PrintFields;
  }

  lemma ObjectThrows(r: Reader, fields: seq<Field>, str: ToString)
    requires HasInfinity(fields, str) && Printable(fields, str)
    requires At(r, 0, [LBRACE] + Join(PrintFields(fields, str)) + [RBRACE])
    ensures r.ParseValue(0) == Throw(NumberFormat)
  {
    hide At, r.ParseValue, r.ParseMembers, r.Skip, Printable, Join, PrintFields;
    AtBracketed(r, 0, LBRACE, Join(PrintFields(fields, str)), RBRACE);
    FirstIsName(r, 1, fields, str);
    InfiniteMembersThrow(r, 1, fields, str, []);
    EnterObj(r, 0);
    MembersFromSkip(r, 1, []);
  }

  /** So a map with an infinity is printed, and not read again. */
  lemma InfinityIsNotRead(fields: seq<Field>, str: ToString, table: CharTable)
    requires HasInfinity(fields, str) && Printable(fields, str)
    ensures ParseObject(Some(ToJson(fields, str)), table) == Throw(NumberFormat)
  {
    TrimmedJson(fields, str, table);
    hide At, ToJson, Reader.ParseValue, HasInfinity, Printable, Trim, PrintFields;
    ObjectThrows(Reader(ToJson(fields, str), table), fields, str);
  }

  // ---- The exact condition ----

  /**
   * Exactly when a parsed object survives being printed from its rawMap and parsed
   * again: if and only if none of its values is an object or array, whose wrappers
   * are printed as the strings that their toString gives, and none is an infinity.
   */
  lemma ReprintedExactlyWhen(json: Text, str: ToString, table: CharTable)
    requires ParseObject(Some(json), table).Ok?
    requires forall f <- ParseObject(Some(json), table).value :: PrintsFaithfully(f.value, str)
    ensures var fields := ParseObject(Some(json), table).value;
            Survives(fields, str, table) <==>
            forall f <- fields :: !IsWrapper(f.value) && !IsInfinite(f.value, str)
  {
    var fields := ParseObject(Some(json), table).value;
    ParsedIsBuilt(Some(json), table);
    assert forall f <- fields :: Built(f.value);
    HasInfinityExactlyWhen(fields, str);
    hide ParseObject, ToJson, SameFields;
    if HasInfinity(fields, str) {
      BuiltIsPrintable(fields, str);
      hide Built, PrintsFaithfully, IsInfinite, HasInfinity;
      InfinityIsNotRead(fields, str, table);
    } else {
      hide Built, PrintsFaithfully, IsInfinite, HasInfinity;
      BuiltIsRepresentable(fields, str);
      ParseObjectUndoesToJson(fields, str, table);
      BuiltFieldsReadBack(fields, str);
    }
  }

  /** The text {"a":{}}, as the grammar derives it. */
  const INNER := Element([], EmptyObject([]), [])
  const NAMED_A := Member([], [Raw(LOWER_A)], [], INNER)
  const NESTED := ObjectTree([NAMED_A])

  /** Parsed, printed from its rawMap and parsed again, it has a string where the inner object was. */
  lemma NestedObjectIsLost(str: ToString, table: CharTable)
    ensures TreeText(NESTED) == [LBRACE, QUOTE, LOWER_A, QUOTE, COLON, LBRACE, RBRACE, RBRACE]
    ensures var once := ParseObject(Some(TreeText(NESTED)), table);
            && once.Ok? && once.value == [Field([LOWER_A], JsonObject([]))]
            && var twice := ParseObject(Some(ToJson(once.value, str)), table);
               twice.Ok? && twice.value == [Field([LOWER_A], Str(str(JsonObject([]))))]
  {
    NestedText();
    NestedMeans();
    hide ParseObject, ToJson, TreeText, Meaning, Valid;
    ParseObjectReads([], NESTED, [], table);
    assert [] + TreeText(NESTED) + [] == TreeText(NESTED);
    NestedReadsBack(str, table);
  }

  lemma NestedReadsBack(str: ToString, table: CharTable)
    ensures var fields := [Field([LOWER_A], JsonObject([]))];
            ParseObject(Some(ToJson(fields, str)), table) ==
            Ok([Field([LOWER_A], Str(str(JsonObject([]))))], |ToJson(fields, str)|)
  {
    var fields := [Field([LOWER_A], JsonObject([]))];
    assert Representable(Map(fields), str);
    hide ParseObject, ToJson;
    ParseObjectUndoesToJson(fields, str, table);
    assert fields[1..] == [] && ReadBackFields(fields[1..], str) == [];
    assert ReadBackFields(fields, str) == [Field([LOWER_A], Str(str(JsonObject([]))))];
  }

  lemma NestedText()
    ensures Valid(NESTED) && Fits(NESTED)
    ensures TreeText(NESTED) == [LBRACE, QUOTE, LOWER_A, QUOTE, COLON, LBRACE, RBRACE, RBRACE]
  {
    assert ElementText(INNER) == [LBRACE, RBRACE];
    var chars := [Raw(LOWER_A)];
    assert chars[1..] == [] && CharsText(chars[1..]) == [] && CharsText(chars) == [LOWER_A];
    assert StringText(chars) == [QUOTE, LOWER_A, QUOTE];
    assert MemberText(NAMED_A) == [QUOTE, LOWER_A, QUOTE, COLON, LBRACE, RBRACE];
    var members := [NAMED_A];
    assert members[1..] == [] && MemberTexts(members) == [MemberText(NAMED_A)];
  }

  lemma NestedMeans()
    requires Valid(NESTED)
    ensures Meaning(NESTED) == JsonObject([Field([LOWER_A], JsonObject([]))])
  {
    var chars, members := [Raw(LOWER_A)], [NAMED_A];
    assert chars[1..] == [] && CharsMeaning(chars) == [LOWER_A];
    assert Meaning(INNER.tree) == JsonObject([]);
    var fields := [Field([LOWER_A], JsonObject([]))];
    assert Put([], [LOWER_A], JsonObject([])) == fields;
    assert members[1..] == [] && MembersMeaning(members, []) == MembersMeaning([], fields) == fields;
  }
}
