/** The HTML escaper of the samples: five replaceAll passes, the ampersand first. */
module EscapeHtml {
  import opened Utf16

  const AMP: Code := 0x26
  const LT: Code := 0x3C
  const GT: Code := 0x3E
  const QUOT: Code := 0x22
  const APOS: Code := 0x27

  /** The characters in the order of the passes. */
  const SPECIALS: seq<Code> := [AMP, LT, GT, QUOT, APOS]

  /** &amp; &lt; &gt; &quot; and &#39; */
  const ENTITIES: seq<Text> := [
    [0x26, 0x61, 0x6D, 0x70, 0x3B],
    [0x26, 0x6C, 0x74, 0x3B],
    [0x26, 0x67, 0x74, 0x3B],
    [0x26, 0x71, 0x75, 0x6F, 0x74, 0x3B],
    [0x26, 0x23, 0x33, 0x39, 0x3B]]

  /** s.replaceAll(pattern, replacement): occurrences from the left, without overlap. */
  function ReplaceAll(s: Text, pattern: Text, replacement: Text): Text
    requires pattern != []
    decreases |s|
  {
    if |s| < |pattern| then s
    else if pattern <= s then replacement + ReplaceAll(s[|pattern|..], pattern, replacement)
    else [s[0]] + ReplaceAll(s[1..], pattern, replacement)
  }

  function Escape(s: Text): Text {
    ReplaceAll(
      ReplaceAll(
        ReplaceAll(
          ReplaceAll(
            ReplaceAll(s, [AMP], ENTITIES[0]),
            [LT], ENTITIES[1]),
          [GT], ENTITIES[2]),
        [QUOT], ENTITIES[3]),
      [APOS], ENTITIES[4])
  }

  /** Undoing the passes in reverse order: the entity of the last pass first. */
  function Unescape(s: Text): Text {
    ReplaceAll(
      ReplaceAll(
        ReplaceAll(
          ReplaceAll(
            ReplaceAll(s, ENTITIES[4], [APOS]),
            ENTITIES[3], [QUOT]),
          ENTITIES[2], [GT]),
        ENTITIES[1], [LT]),
      ENTITIES[0], [AMP])
  }

  // ---- One substitution per character ----

  /** What becomes of one character when only the first n specials are escaped. */
  function Image(c: Code, n: nat): (t: Text)
    requires n <= 5
    ensures t != []
  {
    if n > 0 && c == AMP then ENTITIES[0]
    else if n > 1 && c == LT then ENTITIES[1]
    else if n > 2 && c == GT then ENTITIES[2]
    else if n > 3 && c == QUOT then ENTITIES[3]
    else if n > 4 && c == APOS then ENTITIES[4]
    else [c]
  }

  function Simultaneous(s: Text, n: nat): Text
    requires n <= 5
  {
    if s == [] then [] else Image(s[0], n) + Simultaneous(s[1..], n)
  }

  lemma {:induction false} NoneEscaped(s: Text)
    ensures Simultaneous(s, 0) == s
    decreases |s|
  {
    if s != [] {
      NoneEscaped(s[1..]);
      assert s == [s[0]] + s[1..];
    }
  }

  // ---- Forward ----

  /** A stretch of text without the pattern's first character is passed over. */
  lemma {:induction false} ReplaceSkips(t: Text, rest: Text, pattern: Text, replacement: Text)
    requires pattern != [] && forall i :: 0 <= i < |t| ==> t[i] != pattern[0]
    ensures ReplaceAll(t + rest, pattern, replacement) == t + ReplaceAll(rest, pattern, replacement)
    decreases |t|
  {
    var s := t + rest;
    if t == [] {
      assert s == rest;
    } else {
      assert s[0] == t[0] && s[1..] == t[1..] + rest;
      if |s| < |pattern| {
        ReplaceShort(rest, pattern, replacement);
      } else {
        ReplaceSkips(t[1..], rest, pattern, replacement);
        assert t == [t[0]] + t[1..];
      }
    }
  }

  lemma ReplaceShort(s: Text, pattern: Text, replacement: Text)
    requires |s| < |pattern|
    ensures ReplaceAll(s, pattern, replacement) == s
  {
  }

  lemma ReplaceHead(rest: Text, pattern: Text, replacement: Text)
    requires pattern != []
    ensures ReplaceAll(pattern + rest, pattern, replacement) == replacement + ReplaceAll(rest, pattern, replacement)
  {
    assert (pattern + rest)[|pattern|..] == rest;
  }

  /** The n-th pass turns each image into the next one. */
  lemma PassOnImage(c: Code, n: nat, rest: Text)
    requires 0 < n <= 5
    ensures ReplaceAll(Image(c, n - 1) + rest, [SPECIALS[n - 1]], ENTITIES[n - 1]) ==
            Image(c, n) + ReplaceAll(rest, [SPECIALS[n - 1]], ENTITIES[n - 1])
  {
    hide ReplaceAll;
    if c == SPECIALS[n - 1] {
      ReplaceHead(rest, [SPECIALS[n - 1]], ENTITIES[n - 1]);
    } else {
      ReplaceSkips(Image(c, n - 1), rest, [SPECIALS[n - 1]], ENTITIES[n - 1]);
    }
  }

  lemma {:induction false} PassOnText(s: Text, n: nat)
    requires 0 < n <= 5
    ensures ReplaceAll(Simultaneous(s, n - 1), [SPECIALS[n - 1]], ENTITIES[n - 1]) == Simultaneous(s, n)
    decreases |s|
  {
    if s != [] {
      PassOnImage(s[0], n, Simultaneous(s[1..], n - 1));
      PassOnText(s[1..], n);
    }
  }

  /** The five passes in sequence are one substitution per character. */
  lemma SequentialIsSimultaneous(s: Text)
    ensures Escape(s) == Simultaneous(s, 5)
  {
    hide ReplaceAll, Simultaneous;
    NoneEscaped(s);
    PassOnText(s, 1);
    PassOnText(s, 2);
    PassOnText(s, 3);
    PassOnText(s, 4);
    PassOnText(s, 5);
  }

  lemma {:induction false} NoneIsRaw(s: Text)
    ensures forall c <- Simultaneous(s, 5) :: c != LT && c != GT && c != QUOT && c != APOS
    decreases |s|
  {
    if s != [] {
      NoneIsRaw(s[1..]);
      var head := Image(s[0], 5);
      assert forall i :: 0 <= i < |head| ==> head[i] != LT && head[i] != GT && head[i] != QUOT && head[i] != APOS;
    }
  }

  /** The output contains no raw <, >, double quote or apostrophe. */
  lemma NothingRawIsLeft(s: Text)
    ensures forall c <- Escape(s) :: c != LT && c != GT && c != QUOT && c != APOS
  {
    hide Escape, Simultaneous;
    SequentialIsSimultaneous(s);
    NoneIsRaw(s);
  }

  // ---- Backward ----

  lemma ReplacePasses(s: Text, pattern: Text, replacement: Text)
    requires s != [] && pattern != [] && !(pattern <= s)
    ensures ReplaceAll(s, pattern, replacement) == [s[0]] + ReplaceAll(s[1..], pattern, replacement)
  {
  }

  /** Text that agrees with the pattern in its first character only is passed over. */
  lemma ReplaceSkipsLookalike(e: Text, rest: Text, pattern: Text, replacement: Text)
    requires |e| >= 2 && |pattern| >= 2 && e[1] != pattern[1]
    requires forall i :: 1 <= i < |e| ==> e[i] != pattern[0]
    ensures ReplaceAll(e + rest, pattern, replacement) == e + ReplaceAll(rest, pattern, replacement)
  {
    hide ReplaceAll;
    var s, tail := e + rest, e[1..];
    assert s[1] == e[1];
    ReplacePasses(s, pattern, replacement);
    assert s[1..] == tail + rest;
    ReplaceSkips(tail, rest, pattern, replacement);
    assert e == [e[0]] + tail;
  }

  /** Two entities differ in their second character. */
  lemma UndoSkipsEntity(j: nat, n: nat, rest: Text)
    requires j < 5 && n < 5 && j != n
    ensures ReplaceAll(ENTITIES[j] + rest, ENTITIES[n], [SPECIALS[n]]) ==
            ENTITIES[j] + ReplaceAll(rest, ENTITIES[n], [SPECIALS[n]])
  {
    hide ReplaceAll;
    ReplaceSkipsLookalike(ENTITIES[j], rest, ENTITIES[n], [SPECIALS[n]]);
  }

  lemma UndoOnImage(c: Code, n: nat, rest: Text)
    requires 0 < n <= 5
    ensures ReplaceAll(Image(c, n) + rest, ENTITIES[n - 1], [SPECIALS[n - 1]]) ==
            Image(c, n - 1) + ReplaceAll(rest, ENTITIES[n - 1], [SPECIALS[n - 1]])
  {
    hide ReplaceAll;
    if c == SPECIALS[n - 1] {
      ReplaceHead(rest, ENTITIES[n - 1], [SPECIALS[n - 1]]);
    } else if |Image(c, n)| == 1 {
      ReplaceSkips(Image(c, n), rest, ENTITIES[n - 1], [SPECIALS[n - 1]]);
    } else {
      var j := if c == AMP then 0 else if c == LT then 1 else if c == GT then 2 else if c == QUOT then 3 else 4;
      UndoSkipsEntity(j, n - 1, rest);
    }
  }

  lemma {:induction false} UndoOnText(s: Text, n: nat)
    requires 0 < n <= 5
    ensures ReplaceAll(Simultaneous(s, n), ENTITIES[n - 1], [SPECIALS[n - 1]]) == Simultaneous(s, n - 1)
    decreases |s|
  {
    if s != [] {
      UndoOnImage(s[0], n, Simultaneous(s[1..], n));
      UndoOnText(s[1..], n);
    }
  }

  /** Undoing the passes in reverse restores every input. */
  lemma UnescapeUndoesEscape(s: Text)
    ensures Unescape(Escape(s)) == s
  {
    SequentialIsSimultaneous(s);
    hide ReplaceAll, Simultaneous, Escape;
    UndoOnText(s, 5);
    UndoOnText(s, 4);
    UndoOnText(s, 3);
    UndoOnText(s, 2);
    UndoOnText(s, 1);
    NoneEscaped(s);
  }

  lemma EscapeIsInjective(s: Text, t: Text)
    requires Escape(s) == Escape(t)
    ensures s == t
  {
    hide Escape, Unescape;
    UnescapeUndoesEscape(s);
    UnescapeUndoesEscape(t);
  }

  // ---- What HTML shows ----

  /** A text as HTML shows it: character references from the left, and everything else as it stands. */
  function Display(s: Text): Text
    decreases |s|
  {
    if s == [] then []
    else if Ascii("&amp;") <= s then Ascii("&") + Display(s[5..])
    else if Ascii("&lt;") <= s then Ascii("<") + Display(s[4..])
    else if Ascii("&gt;") <= s then Ascii(">") + Display(s[4..])
    else if Ascii("&quot;") <= s then Ascii("\"") + Display(s[6..])
    else if Ascii("&#39;") <= s then Ascii("'") + Display(s[5..])
    else [s[0]] + Display(s[1..])
  }

  lemma ReferencesAre()
    ensures ENTITIES[0] == Ascii("&amp;") && [AMP] == Ascii("&")
    ensures ENTITIES[1] == Ascii("&lt;") && [LT] == Ascii("<")
    ensures ENTITIES[2] == Ascii("&gt;") && [GT] == Ascii(">")
    ensures ENTITIES[3] == Ascii("&quot;") && [QUOT] == Ascii("\"")
    ensures ENTITIES[4] == Ascii("&#39;") && [APOS] == Ascii("'")
  {
  }

  /** No text begins with two entities: they differ in their second character. */
  lemma NoOtherReference(s: Text, j: nat, i: nat)
    requires i < 5 && j < 5 && i != j && ENTITIES[j] <= s
    ensures !(ENTITIES[i] <= s)
  {
    assert s[1] == ENTITIES[j][1];
  }

  /** Whatever follows it, the image of a character is shown as that character. */
  lemma DisplayOfImage(c: Code, rest: Text)
    ensures Display(Image(c, 5) + rest) == [c] + Display(rest)
  {
    ReferencesAre();
    var image := Image(c, 5);
    var s := image + rest;
    assert s[|image|..] == rest;
    hide Ascii;
    var j := if c == AMP then 0 else if c == LT then 1 else if c == GT then 2 else if c == QUOT then 3 else 4;
    forall i | 0 <= i < 5 && ENTITIES[i] <= s
      ensures |image| > 1 && i == j
    {
      assert s[0] == AMP;
      if i != j {
        NoOtherReference(s, j, i);
      }
    }
  }

  lemma {:induction false} DisplayOfText(s: Text)
    ensures Display(Simultaneous(s, 5)) == s
    decreases |s|
  {
    if s != [] {
      DisplayOfImage(s[0], Simultaneous(s[1..], 5));
      DisplayOfText(s[1..]);
      assert s == [s[0]] + s[1..];
    }
  }

  /** HTML shows an escaped text as the text itself. */
  lemma EscapedIsShown(s: Text)
    ensures Display(Escape(s)) == s
  {
    hide Escape, Simultaneous, Display;
    SequentialIsSimultaneous(s);
    DisplayOfText(s);
  }
}
