/**
 The whole call character by character, as the code runs: escapes are the characters they are spelled with,
 and what is measured is read from the characters.  Exactly when no escape of any text is torn apart, so
 that the output is what the model with escapes as units says.
 */
module WrapCharacters {
  import opened Prelude
  import opened WrapAnsi
  import opened HardWrap
  import opened GreedyWrap
  import opened WrapOrigin
  import opened WrapEscapes

  // ---------------------------------------------------------------- reading characters

  predicate IsCharacter(t: Text, i: nat, c: char) {
    i < |t| && t[i].Glyph? && t[i].c == c
  }

  function DigitRun(t: Text): (n: nat)
    ensures n <= |t|
  {
    if t != [] && t[0].Glyph? && IsDigit(t[0].c) then 1 + DigitRun(t[1..]) else 0
  }

  /** The number that the first n characters, which are digits, stand for. */
  function Value(t: Text, n: nat): nat
    requires n <= DigitRun(t)
  {
    if n == 0 then 0
    else
      DigitAt(t, n - 1);
      10 * Value(t, n - 1) + (t[n - 1].c - '0') as nat
  }

  lemma {:induction false} DigitAt(t: Text, i: nat)
    requires i < DigitRun(t)
    ensures t[i].Glyph? && IsDigit(t[i].c)
  {
    if i > 0 {
      DigitAt(t[1..], i - 1);
    }
  }

  /** The code of the SGR sequence, without its escape character, that the characters begin with. */
  function CodeAt(t: Text): Option<nat> {
    if IsCharacter(t, 0, '[') then
      var n := DigitRun(t[1..]);
      if n > 0 && IsCharacter(t, 1 + n, TERMINATOR) then Some(Value(t[1..], n)) else None
    else None
  }

  /** Complete escapes are read as units, everything else as it is. */
  function Read(t: Text): Text {
    if t == [] then []
    else if IsCharacter(t, 0, ESC.c) && CodeAt(t[1..]).Some? then
      [Sgr(CodeAt(t[1..]).value)] + Read(t[3 + DigitRun(t[2..])..])
    else [t[0]] + Read(t[1..])
  }

  function VisibleWidth(t: Text): nat {
    Width(Read(t))
  }

  lemma {:induction false} DigitsAreRun(s: string, tail: Text)
    requires (forall c | c in s :: IsDigit(c)) && (tail == [] || !tail[0].Glyph? || !IsDigit(tail[0].c))
    ensures DigitRun(Letters(s) + tail) == |s|
  {
    if s == "" {
      assert Letters(s) + tail == tail;
    } else {
      assert s[0] in s && forall c | c in s[1..] :: c in s;
      assert (Letters(s) + tail)[1..] == Letters(s[1..]) + tail;
      DigitsAreRun(s[1..], tail);
    }
  }

  lemma {:induction false} AllDigits(n: nat)
    ensures Digits(n) != "" && forall c | c in Digits(n) :: IsDigit(c)
  {
    if n >= 10 {
      AllDigits(n / 10);
    }
  }

  lemma {:induction false} ValueDepends(t: Text, t': Text, n: nat)
    requires n <= DigitRun(t) && n <= DigitRun(t') && t[..n] == t'[..n]
    ensures Value(t, n) == Value(t', n)
  {
    if n > 0 {
      assert t[..n - 1] == t[..n][..n - 1] && t'[..n - 1] == t'[..n][..n - 1];
      assert t[n - 1] == t[..n][n - 1] && t'[n - 1] == t'[..n][n - 1];
      ValueDepends(t, t', n - 1);
    }
  }

  lemma {:induction false} ValueOfDigits(n: nat)
    ensures DigitRun(Letters(Digits(n))) == |Digits(n)| && Value(Letters(Digits(n)), |Digits(n)|) == n
  {
    var d := Digits(n);
    AllDigits(n);
    DigitsAreRun(d, []);
    assert Letters(d) + [] == Letters(d);
    if n >= 10 {
      var e := Digits(n / 10);
      ValueOfDigits(n / 10);
      assert Letters(d)[..|e|] == Letters(e) == Letters(e)[..|e|];
      ValueDepends(Letters(d), Letters(e), |e|);
      assert Letters(d)[|e|].c == (n % 10) as char + '0';
    } else {
      assert Letters(d)[0].c == n as char + '0';
      assert Value(Letters(d), 0) == 0;
    }
  }

  /** The characters of an escape after its escape character, and what follows them. */
  function Tail(code: nat, tail: Text): Text {
    [Glyph('[', 1)] + (Letters(Digits(code)) + ([Glyph(TERMINATOR, 1)] + tail))
  }

  lemma SpellTail(code: nat, tail: Text)
    ensures Spell(Sgr(code)) + tail == [ESC] + Tail(code, tail)
  {
    var d := Digits(code);
    assert Letters("[" + d) == [Glyph('[', 1)] + Letters(d);
  }

  lemma CutThree(x: Unit, a: Text, m: Unit, tail: Text)
    ensures var t := [x] + (a + ([m] + tail));
            t[1..] == a + ([m] + tail) && t[1 + |a|] == m && t[2 + |a|..] == tail && (a + ([m] + tail))[..|a|] == a
  {
  }

  lemma TailIsCode(code: nat, tail: Text)
    ensures var t, n := Tail(code, tail), |Digits(code)|;
            && DigitRun(t[1..]) == n && t[2 + n..] == tail && IsCharacter(t, 1 + n, TERMINATOR)
            && 0 < n && Value(t[1..], n) == code
  {
    var d, m := Digits(code), Glyph(TERMINATOR, 1);
    var a, rest := Letters(d), Letters(d) + ([m] + tail);
    AllDigits(code);
    DigitsAreRun(d, [m] + tail);
    ValueOfDigits(code);
    hide DigitRun, Value, Digits, Letters;
    CutThree(Glyph('[', 1), a, m, tail);
    assert a[..|a|] == a;
    ValueDepends(rest, a, |d|);
  }

  /** A spelled escape is read as what it is. */
  lemma CodeIsRead(code: nat, tail: Text)
    ensures var t := Spell(Sgr(code)) + tail;
            && IsCharacter(t, 0, ESC.c) && CodeAt(t[1..]) == Some(code)
            && t[3 + DigitRun(t[2..])..] == tail
  {
    hide Spell, Value, DigitRun, Digits, Letters;
    var t := Spell(Sgr(code)) + tail;
    SpellTail(code, tail);
    TailIsCode(code, tail);
    var rest := Tail(code, tail);
    assert t[1..] == rest && t[2..] == rest[1..];
  }

  lemma ReadStep(u: Unit, rest: Text, tail: Text)
    requires (u.Glyph? ==> u.c != ESC.c) && Read(SpellAll(rest) + tail) == rest + Read(tail)
    ensures Read(SpellAll([u] + rest) + tail) == [u] + rest + Read(tail)
  {
    hide Read, Spell, SpellAll;
    SpellConcat([u], rest);
    SpellOne(u);
    ReadFirst(u, SpellAll(rest) + tail);
    assert Spell(u) + SpellAll(rest) + tail == Spell(u) + (SpellAll(rest) + tail);
    assert [u] + rest + Read(tail) == [u] + (rest + Read(tail));
  }

  lemma {:induction false} ReadSpelled(t: Text, tail: Text)
    requires NoLooseEscapes(t)
    ensures Read(SpellAll(t) + tail) == t + Read(tail)
  {
    if t == [] {
      assert SpellAll(t) + tail == tail && t + Read(tail) == Read(tail);
    } else {
      hide Read, SpellAll;
      assert t[0] in t && forall v | v in t[1..] :: v in t;
      ReadSpelled(t[1..], tail);
      ReadStep(t[0], t[1..], tail);
      assert t == [t[0]] + t[1..];
    }
  }

  lemma ReadFirst(u: Unit, later: Text)
    requires u.Glyph? ==> u.c != ESC.c
    ensures Read(Spell(u) + later) == [u] + Read(later)
  {
    if u.Sgr? {
      CodeIsRead(u.code, later);
    } else {
      assert ([u] + later)[1..] == later;
    }
  }

  lemma ReadAll(t: Text)
    requires NoLooseEscapes(t)
    ensures Read(SpellAll(t)) == t && VisibleWidth(SpellAll(t)) == Width(t)
  {
    ReadSpelled(t, []);
    assert SpellAll(t) + [] == SpellAll(t) && t + Read([]) == t;
  }

  // ---------------------------------------------------------------- the code

  /** The options as the code has them: with the characters of the indent. */
  function Spelled(o: Options): Options {
    o.(indent := SpellAll(o.indent))
  }

  function OpenCharacters(rows: seq<Text>, index: nat, columns: int, o: Options): (open: seq<Text>)
    requires rows != []
    ensures open != []
  {
    var trimmed := if o.trim then rows[|rows| - 1 := TrimStart(Last(rows))] else rows;
    var full := index != 0 && VisibleWidth(Last(trimmed)) >= columns && (!o.wordWrap || !o.trim);
    var started := if full then trimmed + [SpellAll(o.indent)] else trimmed;
    if index != 0 && (VisibleWidth(Last(started)) > 0 || !o.trim) then Append(started, [SPACE]) else started
  }

  function PutCharacters(open: seq<Text>, word: Text, columns: int, o: Options): (rows: seq<Text>)
    requires open != []
    ensures rows != []
  {
    var rowLength, length := VisibleWidth(Last(open)), VisibleWidth(word);
    match BreakOn(open, rowLength, length, columns, Spelled(o))
    case Some(start) =>
      BrokenWordRows(start, VisibleWidth(Last(start)), word, columns, SpellAll(o.indent), Width(o.indent))
    case None =>
      var overflows := rowLength + length > columns && rowLength > 0 && length > 0;
      Append(if overflows then open + [SpellAll(o.indent)] else open, word)
  }

  function PlaceCharacters(words: seq<Text>, columns: int, o: Options): (rows: seq<Text>)
    ensures rows != []
  {
    if words == [] then [[]]
    else
      var n := |words| - 1;
      PutCharacters(OpenCharacters(PlaceCharacters(words[..n], columns, o), n, columns, o), words[n], columns, o)
  }

  /** The last words are joined without spaces as long as nothing of them is visible. */
  function TrimWords(words: seq<Text>): Text {
    if words == [] then []
    else
      var n := |words| - 1;
      if VisibleWidth(words[n]) > 0 then Join(words, SPACE) else TrimWords(words[..n]) + words[n]
  }

  /** A row without its trailing spaces. */
  function TrimCharacters(row: Text): Text {
    TrimWords(Split(row, SPACE))
  }

  function CharacterRows(t: Text, columns: int, o: Options): seq<Text> {
    var rows := PlaceCharacters(Split(t, SPACE), columns, o);
    if o.trim then seq(|rows|, i requires 0 <= i < |rows| => TrimCharacters(rows[i])) else rows
  }

  /** The first SGR sequence, without its escape character, anywhere in the characters. */
  function FindCode(t: Text): Option<nat> {
    if t == [] then None else if CodeAt(t).Some? then CodeAt(t) else FindCode(t[1..])
  }

  /** The code to close and reopen after a character. */
  function CodeAfter(t: Text, code: Option<nat>): Option<nat>
    requires t != []
  {
    if IsCharacter(t, 0, ESC.c) && FindCode(t).Some? then NextCode(code, Sgr(FindCode(t).value)) else code
  }

  function RestyleCharacters(pre: Text, code: Option<nat>): Text {
    if pre == [] then []
    else
      var code' := CodeAfter(pre, code);
      [pre[0]] + SpellAll(Extra(code', pre[0], |pre| > 1 && pre[1] == NEWLINE)) + RestyleCharacters(pre[1..], code')
  }

  /** What the call returns for the characters of a line. */
  function Output(t: Text, columns: int, o: Options): Text {
    if o.trim && AllWhitespace(t) then []
    else RestyleCharacters(Join(CharacterRows(t, columns, o), NEWLINE), None)
  }

  // ---------------------------------------------------------------- splitting and measuring

  lemma {:induction false} SplitPrefix(a: Text, t: Text)
    requires SpaceFree(a)
    ensures Split(a + t, SPACE) == [a + Split(t, SPACE)[0]] + Split(t, SPACE)[1..]
  {
    if a == [] {
      assert a + t == t && a + Split(t, SPACE)[0] == Split(t, SPACE)[0];
    } else {
      assert (a + t)[1..] == a[1..] + t && a[0] in a && forall u | u in a[1..] :: u in a;
      SplitPrefix(a[1..], t);
      assert [a[0]] + (a[1..] + Split(t, SPACE)[0]) == a + Split(t, SPACE)[0];
    }
  }

  lemma SpellIsSpaceFree(u: Unit)
    ensures u != SPACE ==> SpaceFree(Spell(u))
    ensures Spell(u) != [] && (Spell(u)[0] == NEWLINE <==> u == NEWLINE)
  {
    if u.Sgr? {
      AllDigits(u.code);
      var d := Digits(u.code);
      assert forall i | 0 <= i < |d| :: d[i] in d;
    }
  }

  lemma SplitFirst(u: Unit, t: Text)
    ensures var words := Split(t, SPACE);
            Split([u] + t, SPACE) == if u == SPACE then [[]] + words else [[u] + words[0]] + words[1..]
  {
    assert ([u] + t)[1..] == t;
  }

  lemma SpellFirstRow(row: Text, rows: seq<Text>)
    ensures SpellRows([row] + rows) == [SpellAll(row)] + SpellRows(rows)
    ensures rows != [] ==> SpellRows(rows[1..]) == SpellRows(rows)[1..] && SpellRows(rows)[0] == SpellAll(rows[0])
  {
    hide SpellAll;
    var longer := [row] + rows;
    assert |SpellRows(longer)| == |longer| && SpellRows(longer)[0] == SpellAll(row);
    forall i | 0 <= i < |rows| ensures SpellRows(longer)[i + 1] == SpellRows(rows)[i] {
      assert longer[i + 1] == rows[i];
    }
  }

  lemma SplitStep(u: Unit, rest: Text)
    requires Split(SpellAll(rest), SPACE) == SpellRows(Split(rest, SPACE))
    ensures Split(SpellAll([u] + rest), SPACE) == SpellRows(Split([u] + rest, SPACE))
  {
    hide Split, SpellAll, SpellRows, Spell;
    var words := Split(rest, SPACE);
    SpellConcat([u], rest);
    SpellOne(u);
    SpellIsSpaceFree(u);
    SplitFirst(u, rest);
    SpellFirstRow([], words);
    SpellFirstRow([u] + words[0], words[1..]);
    SpellConcat([u], words[0]);
    if u == SPACE {
      SpellsItself(u);
      SplitFirst(u, SpellAll(rest));
    } else {
      SplitPrefix(Spell(u), SpellAll(rest));
    }
  }

  lemma SpellsItself(u: Unit)
    ensures u.Glyph? ==> Spell(u) == [u]
    ensures SpellAll([]) == []
  {
  }

  lemma {:induction false} SplitSpelled(t: Text)
    ensures Split(SpellAll(t), SPACE) == SpellRows(Split(t, SPACE))
  {
    if t != [] {
      hide Split, SpellAll, SpellRows;
      SplitSpelled(t[1..]);
      SplitStep(t[0], t[1..]);
      assert t == [t[0]] + t[1..];
    }
  }

  lemma {:induction false} TrimStartSpelled(t: Text)
    ensures TrimStart(SpellAll(t)) == SpellAll(TrimStart(t))
  {
    if t != [] {
      assert SpellAll(t) == Spell(t[0]) + SpellAll(t[1..]);
      if IsWhitespace(t[0]) {
        TrimStartSpelled(t[1..]);
        assert SpellAll(t)[1..] == SpellAll(t[1..]);
      }
    }
  }

  predicate NoLooseRows(rows: seq<Text>) {
    forall row | row in rows :: NoLooseEscapes(row)
  }

  lemma OpenSpelled(rows: seq<Text>, index: nat, columns: int, o: Options)
    requires rows != [] && NoLooseRows(rows) && NoLooseEscapes(o.indent)
    ensures SpellRows(rows) != []
    ensures OpenCharacters(SpellRows(rows), index, columns, o) == SpellRows(OpenRow(rows, index, columns, o))
  {
    hide SpellAll, TrimStart, Read, Width, VisibleWidth;
    var n, row := |rows| - 1, Last(rows);
    assert row in rows;
    TrimStartSpelled(row);
    var trimmed := if o.trim then rows[n := TrimStart(row)] else rows;
    assert SpellRows(trimmed) == if o.trim then SpellRows(rows)[n := TrimStart(SpellAll(row))] else SpellRows(rows);
    TrimStartIsNotLoose(row);
    ReadAll(Last(trimmed));
    ReadAll(o.indent);
    SpellNewRow(trimmed, o.indent);
    var full := index != 0 && Width(Last(trimmed)) >= columns && (!o.wordWrap || !o.trim);
    SpellAppend(if full then trimmed + [o.indent] else trimmed, SPACE);
  }

  lemma {:induction false} TrimStartIsNotLoose(t: Text)
    requires NoLooseEscapes(t)
    ensures NoLooseEscapes(TrimStart(t))
  {
    if t != [] && IsWhitespace(t[0]) {
      TrimStartIsNotLoose(t[1..]);
    }
  }

  /** The options and words with which no escape is torn: words are never broken, there is room, or nothing to tear. */
  predicate Untorn(columns: int, o: Options, word: Text) {
    (o.wordWrap && !o.hard) || Width(o.indent) < columns || forall u | u in word :: u.Glyph?
  }

  lemma PutSpelled(open: seq<Text>, word: Text, columns: int, o: Options)
    requires open != [] && NoLooseRows(open) && NoLooseEscapes(word) && NoLooseEscapes(o.indent)
    requires Untorn(columns, o, word)
    ensures SpellRows(open) != []
    ensures PutCharacters(SpellRows(open), SpellAll(word), columns, o) == SpellRows(PutWord(open, word, columns, o))
  {
    hide SpellAll, Read, Width, VisibleWidth, SpellRows, WrappedWord, BrokenWordRows, StartsOnNewRow, NoLooseEscapes;
    SpelledNotEmpty(open);
    LastIsSpelled(open);
    ReadAll(word);
    SpellNewRow(open, o.indent);
    LastIsSpelled(open + [o.indent]);
    assert NoLooseEscapes(Last(open)) && NoLooseEscapes(Last(open + [o.indent]));
    ReadAll(Last(open));
    ReadAll(o.indent);
    SpellAppendText(open, word);
    SpellAppendText(open + [o.indent], word);
    var start := BreakOn(open, Width(Last(open)), Width(word), columns, o);
    if start.Some? {
      if Width(o.indent) < columns {
        WidthIsNat(o.indent);
        BrokenRowsAreNotFull(open, word, columns, o);
      }
      EscapesStayWhole(start.value, word, columns, o.indent);
      assert SpelledWordRows(start.value, word, columns, o.indent)
          == BrokenWordRows(SpellRows(start.value), Width(Last(start.value)), SpellAll(word), columns,
                            SpellAll(o.indent), Width(o.indent)) by {
        SpelledNotEmpty(start.value);
      }
    }
  }

  lemma WidthIsNat(t: Text)
    ensures Width(t) >= 0
  {
  }

  lemma LastIsSpelled(rows: seq<Text>)
    requires rows != []
    ensures SpellRows(rows) != [] && Last(SpellRows(rows)) == SpellAll(Last(rows))
  {
  }

  // ---------------------------------------------------------------- placing and trimming

  lemma NotLoose(rows: seq<Text>, units: set<Unit>)
    requires Within(rows, units) && forall u: Unit | u in units :: u != ESC && (u.Glyph? ==> u.c != ESC.c)
    ensures NoLooseRows(rows)
  {
  }

  lemma PlaceStepSpelled(rows: seq<Text>, index: nat, word: Text, columns: int, o: Options, units: set<Unit>)
    requires rows != [] && Within(rows, units) && SPACE in units && forall u | u in o.indent || u in word :: u in units
    requires forall u: Unit | u in units :: u != ESC && (u.Glyph? ==> u.c != ESC.c)
    requires Untorn(columns, o, word)
    ensures SpellRows(rows) != []
    ensures PutCharacters(OpenCharacters(SpellRows(rows), index, columns, o), SpellAll(word), columns, o)
            == SpellRows(PlaceWord(rows, index, word, columns, o))
  {
    assert NoLooseEscapes(o.indent) && NoLooseEscapes(word);
    hide PutWord, PutCharacters, OpenRow, OpenCharacters, Untorn, SpellAll, SpellRows, NoLooseEscapes, Within;
    var open := OpenRow(rows, index, columns, o);
    NotLoose(rows, units);
    OpenSpelled(rows, index, columns, o);
    OpenRowWithin(rows, index, columns, o, units);
    NotLoose(open, units);
    PutSpelled(open, word, columns, o);
  }

  lemma {:induction false} PlaceSpelled(words: seq<Text>, columns: int, o: Options, units: set<Unit>)
    requires Within(words, units) && SPACE in units && forall u | u in o.indent :: u in units
    requires forall u: Unit | u in units :: u != ESC && (u.Glyph? ==> u.c != ESC.c)
    requires forall w | w in words :: Untorn(columns, o, w)
    ensures PlaceCharacters(SpellRows(words), columns, o) == SpellRows(PlaceWords(words, columns, o))
  {
    hide PlaceWord, PutCharacters, OpenCharacters, Untorn, SpellAll;
    if words == [] {
      NothingSpelledInRows();
    } else {
      var n := |words| - 1;
      var front := words[..n];
      assert words[n] in words && (forall w | w in front :: w in words) && words == front + [words[n]];
      assert Within(front, units) && forall u | u in words[n] :: u in units;
      hide Within;
      PlaceSpelled(front, columns, o, units);
      PlacedWithin(front, columns, o, units);
      PlaceStepSpelled(PlaceWords(front, columns, o), n, words[n], columns, o, units);
      SpellNewRow(front, words[n]);
      var characters, last := SpellRows(words), SpellAll(words[n]);
      assert characters[..n] == SpellRows(front) && characters[n] == last && |characters| == n + 1;
    }
  }

  lemma NothingSpelledInRows()
    ensures SpellRows([]) == [] && SpellRows([[]]) == [[]]
  {
    assert SpellAll([]) == [];
  }

  lemma {:induction false} JoinSpelled(rows: seq<Text>, sep: Unit)
    requires Spell(sep) == [sep]
    ensures Join(SpellRows(rows), sep) == SpellAll(Join(rows, sep))
  {
    if |rows| > 1 {
      hide SpellAll;
      JoinSpelled(rows[1..], sep);
      SpellFirstRow(rows[0], rows[1..]);
      assert rows == [rows[0]] + rows[1..];
      SpellOne(sep);
      SpellConcat(rows[0] + [sep], Join(rows[1..], sep));
      SpellConcat(rows[0], [sep]);
    }
  }

  lemma {:induction false} TrimWordsSpelled(words: seq<Text>)
    requires NoLooseRows(words) && forall w | w in words :: SpaceFree(w)
    ensures TrimWords(SpellRows(words)) == SpellAll(TrimRight(Join(words, SPACE)))
  {
    hide TrimRight, Join, SpellAll, Read, Width, VisibleWidth;
    if words == [] {
      assert TrimRight(Join(words, SPACE)) == [] && SpellAll([]) == [] by {
        NothingTrimmed();
      }
    } else {
      var n := |words| - 1;
      var front, word := words[..n], words[n];
      assert word in words && (forall w | w in front :: w in words) && words == front + [word];
      SpellNewRow(front, word);
      ReadAll(word);
      assert SpellRows(words)[..n] == SpellRows(front);
      if Width(word) > 0 {
        LastWordStops(words, |words|);
        assert words[..|words|] == words;
        SpellsItself(SPACE);
        JoinSpelled(words, SPACE);
      } else {
        TrimWordsSpelled(front);
        DropEmptyWord(front, word);
        SpellConcat(TrimRight(Join(front, SPACE)), word);
      }
    }
  }

  lemma NothingTrimmed()
    ensures TrimRight(Join([], SPACE)) == [] && SpellAll([]) == []
  {
  }

  lemma TrimSpelled(row: Text)
    requires NoLooseEscapes(row)
    ensures TrimCharacters(SpellAll(row)) == SpellAll(TrimRight(row))
  {
    hide SpellAll, TrimWords, TrimRight, Join, Split;
    var words := Split(row, SPACE);
    SplitSpelled(row);
    JoinSplit(row, SPACE);
    SplitWithin(row, set u | u in row);
    NotLoose(words, set u | u in row);
    TrimWordsSpelled(words);
  }

  predicate UntornText(columns: int, o: Options, s: Text) {
    (o.wordWrap && !o.hard) || Width(o.indent) < columns || forall u | u in s :: u.Glyph?
  }

  lemma {:induction false} SplitUntorn(s: Text, columns: int, o: Options)
    requires UntornText(columns, o, s)
    ensures forall w | w in Split(s, SPACE) :: Untorn(columns, o, w)
  {
    if !((o.wordWrap && !o.hard) || Width(o.indent) < columns) {
      SplitWithin(s, set u | u in s);
    }
  }

  /** The rows of a whole text, character by character, are those of the units, when nothing is torn. */
  lemma RowsAreSpelled(s: Text, columns: int, o: Options)
    requires NoLooseEscapes(s) && NoLooseEscapes(o.indent) && UntornText(columns, o, s)
    ensures CharacterRows(SpellAll(s), columns, o) == SpellRows(FinalRows(s, columns, o))
    ensures NoLooseRows(FinalRows(s, columns, o))
  {
    hide PlaceWords, PlaceCharacters, SpellAll, Read, TrimRight, TrimCharacters, Untorn, UntornText, Split;
    var units := (set u | u in s) + (set u | u in o.indent) + {SPACE};
    SplitUntorn(s, columns, o);
    SplitWithin(s, units);
    SplitSpelled(s);
    PlaceSpelled(Split(s, SPACE), columns, o, units);
    PlacedWithin(Split(s, SPACE), columns, o, units);
    var rows := PlaceWords(Split(s, SPACE), columns, o);
    NotLoose(rows, units);
    RowsWithin(s, columns, o, units);
    NotLoose(FinalRows(s, columns, o), units);
    forall i | 0 <= i < |rows| ensures TrimCharacters(SpellAll(rows[i])) == SpellAll(TrimRight(rows[i])) {
      assert rows[i] in rows;
      TrimSpelled(rows[i]);
    }
  }

  // ---------------------------------------------------------------- the style pass

  lemma FindAtEscape(code: nat, tail: Text)
    ensures FindCode([ESC] + Tail(code, tail)) == Some(code)
  {
    hide Value, DigitRun, Digits, Letters;
    TailIsCode(code, tail);
    assert ([ESC] + Tail(code, tail))[1..] == Tail(code, tail);
    assert CodeAt(Tail(code, tail)) == Some(code);
  }

  lemma FirstCharacter(c: Unit, later: Text, code: Option<nat>)
    ensures var t := [c] + later;
            var code' := CodeAfter(t, code);
            RestyleCharacters(t, code)
            == [c] + SpellAll(Extra(code', c, later != [] && later[0] == NEWLINE)) + RestyleCharacters(later, code')
  {
    var t := [c] + later;
    assert t[1..] == later && (|t| > 1 && t[1] == NEWLINE <==> later != [] && later[0] == NEWLINE);
  }

  lemma QuietCharacter(c: Unit, later: Text, code: Option<nat>)
    requires c.Glyph? && c.c != ESC.c && c != NEWLINE && later != [] && later[0] != NEWLINE
    ensures RestyleCharacters([c] + later, code) == [c] + RestyleCharacters(later, code)
  {
    hide RestyleCharacters, FindCode;
    FirstCharacter(c, later, code);
    assert Extra(code, c, false) == [] && SpellAll([]) == [];
    assert [c] + [] + RestyleCharacters(later, code) == [c] + RestyleCharacters(later, code);
  }

  /** Inside an escape nothing is added. */
  lemma {:induction false} PassInside(s: string, rest: Text, code: Option<nat>)
    requires (forall c | c in s :: c != ESC.c) && rest != [] && rest[0] != NEWLINE
    ensures RestyleCharacters(Letters(s) + rest, code) == Letters(s) + RestyleCharacters(rest, code)
  {
    hide RestyleCharacters;
    if s == "" {
      assert Letters(s) + rest == rest && Letters(s) + RestyleCharacters(rest, code) == RestyleCharacters(rest, code);
    } else {
      assert s[0] in s && forall c | c in s[1..] :: c in s;
      var first, later := Glyph(s[0], 1), Letters(s[1..]) + rest;
      PassInside(s[1..], rest, code);
      QuietCharacter(first, later, code);
      assert Letters(s) == [first] + Letters(s[1..]) && Letters(s) + rest == [first] + later;
      assert [first] + (Letters(s[1..]) + RestyleCharacters(rest, code)) == Letters(s) + RestyleCharacters(rest, code);
    }
  }

  /** The pass over an escape: what is added comes after its last character. */
  lemma PassEscape(sgr: nat, later: Text, code: Option<nat>)
    ensures var code' := NextCode(code, Sgr(sgr));
            RestyleCharacters(Spell(Sgr(sgr)) + later, code)
            == Spell(Sgr(sgr)) + SpellAll(Extra(code', Sgr(sgr), later != [] && later[0] == NEWLINE))
               + RestyleCharacters(later, code')
  {
    hide RestyleCharacters, FindCode, Spell, Letters, Tail, Digits, SpellAll;
    var code', s, m := NextCode(code, Sgr(sgr)), "[" + Digits(sgr), Glyph(TERMINATOR, 1);
    EscapeParts(sgr, later);
    FindAtEscape(sgr, later);
    FirstCharacter(ESC, Tail(sgr, later), code);
    PassInside(s, [m] + later, code');
    FirstCharacter(m, later, code');
    ExtraOfLast(code', m, Sgr(sgr), later != [] && later[0] == NEWLINE);
    SpellsItself(ESC);
    var added, out := SpellAll(Extra(code', m, later != [] && later[0] == NEWLINE)), RestyleCharacters(later, code');
    assert [ESC] + [] + (Letters(s) + ([m] + added + out)) == ([ESC] + Letters(s) + [m]) + added + out;
  }

  lemma EscapeParts(sgr: nat, later: Text)
    ensures var s, m := "[" + Digits(sgr), Glyph(TERMINATOR, 1);
            && (forall c | c in s :: c != ESC.c)
            && Spell(Sgr(sgr)) + later == [ESC] + Tail(sgr, later)
            && Tail(sgr, later) == Letters(s) + ([m] + later)
            && Tail(sgr, later) != [] && Tail(sgr, later)[0] != NEWLINE
            && Spell(Sgr(sgr)) == [ESC] + Letters(s) + [m]
  {
    hide Digits, Letters, Tail, Spell;
    AllDigits(sgr);
    SpellTail(sgr, later);
    SpellParts(sgr, later);
    TailStarts(sgr, later);
    assert forall c | c in "[" + Digits(sgr) :: c == '[' || c in Digits(sgr);
    assert (Spell(Sgr(sgr)) + later)[1..] == Spell(Sgr(sgr))[1..] + later;
  }

  lemma TailStarts(sgr: nat, later: Text)
    ensures Tail(sgr, later) != [] && Tail(sgr, later)[0] != NEWLINE
  {
  }

  lemma ExtraOfLast(code: Option<nat>, u: Unit, v: Unit, beforeNewline: bool)
    requires u != NEWLINE && v != NEWLINE
    ensures Extra(code, u, beforeNewline) == Extra(code, v, beforeNewline)
  {
  }

  lemma {:induction false} RestyleSpelled(pre: Text, code: Option<nat>)
    requires NoLooseEscapes(pre)
    ensures RestyleCharacters(SpellAll(pre), code) == SpellAll(Restyle(pre, code))
  {
    if pre != [] {
      hide RestyleCharacters, SpellAll, Restyle, Extra, FindCode, CodeAt;
      assert pre[0] in pre && forall u | u in pre[1..] :: u in pre;
      RestyleSpelled(pre[1..], NextCode(code, pre[0]));
      RestyleStepSpelled(pre[0], pre[1..], code);
      assert pre == [pre[0]] + pre[1..];
    }
  }

  lemma RestyleStepSpelled(u: Unit, rest: Text, code: Option<nat>)
    requires u.Glyph? ==> u.c != ESC.c
    requires RestyleCharacters(SpellAll(rest), NextCode(code, u)) == SpellAll(Restyle(rest, NextCode(code, u)))
    ensures RestyleCharacters(SpellAll([u] + rest), code) == SpellAll(Restyle([u] + rest, code))
  {
    hide RestyleCharacters, SpellAll, FindCode, CodeAt, Extra, Spell;
    var code', later := NextCode(code, u), SpellAll(rest);
    var nl := rest != [] && rest[0] == NEWLINE;
    SpellConcat([u], rest);
    SpellOne(u);
    SpellStart(rest);
    if u.Sgr? {
      PassEscape(u.code, later, code);
    } else {
      SpellsItself(u);
      FirstCharacter(u, later, code);
    }
    assert Restyle([u] + rest, code) == [u] + Extra(code', u, nl) + Restyle(rest, code') by {
      assert ([u] + rest)[1..] == rest;
    }
    SpellConcat([u] + Extra(code', u, nl), Restyle(rest, code'));
    SpellConcat([u], Extra(code', u, nl));
  }

  lemma SpellStart(t: Text)
    ensures SpellAll(t) != [] && SpellAll(t)[0] == NEWLINE <==> t != [] && t[0] == NEWLINE
  {
    if t != [] {
      SpellIsSpaceFree(t[0]);
    }
  }

  // ---------------------------------------------------------------- texts whose escapes are torn

  /** Trimming leaves a last character that is not a space where it is. */
  lemma {:induction false} TrimWordsKeepsLast(words: seq<Text>, u: Unit)
    requires words != [] && words[|words| - 1] != [] && Last(words)[|Last(words)| - 1] == u
    ensures TrimWords(words) != [] && TrimWords(words)[|TrimWords(words)| - 1] == u
  {
    hide VisibleWidth, Join;
    var n := |words| - 1;
    assert words == words[..n] + [words[n]];
    JoinNewest(words[..n], words[n], SPACE);
  }

  lemma SplitNewest(t: Text, u: Unit)
    requires u != SPACE
    ensures var words := Split(t + [u], SPACE); words[|words| - 1] != [] && Last(words)[|Last(words)| - 1] == u
  {
    hide Split, Join;
    var words := Split(t + [u], SPACE);
    var n := |words| - 1;
    JoinSplit(t + [u], SPACE);
    assert words == words[..n] + [words[n]];
    JoinNewest(words[..n], words[n], SPACE);
    assert (t + [u])[|t|] == u;
  }

  lemma TornRowStays(characters: seq<Text>, rows: seq<Text>, n: nat, t: Text)
    requires TornRow(characters, rows, n, t)
    ensures TrimCharacters(characters[n]) != SpellAll(TrimRight(rows[n]))
  {
    hide SpellAll, TrimRight, TrimWords, Split;
    SplitNewest(SpellAll(t), ESC);
    TrimWordsKeepsLast(Split(SpellAll(t) + [ESC], SPACE), ESC);
    ResetHasNoWidth();
    TrimRightKeepsEscapes(t, [Sgr(0)]);
    SpellConcat(TrimRight(t), [Sgr(0)]);
    SpellOne(Sgr(0));
  }

  lemma ResetHasNoWidth()
    ensures Width([Sgr(0)]) == 0
  {
    assert [Sgr(0)][1..] == [];
  }

  /** Where that word is broken. */
  function TornStart(columns: int, o: Options): (start: seq<Text>)
    ensures start != []
  {
    if o.hard && StartsOnNewRow(Width(TornWord(0, columns)), 0, columns) then [[], o.indent] else [[]]
  }

  lemma TornWordIs(columns: int, o: Options)
    ensures var s := TornWord(0, columns);
            && NoLooseEscapes(s) && SpaceFree(s) && Width(s) > columns && Width(s) > 0
            && Split(s, SPACE) == [s] && TornWord(Width(Last(TornStart(columns, o))), columns) == s
  {
    var front := if 0 >= columns then [] else Xs(columns);
    var s := TornWord(0, columns);
    NarrowWidth(front);
    WidthConcat(front, [Sgr(0), X]);
    assert [Sgr(0), X][1..] == [X] && [X][1..] == [] && Width([X]) == 1 + Width([]) && Width([Sgr(0), X]) == Width([X]);
    SplitWord(s);
    if columns > 0 {
      StartsHereAtZero(Width(s), columns);
      assert Width([]) == 0;
    }
  }

  /** Where the one word of the text is placed, by the units and by the characters. */
  lemma OneWordIsBroken(s: Text, columns: int, o: Options)
    requires NoLooseEscapes(s) && Split(s, SPACE) == [s] && Width(s) > columns && Width(s) > 0
    requires NoLooseEscapes(o.indent) && !(o.wordWrap && !o.hard)
    ensures var start := if o.hard && StartsOnNewRow(Width(s), 0, columns) then [[], o.indent] else [[]];
            && PlaceWords([s], columns, o) == WrappedWord(start, s, columns, o.indent)
            && SpellRows(start) != []
            && PlaceCharacters(Split(SpellAll(s), SPACE), columns, o)
               == BrokenWordRows(SpellRows(start), Width(Last(start)), SpellAll(s), columns, SpellAll(o.indent),
                                 Width(o.indent))
  {
    hide SpellAll, Read, WrappedWord, BrokenWordRows, StartsOnNewRow;
    var rows: seq<Text> := [[]];
    var start := if o.hard && StartsOnNewRow(Width(s), 0, columns) then [[], o.indent] else rows;
    assert Width([]) == 0 && rows[0 := TrimStart([])] == rows && OpenRow(rows, 0, columns, o) == rows;
    assert [s][..0] == [] && PlaceWords([], columns, o) == rows;
    assert rows + [o.indent] == [[], o.indent] && rows + [SpellAll(o.indent)] == [[], SpellAll(o.indent)];
    assert BreakOn(rows, 0, Width(s), columns, o) == Some(start);
    assert PutWord(rows, s, columns, o) == WrappedWord(start, s, columns, o.indent);
    SplitSpelled(s);
    var word := SpellAll(s);
    SpellsItself(SPACE);
    ReadAll(s);
    ReadAll([]);
    ReadAll(o.indent);
    assert SpellRows([s]) == [word] && [word][..0] == [] && PlaceCharacters([], columns, o) == rows;
    assert OpenCharacters(rows, 0, columns, o) == rows;
    assert SpellRows(start) == if start == rows then rows else [[], SpellAll(o.indent)];
    assert BreakOn(rows, 0, Width(s), columns, Spelled(o)) == Some(SpellRows(start));
    assert PutCharacters(rows, word, columns, o)
        == BrokenWordRows(SpellRows(start), VisibleWidth(Last(SpellRows(start))), word, columns, SpellAll(o.indent),
                          Width(o.indent));
  }

  lemma TornInside(characters: seq<Text>, rows: seq<Text>, n: nat, t: Text)
    requires TornRow(characters, rows, n, t)
    ensures n < |characters| && n < |rows|
  {
  }

  /** The text with one word whose escape is torn on the first row or the one after it. */
  lemma TextIsTorn(columns: int, o: Options) returns (s: Text)
    requires NoLooseEscapes(o.indent) && !(o.wordWrap && !o.hard) && Width(o.indent) >= columns
    ensures NoLooseEscapes(s) && CharacterRows(SpellAll(s), columns, o) != SpellRows(FinalRows(s, columns, o))
  {
    hide SpellAll, Width, WrappedWord, BrokenWordRows, TornRow, TrimRight, TornWord, StartsOnNewRow, NoLooseEscapes,
         TrimCharacters, Split, PlaceWords, PlaceCharacters, SpellRows;
    s := TornWord(0, columns);
    TornWordIs(columns, o);
    OneWordIsBroken(s, columns, o);
    var start := TornStart(columns, o);
    NothingLoose();
    var n, t := EscapeIsTorn(start, columns, o.indent);
    var rows, characters := WrappedWord(start, s, columns, o.indent), SpelledWordRows(start, s, columns, o.indent);
    TornInside(characters, rows, n, t);
    TornRowStays(characters, rows, n, t);
    TornDiffers(characters, rows, n, t);
    RowIsSpelled(FinalRows(s, columns, o), n);
  }

  lemma NothingLoose()
    ensures NoLooseEscapes([])
  {
  }

  /**
   Exactly when every text keeps its escapes whole: when words are never broken, or the indent is narrower
   than the columns.
   */
  lemma TextsStayWholeIff(columns: int, o: Options)
    requires NoLooseEscapes(o.indent)
    ensures (forall s | NoLooseEscapes(s) ::
               CharacterRows(SpellAll(s), columns, o) == SpellRows(FinalRows(s, columns, o)))
            <==> (o.wordWrap && !o.hard) || Width(o.indent) < columns
  {
    hide CharacterRows, SpellAll, SpellRows, FinalRows, NoLooseEscapes, Width;
    if (o.wordWrap && !o.hard) || Width(o.indent) < columns {
      forall s | NoLooseEscapes(s)
        ensures CharacterRows(SpellAll(s), columns, o) == SpellRows(FinalRows(s, columns, o))
      {
        RowsAreSpelled(s, columns, o);
      }
    } else {
      var s := TextIsTorn(columns, o);
    }
  }

  // ---------------------------------------------------------------- the whole call

  lemma {:induction false} BlankSpelled(t: Text)
    ensures AllWhitespace(SpellAll(t)) <==> AllWhitespace(t)
  {
    if t != [] {
      var u, rest := t[0], t[1..];
      BlankSpelled(rest);
      SpellIsSpaceFree(u);
      assert SpellAll(t) == Spell(u) + SpellAll(rest) && t == [u] + rest;
      BlankTogether(Spell(u), SpellAll(rest));
      BlankTogether([u], rest);
      assert AllWhitespace(Spell(u)) <==> AllWhitespace([u]) by {
        BlankOne(u);
      }
    }
  }

  lemma BlankTogether(a: Text, b: Text)
    ensures AllWhitespace(a + b) <==> AllWhitespace(a) && AllWhitespace(b)
  {
    assert forall u | u in a :: u in a + b;
    assert forall u | u in b :: u in a + b;
  }

  lemma BlankOne(u: Unit)
    ensures AllWhitespace(Spell(u)) <==> AllWhitespace([u])
  {
    assert u in [u];
    if u.Sgr? {
      assert ESC in Spell(u) && !IsWhitespace(ESC);
    }
  }

  lemma {:induction false} JoinNotLoose(rows: seq<Text>)
    requires NoLooseRows(rows)
    ensures NoLooseEscapes(Join(rows, NEWLINE))
  {
    if |rows| > 1 {
      assert rows[0] in rows && forall r | r in rows[1..] :: r in rows;
      JoinNotLoose(rows[1..]);
    } else if |rows| == 1 {
      assert rows[0] in rows;
    }
  }

  /** When nothing is torn, the output is the characters of what the model with escapes as units says. */
  lemma OutputIsSpelled(s: Text, columns: int, o: Options)
    requires NoLooseEscapes(s) && NoLooseEscapes(o.indent) && UntornText(columns, o, s)
    ensures Output(SpellAll(s), columns, o) == SpellAll(Wrapped(s, columns, o))
  {
    hide SpellAll, RestyleCharacters, Restyle, CharacterRows, FinalRows, Join, AllWhitespace, UntornText,
        NoLooseEscapes;
    BlankSpelled(s);
    SpellsItself(NEWLINE);
    var rows := FinalRows(s, columns, o);
    RowsAreSpelled(s, columns, o);
    JoinSpelled(rows, NEWLINE);
    JoinNotLoose(rows);
    RestyleSpelled(Join(rows, NEWLINE), None);
  }
}
