/**
 Wrapping loses no character: what the rows built from the characters hold, also where escapes are torn apart
 between two rows.
 */
module WrapCharacterContent {
  import opened Prelude
  import opened WrapAnsi
  import opened WrapContent
  import opened WrapEscapes
  import opened WrapCharacters
  import opened HardWrap

  lemma {:induction false} KeepSpelled(t: Text, whitespace: bool)
    ensures Keep(SpellAll(t), whitespace) == SpellAll(Keep(t, whitespace))
  {
    if t != [] {
      hide Keep, SpellAll;
      KeepSpelled(t[1..], whitespace);
      KeepSpelledFirst(t[0], t[1..], whitespace);
      assert t == [t[0]] + t[1..];
    }
  }

  lemma KeepSpelledFirst(u: Unit, rest: Text, whitespace: bool)
    requires Keep(SpellAll(rest), whitespace) == SpellAll(Keep(rest, whitespace))
    ensures Keep(SpellAll([u] + rest), whitespace) == SpellAll(Keep([u] + rest, whitespace))
  {
    hide Keep, SpellAll, Spell;
    SpellConcat([u], rest);
    SpellOne(u);
    KeepConcat(Spell(u), SpellAll(rest), whitespace);
    KeepOne(u, whitespace);
    KeepFirst(u, rest, whitespace);
    SpellConcat([u], Keep(rest, whitespace));
  }

  lemma KeepOne(u: Unit, whitespace: bool)
    ensures Keep(Spell(u), whitespace) == if whitespace || !IsWhitespace(u) then Spell(u) else []
  {
    if u.Sgr? {
      EscapeHasNoWhitespace(u.code);
      KeepSolidText(Spell(u), whitespace);
    } else {
      assert [u][1..] == [];
    }
  }

  lemma EscapeHasNoWhitespace(code: nat)
    ensures forall u | u in Spell(Sgr(code)) :: !IsWhitespace(u)
  {
    AllDigits(code);
    var d := Digits(code);
    assert forall c | c in "[" + d :: c == '[' || c in d;
    LettersAreSolid("[" + d);
  }

  lemma LettersAreSolid(s: string)
    requires forall c | c in s :: c == '[' || IsDigit(c)
    ensures forall u | u in Letters(s) :: !IsWhitespace(u)
  {
    forall i | 0 <= i < |s| ensures !IsWhitespace(Glyph(s[i], 1)) {
      assert s[i] in s;
    }
  }

  lemma {:induction false} KeepSolidText(t: Text, whitespace: bool)
    requires forall u | u in t :: !IsWhitespace(u)
    ensures Keep(t, whitespace) == t
  {
    if t != [] {
      assert t[0] in t && forall u | u in t[1..] :: u in t;
      KeepSolidText(t[1..], whitespace);
    }
  }

  // ---------------------------------------------------------------- broken words

  lemma BreakHolds(st: Breaking, u: Unit, more: bool, columns: int, indent: Text, k: nat, whitespace: bool, text: Text)
    requires st.rows != [] && Hold(st.rows, Keep(indent, whitespace), whitespace, text)
    ensures Hold(Break(st, u, more, columns, indent, k).rows, Keep(indent, whitespace), whitespace,
                 text + Keep([u], whitespace))
  {
    hide Hold, Keep;
    var mark, longer := Keep(indent, whitespace), text + Keep([u], whitespace);
    AppendHolds(st.rows, [u], mark, whitespace, text);
    NewRow(st.rows, indent, [u], whitespace, text);
    NewEmptyRow(Append(st.rows, [u]), indent, whitespace, longer);
    NewEmptyRow(st.rows + [indent + [u]], indent, whitespace, longer);
  }

  lemma {:induction false} BreakAllHolds(st: Breaking, word: Text, columns: int, indent: Text, k: nat, whitespace: bool,
                                         text: Text)
    requires st.rows != [] && Hold(st.rows, Keep(indent, whitespace), whitespace, text)
    ensures Hold(BreakAll(st, word, columns, indent, k).rows, Keep(indent, whitespace), whitespace,
                 text + Keep(word, whitespace))
    decreases |word|
  {
    hide Hold, Break;
    if word != [] {
      var u, rest := [word[0]], word[1..];
      BreakHolds(st, word[0], |word| > 1, columns, indent, k, whitespace, text);
      BreakAllHolds(Break(st, word[0], |word| > 1, columns, indent, k), rest, columns, indent, k, whitespace,
                    text + Keep(u, whitespace));
      assert word == u + rest;
      KeepConcat(u, rest, whitespace);
      assert text + Keep(u, whitespace) + Keep(rest, whitespace) == text + Keep(word, whitespace);
    } else {
      assert text + Keep(word, whitespace) == text;
    }
  }

  /** Beside an indent of some width a row on which something is visible stays so, whatever escapes follow. */
  lemma {:induction false} BreakStaysVisible(st: Breaking, word: Text, columns: int, indent: Text, k: nat)
    requires st.rows != [] && st.visible > 0 && k > 0
    ensures BreakAll(st, word, columns, indent, k).visible > 0
    decreases |word|
  {
    hide Append;
    if word != [] {
      BreakStaysVisible(Break(st, word[0], |word| > 1, columns, indent, k), word[1..], columns, indent, k);
    }
  }

  /** An escape ends before the next character, and does not change what is visible unless it starts a row. */
  lemma {:induction false} EscapePasses(st: Breaking, s: string, tail: Text, columns: int, indent: Text, k: nat)
    requires st.rows != [] && st.isInsideEscape && TERMINATOR !in s && st.visible >= 0
    ensures exists st': Breaking :: st'.rows != [] && !st'.isInsideEscape && st'.visible in {st.visible, k as int}
              && BreakAll(st, Letters(s) + ([Glyph(TERMINATOR, 1)] + tail), columns, indent, k)
                 == BreakAll(st', tail, columns, indent, k)
    decreases |s|
  {
    hide Append, BreakAll;
    var m := Glyph(TERMINATOR, 1);
    if s == "" {
      assert Letters(s) + ([m] + tail) == [m] + tail;
      BreakFirst(st, m, tail, columns, indent, k);
    } else {
      var first, later := Glyph(s[0], 1), Letters(s[1..]) + ([m] + tail);
      assert s[0] in s && forall c | c in s[1..] :: c in s;
      assert Letters(s) == [first] + Letters(s[1..]) && Letters(s) + ([m] + tail) == [first] + later;
      BreakFirst(st, first, later, columns, indent, k);
      EscapePasses(Break(st, first, later != [], columns, indent, k), s[1..], tail, columns, indent, k);
    }
  }

  lemma EscapeBroken(st: Breaking, code: nat, tail: Text, columns: int, indent: Text, k: nat)
    requires st.rows != [] && !st.isInsideEscape && st.visible >= 0
    ensures exists st': Breaking :: st'.rows != [] && !st'.isInsideEscape && st'.visible in {st.visible, k as int}
              && BreakAll(st, Spell(Sgr(code)) + tail, columns, indent, k) == BreakAll(st', tail, columns, indent, k)
  {
    hide Append, BreakAll, Letters, Digits;
    var s, m := "[" + Digits(code), Glyph(TERMINATOR, 1);
    SpellParts(code, tail);
    var rest := Letters(s) + ([m] + tail);
    assert Spell(Sgr(code)) + tail == [ESC] + rest;
    BreakFirst(st, ESC, rest, columns, indent, k);
    EscapePasses(Break(st, ESC, true, columns, indent, k), s, tail, columns, indent, k);
  }

  /** When the word has some width, something is visible on the last row, torn escapes or not. */
  lemma {:induction false} WordIsVisible(st: Breaking, word: Text, columns: int, indent: Text, k: nat)
    requires st.rows != [] && !st.isInsideEscape && NoLooseEscapes(word)
    requires k > 0 && st.visible >= 0 && st.visible + Width(word) > 0
    ensures BreakAll(st, SpellAll(word), columns, indent, k).visible > 0
    decreases |word|
  {
    if st.visible > 0 {
      BreakStaysVisible(st, SpellAll(word), columns, indent, k);
    } else {
      hide Append, BreakAll, Spell;
      var u, rest := word[0], word[1..];
      assert u in word && forall v | v in rest :: v in word;
      var tail := SpellAll(rest);
      if u.Sgr? {
        EscapeBroken(st, u.code, tail, columns, indent, k);
        var st': Breaking :| st'.rows != [] && !st'.isInsideEscape && st'.visible in {st.visible, k as int}
                   && BreakAll(st, Spell(u) + tail, columns, indent, k) == BreakAll(st', tail, columns, indent, k);
        WordIsVisible(st', rest, columns, indent, k);
      } else {
        SpellsItself(u);
        BreakFirst(st, u, tail, columns, indent, k);
        WordIsVisible(Break(st, u, tail != [], columns, indent, k), rest, columns, indent, k);
      }
    }
  }

  lemma BrokenHolds(rows: seq<Text>, visible: nat, word: Text, columns: int, indent: Text, k: nat, whitespace: bool,
                    text: Text)
    requires rows != [] && Hold(rows, Keep(indent, whitespace), whitespace, text) && NoLooseEscapes(word)
    requires Keep(indent, whitespace) == [] || (k > 0 && visible + Width(word) > 0)
    ensures Hold(BrokenWordRows(rows, visible, SpellAll(word), columns, indent, k), Keep(indent, whitespace),
                 whitespace, text + Keep(SpellAll(word), whitespace))
  {
    hide Hold, Keep, BreakAll, SpellAll, Width, NoLooseEscapes;
    var start := Breaking(rows, visible, false);
    var st, longer := BreakAll(start, SpellAll(word), columns, indent, k), text + Keep(SpellAll(word), whitespace);
    BreakAllHolds(start, SpellAll(word), columns, indent, k, whitespace, text);
    if Keep(indent, whitespace) == [] {
      if |st.rows| > 1 {
        MergeHolds(st.rows, whitespace, longer);
      }
    } else {
      WordIsVisible(start, word, columns, indent, k);
    }
  }

  // ---------------------------------------------------------------- placing words

  lemma PutHolds(open: seq<Text>, word: Text, columns: int, o: Options, whitespace: bool, text: Text)
    requires open != [] && Hold(open, Keep(SpellAll(o.indent), whitespace), whitespace, text)
    requires Tidy(columns, o, whitespace) && NoLooseEscapes(word) && NoLooseEscapes(o.indent)
    ensures Hold(PutCharacters(open, SpellAll(word), columns, o), Keep(SpellAll(o.indent), whitespace), whitespace,
                 text + Keep(SpellAll(word), whitespace))
  {
    hide Hold, Keep, SpellAll, Width, VisibleWidth, BrokenWordRows, StartsOnNewRow, NoLooseEscapes;
    var indent, characters := SpellAll(o.indent), SpellAll(word);
    var mark, k := Keep(indent, whitespace), Width(o.indent);
    ReadAll(word);
    ReadAll(o.indent);
    KeepSpelled(o.indent, whitespace);
    NothingSpelled();
    NewEmptyRow(open, indent, whitespace, text);
    AppendHolds(open, characters, mark, whitespace, text);
    AppendHolds(open + [indent], characters, mark, whitespace, text);
    if !(o.wordWrap && !o.hard) {
      var seen := VisibleWidth(Last(open));
      if mark == [] || seen + Width(word) > 0 {
        BrokenHolds(open, seen, word, columns, indent, k, whitespace, text);
      }
      BrokenHolds(open + [indent], k, word, columns, indent, k, whitespace, text);
    }
  }

  lemma NothingSpelled()
    ensures SpellAll([]) == []
  {
  }

  lemma OpenHolds(rows: seq<Text>, index: nat, columns: int, o: Options, whitespace: bool, text: Text)
    requires rows != [] && Hold(rows, Keep(SpellAll(o.indent), whitespace), whitespace, text)
    requires whitespace ==> !o.trim
    ensures Hold(OpenCharacters(rows, index, columns, o), Keep(SpellAll(o.indent), whitespace), whitespace,
                 text + Added(index, [], whitespace))
  {
    hide Hold, Keep, SpellAll, TrimStart, VisibleWidth, Added;
    var indent := SpellAll(o.indent);
    var mark, trimmed := Keep(indent, whitespace), if o.trim then rows[|rows| - 1 := TrimStart(Last(rows))] else rows;
    TrimmedHolds(rows, o.trim, mark, whitespace, text);
    NewEmptyRow(trimmed, indent, whitespace, text);
    var full := index != 0 && VisibleWidth(Last(trimmed)) >= columns && (!o.wordWrap || !o.trim);
    var started := if full then trimmed + [indent] else trimmed;
    SpaceHolds(started, index, index != 0 && (VisibleWidth(Last(started)) > 0 || !o.trim), mark, whitespace, text);
  }

  lemma {:induction false} CharactersPlaced(words: seq<Text>, columns: int, o: Options, whitespace: bool)
    requires NoLooseRows(words) && NoLooseEscapes(o.indent)
    requires Tidy(columns, o, whitespace) && (whitespace ==> !o.trim)
    ensures Hold(PlaceCharacters(SpellRows(words), columns, o), Keep(SpellAll(o.indent), whitespace), whitespace,
                 Keep(Join(SpellRows(words), SPACE), whitespace))
  {
    if words == [] {
      EmptyRowHolds(Keep(SpellAll(o.indent), whitespace), whitespace);
    } else {
      hide Hold, Keep, Join, PutCharacters, OpenCharacters, Tidy, Added, SpellAll, NoLooseEscapes;
      var n := |words| - 1;
      var front, word := words[..n], words[n];
      assert word in words && (forall w | w in front :: w in words) && words == front + [word];
      CharactersPlaced(front, columns, o, whitespace);
      SpellNewRow(front, word);
      assert SpellRows(words)[..n] == SpellRows(front);
      var rows, text := PlaceCharacters(SpellRows(front), columns, o), Keep(Join(SpellRows(front), SPACE), whitespace);
      OpenHolds(rows, n, columns, o, whitespace, text);
      var open := OpenCharacters(rows, n, columns, o);
      PutHolds(open, word, columns, o, whitespace, text + Added(n, [], whitespace));
      AddedInTwo(n, SpellAll(word), whitespace, text);
      JoinAdds(SpellRows(front), SpellAll(word), whitespace);
    }
  }

  // ---------------------------------------------------------------- trimming rows

  lemma {:induction false} TrimWordsContent(words: seq<Text>)
    ensures Keep(TrimWords(words), false) == Keep(Join(words, SPACE), false)
  {
    hide Keep, Join, VisibleWidth;
    if words != [] {
      var n := |words| - 1;
      TrimWordsContent(words[..n]);
      assert words == words[..n] + [words[n]];
      KeepConcat(TrimWords(words[..n]), words[n], false);
      JoinAdds(words[..n], words[n], false);
      KeepSpace();
      assert n == 0 ==> words[..n] == [] && Keep(Join(words[..n], SPACE), false) == [] by {
        KeepNothing(false);
      }
    } else {
      KeepNothing(false);
    }
  }

  lemma TrimCharactersContent(row: Text)
    ensures Keep(TrimCharacters(row), false) == Keep(row, false)
  {
    JoinSplit(row, SPACE);
    TrimWordsContent(Split(row, SPACE));
  }

  /** Rewriting rows without changing what is kept of them changes nothing of what they hold. */
  lemma {:induction false} SameKeptHold(rows: seq<Text>, rows': seq<Text>, mark: Text, whitespace: bool, text: Text)
    requires Hold(rows, mark, whitespace, text) && |rows'| == |rows|
    requires forall i | 0 <= i < |rows| :: Keep(rows'[i], whitespace) == Keep(rows[i], whitespace)
    ensures Hold(rows', mark, whitespace, text)
  {
    hide Keep, Bodies;
    if rows == [] {
      assert rows' == rows;
    } else {
      var n := |rows| - 1;
      var front := rows[..n];
      assert rows == front + [rows[n]] && rows' == rows'[..n] + [rows'[n]];
      HoldSplit(front, rows[n], mark, whitespace, text);
      SameKeptHold(front, rows'[..n], mark, whitespace, Bodies(front, mark, whitespace));
      HoldSplit(rows'[..n], rows'[n], mark, whitespace, text);
    }
  }

  // ---------------------------------------------------------------- the theorems

  /** Every row but the first begins with the characters of the indent, and beside it the rows hold the text's. */
  ghost predicate KeepsCharacters(s: Text, columns: int, o: Options) {
    var whitespace := !o.trim;
    Hold(CharacterRows(SpellAll(s), columns, o), Keep(SpellAll(o.indent), whitespace), whitespace,
         Keep(SpellAll(s), whitespace))
  }

  /** Nothing but whitespace is lost, added or moved, character by character, even where an escape is torn apart. */
  lemma CharactersStay(s: Text, columns: int, o: Options)
    requires NoLooseEscapes(s) && NoLooseEscapes(o.indent) && Tidy(columns, o, !o.trim)
    ensures KeepsCharacters(s, columns, o)
  {
    hide Hold, Keep, Tidy, SpellAll, PlaceCharacters, TrimCharacters, NoLooseEscapes, Split;
    var words := Split(s, SPACE);
    SplitNotLoose(s);
    SplitSpelled(s);
    JoinSplit(SpellAll(s), SPACE);
    CharactersPlaced(words, columns, o, !o.trim);
    var rows := PlaceCharacters(SpellRows(words), columns, o);
    if o.trim {
      forall i | 0 <= i < |rows| ensures Keep(TrimCharacters(rows[i]), false) == Keep(rows[i], false) {
        TrimCharactersContent(rows[i]);
      }
      SameKeptHold(rows, CharacterRows(SpellAll(s), columns, o), Keep(SpellAll(o.indent), false), false,
                   Keep(SpellAll(s), false));
    }
  }

  lemma {:induction false} SplitNotLoose(s: Text)
    requires NoLooseEscapes(s)
    ensures NoLooseRows(Split(s, SPACE))
  {
    if s != [] {
      assert s[0] in s && forall u | u in s[1..] :: u in s;
      SplitNotLoose(s[1..]);
      var rest := Split(s[1..], SPACE);
      assert rest[0] in rest;
    }
  }

  /** Without trimming, the rows without their indents are exactly the characters of the text. */
  lemma UntrimmedRowsAreTheCharacters(s: Text, columns: int, o: Options)
    requires NoLooseEscapes(s) && NoLooseEscapes(o.indent) && !o.trim && Tidy(columns, o, true)
    ensures var rows := CharacterRows(SpellAll(s), columns, o);
            && (forall i | 0 < i < |rows| :: SpellAll(o.indent) <= rows[i])
            && Bodies(rows, SpellAll(o.indent), true) == SpellAll(s)
  {
    hide CharacterRows, Bodies, Keep, Tidy, SpellAll, NoLooseEscapes;
    CharactersStay(s, columns, o);
    KeepAll(SpellAll(s));
    KeepAll(SpellAll(o.indent));
    var rows := CharacterRows(SpellAll(s), columns, o);
    forall i | 0 < i < |rows| ensures SpellAll(o.indent) <= rows[i] {
      KeepAll(rows[i]);
    }
  }

  lemma {:induction false} GlyphsSpellThemselves(t: Text)
    requires forall u | u in t :: u.Glyph?
    ensures SpellAll(t) == t
  {
    if t != [] {
      assert t[0] in t && forall u | u in t[1..] :: u in t;
      GlyphsSpellThemselves(t[1..]);
    }
  }

  lemma SpelledMarkMoves(columns: nat, o: Options) returns (s: Text)
    requires NoLooseEscapes(o.indent) && !Tidy(columns, o, !o.trim)
    ensures NoLooseEscapes(s) && !KeepsCharacters(s, columns, o)
  {
    hide Hold, Keep, SpellAll, CharacterRows, FinalRows;
    var whitespace := !o.trim;
    var a, b := UntidyRows(columns, o);
    s := a + b + [ACCENT];
    var rows, indent := FinalRows(s, columns, o), SpellAll(o.indent);
    RowsAreSpelled(s, columns, o);
    assert forall u | u in a || u in b :: u in s;
    GlyphsSpellThemselves(a);
    GlyphsSpellThemselves(b);
    GlyphsSpellThemselves([ACCENT]);
    GlyphsSpellThemselves(s);
    KeepSpelled(rows[0], whitespace);
    KeepSpelled(a, whitespace);
    KeepSpelled(rows[1], whitespace);
    KeepSpelled(o.indent + b + o.indent + [ACCENT], whitespace);
    SpellConcat(o.indent + b + o.indent, [ACCENT]);
    SpellConcat(o.indent + b, o.indent);
    SpellConcat(o.indent, b);
    KeepSpelled(o.indent, whitespace);
    SpelledIsEmpty(Keep(o.indent, whitespace));
    MovedMark(SpellRows(rows), a, b, indent, whitespace);
  }

  /**
   Exactly when every text stays with its rows, character by character: in soft mode, and otherwise when the indent
   has some width or leaves no mark.
   */
  lemma CharactersStayIff(columns: nat, o: Options)
    requires NoLooseEscapes(o.indent)
    ensures (forall s | NoLooseEscapes(s) :: KeepsCharacters(s, columns, o)) <==> Tidy(columns, o, !o.trim)
  {
    hide KeepsCharacters, Tidy;
    if Tidy(columns, o, !o.trim) {
      forall s | NoLooseEscapes(s) ensures KeepsCharacters(s, columns, o) {
        CharactersStay(s, columns, o);
      }
    } else {
      var s := SpelledMarkMoves(columns, o);
    }
  }
}
