/**
 Wrapping loses no text: every row after the first begins with the indent, and what the rows hold beside
 it is, in order, the text itself, up to whitespace when rows are trimmed.
 */
module WrapContent {
  import opened WrapAnsi
  import opened HardWrap
  import opened GreedyWrap

  /** The text itself, or what is left of it without its whitespace. */
  function Keep(s: Text, whitespace: bool): Text {
    if s == [] then []
    else (if whitespace || !IsWhitespace(s[0]) then [s[0]] else []) + Keep(s[1..], whitespace)
  }

  /** What a row holds beside the mark that the indent leaves in front of every row but the first. */
  function Body(row: Text, first: bool, mark: Text, whitespace: bool): Text {
    var kept := Keep(row, whitespace);
    if !first && mark <= kept then kept[|mark|..] else kept
  }

  function Bodies(rows: seq<Text>, mark: Text, whitespace: bool): Text {
    if rows == [] then []
    else
      var n := |rows| - 1;
      Bodies(rows[..n], mark, whitespace) + Body(rows[n], n == 0, mark, whitespace)
  }

  /** The rows hold exactly the given text beside the marks. */
  ghost predicate Hold(rows: seq<Text>, mark: Text, whitespace: bool, text: Text) {
    && (forall i | 0 < i < |rows| :: mark <= Keep(rows[i], whitespace))
    && Bodies(rows, mark, whitespace) == text
  }

  lemma KeepFirst(u: Unit, s: Text, whitespace: bool)
    ensures Keep([u] + s, whitespace)
            == if whitespace || !IsWhitespace(u) then [u] + Keep(s, whitespace) else Keep(s, whitespace)
  {
    assert ([u] + s)[1..] == s;
  }

  lemma {:induction false} KeepConcat(a: Text, b: Text, whitespace: bool)
    ensures Keep(a + b, whitespace) == Keep(a, whitespace) + Keep(b, whitespace)
  {
    if a == [] {
      assert a + b == b;
    } else {
      hide Keep;
      KeepFirst(a[0], a[1..], whitespace);
      KeepFirst(a[0], a[1..] + b, whitespace);
      KeepConcat(a[1..], b, whitespace);
      assert a == [a[0]] + a[1..] && a + b == [a[0]] + (a[1..] + b);
    }
  }

  lemma {:induction false} KeepAll(s: Text)
    ensures Keep(s, true) == s
  {
    if s != [] {
      KeepAll(s[1..]);
    }
  }

  lemma KeepSpace()
    ensures Keep([SPACE], false) == []
  {
    assert [SPACE][1..] == [];
  }

  // ---------------------------------------------------------------- changes to the last row

  lemma BodiesNewest(rows: seq<Text>, row: Text, mark: Text, whitespace: bool)
    ensures Bodies(rows + [row], mark, whitespace)
            == Bodies(rows, mark, whitespace) + Body(row, rows == [], mark, whitespace)
  {
    hide Keep, Body;
    assert (rows + [row])[..|rows|] == rows && (rows + [row])[|rows|] == row;
  }

  lemma HoldSplit(rows: seq<Text>, row: Text, mark: Text, whitespace: bool, text: Text)
    ensures Hold(rows + [row], mark, whitespace, text)
            <==> && (rows != [] ==> mark <= Keep(row, whitespace))
                 && Hold(rows, mark, whitespace, Bodies(rows, mark, whitespace))
                 && text == Bodies(rows, mark, whitespace) + Body(row, rows == [], mark, whitespace)
  {
    hide Keep, Body, Bodies;
    BodiesNewest(rows, row, mark, whitespace);
    var longer := rows + [row];
    assert longer[|rows|] == row && forall i | 0 <= i < |rows| :: longer[i] == rows[i];
  }

  lemma NewRow(rows: seq<Text>, indent: Text, s: Text, whitespace: bool, text: Text)
    requires rows != [] && Hold(rows, Keep(indent, whitespace), whitespace, text)
    ensures Hold(rows + [indent + s], Keep(indent, whitespace), whitespace, text + Keep(s, whitespace))
  {
    hide Keep, Bodies;
    HoldSplit(rows, indent + s, Keep(indent, whitespace), whitespace, text + Keep(s, whitespace));
    KeepConcat(indent, s, whitespace);
  }

  lemma NewEmptyRow(rows: seq<Text>, indent: Text, whitespace: bool, text: Text)
    requires rows != [] && Hold(rows, Keep(indent, whitespace), whitespace, text)
    ensures Hold(rows + [indent], Keep(indent, whitespace), whitespace, text)
  {
    NewRow(rows, indent, [], whitespace, text);
    assert indent + [] == indent && text + [] == text;
  }

  /** Adding to the last row, and rewriting it without changing what is kept of it. */
  lemma LastRowChanges(rows: seq<Text>, row: Text, s: Text, mark: Text, whitespace: bool, text: Text)
    requires rows != [] && Hold(rows, mark, whitespace, text)
    requires Keep(row, whitespace) == Keep(Last(rows), whitespace) + Keep(s, whitespace)
    ensures Hold(rows[|rows| - 1 := row], mark, whitespace, text + Keep(s, whitespace))
  {
    hide Keep, Hold, Bodies;
    var n := |rows| - 1;
    var front := rows[..n];
    assert rows == front + [rows[n]] && rows[n := row] == front + [row];
    HoldSplit(front, rows[n], mark, whitespace, text);
    HoldSplit(front, row, mark, whitespace, text + Keep(s, whitespace));
  }

  lemma AppendHolds(rows: seq<Text>, s: Text, mark: Text, whitespace: bool, text: Text)
    requires rows != [] && Hold(rows, mark, whitespace, text)
    ensures Hold(Append(rows, s), mark, whitespace, text + Keep(s, whitespace))
  {
    KeepConcat(Last(rows), s, whitespace);
    LastRowChanges(rows, Last(rows) + s, s, mark, whitespace, text);
  }

  // ---------------------------------------------------------------- broken words

  lemma UnitHolds(st: Wrapping, u: Unit, more: bool, columns: int, indent: Text, whitespace: bool, text: Text)
    requires st.rows != [] && Hold(st.rows, Keep(indent, whitespace), whitespace, text)
    ensures Hold(WrapUnit(st, u, more, columns, indent).rows, Keep(indent, whitespace), whitespace,
                 text + Keep([u], whitespace))
  {
    hide Hold, Keep, Width;
    var mark, longer := Keep(indent, whitespace), text + Keep([u], whitespace);
    AppendHolds(st.rows, [u], mark, whitespace, text);
    NewRow(st.rows, indent, [u], whitespace, text);
    NewEmptyRow(Append(st.rows, [u]), indent, whitespace, longer);
    NewEmptyRow(st.rows + [indent + [u]], indent, whitespace, longer);
  }

  lemma {:induction false} UnitsHold(st: Wrapping, word: Text, columns: int, indent: Text, whitespace: bool, text: Text)
    requires st.rows != [] && Hold(st.rows, Keep(indent, whitespace), whitespace, text)
    ensures Hold(WrapUnits(st, word, columns, indent).rows, Keep(indent, whitespace), whitespace,
                 text + Keep(word, whitespace))
    decreases |word|
  {
    hide Hold, WrapUnit;
    if word != [] {
      var u, rest := [word[0]], word[1..];
      var st1 := WrapUnit(st, word[0], |word| > 1, columns, indent);
      UnitHolds(st, word[0], |word| > 1, columns, indent, whitespace, text);
      UnitsHold(st1, rest, columns, indent, whitespace, text + Keep(u, whitespace));
      assert word == u + rest;
      KeepConcat(u, rest, whitespace);
      assert text + Keep(u, whitespace) + Keep(rest, whitespace) == text + Keep(word, whitespace);
    } else {
      assert text + Keep(word, whitespace) == text;
    }
  }

  /** A row that begins with a visible indent, or that visible characters are added to, stays visible. */
  lemma {:induction false} UnitsStayVisible(st: Wrapping, word: Text, columns: int, indent: Text)
    requires st.rows != [] && Width(indent) > 0 && st.visible >= 0 && st.visible + Width(word) > 0
    ensures WrapUnits(st, word, columns, indent).visible > 0
    decreases |word|
  {
    hide Append;
    if word != [] {
      UnitsStayVisible(WrapUnit(st, word[0], |word| > 1, columns, indent), word[1..], columns, indent);
    }
  }

  /** Rows are only merged when nothing of the last one is visible, which an indent of some width prevents. */
  lemma WordHolds(rows: seq<Text>, word: Text, columns: int, indent: Text, whitespace: bool, text: Text)
    requires rows != [] && Hold(rows, Keep(indent, whitespace), whitespace, text)
    requires Keep(indent, whitespace) == [] || (Width(indent) > 0 && Width(Last(rows)) + Width(word) > 0)
    ensures Hold(WrappedWord(rows, word, columns, indent), Keep(indent, whitespace), whitespace,
                 text + Keep(word, whitespace))
  {
    hide Hold, Keep, Width, WrapUnits;
    var start := Wrapping(rows, Width(Last(rows)));
    var st, longer := WrapUnits(start, word, columns, indent), text + Keep(word, whitespace);
    UnitsHold(start, word, columns, indent, whitespace, text);
    if Keep(indent, whitespace) == [] {
      if |st.rows| > 1 {
        MergeHolds(st.rows, whitespace, longer);
      }
    } else {
      UnitsStayVisible(start, word, columns, indent);
    }
  }

  lemma MergeHolds(rows: seq<Text>, whitespace: bool, text: Text)
    requires |rows| > 1 && Hold(rows, [], whitespace, text)
    ensures Hold(Append(rows[..|rows| - 1], Last(rows)), [], whitespace, text)
  {
    hide Hold, Keep, Bodies;
    var n := |rows| - 1;
    var front := rows[..n];
    assert rows == front + [rows[n]];
    HoldSplit(front, rows[n], [], whitespace, text);
    AppendHolds(front, rows[n], [], whitespace, Bodies(front, [], whitespace));
  }

  // ---------------------------------------------------------------- placing words

  lemma {:induction false} TrimStartContent(s: Text)
    ensures Keep(TrimStart(s), false) == Keep(s, false)
  {
    if s != [] && IsWhitespace(s[0]) {
      TrimStartContent(s[1..]);
    }
  }

  lemma {:induction false} TrimRightContent(s: Text)
    ensures Keep(TrimRight(s), false) == Keep(s, false)
  {
    if s != [] {
      var n := |s| - 1;
      assert s == s[..n] + [s[n]];
      KeepConcat(s[..n], [s[n]], false);
      TrimRightContent(s[..n]);
      KeepSpace();
      KeepConcat(TrimRight(s[..n]), [s[n]], false);
    }
  }

  /** Trimming only drops whitespace, so it is harmless unless whitespace is to be kept. */
  lemma TrimmedHolds(rows: seq<Text>, trim: bool, mark: Text, whitespace: bool, text: Text)
    requires rows != [] && Hold(rows, mark, whitespace, text) && (whitespace ==> !trim)
    ensures Hold(if trim then rows[|rows| - 1 := TrimStart(Last(rows))] else rows, mark, whitespace, text)
  {
    hide Hold, TrimStart;
    if trim {
      TrimStartContent(Last(rows));
      assert Keep(Last(rows), false) + Keep([], false) == Keep(Last(rows), false) && text + Keep([], false) == text;
      LastRowChanges(rows, TrimStart(Last(rows)), [], mark, whitespace, text);
    }
  }

  /**
   Text stays with its row when the indent leaves no mark or has some width, and in soft mode, which never
   breaks words.
   */
  predicate Tidy(columns: int, o: Options, whitespace: bool) {
    Keep(o.indent, whitespace) == [] || (Width(o.indent) > 0 && columns >= 0) || (o.wordWrap && !o.hard)
  }

  /** What a word adds to the text: the space before it may be left out only when whitespace does not count. */
  function Added(index: nat, word: Text, whitespace: bool): Text {
    (if index == 0 then [] else Keep([SPACE], whitespace)) + Keep(word, whitespace)
  }

  lemma SpaceHolds(rows: seq<Text>, index: nat, gap: bool, mark: Text, whitespace: bool, text: Text)
    requires rows != [] && Hold(rows, mark, whitespace, text)
    requires if gap then index != 0 else index == 0 || !whitespace
    ensures Hold(if gap then Append(rows, [SPACE]) else rows, mark, whitespace, text + Added(index, [], whitespace))
  {
    hide Hold, Width;
    KeepSpace();
    AppendHolds(rows, [SPACE], mark, whitespace, text);
    assert Keep([SPACE], whitespace) + [] == Keep([SPACE], whitespace) && text + [] == text;
  }

  /** The word is added to the open row or to a new one, in one piece or broken. */
  lemma WordGoesSomewhere(open: seq<Text>, word: Text, columns: int, o: Options, whitespace: bool, text: Text)
    requires open != [] && Hold(open, Keep(o.indent, whitespace), whitespace, text) && Tidy(columns, o, whitespace)
    ensures var mark, longer := Keep(o.indent, whitespace), text + Keep(word, whitespace);
            && Hold(Append(open, word), mark, whitespace, longer)
            && Hold(Append(open + [o.indent], word), mark, whitespace, longer)
            && (!(o.wordWrap && !o.hard) && (columns >= 0 ==> Width(Last(open)) + Width(word) > 0) ==>
                  Hold(WrappedWord(open, word, columns, o.indent), mark, whitespace, longer))
            && (!(o.wordWrap && !o.hard) ==>
                  Hold(WrappedWord(open + [o.indent], word, columns, o.indent), mark, whitespace, longer))
  {
    hide Hold, Keep, Width, WrappedWord;
    var mark := Keep(o.indent, whitespace);
    NewEmptyRow(open, o.indent, whitespace, text);
    AppendHolds(open, word, mark, whitespace, text);
    AppendHolds(open + [o.indent], word, mark, whitespace, text);
    if !(o.wordWrap && !o.hard) {
      if columns >= 0 ==> Width(Last(open)) + Width(word) > 0 {
        WordHolds(open, word, columns, o.indent, whitespace, text);
      }
      WordHolds(open + [o.indent], word, columns, o.indent, whitespace, text);
    }
  }

  lemma PlaceHolds(rows: seq<Text>, index: nat, word: Text, columns: int, o: Options, whitespace: bool, text: Text)
    requires rows != [] && Hold(rows, Keep(o.indent, whitespace), whitespace, text)
    requires Tidy(columns, o, whitespace) && (whitespace ==> !o.trim)
    ensures Hold(PlaceWord(rows, index, word, columns, o), Keep(o.indent, whitespace), whitespace,
                 text + Added(index, word, whitespace))
  {
    hide Hold, Keep, TrimStart, Width, StartsOnNewRow, WrappedWord, Added, Tidy;
    var mark, trimmed := Keep(o.indent, whitespace), if o.trim then rows[|rows| - 1 := TrimStart(Last(rows))] else rows;
    TrimmedHolds(rows, o.trim, mark, whitespace, text);
    NewEmptyRow(trimmed, o.indent, whitespace, text);
    var full := index != 0 && Width(Last(trimmed)) >= columns && (!o.wordWrap || !o.trim);
    var started := if full then trimmed + [o.indent] else trimmed;
    var start := Width(Last(started));
    var gap := index != 0 && (start > 0 || !o.trim);
    var open := if gap then Append(started, [SPACE]) else started;
    SpaceHolds(started, index, gap, mark, whitespace, text);
    WidthConcat(Last(started), [SPACE]);
    SpaceIsOneWide();
    var before := text + Added(index, [], whitespace);
    WordGoesSomewhere(open, word, columns, o, whitespace, before);
    AddedInTwo(index, word, whitespace, text);
  }

  lemma SpaceIsOneWide()
    ensures Width([SPACE]) == 1
  {
    assert [SPACE][1..] == [];
  }

  lemma AddedInTwo(index: nat, word: Text, whitespace: bool, text: Text)
    ensures text + Added(index, [], whitespace) + Keep(word, whitespace) == text + Added(index, word, whitespace)
  {
  }

  lemma {:induction false} PlacedHolds(words: seq<Text>, columns: int, o: Options, whitespace: bool)
    requires Tidy(columns, o, whitespace) && (whitespace ==> !o.trim)
    ensures Hold(PlaceWords(words, columns, o), Keep(o.indent, whitespace), whitespace,
                 Keep(Join(words, SPACE), whitespace))
  {
    if words == [] {
      EmptyRowHolds(Keep(o.indent, whitespace), whitespace);
    } else {
      hide Hold, Keep, Join, PlaceWord, Tidy, Added;
      var n := |words| - 1;
      var front, word := words[..n], words[n];
      assert words == front + [word];
      PlacedHolds(front, columns, o, whitespace);
      PlaceHolds(PlaceWords(front, columns, o), n, word, columns, o, whitespace, Keep(Join(front, SPACE), whitespace));
      JoinAdds(front, word, whitespace);
    }
  }

  lemma EmptyRowHolds(mark: Text, whitespace: bool)
    ensures Hold([[]], mark, whitespace, [])
  {
    var rows: seq<Text> := [[]];
    assert rows[..0] == [] && Bodies(rows[..0], mark, whitespace) == [] && Keep(rows[0], whitespace) == [];
  }

  lemma JoinAdds(front: seq<Text>, word: Text, whitespace: bool)
    ensures Keep(Join(front + [word], SPACE), whitespace)
            == Keep(Join(front, SPACE), whitespace) + Added(|front|, word, whitespace)
  {
    hide Keep, Join;
    JoinNewest(front, word, SPACE);
    KeepConcat(Join(front, SPACE) + [SPACE], word, whitespace);
    KeepConcat(Join(front, SPACE), [SPACE], whitespace);
    KeepNothing(whitespace);
  }

  lemma KeepNothing(whitespace: bool)
    ensures Keep([], whitespace) == [] && Join([], SPACE) == []
  {
  }

  lemma {:induction false} TrimRowsHold(rows: seq<Text>, mark: Text, text: Text)
    requires Hold(rows, mark, false, text)
    ensures Hold(TrimRows(rows), mark, false, text)
  {
    hide Keep, TrimRight;
    if rows == [] {
      assert TrimRows(rows) == rows;
    } else {
      var n := |rows| - 1;
      var front := rows[..n];
      assert rows == front + [rows[n]];
      assert TrimRows(rows) == TrimRows(front) + [TrimRight(rows[n])];
      HoldSplit(front, rows[n], mark, false, text);
      TrimRowsHold(front, mark, Bodies(front, mark, false));
      TrimRightContent(rows[n]);
      HoldSplit(TrimRows(front), TrimRight(rows[n]), mark, false, text);
    }
  }

  // ---------------------------------------------------------------- exactly when text stays in place

  /** Every row but the first begins with the indent, and beside it the rows hold the text. */
  ghost predicate KeepsText(s: Text, columns: int, o: Options) {
    var whitespace := !o.trim;
    Hold(FinalRows(s, columns, o), Keep(o.indent, whitespace), whitespace, Keep(s, whitespace))
  }

  /** Trimming may drop whitespace anywhere; nothing else is lost, added or moved. */
  lemma TidyKeepsTheText(s: Text, columns: int, o: Options)
    requires Tidy(columns, o, !o.trim)
    ensures KeepsText(s, columns, o)
  {
    hide Hold, Keep, Tidy;
    JoinSplit(s, SPACE);
    PlacedHolds(Split(s, SPACE), columns, o, !o.trim);
    if o.trim {
      TrimRowsHold(PlaceWords(Split(s, SPACE), columns, o), Keep(o.indent, false), Keep(s, false));
    }
  }

  /** Without trimming nothing at all is dropped. */
  lemma UntrimmedRowsAreTheText(s: Text, columns: int, o: Options)
    requires !o.trim && Tidy(columns, o, true)
    ensures var rows := FinalRows(s, columns, o);
            && (forall i | 0 < i < |rows| :: o.indent <= rows[i])
            && Bodies(rows, o.indent, true) == s
  {
    hide FinalRows, Bodies, Keep, Tidy;
    TidyKeepsTheText(s, columns, o);
    KeepAll(s);
    KeepAll(o.indent);
    var rows := FinalRows(s, columns, o);
    forall i | 0 < i < |rows| ensures o.indent <= rows[i] {
      KeepAll(rows[i]);
    }
  }

  // ---------------------------------------------------------------- an indent without width

  /** A character without width, such as a combining accent. */
  const ACCENT := Glyph('\U{0301}', 0)

  /** The rows of the text a + b + [ACCENT], up to whitespace where it is trimmed. */
  ghost predicate MovedRows(rows: seq<Text>, a: Text, b: Text, indent: Text, whitespace: bool) {
    && |rows| == 2 && Keep(rows[0], whitespace) == Keep(a, whitespace)
    && Keep(rows[1], whitespace) == Keep(indent + b + indent + [ACCENT], whitespace)
  }

  /** What two rows hold when a second indent has moved into the second one. */
  lemma MovedMark(rows: seq<Text>, a: Text, b: Text, indent: Text, whitespace: bool)
    requires MovedRows(rows, a, b, indent, whitespace) && Keep(indent, whitespace) != []
    ensures !Hold(rows, Keep(indent, whitespace), whitespace, Keep(a + b + [ACCENT], whitespace))
  {
    hide Keep;
    var mark, last := Keep(indent, whitespace), Keep([ACCENT], whitespace);
    KeepConcat(indent + b + indent, [ACCENT], whitespace);
    KeepConcat(indent + b, indent, whitespace);
    KeepConcat(indent, b, whitespace);
    KeepConcat(a + b, [ACCENT], whitespace);
    KeepConcat(a, b, whitespace);
    BodiesOfTwo(rows, mark, whitespace);
    assert |Body(rows[1], false, mark, whitespace)| == |Keep(b, whitespace)| + |mark| + |last|;
  }

  lemma BodiesOfTwo(rows: seq<Text>, mark: Text, whitespace: bool)
    requires |rows| == 2
    ensures Bodies(rows, mark, whitespace) == Keep(rows[0], whitespace) + Body(rows[1], false, mark, whitespace)
  {
    hide Keep;
    assert rows[..1][..0] == [] && rows[..1][0] == rows[0];
    assert Bodies(rows[..1], mark, whitespace) == [] + Body(rows[0], true, mark, whitespace);
  }

  /** The rows of a word whose last character starts a row of its own, and is then merged with its indent. */
  lemma BrokenBeforeAccent(columns: nat, indent: Text) returns (a: Text, b: Text)
    requires Width(indent) == 0
    ensures forall u | u in a + b + [ACCENT] :: u == X || u == ACCENT
    ensures SpaceFree(a + b + [ACCENT]) && Width(a + b + [ACCENT]) == if columns == 0 then 1 else 2 * columns
    ensures WrappedWord([[]], a + b + [ACCENT], columns, indent) == [a, indent + b + indent + [ACCENT]]
  {
    a, b := Xs(columns), Xs(if columns == 0 then 1 else columns);
    var s := a + b + [ACCENT];
    var rows: seq<Text> := [[]];
    NarrowWidth(a + b);
    WidthConcat(a + b, [ACCENT]);
    assert Width([ACCENT]) == 0 by {
      assert [ACCENT][1..] == [];
    }
    BrokenTwice(a, b, columns, indent);
    assert [a, indent + b, indent + [ACCENT]][..2] == [a, indent + b];
    assert indent + b + (indent + [ACCENT]) == indent + b + indent + [ACCENT];
  }

  lemma BrokenTwice(a: Text, b: Text, columns: nat, indent: Text)
    requires Width(indent) == 0 && a == Xs(columns) && b == Xs(if columns == 0 then 1 else columns)
    ensures WrapUnits(Wrapping([[]], 0), a + b + [ACCENT], columns, indent)
            == Wrapping([a, indent + b, indent + [ACCENT]], 0)
  {
    hide WrapUnits, Width;
    if columns == 0 {
      assert a + b + [ACCENT] == [X, ACCENT] && a == [] && b == [X];
      AccentAlone(indent);
    } else {
      FillRow(Wrapping([[]], 0), columns, b + [ACCENT], columns, indent);
      assert [] + a == a && a + (b + [ACCENT]) == a + b + [ACCENT] && Append([[]], a) + [indent] == [a, indent];
      FillRow(Wrapping([a, indent], 0), columns, [ACCENT], columns, indent);
      assert Append([a, indent], b) + [indent] == [a, indent + b, indent];
      LoneAccent([a, indent + b, indent], columns, indent);
      assert Append([a, indent + b, indent], [ACCENT]) == [a, indent + b, indent + [ACCENT]];
    }
  }

  lemma LoneAccent(rows: seq<Text>, columns: nat, indent: Text)
    requires rows != []
    ensures WrapUnits(Wrapping(rows, 0), [ACCENT], columns, indent) == Wrapping(Append(rows, [ACCENT]), 0)
  {
    assert [ACCENT][1..] == [];
  }

  lemma AccentAlone(indent: Text)
    requires Width(indent) == 0
    ensures WrapUnits(Wrapping([[]], 0), [X, ACCENT], 0, indent) == Wrapping([[], indent + [X], indent + [ACCENT]], 0)
  {
    var rows: seq<Text> := [[]];
    assert [X, ACCENT][1..] == [ACCENT] && [ACCENT][1..] == [];
    assert rows + [indent + [X]] == [[], indent + [X]];
    assert [[], indent + [X]] + [indent + [ACCENT]] == [[], indent + [X], indent + [ACCENT]];
    var st := WrapUnit(Wrapping(rows, 0), X, true, 0, indent);
    assert st == Wrapping([[], indent + [X]], 1);
    assert WrapUnits(st, [ACCENT], 0, indent) == WrapUnit(st, ACCENT, false, 0, indent);
    assert WrapUnits(Wrapping(rows, 0), [X, ACCENT], 0, indent) == WrapUnits(st, [ACCENT], 0, indent);
  }

  /** The only word of a text that is longer than the columns, where long words are broken. */
  lemma PlaceLongWord(word: Text, columns: nat, o: Options)
    requires Width(word) == (if columns == 0 then 1 else 2 * columns) && SpaceFree(word) && !(o.wordWrap && !o.hard)
    ensures PlaceWords(Split(word, SPACE), columns, o) == WrappedWord([[]], word, columns, o.indent)
  {
    hide WrappedWord, Split;
    SplitWord(word);
    assert [word][..0] == [] && PlaceWords([], columns, o) == [[]];
    var rows: seq<Text> := [[]];
    assert rows[|rows| - 1 := TrimStart(Last(rows))] == rows;
    if columns > 0 {
      StartsHereAtZero(Width(word), columns);
    }
  }

  lemma UntidyRows(columns: nat, o: Options) returns (a: Text, b: Text)
    requires !Tidy(columns, o, !o.trim)
    ensures MovedRows(FinalRows(a + b + [ACCENT], columns, o), a, b, o.indent, !o.trim)
    ensures forall u | u in a + b + [ACCENT] :: u == X || u == ACCENT
  {
    hide WrappedWord, Split, Keep, Hold, PlaceWords;
    a, b := BrokenBeforeAccent(columns, o.indent);
    PlaceLongWord(a + b + [ACCENT], columns, o);
    TrimRightContent(a);
    TrimRightContent(o.indent + b + o.indent + [ACCENT]);
  }

  lemma InvisibleMarkMoves(columns: nat, o: Options) returns (s: Text)
    requires !Tidy(columns, o, !o.trim)
    ensures !KeepsText(s, columns, o)
  {
    hide FinalRows, Keep, Hold;
    var a, b := UntidyRows(columns, o);
    s := a + b + [ACCENT];
    MovedMark(FinalRows(s, columns, o), a, b, o.indent, !o.trim);
  }

  /**
   Exactly when every text stays with its rows: in soft mode, and otherwise when the indent has some width or
   leaves no mark.  An indent of escapes alone is not safe: broken words can carry it into the middle of a row.
   */
  lemma WrappingKeepsTheTextIff(columns: nat, o: Options)
    ensures (forall s :: KeepsText(s, columns, o)) <==> Tidy(columns, o, !o.trim)
  {
    hide KeepsText, Tidy;
    if Tidy(columns, o, !o.trim) {
      forall s ensures KeepsText(s, columns, o) {
        TidyKeepsTheText(s, columns, o);
      }
    } else {
      var s := InvisibleMarkMoves(columns, o);
    }
  }
}
