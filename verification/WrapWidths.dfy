/**
 How wide the rows get: exactly which options keep every row of every text within the given columns.
 Characters may have width 0 or 1, and the text and the indent may hold escapes.
 */
module WrapWidths {
  import opened WrapAnsi
  import opened HardWrap

  /** Rows may run over by spaces that are trimmed in the end, when rows are trimmed and words are kept whole. */
  predicate Loose(o: Options) {
    o.trim && o.wordWrap
  }

  predicate Fits(row: Text, columns: int, loose: bool) {
    Width(if loose then TrimRight(row) else row) <= columns
  }

  predicate AllFit(rows: seq<Text>, columns: int, loose: bool) {
    forall row | row in rows :: Fits(row, columns, loose)
  }

  // ---------------------------------------------------------------- trimming

  lemma WidthOne(u: Unit)
    ensures Width([u]) == UnitWidth(u)
  {
    assert [u][1..] == [];
  }

  lemma {:induction false} TrimRightNarrows(row: Text)
    ensures Width(TrimRight(row)) <= Width(row)
  {
    if row != [] {
      var n := |row| - 1;
      assert row == row[..n] + [row[n]];
      WidthConcat(row[..n], [row[n]]);
      WidthConcat(TrimRight(row[..n]), [row[n]]);
      TrimRightNarrows(row[..n]);
    }
  }

  lemma {:induction false} WidthOfSuffix(row: Text, k: nat)
    requires k <= |row|
    ensures Width(row[k..]) <= Width(row)
  {
    WidthConcat(row[..k], row[k..]);
    assert row == row[..k] + row[k..];
  }

  /** Dropping the first character of a row does not make its trimmed form wider. */
  lemma {:induction false} TrimRightOfTail(row: Text)
    requires row != []
    ensures Width(TrimRight(row[1..])) <= Width(TrimRight(row))
  {
    var n := |row| - 1;
    if n == 0 {
      assert row[1..] == [];
    } else {
      assert row[1..][..n - 1] == row[..n][1..] && row[1..][n - 1] == row[n];
      TrimRightOfTail(row[..n]);
      WidthConcat(TrimRight(row[..n]), [row[n]]);
      WidthConcat(TrimRight(row[..n][1..]), [row[n]]);
      if row[n] != SPACE && UnitWidth(row[n]) != 0 {
        WidthOfSuffix(row, 1);
      }
    }
  }

  lemma {:induction false} TrimStartFits(row: Text, columns: int, loose: bool)
    requires Fits(row, columns, loose)
    ensures Fits(TrimStart(row), columns, loose)
  {
    if row != [] && IsWhitespace(row[0]) {
      TrimRightOfTail(row);
      WidthOfSuffix(row, 1);
      TrimStartFits(row[1..], columns, loose);
    }
  }

  lemma ShortFits(row: Text, columns: int, loose: bool)
    requires Width(row) <= columns
    ensures Fits(row, columns, loose)
  {
    TrimRightNarrows(row);
  }

  lemma {:induction false} UnitsAreNarrower(s: Text)
    ensures forall u | u in s :: UnitWidth(u) <= Width(s)
  {
    if s != [] {
      UnitsAreNarrower(s[1..]);
      assert s == [s[0]] + s[1..];
    }
  }

  /** Text without width at the end of a row does not matter. */
  lemma InvisibleFits(row: Text, tail: Text, columns: int, loose: bool)
    requires Fits(row, columns, loose) && Width(tail) == 0
    ensures Fits(row + tail, columns, loose)
  {
    UnitsAreNarrower(tail);
    TrimRightKeepsEscapes(row, tail);
    WidthConcat(TrimRight(row), tail);
    WidthConcat(row, tail);
  }

  lemma ReplaceLastFits(rows: seq<Text>, row: Text, columns: int, loose: bool)
    requires rows != [] && AllFit(rows, columns, loose) && Fits(row, columns, loose)
    ensures AllFit(rows[|rows| - 1 := row], columns, loose)
  {
  }

  lemma AddRowFits(rows: seq<Text>, row: Text, columns: int, loose: bool)
    requires AllFit(rows, columns, loose) && Width(row) <= columns
    ensures AllFit(rows + [row], columns, loose)
  {
    hide Fits;
    ShortFits(row, columns, loose);
  }

  lemma AppendFits(rows: seq<Text>, s: Text, columns: int, loose: bool)
    requires rows != [] && AllFit(rows, columns, loose)
    requires Width(Last(rows)) + Width(s) <= columns || Width(s) == 0
    ensures AllFit(Append(rows, s), columns, loose)
  {
    hide Fits;
    assert Last(rows) in rows;
    WidthConcat(Last(rows), s);
    if Width(s) == 0 {
      InvisibleFits(Last(rows), s, columns, loose);
    } else {
      ShortFits(Last(rows) + s, columns, loose);
    }
    ReplaceLastFits(rows, Last(rows) + s, columns, loose);
  }

  // ---------------------------------------------------------------- broken words

  /** Every character of the word can stand beside the indent. */
  predicate FitsBeside(word: Text, columns: int, indent: Text) {
    forall u | u in word :: UnitWidth(u) + Width(indent) <= columns
  }

  lemma {:induction false} UnitsFit(st: Wrapping, word: Text, columns: int, indent: Text, loose: bool)
    requires st.rows != [] && AllFit(st.rows, columns, loose) && st.visible == Width(Last(st.rows))
    requires FitsBeside(word, columns, indent)
    ensures var st' := WrapUnits(st, word, columns, indent);
            AllFit(st'.rows, columns, loose) && st'.visible == Width(Last(st'.rows))
    decreases |word|
  {
    if word != [] {
      hide AllFit, Fits, TrimRight;
      var u := word[0];
      assert u in word && forall v | v in word[1..] :: v in word;
      WidthOne(u);
      WidthConcat(Last(st.rows), [u]);
      WidthConcat(indent, [u]);
      UnitFits(st, u, |word| > 1, columns, indent, loose);
      UnitsFit(WrapUnit(st, u, |word| > 1, columns, indent), word[1..], columns, indent, loose);
    }
  }

  lemma UnitFits(st: Wrapping, u: Unit, more: bool, columns: int, indent: Text, loose: bool)
    requires st.rows != [] && AllFit(st.rows, columns, loose) && st.visible == Width(Last(st.rows))
    requires UnitWidth(u) + Width(indent) <= columns
    ensures var st' := WrapUnit(st, u, more, columns, indent);
            AllFit(st'.rows, columns, loose) && st'.visible == Width(Last(st'.rows))
  {
    hide AllFit, Width;
    WidthOne(u);
    WidthConcat(Last(st.rows), [u]);
    WidthConcat(indent, [u]);
    if st.visible + UnitWidth(u) <= columns {
      AppendFits(st.rows, [u], columns, loose);
      AddRowFits(Append(st.rows, [u]), indent, columns, loose);
    } else {
      AddRowFits(st.rows, indent + [u], columns, loose);
      AddRowFits(st.rows + [indent + [u]], indent, columns, loose);
    }
  }

  lemma WrapWordFits(rows: seq<Text>, word: Text, columns: int, indent: Text, loose: bool)
    requires rows != [] && AllFit(rows, columns, loose) && FitsBeside(word, columns, indent)
    ensures AllFit(WrappedWord(rows, word, columns, indent), columns, loose)
  {
    hide Fits, Width, WrapUnits;
    var start := Wrapping(rows, Width(Last(rows)));
    var st := WrapUnits(start, word, columns, indent);
    UnitsFit(start, word, columns, indent, loose);
    var n := |st.rows|;
    if n > 1 && st.visible == 0 {
      assert forall row | row in st.rows[..n - 1] :: row in st.rows;
      AppendFits(st.rows[..n - 1], Last(st.rows), columns, loose);
    }
  }

  // ---------------------------------------------------------------- whole texts

  /** The options with which rows stay within the columns. */
  predicate Bounded(columns: int, o: Options) {
    columns > 0 && if o.wordWrap then o.hard && Width(o.indent) == 0 else Width(o.indent) < columns
  }

  lemma TrimmedFits(rows: seq<Text>, columns: int, o: Options)
    requires rows != [] && AllFit(rows, columns, Loose(o))
    ensures AllFit(if o.trim then rows[|rows| - 1 := TrimStart(Last(rows))] else rows, columns, Loose(o))
  {
    hide Fits, TrimStart;
    assert Last(rows) in rows;
    TrimStartFits(Last(rows), columns, Loose(o));
    ReplaceLastFits(rows, TrimStart(Last(rows)), columns, Loose(o));
  }

  /** The space before a word fits, or is trimmed in the end. */
  lemma SpaceFits(rows: seq<Text>, columns: int, o: Options)
    requires rows != [] && AllFit(rows, columns, Loose(o))
    requires Loose(o) || Width(Last(rows)) < columns
    ensures AllFit(Append(rows, [SPACE]), columns, Loose(o))
    ensures Width(Last(Append(rows, [SPACE]))) == Width(Last(rows)) + 1
  {
    hide Width;
    var row := Last(rows);
    assert row in rows;
    WidthOne(SPACE);
    WidthConcat(row, [SPACE]);
    assert (row + [SPACE])[..|row|] == row;
    ReplaceLastFits(rows, row + [SPACE], columns, Loose(o));
  }

  /** The rows on which a word can be put: the open row or a new one, in one piece or broken. */
  lemma WordFitsSomewhere(open: seq<Text>, word: Text, columns: int, o: Options)
    requires open != [] && AllFit(open, columns, Loose(o)) && Bounded(columns, o)
    requires FitsBeside(word, columns, o.indent)
    ensures AllFit(WrappedWord(open, word, columns, o.indent), columns, Loose(o))
    ensures AllFit(WrappedWord(open + [o.indent], word, columns, o.indent), columns, Loose(o))
    ensures Width(Last(open)) + Width(word) <= columns || Width(word) == 0
        ==> AllFit(Append(open, word), columns, Loose(o))
    ensures Width(o.indent) + Width(word) <= columns ==> AllFit(Append(open + [o.indent], word), columns, Loose(o))
  {
    hide AllFit, WrappedWord;
    AddRowFits(open, o.indent, columns, Loose(o));
    WrapWordFits(open, word, columns, o.indent, Loose(o));
    WrapWordFits(open + [o.indent], word, columns, o.indent, Loose(o));
    if Width(Last(open)) + Width(word) <= columns || Width(word) == 0 {
      AppendFits(open, word, columns, Loose(o));
    }
    if Width(o.indent) + Width(word) <= columns {
      AppendFits(open + [o.indent], word, columns, Loose(o));
    }
  }

  lemma PlaceWordFits(rows: seq<Text>, index: nat, word: Text, columns: int, o: Options)
    requires rows != [] && AllFit(rows, columns, Loose(o)) && Bounded(columns, o)
    requires FitsBeside(word, columns, o.indent)
    ensures AllFit(PlaceWord(rows, index, word, columns, o), columns, Loose(o))
  {
    hide AllFit, TrimStart, Width, WrappedWord, FitsBeside, StartsOnNewRow, Append;
    TrimmedFits(rows, columns, o);
    var trimmed := if o.trim then rows[|rows| - 1 := TrimStart(Last(rows))] else rows;
    var width := Width(Last(trimmed));
    var full := index != 0 && width >= columns && (!o.wordWrap || !o.trim);
    AddRowFits(trimmed, o.indent, columns, Loose(o));
    var started := if full then trimmed + [o.indent] else trimmed;
    var start := Width(Last(started));
    var gap := index != 0 && (start > 0 || !o.trim);
    if gap {
      SpaceFits(started, columns, o);
    }
    var open := if gap then Append(started, [SPACE]) else started;
    assert open != [] by { AppendLength(started, [SPACE]); }
    assert Width(Last(open)) == if gap then start + 1 else start;
    LastFits(open, columns, o);
    WordFitsSomewhere(open, word, columns, o);
  }

  lemma AppendLength(rows: seq<Text>, s: Text)
    requires rows != []
    ensures |Append(rows, s)| == |rows|
  {
  }

  lemma LastFits(rows: seq<Text>, columns: int, o: Options)
    requires rows != [] && AllFit(rows, columns, Loose(o))
    ensures !Loose(o) ==> Width(Last(rows)) <= columns
  {
    assert Last(rows) in rows;
  }

  lemma {:induction false} PlaceWordsFits(words: seq<Text>, columns: int, o: Options)
    requires (forall w | w in words :: FitsBeside(w, columns, o.indent)) && Bounded(columns, o)
    ensures AllFit(PlaceWords(words, columns, o), columns, Loose(o))
  {
    hide FitsBeside, PlaceWord;
    if words != [] {
      var n := |words| - 1;
      assert words[n] in words && forall w | w in words[..n] :: w in words;
      PlaceWordsFits(words[..n], columns, o);
      PlaceWordFits(PlaceWords(words[..n], columns, o), n, words[n], columns, o);
    }
  }

  lemma {:induction false} WordsFitBeside(s: Text, columns: int, indent: Text)
    requires FitsBeside(s, columns, indent)
    ensures forall w | w in Split(s, SPACE) :: FitsBeside(w, columns, indent)
  {
    if s != [] {
      assert s[0] in s && forall u | u in s[1..] :: u in s;
      WordsFitBeside(s[1..], columns, indent);
      var rest := Split(s[1..], SPACE);
      assert rest[0] in rest;
    }
  }

  /** No row of a text exceeds the columns, when each of its characters can stand beside the indent. */
  lemma RowsFit(s: Text, columns: int, o: Options, i: nat)
    requires FitsBeside(s, columns, o.indent) && Bounded(columns, o)
    requires i < |FinalRows(s, columns, o)|
    ensures Width(FinalRows(s, columns, o)[i]) <= columns
  {
    hide FitsBeside, Bounded;
    var rows := PlaceWords(Split(s, SPACE), columns, o);
    WordsFitBeside(s, columns, o.indent);
    PlaceWordsFits(Split(s, SPACE), columns, o);
    assert rows[i] in rows;
    TrimRightNarrows(rows[i]);
  }

  // ---------------------------------------------------------------- texts that do not fit

  ghost predicate FitsAllText(columns: int, o: Options) {
    forall s: Text, i | Slim(s) && 0 <= i < |FinalRows(s, columns, o)| :: Width(FinalRows(s, columns, o)[i]) <= columns
  }

  /** A text whose last row ends in something visible, past the columns, before trimming and so after it. */
  lemma LastRowSticksOut(s: Text, columns: int, o: Options, front: Text, end: Text)
    requires Slim(s) && Last(PlaceWords(Split(s, SPACE), columns, o)) == front + end
    requires SpaceFree(end) && Width(end) > 0 && Width(front) + Width(end) > columns
    ensures !FitsAllText(columns, o)
  {
    hide PlaceWords, Split, Width;
    var rows := PlaceWords(Split(s, SPACE), columns, o);
    TrimRightStops(front, end);
    WidthConcat(front, end);
    assert FinalRows(s, columns, o)[|rows| - 1] == front + end;
  }

  lemma LettersWidth(n: nat)
    ensures Slim(Xs(n)) && SpaceFree(Xs(n)) && Width(Xs(n)) == n
    ensures Slim([X, SPACE] + Xs(n))
  {
    NarrowWidth(Xs(n));
  }

  /** A text of one word. */
  lemma OneWord(n: nat, columns: int, o: Options)
    ensures PlaceWords(Split(Xs(n), SPACE), columns, o) == PlaceWord([[]], 0, Xs(n), columns, o)
  {
    hide PlaceWord;
    SplitTwoWords(n);
    assert [Xs(n)][..0] == [] && PlaceWords([], columns, o) == [[]];
  }

  /** In no columns a single letter sticks out. */
  lemma LetterSticksOut(columns: int, o: Options)
    requires columns <= 0
    ensures !FitsAllText(columns, o)
  {
    var word := Xs(1);
    assert word == [X];
    OneWord(1, columns, o);
    LettersWidth(1);
    var rows := PlaceWord([[]], 0, word, columns, o);
    LetterOnNewRow([[]], columns, o.indent);
    LetterOnNewRow([[], o.indent], columns, o.indent);
    assert [] + word == word;
    if Last(rows) == word {
      LastRowSticksOut(word, columns, o, [], word);
    } else {
      LastRowSticksOut(word, columns, o, o.indent, word);
    }
  }

  lemma LetterOnNewRow(rows: seq<Text>, columns: int, indent: Text)
    requires rows != [] && columns <= Width(Last(rows))
    ensures WrappedWord(rows, [X], columns, indent) == rows + [indent + [X]]
  {
    hide Width;
    var start := Wrapping(rows, Width(Last(rows)));
    var st := WrapUnit(start, X, false, columns, indent);
    assert st == Wrapping(rows + [indent + [X]], Width(indent) + 1);
    assert [X][1..] == [] && WrapUnits(start, [X], columns, indent) == WrapUnits(st, [], columns, indent) == st;
  }

  /** Soft mode keeps a word that is too long in one piece. */
  lemma SoftWordSticksOut(columns: nat, o: Options)
    requires columns > 0 && o.wordWrap && !o.hard
    ensures !FitsAllText(columns, o)
  {
    var word := Xs(columns + 1);
    OneWord(columns + 1, columns, o);
    LettersWidth(columns + 1);
    assert TrimStart([]) == [] && [] + word == word && Width([]) == 0;
    hide Width, PlaceWords, FinalRows, FitsAllText, TrimStart, TrimRight, Split;
    LastRowSticksOut(word, columns, o, [], word);
  }

  /** Hard mode puts a word exactly as long as the row beside the indent of a new row. */
  lemma IndentSticksOut(columns: nat, o: Options)
    requires columns > 0 && o.wordWrap && o.hard && Width(o.indent) > 0
    ensures !FitsAllText(columns, o)
  {
    hide PlaceWord, Width, TrimRight;
    var word, s := Xs(columns), [X, SPACE] + Xs(columns);
    SplitTwoWords(columns);
    LettersWidth(columns);
    assert [[X], word][..1] == [[X]] && [[X]][..0] == [];
    assert PlaceWords([], columns, o) == [[]];
    ShortWordFirst(columns, o);
    assert PlaceWords([[X]], columns, o) == [[X]];
    FullWordSecond(columns, o, word);
    LastRowSticksOut(s, columns, o, o.indent, word);
  }

  lemma ShortWordFirst(columns: nat, o: Options)
    requires columns > 0 && o.wordWrap && o.hard
    ensures PlaceWord([[]], 0, [X], columns, o) == [[X]]
  {
    NarrowWidth([X]);
    assert [] + [X] == [X];
  }

  lemma FullWordSecond(columns: nat, o: Options, word: Text)
    requires columns > 0 && o.wordWrap && o.hard && Width(word) == columns
    ensures Last(PlaceWord([[X]], 1, word, columns, o)) == o.indent + word
  {
    NarrowWidth([X]);
    assert TrimStart([X]) == [X];
    SpaceAdds([[X]]);
    SpaceAdds([[X], o.indent]);
  }

  /** Broken words stick out when the indent leaves no room. */
  lemma NoRoomSticksOut(columns: nat, o: Options)
    requires columns > 0 && !o.wordWrap && Width(o.indent) >= columns
    ensures !FitsAllText(columns, o)
  {
    hide WrappedWord;
    var word := Xs(columns + 1);
    OneWord(columns + 1, columns, o);
    LettersWidth(columns + 1);
    StartsHereAtZero(columns + 1, columns);
    var rows: seq<Text> := [[]];
    assert rows[|rows| - 1 := TrimStart(Last(rows))] == rows;
    assert PlaceWord(rows, 0, word, columns, o) == WrappedWord(rows, word, columns, o.indent);
    BrokenAtTheEnd(columns, o.indent);
    LettersWidth(1);
    LastRowSticksOut(word, columns, o, o.indent, Xs(1));
  }

  lemma BrokenAtTheEnd(columns: nat, indent: Text)
    requires columns > 0 && Width(indent) >= columns
    ensures Last(WrappedWord([[]], Xs(columns + 1), columns, indent)) == indent + Xs(1)
  {
    var rows: seq<Text> := [[]];
    assert Xs(columns + 1) == Xs(columns) + [X] && Xs(1) == [X] && [X][1..] == [];
    FillRow(Wrapping(rows, 0), columns, [X], columns, indent);
  }

  /**
   Exactly when no row of any text without wide characters exceeds the columns: in hard mode without an
   indent of any width, and whenever words need not be kept whole and the indent leaves room.
   */
  lemma RowsFitIff(columns: int, o: Options)
    ensures FitsAllText(columns, o)
            <==> columns > 0 && if o.wordWrap then o.hard && Width(o.indent) == 0 else Width(o.indent) < columns
  {
    if Bounded(columns, o) {
      forall s: Text, i | Slim(s) && 0 <= i < |FinalRows(s, columns, o)|
        ensures Width(FinalRows(s, columns, o)[i]) <= columns
      {
        RowsFit(s, columns, o, i);
      }
    } else if columns <= 0 {
      LetterSticksOut(columns, o);
    } else if !o.wordWrap {
      NoRoomSticksOut(columns, o);
    } else if o.hard {
      IndentSticksOut(columns, o);
    } else {
      SoftWordSticksOut(columns, o);
    }
  }
}
