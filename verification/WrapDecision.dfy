/**
 Where hard mode starts a long word: on the open row or on a new one.  Exactly when the decision, which does
 not reckon with the indent, is the one that takes the fewest rows, for every long word of every text.
 */
module WrapDecision {
  import opened WrapAnsi
  import opened HardWrap
  import opened GreedyWrap
  import opened WrapContent

  /** The decision is the one that takes the fewest rows, a new row being preferred when there is no difference. */
  ghost predicate StartsWell(rows: seq<Text>, word: Text, columns: nat, indent: Text)
    requires rows != []
  {
    StartsOnNewRow(Width(word), Width(Last(rows)), columns)
    <==> |WrappedWord(rows + [indent], word, columns, indent)| <= |WrappedWord(rows, word, columns, indent)|
  }

  lemma MisleadingQuotients(piece: nat, columns: nat, product: nat)
    requires 0 < piece < columns && product == piece * columns
    ensures product >= columns
    ensures (product + piece) / columns == piece && (product + piece - 1) / columns == piece
    ensures (product + piece - 1) / piece == columns && product / piece == columns
  {
    ProductAtLeast(piece, columns);
    DivIs(product + piece, columns, piece, piece);
    DivIs(product + piece - 1, columns, piece, piece - 1);
    assert product == columns * piece;
    DivIs(product + piece - 1, piece, columns, piece - 1);
    DivIs(product, piece, columns, 0);
  }

  lemma MisleadingNumbers(piece: nat, columns: nat, length: nat)
    requires 0 < piece < columns && length == piece * columns + piece + 1
    ensures length > columns && StartsOnNewRow(length, columns - 1, columns)
    ensures RowsAdded(length, 1, piece) == RowsAdded(length, piece, piece) == 1 + columns
  {
    MisleadingQuotients(piece, columns, length - piece - 1);
  }

  lemma FullRowNumbers(length: nat, rowLength: nat, columns: nat)
    requires length > columns > 0 && rowLength >= columns
    ensures StartsOnNewRow(length, rowLength, columns)
  {
    DivMonotone(length - 1, length - (columns - rowLength) - 1, columns);
  }

  /** Rows and a long word for which the decision does not reckon with the indent. */
  lemma RowMisleads(rows: seq<Text>, columns: nat, indent: Text) returns (length: nat)
    requires rows != [] && columns > 0 && Width(indent) > 0
    requires if Width(indent) < columns then Width(Last(rows)) == columns - 1 else Width(Last(rows)) >= columns
    ensures length > columns && !StartsWell(rows, Xs(length), columns, indent)
  {
    hide WrappedWord, Width, RowsAdded, StartsOnNewRow, Cut;
    var piece := columns - Width(indent);
    if piece > 0 {
      length := piece * columns + piece + 1;
      MisleadingNumbers(piece, columns, length);
    } else {
      length := columns + 1;
      FullRowNumbers(length, Width(Last(rows)), columns);
      AloneCounts(length, piece);
    }
    NarrowWidth(Xs(length));
    WrapWordLaws(rows, Xs(length), columns, indent);
    WrapWordLaws(rows + [indent], Xs(length), columns, indent);
  }

  lemma AloneCounts(length: nat, piece: int)
    requires length > 0 && piece <= 0
    ensures RowsAdded(length, 0, piece) == length
  {
  }

  lemma SomeRowMisleads(columns: nat, indent: Text) returns (rows: seq<Text>, word: Text)
    requires columns > 0 && Width(indent) > 0
    ensures rows != [] && Slim(word) && Width(word) > columns && !StartsWell(rows, word, columns, indent)
  {
    hide StartsWell, Width;
    var row := Xs(if Width(indent) < columns then columns - 1 else columns);
    NarrowWidth(row);
    rows := [row];
    var length := RowMisleads(rows, columns, indent);
    word := Xs(length);
    NarrowWidth(word);
  }

  ghost predicate AlwaysStartsWell(columns: nat, indent: Text) {
    forall rows, word | rows != [] && Slim(word) && Width(word) > columns :: StartsWell(rows, word, columns, indent)
  }

  /** For every row, also for rows that no text leads to, the decision is right exactly beside no indent. */
  lemma StartsWellIffNoIndent(columns: nat, indent: Text)
    requires columns > 0
    ensures AlwaysStartsWell(columns, indent) <==> Width(indent) == 0
  {
    hide Width, Slim, WrappedWord, StartsOnNewRow, FloorDiv;
    if Width(indent) == 0 {
      forall rows, word | rows != [] && Slim(word) && Width(word) > columns
        ensures StartsWell(rows, word, columns, indent)
      {
        StartsWhereItTakesFewestRows(rows, word, columns, indent);
      }
    } else {
      var rows, word := SomeRowMisleads(columns, indent);
    }
  }

  // ---------------------------------------------------------------- rows for which the decision is right

  /** How many rows a word adds depends on the rows only through what is visible of the last one. */
  lemma {:induction false} SameCount(st: Wrapping, st': Wrapping, word: Text, columns: int, indent: Text)
    requires st.rows != [] && st'.rows != [] && st.visible == st'.visible
    ensures var e, e' := WrapUnits(st, word, columns, indent), WrapUnits(st', word, columns, indent);
            |e.rows| - |st.rows| == |e'.rows| - |st'.rows| && e.visible == e'.visible
    decreases |word|
  {
    if word != [] {
      var more := |word| > 1;
      SameCount(WrapUnit(st, word[0], more, columns, indent), WrapUnit(st', word[0], more, columns, indent), word[1..],
                columns, indent);
    }
  }

  /** On a full row a word is broken as on a new one. */
  lemma {:induction false} FullRowIsFresh(st: Wrapping, word: Text, columns: nat, indent: Text)
    requires st.rows != [] && st.visible >= columns > Width(indent) && Slim(word) && Width(word) > 0
    ensures var begun := Wrapping(st.rows + [indent], Width(indent));
            |WrapUnits(st, word, columns, indent).rows| == |WrapUnits(begun, word, columns, indent).rows|
    decreases |word|
  {
    var u, rest, more := word[0], word[1..], |word| > 1;
    assert u in word && forall v | v in rest :: v in word;
    var begun := Wrapping(st.rows + [indent], Width(indent));
    var st1, begun1 := WrapUnit(st, u, more, columns, indent), WrapUnit(begun, u, more, columns, indent);
    if st1.visible == begun1.visible {
      SameCount(st1, begun1, rest, columns, indent);
    } else {
      FullRowIsFresh(st1, rest, columns, indent);
      SameCount(begun1, Wrapping(st1.rows + [indent], Width(indent)), rest, columns, indent);
    }
  }

  /** st has used fewer rows than st', or as many and no more of the last one. */
  predicate Before(st: Wrapping, st': Wrapping, indent: Text) {
    || (|st.rows| < |st'.rows| && Width(indent) <= st'.visible)
    || (|st.rows| == |st'.rows| && st.visible <= st'.visible)
  }

  lemma {:induction false} StaysBefore(st: Wrapping, st': Wrapping, word: Text, columns: nat, indent: Text)
    requires st.rows != [] && st'.rows != [] && Before(st, st', indent) && Slim(word)
    requires st.visible < columns && st'.visible < columns && Width(indent) < columns
    ensures |WrapUnits(st, word, columns, indent).rows| <= |WrapUnits(st', word, columns, indent).rows|
    decreases |word|
  {
    if |word| == 1 {
      assert word[0] in word;
      assert WrapUnits(st, word, columns, indent) == WrapUnit(st, word[0], false, columns, indent);
      assert WrapUnits(st', word, columns, indent) == WrapUnit(st', word[0], false, columns, indent);
    } else if |word| > 1 {
      hide Width;
      var u, rest := word[0], word[1..];
      assert u in word && forall v | v in rest :: v in word;
      StaysBefore(WrapUnit(st, u, true, columns, indent), WrapUnit(st', u, true, columns, indent), rest, columns,
          indent);
    }
  }

  lemma NothingMerged(rows: seq<Text>, word: Text, columns: int, indent: Text)
    requires rows != [] && Width(indent) > 0 && Width(word) > 0
    ensures WrappedWord(rows, word, columns, indent)
            == WrapUnits(Wrapping(rows, Width(Last(rows))), word, columns, indent).rows
  {
    UnitsStayVisible(Wrapping(rows, Width(Last(rows))), word, columns, indent);
  }

  /** The decision is right on rows that are empty or full, whatever the indent. */
  lemma EdgesAreRight(rows: seq<Text>, word: Text, columns: nat, indent: Text)
    requires rows != [] && Slim(word) && Width(word) > columns > Width(indent) > 0
    requires Width(Last(rows)) == 0 || Width(Last(rows)) >= columns
    ensures StartsWell(rows, word, columns, indent)
  {
    hide WrapUnits, StartsOnNewRow, WrappedWord;
    var here, below := Wrapping(rows, Width(Last(rows))), Wrapping(rows + [indent], Width(indent));
    NothingMerged(rows, word, columns, indent);
    NothingMerged(rows + [indent], word, columns, indent);
    if Width(Last(rows)) == 0 {
      StartsHereAtZero(Width(word), columns);
      StaysBefore(here, Wrapping(rows, Width(indent)), word, columns, indent);
      SameCount(Wrapping(rows, Width(indent)), below, word, columns, indent);
    } else {
      FullRowNumbers(Width(word), Width(Last(rows)), columns);
      FullRowIsFresh(here, word, columns, indent);
    }
  }

  // ---------------------------------------------------------------- texts

  /** The rows on which the word with index i of a text is placed. */
  function OpenFor(words: seq<Text>, i: nat, columns: int, o: Options): (open: seq<Text>)
    requires i < |words|
    ensures open != []
  {
    OpenRow(PlaceWords(words[..i], columns, o), i, columns, o)
  }

  /** Every long word of the text starts where it takes the fewest rows. */
  ghost predicate DecidesWell(s: Text, columns: nat, o: Options) {
    var words := Split(s, SPACE);
    forall i | 0 <= i < |words| && Width(words[i]) > columns ::
      StartsWell(OpenFor(words, i, columns, o), words[i], columns, o.indent)
  }

  lemma {:induction false} SlimWords(s: Text)
    requires Slim(s)
    ensures forall w | w in Split(s, SPACE) :: Slim(w)
  {
    if s != [] {
      assert s[0] in s && forall u | u in s[1..] :: u in s;
      SlimWords(s[1..]);
      var rest := Split(s[1..], SPACE);
      assert rest[0] in rest;
    }
  }

  /** With trimming, an open row is empty or holds something and a space. */
  lemma OpenRowIsEmptyOrLong(words: seq<Text>, i: nat, columns: int, o: Options)
    requires i < |words| && o.trim
    ensures Width(Last(OpenFor(words, i, columns, o))) != 1
  {
    hide Width, TrimStart, PlaceWord;
    var rows := PlaceWords(words[..i], columns, o);
    var trimmed := rows[|rows| - 1 := TrimStart(Last(rows))];
    SpaceAdds(trimmed);
    SpaceAdds(trimmed + [o.indent]);
    if i == 0 {
      assert rows == [[]] && TrimStart([]) == [] && Width([]) == 0 by {
        EmptyRow();
      }
    }
  }

  lemma EmptyRow()
    ensures TrimStart([]) == [] && Width([]) == 0
  {
  }

  /** A text of two words of letters, of which the first fits on the first row. */
  lemma TwoWords(n: nat, m: nat, columns: nat, o: Options)
    requires n <= columns
    ensures var s := Xs(n) + [SPACE] + Xs(m);
            && Slim(s) && Split(s, SPACE) == [Xs(n), Xs(m)]
            && OpenFor([Xs(n), Xs(m)], 1, columns, o) == OpenRow([Xs(n)], 1, columns, o)
  {
    hide OpenRow;
    var words := [Xs(n), Xs(m)];
    SplitWord(Xs(m));
    SplitAfterWord(Xs(n), Xs(m));
    assert [Xs(n)] + [Xs(m)] == words && words[..1] == [Xs(n)] && [Xs(n)][..0] == [];
    NarrowWidth(Xs(n));
    FirstFits(n, columns, o);
    assert PlaceWords([], columns, o) == [[]];
    assert PlaceWords([Xs(n)], columns, o) == PlaceWord([[]], 0, Xs(n), columns, o);
  }

  lemma FirstFits(n: nat, columns: nat, o: Options)
    requires n <= columns
    ensures PlaceWord([[]], 0, Xs(n), columns, o) == [Xs(n)]
  {
    NarrowWidth(Xs(n));
    var rows: seq<Text> := [[]];
    assert rows[|rows| - 1 := TrimStart(Last(rows))] == rows;
    assert OpenRow(rows, 0, columns, o) == rows;
    assert [] + Xs(n) == Xs(n);
  }

  lemma LettersStay(n: nat)
    ensures TrimStart(Xs(n)) == Xs(n)
  {
  }

  /** A text whose second word starts on the wrong row. */
  lemma TextMisleads(columns: nat, o: Options) returns (s: Text)
    requires columns > 0 && Width(o.indent) > 0
    requires !(o.trim && columns == 2 && Width(o.indent) == 1)
    ensures Slim(s) && !DecidesWell(s, columns, o)
  {
    hide StartsWell, Split, PlaceWords, Width;
    var n := if Width(o.indent) < columns then columns - 2 else columns;
    var open := OpenRow([Xs(n)], 1, columns, o);
    LettersStay(n);
    NarrowWidth(Xs(n));
    assert [Xs(n)][0 := Xs(n)] == [Xs(n)];
    SpaceAdds([Xs(n)]);
    SpaceAdds([Xs(n), o.indent]);
    var m := RowMisleads(open, columns, o.indent);
    s := Xs(n) + [SPACE] + Xs(m);
    TwoWords(n, m, columns, o);
    NarrowWidth(Xs(m));
    var words := Split(s, SPACE);
    assert words[1] == Xs(m) && OpenFor(words, 1, columns, o) == open;
  }

  /**
   In hard mode every long word of every text without wide characters starts where it takes the fewest rows
   exactly beside an indent of no width, and in one more case: with trimming, two columns and an indent of
   one, where no open row has just one column in use.
   */
  lemma DecisionsAreRightIff(columns: nat, o: Options)
    requires columns > 0 && o.hard
    ensures (forall s | Slim(s) :: DecidesWell(s, columns, o))
            <==> Width(o.indent) == 0 || (o.trim && columns == 2 && Width(o.indent) == 1)
  {
    hide StartsWell, PlaceWords, OpenFor;
    if Width(o.indent) == 0 || (o.trim && columns == 2 && Width(o.indent) == 1) {
      forall s | Slim(s) ensures DecidesWell(s, columns, o) {
        var words := Split(s, SPACE);
        SlimWords(s);
        forall i | 0 <= i < |words| && Width(words[i]) > columns
          ensures StartsWell(OpenFor(words, i, columns, o), words[i], columns, o.indent)
        {
          DecisionIsRight(words, i, columns, o);
        }
      }
    } else {
      var s := TextMisleads(columns, o);
    }
  }

  lemma DecisionIsRight(words: seq<Text>, i: nat, columns: nat, o: Options)
    requires i < |words| && Slim(words[i]) && Width(words[i]) > columns > 0
    requires Width(o.indent) == 0 || (o.trim && columns == 2 && Width(o.indent) == 1)
    ensures StartsWell(OpenFor(words, i, columns, o), words[i], columns, o.indent)
  {
    hide OpenFor, Width;
    var open := OpenFor(words, i, columns, o);
    if Width(o.indent) == 0 {
      StartsWhereItTakesFewestRows(open, words[i], columns, o.indent);
    } else {
      OpenRowIsEmptyOrLong(words, i, columns, o);
      EdgesAreRight(open, words[i], columns, o.indent);
    }
  }
}
