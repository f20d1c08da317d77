/**
 Where the characters of the rows come from: the text, the indent, and the spaces between the words.
 */
module WrapOrigin {
  import opened WrapAnsi

  predicate Within(rows: seq<Text>, units: set<Unit>) {
    forall row, u | row in rows && u in row :: u in units
  }

  lemma AppendWithin(rows: seq<Text>, s: Text, units: set<Unit>)
    requires rows != [] && Within(rows, units) && forall u | u in s :: u in units
    ensures Within(Append(rows, s), units)
  {
    assert Last(rows) in rows;
  }

  lemma AddRowWithin(rows: seq<Text>, row: Text, units: set<Unit>)
    requires Within(rows, units) && forall u | u in row :: u in units
    ensures Within(rows + [row], units)
  {
  }

  lemma {:induction false} UnitsWithin(st: Wrapping, word: Text, columns: int, indent: Text, units: set<Unit>)
    requires st.rows != [] && Within(st.rows, units)
    requires forall u | u in word || u in indent :: u in units
    ensures Within(WrapUnits(st, word, columns, indent).rows, units)
    decreases |word|
  {
    if word != [] {
      hide Within, Append, Width;
      var u := word[0];
      assert u in word && forall v | v in word[1..] :: v in word;
      AppendWithin(st.rows, [u], units);
      AddRowWithin(Append(st.rows, [u]), indent, units);
      AddRowWithin(st.rows, indent + [u], units);
      AddRowWithin(st.rows + [indent + [u]], indent, units);
      UnitsWithin(WrapUnit(st, u, |word| > 1, columns, indent), word[1..], columns, indent, units);
    }
  }

  lemma WordWithin(rows: seq<Text>, word: Text, columns: int, indent: Text, units: set<Unit>)
    requires rows != [] && Within(rows, units)
    requires forall u | u in word || u in indent :: u in units
    ensures Within(WrappedWord(rows, word, columns, indent), units)
  {
    hide WrapUnits;
    var st := WrapUnits(Wrapping(rows, Width(Last(rows))), word, columns, indent);
    UnitsWithin(Wrapping(rows, Width(Last(rows))), word, columns, indent, units);
    assert Last(st.rows) in st.rows && forall row | row in st.rows[..|st.rows| - 1] :: row in st.rows;
    if |st.rows| > 1 {
      AppendWithin(st.rows[..|st.rows| - 1], Last(st.rows), units);
    }
  }

  lemma {:induction false} TrimStartWithin(row: Text)
    ensures forall u | u in TrimStart(row) :: u in row
  {
    if row != [] && IsWhitespace(row[0]) {
      TrimStartWithin(row[1..]);
    }
  }

  lemma {:induction false} TrimRightWithin(row: Text)
    ensures forall u | u in TrimRight(row) :: u in row
  {
    if row != [] {
      TrimRightWithin(row[..|row| - 1]);
    }
  }

  lemma OpenRowWithin(rows: seq<Text>, index: nat, columns: int, o: Options, units: set<Unit>)
    requires rows != [] && Within(rows, units) && SPACE in units && forall u | u in o.indent :: u in units
    ensures Within(OpenRow(rows, index, columns, o), units)
  {
    hide Within, TrimStart, Width;
    TrimmedWithin(rows, o.trim, units);
    var trimmed := if o.trim then rows[|rows| - 1 := TrimStart(Last(rows))] else rows;
    AddRowWithin(trimmed, o.indent, units);
    var full := index != 0 && Width(Last(trimmed)) >= columns && (!o.wordWrap || !o.trim);
    AppendWithin(if full then trimmed + [o.indent] else trimmed, [SPACE], units);
  }

  lemma PlaceWithin(rows: seq<Text>, index: nat, word: Text, columns: int, o: Options, units: set<Unit>)
    requires rows != [] && Within(rows, units) && SPACE in units
    requires forall u | u in word || u in o.indent :: u in units
    ensures Within(PlaceWord(rows, index, word, columns, o), units)
  {
    hide Within, Width, WrappedWord, StartsOnNewRow, OpenRow;
    OpenRowWithin(rows, index, columns, o, units);
    OpenWithin(OpenRow(rows, index, columns, o), word, columns, o, units);
  }

  lemma TrimmedWithin(rows: seq<Text>, trim: bool, units: set<Unit>)
    requires rows != [] && Within(rows, units)
    ensures Within(if trim then rows[|rows| - 1 := TrimStart(Last(rows))] else rows, units)
  {
    assert Last(rows) in rows;
    TrimStartWithin(Last(rows));
  }

  lemma OpenWithin(open: seq<Text>, word: Text, columns: int, o: Options, units: set<Unit>)
    requires open != [] && Within(open, units)
    requires forall u | u in word || u in o.indent :: u in units
    ensures Within(WrappedWord(open, word, columns, o.indent), units)
    ensures Within(WrappedWord(open + [o.indent], word, columns, o.indent), units)
    ensures Within(Append(open, word), units) && Within(Append(open + [o.indent], word), units)
  {
    hide Within, WrappedWord;
    AddRowWithin(open, o.indent, units);
    WordWithin(open, word, columns, o.indent, units);
    WordWithin(open + [o.indent], word, columns, o.indent, units);
    AppendWithin(open, word, units);
    AppendWithin(open + [o.indent], word, units);
  }

  lemma {:induction false} PlacedWithin(words: seq<Text>, columns: int, o: Options, units: set<Unit>)
    requires SPACE in units && forall u | u in o.indent :: u in units
    requires Within(words, units)
    ensures Within(PlaceWords(words, columns, o), units)
  {
    if words != [] {
      hide PlaceWord;
      var n := |words| - 1;
      assert words[n] in words && forall w | w in words[..n] :: w in words;
      assert Within(words[..n], units) && forall u | u in words[n] :: u in units;
      hide Within;
      PlacedWithin(words[..n], columns, o, units);
      PlaceWithin(PlaceWords(words[..n], columns, o), n, words[n], columns, o, units);
    }
  }

  lemma {:induction false} SplitWithin(s: Text, units: set<Unit>)
    requires forall u | u in s :: u in units
    ensures Within(Split(s, SPACE), units)
  {
    if s != [] {
      assert s[0] in s && forall u | u in s[1..] :: u in s;
      SplitWithin(s[1..], units);
      var rest := Split(s[1..], SPACE);
      assert rest[0] in rest;
    }
  }

  /** The rows are made of characters of the text and the indent, and of spaces. */
  lemma RowsWithin(s: Text, columns: int, o: Options, units: set<Unit>)
    requires SPACE in units && forall u | u in s || u in o.indent :: u in units
    ensures Within(FinalRows(s, columns, o), units)
  {
    hide PlaceWords;
    SplitWithin(s, units);
    PlacedWithin(Split(s, SPACE), columns, o, units);
    var rows := PlaceWords(Split(s, SPACE), columns, o);
    forall i | 0 <= i < |rows| ensures forall u | u in TrimRight(rows[i]) :: u in units {
      assert rows[i] in rows;
      TrimRightWithin(rows[i]);
    }
  }
}
