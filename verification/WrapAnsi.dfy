/**
 The terminal line breaker (packages/create-tldraw/src/wrap-ansi.ts).  A text is a sequence of units:
 characters with the display width string-width gives them, and complete single-parameter SGR escapes,
 which have no width.
 */
module WrapAnsi {
  import opened Prelude

  datatype Unit = Glyph(c: char, w: nat) | Sgr(code: nat)

  type Text = seq<Unit>

  const SPACE := Glyph(' ', 1)
  const NEWLINE := Glyph('\n', 0)
  const END_CODE: nat := 39

  datatype Options = Options(trim: bool, wordWrap: bool, hard: bool, indent: Text)

  function UnitWidth(u: Unit): nat {
    match u
    case Glyph(_, w) => w
    case Sgr(_) => 0
  }

  function Width(s: Text): nat {
    if s == [] then 0 else UnitWidth(s[0]) + Width(s[1..])
  }

  lemma {:induction false} WidthConcat(a: Text, b: Text)
    ensures Width(a + b) == Width(a) + Width(b)
  {
    if a == [] {
      assert a + b == b;
    } else {
      assert (a + b)[1..] == a[1..] + b;
      WidthConcat(a[1..], b);
    }
  }

  predicate IsWhitespace(u: Unit) {
    && u.Glyph?
    && (u.c == ' ' || '\t' <= u.c <= '\r' || u.c == '\U{00A0}' || u.c == '\U{1680}' || '\U{2000}' <= u.c <= '\U{200A}'
        || u.c == '\U{2028}' || u.c == '\U{2029}' || u.c == '\U{202F}' || u.c == '\U{205F}' || u.c == '\U{3000}'
        || u.c == '\U{FEFF}')
  }

  /** The white space and line terminators of ECMAScript (sections 12.2 and 12.3 of ECMA-262). */
  lemma WhitespaceIs(c: char, w: nat)
    ensures IsWhitespace(Glyph(c, w))
            <==> c in {'\t', '\n', '\U{000B}', '\U{000C}', '\r', ' ', '\U{00A0}', '\U{1680}', '\U{2000}', '\U{2001}',
                       '\U{2002}', '\U{2003}', '\U{2004}', '\U{2005}', '\U{2006}', '\U{2007}', '\U{2008}', '\U{2009}',
                       '\U{200A}', '\U{2028}', '\U{2029}', '\U{202F}', '\U{205F}', '\U{3000}', '\U{FEFF}'}
  {
  }

  function TrimStart(s: Text): Text {
    if s != [] && IsWhitespace(s[0]) then TrimStart(s[1..]) else s
  }

  // ---------------------------------------------------------------- splitting and joining

  function Split(s: Text, sep: Unit): (pieces: seq<Text>)
    ensures |pieces| > 0
  {
    if s == [] then [[]]
    else
      var rest := Split(s[1..], sep);
      if s[0] == sep then [[]] + rest else [[s[0]] + rest[0]] + rest[1..]
  }

  function Join(pieces: seq<Text>, sep: Unit): Text {
    if pieces == [] then []
    else if |pieces| == 1 then pieces[0]
    else pieces[0] + [sep] + Join(pieces[1..], sep)
  }

  function Flatten<T>(pieces: seq<seq<T>>): seq<T> {
    if pieces == [] then [] else pieces[0] + Flatten(pieces[1..])
  }

  // ---------------------------------------------------------------- rows under construction

  function Last(rows: seq<Text>): Text
    requires rows != []
  {
    rows[|rows| - 1]
  }

  function Append(rows: seq<Text>, s: Text): seq<Text>
    requires rows != []
  {
    rows[|rows| - 1 := Last(rows) + s]
  }

  datatype Wrapping = Wrapping(rows: seq<Text>, visible: int)

  /** One character of a word that is being broken; more tells whether further characters follow. */
  function WrapUnit(st: Wrapping, u: Unit, more: bool, columns: int, indent: Text): (st': Wrapping)
    requires st.rows != []
    ensures st'.rows != []
  {
    var placed :=
      if st.visible + UnitWidth(u) <= columns then Wrapping(Append(st.rows, [u]), st.visible)
      else Wrapping(st.rows + [indent + [u]], Width(indent));
    if u.Sgr? then placed
    else
      var visible := placed.visible + UnitWidth(u);
      if visible == columns && more then Wrapping(placed.rows + [indent], Width(indent))
      else Wrapping(placed.rows, visible)
  }

  function WrapUnits(st: Wrapping, word: Text, columns: int, indent: Text): (st': Wrapping)
    requires st.rows != []
    ensures st'.rows != []
    decreases |word|
  {
    if word == [] then st
    else WrapUnits(WrapUnit(st, word[0], |word| > 1, columns, indent), word[1..], columns, indent)
  }

  /** A last row that holds only escapes is moved back to the row before it. */
  function MergeInvisible(st: Wrapping): (rows: seq<Text>)
    requires st.rows != []
    ensures rows != []
  {
    var n := |st.rows|;
    if st.visible == 0 && |Last(st.rows)| > 0 && n > 1 then Append(st.rows[..n - 1], Last(st.rows)) else st.rows
  }

  function WrappedWord(rows: seq<Text>, word: Text, columns: int, indent: Text): (rows': seq<Text>)
    requires rows != []
    ensures rows' != []
  {
    MergeInvisible(WrapUnits(Wrapping(rows, Width(Last(rows))), word, columns, indent))
  }

  /** Math.floor of a quotient; Dafny's division already rounds down when the divisor is positive. */
  function FloorDiv(a: int, b: int): int
    requires b != 0
  {
    if b > 0 then a / b else (-a) / (-b)
  }

  /**
   The hard-wrap decision whether to break a long word starting on a new row.  With zero columns both
   figures are infinite or not a number, and the comparison is false.
   */
  predicate StartsOnNewRow(length: nat, rowLength: nat, columns: int) {
    columns != 0 &&
    var remaining := columns - rowLength;
    FloorDiv(length - 1, columns) < 1 + FloorDiv(length - remaining - 1, columns)
  }

  lemma SpaceAdds(rows: seq<Text>)
    requires rows != []
    ensures Width(Last(Append(rows, [SPACE]))) == Width(Last(rows)) + 1
  {
    WidthConcat(Last(rows), [SPACE]);
    assert [SPACE][1..] == [];
  }

  /** The rows at whose end a word of the given length is broken; None when it is put down in one piece. */
  function BreakOn(open: seq<Text>, rowLength: nat, length: nat, columns: int, o: Options): (start: Option<seq<Text>>)
    requires open != []
    ensures start.Some? ==> start.value != []
  {
    if o.hard && length > columns then
      Some(if StartsOnNewRow(length, rowLength, columns) then open + [o.indent] else open)
    else if rowLength + length > columns && !o.wordWrap then
      Some(if rowLength >= columns && rowLength > 0 && length > 0 then open + [o.indent] else open)
    else None
  }

  /** The rows when the word with the given index is about to be placed: the last one is open for it. */
  function OpenRow(rows: seq<Text>, index: nat, columns: int, o: Options): (open: seq<Text>)
    requires rows != []
    ensures open != []
  {
    var trimmed := if o.trim then rows[|rows| - 1 := TrimStart(Last(rows))] else rows;
    var full := index != 0 && Width(Last(trimmed)) >= columns && (!o.wordWrap || !o.trim);
    var started := if full then trimmed + [o.indent] else trimmed;
    if index != 0 && (Width(Last(started)) > 0 || !o.trim) then Append(started, [SPACE]) else started
  }

  /** The rows after placing a word on open rows. */
  function PutWord(open: seq<Text>, word: Text, columns: int, o: Options): (rows: seq<Text>)
    requires open != []
    ensures rows != []
  {
    var rowLength, length := Width(Last(open)), Width(word);
    match BreakOn(open, rowLength, length, columns, o)
    case Some(start) => WrappedWord(start, word, columns, o.indent)
    case None =>
      Append(if rowLength + length > columns && rowLength > 0 && length > 0 then open + [o.indent] else open, word)
  }

  /** The rows after placing the word with the given index. */
  function PlaceWord(rows: seq<Text>, index: nat, word: Text, columns: int, o: Options): (rows': seq<Text>)
    requires rows != []
    ensures rows' != []
  {
    PutWord(OpenRow(rows, index, columns, o), word, columns, o)
  }

  function PlaceWords(words: seq<Text>, columns: int, o: Options): (rows: seq<Text>)
    ensures rows != []
  {
    if words == [] then [[]]
    else
      var n := |words| - 1;
      PlaceWord(PlaceWords(words[..n], columns, o), n, words[n], columns, o)
  }

  /** The row without its trailing spaces; units without width that stand among them are kept. */
  function TrimRight(row: Text): Text {
    if row == [] then []
    else
      var n := |row| - 1;
      if row[n] == SPACE then TrimRight(row[..n])
      else if UnitWidth(row[n]) == 0 then TrimRight(row[..n]) + [row[n]]
      else row
  }

  // ---------------------------------------------------------------- what trimming a row means

  predicate SpaceFree(s: Text) {
    SPACE !in s
  }

  lemma {:induction false} JoinSplit(s: Text, sep: Unit)
    ensures Join(Split(s, sep), sep) == s
    ensures forall p | p in Split(s, sep) :: sep !in p
  {
    if s != [] {
      var rest := Split(s[1..], sep);
      JoinSplit(s[1..], sep);
      if s[0] != sep {
        var first := [s[0]] + rest[0];
        assert ([first] + rest[1..])[1..] == rest[1..];
        assert rest[0] in rest;
        if |rest| > 1 {
          assert Join(rest, sep) == rest[0] + [sep] + Join(rest[1..], sep);
        }
      } else {
        assert ([[]] + rest)[1..] == rest;
      }
    }
  }

  lemma {:induction false} JoinNewest(pieces: seq<Text>, p: Text, sep: Unit)
    ensures Join(pieces + [p], sep) == if pieces == [] then p else Join(pieces, sep) + [sep] + p
  {
    if pieces != [] {
      assert (pieces + [p])[1..] == pieces[1..] + [p];
      JoinNewest(pieces[1..], p, sep);
    }
  }

  lemma {:induction false} FlattenConcat<T>(a: seq<seq<T>>, b: seq<seq<T>>)
    ensures Flatten(a + b) == Flatten(a) + Flatten(b)
  {
    if a == [] {
      assert a + b == b;
    } else {
      assert (a + b)[1..] == a[1..] + b;
      FlattenConcat(a[1..], b);
    }
  }

  /** Text without width or spaces at the end of a row survives trimming. */
  lemma {:induction false} TrimRightKeepsEscapes(row: Text, tail: Text)
    requires Width(tail) == 0 && SpaceFree(tail)
    ensures TrimRight(row + tail) == TrimRight(row) + tail
  {
    if tail == [] {
      assert row + tail == row && TrimRight(row) + tail == TrimRight(row);
    } else {
      var n := |tail| - 1;
      assert tail == tail[..n] + [tail[n]];
      WidthConcat(tail[..n], [tail[n]]);
      assert Width([tail[n]]) == UnitWidth(tail[n]) + Width([]);
      hide Width, UnitWidth;
      assert (row + tail)[..|row| + n] == row + tail[..n];
      TrimRightKeepsEscapes(row, tail[..n]);
    }
  }

  /** A row that ends in a word with some width has nothing to trim. */
  lemma {:induction false} TrimRightStops(row: Text, word: Text)
    requires Width(word) > 0 && SpaceFree(word)
    ensures TrimRight(row + word) == row + word
  {
    var n := |word| - 1;
    assert word == word[..n] + [word[n]];
    WidthConcat(word[..n], [word[n]]);
    assert Width([word[n]]) == UnitWidth(word[n]) + Width([]);
    assert (row + word)[..|row| + n] == row + word[..n];
    if UnitWidth(word[n]) == 0 {
      TrimRightStops(row, word[..n]);
    }
  }

  function TrimRows(rows: seq<Text>): seq<Text> {
    seq(|rows|, i requires 0 <= i < |rows| => TrimRight(rows[i]))
  }

  function FinalRows(s: Text, columns: int, o: Options): seq<Text> {
    var rows := PlaceWords(Split(s, SPACE), columns, o);
    if o.trim then TrimRows(rows) else rows
  }

  // ---------------------------------------------------------------- closing and reopening styles

  /** The code that closes an opening SGR code, as in the table of ansi-styles. */
  function CloseCode(code: nat): Option<nat> {
    if code == 0 then Some(0)
    else if code == 1 || code == 2 then Some(22)
    else if code == 3 then Some(23)
    else if code == 4 then Some(24)
    else if code == 53 then Some(55)
    else if code == 7 then Some(27)
    else if code == 8 then Some(28)
    else if code == 9 then Some(29)
    else if 30 <= code <= 37 || 90 <= code <= 97 then Some(39)
    else if 40 <= code <= 47 || 100 <= code <= 107 then Some(49)
    else None
  }

  function NextCode(code: Option<nat>, u: Unit): Option<nat> {
    if u.Sgr? then (if u.code == END_CODE then None else Some(u.code)) else code
  }

  /** The style to close and reopen: zero and unknown codes are not re-emitted. */
  predicate Reopens(code: Option<nat>) {
    code.Some? && code.value != 0 && CloseCode(code.value).Some?
  }

  function Extra(code: Option<nat>, u: Unit, beforeNewline: bool): Text {
    if !Reopens(code) then []
    else if beforeNewline then [Sgr(CloseCode(code.value).value)]
    else if u == NEWLINE then [Sgr(code.value)]
    else []
  }

  function Restyle(pre: Text, code: Option<nat>): Text {
    if pre == [] then []
    else
      var code' := NextCode(code, pre[0]);
      [pre[0]] + Extra(code', pre[0], |pre| > 1 && pre[1] == NEWLINE) + Restyle(pre[1..], code')
  }

  predicate AllWhitespace(s: Text) {
    forall u | u in s :: IsWhitespace(u)
  }

  function Wrapped(s: Text, columns: int, o: Options): Text {
    if o.trim && AllWhitespace(s) then [] else Restyle(Join(FinalRows(s, columns, o), NEWLINE), None)
  }

  // ---------------------------------------------------------------- the code

  method VisibleTrimSpacesRight(s: Text) returns (trimmed: Text)
    ensures trimmed == TrimRight(s)
  {
    hide TrimRight, Join, Split, Flatten, Width, SpaceFree;
    var words := Split(s, SPACE);
    SplitIntoWords(s);
    var last := |words|;
    while last > 0
      invariant 0 <= last <= |words|
      invariant TrimRight(s) == TrimRight(Join(words[..last], SPACE)) + Flatten(words[last..])
    {
      assert words[last - 1] in words;
      if Width(words[last - 1]) > 0 {
        break;
      }
      DropLastWord(words, last);
      last := last - 1;
    }
    LastWordStops(words, last);
    if last == |words| {
      return s;
    }
    trimmed := Join(words[..last], SPACE) + Flatten(words[last..]);
  }

  lemma SplitIntoWords(s: Text)
    ensures var words := Split(s, SPACE);
            && (forall w | w in words :: SpaceFree(w))
            && Join(words[..|words|], SPACE) == s
            && TrimRight(s) == TrimRight(s) + Flatten(words[|words|..])
            && (forall t: Text :: t + Flatten(words[|words|..]) == t)
  {
    JoinSplit(s, SPACE);
    var words := Split(s, SPACE);
    assert words[..|words|] == words && words[|words|..] == [];
  }

  lemma DropLastWord(words: seq<Text>, last: nat)
    requires 0 < last <= |words| && Width(words[last - 1]) == 0 && SpaceFree(words[last - 1])
    ensures TrimRight(Join(words[..last], SPACE)) + Flatten(words[last..])
         == TrimRight(Join(words[..last - 1], SPACE)) + Flatten(words[last - 1..])
  {
    hide TrimRight, Join, Width;
    assert words[..last] == words[..last - 1] + [words[last - 1]];
    DropEmptyWord(words[..last - 1], words[last - 1]);
    assert words[last - 1..][1..] == words[last..];
  }

  lemma LastWordStops(words: seq<Text>, last: nat)
    requires last <= |words| && (last > 0 ==> Width(words[last - 1]) > 0 && SpaceFree(words[last - 1]))
    ensures TrimRight(Join(words[..last], SPACE)) == Join(words[..last], SPACE)
  {
    if last > 0 {
      hide TrimRight, Width;
      assert words[..last] == words[..last - 1] + [words[last - 1]];
      JoinNewest(words[..last - 1], words[last - 1], SPACE);
      var front := if last == 1 then [] else Join(words[..last - 1], SPACE) + [SPACE];
      assert Join(words[..last], SPACE) == front + words[last - 1];
      TrimRightStops(front, words[last - 1]);
    }
  }

  lemma DropEmptyWord(words: seq<Text>, word: Text)
    requires Width(word) == 0 && SpaceFree(word)
    ensures TrimRight(Join(words + [word], SPACE)) == TrimRight(Join(words, SPACE)) + word
  {
    JoinNewest(words, word, SPACE);
    if words == [] {
      TrimRightKeepsEscapes([], word);
      assert [] + word == word;
    } else {
      var front := Join(words, SPACE);
      TrimRightKeepsEscapes(front + [SPACE], word);
      assert (front + [SPACE])[..|front|] == front;
    }
  }

  class LineWrapper {
    const columns: int
    const options: Options
    var rows: seq<Text>

    constructor (columns: int, options: Options)
      ensures this.columns == columns && this.options == options && rows == [[]]
    {
      this.columns, this.options, rows := columns, options, [[]];
    }

    method WrapWord(word: Text)
      requires rows != []
      modifies this
      ensures rows == WrappedWord(old(rows), word, columns, options.indent)
    {
      var visible: int := Width(Last(rows));
      var indentLength := Width(options.indent);
      ghost var start := Wrapping(rows, visible);
      for index := 0 to |word|
        invariant rows != []
        invariant WrapUnits(Wrapping(rows, visible), word[index..], columns, options.indent)
               == WrapUnits(start, word, columns, options.indent)
      {
        var character := word[index];
        ghost var before := Wrapping(rows, visible);
        if visible + UnitWidth(character) <= columns {
          rows := Append(rows, [character]);
        } else {
          rows := rows + [options.indent + [character]];
          visible := indentLength;
        }
        if character.Glyph? {
          visible := visible + UnitWidth(character);
          if visible == columns && index < |word| - 1 {
            rows := rows + [options.indent];
            visible := indentLength;
          }
        }
        assert word[index..][0] == character && word[index..][1..] == word[index + 1..];
        assert Wrapping(rows, visible)
            == WrapUnit(before, character, |word[index..]| > 1, columns, options.indent);
      }
      if visible == 0 && |Last(rows)| > 0 && |rows| > 1 {
        rows := Append(rows[..|rows| - 1], Last(rows));
      }
    }

    method PlaceAll(words: seq<Text>)
      requires rows == [[]]
      modifies this
      ensures rows == PlaceWords(words, columns, options)
    {
      for index := 0 to |words|
        invariant rows == PlaceWords(words[..index], columns, options)
      {
        assert words[..index + 1][..index] == words[..index];
        Place(index, words[index]);
      }
      assert words[..|words|] == words;
    }

    method Place(index: nat, word: Text)
      requires rows != []
      modifies this
      ensures rows == PlaceWord(old(rows), index, word, columns, options)
    {
      hide Width, TrimStart, StartsOnNewRow, WrappedWord;
      var length, indent := Width(word), options.indent;
      if options.trim {
        rows := rows[|rows| - 1 := TrimStart(Last(rows))];
      }
      var rowLength := Width(Last(rows));
      if index != 0 {
        if rowLength >= columns && (!options.wordWrap || !options.trim) {
          rows := rows + [indent];
          rowLength := Width(indent);
        }
        if rowLength > 0 || !options.trim {
          SpaceAdds(rows);
          rows := Append(rows, [SPACE]);
          rowLength := rowLength + 1;
        }
      }
      assert rows == OpenRow(old(rows), index, columns, options) && rowLength == Width(Last(rows));
      if options.hard && length > columns {
        if StartsOnNewRow(length, rowLength, columns) {
          rows := rows + [indent];
        }
        WrapWord(word);
        return;
      }
      if rowLength + length > columns && rowLength > 0 && length > 0 {
        if !options.wordWrap && rowLength < columns {
          WrapWord(word);
          return;
        }
        rows := rows + [indent];
      }
      if rowLength + length > columns && !options.wordWrap {
        WrapWord(word);
        return;
      }
      rows := Append(rows, word);
    }

    method Exec(s: Text) returns (returnValue: Text)
      requires rows == [[]]
      modifies this
      ensures returnValue == Wrapped(s, columns, options)
    {
      if options.trim && AllWhitespace(s) {
        return [];
      }
      PlaceAll(Split(s, SPACE));
      if options.trim {
        TrimAll();
      }
      returnValue := ReopenStyles(Join(rows, NEWLINE));
    }

    method TrimAll()
      modifies this
      ensures rows == TrimRows(old(rows))
    {
      hide TrimRight;
      ghost var untrimmed := rows;
      for i := 0 to |rows|
        invariant |rows| == |untrimmed|
        invariant forall j | i <= j < |rows| :: rows[j] == untrimmed[j]
        invariant forall j | 0 <= j < i :: rows[j] == TrimRight(untrimmed[j])
      {
        var row := VisibleTrimSpacesRight(rows[i]);
        rows := rows[i := row];
      }
    }

    method ReopenStyles(pre: Text) returns (returnValue: Text)
      ensures returnValue == Restyle(pre, None)
    {
      hide Restyle, CloseCode;
      var escapeCode: Option<nat> := None;
      returnValue := [];
      for index := 0 to |pre|
        invariant returnValue + Restyle(pre[index..], escapeCode) == Restyle(pre, None)
      {
        var u := pre[index];
        var beforeNewline := index + 1 < |pre| && pre[index + 1] == NEWLINE;
        RestyleStep(returnValue, pre, index, escapeCode);
        ghost var before, code' := returnValue, NextCode(escapeCode, u);
        returnValue := returnValue + [u];
        if u.Sgr? {
          escapeCode := if u.code == END_CODE then None else Some(u.code);
        }
        if beforeNewline {
          if Reopens(escapeCode) {
            returnValue := returnValue + [Sgr(CloseCode(escapeCode.value).value)];
          }
        } else if u == NEWLINE {
          if Reopens(escapeCode) {
            returnValue := returnValue + [Sgr(escapeCode.value)];
          }
        }
        assert returnValue == before + [u] + Extra(code', u, beforeNewline);
      }
      RestyleNothing(returnValue, pre, escapeCode);
    }
  }

  lemma RestyleStep(before: Text, pre: Text, index: nat, code: Option<nat>)
    requires index < |pre|
    ensures var u, code' := pre[index], NextCode(code, pre[index]);
            before + Restyle(pre[index..], code)
            == before + [u] + Extra(code', u, index + 1 < |pre| && pre[index + 1] == NEWLINE)
               + Restyle(pre[index + 1..], code')
  {
    assert pre[index..][1..] == pre[index + 1..];
  }

  lemma RestyleNothing(before: Text, pre: Text, code: Option<nat>)
    ensures before + Restyle(pre[|pre|..], code) == before
  {
  }
}
