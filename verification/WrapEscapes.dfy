/**
 Breaking a word character by character, as the code does: an SGR escape is a run of characters, of which
 all but the first have a width of their own when they are placed.  Exactly when no escape is torn apart
 between two rows, so that escapes can be taken as units.
 */
module WrapEscapes {
  import opened Prelude
  import opened WrapAnsi
  import opened HardWrap

  const ESC := Glyph('\U{001B}', 0)
  const TERMINATOR := 'm'

  /** Characters of width 1. */
  function Letters(s: string): Text {
    seq(|s|, i requires 0 <= i < |s| => Glyph(s[i], 1))
  }

  function Spell(u: Unit): Text {
    match u
    case Glyph(_, _) => [u]
    case Sgr(code) => [ESC] + Letters("[" + Digits(code)) + [Glyph(TERMINATOR, 1)]
  }

  function SpellAll(t: Text): Text {
    if t == [] then [] else Spell(t[0]) + SpellAll(t[1..])
  }

  function SpellRows(rows: seq<Text>): seq<Text> {
    seq(|rows|, i requires 0 <= i < |rows| => SpellAll(rows[i]))
  }

  /** Escapes are the only places where the escape character stands. */
  predicate NoLooseEscapes(t: Text) {
    forall u | u in t :: u != ESC && (u.Glyph? ==> u.c != ESC.c)
  }

  // ---------------------------------------------------------------- the code

  datatype Breaking = Breaking(rows: seq<Text>, visible: int, isInsideEscape: bool)

  function Break(st: Breaking, character: Unit, more: bool, columns: int, indent: Text,
      indentLength: nat): (st': Breaking)
    requires st.rows != []
    ensures st'.rows != []
  {
    var w := UnitWidth(character);
    var fits := st.visible + w <= columns;
    var rows := if fits then Append(st.rows, [character]) else st.rows + [indent + [character]];
    var visible := if fits then st.visible else indentLength;
    var c := if character.Glyph? then character.c else ' ';
    if st.isInsideEscape || c == ESC.c then Breaking(rows, visible, c != TERMINATOR)
    else if visible + w == columns && more then Breaking(rows + [indent], indentLength, false)
    else Breaking(rows, visible + w, false)
  }

  function BreakAll(st: Breaking, characters: Text, columns: int, indent: Text, indentLength: nat): (st': Breaking)
    requires st.rows != []
    ensures st'.rows != []
    decreases |characters|
  {
    if characters == [] then st
    else BreakAll(Break(st, characters[0], |characters| > 1, columns, indent, indentLength), characters[1..], columns,
        indent, indentLength)
  }

  /** visible is the width of the last row without its escapes. */
  function BrokenWordRows(rows: seq<Text>, visible: nat, characters: Text, columns: int, indent: Text,
                          indentLength: nat): (rows': seq<Text>)
    requires rows != []
    ensures rows' != []
  {
    var st := BreakAll(Breaking(rows, visible, false), characters, columns, indent, indentLength);
    MergeInvisible(Wrapping(st.rows, st.visible))
  }

  /** The loop over the characters and the special case after it. */
  method WrapWord(rows: seq<Text>, visible: nat, characters: Text, columns: int, indent: Text, indentLength: nat)
    returns (rows': seq<Text>)
    requires rows != []
    ensures rows' == BrokenWordRows(rows, visible, characters, columns, indent, indentLength)
  {
    rows' := rows;
    var seen: int, isInsideEscape := visible, false;
    ghost var start := Breaking(rows, visible, false);
    for index := 0 to |characters|
      invariant rows' != []
      invariant BreakAll(Breaking(rows', seen, isInsideEscape), characters[index..], columns, indent, indentLength)
             == BreakAll(start, characters, columns, indent, indentLength)
    {
      ghost var before := Breaking(rows', seen, isInsideEscape);
      var character := characters[index];
      var characterLength := UnitWidth(character);
      if seen + characterLength <= columns {
        rows' := rows'[|rows'| - 1 := rows'[|rows'| - 1] + [character]];
      } else {
        rows' := rows' + [indent + [character]];
        seen := indentLength;
      }
      var isEscape := character.Glyph? && character.c == ESC.c;
      if isEscape {
        isInsideEscape := true;
      }
      if isInsideEscape {
        if character.Glyph? && character.c == TERMINATOR {
          isInsideEscape := false;
        }
      } else {
        seen := seen + characterLength;
        if seen == columns && index < |characters| - 1 {
          rows' := rows' + [indent];
          seen := indentLength;
        }
      }
      assert characters[index..][1..] == characters[index + 1..];
      assert Breaking(rows', seen, isInsideEscape) == Break(before, character, index < |characters| - 1, columns,
          indent, indentLength);
    }
    assert characters[|characters|..] == [];
    if seen == 0 && |rows'[|rows'| - 1]| > 0 && |rows'| > 1 {
      var last := rows'[|rows'| - 1];
      rows' := rows'[..|rows'| - 1];
      rows' := rows'[|rows'| - 1 := rows'[|rows'| - 1] + last];
    }
  }

  // ---------------------------------------------------------------- escapes that stay whole

  lemma BreakFirst(st: Breaking, character: Unit, tail: Text, columns: int, indent: Text, indentLength: nat)
    requires st.rows != []
    ensures BreakAll(st, [character] + tail, columns, indent, indentLength)
         == BreakAll(Break(st, character, tail != [], columns, indent, indentLength), tail, columns, indent,
             indentLength)
  {
    assert ([character] + tail)[1..] == tail;
  }

  lemma AppendTwice(rows: seq<Text>, a: Text, b: Text)
    requires rows != []
    ensures Append(Append(rows, a), b) == Append(rows, a + b)
    ensures Append(rows, []) == rows
  {
    assert Last(rows) + a + b == Last(rows) + (a + b);
    assert Last(rows) + [] == Last(rows);
  }

  /** Inside an escape characters go to the end of a row that is not full. */
  lemma {:induction false} InsideStays(rows: seq<Text>, visible: int, s: string, tail: Text, columns: int,
                                       indent: Text, indentLength: nat)
    requires rows != [] && visible < columns && TERMINATOR !in s
    ensures BreakAll(Breaking(rows, visible, true), Letters(s) + tail, columns, indent, indentLength)
         == BreakAll(Breaking(Append(rows, Letters(s)), visible, true), tail, columns, indent, indentLength)
    decreases |s|
  {
    if s == "" {
      assert Letters(s) + tail == tail;
      AppendTwice(rows, [], []);
    } else {
      var first, rest := Glyph(s[0], 1), s[1..];
      assert s[0] in s && forall c | c in rest :: c in s;
      assert Letters(s) == [first] + Letters(rest);
      assert Letters(s) + tail == [first] + (Letters(rest) + tail);
      BreakFirst(Breaking(rows, visible, true), first, Letters(rest) + tail, columns, indent, indentLength);
      InsideStays(Append(rows, [first]), visible, rest, tail, columns, indent, indentLength);
      AppendTwice(rows, [first], Letters(rest));
    }
  }

  lemma {:induction false} DigitsAreNoTerminator(n: nat)
    ensures TERMINATOR !in Digits(n)
  {
    if n >= 10 {
      DigitsAreNoTerminator(n / 10);
    }
  }

  lemma SpellParts(code: nat, tail: Text)
    ensures var s, m := "[" + Digits(code), Glyph(TERMINATOR, 1);
            && TERMINATOR !in s
            && Spell(Sgr(code)) == [ESC] + Letters(s) + [m]
            && Spell(Sgr(code))[1..] + tail == Letters(s) + ([m] + tail)
  {
    hide Digits, Letters;
    DigitsAreNoTerminator(code);
    var s, m := Letters("[" + Digits(code)), Glyph(TERMINATOR, 1);
    assert Spell(Sgr(code)) == [ESC] + (s + [m]);
    assert s + [m] + tail == s + ([m] + tail);
  }

  /** The rest of an escape follows its first character, when that is on a row that is not full. */
  lemma EscapeStays(rows: seq<Text>, visible: int, code: nat, tail: Text, columns: int, indent: Text, indentLength: nat)
    requires rows != [] && visible < columns
    ensures BreakAll(Breaking(Append(rows, [ESC]), visible, true), Spell(Sgr(code))[1..] + tail, columns, indent,
        indentLength)
         == BreakAll(Breaking(Append(rows, Spell(Sgr(code))), visible, false), tail, columns, indent, indentLength)
  {
    hide BreakAll, Append, Spell, Letters, Digits, Break;
    var s, m := "[" + Digits(code), Glyph(TERMINATOR, 1);
    SpellParts(code, tail);
    var rows1 := Append(rows, [ESC]);
    AppendTwice(rows, [ESC], Letters(s));
    AppendTwice(rows, [ESC] + Letters(s), [m]);
    AppendNotEmpty(rows, [ESC]);
    InsideStays(rows1, visible, s, [m] + tail, columns, indent, indentLength);
    var rows2 := Append(rows1, Letters(s));
    AppendNotEmpty(rows1, Letters(s));
    BreakFirst(Breaking(rows2, visible, true), m, tail, columns, indent, indentLength);
    TerminatorEnds(rows2, visible, tail != [], columns, indent, indentLength);
  }

  lemma TerminatorEnds(rows: seq<Text>, visible: int, more: bool, columns: int, indent: Text, indentLength: nat)
    requires rows != [] && visible < columns
    ensures var m := Glyph(TERMINATOR, 1);
            Break(Breaking(rows, visible, true), m, more, columns, indent, indentLength)
            == Breaking(Append(rows, [m]), visible, false)
  {
  }

  lemma AppendNotEmpty(rows: seq<Text>, s: Text)
    requires rows != []
    ensures Append(rows, s) != []
  {
  }

  lemma {:induction false} SpellConcat(a: Text, b: Text)
    ensures SpellAll(a + b) == SpellAll(a) + SpellAll(b)
  {
    if a == [] {
      assert a + b == b;
    } else {
      assert (a + b)[1..] == a[1..] + b;
      SpellConcat(a[1..], b);
    }
  }

  lemma SpellOne(u: Unit)
    ensures SpellAll([u]) == Spell(u)
  {
    assert [u][1..] == [] && Spell(u) + [] == Spell(u);
  }

  lemma SpellAppend(rows: seq<Text>, u: Unit)
    requires rows != []
    ensures SpellRows(Append(rows, [u])) == Append(SpellRows(rows), Spell(u))
  {
    hide SpellAll, Spell;
    SpellConcat(Last(rows), [u]);
    SpellOne(u);
  }

  lemma SpellNewRow(rows: seq<Text>, row: Text)
    ensures SpellRows(rows + [row]) == SpellRows(rows) + [SpellAll(row)]
  {
  }

  /** A unit that is placed on a row that is not exactly full is placed the same way character by character. */
  lemma UnitIsSpelled(st: Wrapping, u: Unit, tail: Text, columns: int, indent: Text)
    requires st.rows != [] && (u.Glyph? ==> u.c != ESC.c)
    requires u.Sgr? ==> st.visible != columns && Width(indent) < columns
    ensures var st', raw, k := WrapUnit(st, u, tail != [], columns, indent), SpellAll(indent), Width(indent);
            BreakAll(Breaking(SpellRows(st.rows), st.visible, false), Spell(u) + tail, columns, raw, k)
            == BreakAll(Breaking(SpellRows(st'.rows), st'.visible, false), tail, columns, raw, k)
  {
    hide BreakAll, SpellAll, Width, SpellRows, Append;
    var rows, raw, k := SpellRows(st.rows), SpellAll(indent), Width(indent);
    var fits := st.visible + UnitWidth(u) <= columns;
    SpelledNotEmpty(st.rows);
    SpellAppend(st.rows, u);
    SpellNewRow(st.rows, indent + [u]);
    SpellConcat(indent, [u]);
    SpellOne(u);
    if u.Glyph? {
      BreakFirst(Breaking(rows, st.visible, false), u, tail, columns, raw, k);
      SpellNewRow(Append(st.rows, [u]), indent);
      SpellNewRow(st.rows + [indent + [u]], indent);
    } else {
      var rest := Spell(u)[1..];
      assert Spell(u) + tail == [ESC] + (rest + tail) && rest + tail != [];
      BreakFirst(Breaking(rows, st.visible, false), ESC, rest + tail, columns, raw, k);
      if fits {
        EscapeStays(rows, st.visible, u.code, tail, columns, raw, k);
      } else {
        NewRowAppend(rows, raw, [ESC]);
        NewRowAppend(rows, raw, Spell(u));
        EscapeStays(rows + [raw], k, u.code, tail, columns, raw, k);
      }
    }
  }

  lemma SpelledNotEmpty(rows: seq<Text>)
    requires rows != []
    ensures SpellRows(rows) != []
  {
  }

  lemma NewRowAppend(rows: seq<Text>, row: Text, s: Text)
    ensures Append(rows + [row], s) == rows + [row + s]
  {
  }

  lemma {:induction false} UnitsAreSpelled(st: Wrapping, word: Text, columns: int, indent: Text)
    requires st.rows != [] && NoLooseEscapes(word)
    requires (st.visible != columns && Width(indent) < columns) || forall u | u in word :: u.Glyph?
    ensures var st', raw, k := WrapUnits(st, word, columns, indent), SpellAll(indent), Width(indent);
            BreakAll(Breaking(SpellRows(st.rows), st.visible, false), SpellAll(word), columns, raw, k)
            == Breaking(SpellRows(st'.rows), st'.visible, false)
    decreases |word|
  {
    if word != [] {
      hide BreakAll, SpellRows, Append, Width;
      var u, rest := word[0], word[1..];
      assert u in word && forall v | v in rest :: v in word;
      SpelledIsEmpty(rest);
      UnitIsSpelled(st, u, SpellAll(rest), columns, indent);
      NotFull(st, u, columns, indent);
      if rest == [] {
        BreakNothing(WrapUnit(st, u, false, columns, indent), columns, indent);
      } else {
        UnitsAreSpelled(WrapUnit(st, u, true, columns, indent), rest, columns, indent);
      }
    }
  }

  lemma SpelledIsEmpty(t: Text)
    ensures SpellAll(t) == [] <==> t == []
  {
  }

  lemma BreakNothing(st: Wrapping, columns: int, indent: Text)
    requires st.rows != []
    ensures SpellRows(st.rows) != []
    ensures var b := Breaking(SpellRows(st.rows), st.visible, false);
            BreakAll(b, [], columns, SpellAll(indent), Width(indent)) == b
  {
  }

  /** As long as more follows, the row is never exactly full. */
  lemma NotFull(st: Wrapping, u: Unit, columns: int, indent: Text)
    requires st.rows != []
    ensures st.visible != columns && Width(indent) < columns
        ==> WrapUnit(st, u, true, columns, indent).visible != columns
  {
  }

  lemma RowIsSpelled(rows: seq<Text>, i: nat)
    requires i < |rows|
    ensures |SpellRows(rows)| == |rows| && SpellRows(rows)[i] == SpellAll(rows[i])
  {
  }

  lemma MergeIsSpelled(st: Wrapping)
    requires st.rows != []
    ensures SpellRows(st.rows) != []
    ensures MergeInvisible(Wrapping(SpellRows(st.rows), st.visible)) == SpellRows(MergeInvisible(st))
  {
    hide SpellAll;
    var n, rows := |st.rows|, st.rows;
    SpelledIsEmpty(Last(rows));
    if n > 1 {
      SpellConcat(rows[n - 2], rows[n - 1]);
      assert SpellRows(rows)[..n - 1] == SpellRows(rows[..n - 1]);
      SpellAppendText(rows[..n - 1], Last(rows));
    }
  }

  lemma SpellAppendText(rows: seq<Text>, t: Text)
    requires rows != []
    ensures SpellRows(rows) != [] && SpellRows(Append(rows, t)) == Append(SpellRows(rows), SpellAll(t))
  {
    hide SpellAll;
    SpellConcat(Last(rows), t);
  }

  /** The rows of a word of units, as they are when escapes are run through character by character. */
  function SpelledWordRows(rows: seq<Text>, word: Text, columns: int, indent: Text): seq<Text>
    requires rows != []
  {
    BrokenWordRows(SpellRows(rows), Width(Last(rows)), SpellAll(word), columns, SpellAll(indent), Width(indent))
  }

  /** No escape is torn: breaking the characters gives the characters of the broken units. */
  lemma EscapesStayWhole(rows: seq<Text>, word: Text, columns: int, indent: Text)
    requires rows != [] && NoLooseEscapes(word)
    requires (Width(Last(rows)) != columns && Width(indent) < columns) || forall u | u in word :: u.Glyph?
    ensures SpelledWordRows(rows, word, columns, indent) == SpellRows(WrappedWord(rows, word, columns, indent))
  {
    hide WrapUnits, BreakAll, SpellRows, Width, MergeInvisible;
    var st := Wrapping(rows, Width(Last(rows)));
    UnitsAreSpelled(st, word, columns, indent);
    MergeIsSpelled(WrapUnits(st, word, columns, indent));
    SpelledNotEmpty(rows);
  }

  // ---------------------------------------------------------------- escapes that are torn

  lemma BreakGrows(st: Breaking, character: Unit, more: bool, columns: int, indent: Text, indentLength: nat)
    requires st.rows != [] && st.visible >= 0
    ensures var st' := Break(st, character, more, columns, indent, indentLength);
            && st'.visible >= 0 && |st'.rows| >= |st.rows| && st'.rows[..|st.rows| - 1] == st.rows[..|st.rows| - 1]
  {
  }

  /** The end of an escape and a letter only change rows from the last one on, and end on a visible row. */
  lemma EscapeEnds(st: Breaking, columns: int, indent: Text, indentLength: nat)
    requires st.rows != [] && st.visible >= 0 && st.isInsideEscape
    ensures var st' := BreakAll(st, [Glyph('0', 1), Glyph('m', 1), X], columns, indent, indentLength);
            && st'.visible > 0 && |st'.rows| >= |st.rows| && st'.rows[..|st.rows| - 1] == st.rows[..|st.rows| - 1]
  {
    hide BreakAll, Break;
    var zero, m := Glyph('0', 1), Glyph('m', 1);
    assert [zero, m, X] == [zero] + [m, X] && [m, X] == [m] + [X] && [X] == [X] + [];
    BreakFirst(st, zero, [m, X], columns, indent, indentLength);
    var st1 := Break(st, zero, true, columns, indent, indentLength);
    BreakGrows(st, zero, true, columns, indent, indentLength);
    BreakFirst(st1, m, [X], columns, indent, indentLength);
    var st2 := Break(st1, m, true, columns, indent, indentLength);
    BreakGrows(st1, m, true, columns, indent, indentLength);
    BreakFirst(st2, X, [], columns, indent, indentLength);
    var st3 := Break(st2, X, false, columns, indent, indentLength);
    BreakGrows(st2, X, false, columns, indent, indentLength);
    InsideEscape(st, zero, st1, m, columns, indent, indentLength);
    LetterIsVisible(st2, columns, indent, indentLength);
    assert BreakAll(st3, [], columns, indent, indentLength) == st3 by {
      BreakEnd(st3, columns, indent, indentLength);
    }
  }

  lemma BreakEnd(st: Breaking, columns: int, indent: Text, indentLength: nat)
    requires st.rows != []
    ensures BreakAll(st, [], columns, indent, indentLength) == st
  {
  }

  lemma InsideEscape(st: Breaking, c: Unit, st1: Breaking, m: Unit, columns: int, indent: Text, indentLength: nat)
    requires st.rows != [] && st1.rows != [] && st.isInsideEscape && c == Glyph('0', 1) && m == Glyph('m', 1)
    requires st1 == Break(st, c, true, columns, indent, indentLength)
    ensures !Break(st1, m, true, columns, indent, indentLength).isInsideEscape
  {
  }

  lemma LetterIsVisible(st: Breaking, columns: int, indent: Text, indentLength: nat)
    requires st.rows != [] && st.visible >= 0 && !st.isInsideEscape
    ensures Break(st, X, false, columns, indent, indentLength).visible > 0
  {
  }

  /** An escape on a full row, or where a new row would be full at once: the code puts its characters on two rows. */
  lemma TornHere(rows: seq<Text>, visible: nat, columns: int, indent: Text, indentLength: nat)
    requires rows != [] && visible >= columns && (visible == columns || indentLength >= columns)
    ensures var b := BreakAll(Breaking(rows, visible, false), Spell(Sgr(0)) + [X], columns, indent, indentLength);
            if visible == columns then
              |b.rows| > |rows| && b.visible > 0 && b.rows[|rows| - 1] == Last(rows) + [ESC]
            else
              |b.rows| > |rows| + 1 && b.visible > 0 && b.rows[|rows|] == indent + [ESC]
  {
    hide BreakAll;
    var rest := [Glyph('0', 1), Glyph('m', 1), X];
    assert Digits(0) == "0" && Letters("[" + Digits(0)) == [Glyph('[', 1), Glyph('0', 1)];
    assert Spell(Sgr(0)) + [X] == [ESC] + ([Glyph('[', 1)] + rest);
    var st := Breaking(rows, visible, false);
    BreakFirst(st, ESC, [Glyph('[', 1)] + rest, columns, indent, indentLength);
    var st1 := Break(st, ESC, true, columns, indent, indentLength);
    BreakFirst(st1, Glyph('[', 1), rest, columns, indent, indentLength);
    var st2 := Break(st1, Glyph('[', 1), true, columns, indent, indentLength);
    assert st2.isInsideEscape && st2.rows == st1.rows + [indent + [Glyph('[', 1)]];
    EscapeEnds(st2, columns, indent, indentLength);
    var b := BreakAll(st2, rest, columns, indent, indentLength);
    assert b.rows[..|st1.rows|] == st1.rows;
    assert b.rows[|st1.rows| - 1] == st1.rows[|st1.rows| - 1];
  }

  lemma WholeHere(rows: seq<Text>, visible: nat, columns: int, indent: Text)
    requires rows != [] && visible >= columns && (visible == columns || Width(indent) >= columns)
    ensures var st' := WrapUnits(Wrapping(rows, visible), [Sgr(0), X], columns, indent);
            && st'.visible > 0
            && st'.rows == if visible == columns then Append(rows, [Sgr(0)]) + [indent + [X]]
                           else rows + [indent + [Sgr(0)]] + [indent + [X]]
  {
    hide Width;
    var st := Wrapping(rows, visible);
    var st1 := WrapUnit(st, Sgr(0), true, columns, indent);
    var st2 := WrapUnit(st1, X, false, columns, indent);
    assert [Sgr(0), X][1..] == [X] && [X][1..] == [];
    assert WrapUnits(st, [Sgr(0), X], columns, indent) == WrapUnits(st1, [X], columns, indent);
    assert WrapUnits(st1, [X], columns, indent) == WrapUnits(st2, [], columns, indent) == st2;
  }

  /** Row n of the characters ends in the bare escape character of the escape that row n of the units ends in. */
  predicate TornRow(characters: seq<Text>, rows: seq<Text>, n: nat, t: Text) {
    && n < |characters| && n < |rows|
    && characters[n] == SpellAll(t) + [ESC] && rows[n] == t + [Sgr(0)]
  }

  lemma TornFrom(rows: seq<Text>, visible: nat, columns: int, indent: Text)
    requires rows != [] && visible >= columns && (visible == columns || Width(indent) >= columns)
    ensures SpellRows(rows) != []
    ensures var raw, k, end := SpellAll(indent), Width(indent), [Sgr(0), X];
            var b := BreakAll(Breaking(SpellRows(rows), visible, false), SpellAll(end), columns, raw, k);
            var st' := WrapUnits(Wrapping(rows, visible), end, columns, indent);
            && b.visible > 0 && st'.visible > 0
            && if visible == columns then TornRow(b.rows, st'.rows, |rows| - 1, Last(rows))
               else TornRow(b.rows, st'.rows, |rows|, indent)
  {
    hide BreakAll, WrapUnits, Width, SpellAll, SpellRows, Spell;
    var raw, k, n := SpellAll(indent), Width(indent), |rows| - 1;
    SpellOne(Sgr(0));
    SpellOne(X);
    SpellConcat([Sgr(0)], [X]);
    LetterIsSpelled();
    assert [Sgr(0), X] == [Sgr(0)] + [X];
    RowIsSpelled(rows, n);
    TornHere(SpellRows(rows), visible, columns, raw, k);
    WholeHere(rows, visible, columns, indent);
  }

  /** What is torn is not what the units spell. */
  lemma TornDiffers(characters: seq<Text>, rows: seq<Text>, n: nat, t: Text)
    requires TornRow(characters, rows, n, t)
    ensures characters != SpellRows(rows)
  {
    EscapeIsLong(t);
    RowIsSpelled(rows, n);
  }

  lemma LetterIsSpelled()
    ensures Spell(X) == [X]
  {
  }

  lemma EscapeIsLong(t: Text)
    ensures |SpellAll(t + [Sgr(0)])| > |SpellAll(t) + [ESC]|
  {
    hide SpellAll;
    SpellConcat(t, [Sgr(0)]);
    SpellOne(Sgr(0));
  }

  /** Letters that fill the row, character by character. */
  lemma {:induction false} FillCharacters(rows: seq<Text>, visible: nat, k: nat, end: Text, columns: int, indent: Text)
    requires rows != [] && k > 0 && visible + k == columns && end != []
    ensures SpellRows(rows) != []
    ensures BreakAll(Breaking(SpellRows(rows), visible, false), SpellAll(Xs(k) + end), columns,
                     SpellAll(indent), Width(indent))
         == BreakAll(Breaking(SpellRows(Append(rows, Xs(k)) + [indent]), Width(indent), false), SpellAll(end), columns,
                     SpellAll(indent), Width(indent))
    decreases k
  {
    hide BreakAll, Width, SpellRows, Append;
    var rest := Xs(k - 1) + end;
    assert Xs(k) + end == [X] + rest && Xs(1) == [X];
    SpelledNotEmpty(rows);
    SpellOne(X);
    SpellConcat([X], rest);
    SpelledIsEmpty(rest);
    UnitIsSpelled(Wrapping(rows, visible), X, SpellAll(rest), columns, indent);
    assert WrapUnit(Wrapping(rows, visible), X, true, columns, indent)
        == if k == 1 then Wrapping(Append(rows, [X]) + [indent], Width(indent))
            else Wrapping(Append(rows, [X]), visible + 1);
    if k == 1 {
      assert rest == end;
    } else {
      FillCharacters(Append(rows, [X]), visible + 1, k - 1, end, columns, indent);
      AppendTwice(rows, [X], Xs(k - 1));
      assert [X] + Xs(k - 1) == Xs(k);
    }
  }

  /** Letters up to the last column, if there is any left, and an escape. */
  function TornWord(visible: nat, columns: int): Text {
    (if visible >= columns then [] else Xs(columns - visible)) + [Sgr(0), X]
  }

  /** A word whose escape is torn, and the row on which only its first character is left. */
  lemma EscapeIsTorn(rows: seq<Text>, columns: int, indent: Text) returns (n: nat, t: Text)
    requires rows != [] && (Width(Last(rows)) == columns || Width(indent) >= columns)
    ensures var word := TornWord(Width(Last(rows)), columns);
            && NoLooseEscapes(word) && (t == indent || t == Last(rows))
            && TornRow(SpelledWordRows(rows, word, columns, indent), WrappedWord(rows, word, columns, indent), n, t)
  {
    hide BreakAll, WrapUnits, Width, SpellRows, SpellAll, TornRow;
    var visible, end := Width(Last(rows)), [Sgr(0), X];
    if visible >= columns {
      assert TornWord(visible, columns) == end;
      TornFrom(rows, visible, columns, indent);
      n, t := if visible == columns then |rows| - 1 else |rows|, if visible == columns then Last(rows) else indent;
    } else {
      var front := Xs(columns - visible);
      var filled := Append(rows, front) + [indent];
      FillRow(Wrapping(rows, visible), columns - visible, end, columns, indent);
      FillCharacters(rows, visible, columns - visible, end, columns, indent);
      TornFrom(filled, Width(indent), columns, indent);
      n, t := if Width(indent) == columns then |filled| - 1 else |filled|, indent;
    }
  }

  /**
   Escapes stay whole in every word exactly when the row is not full to the last column and the indent
   is narrower than the columns.
   */
  lemma EscapesStayWholeIff(rows: seq<Text>, columns: int, indent: Text)
    requires rows != []
    ensures (forall word | NoLooseEscapes(word) ::
               SpelledWordRows(rows, word, columns, indent) == SpellRows(WrappedWord(rows, word, columns, indent)))
            <==> Width(Last(rows)) != columns && Width(indent) < columns
  {
    hide SpelledWordRows, WrappedWord, Width, SpellRows;
    if Width(Last(rows)) != columns && Width(indent) < columns {
      forall word | NoLooseEscapes(word)
        ensures SpelledWordRows(rows, word, columns, indent) == SpellRows(WrappedWord(rows, word, columns, indent))
      {
        EscapesStayWhole(rows, word, columns, indent);
      }
    } else {
      var word := TornWord(Width(Last(rows)), columns);
      var n, t := EscapeIsTorn(rows, columns, indent);
      TornDiffers(SpelledWordRows(rows, word, columns, indent), WrappedWord(rows, word, columns, indent), n, t);
    }
  }

  /** A whole text never meets such a row: words are broken at the end of one that is not full to the last column. */
  lemma BrokenRowsAreNotFull(open: seq<Text>, word: Text, columns: int, o: Options)
    requires open != [] && columns > 0 && Width(o.indent) < columns
    ensures var start := BreakOn(open, Width(Last(open)), Width(word), columns, o);
            start.Some? ==> Width(Last(start.value)) != columns
  {
    hide Width;
    if o.hard && Width(word) > columns && Width(Last(open)) == columns {
      assert FloorDiv(Width(word) - 1, columns) < 1 + FloorDiv(Width(word) - 0 - 1, columns);
    }
  }
}
