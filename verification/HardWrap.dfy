/**
 Breaking words: what a broken word of characters of width 1 looks like, how many rows a word takes, with
 escapes in it or not, and where a long word should start.
 */
module HardWrap {
  import opened WrapAnsi

  predicate Narrow(s: Text) {
    forall u | u in s :: u.Glyph? && u.w == 1
  }

  /** No wide characters. */
  predicate Slim(s: Text) {
    forall u | u in s :: UnitWidth(u) <= 1
  }

  lemma {:induction false} NarrowWidth(s: Text)
    requires Narrow(s)
    ensures Width(s) == |s|
  {
    if s != [] {
      assert s[0] in s && forall u | u in s[1..] :: u in s;
      NarrowWidth(s[1..]);
    }
  }

  /** The word cut into a first piece that fills the room left and further pieces of a fixed length. */
  function Chop(word: Text, room: nat, piece: nat): (pieces: seq<Text>)
    requires piece > 0
    ensures pieces != []
    decreases |word|, room == 0
  {
    if |word| <= room then [word]
    else [word[..room]] + Chop(word[room..], piece, piece)
  }

  function Indented(pieces: seq<Text>, indent: Text): seq<Text> {
    seq(|pieces|, i requires 0 <= i < |pieces| => indent + pieces[i])
  }

  /** The first piece continues the last row; each other piece gets a row of its own. */
  function Lay(rows: seq<Text>, pieces: seq<Text>, indent: Text): seq<Text>
    requires rows != [] && pieces != []
  {
    Append(rows, pieces[0]) + Indented(pieces[1..], indent)
  }

  function Room(columns: int, visible: int): nat {
    if visible < columns then columns - visible else 0
  }

  lemma LayCons(rows: seq<Text>, u: Unit, pieces: seq<Text>, indent: Text)
    requires rows != [] && pieces != []
    ensures Lay(Append(rows, [u]), pieces, indent) == Lay(rows, [[u] + pieces[0]] + pieces[1..], indent)
  {
    var n := |rows| - 1;
    assert ([[u] + pieces[0]] + pieces[1..])[1..] == pieces[1..];
    assert Last(rows) + [u] + pieces[0] == Last(rows) + ([u] + pieces[0]);
  }

  lemma LayRow(rows: seq<Text>, pieces: seq<Text>, indent: Text)
    requires rows != [] && pieces != []
    ensures Lay(rows + [indent], pieces, indent) == Lay(rows, [[]] + pieces, indent)
  {
    assert ([[]] + pieces)[1..] == pieces;
    assert Append(rows, []) == rows by { assert Last(rows) + [] == Last(rows); }
    assert Indented(pieces, indent) == [indent + pieces[0]] + Indented(pieces[1..], indent);
  }

  lemma ChopCons(word: Text, room: nat, piece: nat)
    requires piece > 0 && room > 0 && word != []
    ensures var rest := Chop(word[1..], room - 1, piece);
            Chop(word, room, piece) == [[word[0]] + rest[0]] + rest[1..]
  {
    if |word| <= room {
      assert word == [word[0]] + word[1..];
    } else {
      assert word[..room] == [word[0]] + word[1..][..room - 1];
      assert word[1..][room - 1..] == word[room..];
    }
  }

  lemma ChopFull(word: Text, piece: nat)
    requires piece > 0 && word != []
    ensures Chop(word, 0, piece) == [[]] + Chop(word, piece, piece)
  {
    assert word[..0] == [] && word[0..] == word;
  }

  /** The state of the code's loop over the characters: the rows are laid out as the chopped word says. */
  lemma {:induction false} UnitsLayChopped(st: Wrapping, word: Text, columns: int, indent: Text)
    requires st.rows != [] && Narrow(word) && word != [] && Width(indent) < columns && st.visible >= 0
    ensures var st' := WrapUnits(st, word, columns, indent);
            && st'.visible > 0
            && st'.rows == Lay(st.rows, Chop(word, Room(columns, st.visible), columns - Width(indent)), indent)
    decreases |word|
  {
    var u, rest := word[0], word[1..];
    assert u in word && forall v | v in rest :: v in word;
    var piece := columns - Width(indent);
    if st.visible < columns {
      OneUnit(st, word, columns, indent);
    } else {
      var st1 := Wrapping(st.rows + [indent], Width(indent));
      assert Append(st1.rows, [u]) == st.rows + [indent + [u]];
      assert WrapUnit(st, u, |word| > 1, columns, indent) == WrapUnit(st1, u, |word| > 1, columns, indent);
      OneUnit(st1, word, columns, indent);
      LayRow(st.rows, Chop(word, piece, piece), indent);
      ChopFull(word, piece);
    }
  }

  lemma LayNothing(rows: seq<Text>, room: nat, piece: nat, indent: Text)
    requires rows != [] && piece > 0
    ensures Lay(rows, Chop([], room, piece), indent) == rows
  {
    assert Last(rows) + [] == Last(rows);
  }

  lemma RoomIs(columns: int, visible: int)
    ensures visible < columns ==> Room(columns, visible) == columns - visible
  {
  }

  lemma {:induction false} OneUnit(st: Wrapping, word: Text, columns: int, indent: Text)
    requires st.rows != [] && Narrow(word) && word != [] && Width(indent) < columns && 0 <= st.visible < columns
    ensures var st' := WrapUnits(st, word, columns, indent);
            && st'.visible > 0
            && st'.rows == Lay(st.rows, Chop(word, columns - st.visible, columns - Width(indent)), indent)
    decreases |word|, 0
  {
    hide Chop, Lay, Width, Room;
    var u, rest := word[0], word[1..];
    assert u in word && forall v | v in rest :: v in word;
    var piece, room := columns - Width(indent), columns - st.visible;
    var rows1, st1 := Append(st.rows, [u]), WrapUnit(st, u, |word| > 1, columns, indent);
    var cut := Chop(rest, room - 1, piece);
    ChopCons(word, room, piece);
    LayCons(st.rows, u, cut, indent);
    if rest == [] {
      LayNothing(rows1, room - 1, piece, indent);
    } else {
      UnitsLayChopped(st1, rest, columns, indent);
      RoomIs(columns, st1.visible);
      if room == 1 {
        LayRow(rows1, Chop(rest, piece, piece), indent);
        ChopFull(rest, piece);
      }
    }
  }

  // ---------------------------------------------------------------- an indent that leaves no room

  function Singles(word: Text): seq<Text> {
    seq(|word|, i requires 0 <= i < |word| => [word[i]])
  }

  /**
   The pieces of a broken word.  Beside an indent that leaves no room every character gets a row of its
   own, after a bare indent where the first row has been filled.
   */
  function Cut(word: Text, room: nat, piece: int): (pieces: seq<Text>)
    ensures pieces != []
  {
    if piece > 0 then Chop(word, room, piece)
    else if |word| <= room then [word]
    else if room == 0 then [[]] + Singles(word)
    else [word[..room], []] + Singles(word[room..])
  }

  lemma {:induction false} UnitsAlone(st: Wrapping, word: Text, columns: int, indent: Text)
    requires st.rows != [] && Narrow(word) && word != [] && Width(indent) >= columns && st.visible >= columns
    requires Width(indent) >= 0
    ensures var st' := WrapUnits(st, word, columns, indent);
            st'.visible > 0 && st'.rows == st.rows + Indented(Singles(word), indent)
    decreases |word|
  {
    hide Width;
    var u, rest := word[0], word[1..];
    assert u in word && forall v | v in rest :: v in word;
    var st1 := WrapUnit(st, u, |word| > 1, columns, indent);
    assert st1 == Wrapping(st.rows + [indent + [u]], Width(indent) + 1);
    assert Singles(word) == [[u]] + Singles(rest);
    assert Indented(Singles(word), indent) == [indent + [u]] + Indented(Singles(rest), indent);
    if rest != [] {
      UnitsAlone(st1, rest, columns, indent);
    } else {
      assert Indented(Singles(rest), indent) == [];
    }
  }

  lemma CutCons(word: Text, room: nat, piece: int)
    requires piece <= 0 && room > 1 && |word| > 1
    ensures var cut := Cut(word[1..], room - 1, piece);
            Cut(word, room, piece) == [[word[0]] + cut[0]] + cut[1..]
  {
    var u, rest := word[0], word[1..];
    assert word == [u] + rest;
    if room < |word| {
      assert word[..room] == [u] + rest[..room - 1] && word[room..] == rest[room - 1..];
    }
  }

  lemma LayAlone(rows: seq<Text>, word: Text, room: nat, piece: int, indent: Text)
    requires rows != [] && |word| == 1 && room >= 1 && piece <= 0
    ensures Lay(rows, Cut(word, room, piece), indent) == Append(rows, [word[0]])
  {
    assert word == [word[0]];
  }

  lemma LayAfterOne(rows: seq<Text>, word: Text, piece: int, indent: Text)
    requires rows != [] && |word| > 1 && piece <= 0
    ensures Lay(rows, Cut(word, 1, piece), indent)
            == Append(rows, [word[0]]) + [indent] + Indented(Singles(word[1..]), indent)
  {
    var u, singles := word[0], Singles(word[1..]);
    assert word[..1] == [u] && Cut(word, 1, piece) == [[u], []] + singles;
    assert Indented([[]] + singles, indent) == [indent + []] + Indented(singles, indent);
    assert indent + [] == indent && ([[u], []] + singles)[1..] == [[]] + singles;
  }

  lemma {:induction false} UnitsFillThenAlone(st: Wrapping, word: Text, columns: int, indent: Text)
    requires st.rows != [] && Narrow(word) && word != [] && Width(indent) >= columns && 0 <= st.visible < columns
    ensures var st' := WrapUnits(st, word, columns, indent);
            && st'.visible > 0
            && st'.rows == Lay(st.rows, Cut(word, columns - st.visible, columns - Width(indent)), indent)
    decreases |word|
  {
    hide Width, Cut, Lay;
    var u, rest, room := word[0], word[1..], columns - st.visible;
    assert u in word && forall v | v in rest :: v in word;
    var st1 := WrapUnit(st, u, |word| > 1, columns, indent);
    var rows1 := Append(st.rows, [u]);
    assert st1 == if room == 1 && rest != [] then Wrapping(rows1 + [indent], Width(indent))
        else Wrapping(rows1, st.visible + 1);
    hide WrapUnit, Append;
    if rest == [] {
      LayAlone(st.rows, word, room, columns - Width(indent), indent);
    } else if room > 1 {
      UnitsFillThenAlone(st1, rest, columns, indent);
      CutCons(word, room, columns - Width(indent));
      LayCons(st.rows, u, Cut(rest, room - 1, columns - Width(indent)), indent);
    } else {
      UnitsAlone(st1, rest, columns, indent);
      LayAfterOne(st.rows, word, columns - Width(indent), indent);
    }
  }

  /** A broken word is the word cut to the room left in the row and then to the width beside the indent. */
  lemma BrokenWord(rows: seq<Text>, word: Text, columns: int, indent: Text)
    requires rows != [] && Narrow(word) && word != []
    ensures WrappedWord(rows, word, columns, indent)
         == Lay(rows, Cut(word, Room(columns, Width(Last(rows))), columns - Width(indent)), indent)
  {
    var st := Wrapping(rows, Width(Last(rows)));
    if Width(indent) < columns {
      UnitsLayChopped(st, word, columns, indent);
    } else if st.visible < columns {
      UnitsFillThenAlone(st, word, columns, indent);
    } else {
      UnitsAlone(st, word, columns, indent);
      assert ([[]] + Singles(word))[1..] == Singles(word) && Last(rows) + [] == Last(rows);
    }
  }

  // ---------------------------------------------------------------- counting the rows

  lemma ProductAtLeast(x: int, b: int)
    requires b > 0 && x >= 1
    ensures x * b >= b
  {
  }

  lemma DivIs(a: int, b: int, q: int, r: int)
    requires b > 0 && a == q * b + r && 0 <= r < b
    ensures a / b == q
  {
    var p, s := a / b, a % b;
    assert a == p * b + s;
    if p < q {
      assert (q - p) * b == q * b - p * b;
      ProductAtLeast(q - p, b);
    } else if q < p {
      assert (p - q) * b == p * b - q * b;
      ProductAtLeast(p - q, b);
    }
  }

  lemma DivStep(a: int, b: int)
    requires b > 0
    ensures (a + b) / b == a / b + 1
  {
    var q, r := a / b, a % b;
    assert a == q * b + r;
    assert (q + 1) * b == q * b + b;
    DivIs(a + b, b, q + 1, r);
  }

  lemma DivSmall(a: nat, b: nat)
    requires a < b
    ensures a / b == 0
  {
  }

  lemma DivMonotone(a: int, a': int, b: int)
    requires b > 0 && a <= a'
    ensures a / b <= a' / b
  {
    var q, r, q', r' := a / b, a % b, a' / b, a' % b;
    assert a == q * b + r && a' == q' * b + r';
    if q' < q {
      assert (q - q') * b == q * b - q' * b;
      ProductAtLeast(q - q', b);
    }
  }

  lemma {:induction false} ChopLaws(word: Text, room: nat, piece: nat)
    requires piece > 0
    ensures var pieces := Chop(word, room, piece);
            && Flatten(pieces) == word
            && |pieces| == (if |word| <= room then 1 else 2 + (|word| - room - 1) / piece)
            && |pieces[0]| <= room
            && forall i | 1 <= i < |pieces| :: 1 <= |pieces[i]| <= piece
    decreases |word|, room == 0
  {
    if |word| <= room {
      assert Flatten([word]) == word + Flatten([]);
    } else {
      var rest := word[room..];
      ChopLaws(rest, piece, piece);
      assert word == word[..room] + rest;
      assert ([word[..room]] + Chop(rest, piece, piece))[1..] == Chop(rest, piece, piece);
      if |rest| <= piece {
        DivSmall(|rest| - 1, piece);
        assert Chop(rest, piece, piece) == [rest];
      } else {
        DivStep(|rest| - 1 - piece, piece);
      }
    }
  }

  lemma {:induction false} FlattenSingles(word: Text)
    ensures Flatten(Singles(word)) == word
  {
    if word != [] {
      FlattenSingles(word[1..]);
      assert Singles(word) == [[word[0]]] + Singles(word[1..]);
      assert Singles(word)[1..] == Singles(word[1..]) && word == [word[0]] + word[1..];
    }
  }

  /** The number of rows that a word of the given length adds to a row with the given room. */
  function RowsAdded(length: nat, room: nat, piece: int): nat {
    if length <= room then 0
    else if piece > 0 then 1 + (length - room - 1) / piece
    else length - room + if room > 0 then 1 else 0
  }

  lemma CutLaws(word: Text, room: nat, piece: int)
    ensures var pieces := Cut(word, room, piece);
            && Flatten(pieces) == word
            && |pieces| == 1 + RowsAdded(|word|, room, piece)
            && |pieces[0]| <= room
            && (piece > 0 ==> forall i | 1 <= i < |pieces| :: 1 <= |pieces[i]| <= piece)
  {
    if piece > 0 {
      ChopLaws(word, room, piece);
    } else if |word| <= room {
      assert Flatten([word]) == word + Flatten([]);
    } else {
      hide Flatten, Chop;
      var front, rest := word[..room], word[room..];
      FlattenSingles(rest);
      assert word == front + rest;
      var singles := Singles(rest);
      assert [front] + ([[]] + singles) == [front, []] + singles;
      assert [] + rest == rest;
    }
  }

  lemma IndentedContents(pieces: seq<Text>, indent: Text, i: nat)
    requires i < |pieces|
    ensures Indented(pieces, indent)[i] == indent + pieces[i]
    ensures Width(Indented(pieces, indent)[i]) == Width(indent) + Width(pieces[i])
  {
    WidthConcat(indent, pieces[i]);
  }

  lemma {:induction false} NarrowPieces(pieces: seq<Text>)
    requires Narrow(Flatten(pieces))
    ensures forall p | p in pieces :: Narrow(p)
  {
    if pieces != [] {
      assert forall u | u in pieces[0] :: u in Flatten(pieces);
      assert forall u | u in Flatten(pieces[1..]) :: u in Flatten(pieces);
      NarrowPieces(pieces[1..]);
    }
  }

  /**
   Breaking a word loses nothing and adds the promised number of rows: the characters of the word run
   on, in order, from the end of the last row through the new rows after their indents; the number of new
   rows is the formula, with the room taken up by the indent; and when the indent leaves room, every new
   row, and the last old one if it got any character, fits.
   */
  lemma WrapWordLaws(rows: seq<Text>, word: Text, columns: int, indent: Text)
    requires rows != [] && Narrow(word) && word != []
    ensures var out, n := WrappedWord(rows, word, columns, indent), |rows|;
            var room, piece := Room(columns, Width(Last(rows))), columns - Width(indent);
            var pieces := Cut(word, room, piece);
            && Flatten(pieces) == word
            && |out| == n - 1 + |pieces| == n + RowsAdded(|word|, room, piece)
            && out[..n - 1] == rows[..n - 1]
            && out[n - 1] == Last(rows) + pieces[0]
            && (forall i | 1 <= i < |pieces| :: out[n - 1 + i] == indent + pieces[i])
            && (piece > 0 ==> out[n - 1] == Last(rows) || Width(out[n - 1]) <= columns)
            && (piece > 0 ==> forall i | n <= i < |out| :: Width(out[i]) <= columns)
  {
    hide Cut, WrappedWord, Width, Flatten, RowsAdded;
    var room, piece := Room(columns, Width(Last(rows))), columns - Width(indent);
    var pieces, out, n := Cut(word, room, piece), WrappedWord(rows, word, columns, indent), |rows|;
    BrokenWord(rows, word, columns, indent);
    CutLaws(word, room, piece);
    NarrowPieces(pieces);
    assert pieces[0] in pieces;
    NarrowWidth(pieces[0]);
    WidthConcat(Last(rows), pieces[0]);
    if |pieces[0]| == 0 {
      assert Last(rows) + pieces[0] == Last(rows);
    }
    forall i | 1 <= i < |pieces|
      ensures out[n - 1 + i] == indent + pieces[i] && (piece > 0 ==> Width(out[n - 1 + i]) <= columns)
    {
      assert pieces[i] in pieces;
      NarrowWidth(pieces[i]);
      IndentedContents(pieces[1..], indent, i - 1);
    }
    forall i | n <= i < |out| && piece > 0 ensures Width(out[i]) <= columns {
      assert out[i] == out[n - 1 + (i - n + 1)];
    }
  }

  // ---------------------------------------------------------------- words with escapes

  /** Rows that a word of the given width adds beside no indent, when the row is already this wide. */
  function RowsFor(width: nat, visible: nat, columns: nat): nat
    requires columns > 0
  {
    if width == 0 then 0 else RowsAdded(width, Room(columns, visible), columns)
  }

  lemma RowsFromZero(width: nat, columns: nat)
    requires columns > 0 && width > 0
    ensures RowsFor(width, 0, columns) == (width - 1) / columns
    ensures forall visible: nat | visible >= columns :: RowsFor(width, visible, columns) == 1 + (width - 1) / columns
  {
    if width <= columns {
      DivSmall(width - 1, columns);
    } else {
      DivStep(width - 1 - columns, columns);
    }
  }

  /** The same for one character: where it goes, and what is then left to count. */
  lemma CountStep(visible: nat, w: nat, escape: bool, more: bool, rest: nat, columns: nat)
    requires columns > 0 && w <= 1 && (escape ==> w == 0) && (!more ==> rest == 0)
    ensures var placed := (if visible + w > columns then 0 else visible) + w;
            var again := !escape && placed == columns && more;
            var visible' := if again then 0 else placed;
            var rows := (if visible + w > columns then 1 else 0) + (if again then 1 else 0);
            rows + RowsFor(rest, visible', columns)
            == RowsFor(w + rest, visible, columns) + if rest == 0 && visible' == 0 && rows > 0 then 1 else 0
  {
    if rest > 0 {
      RowsFromZero(rest, columns);
      RowsFromZero(w + rest, columns);
    }
  }

  lemma UnitRows(st: Wrapping, u: Unit, more: bool, columns: nat, indent: Text)
    requires st.rows != [] && Width(indent) == 0
    ensures var st' := WrapUnit(st, u, more, columns, indent);
            var placed := (if st.visible + UnitWidth(u) > columns then 0 else st.visible) + UnitWidth(u);
            var again := !u.Sgr? && placed == columns && more;
            && st'.visible == (if again then 0 else placed)
            && |st'.rows| == |st.rows| + (if st.visible + UnitWidth(u) > columns then 1 else 0)
                             + (if again then 1 else 0)
            && (!more ==> Last(st'.rows) != [])
  {
  }

  /** What one character does to the count; a row that only holds escapes is merged in the end. */
  lemma {:induction false} UnitsCount(st: Wrapping, word: Text, columns: nat, indent: Text)
    requires st.rows != [] && st.visible >= 0 && Slim(word) && Width(indent) == 0 && columns > 0
    ensures var st' := WrapUnits(st, word, columns, indent);
            && st'.visible >= 0 && |st'.rows| >= |st.rows|
            && (word != [] ==> Last(st'.rows) != [])
            && (Width(word) == 0 && st.visible == 0 ==> st'.visible == 0 && |st'.rows| == |st.rows|)
            && (|st'.rows| == |st.rows| ==> st'.visible == st.visible + Width(word))
            && |st'.rows| - |st.rows| == RowsFor(Width(word), st.visible, columns)
                                         + (if st'.visible == 0 && |st'.rows| > |st.rows| then 1 else 0)
    decreases |word|
  {
    if word != [] {
      assert Width(word) == UnitWidth(word[0]) + Width(word[1..]);
      hide RowsFor, Width, WrapUnit;
      var u, rest := word[0], word[1..];
      assert u in word && forall v | v in rest :: v in word;
      var st1 := WrapUnit(st, u, |word| > 1, columns, indent);
      UnitRows(st, u, |word| > 1, columns, indent);
      UnitsCount(st1, rest, columns, indent);
      CountStep(st.visible, UnitWidth(u), u.Sgr?, |word| > 1, Width(rest), columns);
    }
  }

  /** Beside no indent the number of rows depends on the widths alone, whatever escapes the word holds. */
  lemma RowsOfWord(rows: seq<Text>, word: Text, columns: nat, indent: Text)
    requires rows != [] && Slim(word) && Width(word) > 0 && Width(indent) == 0 && columns > 0
    ensures |WrappedWord(rows, word, columns, indent)| - |rows| == RowsFor(Width(word), Width(Last(rows)), columns)
  {
    hide WrapUnits, RowsFor;
    UnitsCount(Wrapping(rows, Width(Last(rows))), word, columns, indent);
  }

  // ---------------------------------------------------------------- where a long word starts

  /**
   Beside no indent the two figures of the code are the numbers of rows it would add, and a long word
   starts on a new row exactly when that takes no more rows than starting here.
   */
  lemma StartsWhereItTakesFewestRows(rows: seq<Text>, word: Text, columns: nat, indent: Text)
    requires rows != [] && Slim(word) && Width(word) > columns > 0 && Width(indent) == 0
    ensures var rowLength, length := Width(Last(rows)), Width(word);
            var here, below :=
              WrappedWord(rows, word, columns, indent), WrappedWord(rows + [indent], word, columns, indent);
            && (rowLength <= columns ==> |here| - |rows| == 1 + FloorDiv(length - (columns - rowLength) - 1, columns))
            && |below| - |rows| == 1 + FloorDiv(length - 1, columns)
            && (StartsOnNewRow(length, rowLength, columns) <==> |below| <= |here|)
  {
    hide WrappedWord, Width;
    var rowLength, length := Width(Last(rows)), Width(word);
    RowsOfWord(rows, word, columns, indent);
    RowsOfWord(rows + [indent], word, columns, indent);
    RowsFromZero(length, columns);
    if rowLength > columns {
      DivMonotone(length - 1, length - (columns - rowLength) - 1, columns);
    }
  }

  // ---------------------------------------------------------------- when broken rows fit

  ghost predicate SticksOut(rows: seq<Text>, n: nat, columns: int) {
    exists i | n <= i < |rows| :: Width(rows[i]) > columns
  }

  lemma {:induction false} UnitsKeepOverlong(st: Wrapping, word: Text, columns: int, indent: Text, n: nat)
    requires st.rows != [] && SticksOut(st.rows, n, columns)
    ensures SticksOut(WrapUnits(st, word, columns, indent).rows, n, columns)
    decreases |word|
  {
    if word != [] {
      var st1 := WrapUnit(st, word[0], |word| > 1, columns, indent);
      var i :| n <= i < |st.rows| && Width(st.rows[i]) > columns;
      WidthConcat(Last(st.rows), [word[0]]);
      assert Width(st1.rows[i]) > columns;
      UnitsKeepOverlong(st1, word[1..], columns, indent, n);
    }
  }

  lemma {:induction false} UnitsOverflow(st: Wrapping, word: Text, columns: int, indent: Text, n: nat)
    requires st.rows != [] && n <= |st.rows| && Narrow(word) && Width(indent) >= columns
    requires word != [] && st.visible + |word| > columns
    ensures SticksOut(WrapUnits(st, word, columns, indent).rows, n, columns)
    decreases |word|
  {
    var u, st1 := word[0], WrapUnit(st, word[0], |word| > 1, columns, indent);
    assert u in word && forall v | v in word[1..] :: v in word;
    if st.visible + 1 > columns {
      WidthConcat(indent, [u]);
      assert Width([u]) == 1 + Width([]);
      assert st1.rows[|st.rows|] == indent + [u];
      UnitsKeepOverlong(st1, word[1..], columns, indent, n);
    } else {
      UnitsOverflow(st1, word[1..], columns, indent, n);
    }
  }

  lemma {:induction false} VisibleAtEnd(st: Wrapping, word: Text, columns: int, indent: Text)
    requires st.rows != [] && Narrow(word) && word != [] && st.visible >= 0
    ensures WrapUnits(st, word, columns, indent).visible > 0
    decreases |word|
  {
    var st1 := WrapUnit(st, word[0], |word| > 1, columns, indent);
    assert word[0] in word && forall v | v in word[1..] :: v in word;
    if |word| > 1 {
      VisibleAtEnd(st1, word[1..], columns, indent);
    }
  }

  /**
   Whether a word that is too long for its row can be broken within the columns depends on the indent
   alone: every new row fits exactly when the indent is narrower than the columns.
   */
  lemma BrokenRowsFitIff(rows: seq<Text>, word: Text, columns: int, indent: Text)
    requires rows != [] && Narrow(word) && word != [] && Width(Last(rows)) + |word| > columns
    ensures Width(indent) < columns
            <==> forall i | |rows| <= i < |WrappedWord(rows, word, columns, indent)| ::
                   Width(WrappedWord(rows, word, columns, indent)[i]) <= columns
  {
    if Width(indent) < columns {
      WrapWordLaws(rows, word, columns, indent);
    } else {
      var st := Wrapping(rows, Width(Last(rows)));
      UnitsOverflow(st, word, columns, indent, |rows|);
      VisibleAtEnd(st, word, columns, indent);
      var out := WrappedWord(rows, word, columns, indent);
      assert out == WrapUnits(st, word, columns, indent).rows;
      var i :| |rows| <= i < |out| && Width(out[i]) > columns;
    }
  }

  // ---------------------------------------------------------------- words of one letter

  const X := Glyph('x', 1)

  function Xs(n: nat): Text {
    seq(n, _ => X)
  }

  lemma {:induction false} SplitTwoWords(n: nat)
    ensures Split(Xs(n), SPACE) == [Xs(n)]
    ensures Split([X, SPACE] + Xs(n), SPACE) == [[X], Xs(n)]
  {
    if n > 0 {
      assert Xs(n)[1..] == Xs(n - 1);
      SplitTwoWords(n - 1);
      assert Xs(n) == [X] + Xs(n - 1);
    }
    var s := [X, SPACE] + Xs(n);
    assert s[1..] == [SPACE] + Xs(n) && s[1..][1..] == Xs(n);
    var rest := [[]] + [Xs(n)];
    assert Split(s[1..], SPACE) == rest;
    assert rest[1..] == [Xs(n)] && [X] + rest[0] == [X] && s[0] == X && X.c != SPACE.c;
  }

  /** Letters that fill the row, and the break after them. */
  lemma {:induction false} FillRow(st: Wrapping, k: nat, rest: Text, columns: int, indent: Text)
    requires st.rows != [] && k > 0 && rest != [] && st.visible + k == columns
    ensures WrapUnits(st, Xs(k) + rest, columns, indent)
            == WrapUnits(Wrapping(Append(st.rows, Xs(k)) + [indent], Width(indent)), rest, columns, indent)
    decreases k
  {
    var word := Xs(k) + rest;
    assert word[0] == X && word[1..] == Xs(k - 1) + rest;
    assert [X] + Xs(k - 1) == Xs(k);
    assert Append(Append(st.rows, [X]), Xs(k - 1)) == Append(st.rows, Xs(k)) by {
      assert Last(st.rows) + [X] + Xs(k - 1) == Last(st.rows) + Xs(k);
    }
    var st1 := WrapUnit(st, X, true, columns, indent);
    if k == 1 {
      assert word[1..] == rest && Xs(1) == [X];
    } else {
      FillRow(st1, k - 1, rest, columns, indent);
    }
  }

  /** A long word at the start of a row is broken right there. */
  lemma StartsHereAtZero(length: nat, columns: int)
    requires columns > 0
    ensures !StartsOnNewRow(length, 0, columns)
  {
    DivStep(length - columns - 1, columns);
  }
}
