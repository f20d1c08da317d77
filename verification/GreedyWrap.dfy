/**
 Soft mode, the default: the rows are those of the greedy layout, and no layout of the words that
 fits as well uses fewer rows.
 */
module GreedyWrap {
  import opened WrapAnsi

  predicate IsWord(w: Text) {
    Width(w) > 0 && forall u | u in w :: !IsWhitespace(u)
  }

  predicate AllWords(words: seq<Text>) {
    forall w | w in words :: IsWord(w)
  }

  predicate SoftOptions(o: Options) {
    o.trim && o.wordWrap && !o.hard && (o.indent == [] || !IsWhitespace(o.indent[0]))
  }

  // ---------------------------------------------------------------- layouts

  type Layout = seq<seq<Text>>

  /** The text of a row: its words with single spaces, after the indent unless it is the first row. */
  function RowText(l: Layout, j: nat, indent: Text): Text
    requires j < |l|
  {
    (if j == 0 then [] else indent) + Join(l[j], SPACE)
  }

  ghost predicate RowFits(l: Layout, j: nat, columns: int, indent: Text)
    requires j < |l|
  {
    l[j] != [] && (|l[j]| == 1 || Width(RowText(l, j, indent)) <= columns)
  }

  /** A layout breaks the words, in order, into non-empty rows that fit or hold just one word. */
  ghost predicate Lays(l: Layout, words: seq<Text>, columns: int, indent: Text) {
    Flatten(l) == words && forall j | 0 <= j < |l| :: RowFits(l, j, columns, indent)
  }

  /** Puts the next word on the last row, or on a row of its own. */
  function AddWord(l: Layout, w: Text, sameRow: bool): (l': Layout)
    requires l != []
    ensures l' != []
  {
    if sameRow then l[..|l| - 1] + [l[|l| - 1] + [w]] else l + [[w]]
  }

  predicate FitsOnLastRow(l: Layout, w: Text, columns: int, indent: Text)
    requires l != []
  {
    Width(RowText(l, |l| - 1, indent)) + 1 + Width(w) <= columns
  }

  function Greedy(words: seq<Text>, columns: int, indent: Text): Layout {
    if words == [] then []
    else
      var n := |words| - 1;
      var l, w := Greedy(words[..n], columns, indent), words[n];
      if l == [] then [[w]] else AddWord(l, w, FitsOnLastRow(l, w, columns, indent))
  }

  // ---------------------------------------------------------------- the widths of rows

  lemma ExtendedRow(row: seq<Text>, w: Text, lead: Text)
    requires row != []
    ensures lead + Join(row + [w], SPACE) == (lead + Join(row, SPACE)) + [SPACE] + w
    ensures Width(lead + Join(row + [w], SPACE)) == Width(lead + Join(row, SPACE)) + 1 + Width(w)
  {
    JoinNewest(row, w, SPACE);
    var text := lead + Join(row, SPACE);
    assert lead + (Join(row, SPACE) + [SPACE] + w) == text + [SPACE] + w;
    WidthConcat(text + [SPACE], w);
    WidthConcat(text, [SPACE]);
    assert Width([SPACE]) == 1 + Width([]);
  }

  /** Dropping words from the front of a row does not make it wider. */
  lemma {:induction false} SuffixIsNarrower(row: seq<Text>, k: nat, lead: Text)
    requires k < |row|
    ensures Width(lead + Join(row[k..], SPACE)) <= Width(lead + Join(row, SPACE))
  {
    WidthConcat(lead, Join(row[k..], SPACE));
    WidthConcat(lead, Join(row, SPACE));
    if k == 0 {
      assert row[0..] == row;
    } else {
      SuffixIsNarrower(row[1..], k - 1, []);
      assert row[1..][k - 1..] == row[k..];
      assert [] + Join(row[k..], SPACE) == Join(row[k..], SPACE) && [] + Join(row[1..], SPACE) == Join(row[1..], SPACE);
      WidthConcat(row[0] + [SPACE], Join(row[1..], SPACE));
    }
  }

  lemma FlattenNewest(l: Layout, row: seq<Text>)
    ensures Flatten(l + [row]) == Flatten(l) + row
  {
    FlattenConcat(l, [row]);
    assert Flatten([row]) == row + Flatten([]);
  }

  /** The last row of a layout and what comes before it. */
  lemma LastRow(l: Layout, words: seq<Text>)
    requires l != [] && Flatten(l) == words && l[|l| - 1] != []
    ensures var row := l[|l| - 1];
            && |row| <= |words| && row == words[|words| - |row|..]
            && Flatten(l[..|l| - 1]) == words[..|words| - |row|]
  {
    hide Flatten;
    assert l == l[..|l| - 1] + [l[|l| - 1]];
    FlattenNewest(l[..|l| - 1], l[|l| - 1]);
  }

  // ---------------------------------------------------------------- greedy is a layout, and the best one

  lemma SameRow(l: Layout, l': Layout, j: nat, columns: int, indent: Text)
    requires j < |l| && j < |l'| && l[j] == l'[j]
    ensures RowText(l, j, indent) == RowText(l', j, indent)
    ensures RowFits(l, j, columns, indent) <==> RowFits(l', j, columns, indent)
  {
  }

  lemma AddWordLays(l: Layout, words: seq<Text>, w: Text, sameRow: bool, columns: int, indent: Text)
    requires l != [] && Lays(l, words, columns, indent)
    requires sameRow ==> FitsOnLastRow(l, w, columns, indent)
    ensures Lays(AddWord(l, w, sameRow), words + [w], columns, indent)
  {
    hide RowText, Flatten, RowFits, Width;
    var k, l' := |l| - 1, AddWord(l, w, sameRow);
    if sameRow {
      LastRowGrows(l, w, columns, indent);
      assert l == l[..k] + [l[k]];
      FlattenNewest(l[..k], l[k]);
      FlattenNewest(l[..k], l[k] + [w]);
    } else {
      LoneWordFits(l, w, columns, indent);
      FlattenNewest(l, [w]);
    }
    forall j | 0 <= j < |l'| ensures RowFits(l', j, columns, indent) {
      if j < k || (j == k && !sameRow) {
        assert RowFits(l, j, columns, indent);
        SameRow(l, l', j, columns, indent);
      }
    }
  }

  lemma LoneWordFits(l: Layout, w: Text, columns: int, indent: Text)
    ensures RowFits(l + [[w]], |l|, columns, indent)
  {
  }

  lemma LastRowGrows(l: Layout, w: Text, columns: int, indent: Text)
    requires l != [] && RowFits(l, |l| - 1, columns, indent)
    requires FitsOnLastRow(l, w, columns, indent)
    ensures RowFits(AddWord(l, w, true), |l| - 1, columns, indent)
  {
    hide Width, Join;
    var k := |l| - 1;
    ExtendedRow(l[k], w, if k == 0 then [] else indent);
  }

  lemma NothingLays(columns: int, indent: Text)
    ensures Lays([], [], columns, indent)
  {
  }

  lemma OneWordLays(w: Text, columns: int, indent: Text)
    ensures Lays([[w]], [w], columns, indent)
  {
    hide RowText;
    assert Flatten([[w]]) == [w] + Flatten([]);
  }

  lemma {:induction false} GreedyLays(words: seq<Text>, columns: int, indent: Text)
    ensures Lays(Greedy(words, columns, indent), words, columns, indent)
    ensures words != [] ==> Greedy(words, columns, indent) != []
  {
    hide Width, RowText, FitsOnLastRow, AddWord, Flatten, RowFits, Lays;
    if words == [] {
      NothingLays(columns, indent);
    } else {
      var n := |words| - 1;
      var l, w := Greedy(words[..n], columns, indent), words[n];
      GreedyLays(words[..n], columns, indent);
      assert words == words[..n] + [w];
      if l == [] {
        assert words[..n] == [];
        OneWordLays(w, columns, indent);
      } else {
        AddWordLays(l, words[..n], w, FitsOnLastRow(l, w, columns, indent), columns, indent);
      }
    }
  }

  /** Greedy never falls behind: it has used fewer rows, or as many with no more words on the last one. */
  ghost predicate Ahead(g: Layout, l: Layout) {
    |g| < |l| || (|g| == |l| && (g == [] || |g[|g| - 1]| <= |l[|l| - 1]|))
  }

  lemma {:induction false} GreedyStaysAhead(l: Layout, words: seq<Text>, columns: int, indent: Text)
    requires Lays(l, words, columns, indent)
    ensures Ahead(Greedy(words, columns, indent), l)
    decreases |words|
  {
    hide Width, RowText, Flatten, RowFits, FitsOnLastRow, Lays;
    if words != [] {
      var n := |words| - 1;
      NotEmpty(l, words, columns, indent);
      var k := |l| - 1;
      var row := l[k];
      GreedyLays(words[..n], columns, indent);
      if |row| == 1 {
        WithoutRow(l, words, columns, indent);
        GreedyStaysAhead(l[..k], words[..n], columns, indent);
      } else {
        var l' := l[..k] + [row[..|row| - 1]];
        WithoutWord(l, words, columns, indent);
        GreedyStaysAhead(l', words[..n], columns, indent);
        var g := Greedy(words[..n], columns, indent);
        if |g| == |l'| {
          LastRowsCompare(g, l', words[..n], words[n], columns, indent);
        }
      }
    }
  }

  lemma NotEmpty(l: Layout, words: seq<Text>, columns: int, indent: Text)
    requires Lays(l, words, columns, indent) && words != []
    ensures l != [] && l[|l| - 1] != []
    ensures var row := l[|l| - 1]; |row| <= |words| && row[|row| - 1] == words[|words| - 1]
  {
    assert Flatten<Text>([]) == [];
    assert RowFits(l, |l| - 1, columns, indent);
    LastRow(l, words);
  }

  /** A layout without its last row, when that row is one word, lays out the other words. */
  lemma WithoutRow(l: Layout, words: seq<Text>, columns: int, indent: Text)
    requires Lays(l, words, columns, indent) && l != [] && |l[|l| - 1]| == 1
    ensures words != [] && Lays(l[..|l| - 1], words[..|words| - 1], columns, indent)
  {
    hide RowText, Flatten, RowFits, Width;
    LastRow(l, words);
    var front := l[..|l| - 1];
    forall j | 0 <= j < |front| ensures RowFits(front, j, columns, indent) {
      assert RowFits(l, j, columns, indent);
      SameRow(l, front, j, columns, indent);
    }
  }

  /** A layout without its last word lays out the other words, with room for the last word on its last row. */
  lemma WithoutWord(l: Layout, words: seq<Text>, columns: int, indent: Text)
    requires Lays(l, words, columns, indent) && l != [] && |l[|l| - 1]| > 1
    ensures var k := |l| - 1;
            var l' := l[..k] + [l[k][..|l[k]| - 1]];
            && words != [] && Lays(l', words[..|words| - 1], columns, indent)
            && FitsOnLastRow(l', words[|words| - 1], columns, indent)
  {
    hide Flatten, Width, Join;
    var k := |l| - 1;
    var row, front := l[k], l[..k];
    var short, w := row[..|row| - 1], row[|row| - 1];
    var l' := front + [short];
    LastRow(l, words);
    FlattenNewest(front, short);
    assert row == short + [w];
    assert RowFits(l, k, columns, indent);
    ExtendedRow(short, w, if k == 0 then [] else indent);
    assert Flatten(l') == words[..|words| - 1];
    forall j | 0 <= j < k ensures RowFits(l', j, columns, indent) {
      assert RowFits(l, j, columns, indent);
      SameRow(l, l', j, columns, indent);
    }
  }

  /** With as many rows, greedy's last row is a suffix of the other's, so what fits there fits here. */
  lemma LastRowsCompare(g: Layout, l: Layout, words: seq<Text>, w: Text, columns: int, indent: Text)
    requires Lays(g, words, columns, indent) && Lays(l, words, columns, indent)
    requires g != [] && |g| == |l| && |g[|g| - 1]| <= |l[|l| - 1]|
    ensures FitsOnLastRow(l, w, columns, indent) ==> FitsOnLastRow(g, w, columns, indent)
  {
    hide Flatten, Width, Join;
    var row, short := l[|l| - 1], g[|g| - 1];
    assert RowFits(g, |g| - 1, columns, indent) && RowFits(l, |l| - 1, columns, indent);
    LastRow(l, words);
    LastRow(g, words);
    assert row[|row| - |short|..] == short;
    SuffixIsNarrower(row, |row| - |short|, if |l| == 1 then [] else indent);
  }

  // ---------------------------------------------------------------- the code computes the greedy layout

  lemma {:induction false} SplitWord(w: Text)
    requires SpaceFree(w)
    ensures Split(w, SPACE) == [w]
  {
    if w != [] {
      assert w[0] in w && forall u | u in w[1..] :: u in w;
      SplitWord(w[1..]);
      assert w == [w[0]] + w[1..];
    }
  }

  lemma {:induction false} SplitAfterWord(w: Text, rest: Text)
    requires SpaceFree(w)
    ensures Split(w + [SPACE] + rest, SPACE) == [w] + Split(rest, SPACE)
  {
    if w == [] {
      assert ([SPACE] + rest)[1..] == rest && w + [SPACE] + rest == [SPACE] + rest;
    } else {
      assert w[0] in w && forall u | u in w[1..] :: u in w;
      SplitAfterWord(w[1..], rest);
      assert (w + [SPACE] + rest)[1..] == w[1..] + [SPACE] + rest;
      var tail := [w[1..]] + Split(rest, SPACE);
      assert tail[1..] == Split(rest, SPACE) && [w[0]] + w[1..] == w;
    }
  }

  lemma {:induction false} SplitJoined(words: seq<Text>)
    requires words != [] && AllWords(words)
    ensures Split(Join(words, SPACE), SPACE) == words
  {
    assert words[0] in words && forall w | w in words[1..] :: w in words;
    assert SpaceFree(words[0]) by { assert IsWhitespace(SPACE); }
    if |words| == 1 {
      SplitWord(words[0]);
    } else {
      SplitJoined(words[1..]);
      SplitAfterWord(words[0], Join(words[1..], SPACE));
    }
  }

  lemma WordHasNoSpace(w: Text)
    requires IsWord(w)
    ensures SpaceFree(w) && w != [] && Width(w) > 0
  {
    assert IsWhitespace(SPACE);
  }

  /** Row texts start with no whitespace and end in a word, so that trimming leaves them alone. */
  lemma RowTextIsTrimmed(l: Layout, j: nat, o: Options)
    requires SoftOptions(o) && j < |l| && l[j] != [] && AllWords(l[j])
    ensures var t := RowText(l, j, o.indent);
            TrimStart(t) == t && TrimRight(t) == t && Width(t) > 0
  {
    hide TrimRight, Width, IsWhitespace;
    var row, t := l[j], RowText(l, j, o.indent);
    var n := |row| - 1;
    var lead := if j == 0 then [] else o.indent;
    assert row[0] in row && row[n] in row;
    assert row == row[..n] + [row[n]];
    JoinNewest(row[..n], row[n], SPACE);
    var front := if n == 0 then lead else lead + Join(row[..n], SPACE) + [SPACE];
    assert t == front + row[n];
    WordHasNoSpace(row[n]);
    TrimRightStops(front, row[n]);
    WidthConcat(front, row[n]);
    WordHasNoSpace(row[0]);
    assert Join(row, SPACE)[0] == row[0][0];
    assert t[0] == if lead == [] then row[0][0] else lead[0];
  }

  /** What the code's rows look like after placing the words of a layout. */
  ghost predicate Built(rows: seq<Text>, l: Layout, indent: Text) {
    && |rows| == |l| > 0
    && rows[|l| - 1] == RowText(l, |l| - 1, indent)
    && forall j | 0 <= j < |l| - 1 :: TrimRight(rows[j]) == RowText(l, j, indent)
  }

  lemma FirstWord(w: Text, columns: int, o: Options)
    requires SoftOptions(o) && IsWord(w)
    ensures Built(PlaceWord([[]], 0, w, columns, o), [[w]], o.indent)
  {
    assert [] + w == w;
  }

  lemma NextWord(rows: seq<Text>, l: Layout, index: nat, w: Text, columns: int, o: Options)
    requires SoftOptions(o) && Built(rows, l, o.indent) && index > 0 && IsWord(w)
    requires l[|l| - 1] != [] && AllWords(l[|l| - 1])
    ensures Built(PlaceWord(rows, index, w, columns, o),
                  AddWord(l, w, FitsOnLastRow(l, w, columns, o.indent)), o.indent)
  {
    hide Join, TrimStart, IsWhitespace, TrimRight, PlaceWord;
    var k := |l| - 1;
    var t := RowText(l, k, o.indent);
    var same := FitsOnLastRow(l, w, columns, o.indent);
    var l' := AddWord(l, w, same);
    RowTextIsTrimmed(l, k, o);
    PlaceNextWord(rows, index, w, columns, o);
    if same {
      ExtendedRow(l[k], w, if k == 0 then [] else o.indent);
    } else {
      TrimSpace(t);
      JoinOne(w);
    }
    forall j | 0 <= j < |l| && (j < k || !same) ensures RowText(l', j, o.indent) == RowText(l, j, o.indent) {
      SameRow(l, l', j, columns, o.indent);
    }
  }

  /** What the code does with a word after the first, in terms of the last row alone. */
  lemma PlaceNextWord(rows: seq<Text>, index: nat, w: Text, columns: int, o: Options)
    requires SoftOptions(o) && rows != [] && index > 0 && Width(w) > 0
    requires TrimStart(Last(rows)) == Last(rows) && Width(Last(rows)) > 0
    ensures var k, t := |rows| - 1, Last(rows);
            PlaceWord(rows, index, w, columns, o)
            == if Width(t) + 1 + Width(w) <= columns then rows[..k] + [t + [SPACE] + w]
               else rows[..k] + [t + [SPACE]] + [o.indent + w]
  {
    hide TrimStart, Width;
    var k, t := |rows| - 1, Last(rows);
    assert rows[k := TrimStart(t)] == rows;
    SpaceAdds(rows);
    assert Append(rows, [SPACE]) == rows[..k] + [t + [SPACE]];
  }

  lemma TrimSpace(t: Text)
    ensures TrimRight(t + [SPACE]) == TrimRight(t)
  {
    assert (t + [SPACE])[..|t|] == t;
  }

  lemma JoinOne(w: Text)
    ensures Join([w], SPACE) == w
  {
  }

  lemma {:induction false} CodeIsGreedy(words: seq<Text>, columns: int, o: Options)
    requires SoftOptions(o) && AllWords(words) && words != []
    ensures Built(PlaceWords(words, columns, o), Greedy(words, columns, o.indent), o.indent)
  {
    hide Built, IsWord, PlaceWord, RowText, Flatten, Width;
    var n := |words| - 1;
    assert words[n] in words && forall w | w in words[..n] :: w in words;
    if n == 0 {
      assert words[..0] == [] && words == [words[0]];
      assert Greedy([], columns, o.indent) == [];
      assert PlaceWords([], columns, o) == [[]];
      FirstWord(words[0], columns, o);
    } else {
      CodeIsGreedy(words[..n], columns, o);
      GreedyLays(words[..n], columns, o.indent);
      LastRowWords(words[..n], columns, o.indent);
      NextWord(PlaceWords(words[..n], columns, o), Greedy(words[..n], columns, o.indent), n, words[n], columns, o);
    }
  }

  lemma LastRowWords(words: seq<Text>, columns: int, indent: Text)
    requires words != [] && AllWords(words)
    ensures var l := Greedy(words, columns, indent); l != [] && l[|l| - 1] != [] && AllWords(l[|l| - 1])
  {
    GreedyLays(words, columns, indent);
    var l := Greedy(words, columns, indent);
    NotEmpty(l, words, columns, indent);
    LastRow(l, words);
  }

  /**
   Soft wrapping of single-spaced words: the output rows are a layout of exactly those words, every row
   fits in the columns or holds one word, and no layout with that property has fewer rows.
   */
  lemma SoftWrapIsOptimal(words: seq<Text>, columns: int, o: Options)
    requires SoftOptions(o) && AllWords(words) && words != []
    ensures var rows, best := FinalRows(Join(words, SPACE), columns, o), Greedy(words, columns, o.indent);
            && Lays(best, words, columns, o.indent)
            && |rows| == |best|
            && (forall j | 0 <= j < |rows| :: rows[j] == RowText(best, j, o.indent))
            && forall l: Layout | Lays(l, words, columns, o.indent) :: |rows| <= |l|
  {
    hide PlaceWords, Greedy, TrimRight, TrimStart, Join, RowFits, Flatten, Width, IsWord;
    var best := Greedy(words, columns, o.indent);
    SplitJoined(words);
    CodeIsGreedy(words, columns, o);
    GreedyLays(words, columns, o.indent);
    LastRowWords(words, columns, o.indent);
    RowTextIsTrimmed(best, |best| - 1, o);
    forall l: Layout | Lays(l, words, columns, o.indent) ensures |best| <= |l| {
      GreedyStaysAhead(l, words, columns, o.indent);
    }
  }
}
