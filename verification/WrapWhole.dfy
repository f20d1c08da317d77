/**
 The whole call: what the characters of the output display.  Every line after the first shows the indent, and
 beside it the lines show the input; exactly when each character also keeps its style.
 */
module WrapWhole {
  import opened Prelude
  import opened WrapAnsi
  import opened WrapContent
  import opened WrapStyles
  import opened WrapOrigin
  import opened WrapEscapes
  import opened WrapCharacters
  import opened HardWrap
  import opened GreedyWrap

  // ---------------------------------------------------------------- characters with their styles

  type Painted = seq<(Unit, Style)>

  /** The characters of a line in the order in which they are displayed, each with its style. */
  function Paint(t: Text, st: Style): Painted {
    if t == [] then [] else (if t[0].Glyph? then [(t[0], st)] else []) + Paint(t[1..], After(st, t[0]))
  }

  function StyleAfter(t: Text, st: Style): Style {
    if t == [] then st else StyleAfter(t[1..], After(st, t[0]))
  }

  /** Everything that is not whitespace. */
  function Solid(line: Painted): Painted {
    if line == [] then [] else (if IsWhitespace(line[0].0) then [] else [line[0]]) + Solid(line[1..])
  }

  lemma PaintFirst(u: Unit, t: Text, st: Style)
    ensures Paint([u] + t, st) == (if u.Glyph? then [(u, st)] else []) + Paint(t, After(st, u))
    ensures StyleAfter([u] + t, st) == StyleAfter(t, After(st, u))
  {
    assert ([u] + t)[1..] == t;
  }

  lemma {:induction false} PaintConcat(a: Text, b: Text, st: Style)
    ensures Paint(a + b, st) == Paint(a, st) + Paint(b, StyleAfter(a, st))
    ensures StyleAfter(a + b, st) == StyleAfter(b, StyleAfter(a, st))
  {
    if a == [] {
      assert a + b == b;
    } else {
      hide Paint, StyleAfter, After;
      var u, rest := a[0], a[1..];
      assert a == [u] + rest && a + b == [u] + (rest + b);
      PaintFirst(u, rest, st);
      PaintFirst(u, rest + b, st);
      PaintConcat(rest, b, After(st, u));
      var first, x, y := if u.Glyph? then [(u, st)] else [], Paint(rest, After(st, u)), Paint(b, StyleAfter(a, st));
      assert first + (x + y) == first + x + y;
    }
  }

  lemma {:induction false} SolidPaint(t: Text, st: Style)
    ensures Solid(Paint(t, st)) == Paint(Keep(t, false), st)
    ensures StyleAfter(Keep(t, false), st) == StyleAfter(t, st)
  {
    if t != [] {
      SolidPaint(t[1..], After(st, t[0]));
      var first: Painted := if t[0].Glyph? then [(t[0], st)] else [];
      assert (first + Paint(t[1..], After(st, t[0])))[|first|..] == Paint(t[1..], After(st, t[0]));
      KeepFirst(t[0], t[1..], false);
      assert t == [t[0]] + t[1..];
      var kept := Keep(t[1..], false);
      assert ([t[0]] + kept)[1..] == kept;
    }
  }

  predicate NoEscapes(t: Text) {
    forall u | u in t :: u.Glyph?
  }

  function Glyphs(t: Text): Text {
    if t == [] then [] else (if t[0].Glyph? then [t[0]] else []) + Glyphs(t[1..])
  }

  /** The characters without their styles. */
  function Characters(line: Painted): Text {
    seq(|line|, i requires 0 <= i < |line| => line[i].0)
  }

  lemma {:induction false} PaintShowsGlyphs(t: Text, st: Style)
    ensures Characters(Paint(t, st)) == Glyphs(t)
  {
    if t != [] {
      PaintShowsGlyphs(t[1..], After(st, t[0]));
      var later := Paint(t[1..], After(st, t[0]));
      assert Characters([(t[0], st)] + later) == [t[0]] + Characters(later);
    }
  }

  /** Some code of the text says what becomes of the attribute. */
  ghost predicate ActsOn(t: Text, a: Attribute) {
    exists u | u in t :: u.Sgr? && Acts(u.code, a)
  }

  lemma ActsOnFirst(u: Unit, t: Text, a: Attribute)
    ensures ActsOn([u] + t, a) <==> (u.Sgr? && Acts(u.code, a)) || ActsOn(t, a)
  {
    hide Acts;
    assert u in [u] + t && forall v | v in t :: v in [u] + t;
  }

  lemma ActsOnConcat(s: Text, t: Text, a: Attribute)
    ensures ActsOn(s + t, a) <==> ActsOn(s, a) || ActsOn(t, a)
  {
    hide Acts;
    assert forall u | u in s || u in t :: u in s + t;
  }

  /** The last code of a text that acts on an attribute decides it; without one it stays. */
  lemma {:induction false} AtAfterText(t: Text, st: Style, st': Style, a: Attribute)
    ensures !ActsOn(t, a) ==> At(StyleAfter(t, st), a) == At(st, a)
    ensures ActsOn(t, a) || At(st, a) == At(st', a) ==> At(StyleAfter(t, st), a) == At(StyleAfter(t, st'), a)
  {
    if t != [] {
      hide ActsOn, Acts, AfterCode, At, Sets;
      var u, rest := t[0], t[1..];
      assert t == [u] + rest;
      ActsOnFirst(u, rest, a);
      AtAfterText(rest, After(st, u), After(st', u), a);
      if u.Sgr? {
        AtAfter(st, u.code, a);
        AtAfter(st', u.code, a);
      }
    }
  }

  // ---------------------------------------------------------------- lines

  lemma {:induction false} ShowLine(row: Text, st: Style)
    requires NEWLINE !in row
    ensures Show(row, st, false) == [Paint(row, st)]
  {
    if row != [] {
      var u, rest := row[0], row[1..];
      assert u != NEWLINE;
      ShowLine(rest, After(st, u));
      assert Show(rest, After(st, u), false) == [Paint(rest, After(st, u))];
      assert Paint(row, st) == if u.Glyph? then [(u, st)] + Paint(rest, After(st, u)) else Paint(rest, After(st, u));
    }
  }

  lemma NewlineShowsNothing(st: Style)
    ensures After(st, NEWLINE) == st
  {
  }

  lemma {:induction false} ShowNewest(front: Text, row: Text, st: Style)
    requires NEWLINE !in row
    ensures Show(front + [NEWLINE] + row, st, false) == Show(front, st, false) + [Paint(row, StyleAfter(front, st))]
  {
    var text := front + [NEWLINE] + row;
    if front == [] {
      assert text == [NEWLINE] + row && text[1..] == row;
      ShowLine(row, st);
    } else {
      hide Show, Paint, StyleAfter, After;
      var u, rest := front[0], front[1..];
      var later := if u == NEWLINE then st else After(st, u);
      assert front == [u] + rest && text == [u] + (rest + [NEWLINE] + row);
      ShowNewest(rest, row, later);
      ShowStep(u, rest + [NEWLINE] + row, st, false);
      ShowStep(u, rest, st, false);
      PaintFirst(u, rest, st);
      NewlineShowsNothing(st);
    }
  }

  /** What the lines show beside the mark in front of every line but the first. */
  function Beside(lines: seq<Painted>, mark: nat): Painted {
    if lines == [] then []
    else
      var n := |lines| - 1;
      var line := Solid(lines[n]);
      Beside(lines[..n], mark) + if n > 0 && mark <= |line| then line[mark..] else line
  }

  ghost predicate Marked(lines: seq<Painted>, mark: Text) {
    forall i | 0 < i < |lines| :: MarkedLine(Solid(lines[i]), mark)
  }

  predicate MarkedLine(line: Painted, mark: Text) {
    |line| >= |mark| && forall k | 0 <= k < |mark| :: line[k].0 == mark[k]
  }

  lemma LinesNewest(lines: seq<Painted>, line: Painted, mark: Text)
    requires lines != [] && Marked(lines, mark) && MarkedLine(Solid(line), mark)
    ensures Marked(lines + [line], mark)
    ensures Beside(lines + [line], |mark|) == Beside(lines, |mark|) + Solid(line)[|mark|..]
  {
    hide Solid, MarkedLine;
    var longer := lines + [line];
    assert longer[..|lines|] == lines && longer[|lines|] == line;
    assert |Solid(line)| >= |mark| by {
      MarkedIsLong(Solid(line), mark);
    }
    forall i | 0 < i < |longer| ensures MarkedLine(Solid(longer[i]), mark) {
      assert i < |lines| ==> longer[i] == lines[i];
    }
  }

  lemma MarkedIsLong(line: Painted, mark: Text)
    requires MarkedLine(line, mark)
    ensures |line| >= |mark|
  {
  }

  /** A row that begins with the mark shows its characters and, from the style it leaves, what is beside it. */
  lemma RowPainted(row: Text, mark: Text, st: Style)
    requires mark <= Keep(row, false)
    ensures var line, body, shown := Solid(Paint(row, st)), Body(row, false, mark, false), Glyphs(mark);
            && MarkedLine(line, shown)
            && line[|shown|..] == Paint(body, StyleAfter(mark, st))
            && StyleAfter(row, st) == StyleAfter(body, StyleAfter(mark, st))
  {
    var body := Body(row, false, mark, false);
    assert Keep(row, false) == mark + body;
    SolidPaint(row, st);
    PaintConcat(mark, body, st);
    PaintShowsGlyphs(mark, st);
    var line, shown := Solid(Paint(row, st)), Paint(mark, st);
    assert |shown| == |Glyphs(mark)|;
    forall k | 0 <= k < |shown| ensures line[k].0 == Glyphs(mark)[k] {
      assert line[k] == shown[k] && Characters(shown)[k] == shown[k].0;
    }
  }

  // ---------------------------------------------------------------- what the lines show beside the marks

  /** What the rows hold beside the marks, row by row. */
  function BodyList(rows: seq<Text>, mark: Text): seq<Text> {
    seq(|rows|, i requires 0 <= i < |rows| => Body(rows[i], i == 0, mark, false))
  }

  function Gather(bodies: seq<Text>): Text {
    if bodies == [] then [] else Gather(bodies[..|bodies| - 1]) + bodies[|bodies| - 1]
  }

  /** The style in force at the start of the last of the bodies, after the mark in front of it. */
  function StartStyle(bodies: seq<Text>, mark: Text): Style
    requires bodies != []
  {
    var n := |bodies| - 1;
    if n == 0 then Plain else StyleAfter(mark, StyleAfter(bodies[n - 1], StartStyle(bodies[..n], mark)))
  }

  function PaintBodies(bodies: seq<Text>, mark: Text): Painted {
    if bodies == [] then []
    else
      var n := |bodies| - 1;
      PaintBodies(bodies[..n], mark) + Paint(bodies[n], StartStyle(bodies, mark))
  }

  lemma {:induction false} GatherBodies(rows: seq<Text>, mark: Text)
    ensures Gather(BodyList(rows, mark)) == Bodies(rows, mark, false)
  {
    if rows != [] {
      var n := |rows| - 1;
      assert BodyList(rows, mark)[..n] == BodyList(rows[..n], mark);
      GatherBodies(rows[..n], mark);
    }
  }

  lemma {:induction false} RowsPainted(rows: seq<Text>, mark: Text)
    requires rows != [] && forall i | 0 < i < |rows| :: mark <= Keep(rows[i], false)
    requires forall row | row in rows :: NEWLINE !in row
    ensures var lines, bodies := Show(Join(rows, NEWLINE), Plain, false), BodyList(rows, mark);
            && Marked(lines, Glyphs(mark))
            && Beside(lines, |Glyphs(mark)|) == PaintBodies(bodies, mark)
            && StyleAfter(Join(rows, NEWLINE), Plain) == StyleAfter(bodies[|bodies| - 1], StartStyle(bodies, mark))
  {
    hide Keep, Body, Show, Join, Paint, Beside, Marked, Solid, StyleAfter, Glyphs, StartStyle, PaintBodies, MarkedLine;
    var n, shown, bodies := |rows| - 1, Glyphs(mark), BodyList(rows, mark);
    var front, row := rows[..n], rows[n];
    assert rows == front + [row] && row in rows && forall r | r in front :: r in rows;
    JoinNewest(front, row, NEWLINE);
    BodiesFirst(bodies, mark);
    if n == 0 {
      assert front == [] && rows == [row];
      FirstBody(row, mark);
      FirstRowPainted(row, shown);
      SolidPaint(row, Plain);
    } else {
      assert bodies[..n] == BodyList(front, mark) && bodies[n] == Body(row, false, mark, false);
      assert mark <= Keep(row, false);
      hide BodyList;
      RowsPainted(front, mark);
      BodiesNext(bodies, mark);
      var joined := Join(front, NEWLINE);
      var st := StyleAfter(joined, Plain);
      ShowNewest(joined, row, Plain);
      RowPainted(row, mark, st);
      LinesNewest(Show(joined, Plain, false), Paint(row, st), shown);
      StyleOverNewline(joined, row, Plain);
    }
  }

  lemma BodiesFirst(bodies: seq<Text>, mark: Text)
    requires bodies != []
    ensures |bodies| == 1 ==> StartStyle(bodies, mark) == Plain && PaintBodies(bodies, mark) == Paint(bodies[0], Plain)
  {
    if |bodies| == 1 {
      assert bodies[..0] == [] && PaintBodies(bodies[..0], mark) == [];
    }
  }

  lemma BodiesNext(bodies: seq<Text>, mark: Text)
    requires |bodies| > 1
    ensures var n := |bodies| - 1;
            && StartStyle(bodies, mark) == StyleAfter(mark, StyleAfter(bodies[n - 1], StartStyle(bodies[..n], mark)))
            && PaintBodies(bodies, mark) == PaintBodies(bodies[..n], mark) + Paint(bodies[n], StartStyle(bodies, mark))
  {
  }

  lemma FirstBody(row: Text, mark: Text)
    ensures Body(row, true, mark, false) == Keep(row, false)
  {
  }

  lemma FirstRowPainted(row: Text, shown: Text)
    requires NEWLINE !in row
    ensures var lines := Show(row, Plain, false);
            && Marked(lines, shown)
            && Beside(lines, |shown|) == Paint(Keep(row, false), Plain)
  {
    hide Keep, Paint, Show, StyleAfter, Solid;
    ShowLine(row, Plain);
    SolidPaint(row, Plain);
    var lines := [Paint(row, Plain)];
    assert lines[..0] == [] && Beside([], |shown|) == [];
  }

  lemma StyleOverNewline(front: Text, row: Text, st: Style)
    ensures StyleAfter(front + [NEWLINE] + row, st) == StyleAfter(row, StyleAfter(front, st))
  {
    PaintConcat(front + [NEWLINE], row, st);
    PaintConcat(front, [NEWLINE], st);
    assert [NEWLINE][1..] == [];
  }

  // ---------------------------------------------------------------- exactly when styles are kept

  /**
   For each character beside the mark: an attribute on which no code acts between the line break and the
   character is left by the codes of the mark as it is in the text at the line break.
   */
  ghost predicate StylesKept(bodies: seq<Text>, mark: Text) {
    forall i | 0 < i < |bodies| :: LeavesStyles(mark, StyleAfter(Gather(bodies[..i]), Plain), bodies[i])
  }

  ghost predicate LeavesStyles(mark: Text, style: Style, body: Text) {
    forall k, a | 0 <= k < |body| && body[k].Glyph? && !ActsOn(body[..k], a) ::
      At(StyleAfter(mark, style), a) == At(style, a)
  }

  /** The styles agree on all attributes on which the characters of the text depend. */
  ghost predicate AgreeFor(t: Text, st: Style, st': Style) {
    forall k, a | 0 <= k < |t| && t[k].Glyph? && !ActsOn(t[..k], a) :: At(st, a) == At(st', a)
  }

  lemma AgreeForFirst(u: Unit, rest: Text, st: Style, st': Style)
    ensures AgreeFor([u] + rest, st, st') <==> (u.Glyph? ==> st == st') && AgreeFor(rest, After(st, u), After(st', u))
  {
    hide ActsOn, At, Acts, AfterCode;
    var t := [u] + rest;
    assert t[0] == u && t[..0] == [] && forall k | 0 <= k < |rest| :: t[k + 1] == rest[k];
    forall a ensures !ActsOn([], a) {
      NothingActs(a);
    }
    forall k, a | 0 <= k < |rest|
      ensures ActsOn(t[..k + 1], a) <==> (u.Sgr? && Acts(u.code, a)) || ActsOn(rest[..k], a)
    {
      assert t[..k + 1] == [u] + rest[..k];
      ActsOnFirst(u, rest[..k], a);
    }
    if u.Glyph? {
      if AgreeFor(t, st, st') {
        forall a ensures At(st, a) == At(st', a) {
          assert t[0].Glyph? && !ActsOn(t[..0], a);
        }
        SameStyle(st, st');
      }
    } else {
      forall a
        ensures Acts(u.code, a) ==> At(After(st, u), a) == At(After(st', u), a)
        ensures !Acts(u.code, a) ==> At(After(st, u), a) == At(st, a) && At(After(st', u), a) == At(st', a)
      {
        AtAfter(st, u.code, a);
        AtAfter(st', u.code, a);
      }
      if AgreeFor(t, st, st') {
        forall k, a | 0 <= k < |rest| && rest[k].Glyph? && !ActsOn(rest[..k], a)
          ensures At(After(st, u), a) == At(After(st', u), a)
        {
          assert t[k + 1].Glyph? && (!Acts(u.code, a) ==> !ActsOn(t[..k + 1], a));
        }
      }
      if AgreeFor(rest, After(st, u), After(st', u)) {
        forall k, a | 0 <= k < |t| && t[k].Glyph? && !ActsOn(t[..k], a) ensures At(st, a) == At(st', a) {
          assert t[..k] == [u] + rest[..k - 1];
          ActsOnFirst(u, rest[..k - 1], a);
          assert rest[k - 1].Glyph? && !ActsOn(rest[..k - 1], a);
        }
      }
    }
  }

  lemma NothingActs(a: Attribute)
    ensures !ActsOn([], a)
  {
  }

  lemma {:induction false} PaintDepends(t: Text, st: Style, st': Style)
    ensures Paint(t, st) == Paint(t, st') <==> AgreeFor(t, st, st')
  {
    if t != [] {
      hide AgreeFor, AfterCode;
      var u, rest := t[0], t[1..];
      assert t == [u] + rest;
      PaintDepends(rest, After(st, u), After(st', u));
      AgreeForFirst(u, rest, st, st');
      var x, y := Paint(rest, After(st, u)), Paint(rest, After(st', u));
      assert u.Sgr? ==> Paint(t, st) == x && Paint(t, st') == y;
      if u.Glyph? && Paint(t, st) == Paint(t, st') {
        assert Paint(t, st)[0] == (u, st) && Paint(t, st')[0] == (u, st');
        assert Paint(t, st)[1..] == x && Paint(t, st')[1..] == y;
      }
    }
  }

  lemma PaintLength(t: Text, st: Style, st': Style)
    ensures |Paint(t, st)| == |Paint(t, st')|
  {
    PaintShowsGlyphs(t, st);
    PaintShowsGlyphs(t, st');
    assert |Characters(Paint(t, st))| == |Paint(t, st)| && |Characters(Paint(t, st'))| == |Paint(t, st')|;
  }

  /** The style that a body starts in is the one that the mark makes of the style that the text has there. */
  lemma {:induction false} MarkDecides(bodies: seq<Text>, mark: Text)
    requires bodies != []
    ensures var n := |bodies| - 1;
            StartStyle(bodies, mark)
            == if n == 0 then Plain else StyleAfter(mark, StyleAfter(Gather(bodies[..n]), Plain))
  {
    hide StyleAfter, ActsOn, At;
    var n := |bodies| - 1;
    if n > 0 {
      var front, last := bodies[..n], bodies[n - 1];
      var p, q := StyleAfter(Gather(front[..n - 1]), Plain), StartStyle(front, mark);
      MarkDecides(front, mark);
      PaintConcat(Gather(front[..n - 1]), last, Plain);
      assert StyleAfter(Gather(front), Plain) == StyleAfter(last, p);
      if n == 1 {
        assert front[..0] == [];
        NothingGathered();
      }
      forall a ensures At(StyleAfter(mark, StyleAfter(last, q)), a) == At(StyleAfter(mark, StyleAfter(last, p)), a) {
        MarkedTwice(mark, last, p, q, a);
      }
      SameStyle(StyleAfter(mark, StyleAfter(last, q)), StyleAfter(mark, StyleAfter(last, p)));
    }
  }

  /** After the next mark it makes no difference that a mark stood before a body. */
  lemma MarkedTwice(mark: Text, body: Text, p: Style, q: Style, a: Attribute)
    requires q == p || q == StyleAfter(mark, p)
    ensures At(StyleAfter(mark, StyleAfter(body, q)), a) == At(StyleAfter(mark, StyleAfter(body, p)), a)
  {
    AtAfterText(mark, p, p, a);
    AtAfterText(body, q, p, a);
    AtAfterText(mark, StyleAfter(body, q), StyleAfter(body, p), a);
  }

  lemma {:induction false} SameGlyphs(bodies: seq<Text>, mark: Text)
    ensures Characters(PaintBodies(bodies, mark)) == Characters(Paint(Gather(bodies), Plain))
  {
    if bodies != [] {
      hide Paint, StartStyle;
      var n := |bodies| - 1;
      var front, last := Gather(bodies[..n]), bodies[n];
      SameGlyphs(bodies[..n], mark);
      PaintConcat(front, last, Plain);
      PaintShowsGlyphs(last, StartStyle(bodies, mark));
      PaintShowsGlyphs(last, StyleAfter(front, Plain));
      CharactersConcat(PaintBodies(bodies[..n], mark), Paint(last, StartStyle(bodies, mark)));
      CharactersConcat(Paint(front, Plain), Paint(last, StyleAfter(front, Plain)));
    }
  }

  lemma CharactersConcat(a: Painted, b: Painted)
    ensures Characters(a + b) == Characters(a) + Characters(b)
  {
  }

  /** The lines show the styles of the text exactly when the mark changes none of them. */
  lemma {:induction false} StylesKeptIff(bodies: seq<Text>, mark: Text)
    ensures PaintBodies(bodies, mark) == Paint(Gather(bodies), Plain) <==> StylesKept(bodies, mark)
  {
    if bodies != [] {
      hide Paint, StartStyle, StyleAfter, Gather, ActsOn;
      var n := |bodies| - 1;
      var front, last := bodies[..n], bodies[n];
      GatherNext(bodies);
      StylesKeptIff(front, mark);
      SameGlyphs(front, mark);
      var early, text := PaintBodies(front, mark), Paint(Gather(front), Plain);
      assert |early| == |Characters(early)| == |Characters(text)| == |text|;
      PaintConcat(Gather(front), last, Plain);
      var x, y := StartStyle(bodies, mark), StyleAfter(Gather(front), Plain);
      PaintNext(bodies, mark);
      SamePrefix(early, Paint(last, x), text, Paint(last, y));
      PaintDepends(last, x, y);
      MarkDecides(bodies, mark);
      StylesKeptNext(bodies, mark);
      if n == 0 {
        BodiesFirst(bodies, mark);
        assert front == [];
        NothingGathered();
      }
    } else {
      NothingGathered();
    }
  }

  lemma NothingGathered()
    ensures Gather([]) == [] && StyleAfter([], Plain) == Plain && Paint([], Plain) == []
  {
  }

  lemma GatherNext(bodies: seq<Text>)
    requires bodies != []
    ensures Gather(bodies) == Gather(bodies[..|bodies| - 1]) + bodies[|bodies| - 1]
  {
  }

  lemma PaintNext(bodies: seq<Text>, mark: Text)
    requires bodies != []
    ensures var n := |bodies| - 1;
            PaintBodies(bodies, mark) == PaintBodies(bodies[..n], mark) + Paint(bodies[n], StartStyle(bodies, mark))
  {
  }

  lemma SamePrefix(a: Painted, b: Painted, c: Painted, d: Painted)
    requires |a| == |c|
    ensures a + b == c + d <==> a == c && b == d
  {
    if a + b == c + d {
      assert a == (a + b)[..|a|] && c == (c + d)[..|c|] && b == (a + b)[|a|..] && d == (c + d)[|c|..];
    }
  }

  lemma StylesKeptNext(bodies: seq<Text>, mark: Text)
    requires bodies != []
    ensures var n := |bodies| - 1;
            var style := StyleAfter(Gather(bodies[..n]), Plain);
            StylesKept(bodies, mark)
            <==> StylesKept(bodies[..n], mark) && (n > 0 ==> LeavesStyles(mark, style, bodies[n]))
  {
    hide StyleAfter, Gather, LeavesStyles;
    var n := |bodies| - 1;
    assert forall i | 0 <= i < n :: bodies[..n][i] == bodies[i] && bodies[..n][..i] == bodies[..i];
  }

  // ---------------------------------------------------------------- the whole call

  lemma TextIsHeld(s: Text, columns: int, o: Options)
    requires Tidy(columns, o, false)
    ensures FinalRows(s, columns, o) != []
    ensures Hold(FinalRows(s, columns, o), Keep(o.indent, false), false, Keep(s, false))
  {
    hide Hold, Keep, Tidy, PlaceWords;
    JoinSplit(s, SPACE);
    PlacedHolds(Split(s, SPACE), columns, o, false);
    TrimRowsHold(PlaceWords(Split(s, SPACE), columns, o), Keep(o.indent, false), Keep(s, false));
  }

  lemma {:induction false} BlankIsNothing(s: Text)
    requires AllWhitespace(s)
    ensures Keep(s, false) == []
  {
    if s != [] {
      assert s[0] in s && forall u | u in s[1..] :: u in s;
      BlankIsNothing(s[1..]);
    }
  }

  lemma {:induction false} KeptWithin(t: Text)
    ensures forall u | u in Keep(t, false) :: u in t
  {
    if t != [] {
      KeptWithin(t[1..]);
    }
  }

  /** The text before the styles are closed and reopened. */
  function Laid(s: Text, columns: int, o: Options): Text {
    if o.trim && AllWhitespace(s) then [] else Join(FinalRows(s, columns, o), NEWLINE)
  }

  lemma {:induction false} JoinWithin(rows: seq<Text>, units: set<Unit>)
    requires Within(rows, units) && NEWLINE in units
    ensures forall u | u in Join(rows, NEWLINE) :: u in units
  {
    if |rows| > 1 {
      assert rows[0] in rows && forall r | r in rows[1..] :: r in rows;
      JoinWithin(rows[1..], units);
    } else if |rows| == 1 {
      assert rows[0] in rows;
    }
  }

  lemma {:induction false} RestyleNotLoose(pre: Text, code: Option<nat>)
    requires NoLooseEscapes(pre)
    ensures NoLooseEscapes(Restyle(pre, code))
  {
    if pre != [] {
      assert pre[0] in pre && forall u | u in pre[1..] :: u in pre;
      RestyleNotLoose(pre[1..], NextCode(code, pre[0]));
    }
  }

  /** What a terminal shows of the characters that the call returns for the characters of a text. */
  function Displayed(s: Text, columns: int, o: Options, alone: bool): seq<Painted> {
    Show(Read(Output(SpellAll(s), columns, o)), Plain, alone)
  }

  /** The texts and indents that are wrapped line by line and hold complete escapes only. */
  predicate OneLine(t: Text) {
    NEWLINE !in t && NoLooseEscapes(t)
  }

  /** The options with which text stays with its rows and escapes stay whole. */
  predicate Safe(s: Text, columns: int, o: Options) {
    Tidy(columns, o, false) && UntornText(columns, o, s)
  }

  /** The styles that the input has are those of the mark wherever that decides them. */
  ghost predicate KeepsStyles(s: Text, columns: int, o: Options) {
    var mark := Keep(o.indent, false);
    StylesKept(BodyList(FinalRows(s, columns, o), mark), mark)
  }

  lemma DisplayedIsShown(s: Text, columns: int, o: Options, alone: bool)
    requires OneLine(s) && OneLine(o.indent) && Safe(s, columns, o)
    ensures Displayed(s, columns, o, alone) == Show(Wrapped(s, columns, o), Plain, alone)
  {
    hide Output, SpellAll, Read, Restyle, FinalRows, Join, CharacterRows;
    OutputIsSpelled(s, columns, o);
    if !(o.trim && AllWhitespace(s)) {
      RowsAreSpelled(s, columns, o);
      JoinNotLoose(FinalRows(s, columns, o));
      RestyleNotLoose(Join(FinalRows(s, columns, o), NEWLINE), None);
    }
    ReadAll(Wrapped(s, columns, o));
  }

  /** What is shown of the rows before the styles are closed and reopened, which changes nothing. */
  lemma WrappedShowsRows(s: Text, columns: int, o: Options)
    requires OneLine(s) && OneLine(o.indent)
    ensures forall row | row in FinalRows(s, columns, o) :: NEWLINE !in row
    ensures Show(Wrapped(s, columns, o), Plain, false) == Show(Laid(s, columns, o), Plain, false)
    ensures Show(Wrapped(s, columns, o), Plain, true) == Show(Laid(s, columns, o), Plain, false)
            <==> SetForEachLine(Laid(s, columns, o))
  {
    hide FinalRows, Show, Join, SetForEachLine;
    var units := (set u | u in s) + (set u | u in o.indent) + {SPACE};
    RowsWithin(s, columns, o, units);
    assert NEWLINE !in units;
    StylesSurviveLineBreaks(Laid(s, columns, o));
    assert Wrapped(s, columns, o) == Restyle(Laid(s, columns, o), None);
  }

  /**
   The output of the whole call, line by line: every line but the first shows the indent, and beside it
   the lines show, in order, every character of the input that is not whitespace.  They have the styles that
   they have in the input exactly when the codes of the indent change none of those that a character depends on.
   */
  lemma OutputShowsTheInput(s: Text, columns: int, o: Options)
    requires OneLine(s) && OneLine(o.indent) && Safe(s, columns, o)
    ensures var lines, shown := Displayed(s, columns, o, false), Glyphs(Keep(o.indent, false));
            && Marked(lines, shown)
            && Characters(Beside(lines, |shown|)) == Characters(Solid(Paint(s, Plain)))
            && (Beside(lines, |shown|) == Solid(Paint(s, Plain)) <==> KeepsStyles(s, columns, o))
    ensures Show(s, Plain, false) == [Paint(s, Plain)]
  {
    hide Hold, Keep, Tidy, FinalRows, Show, Restyle, Paint, Beside, Marked, Solid, StyleAfter, Join, UntornText,
         Displayed, StylesKept, Glyphs, PaintBodies, Gather, SetForEachLine;
    var mark, rows := Keep(o.indent, false), FinalRows(s, columns, o);
    var shown, bodies := Glyphs(mark), BodyList(rows, mark);
    SolidPaint(s, Plain);
    ShowLine(s, Plain);
    DisplayedIsShown(s, columns, o, false);
    TextIsHeld(s, columns, o);
    HeldBodies(rows, mark, Keep(s, false));
    StylesKeptIff(bodies, mark);
    SameGlyphs(bodies, mark);
    WrappedShowsRows(s, columns, o);
    if o.trim && AllWhitespace(s) {
      BlankIsNothing(s);
      NothingPainted(shown, false);
      NothingKept(bodies, mark);
    } else {
      RowsPainted(rows, mark);
    }
  }

  /**
   The lines of the output can be displayed one by one exactly when every attribute of a character is set on
   its own line, or by the last code before the line break, and one that the table knows.
   */
  lemma LinesStandAloneIff(s: Text, columns: int, o: Options)
    requires OneLine(s) && OneLine(o.indent) && Safe(s, columns, o)
    ensures Displayed(s, columns, o, true) == Displayed(s, columns, o, false)
            <==> SetForEachLine(Laid(s, columns, o))
  {
    hide Show, FinalRows, Displayed, SetForEachLine, UntornText, Laid, Wrapped;
    DisplayedIsShown(s, columns, o, true);
    DisplayedIsShown(s, columns, o, false);
    WrappedShowsRows(s, columns, o);
  }

  lemma {:induction false} CodesKept(t: Text)
    ensures Codes(Keep(t, false)) == Codes(t)
  {
    if t != [] {
      CodesKept(t[1..]);
      KeepFirst(t[0], t[1..], false);
      assert t == [t[0]] + t[1..];
      CodesConcat([t[0]], Keep(t[1..], false));
    }
  }

  lemma CodesBeside(row: Text, first: bool, mark: Text)
    requires Codes(mark) == []
    ensures Codes(Body(row, first, mark, false)) == Codes(row)
  {
    hide Keep, Codes;
    var kept := Keep(row, false);
    CodesKept(row);
    if mark <= kept {
      assert kept == mark + kept[|mark|..];
      CodesConcat(mark, kept[|mark|..]);
    }
  }

  lemma {:induction false} CodesOfRows(rows: seq<Text>, mark: Text)
    requires Codes(mark) == []
    ensures Codes(Join(rows, NEWLINE)) == Codes(Gather(BodyList(rows, mark)))
  {
    hide Body, Codes;
    if rows != [] {
      var n := |rows| - 1;
      var front, row := rows[..n], rows[n];
      assert rows == front + [row];
      CodesOfRows(front, mark);
      JoinNewest(front, row, NEWLINE);
      assert BodyList(rows, mark)[..n] == BodyList(front, mark);
      CodesBeside(row, n == 0, mark);
      CodesConcat(Gather(BodyList(front, mark)), Body(row, n == 0, mark, false));
      CodesConcat(Join(front, NEWLINE) + [NEWLINE], row);
      CodesConcat(Join(front, NEWLINE), [NEWLINE]);
      LineEndHasNoCodes();
    }
  }

  lemma LineEndHasNoCodes()
    ensures Codes([NEWLINE]) == [] && Codes([]) == []
  {
    assert [NEWLINE][1..] == [];
  }

  /** The lines of a text with one style at a time can be displayed one by one, beside an indent without escapes. */
  lemma OneStyleAtATimeStandsAlone(s: Text, columns: int, o: Options)
    requires OneLine(s) && OneLine(o.indent) && Safe(s, columns, o) && NoEscapes(o.indent) && OneAtATime(Codes(s))
    ensures Displayed(s, columns, o, true) == Displayed(s, columns, o, false)
  {
    hide Displayed, FinalRows, Codes, SetForEachLine, Hold, Join, OneAtATime, Keep, UntornText;
    var rows, mark := FinalRows(s, columns, o), Keep(o.indent, false);
    LinesStandAloneIff(s, columns, o);
    TextIsHeld(s, columns, o);
    HeldBodies(rows, mark, Keep(s, false));
    CodesKept(s);
    CodesKept(o.indent);
    NoCodes(o.indent);
    CodesOfRows(rows, mark);
    LineEndHasNoCodes();
    if o.trim && AllWhitespace(s) {
      assert OneAtATime([]) by { NothingAtATime(); }
    }
    OneAtATimeStandsAlone(Laid(s, columns, o));
  }

  lemma NothingAtATime()
    ensures OneAtATime([])
  {
  }

  lemma HeldBodies(rows: seq<Text>, mark: Text, text: Text)
    requires Hold(rows, mark, false, text)
    ensures Gather(BodyList(rows, mark)) == text
    ensures forall i | 0 < i < |rows| :: mark <= Keep(rows[i], false)
  {
    GatherBodies(rows, mark);
  }

  lemma NothingPainted(shown: Text, alone: bool)
    ensures var lines := Show([], Plain, alone);
            Marked(lines, shown) && Beside(lines, |shown|) == Paint([], Plain) == []
  {
    var line: Painted := [];
    var lines := [line];
    assert lines[..0] == [] && Show([], Plain, alone) == lines;
  }

  lemma {:induction false} NothingKept(bodies: seq<Text>, mark: Text)
    requires Gather(bodies) == []
    ensures StylesKept(bodies, mark) && PaintBodies(bodies, mark) == []
  {
    if bodies != [] {
      NothingKept(bodies[..|bodies| - 1], mark);
      StylesKeptNext(bodies, mark);
    }
  }

  // ---------------------------------------------------------------- indents with escapes

  lemma {:induction false} KeptActs(t: Text, a: Attribute)
    ensures ActsOn(Keep(t, false), a) <==> ActsOn(t, a)
  {
    if t != [] {
      hide ActsOn, Acts, Keep;
      var u, rest := t[0], t[1..];
      assert t == [u] + rest;
      KeptActs(rest, a);
      KeepFirst(u, rest, false);
      ActsOnFirst(u, rest, a);
      ActsOnFirst(u, Keep(rest, false), a);
    } else {
      KeepNothing(false);
    }
  }

  /** The codes of the text act on no attribute. */
  ghost predicate Inert(t: Text) {
    forall a :: !ActsOn(t, a)
  }

  lemma InertIndentKeepsStyles(s: Text, columns: int, o: Options)
    requires Inert(o.indent)
    ensures KeepsStyles(s, columns, o)
  {
    hide FinalRows, Keep, ActsOn, StyleAfter, At;
    var mark := Keep(o.indent, false);
    var bodies := BodyList(FinalRows(s, columns, o), mark);
    forall st, a ensures At(StyleAfter(mark, st), a) == At(st, a) {
      KeptActs(o.indent, a);
      AtAfterText(mark, st, st, a);
    }
  }

  /** A code that sets the attribute. */
  function Setter(a: Attribute): (code: nat)
    ensures Sets(code) == Some(a)
  {
    match a
    case Weight => 1
    case Posture => 3
    case Underline => 4
    case Blink => 5
    case Inverse => 7
    case Concealed => 8
    case CrossedOut => 9
    case Font => 11
    case Proportion => 26
    case Frame => 51
    case Overline => 53
    case Ideogram => 60
    case Foreground => 31
    case Background => 41
  }

  /** A code that leaves the attribute otherwise than the indent does. */
  function OtherCode(indent: Text, a: Attribute): nat {
    if At(StyleAfter(indent, Plain), a).None? then Setter(a) else 0
  }

  /** A full row of letters and one more letter, all in one style. */
  function TwoRowText(columns: int, code: nat): Text {
    [Sgr(code)] + Xs(RowOf(columns)) + [SPACE] + [X]
  }

  function RowOf(columns: int): (n: nat)
    ensures n >= columns && n > 0
  {
    if columns > 0 then columns else 1
  }

  lemma {:induction false} GatherFront(bodies: seq<Text>, last: Unit) returns (i: nat)
    requires bodies != [] && Gather(bodies) == bodies[0] + [last]
    ensures 0 < i < |bodies| && bodies[i] == [last] && Gather(bodies[..i]) == bodies[0]
  {
    var n := |bodies| - 1;
    var front := bodies[..n];
    GatherOne(bodies);
    GatherStarts(front);
    assert front[0] == bodies[0];
    if bodies[n] == [] {
      assert Gather(front) + [] == Gather(front);
      i := GatherFront(front, last);
      assert front[..i] == bodies[..i];
    } else {
      i := n;
      assert |Gather(front)| >= |bodies[0]| && |bodies[n]| == 1;
      assert Gather(bodies)[|bodies[0]|] == bodies[n][0] == last;
      assert Gather(front) == Gather(bodies)[..|bodies[0]|] == bodies[0];
    }
  }

  lemma GatherOne(bodies: seq<Text>)
    ensures |bodies| == 1 ==> Gather(bodies) == bodies[0]
  {
    if |bodies| == 1 {
      assert bodies[..0] == [] && Gather(bodies[..0]) == [];
    }
  }

  lemma {:induction false} GatherStarts(bodies: seq<Text>)
    requires bodies != []
    ensures bodies[0] <= Gather(bodies)
  {
    var n := |bodies| - 1;
    if n == 0 {
      assert bodies[..0] == [] && Gather(bodies[..0]) == [] && [] + bodies[0] == bodies[0];
    } else {
      GatherStarts(bodies[..n]);
    }
  }

  lemma {:induction false} KeepSolid(t: Text)
    requires forall u | u in t :: !IsWhitespace(u)
    ensures Keep(t, false) == t
  {
    if t != [] {
      assert t[0] in t && forall u | u in t[1..] :: u in t;
      KeepSolid(t[1..]);
    }
  }

  /** The first word of the text. */
  function Front(columns: int, code: nat): Text {
    [Sgr(code)] + Xs(RowOf(columns))
  }

  lemma FrontIs(columns: int, code: nat)
    ensures var front := Front(columns, code);
            && SpaceFree(front) && Width(front) == RowOf(columns) && Keep(front, false) == front
            && TrimStart(front) == front && NoLooseEscapes(front) && NEWLINE !in front
            && StyleAfter(front, Plain) == AfterCode(Plain, code)
  {
    var front, letters := Front(columns, code), Xs(RowOf(columns));
    NarrowWidth(letters);
    KeepSolid(front);
    assert front[1..] == letters;
    LettersLeaveStyles(RowOf(columns), AfterCode(Plain, code));
  }

  lemma {:induction false} LettersLeaveStyles(n: nat, st: Style)
    ensures StyleAfter(Xs(n), st) == st
  {
    if n > 0 {
      assert Xs(n)[1..] == Xs(n - 1);
      LettersLeaveStyles(n - 1, st);
    }
  }

  lemma PlaceFront(columns: int, o: Options, code: nat)
    requires (o.wordWrap && !o.hard) || 0 < columns
    ensures var front := Front(columns, code); PlaceWord([[]], 0, front, columns, o) == [front]
  {
    hide Width;
    var front := Front(columns, code);
    FrontIs(columns, code);
    EmptyWidth();
    var rows: seq<Text> := [[]];
    assert rows[0 := TrimStart([])] == rows && OpenRow(rows, 0, columns, o) == rows;
    assert BreakOn(rows, 0, Width(front), columns, o) == None;
    assert [] + front == front;
  }

  lemma EmptyWidth()
    ensures Width([]) == 0 && TrimStart([]) == [] && Width([X]) == 1
  {
    assert [X][1..] == [];
  }

  /** A letter goes to the last row or to a new one. */
  lemma PutLetter(open: seq<Text>, columns: int, o: Options)
    requires open != []
    ensures var rows := PutWord(open, [X], columns, o);
            |rows| >= |open| && forall i | 0 <= i < |open| - 1 :: rows[i] == open[i]
  {
    var start := BreakOn(open, Width(Last(open)), Width([X]), columns, o);
    if start.Some? {
      OneLetterBroken(start.value, columns, o.indent);
    }
  }

  lemma OneLetterBroken(start: seq<Text>, columns: int, indent: Text)
    requires start != []
    ensures var rows := WrappedWord(start, [X], columns, indent);
            rows == Append(start, [X]) || rows == start + [indent + [X]]
  {
    hide Width;
    var st := Wrapping(start, Width(Last(start)));
    var st' := WrapUnit(st, X, false, columns, indent);
    assert [X][1..] == [] && WrapUnits(st, [X], columns, indent) == WrapUnits(st', [], columns, indent) == st';
  }

  lemma PlaceSecond(columns: int, o: Options, code: nat)
    requires (o.wordWrap && !o.hard) || 0 < Width(o.indent) < columns
    ensures var front := Front(columns, code);
            var rows := PlaceWord([front], 1, [X], columns, o);
            rows[0] == front || rows[0] == front + [SPACE]
  {
    hide Width, WrappedWord, StartsOnNewRow;
    var front := Front(columns, code);
    FrontIs(columns, code);
    EmptyWidth();
    SpaceAdds([front]);
    assert [front][0 := front] == [front];
    var open := OpenRow([front], 1, columns, o);
    if !o.wordWrap || !o.trim {
      assert |open| == 2 && open[0] == front;
      PutLetter(open, columns, o);
    } else {
      assert open == [front + [SPACE]];
      assert BreakOn(open, Width(Last(open)), 1, columns, o) == None;
    }
  }

  lemma TwoRowTextIs(columns: int, o: Options, code: nat)
    requires (o.wordWrap && !o.hard) || 0 < Width(o.indent) < columns
    ensures var s, front := TwoRowText(columns, code), Front(columns, code);
            && OneLine(s) && Keep(s, false) == front + [X]
            && var rows := FinalRows(s, columns, o); rows != [] && Keep(rows[0], false) == front
  {
    hide Keep, PlaceWord, SpaceFree, Width, TrimRight;
    var s, front := TwoRowText(columns, code), Front(columns, code);
    FrontIs(columns, code);
    assert s == front + [SPACE] + [X];
    KeepConcat(front + [SPACE], [X], false);
    KeepConcat(front, [SPACE], false);
    KeepSpace();
    KeepSolid([X]);
    LetterIsFree();
    SplitWord([X]);
    SplitAfterWord(front, [X]);
    var words := [front, [X]];
    assert [front] + [[X]] == words && words[..1] == [front] && [front][..0] == [];
    assert PlaceWords([], columns, o) == [[]];
    PlaceFront(columns, o, code);
    assert PlaceWords([front], columns, o) == [front];
    PlaceSecond(columns, o, code);
    var rows := PlaceWords(words, columns, o);
    assert rows == PlaceWord([front], 1, [X], columns, o);
    TrimRightContent(rows[0]);
  }

  lemma LetterIsFree()
    ensures SpaceFree([X])
  {
  }

  /** Beside an indent that acts on an attribute, the second row of that text does not have its style. */
  lemma IndentTakesStyle(columns: int, o: Options, a: Attribute)
    requires Tidy(columns, o, false) && ((o.wordWrap && !o.hard) || Width(o.indent) < columns) && ActsOn(o.indent, a)
    ensures var s := TwoRowText(columns, OtherCode(o.indent, a)); OneLine(s) && !KeepsStyles(s, columns, o)
  {
    hide FinalRows, Keep, StyleAfter, TwoRowText, Hold, ActsOn, Acts, AfterCode, Sets, Setter;
    var code := OtherCode(o.indent, a);
    var s, mark, front := TwoRowText(columns, code), Keep(o.indent, false), Front(columns, code);
    KeptActs(o.indent, a);
    assert mark != [] by { NothingActs(a); }
    TwoRowTextIs(columns, o, code);
    FrontIs(columns, code);
    TextIsHeld(s, columns, o);
    var rows := FinalRows(s, columns, o);
    var bodies := BodyList(rows, mark);
    GatherBodies(rows, mark);
    HoldsText(rows, mark, Keep(s, false));
    FirstBody(rows[0], mark);
    var i := GatherFront(bodies, X);
    var style := StyleAfter(front, Plain);
    AtAfterText(mark, style, Plain, a);
    SolidPaint(o.indent, Plain);
    OtherCodeDiffers(o.indent, a);
    NothingActs(a);
    assert bodies[i][0].Glyph? && bodies[i][..0] == [] && Gather(bodies[..i]) == front;
    assert At(StyleAfter(mark, style), a) == At(StyleAfter(o.indent, Plain), a) != At(style, a);
    assert !LeavesStyles(mark, style, bodies[i]);
  }

  lemma OtherCodeDiffers(indent: Text, a: Attribute)
    ensures At(AfterCode(Plain, OtherCode(indent, a)), a) != At(StyleAfter(indent, Plain), a)
  {
    AtAfter(Plain, OtherCode(indent, a), a);
    assert Sets(0).None?;
  }

  lemma HoldsText(rows: seq<Text>, mark: Text, text: Text)
    requires Hold(rows, mark, false, text)
    ensures Bodies(rows, mark, false) == text
  {
  }

  /**
   With the options under which text stays with its rows, all texts keep their styles exactly beside indents
   whose codes act on no attribute.
   */
  lemma StylesAreKeptIff(columns: int, o: Options)
    requires Tidy(columns, o, false) && ((o.wordWrap && !o.hard) || Width(o.indent) < columns)
    ensures (forall s | OneLine(s) :: KeepsStyles(s, columns, o)) <==> Inert(o.indent)
  {
    hide KeepsStyles, OneLine, Tidy, ActsOn, TwoRowText;
    if Inert(o.indent) {
      forall s | OneLine(s) ensures KeepsStyles(s, columns, o) {
        InertIndentKeepsStyles(s, columns, o);
      }
    } else {
      var a :| ActsOn(o.indent, a);
      IndentTakesStyle(columns, o, a);
    }
  }

  /** The options of the program's own call: a bar in cyan and four spaces in front of every row but the first. */
  function PromptOptions(): Options {
    Options(true, true, false, [Sgr(36), Glyph('\U{2502}', 1), Sgr(39)] + [SPACE, SPACE, SPACE, SPACE])
  }

  /** A red text of two letters in one column: beside that indent the second letter is not red. */
  lemma PromptIndentTakesStyle()
    ensures var s := [Sgr(31), X, SPACE, X];
            OneLine(s) && Safe(s, 1, PromptOptions()) && !KeepsStyles(s, 1, PromptOptions())
  {
    var o := PromptOptions();
    var s := [Sgr(31), X, SPACE, X];
    assert TwoRowText(1, 31) == s && Safe(s, 1, o);
    hide StyleAfter, KeepsStyles, ActsOn, Setter, TwoRowText, Safe;
    PromptIndentActs();
    IndentTakesStyle(1, o, Foreground);
  }

  lemma PromptIndentActs()
    ensures ActsOn(PromptOptions().indent, Foreground) && OtherCode(PromptOptions().indent, Foreground) == 31
  {
    var indent := PromptOptions().indent;
    var codes, spaces := [Sgr(36), Glyph('\U{2502}', 1), Sgr(39)], [SPACE, SPACE, SPACE, SPACE];
    assert indent == codes + spaces && indent[0] == Sgr(36) && Acts(36, Foreground) && !ActsOn(spaces, Foreground);
    hide StyleAfter, Acts, AfterCode, Sets, Restores;
    BarLeavesPlain();
    PaintConcat(codes, spaces, Plain);
    AtAfterText(spaces, Plain, Plain, Foreground);
  }

  lemma BarLeavesPlain()
    ensures StyleAfter([Sgr(36), Glyph('\U{2502}', 1), Sgr(39)], Plain) == Plain
  {
    var bar := Glyph('\U{2502}', 1);
    var cyan := AfterCode(Plain, 36);
    assert AfterCode(cyan, 39) == Plain by {
      assert cyan == Plain[Foreground := 36];
    }
    hide StyleAfter, AfterCode;
    PaintFirst(Sgr(36), [bar, Sgr(39)], Plain);
    PaintFirst(bar, [Sgr(39)], cyan);
    PaintFirst(Sgr(39), [], cyan);
    assert [Sgr(36), bar, Sgr(39)] == [Sgr(36)] + [bar, Sgr(39)] && [bar, Sgr(39)] == [bar] + [Sgr(39)];
    assert [Sgr(39)] == [Sgr(39)] + [];
    NothingGathered();
  }
}
