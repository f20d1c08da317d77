/**
 Closing and reopening styles at line breaks: what a terminal displays stays the same, and exactly when each
 line of the output can be displayed by itself.  A terminal keeps every attribute apart: an SGR code sets one
 of them, or resets some.
 */
module WrapStyles {
  import opened Prelude
  import opened WrapAnsi

  // ---------------------------------------------------------------- what the codes do

  datatype Attribute =
    | Weight | Posture | Underline | Blink | Inverse | Concealed | CrossedOut | Font | Proportion
    | Frame | Overline | Ideogram | Foreground | Background

  /** The attribute that a code sets (section 8.3.117 of ECMA-48, and the bright colours of common terminals). */
  function Sets(code: nat): Option<Attribute> {
    match code
    case 1 | 2 => Some(Weight)
    case 3 | 20 => Some(Posture)
    case 4 | 21 => Some(Underline)
    case 5 | 6 => Some(Blink)
    case 7 => Some(Inverse)
    case 8 => Some(Concealed)
    case 9 => Some(CrossedOut)
    case 26 => Some(Proportion)
    case 51 | 52 => Some(Frame)
    case 53 => Some(Overline)
    case _ =>
      if 11 <= code <= 19 then Some(Font)
      else if 30 <= code <= 37 || 90 <= code <= 97 then Some(Foreground)
      else if 40 <= code <= 47 || 100 <= code <= 107 then Some(Background)
      else if 60 <= code <= 64 then Some(Ideogram)
      else None
  }

  /** The attribute that a code goes back to the default of. */
  function Restores(code: nat): Option<Attribute> {
    match code
    case 10 => Some(Font)
    case 22 => Some(Weight)
    case 23 => Some(Posture)
    case 24 => Some(Underline)
    case 25 => Some(Blink)
    case 27 => Some(Inverse)
    case 28 => Some(Concealed)
    case 29 => Some(CrossedOut)
    case 39 => Some(Foreground)
    case 49 => Some(Background)
    case 50 => Some(Proportion)
    case 54 => Some(Frame)
    case 55 => Some(Overline)
    case 65 => Some(Ideogram)
    case _ => None
  }

  /** A code says what becomes of an attribute; the code 0 goes back to the default of all. */
  predicate Acts(code: nat, a: Attribute) {
    code == 0 || Sets(code) == Some(a) || Restores(code) == Some(a)
  }

  /** The attributes that are not at their default, each with the code that set it. */
  type Style = map<Attribute, nat>

  const Plain: Style := map[]

  function AfterCode(st: Style, code: nat): Style {
    if code == 0 then Plain
    else
      match Sets(code)
      case Some(a) => st[a := code]
      case None => map a | a in st && Restores(code) != Some(a) :: st[a]
  }

  function After(st: Style, u: Unit): Style {
    if u.Sgr? then AfterCode(st, u.code) else st
  }

  /** What of an attribute: the code that set it, unless it is at its default. */
  function At(st: Style, a: Attribute): Option<nat> {
    if a in st then Some(st[a]) else None
  }

  lemma AtAfter(st: Style, code: nat, a: Attribute)
    ensures At(AfterCode(st, code), a)
            == if !Acts(code, a) then At(st, a) else if Sets(code) == Some(a) then Some(code) else None
  {
  }

  lemma SameStyle(st: Style, st': Style)
    requires forall a :: At(st, a) == At(st', a)
    ensures st == st'
  {
    forall a ensures a in st <==> a in st' {
      assert At(st, a) == At(st', a);
    }
    forall a | a in st ensures st[a] == st'[a] {
      assert At(st, a) == At(st', a);
    }
  }

  /**
   The table of ansi-styles: the codes that it closes, each by the code that goes back to the default of the
   attribute it sets.
   */
  lemma TableClosesWhatItOpens(code: nat)
    ensures CloseCode(code).Some?
            <==> code in {0, 1, 2, 3, 4, 7, 8, 9, 53} || 30 <= code <= 37 || 40 <= code <= 47
                 || 90 <= code <= 97 || 100 <= code <= 107
    ensures CloseCode(code).Some? && code != 0 ==>
              Sets(code).Some? && Restores(CloseCode(code).value) == Sets(code)
              && Sets(CloseCode(code).value) == None && CloseCode(code).value != 0
  {
  }

  // ---------------------------------------------------------------- what is displayed

  /**
   The characters of each line with the style they are displayed in.  A terminal carries the style
   over to the next line; alone says that every line is displayed by itself, from the plain style.
   */
  function Show(text: Text, st: Style, alone: bool): (lines: seq<seq<(Unit, Style)>>)
    ensures lines != []
    decreases |text|
  {
    if text == [] then [[]]
    else
      var u := text[0];
      if u == NEWLINE then [[]] + Show(text[1..], if alone then Plain else st, alone)
      else
        var rest := Show(text[1..], After(st, u), alone);
        if u.Glyph? then [[(u, st)] + rest[0]] + rest[1..] else rest
  }

  lemma ShowStep(u: Unit, rest: Text, st: Style, alone: bool)
    ensures Show([u] + rest, st, alone) ==
            if u == NEWLINE then [[]] + Show(rest, if alone then Plain else st, alone)
            else
              var lines := Show(rest, After(st, u), alone);
              if u.Glyph? then [[(u, st)] + lines[0]] + lines[1..] else lines
  {
    assert ([u] + rest)[1..] == rest;
  }

  lemma RestyleFirst(pre: Text, code: Option<nat>)
    requires pre != []
    ensures var u, code' := pre[0], NextCode(code, pre[0]);
            Restyle(pre, code) == [u] + (Extra(code', u, |pre| > 1 && pre[1] == NEWLINE) + Restyle(pre[1..], code'))
  {
  }

  lemma NothingShown(code: Option<nat>, st: Style, alone: bool)
    ensures Restyle([], code) == [] && Show([], st, alone) == [[]]
  {
  }

  // ---------------------------------------------------------------- what is in force after a text

  /** The code that the pass keeps in mind. */
  function Tracked(t: Text): Option<nat> {
    if t == [] then None else NextCode(Tracked(t[..|t| - 1]), t[|t| - 1])
  }

  /** The style that the pass opens again after a line break. */
  function Reopened(code: Option<nat>): Style {
    if Reopens(code) then AfterCode(Plain, code.value) else Plain
  }

  /**
   The style in force after a text.  When lines are displayed alone, a line begins with the style that is
   opened again.
   */
  function InForce(t: Text, alone: bool): Style {
    if t == [] then Plain
    else
      var n := |t| - 1;
      if alone && t[n] == NEWLINE then Reopened(Tracked(t[..n])) else After(InForce(t[..n], alone), t[n])
  }

  /** The style in force in the output between the texts t and rest of the input. */
  function InOutput(t: Text, rest: Text, alone: bool): Style {
    var st, code := InForce(t, alone), Tracked(t);
    if rest != [] && rest[0] == NEWLINE && Reopens(code) then AfterCode(st, CloseCode(code.value).value) else st
  }

  lemma Newest(t: Text, u: Unit, alone: bool)
    ensures Tracked(t + [u]) == NextCode(Tracked(t), u)
    ensures InForce(t + [u], alone)
            == if alone && u == NEWLINE then Reopened(Tracked(t)) else After(InForce(t, alone), u)
  {
    assert (t + [u])[..|t|] == t;
  }

  /** The attribute of a code that is opened again has been set by that code. */
  lemma {:induction false} TrackedIsSet(t: Text, alone: bool)
    ensures var code := Tracked(t);
            Reopens(code) ==> Sets(code.value).Some? && At(InForce(t, alone), Sets(code.value).value) == code
  {
    if t != [] {
      hide CloseCode, Sets, Restores;
      var n := |t| - 1;
      TrackedIsSet(t[..n], alone);
      assert t == t[..n] + [t[n]];
      Newest(t[..n], t[n], alone);
      var code := Tracked(t);
      if Reopens(code) {
        TableClosesWhatItOpens(code.value);
      }
    }
  }

  /** Closing and opening again what the tracked code set leaves the style as it was. */
  lemma CloseAndReopen(st: Style, code: nat)
    requires Reopens(Some(code))
    ensures var close := CloseCode(code).value;
            && AfterCode(AfterCode(st, close), close) == AfterCode(st, close)
            && AfterCode(Plain, close) == Plain == AfterCode(AfterCode(Plain, code), close)
            && (Sets(code).Some? && At(st, Sets(code).value) == Some(code) ==>
                  AfterCode(AfterCode(st, close), code) == st)
  {
    TableClosesWhatItOpens(code);
    var close, a := CloseCode(code).value, Sets(code).value;
    assert AfterCode(st, close) == st - {a} && AfterCode(Plain, close) == Plain;
    assert AfterCode(Plain, code) == Plain[a := code] && AfterCode(Plain[a := code], close) == Plain;
    assert (st - {a}) - {a} == st - {a};
    assert At(st, a) == Some(code) ==> (st - {a})[a := code] == st;
  }

  /** What the extra code after a character does: the style goes on to what it should be in the output. */
  lemma ExtraIsUnseen(t: Text, u: Unit, rest: Text, out: Text, alone: bool)
    ensures var t', nl := t + [u], rest != [] && rest[0] == NEWLINE;
            var st := InOutput(t, [u] + rest, alone);
            var st' := if u == NEWLINE && alone then Plain else After(st, u);
            Show(Extra(Tracked(t'), u, nl) + out, st', alone) == Show(out, InOutput(t', rest, alone), alone)
  {
    hide Show, CloseCode, AfterCode, Sets, InForce, Tracked;
    var t', nl := t + [u], rest != [] && rest[0] == NEWLINE;
    Newest(t, u, alone);
    TrackedIsSet(t, alone);
    var code := Tracked(t');
    var st := InOutput(t, [u] + rest, alone);
    var st' := if u == NEWLINE && alone then Plain else After(st, u);
    var extra := Extra(code, u, nl);
    if Reopens(code) {
      CloseAndReopen(InForce(t, alone), code.value);
    }
    if extra == [] {
      assert extra + out == out;
    } else {
      ShowStep(extra[0], out, st', alone);
      assert extra + out == [extra[0]] + out;
    }
  }

  // ---------------------------------------------------------------- what is displayed of the output

  /** The style that the text has is the one it has in the output. */
  ghost predicate SameStyles(t: Text, rest: Text, alone: bool) {
    forall k | 0 <= k < |rest| && rest[k].Glyph? && rest[k] != NEWLINE ::
      InForce(t + rest[..k], alone) == InForce(t + rest[..k], false)
  }

  lemma SameStylesFirst(t: Text, u: Unit, rest: Text, alone: bool)
    ensures SameStyles(t, [u] + rest, alone)
            <==> (u.Glyph? && u != NEWLINE ==> InForce(t, alone) == InForce(t, false))
                 && SameStyles(t + [u], rest, alone)
  {
    hide InForce;
    var all := [u] + rest;
    assert t + all[..0] == t;
    forall k | 0 <= k < |rest| ensures all[k + 1] == rest[k] && t + all[..k + 1] == t + [u] + rest[..k] {
    }
    if SameStyles(t, all, alone) {
      forall k | 0 <= k < |rest| && rest[k].Glyph? && rest[k] != NEWLINE
        ensures InForce(t + [u] + rest[..k], alone) == InForce(t + [u] + rest[..k], false)
      {
        assert all[k + 1].Glyph?;
      }
    }
    if SameStyles(t + [u], rest, alone) && (u.Glyph? && u != NEWLINE ==> InForce(t, alone) == InForce(t, false)) {
      forall k | 0 <= k < |all| && all[k].Glyph? && all[k] != NEWLINE
        ensures InForce(t + all[..k], alone) == InForce(t + all[..k], false)
      {
        if k > 0 {
          assert rest[k - 1].Glyph?;
        }
      }
    }
  }

  lemma SameFirst(p: (Unit, Style), q: (Unit, Style), a: seq<seq<(Unit, Style)>>, b: seq<seq<(Unit, Style)>>)
    requires a != [] && b != []
    ensures [[p] + a[0]] + a[1..] == [[q] + b[0]] + b[1..] <==> p == q && a == b
    ensures [[]] + a == [[]] + b <==> a == b
  {
    var x, y := [[p] + a[0]] + a[1..], [[q] + b[0]] + b[1..];
    if x == y {
      assert x[0][0] == p && y[0][0] == q && x[0][1..] == a[0] && y[0][1..] == b[0] && x[1..] == a[1..]
          && y[1..] == b[1..];
      assert a == [a[0]] + a[1..] && b == [b[0]] + b[1..];
    }
    var empty: seq<(Unit, Style)> := [];
    assert ([empty] + a)[1..] == a && ([empty] + b)[1..] == b;
  }

  /** The output shows the same as the text exactly when every character has its style in the output. */
  lemma {:induction false} RestyleShows(t: Text, rest: Text, alone: bool)
    ensures Show(Restyle(rest, Tracked(t)), InOutput(t, rest, alone), alone) == Show(rest, InForce(t, false), false)
            <==> SameStyles(t, rest, alone)
    decreases |rest|
  {
    hide Show, Restyle, Extra, InForce, Tracked, SameStyles, AfterCode, CloseCode;
    if rest == [] {
      NothingShown(Tracked(t), InOutput(t, rest, alone), alone);
      NothingShown(Tracked(t), InForce(t, false), false);
      assert SameStyles(t, [], alone) by { NoCharacters(t, alone); }
    } else {
      var u, later := rest[0], rest[1..];
      var t' := t + [u];
      var x := InOutput(t, rest, alone);
      assert rest == [u] + later;
      RestyleShows(t', later, alone);
      RestyleFirst(rest, Tracked(t));
      Newest(t, u, false);
      var out := Restyle(later, Tracked(t'));
      ShowStep(u, later, InForce(t, false), false);
      ShowStep(u, Extra(Tracked(t'), u, later != [] && later[0] == NEWLINE) + out, x, alone);
      ExtraIsUnseen(t, u, later, out, alone);
      SameFirst((u, x), (u, InForce(t, false)), Show(out, InOutput(t', later, alone), alone),
                Show(later, InForce(t', false), false));
      SameStylesFirst(t, u, later, alone);
    }
  }

  lemma NoCharacters(t: Text, alone: bool)
    ensures SameStyles(t, [], alone)
  {
  }

  // ---------------------------------------------------------------- where a style is lost

  /** The code at i has set an attribute, and no code between i and k says anything else of it. */
  ghost predicate StillSet(t: Text, i: int, k: int) {
    && 0 <= i < k <= |t| && t[i].Sgr? && Sets(t[i].code).Some?
    && forall m | i < m < k && t[m].Sgr? :: !Acts(t[m].code, Sets(t[i].code).value)
  }

  /**
   Every attribute with which a character is displayed was set on its own line, or by the last code before the
   line break, which the table knows how to close.
   */
  ghost predicate SetForEachLine(pre: Text) {
    forall i, j, k | 0 <= i < j < k < |pre| && pre[j] == NEWLINE && pre[k].Glyph? && pre[k] != NEWLINE
                     && StillSet(pre, i, k) ::
      CloseCode(pre[i].code).Some? && forall m | i < m < j :: !pre[m].Sgr?
  }

  /** Over each line break since then, the attribute that the code at i has set stays when lines are shown alone. */
  ghost predicate Kept(t: Text, i: int, k: int)
    requires 0 <= i < k <= |t| && t[i].Sgr?
  {
    forall j | i < j < k && t[j] == NEWLINE :: CloseCode(t[i].code).Some? && forall m | i < m < j :: !t[m].Sgr?
  }

  lemma StillSetStep(t: Text, u: Unit, i: int)
    requires 0 <= i < |t|
    ensures StillSet(t + [u], i, |t| + 1)
            <==> StillSet(t, i, |t|) && (u.Sgr? ==> !Acts(u.code, Sets(t[i].code).value))
    ensures t[i].Sgr? ==>
              (Kept(t + [u], i, |t| + 1)
               <==> Kept(t, i, |t|)
                    && (u == NEWLINE ==> CloseCode(t[i].code).Some? && forall m | i < m < |t| :: !t[m].Sgr?))
  {
    hide CloseCode, Sets, Restores, Acts;
    var longer := t + [u];
    assert longer[|t|] == u && forall m | 0 <= m < |t| :: longer[m] == t[m];
  }

  lemma {:induction false} TrackedLast(t: Text, i: nat)
    requires i < |t| && t[i].Sgr? && Sets(t[i].code).Some? && forall m | i < m < |t| :: !t[m].Sgr?
    ensures Tracked(t) == Some(t[i].code)
  {
    hide Sets;
    var n := |t| - 1;
    assert Sets(t[i].code).Some? ==> t[i].code != END_CODE by { EndSetsNothing(); }
    if i < n {
      TrackedLast(t[..n], i);
    }
  }

  lemma EndSetsNothing()
    ensures Sets(END_CODE).None? && Sets(0).None?
  {
  }

  lemma {:induction false} TrackedAt(t: Text) returns (i: nat)
    requires Tracked(t).Some?
    ensures i < |t| && t[i] == Sgr(Tracked(t).value) && forall m | i < m < |t| :: !t[m].Sgr?
  {
    var n := |t| - 1;
    if t[n].Sgr? {
      i := n;
    } else {
      i := TrackedAt(t[..n]);
    }
  }

  /** What is in force has been set by a code, and nothing has been said of it since. */
  lemma {:induction false} SetSomewhere(t: Text, a: Attribute, alone: bool) returns (i: nat)
    requires At(InForce(t, alone), a).Some?
    ensures StillSet(t, i, |t|) && Sets(t[i].code) == Some(a) && At(InForce(t, alone), a) == Some(t[i].code)
    ensures alone ==> Kept(t, i, |t|)
  {
    hide CloseCode, Sets, Restores, AfterCode, Acts;
    var n := |t| - 1;
    var front, u := t[..n], t[n];
    assert t == front + [u];
    Newest(front, u, alone);
    if alone && u == NEWLINE {
      var code := Tracked(front).value;
      AtAfter(Plain, code, a);
      i := TrackedAt(front);
      StillSetStep(front, u, i);
      assert CloseCode(code).Some?;
    } else if u.Sgr? {
      AtAfter(InForce(front, alone), u.code, a);
      if Sets(u.code) == Some(a) {
        i := n;
        SetsActs(u.code, a);
      } else {
        i := SetSomewhere(front, a, alone);
        StillSetStep(front, u, i);
      }
    } else {
      i := SetSomewhere(front, a, alone);
      StillSetStep(front, u, i);
    }
  }

  lemma SetsActs(code: nat, a: Attribute)
    ensures Sets(code) == Some(a) ==> Acts(code, a)
  {
  }

  lemma {:induction false} StillInForce(t: Text, i: nat, alone: bool)
    requires StillSet(t, i, |t|) && (alone ==> Kept(t, i, |t|))
    ensures At(InForce(t, alone), Sets(t[i].code).value) == Some(t[i].code)
  {
    hide CloseCode, Sets, Restores, AfterCode, Acts;
    var n, a := |t| - 1, Sets(t[i].code).value;
    var front, u := t[..n], t[n];
    assert t == front + [u];
    Newest(front, u, alone);
    if u.Sgr? {
      AtAfter(InForce(front, alone), u.code, a);
    }
    if i == n {
      SetsActs(u.code, a);
    } else {
      StillSetStep(front, u, i);
      StillInForce(front, i, alone);
      if alone && u == NEWLINE {
        TrackedLast(front, i);
        EndSetsNothing();
        AtAfter(Plain, t[i].code, a);
        SetsActs(t[i].code, a);
      }
    }
  }

  /** The styles agree exactly when everything in force is kept over the line breaks. */
  lemma SameIffKept(t: Text)
    ensures InForce(t, true) == InForce(t, false) <==> forall i | StillSet(t, i, |t|) :: Kept(t, i, |t|)
  {
    hide InForce, Kept, Acts;
    if forall i | StillSet(t, i, |t|) :: Kept(t, i, |t|) {
      forall a ensures At(InForce(t, true), a) == At(InForce(t, false), a) {
        if At(InForce(t, true), a).Some? {
          var i := SetSomewhere(t, a, true);
          StillInForce(t, i, false);
        }
        if At(InForce(t, false), a).Some? {
          var i := SetSomewhere(t, a, false);
          StillInForce(t, i, true);
        }
      }
      SameStyle(InForce(t, true), InForce(t, false));
    }
    if InForce(t, true) == InForce(t, false) {
      forall i | StillSet(t, i, |t|) ensures Kept(t, i, |t|) {
        var a := Sets(t[i].code).value;
        StillInForce(t, i, false);
        var i' := SetSomewhere(t, a, true);
        SetsActs(t[i].code, a);
        SetsActs(t[i'].code, a);
        assert i == i';
      }
    }
  }

  lemma PrefixStillSet(pre: Text, k: nat)
    requires k < |pre|
    ensures forall i :: StillSet(pre[..k], i, k) <==> StillSet(pre, i, k)
    ensures forall i | 0 <= i < k && pre[i].Sgr? :: Kept(pre[..k], i, k) <==> Kept(pre, i, k)
  {
    hide CloseCode, Sets, Acts;
    var t := pre[..k];
    assert forall m | 0 <= m < k :: t[m] == pre[m];
    forall i ensures StillSet(t, i, k) <==> StillSet(pre, i, k) {
    }
    forall i | 0 <= i < k && pre[i].Sgr? ensures Kept(t, i, k) <==> Kept(pre, i, k) {
    }
  }

  lemma SameStylesIff(pre: Text)
    ensures SameStyles([], pre, true) <==> SetForEachLine(pre)
  {
    hide InForce, StillSet;
    StillSetIsCode(pre);
    forall k | 0 <= k < |pre| && pre[k].Glyph? && pre[k] != NEWLINE
      ensures InForce([] + pre[..k], true) == InForce([] + pre[..k], false)
              <==> forall i | StillSet(pre, i, k) :: Kept(pre, i, k)
    {
      assert [] + pre[..k] == pre[..k];
      SameIffKept(pre[..k]);
      PrefixStillSet(pre, k);
    }
  }

  lemma StillSetIsCode(pre: Text)
    ensures forall i, k | StillSet(pre, i, k) :: 0 <= i < k <= |pre| && pre[i].Sgr?
  {
  }

  /**
   The pass that closes and reopens styles at line breaks leaves the displayed text alone: every
   character is on its line with all its attributes when the terminal carries them over line ends.  When each
   line of the output is displayed by itself, that is so exactly when every attribute of a character was set on
   its own line, or by the last code before the line break, and one that the table knows.
   */
  lemma StylesSurviveLineBreaks(pre: Text)
    ensures Show(Restyle(pre, None), Plain, false) == Show(pre, Plain, false)
    ensures Show(Restyle(pre, None), Plain, true) == Show(pre, Plain, false) <==> SetForEachLine(pre)
  {
    hide Show, Restyle;
    RestyleShows([], pre, false);
    RestyleShows([], pre, true);
    SameStylesIff(pre);
  }

  // ---------------------------------------------------------------- line ends

  /** The style in force at each line break. */
  function AtLineEnds(text: Text, st: Style): seq<Style> {
    if text == [] then []
    else (if text[0] == NEWLINE then [st] else []) + AtLineEnds(text[1..], After(st, text[0]))
  }

  /** The style of the text without the attribute that its last code set, when the table knows that code. */
  function Closed(t: Text): Style {
    var st, code := InForce(t, false), Tracked(t);
    if code.Some? && CloseCode(code.value).Some? && Sets(code.value).Some? then st - {Sets(code.value).value} else st
  }

  function ClosedAtLineEnds(t: Text, rest: Text): seq<Style>
    decreases |rest|
  {
    if rest == [] then []
    else (if rest[0] == NEWLINE then [Closed(t)] else []) + ClosedAtLineEnds(t + [rest[0]], rest[1..])
  }

  lemma ClosedInOutput(t: Text, rest: Text)
    requires rest != [] && rest[0] == NEWLINE
    ensures InOutput(t, rest, false) == Closed(t)
  {
    var st, code := InForce(t, false), Tracked(t);
    hide InForce, Tracked;
    if code.Some? {
      TableClosesWhatItOpens(code.value);
      ZeroSetsNothing();
    }
    if Reopens(code) {
      assert AfterCode(st, CloseCode(code.value).value) == st - {Sets(code.value).value};
    }
  }

  lemma ZeroSetsNothing()
    ensures Sets(0).None?
  {
  }

  lemma EndsFirst(u: Unit, rest: Text, st: Style)
    ensures AtLineEnds([u] + rest, st) == (if u == NEWLINE then [st] else []) + AtLineEnds(rest, After(st, u))
  {
    assert ([u] + rest)[1..] == rest;
  }

  /** What the extra code after a character does to the line ends: it is seen only there. */
  lemma ExtraAtLineEnds(t: Text, u: Unit, rest: Text, out: Text)
    ensures var t', nl := t + [u], rest != [] && rest[0] == NEWLINE;
            AtLineEnds(Extra(Tracked(t'), u, nl) + out, After(InOutput(t, [u] + rest, false), u))
            == AtLineEnds(out, InOutput(t', rest, false))
  {
    hide AtLineEnds, CloseCode, AfterCode, Sets, InForce, Tracked;
    var t', nl := t + [u], rest != [] && rest[0] == NEWLINE;
    Newest(t, u, false);
    TrackedIsSet(t, false);
    var code := Tracked(t');
    var st := After(InOutput(t, [u] + rest, false), u);
    var extra := Extra(code, u, nl);
    if Reopens(code) {
      CloseAndReopen(InForce(t, false), code.value);
    }
    if extra == [] {
      assert extra + out == out;
    } else {
      EndsFirst(extra[0], out, st);
      assert extra + out == [extra[0]] + out;
      assert [] + AtLineEnds(out, After(st, extra[0])) == AtLineEnds(out, After(st, extra[0]));
    }
  }

  lemma {:induction false} EndsAreClosed(t: Text, rest: Text)
    ensures AtLineEnds(Restyle(rest, Tracked(t)), InOutput(t, rest, false)) == ClosedAtLineEnds(t, rest)
    decreases |rest|
  {
    if rest == [] {
      assert Restyle(rest, Tracked(t)) == [];
    } else {
      hide AtLineEnds, Restyle, Extra, InForce, Tracked, AfterCode, CloseCode, Closed, Sets;
      var u, later := rest[0], rest[1..];
      var t', x := t + [u], InOutput(t, rest, false);
      assert rest == [u] + later;
      EndsAreClosed(t', later);
      RestyleFirst(rest, Tracked(t));
      Newest(t, u, false);
      var out := Restyle(later, Tracked(t'));
      EndsFirst(u, Extra(Tracked(t'), u, later != [] && later[0] == NEWLINE) + out, x);
      ExtraAtLineEnds(t, u, later, out);
      if u == NEWLINE {
        ClosedInOutput(t, rest);
      }
    }
  }

  /**
   At every line break of the output the attribute that the last code before it set is at its default, when the
   table knows that code, and every other attribute is what it is in the text.
   */
  lemma LineEndsAreClosed(pre: Text)
    ensures AtLineEnds(Restyle(pre, None), Plain) == ClosedAtLineEnds([], pre)
  {
    EndsAreClosed([], pre);
  }

  // ---------------------------------------------------------------- texts with one style at a time

  function Codes(t: Text): seq<nat> {
    if t == [] then [] else (if t[0].Sgr? then [t[0].code] else []) + Codes(t[1..])
  }

  /** Whatever a code sets can be closed, and the next code says something else of it. */
  predicate OneAtATime(codes: seq<nat>) {
    forall n | 0 <= n < |codes| && Sets(codes[n]).Some? ::
      CloseCode(codes[n]).Some? && (n + 1 < |codes| ==> Acts(codes[n + 1], Sets(codes[n]).value))
  }

  lemma {:induction false} CodesConcat(a: Text, b: Text)
    ensures Codes(a + b) == Codes(a) + Codes(b)
  {
    if a == [] {
      assert a + b == b;
    } else {
      assert (a + b)[1..] == a[1..] + b;
      CodesConcat(a[1..], b);
    }
  }

  lemma {:induction false} NoCodes(t: Text)
    ensures Codes(t) == [] <==> forall u | u in t :: u.Glyph?
  {
    if t != [] {
      NoCodes(t[1..]);
      assert t[0] in t && forall u | u in t[1..] :: u in t;
      assert forall u | u in t :: u == t[0] || u in t[1..];
      assert Codes(t) == [] <==> t[0].Glyph? && Codes(t[1..]) == [];
    }
  }

  lemma {:induction false} FirstCodeAfter(t: Text, i: nat, j: nat) returns (m: nat)
    requires i < j <= |t| && !forall m | i < m < j :: !t[m].Sgr?
    ensures i < m < j && t[m].Sgr? && forall k | i < k < m :: !t[k].Sgr?
  {
    if forall k | i < k < j - 1 :: !t[k].Sgr? {
      m := j - 1;
    } else {
      m := FirstCodeAfter(t, i, j - 1);
    }
  }

  lemma CodesAround(t: Text, i: nat, m: nat)
    requires i < m < |t| && t[i].Sgr? && t[m].Sgr? && forall k | i < k < m :: !t[k].Sgr?
    ensures var n := |Codes(t[..i])|;
            n + 1 < |Codes(t)| && Codes(t)[n] == t[i].code && Codes(t)[n + 1] == t[m].code
  {
    var before, between, after := t[..i], t[i + 1..m], t[m + 1..];
    assert t == before + ([t[i]] + (between + ([t[m]] + after)));
    CodesConcat(before, [t[i]] + (between + ([t[m]] + after)));
    CodesConcat([t[i]], between + ([t[m]] + after));
    CodesConcat(between, [t[m]] + after);
    CodesConcat([t[m]], after);
    NoCodes(between);
    assert [t[i]][1..] == [] && [t[m]][1..] == [];
  }

  lemma CodeAround(t: Text, i: nat)
    requires i < |t| && t[i].Sgr?
    ensures t[i].code in Codes(t)
  {
    assert t == t[..i] + ([t[i]] + t[i + 1..]);
    CodesConcat(t[..i], [t[i]] + t[i + 1..]);
    CodesConcat([t[i]], t[i + 1..]);
    assert [t[i]][1..] == [];
  }

  /** Such texts can be displayed line by line. */
  lemma OneAtATimeStandsAlone(t: Text)
    requires OneAtATime(Codes(t))
    ensures SetForEachLine(t)
  {
    hide Codes, CloseCode, Sets, Acts;
    forall i, j, k | 0 <= i < j < k < |t| && t[j] == NEWLINE && t[k].Glyph? && t[k] != NEWLINE && StillSet(t, i, k)
      ensures CloseCode(t[i].code).Some? && forall m | i < m < j :: !t[m].Sgr?
    {
      CodeAround(t, i);
      if !forall m | i < m < j :: !t[m].Sgr? {
        var m := FirstCodeAfter(t, i, j);
        CodesAround(t, i, m);
      }
    }
  }

  // ---------------------------------------------------------------- two texts that lose a style

  /** A blinking text over two lines: the second line does not blink when it is displayed by itself. */
  lemma BlinkingIsLost()
    ensures var x := Glyph('x', 1);
            Show(Restyle([Sgr(5), x, NEWLINE, x], None), Plain, true) != Show([Sgr(5), x, NEWLINE, x], Plain, false)
  {
    var x := Glyph('x', 1);
    var pre := [Sgr(5), x, NEWLINE, x];
    StylesSurviveLineBreaks(pre);
    assert StillSet(pre, 0, 3) && pre[2] == NEWLINE;
  }

  /** A bold text that is also red: of the two only the red is there when the second line is displayed by itself. */
  lemma BoldIsLost()
    ensures var x := Glyph('x', 1);
            var pre := [Sgr(1), Sgr(31), x, NEWLINE, x];
            && Restyle(pre, None) == [Sgr(1), Sgr(31), x, Sgr(39), NEWLINE, Sgr(31), x]
            && Show(Restyle(pre, None), Plain, true) != Show(pre, Plain, false)
  {
    hide Show, Restyle, SetForEachLine;
    var x := Glyph('x', 1);
    var t := [x, NEWLINE, x];
    var red := [Sgr(31)] + t;
    var pre := [Sgr(1)] + red;
    assert pre == [Sgr(1), Sgr(31), x, NEWLINE, x] && pre[1..] == red && red[1..] == t;
    RedOverLines(x);
    RestyleFirst(red, Some(1));
    RestyleFirst(pre, None);
    StylesSurviveLineBreaks(pre);
    BoldStaysSet(pre);
  }

  lemma RedOverLines(x: Unit)
    requires x == Glyph('x', 1)
    ensures Restyle([x, NEWLINE, x], Some(31)) == [x, Sgr(39), NEWLINE, Sgr(31), x]
  {
    hide Show, Restyle;
    var t := [x, NEWLINE, x];
    assert t[1..] == [NEWLINE, x] && [NEWLINE, x][1..] == [x] && [x][1..] == [];
    RestyleFirst([x], Some(31));
    RestyleFirst([NEWLINE, x], Some(31));
    RestyleFirst(t, Some(31));
    NothingShown(Some(31), Plain, true);
  }

  lemma BoldStaysSet(pre: Text)
    requires |pre| == 5 && pre[0] == Sgr(1) && pre[1] == Sgr(31) && pre[2] == pre[4] == Glyph('x', 1)
    requires pre[3] == NEWLINE
    ensures !SetForEachLine(pre)
  {
    assert StillSet(pre, 0, 4) && pre[1].Sgr?;
  }
}
