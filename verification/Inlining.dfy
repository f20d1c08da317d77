/**
 Inlining the constants that are used once does not change what a generated function says: expanding
 the declared constants in the rendered body gives the text that expanding all of them in the raw body
 gives.
 */
module Inlining {
  import opened Prelude
  import opened CodeGen

  // ---------------------------------------------------------------- what a body says

  /** The first constant whose name the text starts with. */
  function NameAtStart(consts: seq<Const>, s: string): (c: Option<Const>)
    ensures c.Some? ==> c.value.name <= s
  {
    if consts == [] then None
    else if consts[0].name <= s then Some(consts[0])
    else NameAtStart(consts[1..], s)
  }

  /** The text with every name replaced by its expression, from left to right. */
  function Expand(s: string, consts: seq<Const>): string
    decreases |s|
  {
    if s == "" then ""
    else
      var c := NameAtStart(consts, s);
      if c.Some? && c.value.name != "" then c.value.expr + Expand(s[|c.value.name|..], consts)
      else [s[0]] + Expand(s[1..], consts)
  }

  // ---------------------------------------------------------------- texts that cannot overlap

  /** Placing m so that it starts d characters after the start of n, the two agree wherever they overlap. */
  predicate Agree(n: string, m: string, d: int) {
    forall i | 0 <= i < |n| && d <= i < d + |m| :: n[i] == m[i - d]
  }

  predicate Apart(n: string, m: string) {
    forall d | -|m| < d < |n| :: !Agree(n, m, d)
  }

  predicate ApartFromItself(n: string) {
    forall d | -|n| < d < |n| && Agree(n, n, d) :: d == 0
  }

  /** Names are distinct, and no occurrence of one can overlap another occurrence or an expression. */
  predicate Separated(consts: seq<Const>) {
    && (forall i | 0 <= i < |consts| ::
          consts[i].name != "" && consts[i].expr != "" && '$' !in consts[i].expr && ApartFromItself(consts[i].name))
    && (forall i, j | 0 <= i < |consts| && 0 <= j < |consts| && i != j :: Apart(consts[i].name, consts[j].name))
    && (forall i, j | 0 <= i < |consts| && 0 <= j < |consts| :: Apart(consts[i].name, consts[j].expr))
  }

  lemma OverlapAgrees(s: string, n: string, p: nat, m: string, q: nat)
    requires OccursAt(s, n, p) && OccursAt(s, m, q)
    ensures Agree(n, m, q - p)
  {
    forall i | 0 <= i < |n| && q - p <= i < q - p + |m| ensures n[i] == m[i - (q - p)] {
      assert n[i] == s[p..p + |n|][i] == s[p + i];
      assert m[i - (q - p)] == s[q..q + |m|][i - (q - p)] == s[p + i];
    }
  }

  /** Every occurrence of a text apart from mid lies on one side of it. */
  lemma OccursAside(a: string, mid: string, b: string, n: string, p: nat)
    requires OccursAt(a + mid + b, n, p) && (Apart(n, mid) || (n == mid && ApartFromItself(n) && p != |a|))
    requires n != "" && mid != ""
    ensures p + |n| <= |a| || |a| + |mid| <= p
    ensures p + |n| <= |a| ==> OccursAt(a, n, p)
    ensures |a| + |mid| <= p ==> OccursAt(b, n, p - |a| - |mid|)
  {
    var s := a + mid + b;
    assert s[|a|..|a| + |mid|] == mid;
    OverlapAgrees(s, n, p, mid, |a|);
    if p + |n| <= |a| {
      assert s[p..p + |n|] == a[p..p + |n|];
    } else if |a| + |mid| <= p {
      assert s[p..p + |n|] == b[p - |a| - |mid|..p - |a| - |mid| + |n|];
    }
  }

  lemma OccursShifted(s: string, k: nat, n: string, p: nat)
    requires k <= |s| && OccursAt(s[k..], n, p)
    ensures OccursAt(s, n, p + k)
  {
    assert s[k..][p..p + |n|] == s[p + k..p + k + |n|];
  }

  lemma OccursInside(a: string, mid: string, b: string, n: string, p: nat)
    ensures OccursAt(a, n, p) ==> OccursAt(a + mid + b, n, p)
    ensures OccursAt(b, n, p) ==> OccursAt(a + mid + b, n, |a| + |mid| + p)
  {
    var s := a + mid + b;
    if OccursAt(a, n, p) {
      assert s[p..p + |n|] == a[p..p + |n|];
    }
    if OccursAt(b, n, p) {
      assert s[|a| + |mid| + p..|a| + |mid| + p + |n|] == b[p..p + |n|];
    }
  }

  predicate Twice(s: string, n: string) {
    exists p, q | 0 <= p < q <= |s| :: OccursAt(s, n, p) && OccursAt(s, n, q)
  }

  lemma OccursTwiceIsTwice(s: string, n: string)
    ensures OccursTwice(s, n) <==> Twice(s, n)
  {
    var first := IndexOf(s, n, 0);
    if OccursTwice(s, n) {
      var second := IndexOf(s, n, first + 1);
      assert OccursAt(s, n, first) && OccursAt(s, n, second);
    }
    if Twice(s, n) {
      var p, q :| 0 <= p < q <= |s| && OccursAt(s, n, p) && OccursAt(s, n, q);
      assert first != -1 && first <= p;
    }
  }

  /** Replacing mid by another text that n is apart from keeps how often n occurs. */
  lemma ReplacingKeepsTwice(a: string, mid: string, mid': string, b: string, n: string)
    requires n != "" && mid != "" && mid' != "" && Apart(n, mid) && Apart(n, mid')
    ensures Twice(a + mid + b, n) ==> Twice(a + mid' + b, n)
    ensures Contains(a + mid + b, n) ==> Contains(a + mid' + b, n)
  {
    var s, s' := a + mid + b, a + mid' + b;
    if Twice(s, n) {
      var p, q :| 0 <= p < q <= |s| && OccursAt(s, n, p) && OccursAt(s, n, q);
      var p', q' := Moved(a, mid, mid', b, n, p), Moved(a, mid, mid', b, n, q);
      assert p' < q' && OccursAt(s', n, p') && OccursAt(s', n, q');
    }
    if Contains(s, n) {
      var p: nat :| p <= |s| && OccursAt(s, n, p);
      assert OccursAt(s', n, Moved(a, mid, mid', b, n, p));
    }
  }

  ghost function Moved(a: string, mid: string, mid': string, b: string, n: string, p: nat): (p': nat)
    requires n != "" && mid != "" && mid' != "" && Apart(n, mid) && OccursAt(a + mid + b, n, p)
    ensures OccursAt(a + mid' + b, n, p')
    ensures p' == (if p + |n| <= |a| then p else p - |mid| + |mid'|)
    ensures p + |n| <= |a| || |a| + |mid| <= p
  {
    OccursAside(a, mid, b, n, p);
    if p + |n| <= |a| then
      OccursInside(a, mid', b, n, p);
      p
    else
      OccursInside(a, mid', b, n, p - |a| - |mid|);
      p - |mid| + |mid'|
  }

  // ---------------------------------------------------------------- expanding piece by piece

  ghost predicate NoStraddle(x: string, y: string, consts: seq<Const>) {
    forall i, p: nat | 0 <= i < |consts| && p < |x| && OccursAt(x + y, consts[i].name, p) :: p + |consts[i].name| <= |x|
  }

  lemma {:induction false} NameAtStartIs(consts: seq<Const>, s: string)
    ensures var c := NameAtStart(consts, s);
            && (c.Some? ==> c.value in consts && c.value.name <= s)
            && (c.None? ==> forall i | 0 <= i < |consts| :: !(consts[i].name <= s))
  {
    if consts != [] && !(consts[0].name <= s) {
      NameAtStartIs(consts[1..], s);
    }
  }

  lemma {:induction false} NameAtStartDepends(consts: seq<Const>, s: string, t: string)
    requires forall i | 0 <= i < |consts| :: consts[i].name <= s <==> consts[i].name <= t
    ensures NameAtStart(consts, s) == NameAtStart(consts, t)
  {
    if consts != [] {
      assert consts[0].name <= s <==> consts[0].name <= t;
      if !(consts[0].name <= s) {
        NameAtStartDepends(consts[1..], s, t);
      }
    }
  }

  lemma SameNameAtStart(x: string, y: string, consts: seq<Const>)
    requires x != "" && NoStraddle(x, y, consts)
    ensures NameAtStart(consts, x + y) == NameAtStart(consts, x)
  {
    hide NameAtStart;
    forall i | 0 <= i < |consts| ensures consts[i].name <= x + y <==> consts[i].name <= x {
      if consts[i].name <= x + y {
        assert OccursAt(x + y, consts[i].name, 0);
      }
    }
    NameAtStartDepends(consts, x + y, x);
  }

  lemma NoStraddleTail(x: string, y: string, consts: seq<Const>, k: nat)
    requires k <= |x| && NoStraddle(x, y, consts)
    ensures (x + y)[k..] == x[k..] + y && NoStraddle(x[k..], y, consts)
  {
    assert (x + y)[k..] == x[k..] + y;
    hide OccursAt;
    forall i, p: nat | 0 <= i < |consts| && p < |x[k..]| && OccursAt(x[k..] + y, consts[i].name, p)
      ensures p + |consts[i].name| <= |x[k..]|
    {
      OccursShifted(x + y, k, consts[i].name, p);
    }
  }

  lemma ExpandStep(s: string, consts: seq<Const>)
    requires s != ""
    ensures var c := NameAtStart(consts, s);
            Expand(s, consts)
            == if c.Some? && c.value.name != "" then c.value.expr + Expand(s[|c.value.name|..], consts)
               else [s[0]] + Expand(s[1..], consts)
  {
  }

  /** Expanding x and expanding x + y start with the same step. */
  lemma ExpandTogether(x: string, y: string, consts: seq<Const>) returns (first: string, k: nat)
    requires x != "" && NoStraddle(x, y, consts)
    ensures 0 < k <= |x| && NoStraddle(x[k..], y, consts)
    ensures Expand(x, consts) == first + Expand(x[k..], consts)
    ensures Expand(x + y, consts) == first + Expand(x[k..] + y, consts)
  {
    hide NoStraddle, NameAtStart, Expand;
    SameNameAtStart(x, y, consts);
    var c := NameAtStart(consts, x);
    if c.Some? && c.value.name != "" {
      first, k := c.value.expr, |c.value.name|;
    } else {
      first, k := [x[0]], 1;
    }
    NoStraddleTail(x, y, consts, k);
    ExpandStep(x, consts);
    ExpandStep(x + y, consts);
  }

  lemma {:induction false} ExpandConcat(x: string, y: string, consts: seq<Const>)
    requires NoStraddle(x, y, consts)
    ensures Expand(x + y, consts) == Expand(x, consts) + Expand(y, consts)
    decreases |x|
  {
    if x == "" {
      assert x + y == y;
    } else {
      hide NoStraddle, Expand;
      var first, k := ExpandTogether(x, y, consts);
      ExpandConcat(x[k..], y, consts);
    }
  }

  /** A text without any of the names expands to itself. */
  lemma {:induction false} ExpandNothing(s: string, consts: seq<Const>)
    requires forall i | 0 <= i < |consts| :: !Contains(s, consts[i].name)
    ensures Expand(s, consts) == s
  {
    if s != "" {
      NameAtStartIs(consts, s);
      forall i | 0 <= i < |consts|
        ensures !(consts[i].name <= s) && !Contains(s[1..], consts[i].name)
      {
        NotInTail(s, consts[i].name);
      }
      ExpandNothing(s[1..], consts);
    }
  }

  lemma NotInTail(s: string, n: string)
    requires s != "" && !Contains(s, n)
    ensures !(n <= s) && !Contains(s[1..], n)
  {
    if n <= s {
      assert OccursAt(s, n, 0);
    }
    if Contains(s[1..], n) {
      var p: nat :| p <= |s[1..]| && OccursAt(s[1..], n, p);
      OccursShifted(s, 1, n, p);
    }
  }

  /** Names that do not occur can be left out of the expansion. */
  lemma {:induction false} ExpandFewer(s: string, consts: seq<Const>, fewer: seq<Const>)
    requires forall t: string ::
               (forall n | Contains(t, n) :: Contains(s, n)) ==> NameAtStart(consts, t) == NameAtStart(fewer, t)
    ensures Expand(s, consts) == Expand(s, fewer)
    decreases |s|
  {
    if s != "" {
      assert NameAtStart(consts, s) == NameAtStart(fewer, s);
      NameAtStartIs(consts, s);
      var c := NameAtStart(consts, s);
      var k := if c.Some? && c.value.name != "" then |c.value.name| else 1;
      forall t: string | forall n | Contains(t, n) :: Contains(s[k..], n)
        ensures NameAtStart(consts, t) == NameAtStart(fewer, t)
      {
        forall n | Contains(t, n) ensures Contains(s, n) {
          var p: nat :| p <= |s[k..]| && OccursAt(s[k..], n, p);
          OccursShifted(s, k, n, p);
        }
      }
      ExpandFewer(s[k..], consts, fewer);
    }
  }

  // ---------------------------------------------------------------- one constant

  lemma {:induction false} SubstitutionWithoutDollar(e: string, before: string, matched: string, after: string)
    requires '$' !in e
    ensures Substitution(e, before, matched, after) == e
  {
    if e != "" {
      assert e[0] in e && forall c | c in e[1..] :: c in e;
      SubstitutionWithoutDollar(e[1..], before, matched, after);
    }
  }

  /** A name that occurs once: the body around it, and what replacing it gives. */
  lemma ReplacedOnce(s: string, c: Const) returns (a: string, b: string)
    requires '$' !in c.expr && IndexOf(s, c.name, 0) != -1
    ensures s == a + c.name + b && |a| == IndexOf(s, c.name, 0)
    ensures ReplaceFirst(s, c.name, c.expr) == a + c.expr + b
  {
    var p := IndexOf(s, c.name, 0);
    a, b := s[..p], s[p + |c.name|..];
    assert s[p..p + |c.name|] == c.name;
    SubstitutionWithoutDollar(c.expr, a, c.name, b);
  }

  lemma NoStraddleAround(a: string, mid: string, b: string, consts: seq<Const>, k: int)
    requires mid != "" && -1 <= k < |consts| && (k >= 0 ==> mid == consts[k].name && ApartFromItself(mid))
    requires forall i | 0 <= i < |consts| :: consts[i].name != "" && (i != k ==> Apart(consts[i].name, mid))
    ensures NoStraddle(a, mid + b, consts) && NoStraddle(mid, b, consts)
  {
    assert a + (mid + b) == a + mid + b;
    forall i, p: nat | 0 <= i < |consts| && p < |a| && OccursAt(a + (mid + b), consts[i].name, p)
      ensures p + |consts[i].name| <= |a|
    {
      OccursAside(a, mid, b, consts[i].name, p);
    }
    forall i, p: nat | 0 <= i < |consts| && p < |mid| && OccursAt(mid + b, consts[i].name, p)
      ensures p + |consts[i].name| <= |mid|
    {
      assert "" + mid + b == mid + b;
      if i != k || p != 0 {
        OccursAside("", mid, b, consts[i].name, p);
      }
    }
  }

  lemma ExpandAround(a: string, mid: string, b: string, consts: seq<Const>)
    requires NoStraddle(a, mid + b, consts) && NoStraddle(mid, b, consts)
    ensures Expand(a + mid + b, consts) == Expand(a, consts) + Expand(mid, consts) + Expand(b, consts)
  {
    hide Expand, NoStraddle;
    ExpandConcat(a, mid + b, consts);
    ExpandConcat(mid, b, consts);
    assert a + (mid + b) == a + mid + b;
    assert Expand(a, consts) + (Expand(mid, consts) + Expand(b, consts))
        == Expand(a, consts) + Expand(mid, consts) + Expand(b, consts);
  }

  lemma ExpandName(consts: seq<Const>, k: nat)
    requires Separated(consts) && k < |consts|
    ensures Expand(consts[k].name, consts) == consts[k].expr
  {
    var n := consts[k].name;
    NameAtStartIs(consts, n);
    var c := NameAtStart(consts, n).value;
    var i :| 0 <= i < |consts| && consts[i] == c;
    if i != k {
      OverlapAgrees(n, consts[i].name, 0, n, 0);
    }
    assert n[|n|..] == "" && c.expr + "" == c.expr;
  }

  lemma ExpandExpression(consts: seq<Const>, k: nat)
    requires Separated(consts) && k < |consts|
    ensures Expand(consts[k].expr, consts) == consts[k].expr
  {
    var e := consts[k].expr;
    forall i | 0 <= i < |consts| ensures !Contains(e, consts[i].name) {
      if Contains(e, consts[i].name) {
        var p: nat :| p <= |e| && OccursAt(e, consts[i].name, p);
        OverlapAgrees(e, consts[i].name, p, e, 0);
      }
    }
    ExpandNothing(e, consts);
  }

  /** What handling one constant does to the body, when it is replaced. */
  lemma ReplacedLaws(body: string, consts: seq<Const>, k: nat)
    requires Separated(consts) && k < |consts| && !OccursTwice(body, consts[k].name)
    ensures var body' := ReplaceFirst(body, consts[k].name, consts[k].expr);
            && Expand(body', consts) == Expand(body, consts)
            && !Contains(body', consts[k].name)
            && forall j | 0 <= j < |consts| && j != k ::
                 && (Twice(body', consts[j].name) <==> Twice(body, consts[j].name))
                 && (Contains(body', consts[j].name) ==> Contains(body, consts[j].name))
  {
    hide IndexOf, Expand, ReplaceFirst, Agree, Twice;
    var c := consts[k];
    if IndexOf(body, c.name, 0) == -1 {
      NotReplaced(body, c);
    } else {
      var a, b := ReplacedOnce(body, c);
      NoStraddleAround(a, c.name, b, consts, k);
      NoStraddleAround(a, c.expr, b, consts, -1);
      ExpandAround(a, c.name, b, consts);
      ExpandAround(a, c.expr, b, consts);
      ExpandName(consts, k);
      ExpandExpression(consts, k);
      NameIsGone(a, b, c);
      forall j | 0 <= j < |consts| && j != k
        ensures Twice(a + c.expr + b, consts[j].name) <==> Twice(a + c.name + b, consts[j].name)
        ensures Contains(a + c.expr + b, consts[j].name) ==> Contains(a + c.name + b, consts[j].name)
      {
        ReplacingKeepsTwice(a, c.name, c.expr, b, consts[j].name);
        ReplacingKeepsTwice(a, c.expr, c.name, b, consts[j].name);
      }
    }
  }

  lemma NotReplaced(body: string, c: Const)
    requires IndexOf(body, c.name, 0) == -1
    ensures ReplaceFirst(body, c.name, c.expr) == body && !Contains(body, c.name)
  {
  }

  lemma NameIsGone(a: string, b: string, c: Const)
    requires c.name != "" && c.expr != "" && Apart(c.name, c.expr)
    requires !OccursTwice(a + c.name + b, c.name) && IndexOf(a + c.name + b, c.name, 0) == |a|
    ensures !Contains(a + c.expr + b, c.name)
  {
    hide Apart, Agree, OccursAt;
    if Contains(a + c.expr + b, c.name) {
      var p: nat :| p <= |a + c.expr + b| && OccursAt(a + c.expr + b, c.name, p);
      OccursAside(a, c.expr, b, c.name, p);
      if p + |c.name| <= |a| {
        OccursInside(a, c.name, b, c.name, p);
      } else {
        OccursInside(a, c.name, b, c.name, p - |a| - |c.expr|);
      }
    }
  }

  // ---------------------------------------------------------------- all constants

  /** The constants whose names occur twice or more, in order. */
  function Repeated(consts: seq<Const>, raw: string): seq<Const> {
    if consts == [] then []
    else
      var n := |consts| - 1;
      Repeated(consts[..n], raw) + if Twice(raw, consts[n].name) then [consts[n]] else []
  }

  lemma {:induction false} InlineLaws(consts: seq<Const>, raw: string, k: nat)
    requires Separated(consts) && k <= |consts|
    ensures var r := Inline(consts[..k], raw);
            && r.declared == Repeated(consts[..k], raw)
            && Expand(r.body, consts) == Expand(raw, consts)
            && (forall j | k <= j < |consts| :: Twice(r.body, consts[j].name) <==> Twice(raw, consts[j].name))
            && forall j | 0 <= j < k && !Twice(raw, consts[j].name) :: !Contains(r.body, consts[j].name)
  {
    hide Expand, Separated, Twice, Contains, OccursTwice, ReplaceFirst;
    if k > 0 {
      InlineLaws(consts, raw, k - 1);
      assert consts[..k][..k - 1] == consts[..k - 1];
      var r, c := Inline(consts[..k - 1], raw), consts[k - 1];
      OccursTwiceIsTwice(r.body, c.name);
      if !OccursTwice(r.body, c.name) {
        ReplacedLaws(r.body, consts, k - 1);
      }
    }
  }

  lemma NameAtStartNewest(consts: seq<Const>, c: Const, t: string)
    ensures NameAtStart(consts + [c], t)
         == if NameAtStart(consts, t).Some? then NameAtStart(consts, t) else if c.name <= t then Some(c) else None
  {
    if consts != [] && !(consts[0].name <= t) {
      assert (consts + [c])[1..] == consts[1..] + [c];
      NameAtStartNewest(consts[1..], c, t);
    }
  }

  lemma {:induction false} RepeatedNameAtStart(consts: seq<Const>, raw: string, t: string)
    requires forall i | 0 <= i < |consts| && consts[i].name <= t :: Twice(raw, consts[i].name)
    ensures NameAtStart(consts, t) == NameAtStart(Repeated(consts, raw), t)
  {
    hide NameAtStart, Twice;
    if consts == [] {
      assert Repeated(consts, raw) == [];
    } else {
      var n := |consts| - 1;
      assert consts == consts[..n] + [consts[n]];
      RepeatedNameAtStart(consts[..n], raw, t);
      NameAtStartNewest(consts[..n], consts[n], t);
      NameAtStartNewest(Repeated(consts[..n], raw), consts[n], t);
      assert Repeated(consts[..n], raw) + [] == Repeated(consts[..n], raw);
    }
  }

  /**
   For constants whose names overlap neither each other nor an expression: a constant is declared
   exactly when its name occurs twice or more in the raw body, and expanding the declared constants in
   the rendered body gives the same text as expanding every constant in the raw body.
   */
  lemma InliningKeepsMeaning(consts: seq<Const>, raw: string)
    requires Separated(consts)
    ensures var r := Inline(consts, raw);
            && r.declared == Repeated(consts, raw)
            && Expand(r.body, r.declared) == Expand(raw, consts)
  {
    hide Expand, NameAtStart, Separated, Twice;
    var r := Inline(consts, raw);
    assert consts[..|consts|] == consts;
    InlineLaws(consts, raw, |consts|);
    forall t: string | forall n | Contains(t, n) :: Contains(r.body, n)
      ensures NameAtStart(consts, t) == NameAtStart(r.declared, t)
    {
      forall i | 0 <= i < |consts| && consts[i].name <= t ensures Twice(raw, consts[i].name) {
        assert OccursAt(t, consts[i].name, 0);
        assert Contains(t, consts[i].name);
      }
      RepeatedNameAtStart(consts, raw, t);
    }
    ExpandFewer(r.body, consts, r.declared);
  }
}
