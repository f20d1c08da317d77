/**
 What the rendered texts say when they are read again: the constants that a function declares and its body, and
 the imports of a file.
 */
module RenderedCode {
  import opened Prelude
  import opened CodeGen
  import opened Inlining

  // ---------------------------------------------------------------- reading text

  /** The text before the first such character, or all of it. */
  function UpTo(s: string, c: char): string {
    if s == "" || s[0] == c then "" else [s[0]] + UpTo(s[1..], c)
  }

  /** The text after the first such character. */
  function Past(s: string, c: char): string {
    if s == "" then "" else if s[0] == c then s[1..] else Past(s[1..], c)
  }

  lemma {:induction false} CutAt(a: string, c: char, b: string)
    requires c !in a
    ensures UpTo(a + [c] + b, c) == a && Past(a + [c] + b, c) == b
  {
    var s := a + [c] + b;
    if a == "" {
      assert s == [c] + b;
    } else {
      assert s[1..] == a[1..] + [c] + b;
      CutAt(a[1..], c, b);
    }
  }

  /** The line with the given number. */
  function LineAt(text: string, k: nat): string
    decreases k
  {
    if k == 0 then UpTo(text, '\n') else LineAt(Past(text, '\n'), k - 1)
  }

  /** What is left after the given number of lines. */
  function AfterLines(text: string, k: nat): string
    decreases k
  {
    if k == 0 then text else AfterLines(Past(text, '\n'), k - 1)
  }

  lemma {:induction false} OneLineMore(a: string, b: string, k: nat)
    requires '\n' !in a
    ensures LineAt(a + "\n" + b, 0) == a && LineAt(a + "\n" + b, k + 1) == LineAt(b, k)
    ensures AfterLines(a + "\n" + b, k + 1) == AfterLines(b, k)
  {
    CutAt(a, '\n', b);
  }

  // ---------------------------------------------------------------- the text of a function

  /** A declaration is read word by word: the name stands up to the next space, the expression up to the semicolon. */
  function ReadConst(line: string): Const {
    var afterConst := Past(line, ' ');
    var afterName := Past(afterConst, ' ');
    var expr := Past(afterName, ' ');
    Const(UpTo(afterConst, ' '), if expr == "" then "" else expr[..|expr| - 1])
  }

  function ReadConsts(text: string, n: nat): seq<Const>
    decreases n
  {
    if n == 0 then [] else [ReadConst(UpTo(text, '\n'))] + ReadConsts(Past(text, '\n'), n - 1)
  }

  /** A function is a line with its header, lines with declarations, and its body before the closing brace. */
  function ReadBody(text: string, n: nat): string {
    var rest := AfterLines(text, n + 1);
    if |rest| < 2 then "" else rest[..|rest| - 2]
  }

  /** Each constant can be told from the text around it. */
  predicate Readable(consts: seq<Const>) {
    forall c | c in consts :: ' ' !in c.name && '\n' !in c.name && '\n' !in c.expr
  }

  lemma {:induction false} LinesFirst(line: string, lines: seq<string>)
    ensures Lines([line] + lines) == line + "\n" + Lines(lines)
  {
    var all := [line] + lines;
    if lines == [] {
      assert all[..0] == [] && Lines(all[..0]) == "";
      assert line + "\n" + Lines(lines) == line + "\n";
    } else {
      var n := |lines| - 1;
      assert all[..n + 1] == [line] + lines[..n] && all[n + 1] == lines[n];
      LinesFirst(line, lines[..n]);
    }
  }

  /** The constants with a declaration line each, and then the body. */
  lemma {:induction false} DeclaredLines(consts: seq<Const>, body: string, k: nat)
    requires Readable(consts)
    ensures var text := Lines(Declarations(consts) + [body]) + "}";
            && (k < |consts| ==> LineAt(text, k) == "const " + consts[k].name + " = " + consts[k].expr + ";")
            && ReadConsts(text, |consts|) == consts
            && AfterLines(text, |consts|) == body + "\n}"
  {
    hide Lines, Readable, UpTo, Past, ReadConst;
    var lines := Declarations(consts) + [body];
    if consts == [] {
      assert lines == [body] + [];
      LinesFirst(body, []);
      assert Lines([]) == "" by { NoLines(); }
    } else {
      var c, rest := consts[0], consts[1..];
      var line, later := "const " + c.name + " = " + c.expr + ";", Lines(Declarations(rest) + [body]) + "}";
      assert lines == [line] + (Declarations(rest) + [body]);
      LinesFirst(line, Declarations(rest) + [body]);
      var text := Lines(lines) + "}";
      assert text == line + "\n" + later;
      assert Readable(rest) && '\n' !in line && ReadConst(line) == c by {
        ConstIsRead(consts);
      }
      DeclaredLines(rest, body, if k == 0 then 0 else k - 1);
      OneLineMore(line, later, if k == 0 then 0 else k - 1);
      CutAt(line, '\n', later);
      assert AfterLines(text, |consts|) == AfterLines(later, |rest|);
    }
  }

  lemma NoLines()
    ensures Lines([]) == ""
  {
  }

  lemma ConstIsRead(consts: seq<Const>)
    requires consts != [] && Readable(consts)
    ensures Readable(consts[1..])
    ensures var c := consts[0]; var line := "const " + c.name + " = " + c.expr + ";";
            '\n' !in line && ReadConst(line) == c
  {
    var c := consts[0];
    assert c in consts;
    var line := "const " + c.name + " = " + c.expr + ";";
    assert line == "const" + [' '] + (c.name + " = " + c.expr + ";");
    CutAt("const", ' ', c.name + " = " + c.expr + ";");
    assert c.name + " = " + c.expr + ";" == c.name + [' '] + ("= " + c.expr + ";");
    CutAt(c.name, ' ', "= " + c.expr + ";");
    assert "= " + c.expr + ";" == "=" + [' '] + (c.expr + ";");
    CutAt("=", ' ', c.expr + ";");
    assert (c.expr + ";")[..|c.expr|] == c.expr;
  }

  /**
   The text of a function, line by line: its header, a declaration of each constant whose name occurs twice or more
   in the raw body, in order, then the body and the closing brace.  Expanding the constants that are read
   from it in the body that is read from it gives what expanding all of them in the raw body gives.
   */
  lemma RenderedSaysTheSame(header: string, parts: seq<string>, consts: seq<Const>)
    requires Separated(consts) && Readable(consts) && '\n' !in header
    ensures var text, raw := RenderFunction(header, parts, consts), Concat(parts);
            var declared := Repeated(consts, raw);
            var n := |declared|;
            && LineAt(text, 0) == header
            && (forall k | 0 <= k < n ::
                  LineAt(text, k + 1) == "const " + declared[k].name + " = " + declared[k].expr + ";")
            && ReadConsts(Past(text, '\n'), n) == declared
            && AfterLines(text, n + 1) == ReadBody(text, n) + "\n}"
            && Expand(ReadBody(text, n), declared) == Expand(raw, consts)
  {
    hide Separated, Expand, Repeated, Readable, Lines, Declarations, Inline;
    var raw := Concat(parts);
    var r := Inline(consts, raw);
    InliningKeepsMeaning(consts, raw);
    RepeatedIsReadable(consts, raw);
    var text, later := RenderFunction(header, parts, consts), Lines(Declarations(r.declared) + [r.body]) + "}";
    assert [header] + Declarations(r.declared) + [r.body] == [header] + (Declarations(r.declared) + [r.body]);
    LinesFirst(header, Declarations(r.declared) + [r.body]);
    assert text == header + "\n" + later;
    CutAt(header, '\n', later);
    OneLineMore(header, later, |r.declared|);
    DeclaredLines(r.declared, r.body, 0);
    forall k | 0 <= k < |r.declared|
      ensures LineAt(text, k + 1) == "const " + r.declared[k].name + " = " + r.declared[k].expr + ";"
    {
      OneLineMore(header, later, k);
      DeclaredLines(r.declared, r.body, k);
    }
    assert (r.body + "\n}")[..|r.body|] == r.body;
  }

  lemma {:induction false} RepeatedIsReadable(consts: seq<Const>, raw: string)
    requires Readable(consts)
    ensures Readable(Repeated(consts, raw))
  {
    if consts != [] {
      var n := |consts| - 1;
      assert consts[n] in consts && forall c | c in consts[..n] :: c in consts;
      RepeatedIsReadable(consts[..n], raw);
    }
  }

  // ---------------------------------------------------------------- the imports of a file

  /** The string that a literal stands for, read up to its closing quote. */
  function ReadLiteral(s: string): string {
    if s == "" || s[0] == '"' then ""
    else if s[0] == '\\' && |s| > 1 then [if s[1] == 'n' then '\n' else s[1]] + ReadLiteral(s[2..])
    else [s[0]] + ReadLiteral(s[1..])
  }

  function ReadImport(line: string): Import {
    var afterImport := Past(line, ' ');
    Import(ReadLiteral(Past(line, '"')), UpTo(afterImport, ' '))
  }

  lemma {:induction false} EscapedIsRead(s: string, later: string)
    ensures ReadLiteral(JsonEscaped(s) + "\"" + later) == s
    ensures '\n' !in JsonEscaped(s)
  {
    var text := JsonEscaped(s) + "\"" + later;
    if s == "" {
      assert text == "\"" + later;
    } else {
      var rest := JsonEscaped(s[1..]) + "\"" + later;
      EscapedIsRead(s[1..], later);
      if s[0] == '"' || s[0] == '\\' {
        assert text == ['\\', s[0]] + rest && text[2..] == rest;
      } else if s[0] == '\n' {
        assert text == "\\n" + rest && text[2..] == rest;
      } else {
        assert text == [s[0]] + rest && text[1..] == rest;
      }
      assert s == [s[0]] + s[1..];
    }
  }

  /** An import line says which file is imported under which name, whatever characters the file name has. */
  lemma ImportIsRead(i: Import)
    requires ' ' !in i.name && '"' !in i.name && '\n' !in i.name
    ensures ReadImport(ImportLine(i)) == i && '\n' !in ImportLine(i)
    ensures "import " + i.name + " from \"" <= ImportLine(i)
  {
    hide JsonEscaped, ReadLiteral, UpTo, Past;
    var line, literal := ImportLine(i), JsonEscaped(i.file) + "\"" + ";";
    var afterName := "from \"" + literal;
    EscapedIsRead(i.file, ";");
    assert JsonEscaped(i.file) + "\";" == literal;
    assert i.name + [' '] + afterName == i.name + " from \"" + literal;
    assert line == "import" + [' '] + (i.name + [' '] + afterName);
    CutAt("import", ' ', i.name + [' '] + afterName);
    CutAt(i.name, ' ', afterName);
    QuoteInLine(line, i.name, literal);
  }

  lemma QuoteInLine(line: string, name: string, literal: string)
    requires line == "import " + name + " from \"" + literal && '"' !in name
    ensures Past(line, '"') == literal
  {
    hide Past;
    var before := "import " + name + " from ";
    assert line == before + ['"'] + literal;
    CutAt(before, '"', literal);
  }

  lemma {:induction false} ImportLinesFirst(i: Import, imports: seq<Import>)
    ensures ImportLines([i] + imports)
            == if imports == [] then ImportLine(i) else ImportLine(i) + "\n" + ImportLines(imports)
  {
    var all := [i] + imports;
    if imports != [] {
      var n := |imports| - 1;
      assert all[..n + 1] == [i] + imports[..n] && all[n + 1] == imports[n];
      ImportLinesFirst(i, imports[..n]);
    }
  }

  /** The imports of a file stand on the lines after its header, in order. */
  lemma {:induction false} ImportsAreRead(imports: seq<Import>, rest: string, k: nat)
    requires k < |imports| && forall i | i in imports :: ' ' !in i.name && '"' !in i.name && '\n' !in i.name
    ensures ReadImport(LineAt(ImportLines(imports) + "\n" + rest, k)) == imports[k]
  {
    hide ImportLines, ImportLine;
    var i, later := imports[0], imports[1..];
    assert imports == [i] + later && i in imports && forall j | j in later :: j in imports;
    ImportLinesFirst(i, later);
    ImportIsRead(i);
    var line, below := ImportLine(i), if later == [] then rest else ImportLines(later) + "\n" + rest;
    assert ImportLines(imports) + "\n" + rest == line + "\n" + below;
    if k == 0 {
      CutAt(line, '\n', below);
    } else {
      OneLineMore(line, below, k - 1);
      ImportsAreRead(later, rest, k - 1);
    }
  }

  lemma {:induction false} ImportsEnd(imports: seq<Import>, rest: string)
    requires imports != [] && forall i | i in imports :: ' ' !in i.name && '"' !in i.name && '\n' !in i.name
    ensures AfterLines(ImportLines(imports) + "\n" + rest, |imports|) == rest
  {
    hide ImportLines, ImportLine;
    var i, later := imports[0], imports[1..];
    assert imports == [i] + later && i in imports && forall j | j in later :: j in imports;
    ImportLinesFirst(i, later);
    ImportIsRead(i);
    var line, below := ImportLine(i), if later == [] then rest else ImportLines(later) + "\n" + rest;
    assert ImportLines(imports) + "\n" + rest == line + "\n" + below;
    OneLineMore(line, below, |later|);
    if later != [] {
      ImportsEnd(later, rest);
    }
  }

  /** A file is its header, a line for each import or an empty one when there is none, and its parts. */
  lemma FileIsRead(file: CodeFile)
    requires '\n' !in file.header
    requires forall i | i in file.imports :: ' ' !in i.name && '"' !in i.name && '\n' !in i.name
    ensures var text, n := file.Text(), |file.imports|;
            && LineAt(text, 0) == file.header
            && (forall k | 0 <= k < n :: ReadImport(LineAt(text, k + 1)) == file.imports[k])
            && AfterLines(text, if n == 0 then 2 else n + 1) == PartsText(file.parts)
  {
    hide ImportLines, PartsText, ReadImport;
    var rest, n := PartsText(file.parts), |file.imports|;
    var later := ImportLines(file.imports) + "\n" + rest;
    assert file.Text() == file.header + "\n" + later;
    OneLineMore(file.header, later, if n == 0 then 1 else n);
    forall k | 0 <= k < n ensures ReadImport(LineAt(file.Text(), k + 1)) == file.imports[k] {
      OneLineMore(file.header, later, k);
      ImportsAreRead(file.imports, rest, k);
    }
    if n == 0 {
      NoImports();
      assert later == "" + "\n" + rest;
      OneLineMore("", rest, 0);
    } else {
      ImportsEnd(file.imports, rest);
    }
  }

  lemma NoImports()
    ensures ImportLines([]) == ""
  {
  }

  // ---------------------------------------------------------------- recording a constant

  /** A name that is there keeps its place and gets the new expression; a new name comes last. */
  lemma {:induction false} ConstIsRecorded(consts: seq<Const>, name: string, expr: string) returns (k: nat)
    ensures k <= |consts| && forall i | 0 <= i < k :: consts[i].name != name
    ensures k < |consts| ==> consts[k].name == name && SetConst(consts, name, expr) == consts[k := Const(name, expr)]
    ensures k == |consts| ==> SetConst(consts, name, expr) == consts + [Const(name, expr)]
  {
    if consts == [] || consts[0].name == name {
      k := 0;
    } else {
      k := ConstIsRecorded(consts[1..], name, expr);
      k := k + 1;
    }
  }

  // ---------------------------------------------------------------- replacing

  lemma {:induction false} PlainSubstitution(a: string, b: string, before: string, matched: string, after: string)
    requires '$' !in a
    ensures Substitution(a + b, before, matched, after) == a + Substitution(b, before, matched, after)
  {
    if a == "" {
      assert a + b == b;
    } else {
      var rest := a[1..];
      assert (a + b)[1..] == rest + b && (a + b)[0] == a[0];
      PlainSubstitution(rest, b, before, matched, after);
    }
  }

  /**
   In a replacement a dollar stands for something when it is followed by another one, which gives a dollar, by an
   ampersand for the match, or by a quote for the text before or after it; otherwise for itself.
   */
  lemma DollarPatterns(a: string, c: char, b: string, before: string, matched: string, after: string)
    requires '$' !in a
    ensures Substitution(a + ['$', c] + b, before, matched, after)
            == if c == '$' then a + "$" + Substitution(b, before, matched, after)
               else if c == '&' then a + matched + Substitution(b, before, matched, after)
               else if c == '`' then a + before + Substitution(b, before, matched, after)
               else if c == '\'' then a + after + Substitution(b, before, matched, after)
               else a + "$" + Substitution([c] + b, before, matched, after)
    ensures Substitution(a + "$", before, matched, after) == a + "$"
  {
    var tail := ['$', c] + b;
    assert a + ['$', c] + b == a + tail && tail[1..] == [c] + b && tail[2..] == b;
    PlainSubstitution(a, tail, before, matched, after);
    PlainSubstitution(a, "$", before, matched, after);
    assert "$"[1..] == "" && Substitution("", before, matched, after) == "";
    assert c in "$&`'" <==> c == '$' || c == '&' || c == '`' || c == '\'';
  }

  /** Only the first occurrence is replaced. */
  lemma FirstIsReplaced(x: string, n: string, y: string, replacement: string)
    requires forall p: nat | p < |x| :: !OccursAt(x + n + y, n, p)
    ensures ReplaceFirst(x + n + y, n, replacement) == x + Substitution(replacement, x, n, y) + y
  {
    hide Substitution;
    var s := x + n + y;
    assert s[|x|..|x| + |n|] == n && OccursAt(s, n, |x|);
    var i := IndexOf(s, n, 0);
    assert i == |x| && s[..i] == x && s[i + |n|..] == y;
  }
}
