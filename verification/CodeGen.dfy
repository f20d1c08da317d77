/**
 The code generator of the asset scripts (internal/scripts/refresh-assets.ts): files that hand out
 variable names which their text does not contain yet, and functions that inline the constants they
 use only once.
 */
module CodeGen {
  import opened Prelude

  // ---------------------------------------------------------------- searching text

  /** s.indexOf(n, from): the first occurrence at or after from, or -1. */
  function IndexOf(s: string, n: string, from: nat): (i: int)
    ensures i == -1 ==> forall p: nat | from <= p :: !OccursAt(s, n, p)
    ensures i != -1 ==> from <= i && OccursAt(s, n, i) && forall p: nat | from <= p < i :: !OccursAt(s, n, p)
    decreases |s| - from
  {
    if OccursAt(s, n, from) then from
    else if from >= |s| then -1
    else IndexOf(s, n, from + 1)
  }

  // ---------------------------------------------------------------- variable names

  predicate IsWordChar(c: char) {
    'a' <= c <= 'z' || 'A' <= c <= 'Z' || IsDigit(c) || c == '_'
  }

  function ToLower(c: char): char {
    if 'A' <= c <= 'Z' then c - 'A' + 'a' else c
  }

  function ToUpper(c: char): char {
    if 'a' <= c <= 'z' then c - 'a' + 'A' else c
  }

  /** Replaces each run of non-word characters by one underscore. */
  function Underscored(s: string, inRun: bool): string {
    if s == "" then ""
    else if IsWordChar(s[0]) then [s[0]] + Underscored(s[1..], false)
    else (if inRun then "" else "_") + Underscored(s[1..], true)
  }

  function DropUnderscores(s: string): string {
    if s != "" && s[0] == '_' then DropUnderscores(s[1..]) else s
  }

  /**
   Drops a leading dollar with its underscores and lowers the character after them, unless that is a
   digit.  Before a digit the last of several underscores can play the part of that character.
   */
  function LowerStart(s: string): string
    requires |s| >= 2 && s[..2] == "$_"
  {
    var rest := DropUnderscores(s[1..]);
    if rest != "" && !IsDigit(rest[0]) then [ToLower(rest[0])] + rest[1..]
    else if |s| - 1 - |rest| >= 2 then "_" + rest
    else s
  }

  /** Replaces underscores and the character after them by that character in upper case. */
  function CamelCased(s: string, pending: bool): string {
    if s == "" then (if pending then "_" else "")
    else if s[0] == '_' then CamelCased(s[1..], true)
    else [if pending then ToUpper(s[0]) else s[0]] + CamelCased(s[1..], false)
  }

  function FormatName(name: string): string {
    CamelCased(LowerStart("$_" + Underscored(name, false)), false)
  }

  /** The name is used as a regular expression, in which a leading dollar only matches at the end of the text. */
  predicate Taken(text: string, formatted: string) {
    if formatted != "" && formatted[0] == '$' then formatted == "$" else Contains(text, formatted)
  }

  function Pow10(k: nat): nat {
    if k == 0 then 1 else 10 * Pow10(k - 1)
  }

  function Suffix(suffix: Option<nat>): string {
    if suffix.Some? then Digits(suffix.value) else ""
  }

  function GetName(text: string, name: string, suffix: Option<nat>): (r: string)
    ensures !Taken(text, r)
    ensures exists s :: r == FormatName(name + Suffix(s))
    decreases
      match suffix
      case None => Pow10(|text|) + 2
      case Some(n) => if n < Pow10(|text|) + 2 then Pow10(|text|) + 2 - n else 0
  {
    var formatted := FormatName(name + Suffix(suffix));
    if Taken(text, formatted) then
      LongSuffixIsFree(text, name, suffix);
      GetName(text, name, Some((if suffix.Some? then suffix.value else 1) + 1))
    else formatted
  }

  lemma {:induction false} UnderscoredKeepsDigits(s: string, d: string, inRun: bool)
    requires forall c | c in d :: IsDigit(c)
    ensures Underscored(s + d, inRun) == Underscored(s, inRun) + d
  {
    if s == "" {
      assert s + d == d;
      DigitsAreWord(d, inRun);
    } else {
      assert (s + d)[1..] == s[1..] + d;
      UnderscoredKeepsDigits(s[1..], d, !IsWordChar(s[0]));
    }
  }

  lemma {:induction false} DigitsAreWord(d: string, inRun: bool)
    requires forall c | c in d :: IsDigit(c)
    ensures Underscored(d, inRun) == d
  {
    if d != "" {
      assert d[0] in d && forall c | c in d[1..] :: c in d;
      DigitsAreWord(d[1..], false);
    }
  }

  lemma {:induction false} DropUnderscoresKeepsDigits(s: string, d: string)
    requires d != "" && forall c | c in d :: IsDigit(c)
    ensures DropUnderscores(s + d) == DropUnderscores(s) + d
  {
    if s == "" {
      assert s + d == d && d[0] in d;
    } else {
      assert (s + d)[1..] == s[1..] + d;
      DropUnderscoresKeepsDigits(s[1..], d);
    }
  }

  predicate EndsWith(s: string, d: string) {
    |s| >= |d| && s[|s| - |d|..] == d
  }

  lemma {:induction false} CamelCasedKeepsDigits(s: string, d: string, pending: bool)
    requires d != "" && forall c | c in d :: IsDigit(c)
    ensures EndsWith(CamelCased(s + d, pending), d)
  {
    if s == "" {
      assert s + d == d;
      DigitsStay(d, pending);
    } else {
      assert (s + d)[1..] == s[1..] + d;
      CamelCasedKeepsDigits(s[1..], d, s[0] == '_');
    }
  }

  lemma {:induction false} DigitsStay(d: string, pending: bool)
    requires d != "" && forall c | c in d :: IsDigit(c)
    ensures CamelCased(d, pending) == d
  {
    assert d[0] in d && forall c | c in d[1..] :: c in d;
    assert d == [d[0]] + d[1..];
    if |d| > 1 {
      DigitsStay(d[1..], false);
    } else {
      assert CamelCased(d[1..], false) == "";
    }
  }

  /** Formatting never swallows the digits at the end of a name. */
  lemma FormatKeepsDigits(name: string, d: string)
    requires d != "" && forall c | c in d :: IsDigit(c)
    ensures EndsWith(FormatName(name + d), d)
  {
    hide Underscored, CamelCased, LowerStart;
    UnderscoredKeepsDigits(name, d, false);
    var front := "$_" + Underscored(name, false);
    assert "$_" + (Underscored(name, false) + d) == front + d;
    var lead := LowerStartKeepsDigits(front, d);
    CamelCasedKeepsDigits(lead, d, false);
  }

  lemma LowerStartKeepsDigits(front: string, d: string) returns (lead: string)
    requires d != "" && forall c | c in d :: IsDigit(c)
    requires |front| >= 2 && front[..2] == "$_"
    ensures (front + d)[..2] == "$_" && LowerStart(front + d) == lead + d
  {
    hide DropUnderscores;
    var s, kept := front + d, DropUnderscores(front[1..]);
    DropUnderscoresKeepsDigits(front[1..], d);
    assert s[..2] == "$_" && s[1..] == front[1..] + d && d[0] in d;
    var rest := kept + d;
    assert DropUnderscores(s[1..]) == rest && rest[0] == if kept != "" then kept[0] else d[0];
    if kept != "" && !IsDigit(kept[0]) {
      lead := [ToLower(kept[0])] + kept[1..];
      assert [ToLower(kept[0])] + rest[1..] == lead + d;
    } else if |s| - 1 - |rest| >= 2 {
      lead := "_" + kept;
      assert "_" + rest == lead + d;
    } else {
      lead := front;
    }
  }

  lemma {:induction false} DigitsAreDigits(n: nat)
    ensures Digits(n) != "" && forall c | c in Digits(n) :: IsDigit(c)
  {
    if n >= 10 {
      DigitsAreDigits(n / 10);
    }
  }

  lemma {:induction false} ManyDigits(n: nat, k: nat)
    requires n >= Pow10(k)
    ensures |Digits(n)| > k
  {
    if k > 0 {
      assert n / 10 >= Pow10(k - 1);
      ManyDigits(n / 10, k - 1);
    }
  }

  /** A name with more digits than the text has characters cannot be taken: the search for a name ends. */
  lemma LongSuffixIsFree(text: string, name: string, suffix: Option<nat>)
    ensures suffix.Some? && suffix.value >= Pow10(|text|) ==> !Taken(text, FormatName(name + Suffix(suffix)))
  {
    if suffix.Some? && suffix.value >= Pow10(|text|) {
      var d := Digits(suffix.value);
      DigitsAreDigits(suffix.value);
      FormatKeepsDigits(name, d);
      ManyDigits(suffix.value, |text|);
      var r := FormatName(name + d);
      assert r[|r| - 1] == r[|r| - |d|..][|d| - 1] == d[|d| - 1] && d[|d| - 1] in d;
    }
  }

  // ---------------------------------------------------------------- rendering a function

  datatype Const = Const(name: string, expr: string)

  /** The text that replaces a match: dollar patterns in the replacement stand for parts of the text around it. */
  function Substitution(replacement: string, before: string, matched: string, after: string): string {
    if |replacement| >= 2 && replacement[0] == '$' && replacement[1] in "$&`'" then
      (match replacement[1]
       case '$' => "$"
       case '&' => matched
       case '`' => before
       case _ => after)
      + Substitution(replacement[2..], before, matched, after)
    else if replacement == "" then ""
    else [replacement[0]] + Substitution(replacement[1..], before, matched, after)
  }

  /** s.replace(n, replacement): replaces the first occurrence, if there is one. */
  function ReplaceFirst(s: string, n: string, replacement: string): string {
    var i := IndexOf(s, n, 0);
    if i == -1 then s
    else s[..i] + Substitution(replacement, s[..i], n, s[i + |n|..]) + s[i + |n|..]
  }

  predicate OccursTwice(s: string, n: string) {
    var first := IndexOf(s, n, 0);
    first != -1 && IndexOf(s, n, first + 1) != -1
  }

  datatype Inlined = Inlined(declared: seq<Const>, body: string)

  function InlineOne(c: Const, r: Inlined): Inlined {
    if OccursTwice(r.body, c.name) then Inlined(r.declared + [c], r.body)
    else Inlined(r.declared, ReplaceFirst(r.body, c.name, c.expr))
  }

  function Inline(consts: seq<Const>, body: string): Inlined {
    if consts == [] then Inlined([], body)
    else InlineOne(consts[|consts| - 1], Inline(consts[..|consts| - 1], body))
  }

  function Concat(parts: seq<string>): string {
    if parts == [] then "" else Concat(parts[..|parts| - 1]) + parts[|parts| - 1]
  }

  /** Each line with a newline after it. */
  function Lines(lines: seq<string>): string {
    if lines == [] then "" else Lines(lines[..|lines| - 1]) + lines[|lines| - 1] + "\n"
  }

  function Declaration(c: Const): string {
    "const " + c.name + " = " + c.expr + ";"
  }

  function Declarations(consts: seq<Const>): seq<string> {
    seq(|consts|, i requires 0 <= i < |consts| => Declaration(consts[i]))
  }

  function RenderFunction(header: string, parts: seq<string>, consts: seq<Const>): string {
    var r := Inline(consts, Concat(parts));
    Lines([header] + Declarations(r.declared) + [r.body]) + "}"
  }

  /** Map.set: an existing name keeps its place and gets the new expression. */
  function SetConst(consts: seq<Const>, name: string, expr: string): seq<Const> {
    if consts == [] then [Const(name, expr)]
    else if consts[0].name == name then [Const(name, expr)] + consts[1..]
    else [consts[0]] + SetConst(consts[1..], name, expr)
  }

  // ---------------------------------------------------------------- the code

  datatype Part = Line(text: string) | Function(f: CodeFunction)

  datatype Import = Import(file: string, name: string)

  function JsonEscaped(s: string): string {
    if s == "" then ""
    else (if s[0] == '"' || s[0] == '\\' then ['\\', s[0]] else if s[0]
        == '\n' then "\\n" else [s[0]]) + JsonEscaped(s[1..])
  }

  function ImportLine(i: Import): string {
    "import " + i.name + " from \"" + JsonEscaped(i.file) + "\";"
  }

  function ImportLines(imports: seq<Import>): string {
    if imports == [] then ""
    else if |imports| == 1 then ImportLine(imports[0])
    else ImportLines(imports[..|imports| - 1]) + "\n" + ImportLine(imports[|imports| - 1])
  }

  function FunctionsOf(parts: seq<Part>): set<CodeFunction> {
    set i | 0 <= i < |parts| && parts[i].Function? :: parts[i].f
  }

  function PartsText(parts: seq<Part>): string
    reads FunctionsOf(parts)
  {
    if parts == [] then ""
    else
      var n := |parts| - 1;
      PartsText(parts[..n])
      + match parts[n] case Line(text) => text case Function(f) => f.Text()
  }

  /** The name under which the file has been imported. */
  function ImportName(imports: seq<Import>, file: string): (name: Option<string>)
    ensures name.Some? ==> Import(file, name.value) in imports
    ensures name.None? ==> forall i | i in imports :: i.file != file
  {
    if imports == [] then None
    else if imports[0].file == file then Some(imports[0].name)
    else ImportName(imports[1..], file)
  }

  class CodeFile {
    const header: string
    var imports: seq<Import>
    var parts: seq<Part>

    constructor (header: string)
      ensures this.header == header && imports == [] && parts == []
    {
      this.header, imports, parts := header, [], [];
    }

    function Text(): string
      reads this, FunctionsOf(parts)
    {
      header + "\n" + ImportLines(imports) + "\n" + PartsText(parts)
    }

    method Append(text: string)
      modifies this`parts
      ensures parts == old(parts) + [Line(text + "\n")]
    {
      parts := parts + [Line(text + "\n")];
    }

    method AppendFn(header: string) returns (f: CodeFunction)
      modifies this`parts
      ensures fresh(f) && f.file == this && f.header == header && f.parts == [] && f.consts == [] && f.memos == map[]
      ensures parts == old(parts) + [Function(f)]
    {
      f := new CodeFunction(this, header);
      parts := parts + [Function(f)];
    }

    /** A file gets one name, absent from the text of the file when it is first imported. */
    method ImportFile(file: string) returns (name: string)
      modifies this`imports
      ensures ImportName(old(imports), file).Some? ==>
                name == ImportName(old(imports), file).value && imports == old(imports)
      ensures ImportName(old(imports), file).None? ==>
                && name == GetName(old(Text()), file, None) && !Taken(old(Text()), name)
                && imports == old(imports) + [Import(file, name)]
    {
      var existing := ImportName(imports, file);
      if existing.Some? {
        return existing.value;
      }
      name := GetName(Text(), file, None);
      imports := imports + [Import(file, name)];
    }
  }

  class CodeFunction {
    const file: CodeFile
    const header: string
    var parts: seq<string>
    var consts: seq<Const>
    var memos: map<string, string>

    constructor (file: CodeFile, header: string)
      ensures this.file == file && this.header == header && parts == [] && consts == [] && memos == map[]
    {
      this.file, this.header, parts, consts, memos := file, header, [], [], map[];
    }

    function Text(): string
      reads this
    {
      RenderFunction(header, parts, consts)
    }

    method Append(text: string)
      modifies this`parts
      ensures parts == old(parts) + [text + "\n"]
    {
      parts := parts + [text + "\n"];
    }

    method ToString() returns (text: string)
      ensures text == Text()
    {
      var body := Concat(parts);
      var lines := [header];
      ghost var r := Inlined([], body);
      for i := 0 to |consts|
        invariant r == Inline(consts[..i], Concat(parts)) && body == r.body
        invariant lines == [header] + Declarations(r.declared)
      {
        var name, expr := consts[i].name, consts[i].expr;
        assert consts[..i + 1][..i] == consts[..i];
        var firstFoundIndex := IndexOf(body, name, 0);
        var secondFoundIndex := IndexOf(body, name, firstFoundIndex + 1);
        if secondFoundIndex == -1 {
          body := ReplaceFirst(body, name, expr);
        } else {
          DeclaredGrows(r.declared, consts[i]);
          lines := lines + ["const " + name + " = " + expr + ";"];
        }
        r := InlineOne(consts[i], r);
      }
      assert consts[..|consts|] == consts;
      lines := lines + [body];
      text := Lines(lines) + "}";
    }

    /** The variable that stands for an expression; a new one is absent from the text of the file. */
    method Memo(key: string, expr: string) returns (varName: string)
      modifies this
      ensures parts == old(parts)
      ensures key in old(memos) ==> varName == old(memos[key]) && consts == old(consts) && memos == old(memos)
      ensures key !in old(memos) ==>
                && varName == GetName(old(file.Text()), key, None)
                && consts == SetConst(old(consts), varName, expr)
                && memos == old(memos)[key := varName]
    {
      if key in memos {
        return memos[key];
      }
      varName := GetName(file.Text(), key, None);
      consts := SetConst(consts, varName, expr);
      memos := memos[key := varName];
    }
  }

  lemma DeclaredGrows(declared: seq<Const>, c: Const)
    ensures Declarations(declared + [c]) == Declarations(declared) + [Declaration(c)]
  {
  }

  // ---------------------------------------------------------------- do keys get names of their own?

  ghost predicate IsNameOf(consts: seq<Const>, name: string) {
    exists i | 0 <= i < |consts| :: consts[i].name == name
  }

  /** Every constant whose name some key could be given shows in the text. */
  ghost predicate NamesShow(consts: seq<Const>, text: string) {
    forall i, key | 0 <= i < |consts| && FormatName(key) == consts[i].name :: Taken(text, FormatName(key))
  }

  /**
   A new key never takes over the name of an existing constant exactly when the existing names show in
   the rendered text.  The name of a constant that is used only once does not: it is inlined away.
   */
  lemma NewNamesAreFreshIff(consts: seq<Const>, text: string)
    ensures (forall key :: !IsNameOf(consts, GetName(text, key, None))) <==> NamesShow(consts, text)
  {
    hide FormatName, Digits, Taken, Suffix, GetName;
    if NamesShow(consts, text) {
      forall key ensures !IsNameOf(consts, GetName(text, key, None)) {
        var s :| GetName(text, key, None) == FormatName(key + Suffix(s));
        assert forall i | 0 <= i < |consts| && FormatName(key + Suffix(s)) == consts[i].name ::
            Taken(text, consts[i].name);
      }
    } else {
      var i, key :| 0 <= i < |consts| && FormatName(key) == consts[i].name && !Taken(text, FormatName(key));
      FirstChoice(text, key);
      assert IsNameOf(consts, GetName(text, key, None));
    }
  }

  /** Without need for a suffix, the name is the formatted key. */
  lemma FirstChoice(text: string, key: string)
    ensures !Taken(text, FormatName(key)) ==> GetName(text, key, None) == FormatName(key)
  {
    hide FormatName, Digits, Taken;
    assert key + Suffix(None) == key;
  }

  /**
   Two different keys that share a name: the first is used once and inlined, so the second gets its name
   and its expression replaces the first one's, in the place where the first was used.  The file holds this
   one function, so its text is that of the function after two line ends.
   */
  method KeysCanShareAName() returns (first: string, second: string, before: string, after: string)
    ensures first == GetName("\n\n" + RenderFunction("f", [], []), "a", None)
    ensures before == RenderFunction("f", [first + "\n"], SetConst([], first, "1"))
    ensures second == GetName("\n\n" + before, "A", None)
    ensures after == RenderFunction("f", [first + "\n"], SetConst(SetConst([], first, "1"), second, "2"))
    ensures first == second == "a"
    ensures before == "f\n1\n\n}" && after == "f\n2\n\n}"
  {
    hide FormatName, Digits, GetName, RenderFunction, Taken, ImportLines;
    FormatOneLetter();
    RenderedTexts();
    var file := new CodeFile("");
    var f := file.AppendFn("f");
    OneFunction(file, f);
    FreeName(f.Text(), "a");
    first := f.Memo("a", "1");
    f.Append(first);
    assert "a" + "\n" == "a\n" && f.parts == ["a\n"];
    before := f.ToString();
    OneFunction(file, f);
    FreeName(f.Text(), "A");
    second := f.Memo("A", "2");
    assert [Const("a", "1")][1..] == [] && f.consts == [Const("a", "2")];
    after := f.ToString();
  }

  lemma OneFunction(file: CodeFile, f: CodeFunction)
    requires file.header == "" && file.imports == [] && file.parts == [Function(f)]
    ensures file.Text() == "\n\n" + f.Text()
  {
    assert file.parts[..0] == [] && PartsText([]) == "";
    assert PartsText(file.parts) == "" + f.Text();
  }

  lemma FreeName(text: string, key: string)
    requires FormatName(key) == "a" && 'a' !in text
    ensures GetName("\n\n" + text, key, None) == "a"
  {
    hide FormatName, Digits, GetName;
    FirstChoice("\n\n" + text, key);
  }

  lemma RenderedTexts()
    ensures RenderFunction("f", [], []) == "f\n\n}"
    ensures RenderFunction("f", ["a\n"], [Const("a", "1")]) == "f\n1\n\n}"
    ensures RenderFunction("f", ["a\n"], [Const("a", "2")]) == "f\n2\n\n}"
  {
    hide Inline, Lines;
    assert Concat(["a\n"]) == "a\n" && Inline([], "") == Inlined([], "") by {
      EmptyTexts();
    }
    InlineOneUse("1");
    InlineOneUse("2");
    assert Declarations([]) == [] && "1" + "\n" == "1\n" && "2" + "\n" == "2\n";
    LinesOfTwo("f", "");
    LinesOfTwo("f", "1\n");
    LinesOfTwo("f", "2\n");
  }

  lemma EmptyTexts()
    ensures Concat([]) == "" && Concat(["a\n"]) == "a\n" && Inline([], "") == Inlined([], "")
  {
    assert ["a\n"][..0] == [] && Concat(["a\n"]) == Concat([]) + "a\n";
  }

  lemma LinesOfTwo(a: string, b: string)
    ensures Lines([a] + [] + [b]) == a + "\n" + b + "\n"
  {
    assert [a] + [] + [b] == [a, b];
    assert [a, b][..1] == [a] && [a][..0] == [];
    assert Lines([a]) == Lines([]) + a + "\n" == a + "\n";
  }

  lemma FormatOneLetter()
    ensures FormatName("a") == "a" && FormatName("A") == "a"
  {
    assert Underscored("", false) == "";
    assert Underscored("a", false) == "a" && Underscored("A", false) == "A";
    LowerOneLetter('a');
    LowerOneLetter('A');
    assert CamelCased("", false) == "" && CamelCased("a", false) == "a";
  }

  lemma LowerOneLetter(c: char)
    requires c == 'a' || c == 'A'
    ensures LowerStart("$_" + [c]) == "a"
  {
    var s := "$_" + [c];
    assert s[1..] == "_" + [c] && s[1..][1..] == [c];
    assert DropUnderscores([c]) == [c];
  }

  lemma InlineOneUse(e: string)
    requires e == "1" || e == "2"
    ensures Inline([Const("a", e)], "a\n") == Inlined([], e + "\n")
  {
    var s := "a\n";
    assert [Const("a", e)][..0] == [];
    assert OccursAt(s, "a", 0);
    assert IndexOf(s, "a", 0) == 0;
    assert s[1..2] == "\n" && !OccursAt(s, "a", 1) && !OccursAt(s, "a", 2);
    assert IndexOf(s, "a", 1) == -1;
    assert s[..0] == "" && s[1..] == "\n";
    assert e[1..] == "" && Substitution(e, "", "a", "\n") == e;
    assert "" + e + "\n" == e + "\n";
  }
}
