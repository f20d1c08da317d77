/**
 The variable names that the code generator makes: a key written in camel case, and the first variant of it that
 the text does not contain.
 */
module CodeNames {
  import opened Prelude
  import opened CodeGen

  // ---------------------------------------------------------------- words

  predicate IsLetter(c: char) {
    'a' <= c <= 'z' || 'A' <= c <= 'Z'
  }

  /** Words are made of letters and digits; everything else, underscores too, stands between words. */
  predicate InWord(c: char) {
    IsLetter(c) || '0' <= c <= '9'
  }

  function Big(c: char): char {
    if 'a' <= c <= 'z' then 'A' + (c - 'a') else c
  }

  function Small(c: char): char {
    if 'A' <= c <= 'Z' then 'a' + (c - 'A') else c
  }

  /** The letters and digits that the text starts with. */
  function Word(s: string): (w: string)
    ensures w <= s && (s != "" && InWord(s[0]) ==> w != "" && w[0] == s[0])
  {
    if s == "" || !InWord(s[0]) then "" else [s[0]] + Word(s[1..])
  }

  function Words(s: string): (words: seq<string>)
    ensures forall i | 0 <= i < |words| :: words[i] != "" && InWord(words[i][0])
    decreases |s|
  {
    if s == "" then []
    else if InWord(s[0]) then [Word(s)] + Words(s[|Word(s)|..])
    else Words(s[1..])
  }

  function Capitalized(words: seq<string>): string
    requires forall i | 0 <= i < |words| :: words[i] != ""
  {
    if words == [] then "" else [Big(words[0][0])] + words[0][1..] + Capitalized(words[1..])
  }

  /** What separators at the end of the key leave. */
  function EndMark(s: string): string {
    if s != "" && !InWord(s[|s| - 1]) then "_" else ""
  }

  /** A key in camel case: a word that starts with a digit gets a dollar, but only at the very start of the key. */
  function CamelName(key: string): string {
    var words := Words(key);
    if words == [] then (if key == "" then "$_" else "_")
    else
      var first := words[0];
      (if IsLetter(first[0]) then [Small(first[0])] + first[1..] else if InWord(key[0]) then "$" + first else first)
      + Capitalized(words[1..]) + EndMark(key)
  }

  // ---------------------------------------------------------------- the three replacements

  /** The second and third replacement on the key itself. */
  function Camel(s: string, pending: bool): string {
    if s == "" then (if pending then "_" else "")
    else if InWord(s[0]) then [if pending then ToUpper(s[0]) else s[0]] + Camel(s[1..], false)
    else Camel(s[1..], true)
  }

  lemma {:induction false} CamelIs(s: string, inRun: bool, pending: bool)
    requires inRun ==> pending
    ensures CamelCased(Underscored(s, inRun), pending) == Camel(s, pending)
  {
    if s != "" {
      var u := Underscored(s[1..], !IsWordChar(s[0]));
      CamelIs(s[1..], !IsWordChar(s[0]), !InWord(s[0]));
      if IsWordChar(s[0]) {
        assert ([s[0]] + u)[1..] == u;
      } else {
        assert ("_" + u)[1..] == u && "" + u == u;
      }
    }
  }

  lemma EndMarkLater(s: string)
    ensures |s| > 1 ==> EndMark(s[1..]) == EndMark(s)
    ensures s == "" ==> EndMark(s) == ""
  {
  }

  lemma WordFirst(s: string)
    requires s != ""
    ensures InWord(s[0]) ==> Word(s) == [s[0]] + Word(s[1..]) && s[|Word(s)|..] == s[1..][|Word(s[1..])|..]
    ensures InWord(s[0]) ==> Words(s) == [Word(s)] + Words(s[|Word(s)|..])
    ensures !InWord(s[0]) ==> Word(s) == "" && s[|Word(s)|..] == s && Words(s) == Words(s[1..])
  {
  }

  lemma CapitalizedFirst(w: string, words: seq<string>)
    requires w != "" && forall i | 0 <= i < |words| :: words[i] != ""
    ensures forall i | 0 <= i < |[w] + words| :: ([w] + words)[i] != ""
    ensures Capitalized([w] + words) == [Big(w[0])] + w[1..] + Capitalized(words)
  {
    var all := [w] + words;
    assert all[0] == w && all[1..] == words;
    forall i | 0 <= i < |all| ensures all[i] != "" {
      assert i > 0 ==> all[i] == words[i - 1];
    }
  }

  lemma CamelFirst(s: string, pending: bool)
    requires s != ""
    ensures Camel(s, pending)
            == if InWord(s[0]) then [if pending then Big(s[0]) else s[0]] + Camel(s[1..], false)
               else Camel(s[1..], true)
  {
    BigIsUpper();
  }

  lemma AddFirst(c: char, a: string, b: string, d: string)
    ensures [c] + (a + b + d) == [c] + a + b + d
  {
  }

  lemma CamelOfWord(s: string)
    requires s != "" && InWord(s[0])
    requires Camel(s[1..], false) == Word(s[1..]) + Capitalized(Words(s[1..][|Word(s[1..])|..])) + EndMark(s[1..])
    ensures Camel(s, false) == Word(s) + Capitalized(Words(s[|Word(s)|..])) + EndMark(s)
    ensures Camel(s, true) == Capitalized(Words(s)) + EndMark(s)
  {
    hide Camel, Words, Capitalized, Word, EndMark;
    var rest, later := s[1..], Words(s[|Word(s)|..]);
    NoWords();
    EndMarkLater(s);
    SingleMark(s);
    WordFirst(s);
    CamelFirst(s, false);
    CamelFirst(s, true);
    CapitalizedFirst(Word(s), later);
    assert EndMark(rest) == EndMark(s) && Word(s)[0] == s[0] && Word(s)[1..] == Word(rest);
    AddFirst(s[0], Word(rest), Capitalized(later), EndMark(s));
    AddFirst(Big(s[0]), Word(rest), Capitalized(later), EndMark(s));
  }

  /** Camel case word by word. */
  lemma {:induction false} CamelWords(s: string)
    ensures Camel(s, false) == Word(s) + Capitalized(Words(s[|Word(s)|..])) + EndMark(s)
    ensures s != "" ==> Camel(s, true) == Capitalized(Words(s)) + EndMark(s)
    decreases |s|
  {
    hide Camel, Words, Capitalized, Word, EndMark;
    NoWords();
    if s == "" {
      NothingIsCamel();
    } else {
      CamelWords(s[1..]);
      if InWord(s[0]) {
        CamelOfWord(s);
      } else {
        WordFirst(s);
        CamelFirst(s, false);
        CamelFirst(s, true);
        EndMarkLater(s);
        SingleMark(s);
        NothingIsCamel();
        assert "" + Capitalized(Words(s)) + EndMark(s) == Capitalized(Words(s)) + EndMark(s);
      }
    }
  }

  lemma NothingIsCamel()
    ensures Camel("", false) == "" && Camel("", true) == "_"
  {
  }

  lemma BigIsUpper()
    ensures forall c :: ToUpper(c) == Big(c)
  {
  }

  lemma NoWords()
    ensures Word("") == "" && Words("") == [] && Capitalized([]) == "" && EndMark("") == ""
  {
  }

  lemma SingleMark(s: string)
    requires s != ""
    ensures |s| == 1 ==> EndMark(s) == if InWord(s[0]) then "" else "_"
  {
  }

  /** The key without the separators in front of its first word. */
  function FromWord(s: string): string {
    if s == "" || InWord(s[0]) then s else FromWord(s[1..])
  }

  lemma {:induction false} FromWordIsUnderscored(s: string, inRun: bool)
    ensures DropUnderscores(Underscored(s, inRun)) == Underscored(FromWord(s), false)
  {
    if s != "" && !InWord(s[0]) {
      var u := Underscored(s[1..], !IsWordChar(s[0]));
      FromWordIsUnderscored(s[1..], !IsWordChar(s[0]));
      assert ("_" + u)[1..] == u && ([s[0]] + u)[1..] == u && "" + u == u;
    } else if s != "" {
      assert Underscored(s, inRun)[0] == s[0];
    }
  }

  lemma {:induction false} FromWordIs(s: string)
    ensures Words(FromWord(s)) == Words(s) && (FromWord(s) != "" ==> EndMark(FromWord(s)) == EndMark(s))
    ensures FromWord(s) == "" || InWord(FromWord(s)[0])
    ensures FromWord(s) == "" <==> Words(s) == []
  {
    hide Words, EndMark;
    NoWords();
    if s != "" {
      WordFirst(s);
      EndMarkLater(s);
      if !InWord(s[0]) {
        FromWordIs(s[1..]);
      }
    }
  }

  lemma {:induction false} DropShortens(u: string)
    ensures |DropUnderscores(u)| <= |u| && (u != "" && u[0] == '_' ==> |DropUnderscores(u)| < |u|)
  {
    if u != "" {
      DropShortens(u[1..]);
    }
  }

  lemma UnderscoredStarts(s: string)
    ensures Underscored(s, false) == "" <==> s == ""
    ensures s != "" ==> Underscored(s, false)[0] == if InWord(s[0]) then s[0] else '_'
    ensures s != "" && InWord(s[0]) ==> Underscored(s, false)[1..] == Underscored(s[1..], false)
  {
  }

  /** Without need for a dollar: the key starts with a word, or the word starts with a letter. */
  lemma LetterFirst(key: string)
    requires var from := FromWord(key); from != "" && IsLetter(from[0])
    ensures FormatName(key) == CamelName(key)
  {
    hide Underscored, CamelCased, Camel, DropUnderscores, Words, Capitalized, EndMark, FromWord;
    var from := FromWord(key);
    var u, s := Underscored(from, false), "$_" + Underscored(key, false);
    FromWordIs(key);
    FromWordIsUnderscored(key, false);
    UnderscoredStarts(from);
    assert s[1..] == "_" + Underscored(key, false);
    DropFirst(Underscored(key, false));
    var small := ToLower(from[0]);
    assert LowerStart(s) == [small] + u[1..];
    CamelCasedFirst(small, u[1..], false);
    CamelIs(from[1..], false, false);
    CamelWords(from[1..]);
    WordFirst(from);
    EndMarkLater(from);
    SingleMark(from);
    NoWords();
    WordsFirst(key, from);
  }

  lemma WordsFirst(key: string, from: string)
    requires from != "" && InWord(from[0]) && Words(from) == Words(key)
    ensures Words(key) != [] && Words(key)[0] == Word(from) && Word(from) != "" && Word(from)[0] == from[0]
    ensures Words(key)[1..] == Words(from[1..][|Word(from[1..])|..]) && Word(from)[1..] == Word(from[1..])
  {
    WordFirst(from);
  }

  lemma DropFirst(u: string)
    ensures DropUnderscores("_" + u) == DropUnderscores(u)
  {
    assert ("_" + u)[1..] == u;
  }

  lemma CamelCasedFirst(c: char, u: string, pending: bool)
    ensures c != '_' ==> CamelCased([c] + u, pending) == [if pending then ToUpper(c) else c] + CamelCased(u, false)
    ensures CamelCased("_" + u, pending) == CamelCased(u, true)
  {
    assert ([c] + u)[1..] == u && ("_" + u)[1..] == u;
  }

  lemma DigitFirst(key: string)
    requires var from := FromWord(key); from == "" || !IsLetter(from[0])
    ensures FormatName(key) == CamelName(key)
  {
    hide Underscored, CamelCased, Camel, DropUnderscores, Words, Capitalized, EndMark, FromWord;
    var from := FromWord(key);
    var u := Underscored(key, false);
    var s, rest := "$_" + u, Underscored(from, false);
    FromWordIs(key);
    FromWordIsUnderscored(key, false);
    UnderscoredStarts(from);
    UnderscoredStarts(key);
    DropShortens(u);
    assert s[1..] == "_" + u;
    DropFirst(u);
    NoWords();
    NoCamel();
    if from == "" {
      assert rest == "" && Words(key) == [];
      if key == "" {
        assert LowerStart(s) == "$" + ("_" + "");
        CamelCasedFirst('$', "_" + "", false);
        CamelCasedFirst('$', "", false);
      } else {
        assert LowerStart(s) == "_" + "";
        CamelCasedFirst('$', "", false);
      }
    } else {
      WordsFirst(key, from);
      CamelIs(from, false, true);
      CamelWords(from);
      var words := Words(key);
      CapitalizedFirst(words[0], words[1..]);
      assert words == [words[0]] + words[1..] && [Big(words[0][0])] + words[0][1..] == words[0];
      StartsWithWord(key);
      if InWord(key[0]) {
        assert LowerStart(s) == "$" + ("_" + u);
        CamelCasedFirst('$', "_" + u, false);
        CamelCasedFirst('$', u, false);
      } else {
        assert LowerStart(s) == "_" + rest;
        CamelCasedFirst('$', rest, false);
      }
    }
  }

  lemma NoCamel()
    ensures CamelCased("", false) == "" && CamelCased("", true) == "_"
  {
  }

  lemma StartsWithWord(key: string)
    ensures key != "" && InWord(key[0]) ==> FromWord(key) == key
    ensures FromWord(key) != "" ==> key != ""
  {
  }

  /** The name made of a key is the key in camel case. */
  lemma FormatIsCamelCase(key: string)
    ensures FormatName(key) == CamelName(key)
  {
    var from := FromWord(key);
    if from != "" && IsLetter(from[0]) {
      LetterFirst(key);
    } else {
      DigitFirst(key);
    }
  }

  // ---------------------------------------------------------------- what can go wrong with a name

  predicate IsIdentifier(s: string) {
    s != "" && !('0' <= s[0] <= '9') && forall c | c in s :: InWord(c) || c == '_' || c == '$'
  }

  /** A key that starts with a separator and goes on with a digit. */
  predicate DigitAfterSeparator(key: string) {
    key != "" && !InWord(key[0]) && FromWord(key) != "" && '0' <= FromWord(key)[0] <= '9'
  }

  lemma {:induction false} WordIsInWord(s: string)
    ensures forall c | c in Word(s) :: InWord(c)
  {
    if s != "" && InWord(s[0]) {
      WordIsInWord(s[1..]);
    }
  }

  lemma {:induction false} WordsAreInWord(s: string)
    ensures forall i, c | 0 <= i < |Words(s)| && c in Words(s)[i] :: InWord(c)
    decreases |s|
  {
    if s != "" {
      if InWord(s[0]) {
        WordIsInWord(s);
        WordsAreInWord(s[|Word(s)|..]);
      } else {
        WordsAreInWord(s[1..]);
      }
    }
  }

  lemma {:induction false} CapitalizedIsInWord(words: seq<string>)
    requires forall i | 0 <= i < |words| :: words[i] != ""
    requires forall i, c | 0 <= i < |words| && c in words[i] :: InWord(c)
    ensures forall c | c in Capitalized(words) :: InWord(c)
  {
    if words != [] {
      assert words[0][0] in words[0] && forall c | c in words[0][1..] :: c in words[0];
      CapitalizedIsInWord(words[1..]);
    }
  }

  lemma NameCharacters(key: string)
    ensures CamelName(key) != "" && forall c | c in CamelName(key) :: InWord(c) || c == '_' || c == '$'
  {
    hide Words, Capitalized;
    WordsAreInWord(key);
    var words := Words(key);
    if words != [] {
      CapitalizedIsInWord(words[1..]);
      assert words[0][0] in words[0] && forall c | c in words[0][1..] :: c in words[0];
    }
  }

  lemma NameStart(key: string)
    ensures CamelName(key) != "" && ('0' <= CamelName(key)[0] <= '9' <==> DigitAfterSeparator(key))
  {
    hide Words, Capitalized, EndMark, Word;
    FromWordIs(key);
    StartsWithWord(key);
    if Words(key) != [] {
      WordsFirst(key, FromWord(key));
    }
  }

  /** A name is a variable name exactly when its key does not begin with a separator before a digit. */
  lemma NamesAreIdentifiersIff(key: string)
    ensures IsIdentifier(FormatName(key)) <==> !DigitAfterSeparator(key)
  {
    hide CamelName, FormatName, DigitAfterSeparator;
    FormatIsCamelCase(key);
    NameCharacters(key);
    NameStart(key);
  }

  // ---------------------------------------------------------------- the first variant that is free

  /** The variants of a key: the key itself, and the key with 2, 3 and so on after it. */
  function Variant(key: string, k: nat): string {
    FormatName(if k == 0 then key else key + Digits(k + 1))
  }

  /** A name can be taken when it does not start with a dollar, and then is when it stands in the text. */
  predicate IsTaken(text: string, name: string) {
    name == "$" || ((name == "" || name[0] != '$') && exists p :: 0 <= p <= |text| - |name| && name <= text[p..])
  }

  lemma TakenIs(text: string, name: string)
    ensures Taken(text, name) <==> IsTaken(text, name)
  {
    forall p: nat | p + |name| <= |text| ensures OccursAt(text, name, p) <==> name <= text[p..] {
      assert text[p..p + |name|] == text[p..][..|name|];
    }
    if Contains(text, name) {
      var p: nat :| p <= |text| && OccursAt(text, name, p);
      assert name <= text[p..];
    }
  }

  lemma {:induction false} FirstFreeFrom(text: string, key: string, k: nat) returns (n: nat)
    requires k > 0
    ensures k <= n && GetName(text, key, Some(k + 1)) == Variant(key, n)
    ensures forall m | k <= m < n :: Taken(text, Variant(key, m))
    decreases if k < Pow10(|text|) + 2 then Pow10(|text|) + 2 - k else 0
  {
    hide FormatName, Taken;
    if Taken(text, Variant(key, k)) {
      LongSuffixIsFree(text, key, Some(k + 1));
      n := FirstFreeFrom(text, key, k + 1);
    } else {
      n := k;
    }
  }

  /** The name of a key is its first variant that is not taken. */
  lemma NameIsFirstFree(text: string, key: string) returns (n: nat)
    ensures GetName(text, key, None) == Variant(key, n) && !IsTaken(text, Variant(key, n))
    ensures forall m | 0 <= m < n :: IsTaken(text, Variant(key, m))
  {
    hide FormatName, Taken, IsTaken;
    assert key + "" == key;
    if Taken(text, Variant(key, 0)) {
      n := FirstFreeFrom(text, key, 1);
    } else {
      n := 0;
    }
    forall name ensures Taken(text, name) <==> IsTaken(text, name) {
      TakenIs(text, name);
    }
  }
}
