/**
 What the walk of a page produces: when it throws, that no text is lost between the headings, and which
 headings are marked as inherited.
 */
module ParseMarkdownLaws {
  import opened Prelude
  import opened ParseMarkdown

  // ---------------------------------------------------------------- reference definitions on the tree

  /** The first attribute with the name inherited is the one at i. */
  predicate FirstInherited(attributes: seq<Attribute>, i: nat) {
    && i < |attributes| && attributes[i].Named? && attributes[i].name == "inherited"
    && forall j | 0 <= j < i :: !(attributes[j].Named? && attributes[j].name == "inherited")
  }

  /** The value of the first attribute with the name inherited is the given expression. */
  ghost predicate Gives(attributes: seq<Attribute>, expression: string) {
    exists i: nat :: FirstInherited(attributes, i) && attributes[i].value == Expression(expression)
  }

  /** A title says that it is inherited by giving its parent, and that it is not by giving null. */
  ghost predicate GivesParent(attributes: seq<Attribute>) {
    exists s :: Gives(attributes, s) && s != "null"
  }

  ghost predicate GivesNull(attributes: seq<Attribute>) {
    Gives(attributes, "null")
  }

  lemma GivesFirst(attributes: seq<Attribute>, s: string)
    requires attributes != []
    ensures Gives(attributes, s)
            <==> if attributes[0].Named? && attributes[0].name == "inherited" then attributes[0].value == Expression(s)
                 else Gives(attributes[1..], s)
  {
    var rest := attributes[1..];
    if attributes[0].Named? && attributes[0].name == "inherited" {
      assert FirstInherited(attributes, 0) && forall i: nat | FirstInherited(attributes, i) :: i == 0;
    } else {
      if i: nat :| FirstInherited(attributes, i) && attributes[i].value == Expression(s) {
        assert FirstInherited(rest, i - 1) && rest[i - 1] == attributes[i];
      }
      if i: nat :| FirstInherited(rest, i) && rest[i].value == Expression(s) {
        assert FirstInherited(attributes, i + 1) && rest[i] == attributes[i + 1];
      }
    }
  }

  /** What the code reads from the attributes; without such an attribute, or with another value, it throws. */
  lemma {:induction false} InheritanceIs(attributes: seq<Attribute>)
    ensures InheritanceOf(attributes) == Inherited <==> GivesParent(attributes)
    ensures InheritanceOf(attributes) == Own <==> GivesNull(attributes)
  {
    if attributes == [] {
      assert forall s :: !Gives(attributes, s);
    } else {
      hide Gives;
      InheritanceIs(attributes[1..]);
      forall s
        ensures Gives(attributes, s)
                <==> if attributes[0].Named? && attributes[0].name == "inherited" then attributes[0].value
                     == Expression(s) else Gives(attributes[1..], s)
      {
        GivesFirst(attributes, s);
      }
      if attributes[0].Named? && attributes[0].name == "inherited" && attributes[0].value.Expression? {
        assert Gives(attributes, attributes[0].value.s);
      }
    }
  }

  /** A table of contents is left out of the text. */
  ghost predicate LeftOut(name: Option<string>, attributes: seq<Attribute>) {
    name == Some("details") && Named("className", Literal("article__table-of-contents")) in attributes
  }

  lemma LeftOutIs(name: Option<string>, attributes: seq<Attribute>)
    ensures IsTableOfContents(name, attributes) <==> LeftOut(name, attributes)
  {
  }

  /** The text in front of the children of an element. */
  function Before(name: Option<string>): string {
    if name == Some("ParametersTableDescription") then "(" else ""
  }

  predicate BreaksAtEnd(name: Option<string>) {
    name == Some("ApiHeading") || name == Some("ParametersTable")
  }

  function Closing(name: Option<string>): string {
    if name == Some("ApiHeading") then ":"
    else if name == Some("ParametersTableDescription") then ")"
    else if name == Some("ParametersTableRow") then ","
    else if name == Some("ParametersTable") then "."
    else ""
  }

  /** Trees the walk accepts: nothing that breaks text stands inside a heading, and titles are well marked. */
  ghost predicate Walkable(node: Node, inHeading: bool)
    decreases node, 1
  {
    match node
    case Heading(_, children) => AllWalkable(children, true)
    case Text(_) => true
    case Block(children) => !inHeading && AllWalkable(children, inHeading)
    case Code => true
    case Jsx(flow, name, attributes, children) =>
      && (flow ==> !inHeading)
      && (LeftOut(name, attributes)
          || (&& AllWalkable(children, inHeading)
              && (name == Some("ApiMemberTitle") ==> GivesParent(attributes) || GivesNull(attributes))
              && (BreaksAtEnd(name) ==> !inHeading)))
    case Other(children) => AllWalkable(children, inHeading)
  }

  ghost predicate AllWalkable(nodes: seq<Node>, inHeading: bool)
    decreases nodes, 0
  {
    nodes == [] || (Walkable(nodes[0], inHeading) && AllWalkable(nodes[1..], inHeading))
  }

  /** All the text of a tree in reading order, without any breaks. */
  ghost function TextOf(node: Node): string
    decreases node, 1
  {
    match node
    case Heading(_, children) => TextOfAll(children)
    case Text(value) => value
    case Block(children) => TextOfAll(children)
    case Code => ""
    case Jsx(_, name, attributes, children) =>
      if LeftOut(name, attributes) then "" else Before(name) + TextOfAll(children) + Closing(name)
    case Other(children) => TextOfAll(children)
  }

  ghost function TextOfAll(nodes: seq<Node>): string
    decreases nodes, 0
  {
    if nodes == [] then "" else TextOf(nodes[0]) + TextOfAll(nodes[1..])
  }

  /** A heading of the tree: its level and the nodes it lies under. */
  datatype Place = Place(depth: nat, ancestors: seq<Node>)

  ghost function HeadingsIn(node: Node, ancestors: seq<Node>): seq<Place>
    decreases node, 1
  {
    match node
    case Heading(depth, children) => [Place(depth, ancestors)] + HeadingsInAll(children, ancestors + [node])
    case Text(_) => []
    case Block(children) => HeadingsInAll(children, ancestors + [node])
    case Code => []
    case Jsx(_, name, attributes, children) =>
      if LeftOut(name, attributes) then [] else HeadingsInAll(children, ancestors + [node])
    case Other(children) => HeadingsInAll(children, ancestors + [node])
  }

  ghost function HeadingsInAll(nodes: seq<Node>, ancestors: seq<Node>): seq<Place>
    decreases nodes, 0
  {
    if nodes == [] then [] else HeadingsIn(nodes[0], ancestors) + HeadingsInAll(nodes[1..], ancestors)
  }

  ghost predicate InheritedTitle(node: Node) {
    node.Jsx? && node.name == Some("ApiMemberTitle") && GivesParent(node.attributes)
  }

  ghost predicate UnderInherited(ancestors: seq<Node>) {
    exists i | 0 <= i < |ancestors| :: InheritedTitle(ancestors[i])
  }

  datatype Mark = Mark(level: nat, isInherited: bool)

  ghost function ExpectedMarks(places: seq<Place>): seq<Mark> {
    seq(|places|, i requires 0 <= i < |places| => Mark(places[i].depth, UnderInherited(places[i].ancestors)))
  }

  function Marks(headings: seq<ParsedHeading>): seq<Mark> {
    seq(|headings|, i requires 0 <= i < |headings| => Mark(headings[i].level, headings[i].isInherited))
  }

  // ---------------------------------------------------------------- text without its line breaks

  function Unbroken(s: string): string {
    if s == "" then ""
    else (if s[0] == '\n' then "" else [s[0]]) + Unbroken(s[1..])
  }

  lemma {:induction false} UnbrokenConcat(a: string, b: string)
    ensures Unbroken(a + b) == Unbroken(a) + Unbroken(b)
  {
    if a == "" {
      assert a + b == b;
    } else {
      var first, rest := if a[0] == '\n' then "" else [a[0]], a[1..];
      UnbrokenConcat(rest, b);
      assert (a + b)[1..] == rest + b;
      assert Unbroken(a + b) == first + Unbroken(rest + b);
      assert Unbroken(a) == first + Unbroken(rest);
    }
  }

  lemma WithBreakIsUnbroken(s: string)
    ensures Unbroken(WithBreak(s)) == Unbroken(s)
    ensures Unbroken(s + BREAK) == Unbroken(s)
  {
    UnbrokenConcat(s, BREAK);
    assert BREAK[1..] == "\n" && BREAK[1..][1..] == "";
    assert Unbroken(BREAK) == "";
  }

  /** The titles and contents of all headings, one after the other. */
  function Gathered(headings: seq<ParsedHeading>): string {
    if headings == [] then ""
    else
      var n := |headings| - 1;
      Gathered(headings[..n]) + headings[n].title + headings[n].contentText
  }

  // ---------------------------------------------------------------- the walk

  /** The headings hold the text seen so far, and inside a heading its content is still empty. */
  ghost predicate Conserves(o: Output, inHeading: bool) {
    && o.headings != []
    && Unbroken(Gathered(o.headings)) == Unbroken(o.allContentText)
    && (inHeading ==> o.headings[|o.headings| - 1].contentText == "")
  }

  /** o' continues o by some text and some headings. */
  ghost predicate Continues(o: Output, o': Output, inHeading: bool, text: string, marks: seq<Mark>) {
    && Conserves(o', inHeading)
    && Unbroken(o'.allContentText) == Unbroken(o.allContentText) + Unbroken(text)
    && Marks(o'.headings) == Marks(o.headings) + marks
  }

  lemma ReplaceLast(headings: seq<ParsedHeading>, h: ParsedHeading)
    requires headings != []
    requires h.level == headings[|headings| - 1].level && h.isInherited == headings[|headings| - 1].isInherited
    ensures var n := |headings| - 1;
            && Gathered(headings[n := h]) == Gathered(headings[..n]) + h.title + h.contentText
            && Marks(headings[n := h]) == Marks(headings)
  {
    var n := |headings| - 1;
    assert headings[n := h][..n] == headings[..n];
  }

  lemma UnbrokenThree(a: string, b: string, c: string)
    ensures Unbroken(a + b + c) == Unbroken(a) + Unbroken(b) + Unbroken(c)
  {
    UnbrokenConcat(a + b, c);
    UnbrokenConcat(a, b);
  }

  lemma AddTextContinues(o: Output, st: State, text: string)
    requires Conserves(o, st.isInHeading)
    ensures Continues(o, AddText(o, st, text), st.isInHeading, text, [])
  {
    hide Unbroken, Gathered, Marks;
    var n, o' := |o.headings| - 1, AddText(o, st, text);
    var h, h' := o.headings[n], o'.headings[n];
    ReplaceLast(o.headings, h);
    ReplaceLast(o.headings, h');
    assert o.headings[n := h] == o.headings;
    var front := Gathered(o.headings[..n]);
    UnbrokenThree(front, h.title, h.contentText);
    UnbrokenThree(front, h'.title, h'.contentText);
    UnbrokenConcat(o.allContentText, text);
    UnbrokenEmpty();
    var x, y, z, t := Unbroken(front), Unbroken(h.title), Unbroken(h.contentText), Unbroken(text);
    if st.isInHeading {
      UnbrokenConcat(h.title, text);
      assert x + (y + t) + z == (x + y + z) + t;
    } else {
      UnbrokenConcat(h.contentText, text);
      assert x + y + (z + t) == (x + y + z) + t;
    }
  }

  lemma LastContentChanges(headings: seq<ParsedHeading>, text: string)
    requires headings != [] && Unbroken(text) == Unbroken(headings[|headings| - 1].contentText)
    ensures var n := |headings| - 1;
            var changed := headings[n := headings[n].(contentText := text)];
            Unbroken(Gathered(changed)) == Unbroken(Gathered(headings)) && Marks(changed) == Marks(headings)
  {
    hide Unbroken, Gathered, Marks;
    var n := |headings| - 1;
    var h := headings[n];
    ReplaceLast(headings, h);
    ReplaceLast(headings, h.(contentText := text));
    assert headings[n := h] == headings;
    UnbrokenThree(Gathered(headings[..n]), h.title, h.contentText);
    UnbrokenThree(Gathered(headings[..n]), h.title, text);
  }

  lemma BreakTextContinues(o: Output, st: State)
    requires Conserves(o, st.isInHeading)
    ensures BreakText(o, st).Some? <==> !st.isInHeading
    ensures !st.isInHeading ==> Continues(o, BreakText(o, st).value, false, "", [])
  {
    hide Unbroken, WithBreak, Gathered, Marks;
    if !st.isInHeading {
      var content := o.headings[|o.headings| - 1].contentText;
      WithBreakIsUnbroken(content);
      WithBreakIsUnbroken(o.allContentText);
      LastContentChanges(o.headings, WithBreak(content));
      UnbrokenEmpty();
      assert Unbroken(o.allContentText) + "" == Unbroken(o.allContentText);
      assert Marks(o.headings) + [] == Marks(o.headings);
    }
  }

  lemma UnbrokenEmpty()
    ensures Unbroken("") == ""
  {
  }

  lemma NewHeadingContinues(o: Output, depth: nat, isInherited: bool)
    requires o.headings != [] && Unbroken(Gathered(o.headings)) == Unbroken(o.allContentText)
    ensures var o' := Output(o.headings + [ParsedHeading(depth, "", "", isInherited)], o.allContentText + BREAK);
            Continues(o, o', true, "", [Mark(depth, isInherited)])
  {
    hide Unbroken;
    var headings := o.headings + [ParsedHeading(depth, "", "", isInherited)];
    assert headings[..|o.headings|] == o.headings;
    WithBreakIsUnbroken(o.allContentText);
    UnbrokenEmpty();
    assert Gathered(headings) == Gathered(o.headings) + "" + "" == Gathered(o.headings);
    assert Unbroken(o.allContentText) + "" == Unbroken(o.allContentText);
    assert Marks(headings) == Marks(o.headings) + [Mark(depth, isInherited)];
  }

  lemma ContinuesInTurn(a: Output, b: Output, c: Output, inHeading: bool, s: string, t: string, m: seq<Mark>,
                        k: seq<Mark>)
    requires Continues(a, b, inHeading, s, m) && Continues(b, c, inHeading, t, k)
    ensures Continues(a, c, inHeading, s + t, m + k)
  {
    hide Unbroken, Gathered, Marks;
    UnbrokenConcat(s, t);
    assert Unbroken(a.allContentText) + Unbroken(s) + Unbroken(t)
        == Unbroken(a.allContentText) + (Unbroken(s) + Unbroken(t));
    assert Marks(a.headings) + m + k == Marks(a.headings) + (m + k);
  }

  lemma CloseContinues(o: Output, st: State, name: Option<string>)
    requires Conserves(o, st.isInHeading)
    ensures Close(o, st, name).Some? <==> (BreaksAtEnd(name) ==> !st.isInHeading)
    ensures Close(o, st, name).Some? ==> Continues(o, Close(o, st, name).value, st.isInHeading, Closing(name), [])
  {
    hide Unbroken, Gathered, Marks, AddText, BreakText, Continues;
    AddTextContinues(o, st, Closing(name));
    BreakTextContinues(o, st);
    EmptyFront(".", []);
    EmptyBack(":");
    if name == Some("ApiHeading") {
      var o1 := AddText(o, st, ":");
      ContinuesConserves(o, o1, st.isInHeading, ":", []);
      BreakTextContinues(o1, st);
      if !st.isInHeading {
        ContinuesInTurn(o, o1, BreakText(o1, st).value, false, ":", "", [], []);
      }
    } else if name == Some("ParametersTable") {
      if !st.isInHeading {
        var o1 := BreakText(o, st).value;
        ContinuesConserves(o, o1, false, "", []);
        AddTextContinues(o1, st, ".");
        ContinuesInTurn(o, o1, AddText(o1, st, "."), false, "", ".", [], []);
      }
    } else if Closing(name) == "" {
      StandStill(o, st.isInHeading);
    }
  }

  lemma StandStill(o: Output, inHeading: bool)
    requires Conserves(o, inHeading)
    ensures Continues(o, o, inHeading, "", [])
  {
    UnbrokenEmpty();
    assert Unbroken(o.allContentText) + "" == Unbroken(o.allContentText);
    assert Marks(o.headings) + [] == Marks(o.headings);
  }

  lemma ExpectedConcat(a: seq<Place>, b: seq<Place>)
    ensures ExpectedMarks(a + b) == ExpectedMarks(a) + ExpectedMarks(b)
  {
  }

  lemma UnderOneMore(ancestors: seq<Node>, node: Node)
    ensures UnderInherited(ancestors + [node]) <==> UnderInherited(ancestors) || InheritedTitle(node)
  {
    var more := ancestors + [node];
    if InheritedTitle(node) {
      assert InheritedTitle(more[|ancestors|]);
    }
    if UnderInherited(ancestors) {
      var i :| 0 <= i < |ancestors| && InheritedTitle(ancestors[i]);
      assert InheritedTitle(more[i]);
    }
  }

  lemma {:induction false} WalkLaw(node: Node, st: State, o: Output, ancestors: seq<Node>)
    requires o.headings != [] && Conserves(o, st.isInHeading) && st.isInherited == UnderInherited(ancestors)
    ensures Walk(node, st, o).Some? <==> Walkable(node, st.isInHeading)
    ensures Walk(node, st, o).Some? ==>
              Continues(o, Walk(node, st, o).value, st.isInHeading, TextOf(node),
                        ExpectedMarks(HeadingsIn(node, ancestors)))
    decreases node, 1
  {
    hide Unbroken, Gathered, Marks, Conserves, Continues, BreakText, AddText, UnderInherited, ExpectedMarks, Close,
        InheritanceOf;
    assert ExpectedMarks([]) == [] by { ExpectedNone(); }
    UnderOneMore(ancestors, node);
    match node {
      case Heading(depth, children) => HeadingLaw(node, st, o, ancestors);
      case Text(value) => AddTextContinues(o, st, value);
      case Block(children) =>
        BreakTextContinues(o, st);
        if !st.isInHeading {
          var o1 := BreakText(o, st).value;
          ContinuesConserves(o, o1, false, "", []);
          AllLaw(children, st, o1, ancestors + [node]);
          if WalkAll(children, st, o1).Some? {
            ContinuesInTurn(o, o1, WalkAll(children, st, o1).value, false, "", TextOfAll(children), [],
                            ExpectedMarks(HeadingsInAll(children, ancestors + [node])));
            EmptyFront(TextOfAll(children), ExpectedMarks(HeadingsInAll(children, ancestors + [node])));
          }
        }
      case Code => StandStill(o, st.isInHeading);
      case Jsx(flow, name, attributes, children) =>
        if flow {
          BreakTextContinues(o, st);
          if !st.isInHeading {
            var o1 := BreakText(o, st).value;
            ContinuesConserves(o, o1, false, "", []);
            ElementLaw(node, st, o1, ancestors);
            if Element(node, st, o1).Some? {
              ContinuesInTurn(o, o1, Element(node, st, o1).value, false, "", TextOf(node), [],
                              ExpectedMarks(HeadingsIn(node, ancestors)));
              EmptyFront(TextOf(node), ExpectedMarks(HeadingsIn(node, ancestors)));
            }
          }
        } else {
          ElementLaw(node, st, o, ancestors);
        }
      case Other(children) => AllLaw(children, st, o, ancestors + [node]);
    }
  }

  lemma ExpectedNone()
    ensures ExpectedMarks([]) == []
  {
  }

  lemma EmptyFront(text: string, marks: seq<Mark>)
    ensures "" + text == text && [] + marks == marks
  {
  }

  lemma {:induction false} HeadingLaw(node: Node, st: State, o: Output, ancestors: seq<Node>)
    requires node.Heading? && Conserves(o, st.isInHeading) && st.isInherited == UnderInherited(ancestors)
    ensures Walk(node, st, o).Some? <==> Walkable(node, st.isInHeading)
    ensures Walk(node, st, o).Some? ==>
              Continues(o, Walk(node, st, o).value, st.isInHeading, TextOf(node),
                        ExpectedMarks(HeadingsIn(node, ancestors)))
    decreases node, 0
  {
    hide Unbroken, Gathered, Marks, UnderInherited, ExpectedMarks;
    var o1 := Output(o.headings + [ParsedHeading(node.depth, "", "", st.isInherited)], o.allContentText + BREAK);
    var st1, places := st.(isInHeading := true), HeadingsInAll(node.children, ancestors + [node]);
    NewHeadingContinues(o, node.depth, st.isInherited);
    UnderOneMore(ancestors, node);
    AllLaw(node.children, st1, o1, ancestors + [node]);
    if WalkAll(node.children, st1, o1).Some? {
      var o2 := WalkAll(node.children, st1, o1).value;
      ContinuesInTurn(o, o1, o2, true, "", TextOfAll(node.children), [Mark(node.depth, st.isInherited)],
          ExpectedMarks(places));
      ExpectedConcat([Place(node.depth, ancestors)], places);
      ExpectedOne(node.depth, ancestors);
      EmptyFront(TextOfAll(node.children), []);
    }
  }

  lemma ExpectedOne(depth: nat, ancestors: seq<Node>)
    ensures ExpectedMarks([Place(depth, ancestors)]) == [Mark(depth, UnderInherited(ancestors))]
  {
  }

  /** What the walk does with an element after the break of a flow element. */
  function Element(node: Node, st: State, o: Output): Option<Output>
    requires node.Jsx? && o.headings != []
  {
    Walk(node.(flow := false), st, o)
  }

  lemma {:induction false} ElementLaw(node: Node, st: State, o: Output, ancestors: seq<Node>)
    requires node.Jsx? && Conserves(o, st.isInHeading) && st.isInherited == UnderInherited(ancestors)
    ensures Element(node, st, o).Some? <==> Walkable(node.(flow := false), st.isInHeading)
    ensures Element(node, st, o).Some? ==>
              Continues(o, Element(node, st, o).value, st.isInHeading, TextOf(node),
                        ExpectedMarks(HeadingsIn(node, ancestors)))
    decreases node, 0
  {
    hide Unbroken, Gathered, Marks, Continues, AddText, UnderInherited, ExpectedMarks, Close, InheritanceOf,
        IsTableOfContents, LeftOut, GivesParent, GivesNull;
    var name, children := node.name, node.children;
    ExpectedNone();
    InheritanceIs(node.attributes);
    LeftOutIs(name, node.attributes);
    assert Before(name) == Opening(name);
    if IsTableOfContents(name, node.attributes) {
      StandStill(o, st.isInHeading);
    } else {
      UnderOneMore(ancestors, node);
      var places := HeadingsInAll(children, ancestors + [node]);
      if name == Some("ApiMemberTitle") {
        var st1 := if InheritedTitle(node) then st.(isInherited := true) else st;
        AllLaw(children, st1, o, ancestors + [node]);
        EmptyFront(TextOfAll(children), []);
        EmptyBack(TextOfAll(children));
      } else {
        var o1 := if Opening(name) == "" then o else AddText(o, st, Opening(name));
        AddTextContinues(o, st, Opening(name));
        StandStill(o, st.isInHeading);
        assert Continues(o, o1, st.isInHeading, Opening(name), []);
        assert Conserves(o1, st.isInHeading) by { ContinuesConserves(o, o1, st.isInHeading, Opening(name), []); }
        AllLaw(children, st, o1, ancestors + [node]);
        if WalkAll(children, st, o1).Some? {
          var o2 := WalkAll(children, st, o1).value;
          ContinuesInTurn(o, o1, o2, st.isInHeading, Opening(name), TextOfAll(children), [], ExpectedMarks(places));
          ContinuesConserves(o1, o2, st.isInHeading, TextOfAll(children), ExpectedMarks(places));
          CloseContinues(o2, st, name);
          if Close(o2, st, name).Some? {
            ContinuesInTurn(o, o2, Close(o2, st, name).value, st.isInHeading, Opening(name) + TextOfAll(children),
                            Closing(name), [] + ExpectedMarks(places), []);
            EmptyMarks(ExpectedMarks(places));
          }
        }
      }
    }
  }

  lemma EmptyBack(text: string)
    ensures text + "" == text
  {
  }

  lemma EmptyMarks(marks: seq<Mark>)
    ensures [] + marks + [] == marks
  {
  }

  lemma ContinuesConserves(o: Output, o': Output, inHeading: bool, text: string, marks: seq<Mark>)
    requires Continues(o, o', inHeading, text, marks)
    ensures Conserves(o', inHeading)
  {
  }

  lemma {:induction false} AllLaw(nodes: seq<Node>, st: State, o: Output, ancestors: seq<Node>)
    requires o.headings != [] && Conserves(o, st.isInHeading) && st.isInherited == UnderInherited(ancestors)
    ensures WalkAll(nodes, st, o).Some? <==> AllWalkable(nodes, st.isInHeading)
    ensures WalkAll(nodes, st, o).Some? ==>
              Continues(o, WalkAll(nodes, st, o).value, st.isInHeading, TextOfAll(nodes),
                        ExpectedMarks(HeadingsInAll(nodes, ancestors)))
    decreases nodes, 0
  {
    hide Unbroken, Gathered, Marks, Continues, UnderInherited, ExpectedMarks, Walk, Walkable, TextOf, HeadingsIn,
        Conserves;
    if nodes == [] {
      ExpectedNone();
      StandStill(o, st.isInHeading);
    } else {
      WalkLaw(nodes[0], st, o, ancestors);
      if Walk(nodes[0], st, o).Some? {
        var o1 := Walk(nodes[0], st, o).value;
        var first, rest := HeadingsIn(nodes[0], ancestors), HeadingsInAll(nodes[1..], ancestors);
        ContinuesConserves(o, o1, st.isInHeading, TextOf(nodes[0]), ExpectedMarks(first));
        AllLaw(nodes[1..], st, o1, ancestors);
        if WalkAll(nodes[1..], st, o1).Some? {
          ContinuesInTurn(o, o1, WalkAll(nodes[1..], st, o1).value, st.isInHeading, TextOf(nodes[0]),
                          TextOfAll(nodes[1..]), ExpectedMarks(first), ExpectedMarks(rest));
          ExpectedConcat(first, rest);
        }
      }
    }
  }

  /**
   The whole page: the walk succeeds exactly on walkable trees.  Its headings are the headings of the
   tree in reading order, each marked as inherited exactly when it lies under an inherited
   ApiMemberTitle; and the text of the page, the text of all headings with the initial one, and the text
   of the tree are the same up to line breaks.
   */
  lemma WalkOfPage(page: Node)
    ensures Walk(page, TOP, START).Some? <==> Walkable(page, false)
    ensures Walk(page, TOP, START).Some? ==>
              var o := Walk(page, TOP, START).value;
              && Marks(o.headings[1..]) == ExpectedMarks(HeadingsIn(page, []))
              && Unbroken(Gathered(o.headings)) == Unbroken(o.allContentText) == Unbroken(TextOf(page))
  {
    hide ExpectedMarks, Walk, HeadingsIn, TextOf, Walkable;
    assert START.headings[..0] == [] && Gathered(START.headings) == "" + "" + "";
    WalkLaw(page, TOP, START, []);
    if Walk(page, TOP, START).Some? {
      var o := Walk(page, TOP, START).value;
      var marks := ExpectedMarks(HeadingsIn(page, []));
      assert Marks(o.headings) == Marks(START.headings) + marks;
      assert Marks(o.headings[1..]) == Marks(o.headings)[1..] == marks;
      assert Unbroken("") + Unbroken(TextOf(page)) == Unbroken(TextOf(page));
    }
  }
}
