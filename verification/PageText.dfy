/**
 The text of a page to the letter, breaks included: the page is read as one list of words, pauses and headings,
 and what the walk puts into each heading is read off that list.
 */
module PageText {
  import opened Prelude
  import opened ParseMarkdown
  import opened ParseMarkdownLaws

  // ---------------------------------------------------------------- the page as a list

  datatype Item =
    | Words(text: string, inTitle: bool)
    | Pause                                  // the text pauses here, unless it has just done so
    | Start(level: nat, isInherited: bool)   // a heading begins

  function Said(text: string, inTitle: bool): seq<Item> {
    if text == "" then [] else [Words(text, inTitle)]
  }

  /** What is said after the children of an element. */
  function Ending(name: Option<string>, inTitle: bool): seq<Item> {
    if name == Some("ApiHeading") then [Words(":", inTitle), Pause]
    else if name == Some("ParametersTableDescription") then [Words(")", inTitle)]
    else if name == Some("ParametersTableRow") then [Words(",", inTitle)]
    else if name == Some("ParametersTable") then [Pause, Words(".", inTitle)]
    else []
  }

  ghost function Items(node: Node, inTitle: bool, inherited: bool): seq<Item>
    decreases node, 1
  {
    match node
    case Heading(depth, children) => [Start(depth, inherited)] + ItemsOfAll(children, true, inherited)
    case Text(value) => [Words(value, inTitle)]
    case Block(children) => [Pause] + ItemsOfAll(children, inTitle, inherited)
    case Code => []
    case Jsx(flow, name, attributes, children) =>
      (if flow then [Pause] else [])
      + (if LeftOut(name, attributes) then []
         else if name == Some("ApiMemberTitle") then
           ItemsOfAll(children, inTitle, inherited || GivesParent(attributes))
         else
           Said(Before(name), inTitle) + ItemsOfAll(children, inTitle, inherited) + Ending(name, inTitle))
    case Other(children) => ItemsOfAll(children, inTitle, inherited)
  }

  ghost function ItemsOfAll(nodes: seq<Node>, inTitle: bool, inherited: bool): seq<Item>
    decreases nodes, 0
  {
    if nodes == [] then [] else Items(nodes[0], inTitle, inherited) + ItemsOfAll(nodes[1..], inTitle, inherited)
  }

  /** A text with a pause after it: it ends with an empty line. */
  function Paused(text: string): (paused: string)
    ensures text <= paused && |paused| <= |text| + 2
    ensures |paused| >= 2 && paused[|paused| - 2..] == "\n\n"
    ensures |text| >= 2 && text[|text| - 2..] == "\n\n" ==> paused == text
  {
    if |text| >= 2 && text[|text| - 2] == text[|text| - 1] == '\n' then text else text + "\n\n"
  }

  /** The text of all items, with an empty line in front of each heading. */
  function AllText(text: string, items: seq<Item>): string
    decreases |items|
  {
    if items == [] then text
    else
      AllText(match items[0]
              case Words(s, _) => text + s
              case Pause => Paused(text)
              case Start(_, _) => text + "\n\n",
              items[1..])
  }

  /** What is said in the title before the next heading. */
  function TitleText(items: seq<Item>): string {
    if items == [] || items[0].Start? then ""
    else (if items[0].Words? && items[0].inTitle then items[0].text else "") + TitleText(items[1..])
  }

  /** What is said below the title before the next heading, with its pauses. */
  function BodyText(text: string, items: seq<Item>): string
    decreases |items|
  {
    if items == [] || items[0].Start? then text
    else
      BodyText(match items[0]
               case Words(s, inTitle) => if inTitle then text else text + s
               case Pause => Paused(text),
               items[1..])
  }

  /** The headings that begin in the items. */
  function Headings(items: seq<Item>): seq<ParsedHeading> {
    if items == [] then []
    else if items[0].Start? then
      [ParsedHeading(items[0].level, TitleText(items[1..]), BodyText("", items[1..]), items[0].isInherited)]
      + Headings(items[1..])
    else Headings(items[1..])
  }

  // ---------------------------------------------------------------- the walk goes through the list

  function Step(o: Output, item: Item): (o': Output)
    requires o.headings != []
    ensures o'.headings != []
  {
    var n := |o.headings| - 1;
    var h := o.headings[n];
    match item
    case Words(s, true) => Output(o.headings[n := h.(title := h.title + s)], o.allContentText + s)
    case Words(s, false) => Output(o.headings[n := h.(contentText := h.contentText + s)], o.allContentText + s)
    case Pause => Output(o.headings[n := h.(contentText := Paused(h.contentText))], Paused(o.allContentText))
    case Start(level, isInherited) =>
      Output(o.headings + [ParsedHeading(level, "", "", isInherited)], o.allContentText + "\n\n")
  }

  function Follow(o: Output, items: seq<Item>): (o': Output)
    requires o.headings != []
    ensures o'.headings != []
    decreases |items|
  {
    if items == [] then o else Follow(Step(o, items[0]), items[1..])
  }

  lemma {:induction false} FollowConcat(o: Output, a: seq<Item>, b: seq<Item>)
    requires o.headings != []
    ensures Follow(o, a + b) == Follow(Follow(o, a), b)
    decreases |a|
  {
    if a == [] {
      assert a + b == b;
    } else {
      hide Step;
      assert (a + b)[1..] == a[1..] + b;
      FollowConcat(Step(o, a[0]), a[1..], b);
    }
  }

  lemma FollowOne(o: Output, item: Item)
    requires o.headings != []
    ensures Follow(o, [item]) == Step(o, item)
  {
    assert [item][1..] == [];
  }

  lemma PausedIsBreak(text: string)
    ensures Paused(text) == WithBreak(text)
  {
    if |text| >= 2 {
      assert text[|text| - 2..] == [text[|text| - 2], text[|text| - 1]];
    }
  }

  lemma AddTextIsStep(o: Output, st: State, s: string)
    requires o.headings != []
    ensures AddText(o, st, s) == Step(o, Words(s, st.isInHeading))
  {
  }

  lemma BreakTextIsStep(o: Output, st: State)
    requires o.headings != []
    ensures BreakText(o, st) == if st.isInHeading then None else Some(Step(o, Pause))
  {
    PausedIsBreak(o.headings[|o.headings| - 1].contentText);
    PausedIsBreak(o.allContentText);
  }

  lemma CloseIsFollow(o: Output, st: State, name: Option<string>)
    requires o.headings != []
    ensures Close(o, st, name)
            == if BreaksAtEnd(name) && st.isInHeading then None else Some(Follow(o, Ending(name, st.isInHeading)))
  {
    hide Step, AddText, BreakText, Follow;
    var inTitle := st.isInHeading;
    if name == Some("ApiHeading") {
      AddTextIsStep(o, st, ":");
      BreakTextIsStep(Step(o, Words(":", inTitle)), st);
      FollowTwo(o, Words(":", inTitle), Pause);
    } else if name == Some("ParametersTableDescription") {
      AddTextIsStep(o, st, ")");
      FollowOne(o, Words(")", inTitle));
    } else if name == Some("ParametersTableRow") {
      AddTextIsStep(o, st, ",");
      FollowOne(o, Words(",", inTitle));
    } else if name == Some("ParametersTable") {
      BreakTextIsStep(o, st);
      AddTextIsStep(Step(o, Pause), st, ".");
      FollowTwo(o, Pause, Words(".", inTitle));
    } else {
      FollowNothing(o);
    }
  }

  lemma FollowNothing(o: Output)
    requires o.headings != []
    ensures Follow(o, []) == o
  {
  }

  lemma FollowTwo(o: Output, a: Item, b: Item)
    requires o.headings != []
    ensures Follow(o, [a, b]) == Step(Step(o, a), b)
  {
    hide Follow, Step;
    assert [a, b][1..] == [b];
    FollowFirst(o, [a, b]);
    FollowOne(Step(o, a), b);
  }

  lemma {:induction false} WalkFollows(node: Node, st: State, o: Output)
    requires o.headings != [] && Walkable(node, st.isInHeading)
    ensures Walk(node, st, o) == Some(Follow(o, Items(node, st.isInHeading, st.isInherited)))
    decreases node, 1
  {
    hide Follow, Step, AddText, BreakText, Close, InheritanceOf, LeftOut, GivesParent, GivesNull, IsTableOfContents;
    match node {
      case Heading(depth, children) =>
        FollowOne(o, Start(depth, st.isInherited));
        assert Step(o, Start(depth, st.isInherited))
            == Output(o.headings + [ParsedHeading(depth, "", "", st.isInherited)], o.allContentText + BREAK) by {
          StartIsStep(o, depth, st.isInherited);
        }
        FollowConcat(o, [Start(depth, st.isInherited)], ItemsOfAll(children, true, st.isInherited));
        AllFollow(children, st.(isInHeading := true), Step(o, Start(depth, st.isInherited)));
      case Text(value) =>
        AddTextIsStep(o, st, value);
        FollowOne(o, Words(value, st.isInHeading));
      case Block(children) =>
        BreakTextIsStep(o, st);
        FollowOne(o, Pause);
        FollowConcat(o, [Pause], ItemsOfAll(children, st.isInHeading, st.isInherited));
        AllFollow(children, st, Step(o, Pause));
      case Code => FollowNothing(o);
      case Jsx(flow, name, attributes, children) =>
        var items := Items(node.(flow := false), st.isInHeading, st.isInherited);
        if flow {
          BreakTextIsStep(o, st);
          FollowOne(o, Pause);
          FollowConcat(o, [Pause], items);
          ElementFollows(node, st, Step(o, Pause));
          assert Items(node, st.isInHeading, st.isInherited) == [Pause] + items;
        } else {
          ElementFollows(node, st, o);
        }
      case Other(children) => AllFollow(children, st, o);
    }
  }

  lemma StartIsStep(o: Output, depth: nat, isInherited: bool)
    requires o.headings != []
    ensures Step(o, Start(depth, isInherited))
            == Output(o.headings + [ParsedHeading(depth, "", "", isInherited)], o.allContentText + BREAK)
  {
  }

  lemma {:induction false} ElementFollows(node: Node, st: State, o: Output)
    requires node.Jsx? && o.headings != [] && Walkable(node.(flow := false), st.isInHeading)
    ensures Walk(node.(flow := false), st, o)
            == Some(Follow(o, Items(node.(flow := false), st.isInHeading, st.isInherited)))
    decreases node, 0
  {
    hide Follow, Step, AddText, Close, InheritanceOf, LeftOut, GivesParent, GivesNull, IsTableOfContents;
    var name, attributes, children := node.name, node.attributes, node.children;
    var inTitle, inherited := st.isInHeading, st.isInherited;
    LeftOutIs(name, attributes);
    InheritanceIs(attributes);
    var items := Items(node.(flow := false), inTitle, inherited);
    if LeftOut(name, attributes) {
      FollowNothing(o);
      assert items == [];
    } else if name == Some("ApiMemberTitle") {
      var st' := if GivesParent(attributes) then st.(isInherited := true) else st;
      AllFollow(children, st', o);
      assert items == ItemsOfAll(children, inTitle, st'.isInherited);
    } else {
      var before, inside, end := Said(Before(name), inTitle), ItemsOfAll(children, inTitle, inherited),
          Ending(name, inTitle);
      assert items == before + inside + end;
      FollowConcat(o, before + inside, end);
      FollowConcat(o, before, inside);
      FollowNothing(o);
      FollowOne(o, Words(Before(name), inTitle));
      AddTextIsStep(o, st, Before(name));
      var o1 := Follow(o, before);
      AllFollow(children, st, o1);
      CloseIsFollow(Follow(o1, inside), st, name);
    }
  }

  lemma {:induction false} AllFollow(nodes: seq<Node>, st: State, o: Output)
    requires o.headings != [] && AllWalkable(nodes, st.isInHeading)
    ensures WalkAll(nodes, st, o) == Some(Follow(o, ItemsOfAll(nodes, st.isInHeading, st.isInherited)))
    decreases nodes, 0
  {
    hide Follow, Step, Walk, Walkable, Items;
    if nodes == [] {
      FollowNothing(o);
    } else {
      var first := Items(nodes[0], st.isInHeading, st.isInherited);
      WalkFollows(nodes[0], st, o);
      AllFollow(nodes[1..], st, Follow(o, first));
      FollowConcat(o, first, ItemsOfAll(nodes[1..], st.isInHeading, st.isInherited));
    }
  }

  // ---------------------------------------------------------------- what comes of the list

  lemma StepAtEnd(o: Output, item: Item)
    requires o.headings != []
    ensures var n, o1 := |o.headings| - 1, Step(o, item);
            var n1 := |o1.headings| - 1;
            var h, h1 := o.headings[n], o1.headings[n1];
            if item.Start? then
              o1.headings[..n1] == o.headings && h1 == ParsedHeading(item.level, "", "", item.isInherited)
            else && o1.headings[..n1] == o.headings[..n] && h1.level == h.level && h1.isInherited == h.isInherited
                 && h1.title == (if item.Words? && item.inTitle then h.title + item.text else h.title)
                 && h1.contentText == (if item.Pause? then Paused(h.contentText)
                                       else if item.inTitle then h.contentText else h.contentText + item.text)
  {
    hide Paused;
  }

  lemma TextFirst(title: string, text: string, items: seq<Item>)
    requires items != []
    ensures var item, rest := items[0], items[1..];
            if item.Start? then
              && TitleText(items) == "" && BodyText(text, items) == text
              && Headings(items) == [ParsedHeading(item.level, TitleText(rest), BodyText("", rest), item.isInherited)]
                                    + Headings(rest)
            else
              && title + TitleText(items) == (if item.Words? && item.inTitle then title + item.text else title)
                                             + TitleText(rest)
              && BodyText(text, items) == BodyText(if item.Pause? then Paused(text)
                                                   else if item.inTitle then text else text + item.text, rest)
              && Headings(items) == Headings(rest)
  {
    hide Paused;
    var item, rest := items[0], items[1..];
    if !item.Start? && item.Words? && item.inTitle {
      assert title + item.text + TitleText(rest) == title + (item.text + TitleText(rest));
    } else {
      assert "" + TitleText(rest) == TitleText(rest);
    }
  }

  /** The heading at hand is completed by the items before the next one, and then come the headings in the items. */
  lemma {:induction false} FollowHeadings(o: Output, items: seq<Item>)
    requires o.headings != []
    ensures var n := |o.headings| - 1; var h := o.headings[n];
            Follow(o, items).headings
            == o.headings[..n]
               + [ParsedHeading(h.level, h.title + TitleText(items), BodyText(h.contentText, items), h.isInherited)]
               + Headings(items)
    decreases |items|
  {
    hide Follow, Step, TitleText, BodyText, Headings;
    var n := |o.headings| - 1;
    var h := o.headings[n];
    if items == [] {
      FollowNothing(o);
      NothingSaid(h.contentText);
      assert o.headings == o.headings[..n] + [h] + [] && h.title + "" == h.title;
    } else {
      var item, rest := items[0], items[1..];
      var o1 := Step(o, item);
      FollowHeadings(o1, rest);
      FollowFirst(o, items);
      StepAtEnd(o, item);
      TextFirst(h.title, h.contentText, items);
      if item.Start? {
        var first := [ParsedHeading(item.level, TitleText(rest), BodyText("", rest), item.isInherited)];
        assert "" + TitleText(rest) == TitleText(rest) && h.title + "" == h.title;
        assert o.headings == o.headings[..n] + [h];
        assert o.headings + first + Headings(rest) == o.headings[..n] + [h] + (first + Headings(rest));
      }
    }
  }

  lemma NothingSaid(text: string)
    ensures TitleText([]) == "" && BodyText(text, []) == text && Headings([]) == []
  {
  }

  lemma {:induction false} FollowText(o: Output, items: seq<Item>)
    requires o.headings != []
    ensures Follow(o, items).allContentText == AllText(o.allContentText, items)
    decreases |items|
  {
    hide Paused;
    if items != [] {
      FollowText(Step(o, items[0]), items[1..]);
    }
  }

  lemma FollowFirst(o: Output, items: seq<Item>)
    requires o.headings != [] && items != []
    ensures Follow(o, items) == Follow(Step(o, items[0]), items[1..])
  {
  }

  /**
   The page to the letter: an initial heading without a title for the text before the first heading, and then the
   headings of the list, each with the words of its title and the text below it; and the text of the whole page.
   */
  lemma PageIsItsItems(page: Node)
    requires Walkable(page, false)
    ensures Walk(page, TOP, START).Some?
    ensures var o, items := Walk(page, TOP, START).value, Items(page, false, false);
            && o.headings == [ParsedHeading(0, TitleText(items), BodyText("", items), false)] + Headings(items)
            && o.allContentText == AllText("", items)
  {
    hide Walk, Follow, Walkable, Items, AllText, TitleText, BodyText, Headings;
    WalkFollows(page, TOP, START);
    var items := Items(page, false, false);
    FollowHeadings(START, items);
    FollowText(START, items);
    assert START.headings[..0] == [] && "" + TitleText(items) == TitleText(items);
  }
}
