/**
 The walk that splits a page into headings and their text (apps/docs/utils/parse-markdown.tsx), over
 the syntax tree of the page.
 */
module ParseMarkdown {
  import opened Prelude

  datatype AttributeValue = NoValue | Literal(s: string) | Expression(s: string)

  /** A spread expression among the attributes has no name. */
  datatype Attribute = Named(name: string, value: AttributeValue) | Spread

  datatype Node =
    | Heading(depth: nat, children: seq<Node>)
    | Text(value: string)                // text and inlineCode
    | Block(children: seq<Node>)         // blockquote and paragraph
    | Code
    | Jsx(flow: bool, name: Option<string>, attributes: seq<Attribute>, children: seq<Node>)
    | Other(children: seq<Node>)

  datatype ParsedHeading = ParsedHeading(level: nat, title: string, contentText: string, isInherited: bool)

  datatype State = State(isInHeading: bool, isInherited: bool)

  const BREAK := "\n\n"
  const TABLE_OF_CONTENTS_CLASSNAME := "article__table-of-contents"

  predicate EndsWithBreak(s: string) {
    |s| >= 2 && s[|s| - 2..] == BREAK
  }

  function WithBreak(s: string): string {
    if EndsWithBreak(s) then s else s + BREAK
  }

  predicate IsTableOfContents(name: Option<string>, attributes: seq<Attribute>) {
    name == Some("details")
    && exists i | 0 <= i < |attributes| :: attributes[i] == Named("className", Literal(TABLE_OF_CONTENTS_CLASSNAME))
  }

  datatype Inheritance = BadAttribute | Inherited | Own

  /** What the first attribute named inherited of an ApiMemberTitle says. */
  function InheritanceOf(attributes: seq<Attribute>): Inheritance {
    if attributes == [] then BadAttribute
    else if attributes[0].Named? && attributes[0].name == "inherited" then
      match attributes[0].value
      case Expression(s) => if s != "null" then Inherited else Own
      case _ => BadAttribute
    else InheritanceOf(attributes[1..])
  }

  function Opening(name: Option<string>): string {
    if name == Some("ParametersTableDescription") then "(" else ""
  }

  // ---------------------------------------------------------------- the walk

  datatype Output = Output(headings: seq<ParsedHeading>, allContentText: string)

  function AddText(o: Output, st: State, text: string): (o': Output)
    requires o.headings != []
    ensures |o'.headings| == |o.headings|
  {
    var n := |o.headings| - 1;
    var h := o.headings[n];
    var h' := if st.isInHeading then h.(title := h.title + text) else h.(contentText := h.contentText + text);
    Output(o.headings[n := h'], o.allContentText + text)
  }

  /** None when the assertion that we are not inside a heading fails. */
  function BreakText(o: Output, st: State): (r: Option<Output>)
    requires o.headings != []
    ensures r.Some? ==> |r.value.headings| == |o.headings|
  {
    var n := |o.headings| - 1;
    var h := o.headings[n];
    if st.isInHeading then None
    else Some(Output(o.headings[n := h.(contentText := WithBreak(h.contentText))], WithBreak(o.allContentText)))
  }

  /** The text after the children of an element, with the breaks around it. */
  function Close(o: Output, st: State, name: Option<string>): (r: Option<Output>)
    requires o.headings != []
    ensures r.Some? ==> |r.value.headings| == |o.headings|
  {
    if name == Some("ApiHeading") then BreakText(AddText(o, st, ":"), st)
    else if name == Some("ParametersTableDescription") then Some(AddText(o, st, ")"))
    else if name == Some("ParametersTableRow") then Some(AddText(o, st, ","))
    else if name == Some("ParametersTable") then
      match BreakText(o, st)
      case None => None
      case Some(o') => Some(AddText(o', st, "."))
    else Some(o)
  }

  function Walk(node: Node, st: State, o: Output): (r: Option<Output>)
    requires o.headings != []
    ensures r.Some? ==> r.value.headings != []
    decreases node, 1
  {
    match node
    case Heading(depth, children) =>
      WalkAll(children, st.(isInHeading := true),
              Output(o.headings + [ParsedHeading(depth, "", "", st.isInherited)], o.allContentText + BREAK))
    case Text(value) => Some(AddText(o, st, value))
    case Block(children) =>
      (match BreakText(o, st)
       case None => None
       case Some(o1) => WalkAll(children, st, o1))
    case Code => Some(o)
    case Jsx(flow, name, attributes, children) =>
      (match if flow then BreakText(o, st) else Some(o)
       case None => None
       case Some(o1) =>
         if IsTableOfContents(name, attributes) then Some(o1)
         else if name == Some("ApiMemberTitle") then
           match InheritanceOf(attributes)
           case BadAttribute => None
           case Inherited => WalkAll(children, st.(isInherited := true), o1)
           case Own => WalkAll(children, st, o1)
         else
           match WalkAll(children, st, if Opening(name) == "" then o1 else AddText(o1, st, Opening(name)))
           case None => None
           case Some(o2) => Close(o2, st, name))
    case Other(children) => WalkAll(children, st, o)
  }

  function WalkAll(nodes: seq<Node>, st: State, o: Output): (r: Option<Output>)
    requires o.headings != []
    ensures r.Some? ==> r.value.headings != []
    decreases nodes, 0
  {
    if nodes == [] then Some(o)
    else
      match Walk(nodes[0], st, o)
      case None => None
      case Some(o') => WalkAll(nodes[1..], st, o')
  }

  const START := Output([ParsedHeading(0, "", "", false)], "")
  const TOP := State(false, false)

  /** The code; a visit returns false where the code throws, and the walk is then abandoned. */
  class MarkdownWalk {
    var headings: seq<ParsedHeading>
    var allContentText: string

    constructor ()
      ensures Output(headings, allContentText) == START
    {
      headings, allContentText := [ParsedHeading(0, "", "", false)], "";
    }

    function Now(): Output
      reads this
    {
      Output(headings, allContentText)
    }

    ghost predicate Went(r: Option<Output>, ok: bool)
      reads this
    {
      ok == r.Some? && (ok ==> Now() == r.value)
    }

    method Add(text: string, st: State)
      requires headings != []
      modifies this
      ensures Now() == AddText(old(Now()), st, text)
    {
      var n := |headings| - 1;
      if st.isInHeading {
        headings := headings[n := headings[n].(title := headings[n].title + text)];
      } else {
        headings := headings[n := headings[n].(contentText := headings[n].contentText + text)];
      }
      allContentText := allContentText + text;
    }

    method Break(st: State) returns (ok: bool)
      requires headings != []
      modifies this
      ensures Went(BreakText(old(Now()), st), ok)
    {
      if st.isInHeading {
        return false;
      }
      var n := |headings| - 1;
      var current := headings[n];
      if !EndsWithBreak(current.contentText) {
        headings := headings[n := current.(contentText := current.contentText + BREAK)];
      }
      if !EndsWithBreak(allContentText) {
        allContentText := allContentText + BREAK;
      }
      ok := true;
    }

    method VisitChildren(nodes: seq<Node>, st: State) returns (ok: bool)
      requires headings != []
      modifies this
      ensures Went(WalkAll(nodes, st, old(Now())), ok)
      decreases nodes, 0
    {
      ghost var start := Now();
      for i := 0 to |nodes|
        invariant headings != []
        invariant WalkAll(nodes[i..], st, Now()) == WalkAll(nodes, st, start)
      {
        assert nodes[i..][0] == nodes[i] && nodes[i..][1..] == nodes[i + 1..];
        ok := Visit(nodes[i], st);
        if !ok {
          return;
        }
      }
      ok := true;
    }

    method Visit(node: Node, st: State) returns (ok: bool)
      requires headings != []
      modifies this
      ensures Went(Walk(node, st, old(Now())), ok)
      decreases node, 1
    {
      match node {
        case Heading(depth, children) =>
          allContentText := allContentText + BREAK;
          headings := headings + [ParsedHeading(depth, "", "", st.isInherited)];
          ok := VisitChildren(children, st.(isInHeading := true));
        case Text(value) =>
          Add(value, st);
          ok := true;
        case Block(children) =>
          ok := Break(st);
          if ok {
            ok := VisitChildren(children, st);
          }
        case Code => ok := true;
        case Jsx(flow, name, attributes, children) =>
          if flow {
            ok := Break(st);
            if !ok {
              return;
            }
          }
          if IsTableOfContents(name, attributes) {
            return true;
          }
          if name == Some("ApiMemberTitle") {
            var inheritance := InheritanceOf(attributes);
            if inheritance == BadAttribute {
              return false;
            }
            if inheritance == Inherited {
              ok := VisitChildren(children, st.(isInherited := true));
              return;
            }
          }
          if name == Some("ParametersTableDescription") {
            Add("(", st);
          }
          ok := VisitChildren(children, st);
          if !ok {
            return;
          }
          ok := VisitEnd(name, st);
        case Other(children) => ok := VisitChildren(children, st);
      }
    }

    method VisitEnd(name: Option<string>, st: State) returns (ok: bool)
      requires headings != []
      modifies this
      ensures Went(Close(old(Now()), st, name), ok)
    {
      ok := true;
      if name == Some("ApiHeading") {
        Add(":", st);
        ok := Break(st);
        if !ok {
          return;
        }
      }
      if name == Some("ParametersTableDescription") {
        Add(")", st);
      }
      if name == Some("ParametersTableRow") {
        Add(",", st);
      }
      if name == Some("ParametersTable") {
        ok := Break(st);
        if !ok {
          return;
        }
        Add(".", st);
      }
    }
  }
}
