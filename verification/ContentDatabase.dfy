/**
 The docs site's reader of its content database (apps/docs/utils/ContentDatabase.ts): the sidebar with
 its three caches, and the previous and next links of an article.
 */
module ContentDatabase {
  import opened Prelude

  datatype Behavior = ShowLinks | ShowTitle | Hidden | Reference

  datatype Section = Section(id: string, idx: int, title: string, path: Option<string>, behavior: Behavior)

  datatype Category = Category(id: string, sectionId: string, sectionIndex: int, title: string, path: Option<string>)

  datatype Article = Article(
    id: string, sectionId: string, categoryId: string, groupId: Option<string>,
    sectionIndex: int, categoryIndex: int, title: string, path: Option<string>)

  /** The tables, in the order in which the rows are stored. */
  datatype Tables = Tables(sections: seq<Section>, categories: seq<Category>, articles: seq<Article>)

  // ---------------------------------------------------------------- queries

  function Filter<T>(rows: seq<T>, test: T -> bool): seq<T> {
    if rows == [] then []
    else
      var n := |rows| - 1;
      Filter(rows[..n], test) + if test(rows[n]) then [rows[n]] else []
  }

  function Insert<T>(rows: seq<T>, row: T, key: T -> int): seq<T> {
    if rows == [] || key(row) < key(rows[0]) then [row] + rows
    else [rows[0]] + Insert(rows[1..], row, key)
  }

  /** ORDER BY key ASC; rows with equal keys keep their stored order. */
  function OrderBy<T>(rows: seq<T>, key: T -> int): seq<T> {
    if rows == [] then []
    else Insert(OrderBy(rows[..|rows| - 1], key), rows[|rows| - 1], key)
  }

  /** Where the row with the smallest key stands, the first of several. */
  function FirstIndex<T>(rows: seq<T>, key: T -> int): (i: nat)
    requires rows != []
    ensures i < |rows| && forall j | 0 <= j < |rows| :: key(rows[i]) <= key(rows[j])
    ensures forall j | 0 <= j < i :: key(rows[i]) < key(rows[j])
  {
    var n := |rows| - 1;
    if n == 0 then 0
    else
      var best := FirstIndex(rows[..n], key);
      assert forall j | 0 <= j < n :: rows[..n][j] == rows[j];
      if key(rows[best]) <= key(rows[n]) then best else n
  }

  /** ORDER BY key ASC LIMIT 1. */
  function First<T>(rows: seq<T>, key: T -> int): (r: Option<T>)
    ensures r.None? <==> rows == []
    ensures r.Some? ==> r.value in rows && forall row | row in rows :: key(r.value) <= key(row)
    ensures r.Some? ==>
              exists i :: 0 <= i < |rows| && rows[i] == r.value && forall j | 0 <= j < i :: key(r.value) < key(rows[j])
  {
    if rows == [] then None else Some(rows[FirstIndex(rows, key)])
  }

  lemma {:induction false} FilterHas<T>(rows: seq<T>, test: T -> bool, row: T)
    ensures row in Filter(rows, test) <==> row in rows && test(row)
  {
    if rows != [] {
      FilterHas(rows[..|rows| - 1], test, row);
      assert rows == rows[..|rows| - 1] + [rows[|rows| - 1]];
    }
  }

  // ---------------------------------------------------------------- what the sidebar should hold

  datatype Link =
    | ArticleLink(title: string, url: string, articleId: string, groupId: Option<string>)
    | CategoryLink(title: string, url: string, children: seq<Link>)
    | SectionLink(title: string, url: string, children: seq<Link>)

  /** There is one sidebar for the examples, one for the reference and one for everything else. */
  datatype Kind = Examples | ReferenceDocs | Main

  function KindOf(sectionId: Option<string>): Kind {
    if sectionId == Some("examples") then Examples
    else if sectionId == Some("reference") then ReferenceDocs
    else Main
  }

  predicate HasPath(path: Option<string>) {
    path.Some? && path.value != ""
  }

  function ArticleLinks(articles: seq<Article>): seq<Link> {
    if articles == [] then []
    else
      var n := |articles| - 1;
      var a := articles[n];
      ArticleLinks(articles[..n])
      + if HasPath(a.path) then [ArticleLink(a.title, a.path.value, a.id, a.groupId)] else []
  }

  function ArticlesOf(t: Tables, category: Category): seq<Article> {
    OrderBy(Filter(t.articles, (a: Article) => a.categoryId == category.id), (a: Article) => a.categoryIndex)
  }

  function CategoriesOf(t: Tables, section: Section): seq<Category> {
    OrderBy(Filter(t.categories, (c: Category) => c.sectionId == section.id), (c: Category) => c.sectionIndex)
  }

  function IsUncategorized(section: Section, category: Category): bool {
    category.id == section.id + "_ucg"
  }

  /** The links of the uncategorized articles of the categories, or those of the proper categories. */
  function CategoryLinks(t: Tables, section: Section, categories: seq<Category>, uncategorized: bool): seq<Link> {
    if categories == [] then []
    else
      var n := |categories| - 1;
      var c := categories[n];
      var links := ArticleLinks(ArticlesOf(t, c));
      CategoryLinks(t, section, categories[..n], uncategorized)
      + if IsUncategorized(section, c) then (if uncategorized then links else [])
        else if uncategorized || !HasPath(c.path) then []
        else [CategoryLink(c.title, c.path.value, links)]
  }

  lemma NoCategories(t: Tables, section: Section)
    ensures CategoryLinks(t, section, [], false) == [] && CategoryLinks(t, section, [], true) == []
  {
  }

  lemma CategoryLinksNext(t: Tables, section: Section, categories: seq<Category>, i: nat, uncategorized: bool)
    requires i < |categories|
    ensures var c, before := categories[i], CategoryLinks(t, section, categories[..i], uncategorized);
            var links := ArticleLinks(ArticlesOf(t, c));
            CategoryLinks(t, section, categories[..i + 1], uncategorized)
            == if IsUncategorized(section, c) then (if uncategorized then before + links else before)
               else if uncategorized || !HasPath(c.path) then before
               else before + [CategoryLink(c.title, c.path.value, links)]
  {
    assert categories[..i + 1][..i] == categories[..i];
  }

  predicate Shown(kind: Kind, section: Section): (shown: bool)
    ensures shown ==> HasPath(section.path)
  {
    && HasPath(section.path) && section.behavior != Hidden
    && (kind == ReferenceDocs <==> section.id == "reference")
    && (kind == Examples <==> section.id == "examples")
  }

  function SectionEntry(t: Tables, section: Section): (link: Link)
    requires HasPath(section.path)
    ensures link.SectionLink? <==> section.behavior != ShowTitle
  {
    if section.behavior == ShowTitle then ArticleLink(section.title, section.path.value, section.id, None)
    else
      var categories := CategoriesOf(t, section);
      SectionLink(section.title, section.path.value,
                  CategoryLinks(t, section, categories, false) + CategoryLinks(t, section, categories, true))
  }

  function SectionEntries(t: Tables, kind: Kind, sections: seq<Section>): seq<Link> {
    if sections == [] then []
    else
      var n := |sections| - 1;
      SectionEntries(t, kind, sections[..n]) + if Shown(kind, sections[n]) then [SectionEntry(t, sections[n])] else []
  }

  /** The sidebar, computed from the tables alone. */
  function Sidebar(t: Tables, kind: Kind): seq<Link> {
    SectionEntries(t, kind, OrderBy(t.sections, (s: Section) => s.idx))
  }

  predicate HasSectionLink(links: seq<Link>) {
    exists link | link in links :: link.SectionLink?
  }

  lemma NextLink(links: seq<Link>, link: Link)
    ensures HasSectionLink(links + [link]) <==> HasSectionLink(links) || link.SectionLink?
  {
    assert link in links + [link];
  }

  lemma NoEntries(t: Tables, kind: Kind)
    ensures SectionEntries(t, kind, []) == [] && !HasSectionLink([])
  {
  }

  lemma SectionEntriesNext(t: Tables, kind: Kind, sections: seq<Section>, i: nat)
    requires i < |sections|
    ensures SectionEntries(t, kind, sections[..i + 1])
         == SectionEntries(t, kind, sections[..i])
            + if Shown(kind, sections[i]) then [SectionEntry(t, sections[i])] else []
  {
    assert sections[..i + 1][..i] == sections[..i];
  }

  lemma WholeSidebar(t: Tables, kind: Kind)
    ensures var sections := OrderBy(t.sections, (s: Section) => s.idx);
            SectionEntries(t, kind, sections[..|sections|]) == Sidebar(t, kind)
  {
    var sections := OrderBy(t.sections, (s: Section) => s.idx);
    assert sections[..|sections|] == sections;
  }

  // ---------------------------------------------------------------- the code

  class LinkList {
    var items: seq<Link>

    constructor ()
      ensures items == []
    {
      items := [];
    }
  }

  datatype Links = Links(prev: Option<Article>, next: Option<Article>)

  class ContentDatabase {
    const tables: Tables
    var sidebar: LinkList?
    var referenceSidebar: LinkList?
    var examplesSidebar: LinkList?

    constructor (tables: Tables)
      ensures this.tables == tables && Valid()
      ensures forall kind :: Cached(kind) == null
    {
      this.tables := tables;
      sidebar, referenceSidebar, examplesSidebar := null, null, null;
    }

    function Cached(kind: Kind): LinkList?
      reads this
    {
      match kind
      case Examples => examplesSidebar
      case ReferenceDocs => referenceSidebar
      case Main => sidebar
    }

    ghost predicate CacheAgrees(kind: Kind)
      reads this, Cached(kind)
    {
      Cached(kind) != null ==> Cached(kind).items == Sidebar(tables, kind)
    }

    /** Every cached list is what would be computed now. */
    ghost predicate Valid()
      reads this, sidebar, referenceSidebar, examplesSidebar
    {
      CacheAgrees(Examples) && CacheAgrees(ReferenceDocs) && CacheAgrees(Main)
    }

    /** The list is cached while it still grows; what is cached in the end is the complete list. */
    method GetSidebarContentList(sectionId: Option<string>, development: bool) returns (links: LinkList)
      requires Valid()
      modifies this
      ensures Valid()
      ensures links.items == Sidebar(tables, KindOf(sectionId))
      ensures forall kind | kind != KindOf(sectionId) :: Cached(kind) == old(Cached(kind))
      ensures var kind := KindOf(sectionId);
              Cached(kind) == if old(Cached(kind)) != null && !development then old(Cached(kind))
                              else if HasSectionLink(links.items) then links
                              else old(Cached(kind))
    {
      var cachedLinks :=
        if sectionId == Some("examples") then examplesSidebar
        else if sectionId == Some("reference") then referenceSidebar
        else sidebar;
      if cachedLinks != null && !development {
        return cachedLinks;
      }
      hide SectionEntries, HasSectionLink, Sidebar, OrderBy, Shown, SectionEntry;
      ghost var kind, before := KindOf(sectionId), Cached(KindOf(sectionId));
      links := new LinkList();
      NoEntries(tables, kind);
      var sections := OrderBy(tables.sections, (s: Section) => s.idx);
      for i := 0 to |sections|
        invariant links.items == SectionEntries(tables, kind, sections[..i])
        invariant fresh(links)
        invariant kind != Examples ==> examplesSidebar == old(examplesSidebar)
        invariant kind != ReferenceDocs ==> referenceSidebar == old(referenceSidebar)
        invariant kind != Main ==> sidebar == old(sidebar)
        invariant Cached(kind) == if HasSectionLink(links.items) then links else before
      {
        SectionEntriesNext(tables, kind, sections, i);
        if Shown(kind, sections[i]) {
          NextLink(links.items, SectionEntry(tables, sections[i]));
        }
        AddSection(sections[i], sectionId, links);
      }
      WholeSidebar(tables, kind);
    }

    /** One round of the loop over the sections; returning early is going on with the next section. */
    method AddSection(section: Section, sectionId: Option<string>, links: LinkList)
      modifies this, links
      ensures var kind := KindOf(sectionId);
              && links.items == old(links.items)
                                + (if Shown(kind, section) then [SectionEntry(tables, section)] else [])
              && Cached(kind) == (if Shown(kind, section) && section.behavior != ShowTitle then links
                                  else old(Cached(kind)))
              && (kind != Examples ==> examplesSidebar == old(examplesSidebar))
              && (kind != ReferenceDocs ==> referenceSidebar == old(referenceSidebar))
              && (kind != Main ==> sidebar == old(sidebar))
    {
      if !HasPath(section.path) {
        return;
      }
      if section.behavior == Hidden {
        return;
      }
      if (sectionId == Some("reference") && section.id != "reference")
         || (sectionId != Some("reference") && section.id == "reference") {
        return;
      }
      if (sectionId == Some("examples") && section.id != "examples")
         || (sectionId != Some("examples") && section.id == "examples") {
        return;
      }
      if section.behavior == ShowTitle {
        links.items := links.items + [ArticleLink(section.title, section.path.value, section.id, None)];
        return;
      }
      var children := SectionChildren(section);
      links.items := links.items + [SectionLink(section.title, section.path.value, children)];
      if sectionId == Some("examples") {
        examplesSidebar := links;
      } else if sectionId == Some("reference") {
        referenceSidebar := links;
      } else {
        sidebar := links;
      }
    }

    method SectionChildren(section: Section) returns (children: seq<Link>)
      ensures var categories := CategoriesOf(tables, section);
              children == CategoryLinks(tables, section, categories, false)
                          + CategoryLinks(tables, section, categories, true)
    {
      hide CategoryLinks, CategoriesOf, ArticlesOf, ArticleLinks;
      var categories := CategoriesOf(tables, section);
      NoCategories(tables, section);
      children := [];
      var ucg: seq<Link> := [];
      for i := 0 to |categories|
        invariant children == CategoryLinks(tables, section, categories[..i], false)
        invariant ucg == CategoryLinks(tables, section, categories[..i], true)
      {
        var category := categories[i];
        CategoryLinksNext(tables, section, categories, i, false);
        CategoryLinksNext(tables, section, categories, i, true);
        var links := CategoryArticles(ArticlesOf(tables, category));
        if category.id == section.id + "_ucg" {
          ucg := ucg + links;
        } else {
          if !HasPath(category.path) {
            continue;
          }
          children := children + [CategoryLink(category.title, category.path.value, links)];
        }
      }
      assert categories[..|categories|] == categories;
      children := children + ucg;
    }

    method CategoryArticles(articles: seq<Article>) returns (links: seq<Link>)
      ensures links == ArticleLinks(articles)
    {
      links := [];
      for j := 0 to |articles|
        invariant links == ArticleLinks(articles[..j])
      {
        var article := articles[j];
        assert articles[..j + 1][..j] == articles[..j];
        if !HasPath(article.path) {
          continue;
        }
        links := links + [ArticleLink(article.title, article.path.value, article.id, article.groupId)];
      }
      assert articles[..|articles|] == articles;
    }

    /** None when the section of the article is looked up and is not there, where the code throws. */
    method GetArticleLinks(article: Article) returns (links: Option<Links>)
      ensures links == if PrevOf(tables, article).Lost? || NextOf(tables, article).Lost? then None
                       else Some(Links(PrevOf(tables, article).article, NextOf(tables, article).article))
    {
      hide Neighbour, SectionById, SectionByIdx, EndOf;
      var prev := Neighbour(tables, article, false);
      if prev.None? {
        var section := SectionById(tables, article.sectionId);
        if section.None? {
          return None;
        }
        var prevSection := SectionByIdx(tables, section.value.idx - 1);
        if prevSection.Some? {
          prev := EndOf(tables, prevSection.value.id, false);
        }
      }
      var next := Neighbour(tables, article, true);
      if next.None? {
        var section := SectionById(tables, article.sectionId);
        if section.None? {
          return None;
        }
        var nextSection := SectionByIdx(tables, section.value.idx + 1);
        if nextSection.Some? {
          next := EndOf(tables, nextSection.value.id, true);
        }
      }
      links := Some(Links(prev, next));
    }
  }

  // ---------------------------------------------------------------- previous and next

  datatype Hop = Lost | To(article: Option<Article>)

  function SectionById(t: Tables, id: string): Option<Section> {
    First(Filter(t.sections, (s: Section) => s.id == id), (_: Section) => 0)
  }

  function SectionByIdx(t: Tables, idx: int): Option<Section> {
    First(Filter(t.sections, (s: Section) => s.idx == idx), (_: Section) => 0)
  }

  predicate IsNeighbour(article: Article, a: Article, forward: bool) {
    && a.sectionId == article.sectionId && a.groupId == article.groupId
    && if forward then a.sectionIndex > article.sectionIndex else a.sectionIndex < article.sectionIndex
  }

  function Ascending(forward: bool): Article -> int {
    (a: Article) => if forward then a.sectionIndex else -a.sectionIndex
  }

  /** The closest article of the same section and group in the given direction. */
  function Neighbour(t: Tables, article: Article, forward: bool): Option<Article> {
    First(Filter(t.articles, (a: Article) => IsNeighbour(article, a, forward)), Ascending(forward))
  }

  /** The first article of a section, or its last one. */
  function EndOf(t: Tables, sectionId: string, first: bool): Option<Article> {
    First(Filter(t.articles, (a: Article) => a.sectionId == sectionId), Ascending(first))
  }

  function HopFrom(t: Tables, article: Article, forward: bool): Hop {
    var near := Neighbour(t, article, forward);
    if near.Some? then To(near)
    else
      match SectionById(t, article.sectionId)
      case None => Lost
      case Some(section) =>
        match SectionByIdx(t, if forward then section.idx + 1 else section.idx - 1)
        case None => To(None)
        case Some(other) => To(EndOf(t, other.id, forward))
  }

  function PrevOf(t: Tables, article: Article): Hop {
    HopFrom(t, article, false)
  }

  function NextOf(t: Tables, article: Article): Hop {
    HopFrom(t, article, true)
  }
}
