/**
 What the sidebar offers: exactly the articles and title sections that have a path and belong to something
 shown, in the order of the indices.
 */
module SidebarContents {
  import opened Prelude
  import opened ContentDatabase

  // ---------------------------------------------------------------- ordering

  ghost predicate Sorted<T>(rows: seq<T>, key: T -> int) {
    forall i, j | 0 <= i < j < |rows| :: key(rows[i]) <= key(rows[j])
  }

  lemma SortedFrom<T>(first: T, rest: seq<T>, key: T -> int)
    requires Sorted(rest, key) && forall r | r in rest :: key(first) <= key(r)
    ensures Sorted([first] + rest, key)
  {
  }

  lemma {:induction false} InsertHas<T>(rows: seq<T>, row: T, key: T -> int, r: T)
    ensures r in Insert(rows, row, key) <==> r == row || r in rows
  {
    if rows != [] && key(row) >= key(rows[0]) {
      InsertHas(rows[1..], row, key, r);
      assert rows == [rows[0]] + rows[1..];
    }
  }

  lemma {:induction false} InsertSorted<T>(rows: seq<T>, row: T, key: T -> int)
    requires Sorted(rows, key)
    ensures Sorted(Insert(rows, row, key), key)
  {
    if rows != [] && key(row) >= key(rows[0]) {
      var rest := Insert(rows[1..], row, key);
      InsertSorted(rows[1..], row, key);
      forall r | r in rest ensures key(rows[0]) <= key(r) {
        InsertHas(rows[1..], row, key, r);
      }
      SortedFrom(rows[0], rest, key);
    }
  }

  /** The rows with a given key. */
  function WithKey<T>(rows: seq<T>, key: T -> int, k: int): seq<T> {
    Filter(rows, r => key(r) == k)
  }

  lemma {:induction false} FilterConcat<T>(a: seq<T>, b: seq<T>, test: T -> bool)
    ensures Filter(a + b, test) == Filter(a, test) + Filter(b, test)
  {
    if b == [] {
      assert a + b == a;
    } else {
      var n := |b| - 1;
      assert (a + b)[..|a| + n] == a + b[..n];
      FilterConcat(a, b[..n], test);
    }
  }

  lemma WithKeyConcat<T>(a: seq<T>, b: seq<T>, key: T -> int, k: int)
    ensures WithKey(a + b, key, k) == WithKey(a, key, k) + WithKey(b, key, k)
  {
    FilterConcat(a, b, r => key(r) == k);
  }

  lemma {:induction false} FilterNone<T>(rows: seq<T>, test: T -> bool)
    requires forall r | r in rows :: !test(r)
    ensures Filter(rows, test) == []
  {
    if rows != [] {
      var n := |rows| - 1;
      assert rows[n] in rows && forall r | r in rows[..n] :: r in rows;
      FilterNone(rows[..n], test);
    }
  }

  lemma WithKeyNone<T>(rows: seq<T>, key: T -> int, k: int)
    requires forall r | r in rows :: key(r) != k
    ensures WithKey(rows, key, k) == []
  {
    FilterNone(rows, r => key(r) == k);
  }

  lemma WithKeyOne<T>(row: T, key: T -> int, k: int)
    ensures key(row) != k ==> WithKey([row], key, k) == []
  {
    if key(row) != k {
      WithKeyNone([row], key, k);
    }
  }

  /** A row is inserted after the rows with the same key. */
  lemma {:induction false} InsertLast<T>(rows: seq<T>, row: T, key: T -> int, k: int)
    requires Sorted(rows, key)
    ensures WithKey(Insert(rows, row, key), key, k) == WithKey(rows + [row], key, k)
  {
    hide WithKey;
    WithKeyConcat(rows, [row], key, k);
    WithKeyConcat([row], rows, key, k);
    WithKeyOne(row, key, k);
    if rows == [] || key(row) < key(rows[0]) {
      if key(row) == k {
        WithKeyNone(rows, key, k);
      }
    } else {
      var first, rest := [rows[0]], rows[1..];
      assert rows == first + rest;
      InsertLast(rest, row, key, k);
      WithKeyConcat(first, rest, key, k);
      WithKeyConcat(rest, [row], key, k);
      WithKeyConcat(first, Insert(rest, row, key), key, k);
    }
  }

  /** The rows come in ascending order of the key, and rows with the same key in their stored order. */
  lemma {:induction false} OrderByIsStableSort<T>(rows: seq<T>, key: T -> int)
    ensures Sorted(OrderBy(rows, key), key)
    ensures forall r :: r in OrderBy(rows, key) <==> r in rows
    ensures forall k :: WithKey(OrderBy(rows, key), key, k) == WithKey(rows, key, k)
  {
    if rows != [] {
      var n := |rows| - 1;
      var front, last := rows[..n], rows[n];
      assert rows == front + [last];
      OrderByIsStableSort(front, key);
      InsertSorted(OrderBy(front, key), last, key);
      forall r: T ensures r in OrderBy(rows, key) <==> r in rows {
        InsertHas(OrderBy(front, key), last, key, r);
      }
      forall k ensures WithKey(OrderBy(rows, key), key, k) == WithKey(rows, key, k) {
        InsertLast(OrderBy(front, key), last, key, k);
        WithKeyConcat(front, [last], key, k);
        WithKeyConcat(OrderBy(front, key), [last], key, k);
      }
    }
  }

  // ---------------------------------------------------------------- the links

  /** The link stands somewhere in the tree of links. */
  predicate Offers(links: seq<Link>, link: Link) {
    if links == [] then false
    else
      var n := |links| - 1;
      Offers(links[..n], link) || links[n] == link || (!links[n].ArticleLink? && Offers(links[n].children, link))
  }

  lemma OffersNothing(link: Link)
    ensures !Offers([], link)
  {
  }

  lemma OffersNewest(links: seq<Link>, newest: Link, link: Link)
    ensures Offers(links + [newest], link)
            <==> Offers(links, link) || newest == link || (!newest.ArticleLink? && Offers(newest.children, link))
  {
    assert (links + [newest])[..|links|] == links;
  }

  lemma {:induction false} OffersEither(a: seq<Link>, b: seq<Link>, link: Link)
    ensures Offers(a + b, link) <==> Offers(a, link) || Offers(b, link)
  {
    if b == [] {
      assert a + b == a;
    } else {
      var n := |b| - 1;
      assert (a + b)[..|a| + n] == a + b[..n];
      OffersEither(a, b[..n], link);
    }
  }

  predicate IsLinkTo(a: Article, link: Link) {
    HasPath(a.path) && link == ArticleLink(a.title, a.path.value, a.id, a.groupId)
  }

  lemma {:induction false} ArticlesOffered(articles: seq<Article>, link: Link)
    ensures Offers(ArticleLinks(articles), link) <==> exists a :: a in articles && IsLinkTo(a, link)
  {
    if articles != [] {
      hide Offers;
      var n := |articles| - 1;
      var front, a := articles[..n], articles[n];
      assert articles == front + [a];
      ArticlesOffered(front, link);
      if HasPath(a.path) {
        OffersNewest(ArticleLinks(front), ArticleLink(a.title, a.path.value, a.id, a.groupId), link);
      } else {
        assert ArticleLinks(articles) == ArticleLinks(front);
      }
      assert a in articles;
    }
  }

  /** An article of the category that the link leads to. */
  ghost predicate LeadsInto(t: Tables, c: Category, link: Link) {
    exists a :: a in t.articles && a.categoryId == c.id && IsLinkTo(a, link)
  }

  lemma CategoryOffers(t: Tables, c: Category, link: Link)
    ensures Offers(ArticleLinks(ArticlesOf(t, c)), link) <==> LeadsInto(t, c, link)
  {
    var test, key := (a: Article) => a.categoryId == c.id, (a: Article) => a.categoryIndex;
    var found := Filter(t.articles, test);
    assert ArticlesOf(t, c) == OrderBy(found, key);
    OrderByIsStableSort(found, key);
    ArticlesOffered(ArticlesOf(t, c), link);
    forall a: Article ensures a in found <==> a in t.articles && a.categoryId == c.id {
      FilterHas(t.articles, test, a);
    }
  }

  lemma {:induction false} CategoriesOffered(t: Tables, section: Section, categories: seq<Category>,
                                             uncategorized: bool, link: Link)
    requires link.ArticleLink?
    ensures Offers(CategoryLinks(t, section, categories, uncategorized), link)
            <==> exists c :: c in categories && IsUncategorized(section, c) == uncategorized
                             && (uncategorized || HasPath(c.path)) && LeadsInto(t, c, link)
  {
    hide Offers, LeadsInto, ArticleLinks, ArticlesOf;
    if categories == [] {
      OffersNothing(link);
    } else {
      var n := |categories| - 1;
      var front, c := categories[..n], categories[n];
      assert categories == front + [c];
      CategoriesOffered(t, section, front, uncategorized, link);
      var before, links := CategoryLinks(t, section, front, uncategorized), ArticleLinks(ArticlesOf(t, c));
      CategoryOffers(t, c, link);
      OffersEither(before, links, link);
      assert before + [] == before;
      if HasPath(c.path) {
        OffersNewest(before, CategoryLink(c.title, c.path.value, links), link);
      }
      assert c in categories;
    }
  }

  /** What a shown section offers: itself, or the articles of its categories, proper or not. */
  ghost predicate OfferedBy(t: Tables, s: Section, link: Link)
    requires HasPath(s.path)
  {
    if s.behavior == ShowTitle then link == ArticleLink(s.title, s.path.value, s.id, None)
    else exists c :: c in t.categories && c.sectionId == s.id && (IsUncategorized(s, c) || HasPath(c.path))
                     && LeadsInto(t, c, link)
  }

  lemma SectionOffers(t: Tables, s: Section, link: Link)
    requires link.ArticleLink? && HasPath(s.path)
    ensures OfferedBy(t, s, link)
            <==> SectionEntry(t, s) == link
                 || (!SectionEntry(t, s).ArticleLink? && Offers(SectionEntry(t, s).children, link))
  {
    hide Offers, CategoryLinks, LeadsInto;
    var test, key := (c: Category) => c.sectionId == s.id, (c: Category) => c.sectionIndex;
    var found, categories := Filter(t.categories, test), CategoriesOf(t, s);
    assert categories == OrderBy(found, key);
    OrderByIsStableSort(found, key);
    forall c: Category ensures c in categories <==> c in t.categories && c.sectionId == s.id {
      FilterHas(t.categories, test, c);
    }
    CategoriesOffered(t, s, categories, false, link);
    CategoriesOffered(t, s, categories, true, link);
    OffersEither(CategoryLinks(t, s, categories, false), CategoryLinks(t, s, categories, true), link);
  }

  lemma {:induction false} SectionsOffered(t: Tables, kind: Kind, sections: seq<Section>, link: Link)
    requires link.ArticleLink?
    ensures Offers(SectionEntries(t, kind, sections), link)
            <==> exists s :: s in sections && Shown(kind, s) && OfferedBy(t, s, link)
  {
    hide Offers, SectionEntry, OfferedBy, Shown;
    if sections == [] {
      OffersNothing(link);
    } else {
      var n := |sections| - 1;
      var front, s := sections[..n], sections[n];
      assert sections == front + [s];
      SectionsOffered(t, kind, front, link);
      if Shown(kind, s) {
        OffersNewest(SectionEntries(t, kind, front), SectionEntry(t, s), link);
        SectionOffers(t, s, link);
      } else {
        assert SectionEntries(t, kind, sections) == SectionEntries(t, kind, front);
      }
      assert s in sections;
    }
  }

  /**
   The sidebar links to an article exactly when the article has a path and lies in a category of a shown
   section, where the category has a path or is the one for uncategorized articles; the only other links are
   those to the sections that show just their title.
   */
  lemma SidebarOffersExactly(t: Tables, kind: Kind, link: Link)
    requires link.ArticleLink?
    ensures Offers(Sidebar(t, kind), link)
            <==> exists s :: s in t.sections && Shown(kind, s) && OfferedBy(t, s, link)
  {
    var key := (s: Section) => s.idx;
    OrderByIsStableSort(t.sections, key);
    assert Sidebar(t, kind) == SectionEntries(t, kind, OrderBy(t.sections, key));
    SectionsOffered(t, kind, OrderBy(t.sections, key), link);
  }

  // ---------------------------------------------------------------- the sidebar, entry by entry

  /**
   The sections listed for a page of a section: they have a path and are not hidden, in the order of their idx.
   Pages of the examples and of the reference list their own section, all others the other sections.
   */
  function ListedSections(t: Tables, sectionId: Option<string>): seq<Section> {
    Filter(OrderBy(t.sections, (s: Section) => s.idx),
           (s: Section) => s.path.Some? && s.path.value != "" && s.behavior != Hidden
                           && (s.id == "examples" <==> sectionId == Some("examples"))
                           && (s.id == "reference" <==> sectionId == Some("reference")))
  }

  /** The categories of a section that have a path, in the order of their sectionIndex. */
  function ListedCategories(t: Tables, section: Section): seq<Category> {
    Filter(OrderBy(Filter(t.categories, (c: Category) => c.sectionId == section.id), (c: Category) => c.sectionIndex),
           (c: Category) => c.id != section.id + "_ucg" && c.path.Some? && c.path.value != "")
  }

  /** The articles of a category that have a path, in the order of their categoryIndex. */
  function ListedArticles(t: Tables, categoryId: string): seq<Article> {
    Filter(OrderBy(Filter(t.articles, (a: Article) => a.categoryId == categoryId), (a: Article) => a.categoryIndex),
           (a: Article) => a.path.Some? && a.path.value != "")
  }

  function ArticleList(t: Tables, categoryId: string): seq<Link> {
    var articles := ListedArticles(t, categoryId);
    seq(|articles|, i requires 0 <= i < |articles| =>
      ArticleLink(articles[i].title, if articles[i].path.Some? then articles[i].path.value else "", articles[i].id,
                  articles[i].groupId))
  }

  function CategoryList(t: Tables, section: Section): seq<Link> {
    var categories := ListedCategories(t, section);
    seq(|categories|, i requires 0 <= i < |categories| =>
      CategoryLink(categories[i].title, if categories[i].path.Some? then categories[i].path.value else "",
                   ArticleList(t, categories[i].id)))
  }

  /** The uncategorized articles of a section, when there is a category for them, which there is once. */
  function UncategorizedList(t: Tables, section: Section): seq<Link> {
    if exists c | c in t.categories :: c.id == section.id + "_ucg" && c.sectionId == section.id
      then ArticleList(t, section.id + "_ucg") else []
  }

  /** A section has a link of its own, or its categories below it, and after them its uncategorized articles. */
  function Entry(t: Tables, section: Section): Link {
    var url := if section.path.Some? then section.path.value else "";
    if section.behavior == ShowTitle then ArticleLink(section.title, url, section.id, None)
    else SectionLink(section.title, url, CategoryList(t, section) + UncategorizedList(t, section))
  }

  ghost predicate DistinctIds(categories: seq<Category>) {
    forall i, j | 0 <= i < j < |categories| :: categories[i].id != categories[j].id
  }

  lemma FilterNewest<T>(rows: seq<T>, row: T, test: T -> bool)
    ensures Filter(rows + [row], test) == Filter(rows, test) + if test(row) then [row] else []
  {
    assert (rows + [row])[..|rows|] == rows;
  }

  lemma {:induction false} FilterAgrees<T>(rows: seq<T>, test: T -> bool, test': T -> bool)
    requires forall r | r in rows :: test(r) == test'(r)
    ensures Filter(rows, test) == Filter(rows, test')
  {
    if rows != [] {
      var n := |rows| - 1;
      assert rows[n] in rows && forall r | r in rows[..n] :: r in rows;
      FilterAgrees(rows[..n], test, test');
    }
  }

  function Listed(a: Article): Link {
    ArticleLink(a.title, if a.path.Some? then a.path.value else "", a.id, a.groupId)
  }

  lemma {:induction false} ArticleLinksAre(articles: seq<Article>)
    ensures var listed := Filter(articles, (a: Article) => a.path.Some? && a.path.value != "");
            ArticleLinks(articles) == seq(|listed|, i requires 0 <= i < |listed| => Listed(listed[i]))
  {
    if articles != [] {
      ArticleLinksAre(articles[..|articles| - 1]);
    }
  }

  lemma ArticleListIs(t: Tables, c: Category)
    ensures ArticleLinks(ArticlesOf(t, c)) == ArticleList(t, c.id)
  {
    hide ArticleLinks, OrderBy, Filter;
    ArticleLinksAre(ArticlesOf(t, c));
  }

  /** The categories of the list with a link each. */
  lemma {:induction false} ProperLinksAre(t: Tables, section: Section, categories: seq<Category>)
    ensures var listed := Filter(categories, (c: Category) => c.id != section.id + "_ucg" && c.path.Some?
                                                              && c.path.value != "");
            CategoryLinks(t, section, categories, false)
            == seq(|listed|, i requires 0 <= i < |listed| =>
                 CategoryLink(listed[i].title, if listed[i].path.Some? then listed[i].path.value else "",
                              ArticleList(t, listed[i].id)))
  {
    hide ArticleList, ArticleLinks, ArticlesOf;
    if categories != [] {
      var n := |categories| - 1;
      ProperLinksAre(t, section, categories[..n]);
      ArticleListIs(t, categories[n]);
    }
  }

  /** The category for uncategorized articles gives its links, if it is among the categories. */
  lemma {:induction false} UncategorizedLinksAre(t: Tables, section: Section, categories: seq<Category>)
    requires DistinctIds(categories)
    ensures CategoryLinks(t, section, categories, true)
            == if exists c | c in categories :: c.id == section.id + "_ucg" then ArticleList(t, section.id + "_ucg")
               else []
  {
    hide ArticleList, ArticleLinks, ArticlesOf;
    if categories != [] {
      var n := |categories| - 1;
      var front, last := categories[..n], categories[n];
      assert categories == front + [last];
      UncategorizedLinksAre(t, section, front);
      ArticleListIs(t, last);
      if c :| c in front && c.id == section.id + "_ucg" {
        var i :| 0 <= i < n && front[i] == c;
        assert categories[i].id != categories[n].id;
      }
    }
  }

  lemma {:induction false} FilterIds(categories: seq<Category>, test: Category -> bool)
    requires DistinctIds(categories)
    ensures DistinctIds(Filter(categories, test))
  {
    if categories != [] {
      var n := |categories| - 1;
      var front := categories[..n];
      FilterIds(front, test);
      forall c | c in Filter(front, test) ensures c.id != categories[n].id {
        FilterHas(front, test, c);
        var i :| 0 <= i < n && front[i] == c;
        assert categories[i].id != categories[n].id;
      }
    }
  }

  lemma FirstId(c: Category, categories: seq<Category>)
    requires DistinctIds(categories) && forall r | r in categories :: r.id != c.id
    ensures DistinctIds([c] + categories)
  {
    var all := [c] + categories;
    forall i, j | 0 <= i < j < |all| ensures all[i].id != all[j].id {
      assert all[j] == categories[j - 1] && all[j] in categories;
    }
  }

  lemma {:induction false} InsertIds(categories: seq<Category>, c: Category, key: Category -> int)
    requires DistinctIds(categories)
    requires forall i | 0 <= i < |categories| :: categories[i].id != c.id
    ensures DistinctIds(Insert(categories, c, key))
  {
    if categories != [] && key(c) >= key(categories[0]) {
      var rest := Insert(categories[1..], c, key);
      InsertIds(categories[1..], c, key);
      forall r | r in rest ensures r.id != categories[0].id {
        InsertHas(categories[1..], c, key, r);
        if r != c {
          var i :| 0 <= i < |categories[1..]| && categories[1..][i] == r;
          assert categories[0].id != categories[i + 1].id;
        }
      }
      FirstId(categories[0], rest);
    } else {
      assert forall r | r in categories :: r.id != c.id;
      FirstId(c, categories);
    }
  }

  lemma {:induction false} OrderIds(categories: seq<Category>, key: Category -> int)
    requires DistinctIds(categories)
    ensures DistinctIds(OrderBy(categories, key))
  {
    if categories != [] {
      var n := |categories| - 1;
      var front := categories[..n];
      OrderIds(front, key);
      var sorted := OrderBy(front, key);
      forall i | 0 <= i < |sorted| ensures sorted[i].id != categories[n].id {
        OrderByIsStableSort(front, key);
        assert sorted[i] in front;
        var j :| 0 <= j < n && front[j] == sorted[i];
      }
      InsertIds(sorted, categories[n], key);
    }
  }

  lemma EntryIs(t: Tables, section: Section)
    requires DistinctIds(t.categories) && HasPath(section.path)
    ensures SectionEntry(t, section) == Entry(t, section)
  {
    hide CategoryLinks, ArticleList, OrderBy, Filter;
    var test, key := (c: Category) => c.sectionId == section.id, (c: Category) => c.sectionIndex;
    var categories := CategoriesOf(t, section);
    assert categories == OrderBy(Filter(t.categories, test), key);
    FilterIds(t.categories, test);
    OrderIds(Filter(t.categories, test), key);
    OrderByIsStableSort(Filter(t.categories, test), key);
    forall c: Category ensures c in categories <==> c in t.categories && c.sectionId == section.id {
      FilterHas(t.categories, test, c);
    }
    ProperLinksAre(t, section, categories);
    UncategorizedLinksAre(t, section, categories);
  }

  lemma {:induction false} EntriesAre(t: Tables, sectionId: Option<string>, sections: seq<Section>)
    requires DistinctIds(t.categories)
    ensures var listed := Filter(sections, (s: Section) => s.path.Some? && s.path.value != "" && s.behavior != Hidden
                                             && (s.id == "examples" <==> sectionId == Some("examples"))
                                             && (s.id == "reference" <==> sectionId == Some("reference")));
            SectionEntries(t, KindOf(sectionId), sections)
            == seq(|listed|, i requires 0 <= i < |listed| => Entry(t, listed[i]))
  {
    hide SectionEntry, Entry;
    if sections != [] {
      var n := |sections| - 1;
      EntriesAre(t, sectionId, sections[..n]);
      if HasPath(sections[n].path) {
        EntryIs(t, sections[n]);
      }
    }
  }

  /**
   The whole sidebar for a page of the given section: an entry for each section that is listed for it, with what
   stands below it.
   */
  lemma SidebarIsItsEntries(t: Tables, sectionId: Option<string>)
    requires DistinctIds(t.categories)
    ensures var listed := ListedSections(t, sectionId);
            Sidebar(t, KindOf(sectionId)) == seq(|listed|, i requires 0 <= i < |listed| => Entry(t, listed[i]))
  {
    hide SectionEntries, Entry, OrderBy, Filter;
    EntriesAre(t, sectionId, OrderBy(t.sections, (s: Section) => s.idx));
  }
}
