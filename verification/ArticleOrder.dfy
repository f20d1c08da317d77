/**
 Previous and next form a doubly linked order of the articles: they are inverses inside a section, and
 on a well-numbered site they walk through every article in order.
 */
module ArticleOrder {
  import opened Prelude
  import opened ContentDatabase

  ghost predicate DistinctSections(t: Tables) {
    forall s, s' | s in t.sections && s' in t.sections && (s.id == s'.id || s.idx == s'.idx) :: s == s'
  }

  ghost predicate DistinctIndices(t: Tables) {
    forall a, b | a in t.articles && b in t.articles
                  && a.sectionId == b.sectionId && a.sectionIndex == b.sectionIndex :: a == b
  }

  lemma NeighbourIs(t: Tables, article: Article, forward: bool)
    ensures var near := Neighbour(t, article, forward);
            && (near.None? <==> forall a | a in t.articles :: !IsNeighbour(article, a, forward))
            && (near.Some? ==>
                  && near.value in t.articles && IsNeighbour(article, near.value, forward)
                  && forall a | a in t.articles && IsNeighbour(article, a, forward) ::
                       if forward then near.value.sectionIndex <= a.sectionIndex
                       else a.sectionIndex <= near.value.sectionIndex)
  {
    var test := (a: Article) => IsNeighbour(article, a, forward);
    var found := Filter(t.articles, test);
    forall a ensures a in found <==> a in t.articles && IsNeighbour(article, a, forward) {
      FilterHas(t.articles, test, a);
    }
    var near := Neighbour(t, article, forward);
    if found != [] {
      forall a | a in found ensures Ascending(forward)(near.value) <= Ascending(forward)(a) {
      }
    }
    if near.None? {
      forall a | a in t.articles ensures !IsNeighbour(article, a, forward) {
        assert a !in found;
      }
    } else {
      assert near.value in found;
    }
  }

  lemma EndIs(t: Tables, sectionId: string, first: bool)
    ensures var end := EndOf(t, sectionId, first);
            && (end.None? <==> forall a | a in t.articles :: a.sectionId != sectionId)
            && (end.Some? ==>
                  && end.value in t.articles && end.value.sectionId == sectionId
                  && forall a | a in t.articles && a.sectionId == sectionId ::
                       if first then end.value.sectionIndex <= a.sectionIndex
                       else a.sectionIndex <= end.value.sectionIndex)
  {
    var test := (a: Article) => a.sectionId == sectionId;
    var found := Filter(t.articles, test);
    forall a ensures a in found <==> a in t.articles && a.sectionId == sectionId {
      FilterHas(t.articles, test, a);
    }
    var end := EndOf(t, sectionId, first);
    if found != [] {
      forall a | a in found ensures Ascending(first)(end.value) <= Ascending(first)(a) {
      }
    }
    if end.None? {
      forall a | a in t.articles ensures a.sectionId != sectionId {
        assert a !in found;
      }
    } else {
      assert end.value in found;
    }
  }

  lemma SectionByIdIs(t: Tables, id: string)
    ensures var s := SectionById(t, id);
            && (s.None? <==> forall s | s in t.sections :: s.id != id)
            && (s.Some? ==> s.value in t.sections && s.value.id == id)
  {
    var test := (s: Section) => s.id == id;
    var found := Filter(t.sections, test);
    forall s ensures s in found <==> s in t.sections && s.id == id {
      FilterHas(t.sections, test, s);
    }
    if SectionById(t, id).None? {
      forall s | s in t.sections ensures s.id != id {
        assert s !in found;
      }
    }
  }

  lemma SectionByIdxIs(t: Tables, idx: int)
    ensures var s := SectionByIdx(t, idx);
            && (s.None? <==> forall s | s in t.sections :: s.idx != idx)
            && (s.Some? ==> s.value in t.sections && s.value.idx == idx)
  {
    var test := (s: Section) => s.idx == idx;
    var found := Filter(t.sections, test);
    forall s ensures s in found <==> s in t.sections && s.idx == idx {
      FilterHas(t.sections, test, s);
    }
    if SectionByIdx(t, idx).None? {
      forall s | s in t.sections ensures s.idx != idx {
        assert s !in found;
      }
    }
  }

  // ---------------------------------------------------------------- where the links lead

  /** Nothing of the group of the article stands beyond it in its section. */
  ghost predicate LastOfGroup(t: Tables, a: Article, forward: bool) {
    forall c | c in t.articles && c.sectionId == a.sectionId && c.groupId == a.groupId ::
      if forward then c.sectionIndex <= a.sectionIndex else a.sectionIndex <= c.sectionIndex
  }

  ghost predicate Adjacent(t: Tables, s: Section, s': Section, forward: bool) {
    s in t.sections && s' in t.sections && s'.idx == if forward then s.idx + 1 else s.idx - 1
  }

  /** The closest article beyond a of its own section and group. */
  ghost predicate ClosestOfGroup(t: Tables, a: Article, b: Article, forward: bool) {
    && b.sectionId == a.sectionId && b.groupId == a.groupId
    && if forward then b.sectionIndex > a.sectionIndex && forall c | c in t.articles && c.sectionId == a.sectionId
                                    && c.groupId == a.groupId && c.sectionIndex > a.sectionIndex ::
                              b.sectionIndex <= c.sectionIndex
       else b.sectionIndex < a.sectionIndex && forall c | c in t.articles && c.sectionId == a.sectionId
                                    && c.groupId == a.groupId && c.sectionIndex < a.sectionIndex ::
                              c.sectionIndex <= b.sectionIndex
  }

  /** The article with which a section begins, whatever its group, or the one with which it ends. */
  ghost predicate Outermost(t: Tables, b: Article, first: bool) {
    forall c | c in t.articles && c.sectionId == b.sectionId ::
      if first then b.sectionIndex <= c.sectionIndex else c.sectionIndex <= b.sectionIndex
  }

  /**
   A link leads to the closest article of the same section and group.  Only beyond the last one of the group it
   leads to the beginning or the end of an adjacent section, if there is one with articles, and throws when the
   section of the article is not there.
   */
  lemma LinkIs(t: Tables, a: Article, forward: bool)
    ensures match if forward then NextOf(t, a) else PrevOf(t, a)
            case Lost => LastOfGroup(t, a, forward) && forall s | s in t.sections :: s.id != a.sectionId
            case To(None) =>
              LastOfGroup(t, a, forward)
              && exists s :: s in t.sections && s.id == a.sectionId
                   && ((forall s' :: !Adjacent(t, s, s', forward))
                       || exists s' :: Adjacent(t, s, s', forward)
                                       && forall c | c in t.articles :: c.sectionId != s'.id)
            case To(Some(b)) =>
              b in t.articles
              && (ClosestOfGroup(t, a, b, forward)
                  || (&& LastOfGroup(t, a, forward) && Outermost(t, b, forward)
                      && exists s: Section, s': Section ::
                           s.id == a.sectionId && b.sectionId == s'.id && Adjacent(t, s, s', forward)))
  {
    hide Neighbour, SectionById, SectionByIdx, EndOf;
    NeighbourIs(t, a, forward);
    SectionByIdIs(t, a.sectionId);
    var section := SectionById(t, a.sectionId);
    if Neighbour(t, a, forward).Some? {
      assert ClosestOfGroup(t, a, Neighbour(t, a, forward).value, forward);
    } else {
      assert LastOfGroup(t, a, forward) by {
        forall c | c in t.articles && c.sectionId == a.sectionId && c.groupId == a.groupId
          ensures if forward then c.sectionIndex <= a.sectionIndex else a.sectionIndex <= c.sectionIndex
        {
          assert !IsNeighbour(a, c, forward);
        }
      }
      if section.Some? {
        var idx := if forward then section.value.idx + 1 else section.value.idx - 1;
        SectionByIdxIs(t, idx);
        var other := SectionByIdx(t, idx);
        if other.Some? {
          assert Adjacent(t, section.value, other.value, forward);
          EndIs(t, other.value.id, forward);
        } else {
          assert forall s' :: !Adjacent(t, section.value, s', forward);
        }
      }
    }
  }

  // ---------------------------------------------------------------- inverses inside a section

  /** A hop to an article of the same section comes from the same section, never from the fallback. */
  lemma HopInsideSection(t: Tables, a: Article, b: Article, forward: bool)
    requires DistinctSections(t) && a.sectionId == b.sectionId && HopFrom(t, a, forward) == To(Some(b))
    ensures Neighbour(t, a, forward) == Some(b)
  {
    hide Neighbour, SectionById, SectionByIdx, EndOf;
    if Neighbour(t, a, forward).None? {
      SectionByIdIs(t, a.sectionId);
      var section := SectionById(t, a.sectionId).value;
      var idx := if forward then section.idx + 1 else section.idx - 1;
      SectionByIdxIs(t, idx);
      EndIs(t, SectionByIdx(t, idx).value.id, forward);
    }
  }

  lemma NeighbourBack(t: Tables, a: Article, b: Article, forward: bool)
    requires DistinctIndices(t) && a in t.articles && Neighbour(t, a, forward) == Some(b)
    ensures Neighbour(t, b, !forward) == Some(a)
  {
    hide Neighbour;
    NeighbourIs(t, a, forward);
    NeighbourIs(t, b, !forward);
    assert IsNeighbour(b, a, !forward);
    var c := Neighbour(t, b, !forward).value;
    assert IsNeighbour(a, c, forward) ==> a == c;
  }

  /** As long as the link stays inside the section, b is the next article of a exactly when a is the previous of b. */
  lemma PrevUndoesNext(t: Tables, a: Article, b: Article)
    requires DistinctSections(t) && DistinctIndices(t)
    requires a in t.articles && b in t.articles && a.sectionId == b.sectionId
    ensures NextOf(t, a) == To(Some(b)) <==> PrevOf(t, b) == To(Some(a))
  {
    hide Neighbour, SectionById, SectionByIdx, EndOf, DistinctSections, DistinctIndices;
    if NextOf(t, a) == To(Some(b)) {
      HopInsideSection(t, a, b, true);
      NeighbourBack(t, a, b, true);
    }
    if PrevOf(t, b) == To(Some(a)) {
      HopInsideSection(t, b, a, false);
      NeighbourBack(t, b, a, false);
    }
  }

  // ---------------------------------------------------------------- a tour of the whole site

  /** Every article in a section, no empty section, sections numbered without gaps. */
  ghost predicate Numbered(t: Tables) {
    && DistinctSections(t) && DistinctIndices(t)
    && (forall a | a in t.articles :: HasSection(t, a.sectionId))
    && (forall s | s in t.sections :: HasArticle(t, s.id))
    && (forall s, s', i: int | s in t.sections && s' in t.sections && s.idx <= i <= s'.idx ::
          HasSectionIdx(t, i))
  }

  ghost predicate OneGroupPerSection(t: Tables) {
    forall a, b | a in t.articles && b in t.articles && a.sectionId == b.sectionId :: a.groupId == b.groupId
  }

  ghost predicate HasSection(t: Tables, id: string) {
    exists s :: s in t.sections && s.id == id
  }

  ghost predicate HasArticle(t: Tables, sectionId: string) {
    exists a :: a in t.articles && a.sectionId == sectionId
  }

  ghost predicate HasSectionIdx(t: Tables, idx: int) {
    exists s :: s in t.sections && s.idx == idx
  }

  ghost function IdxOf(t: Tables, a: Article): int {
    if s :| s in t.sections && s.id == a.sectionId then s.idx else 0
  }

  ghost predicate Before(t: Tables, a: Article, b: Article) {
    IdxOf(t, a) < IdxOf(t, b) || (IdxOf(t, a) == IdxOf(t, b) && a.sectionIndex < b.sectionIndex)
  }

  lemma SectionOf(t: Tables, a: Article) returns (s: Section)
    requires Numbered(t) && a in t.articles
    ensures s in t.sections && s.id == a.sectionId && IdxOf(t, a) == s.idx
    ensures SectionById(t, a.sectionId) == Some(s)
    ensures forall b | b in t.articles && IdxOf(t, b) == s.idx :: b.sectionId == a.sectionId
  {
    hide SectionById;
    s :| s in t.sections && s.id == a.sectionId;
    SectionByIdIs(t, a.sectionId);
    forall b | b in t.articles && IdxOf(t, b) == s.idx ensures b.sectionId == a.sectionId {
      var s' :| s' in t.sections && s'.id == b.sectionId;
    }
  }

  lemma SameSectionSameIdx(t: Tables, a: Article, b: Article)
    requires Numbered(t) && a in t.articles && b in t.articles && a.sectionId == b.sectionId
    ensures IdxOf(t, a) == IdxOf(t, b)
  {
    var s := SectionOf(t, a);
  }

  ghost predicate Between(t: Tables, a: Article, c: Article, b: Article, forward: bool) {
    if forward then Before(t, a, c) && Before(t, c, b) else Before(t, b, c) && Before(t, c, a)
  }

  ghost predicate Beyond(t: Tables, a: Article, c: Article, forward: bool) {
    if forward then Before(t, a, c) else Before(t, c, a)
  }

  /** A hop goes to the closest article in its direction, and there is none exactly at the end of the site. */
  lemma HopIsClosest(t: Tables, a: Article, forward: bool)
    requires Numbered(t) && OneGroupPerSection(t) && a in t.articles
    ensures HopFrom(t, a, forward).To?
    ensures var b := HopFrom(t, a, forward).article;
            && (b.None? ==> forall c | c in t.articles :: !Beyond(t, a, c, forward))
            && (b.Some? ==> b.value in t.articles && Beyond(t, a, b.value, forward)
                            && forall c | c in t.articles :: !Between(t, a, c, b.value, forward))
  {
    hide Neighbour, SectionById, SectionByIdx, EndOf, Numbered, IdxOf;
    NeighbourIs(t, a, forward);
    var section := SectionOf(t, a);
    if Neighbour(t, a, forward).Some? {
      var b := Neighbour(t, a, forward).value;
      SameSectionSameIdx(t, a, b);
      forall c | c in t.articles ensures !Between(t, a, c, b, forward) {
        if IdxOf(t, c) == section.idx {
          assert c.sectionId == a.sectionId;
        }
      }
    } else {
      forall c | c in t.articles && IdxOf(t, c) == section.idx ensures !Beyond(t, a, c, forward) {
        assert c.sectionId == a.sectionId;
      }
      HopOverSections(t, a, section, forward);
    }
  }

  lemma HopOverSections(t: Tables, a: Article, section: Section, forward: bool)
    requires Numbered(t) && a in t.articles && Neighbour(t, a, forward).None?
    requires section in t.sections && SectionById(t, a.sectionId) == Some(section) && IdxOf(t, a) == section.idx
    requires forall c | c in t.articles && IdxOf(t, c) == section.idx :: !Beyond(t, a, c, forward)
    ensures HopFrom(t, a, forward).To?
    ensures var b := HopFrom(t, a, forward).article;
            && (b.None? ==> forall c | c in t.articles :: !Beyond(t, a, c, forward))
            && (b.Some? ==> b.value in t.articles && Beyond(t, a, b.value, forward)
                            && forall c | c in t.articles :: !Between(t, a, c, b.value, forward))
  {
    hide Neighbour, SectionById, SectionByIdx, EndOf, Numbered, IdxOf;
    var idx := if forward then section.idx + 1 else section.idx - 1;
    SectionByIdxIs(t, idx);
    match SectionByIdx(t, idx) {
      case None =>
        forall c | c in t.articles ensures !Beyond(t, a, c, forward) {
          var s := SectionOf(t, c);
          NoGap(t, section, s, idx);
        }
      case Some(other) =>
        EndIs(t, other.id, forward);
        SectionIsNotEmpty(t, other);
        var b := EndOf(t, other.id, forward).value;
        var s := SectionOf(t, b);
        SameId(t, s, other);
        forall c | c in t.articles ensures !Between(t, a, c, b, forward) {
          if IdxOf(t, c) == idx {
            assert c.sectionId == b.sectionId;
          }
        }
    }
  }

  lemma SameId(t: Tables, s: Section, s': Section)
    requires Numbered(t) && s in t.sections && s' in t.sections && s.id == s'.id
    ensures s == s'
  {
  }

  lemma NoGap(t: Tables, s: Section, s': Section, idx: int)
    requires Numbered(t) && s in t.sections && s' in t.sections && forall x | x in t.sections :: x.idx != idx
    ensures !(s.idx <= idx <= s'.idx) && !(s'.idx <= idx <= s.idx)
  {
    assert !HasSectionIdx(t, idx);
    assert s.idx <= idx <= s'.idx ==> HasSectionIdx(t, idx);
    assert s'.idx <= idx <= s.idx ==> HasSectionIdx(t, idx);
  }

  lemma SectionIsNotEmpty(t: Tables, s: Section)
    requires Numbered(t) && s in t.sections
    ensures exists a :: a in t.articles && a.sectionId == s.id
  {
  }

  /** All articles, each once, in the order of their sections and of their places in them. */
  ghost predicate Tour(t: Tables, tour: seq<Article>) {
    && (forall a :: a in tour <==> a in t.articles)
    && forall i, j | 0 <= i < j < |tour| :: Before(t, tour[i], tour[j])
  }

  lemma BeforeIsTotal(t: Tables, a: Article, b: Article)
    requires Numbered(t) && a in t.articles && b in t.articles && a != b
    ensures Before(t, a, b) || Before(t, b, a)
  {
    hide IdxOf;
    if IdxOf(t, a) == IdxOf(t, b) {
      var s := SectionOf(t, a);
    }
  }

  lemma {:induction false} InsertInOrder(t: Tables, tour: seq<Article>, a: Article) returns (longer: seq<Article>)
    requires Numbered(t) && a in t.articles && a !in tour && forall b | b in tour :: b in t.articles
    requires forall i, j | 0 <= i < j < |tour| :: Before(t, tour[i], tour[j])
    ensures forall b :: b in longer <==> b == a || b in tour
    ensures forall i, j | 0 <= i < j < |longer| :: Before(t, longer[i], longer[j])
  {
    hide Numbered, IdxOf;
    if tour == [] || Before(t, a, tour[0]) {
      longer := [a] + tour;
    } else {
      BeforeIsTotal(t, a, tour[0]);
      var rest := InsertInOrder(t, tour[1..], a);
      longer := [tour[0]] + rest;
      forall j | 0 < j < |longer| ensures Before(t, longer[0], longer[j]) {
        assert longer[j] in rest;
      }
    }
  }

  lemma {:induction false} TourOf(t: Tables, articles: seq<Article>) returns (tour: seq<Article>)
    requires Numbered(t) && forall a | a in articles :: a in t.articles
    ensures forall a :: a in tour <==> a in articles
    ensures forall i, j | 0 <= i < j < |tour| :: Before(t, tour[i], tour[j])
  {
    hide Numbered, Before;
    if articles == [] {
      tour := [];
    } else {
      var n := |articles| - 1;
      assert articles == articles[..n] + [articles[n]];
      tour := TourOf(t, articles[..n]);
      if articles[n] !in tour {
        tour := InsertInOrder(t, tour, articles[n]);
      }
    }
  }

  /** Every well-numbered site has such a tour. */
  lemma TourExists(t: Tables)
    requires Numbered(t)
    ensures exists tour :: Tour(t, tour)
  {
    var tour := TourOf(t, t.articles);
    assert Tour(t, tour);
  }

  lemma PositionIn(tour: seq<Article>, a: Article) returns (i: nat)
    requires a in tour
    ensures i < |tour| && tour[i] == a
  {
    i :| i < |tour| && tour[i] == a;
  }

  lemma HopAlongTour(t: Tables, tour: seq<Article>, i: nat, forward: bool)
    requires Numbered(t) && OneGroupPerSection(t) && Tour(t, tour) && i < |tour|
    ensures var k: int := if forward then i + 1 else i - 1;
            HopFrom(t, tour[i], forward) == To(if 0 <= k < |tour| then Some(tour[k]) else None)
  {
    hide Numbered, OneGroupPerSection, HopFrom, IdxOf;
    var k: int := if forward then i + 1 else i - 1;
    var a := tour[i];
    assert a in tour;
    HopIsClosest(t, a, forward);
    if 0 <= k < |tour| {
      assert tour[k] in tour && Beyond(t, a, tour[k], forward);
      var b := HopFrom(t, a, forward).article.value;
      var j := PositionIn(tour, b);
      assert !Between(t, a, tour[k], b, forward);
    } else if HopFrom(t, a, forward).article.Some? {
      var j := PositionIn(tour, HopFrom(t, a, forward).article.value);
    }
  }

  /** Two neighbours on the tour of the same section but of different groups. */
  lemma {:induction false} GroupChanges(t: Tables, tour: seq<Article>, i: nat, j: nat) returns (k: nat)
    requires Numbered(t) && Tour(t, tour) && i < j < |tour|
    requires tour[i].sectionId == tour[j].sectionId && tour[i].groupId != tour[j].groupId
    ensures i <= k < j && tour[k].sectionId == tour[k + 1].sectionId && tour[k].groupId != tour[k + 1].groupId
    decreases j - i
  {
    hide Numbered, IdxOf;
    if j == i + 1 {
      k := i;
    } else {
      var a, b, c := tour[i], tour[j - 1], tour[j];
      assert a in tour && b in tour && c in tour && Before(t, a, b) && Before(t, b, c);
      SameSectionSameIdx(t, a, c);
      var s := SectionOf(t, a);
      assert b.sectionId == a.sectionId;
      if b.groupId != c.groupId {
        k := j - 1;
      } else {
        k := GroupChanges(t, tour, i, j - 1);
      }
    }
  }

  /** No link leads into another group of the same section. */
  lemma NoHopIntoGroup(t: Tables, a: Article, b: Article)
    requires DistinctSections(t) && a.sectionId == b.sectionId && a.groupId != b.groupId
    ensures NextOf(t, a) != To(Some(b))
  {
    hide Neighbour, SectionById, SectionByIdx, EndOf;
    if NextOf(t, a) == To(Some(b)) {
      HopInsideSection(t, a, b, true);
      NeighbourIs(t, a, true);
    }
  }

  /**
   Following next from the first article of a numbered site visits every article exactly once, in order, exactly
   when no section has articles of two groups.  It then ends at the last one, and prev retraces the same way.
   */
  lemma NextWalksTheTourIff(t: Tables, tour: seq<Article>)
    requires Numbered(t) && Tour(t, tour)
    ensures (forall i | 0 <= i < |tour| - 1 :: NextOf(t, tour[i]) == To(Some(tour[i + 1]))) <==> OneGroupPerSection(t)
    ensures OneGroupPerSection(t) ==>
              && (tour != [] ==> NextOf(t, tour[|tour| - 1]) == To(None) && PrevOf(t, tour[0]) == To(None))
              && forall i | 0 < i < |tour| :: PrevOf(t, tour[i]) == To(Some(tour[i - 1]))
  {
    hide Numbered, HopFrom, OneGroupPerSection, DistinctSections;
    if OneGroupPerSection(t) {
      forall i, forward | 0 <= i < |tour|
        ensures var k: int := if forward then i + 1 else i - 1;
                HopFrom(t, tour[i], forward) == To(if 0 <= k < |tour| then Some(tour[k]) else None)
      {
        HopAlongTour(t, tour, i, forward);
      }
    } else {
      var a, b := TwoGroups(t);
      assert a in tour && b in tour;
      var i := PositionIn(tour, a);
      var j := PositionIn(tour, b);
      var k := GroupChanges(t, tour, if i < j then i else j, if i < j then j else i);
      SectionsAreDistinct(t);
      NoHopIntoGroup(t, tour[k], tour[k + 1]);
    }
  }

  lemma SectionsAreDistinct(t: Tables)
    requires Numbered(t)
    ensures DistinctSections(t)
  {
  }

  lemma TwoGroups(t: Tables) returns (a: Article, b: Article)
    requires !OneGroupPerSection(t)
    ensures a in t.articles && b in t.articles && a.sectionId == b.sectionId && a.groupId != b.groupId
  {
    a, b :| a in t.articles && b in t.articles && a.sectionId == b.sectionId && a.groupId != b.groupId;
  }

  // ---------------------------------------------------------------- a tour of each group

  /** The articles of a group of a section, each once, in the order of their places. */
  ghost predicate GroupTour(t: Tables, sectionId: string, groupId: Option<string>, tour: seq<Article>) {
    && (forall a :: a in tour <==> a in t.articles && a.sectionId == sectionId && a.groupId == groupId)
    && forall i, j | 0 <= i < j < |tour| :: tour[i].sectionIndex < tour[j].sectionIndex
  }

  lemma {:induction false} InsertByIndex(tour: seq<Article>, a: Article) returns (longer: seq<Article>)
    requires forall i, j | 0 <= i < j < |tour| :: tour[i].sectionIndex < tour[j].sectionIndex
    requires forall b | b in tour :: b.sectionIndex != a.sectionIndex
    ensures forall b :: b in longer <==> b == a || b in tour
    ensures forall i, j | 0 <= i < j < |longer| :: longer[i].sectionIndex < longer[j].sectionIndex
  {
    if tour == [] || a.sectionIndex < tour[0].sectionIndex {
      longer := [a] + tour;
    } else {
      assert tour[0] in tour && forall b | b in tour[1..] :: b in tour;
      var rest := InsertByIndex(tour[1..], a);
      longer := [tour[0]] + rest;
      forall j | 0 < j < |longer| ensures longer[0].sectionIndex < longer[j].sectionIndex {
        assert longer[j] in rest;
      }
    }
  }

  lemma {:induction false} GroupTourOf(t: Tables, sectionId: string, groupId: Option<string>, articles: seq<Article>)
    returns (tour: seq<Article>)
    requires DistinctIndices(t) && forall a | a in articles :: a in t.articles
    ensures forall a :: a in tour <==> a in articles && a.sectionId == sectionId && a.groupId == groupId
    ensures forall i, j | 0 <= i < j < |tour| :: tour[i].sectionIndex < tour[j].sectionIndex
  {
    if articles == [] {
      tour := [];
    } else {
      var n := |articles| - 1;
      var a := articles[n];
      assert articles == articles[..n] + [a];
      tour := GroupTourOf(t, sectionId, groupId, articles[..n]);
      if a.sectionId == sectionId && a.groupId == groupId && a !in tour {
        tour := InsertByIndex(tour, a);
      }
    }
  }

  lemma GroupTourExists(t: Tables, sectionId: string, groupId: Option<string>)
    requires DistinctIndices(t)
    ensures exists tour :: GroupTour(t, sectionId, groupId, tour)
  {
    var tour := GroupTourOf(t, sectionId, groupId, t.articles);
    assert GroupTour(t, sectionId, groupId, tour);
  }

  /** Next walks each group of a section in order, and prev walks it back. */
  lemma NextWalksTheGroup(t: Tables, sectionId: string, groupId: Option<string>, tour: seq<Article>, i: nat)
    requires GroupTour(t, sectionId, groupId, tour) && i + 1 < |tour|
    ensures NextOf(t, tour[i]) == To(Some(tour[i + 1])) && PrevOf(t, tour[i + 1]) == To(Some(tour[i]))
  {
    hide Neighbour;
    var a, b := tour[i], tour[i + 1];
    assert a in tour && b in tour;
    NeighbourIs(t, a, true);
    NeighbourIs(t, b, false);
    assert IsNeighbour(a, b, true) && IsNeighbour(b, a, false);
    var next, prev := Neighbour(t, a, true).value, Neighbour(t, b, false).value;
    assert next in tour && prev in tour;
    var j := PositionIn(tour, next);
    var k := PositionIn(tour, prev);
  }
}
