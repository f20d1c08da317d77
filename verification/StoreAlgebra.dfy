/**
 Laws of the optimistic store: which row updates commute, when a remote update shows through the
 pending mutations, when rejecting a mutation is a true undo, and the algebra of acknowledgements.
 */
module StoreAlgebra {
  import opened Prelude
  import opened AppSchema
  import opened OptimisticStore
  import opened KeyedStore

  // ---------------------------------------------------------------- commuting row updates

  /** Updates of different rows commute, including in whether they fail. */
  lemma DistinctRowsCommute(m: Keyed, u: RowUpdate, v: RowUpdate)
    requires Target(u) != Target(v)
    ensures PutAll(m, [u, v]) == PutAll(m, [v, u])
  {
    PutAllTwo(m, u, v);
    PutAllTwo(m, v, u);
    var a, b := Target(u), Target(v);
    var x := if a in m then m[a] + u.row else u.row;
    var y := if b in m then m[b] + v.row else v.row;
    UpdatesSwap(m, a, b, if u.event == Insert then u.row else x, if v.event == Insert then v.row else y);
  }

  lemma UpdatesSwap<K, V>(m: map<K, V>, a: K, b: K, x: V, y: V)
    requires a != b
    ensures m[a := x][b := y] == m[b := y][a := x]
    ensures m[a := x] - {b} == (m - {b})[a := x]
    ensures m[b := y] - {a} == (m - {a})[b := y]
    ensures (m - {a}) - {b} == (m - {b}) - {a}
  {
  }

  lemma PutAllTwo(m: Keyed, u: RowUpdate, v: RowUpdate)
    ensures PutAll(m, [u, v]) == match Put(m, u) case None => None case Some(m') => Put(m', v)
  {
    assert [u, v][1..] == [v];
    assert [v][1..] == [];
    match Put(m, u) {
      case None =>
      case Some(m') => assert PutAll(m', [v]) == Put(m', v);
    }
  }

  lemma MergedTwice(m: Keyed, u: RowUpdate, v: RowUpdate)
    requires u.event == Update && v.event == Update
    requires Target(u) == Target(v) && Target(u) in m
    ensures PutAll(m, [u, v]) == Some(m[Target(u) := m[Target(u)] + u.row + v.row])
  {
    hide PutAll, Target;
    PutAllTwo(m, u, v);
    var a := Target(u);
    assert m[a := m[a] + u.row][a := m[a] + u.row + v.row] == m[a := m[a] + u.row + v.row];
  }

  lemma RowMergesAgreeIff(row: Row, u: Row, v: Row)
    ensures row + u + v == row + v + u <==> forall c | c in u && c in v :: u[c] == v[c]
  {
    var x, y := row + u + v, row + v + u;
    if x == y {
      forall c | c in u && c in v ensures u[c] == v[c] {
        assert x[c] == v[c] && y[c] == u[c];
      }
    }
  }

  /** Two merges into one row commute exactly when they agree on every column both of them write. */
  lemma MergesCommuteIff(m: Keyed, u: RowUpdate, v: RowUpdate)
    requires u.event == Update && v.event == Update
    requires Target(u) == Target(v) && Target(u) in m
    ensures PutAll(m, [u, v]) == PutAll(m, [v, u])
            <==> forall c | c in u.row && c in v.row :: u.row[c] == v.row[c]
  {
    hide PutAll, Target;
    MergedTwice(m, u, v);
    MergedTwice(m, v, u);
    var a := Target(u);
    RowMergesAgreeIff(m[a], u.row, v.row);
    var x, y := m[a] + u.row + v.row, m[a] + v.row + u.row;
    assert m[a := x] == m[a := y] ==> x == m[a := x][a] == y;
  }

  ghost predicate Avoids(us: seq<RowUpdate>, a: Addr) {
    forall u | u in us :: Target(u) != a
  }

  /** An update of a row that no later update touches can be moved past all of them. */
  lemma {:induction false} MovesPast(m: Keyed, u: RowUpdate, us: seq<RowUpdate>)
    requires Avoids(us, Target(u))
    ensures PutAll(m, [u] + us) == PutAll(m, us + [u])
    decreases |us|
  {
    hide Put, PutAll;
    if us == [] {
      assert [u] + us == us + [u];
    } else {
      var v, rest := us[0], us[1..];
      assert [u] + us == [u, v] + rest && us + [u] == [v] + (rest + [u]);
      assert [v, u] + rest == [v] + ([u] + rest);
      DistinctRowsCommute(m, u, v);
      PutAllConcat(m, [u, v], rest);
      PutAllConcat(m, [v, u], rest);
      PutAllStep(m, v, [u] + rest);
      PutAllStep(m, v, rest + [u]);
      if Put(m, v).Some? {
        MovesPast(Put(m, v).value, u, rest);
      }
    }
  }

  lemma PutAllStep(m: Keyed, u: RowUpdate, us: seq<RowUpdate>)
    ensures PutAll(m, [u] + us) == match Put(m, u) case None => None case Some(m') => PutAll(m', us)
  {
    assert ([u] + us)[1..] == us;
  }

  /**
   A remote update of a row that no pending mutation touches shows through: the visible state stays
   defined and changes by exactly that update, so every pending effect is undisturbed.
   */
  lemma RemoteUpdateShowsThrough(gold: StoreData, pending: seq<Pending>, u: RowUpdate)
    requires Unique(gold) && Avoids(Updates(pending), Target(u))
    requires ApplyUpdate(gold, u).Some? && View(Some(gold), pending).Shows?
    ensures var after := View(ApplyUpdate(gold, u), pending);
            && after.Shows?
            && Put(Keys(View(Some(gold), pending).data), u) == Some(Keys(after.data))
  {
    var us := Updates(pending);
    ApplyRefines(gold, u);
    ReplayRefines(gold, us);
    ReplayRefines(ApplyUpdate(gold, u).value, us);
    MovesPast(Keys(gold), u, us);
    PutAllConcat(Keys(gold), [u], us);
    PutAllConcat(Keys(gold), us, [u]);
    PutAllOne(Keys(gold), u);
    PutAllOne(PutAll(Keys(gold), us).value, u);
    PresenceUnchanged(Keys(gold), us, Target(u));
  }

  lemma PutAllOne(m: Keyed, u: RowUpdate)
    ensures PutAll(m, [u]) == Put(m, u)
  {
    assert [u][1..] == [];
    if Put(m, u).Some? {
      assert PutAll(Put(m, u).value, []) == Some(Put(m, u).value);
    }
  }

  ghost predicate SameAt(m: Keyed, m': Keyed, a: Addr) {
    (a in m <==> a in m') && (a in m ==> m[a] == m'[a])
  }

  lemma SameAtReflexive(m: Keyed)
    ensures forall a :: SameAt(m, m, a)
  {
  }

  lemma {:induction false} PresenceUnchanged(m: Keyed, us: seq<RowUpdate>, a: Addr)
    requires Avoids(us, a) && PutAll(m, us).Some?
    ensures SameAt(m, PutAll(m, us).value, a)
    decreases |us|
  {
    if us != [] {
      assert us[0] in us && forall u | u in us[1..] :: u in us;
      PresenceUnchanged(Put(m, us[0]).value, us[1..], a);
    }
  }

  // ---------------------------------------------------------------- when the replay stays defined

  /** The first event of a list of updates that concerns a given row. */
  function FirstAt(us: seq<RowUpdate>, a: Addr): Option<Event> {
    if us == [] then None
    else if Target(us[0]) == a then Some(us[0].event)
    else FirstAt(us[1..], a)
  }

  predicate Tolerates(first: Option<Event>, present: bool) {
    match first
    case None => true
    case Some(Insert) => !present
    case Some(Update) => present
    case Some(Delete) => true
  }

  lemma StepAgrees(m: Keyed, m': Keyed, u: RowUpdate, a: Addr)
    requires Put(m, u).Some? && Put(m', u).Some?
    requires forall b | b != a :: SameAt(m, m', b)
    ensures forall b | b != a :: SameAt(Put(m, u).value, Put(m', u).value, b)
  {
    forall b | b != a ensures SameAt(Put(m, u).value, Put(m', u).value, b) {
      assert SameAt(m, m', b);
    }
  }

  lemma {:induction false} DefinedElsewhere(m: Keyed, m': Keyed, a: Addr, us: seq<RowUpdate>)
    requires PutAll(m, us).Some?
    requires forall b | b != a :: SameAt(m, m', b)
    ensures PutAll(m', us).Some? <==> Tolerates(FirstAt(us, a), a in m')
    decreases |us|
  {
    if us != [] {
      var u, rest := us[0], us[1..];
      var m1 := Put(m, u).value;
      if Target(u) != a {
        assert SameAt(m, m', Target(u));
        StepAgrees(m, m', u, a);
        DefinedElsewhere(m1, Put(m', u).value, a, rest);
      } else if Tolerates(FirstAt(us, a), a in m') {
        var m1' := Put(m', u).value;
        StepAgrees(m, m', u, a);
        DefinedElsewhere(m1, m1', a, rest);
        DefinedElsewhere(m1, m1, a, rest);
      }
    }
  }

  lemma PutChangesOneRow(m: Keyed, u: RowUpdate)
    requires Put(m, u).Some?
    ensures Target(u) in Put(m, u).value <==> u.event != Delete
    ensures forall b | b != Target(u) :: SameAt(m, Put(m, u).value, b)
  {
  }

  /**
   Exactly when the visible state survives a remote update of the committed data: the first pending
   update of that row must not be an insert of a row that is now there or an update of a row that is
   now gone.  Otherwise reading the store throws.
   */
  lemma RemoteUpdateKeepsViewIff(gold: StoreData, pending: seq<Pending>, u: RowUpdate)
    requires Unique(gold)
    requires ApplyUpdate(gold, u).Some? && View(Some(gold), pending).Shows?
    ensures View(ApplyUpdate(gold, u), pending).Shows?
            <==> Tolerates(FirstAt(Updates(pending), Target(u)), u.event != Delete)
  {
    hide PutAll, ApplyAll, Keys, Unique, FirstAt;
    var us := Updates(pending);
    ApplyRefines(gold, u);
    ReplayRefines(gold, us);
    ReplayRefines(ApplyUpdate(gold, u).value, us);
    PutChangesOneRow(Keys(gold), u);
    DefinedElsewhere(Keys(gold), Keys(ApplyUpdate(gold, u).value), Target(u), us);
  }

  /** A remote delete of a row with a pending edit makes every later read of the store throw. */
  lemma RemoteDeleteCanBreakTheView()
    ensures exists gold: StoreData, pending: seq<Pending>, u: RowUpdate ::
              && Unique(gold) && ApplyUpdate(gold, u).Some? && View(Some(gold), pending).Shows?
              && View(ApplyUpdate(gold, u), pending) == Throws
  {
    var row: Row := map["id" := Str("u")];
    var gold := StoreData([], [], [row], "");
    var edit, gone := RowUpdate(User, Update, row), RowUpdate(User, Delete, row);
    var pending := [Pending([edit], "m")];
    assert Updates(pending) == [edit] by { assert Updates(pending[1..]) == []; }
    assert Matches(User, gold.user[0], row);
    ApplyRefines(gold, edit);
    assert [edit][1..] == [];
    assert ApplyAll(gold, [edit]) == ApplyUpdate(gold, edit);
    assert FirstAt([edit], Target(gone)) == Some(Update);
    RemoteUpdateKeepsViewIff(gold, pending, gone);
  }

  // ---------------------------------------------------------------- rejecting a mutation

  ghost predicate Disjoint(us: seq<RowUpdate>, vs: seq<RowUpdate>) {
    forall u, v | u in us && v in vs :: Target(u) != Target(v)
  }

  /** No mutation made after the one being rejected touches a row that it touched. */
  ghost predicate Independent(pending: seq<Pending>, id: string) {
    forall i, j | 0 <= i < j < |pending| && pending[i].mutationId == id && pending[j].mutationId != id ::
      Disjoint(pending[i].updates, pending[j].updates)
  }

  ghost predicate Touches(pending: seq<Pending>, id: string, a: Addr) {
    exists p | p in pending :: p.mutationId == id && !Avoids(p.updates, a)
  }

  lemma {:induction false} ReplayAgrees(m: Keyed, m': Keyed, ignored: iset<Addr>, us: seq<RowUpdate>)
    requires forall a | a !in ignored :: SameAt(m, m', a)
    requires forall a | a in ignored :: Avoids(us, a)
    requires PutAll(m, us).Some?
    ensures PutAll(m', us).Some?
    ensures forall a | a !in ignored :: SameAt(PutAll(m, us).value, PutAll(m', us).value, a)
    decreases |us|
  {
    if us != [] {
      var u := us[0];
      assert u in us && forall v | v in us[1..] :: v in us;
      assert Target(u) !in ignored;
      ReplayAgrees(Put(m, u).value, Put(m', u).value, ignored, us[1..]);
    }
  }

  lemma IndependentRest(pending: seq<Pending>, id: string)
    requires pending != [] && Independent(pending, id)
    ensures Independent(pending[1..], id)
  {
    hide Disjoint;
    var rest := pending[1..];
    forall i, j | 0 <= i < j < |rest| && rest[i].mutationId == id && rest[j].mutationId != id
      ensures Disjoint(rest[i].updates, rest[j].updates)
    {
      assert rest[i] == pending[i + 1] && rest[j] == pending[j + 1];
    }
  }

  lemma LaterAvoids(pending: seq<Pending>, id: string, q: Pending, a: Addr)
    requires pending != [] && pending[0].mutationId == id && Independent(pending, id)
    requires q in pending[1..] && q.mutationId != id && !Avoids(pending[0].updates, a)
    ensures Avoids(q.updates, a)
  {
    var j :| 0 <= j < |pending[1..]| && pending[1..][j] == q;
    assert q == pending[j + 1] && Disjoint(pending[0].updates, q.updates);
  }

  lemma {:induction false} RejectAgrees(m: Keyed, m': Keyed, ignored: iset<Addr>, pending: seq<Pending>, id: string)
    requires forall a | a !in ignored :: SameAt(m, m', a)
    requires forall a, p | a in ignored && p in pending && p.mutationId != id :: Avoids(p.updates, a)
    requires Independent(pending, id) && PutAll(m, Updates(pending)).Some?
    ensures PutAll(m', Updates(Reject(pending, id))).Some?
    ensures var r, r' := PutAll(m, Updates(pending)).value, PutAll(m', Updates(Reject(pending, id))).value;
            forall a | a !in ignored && !Touches(pending, id, a) :: SameAt(r, r', a)
    decreases |pending|
  {
    if pending != [] {
      hide PutAll, Independent, Disjoint;
      var p, rest := pending[0], pending[1..];
      PutAllConcat(m, p.updates, Updates(rest));
      var m1 := PutAll(m, p.updates).value;
      assert forall q | q in rest :: q in pending;
      assert forall a | Touches(rest, id, a) :: Touches(pending, id, a);
      IndependentRest(pending, id);
      if p.mutationId == id {
        var wider := ignored + iset a | !Avoids(p.updates, a);
        forall a | a !in wider ensures SameAt(m1, m', a) {
          PresenceUnchanged(m, p.updates, a);
        }
        forall a, q | a in wider && q in rest && q.mutationId != id ensures Avoids(q.updates, a) {
          if a !in ignored {
            LaterAvoids(pending, id, q, a);
          }
        }
        RejectAgrees(m1, m', wider, rest, id);
        assert Reject(pending, id) == Reject(rest, id);
        forall a | a !in ignored && !Touches(pending, id, a) ensures a !in wider {
          assert p in pending;
        }
      } else {
        ReplayAgrees(m, m', ignored, p.updates);
        RejectAgrees(m1, PutAll(m', p.updates).value, ignored, rest, id);
        assert Reject(pending, id) == [p] + Reject(rest, id);
        UpdatesConcat([p], Reject(rest, id));
        assert Updates([p]) == p.updates;
        PutAllConcat(m', p.updates, Updates(Reject(rest, id)));
      }
    }
  }

  lemma {:induction false} RejectConcat(p: seq<Pending>, q: seq<Pending>, id: string)
    ensures Reject(p + q, id) == Reject(p, id) + Reject(q, id)
  {
    if p == [] {
      assert p + q == q;
    } else {
      assert (p + q)[1..] == p[1..] + q;
      RejectConcat(p[1..], q, id);
    }
  }

  lemma {:induction false} RejectAbsent(pending: seq<Pending>, id: string)
    requires forall p | p in pending :: p.mutationId != id
    ensures Reject(pending, id) == pending
  {
    if pending != [] {
      RejectAbsent(pending[1..], id);
    }
  }

  lemma {:induction false} RejectOwn(pending: seq<Pending>, id: string)
    requires forall p | p in pending :: p.mutationId == id
    ensures Reject(pending, id) == []
  {
    if pending != [] {
      RejectOwn(pending[1..], id);
    }
  }

  lemma {:induction false} InUpdates(pending: seq<Pending>, u: RowUpdate) returns (p: Pending)
    requires u in Updates(pending)
    ensures p in pending && u in p.updates
  {
    if u in pending[0].updates {
      p := pending[0];
    } else {
      p := InUpdates(pending[1..], u);
    }
  }

  /**
   Rejecting a mutation that no later mutation depends on is a true undo.  The visible state stays
   defined, it differs only in the rows the mutation touched, and each of those takes the value it has
   when only the other mutations made before it are replayed.
   */
  lemma RejectIsUndo(gold: StoreData, pending: seq<Pending>, id: string, last: nat)
    requires Unique(gold) && Independent(pending, id) && View(Some(gold), pending).Shows?
    requires last < |pending| && pending[last].mutationId == id
    requires forall j | last < j < |pending| :: pending[j].mutationId != id
    ensures var before, after, without :=
              View(Some(gold), pending), View(Some(gold), Reject(pending, id)),
              View(Some(gold), Reject(pending[..last], id));
            && after.Shows? && without.Shows?
            && (forall a | !Touches(pending, id, a) :: SameAt(Keys(before.data), Keys(after.data), a))
            && (forall a | Touches(pending, id, a) :: SameAt(Keys(without.data), Keys(after.data), a))
  {
    hide PutAll, ApplyAll, Keys, Unique, Independent, Touches, SameAt, Updates, Reject;
    var m := Keys(gold);
    SameAtReflexive(m);
    var early, late := pending[..last + 1], pending[last + 1..];
    ReplayRefines(gold, Updates(pending));
    RejectAgrees(m, m, iset{}, pending, id);
    ReplayRefines(gold, Updates(Reject(pending, id)));

    assert early == pending[..last] + [pending[last]];
    RejectConcat(pending[..last], [pending[last]], id);
    RejectOwn([pending[last]], id);
    assert pending == early + late;
    RejectConcat(early, late, id);
    RejectAbsent(late, id);
    var kept := Reject(pending[..last], id);
    assert Reject(pending, id) == kept + late;
    UpdatesConcat(kept, late);
    PutAllConcat(m, Updates(kept), Updates(late));
    ReplayRefines(gold, Updates(kept));
    forall a | Touches(pending, id, a)
      ensures SameAt(PutAll(m, Updates(kept)).value, PutAll(m, Updates(Reject(pending, id))).value, a)
    {
      LateAvoids(pending, id, last, a);
      PresenceUnchanged(PutAll(m, Updates(kept)).value, Updates(late), a);
    }
  }

  lemma LateAvoids(pending: seq<Pending>, id: string, last: nat, a: Addr)
    requires Independent(pending, id) && Touches(pending, id, a)
    requires last < |pending| && forall j | last < j < |pending| :: pending[j].mutationId != id
    ensures Avoids(Updates(pending[last + 1..]), a)
  {
    var late := pending[last + 1..];
    var p :| p in pending && p.mutationId == id && !Avoids(p.updates, a);
    var i :| 0 <= i < |pending| && pending[i] == p;
    forall u | u in Updates(late) ensures Target(u) != a {
      var q := InUpdates(late, u);
      var j :| 0 <= j < |late| && late[j] == q;
      assert q == pending[last + 1 + j];
      assert Disjoint(p.updates, q.updates);
    }
  }

  // ---------------------------------------------------------------- exactly when a reject keeps the view

  /** Whether the row at a is there after the updates; None when one of them is not possible there. */
  function PresenceAfter(us: seq<RowUpdate>, a: Addr, present: bool): Option<bool> {
    if us == [] then Some(present)
    else if Target(us[0]) != a then PresenceAfter(us[1..], a, present)
    else
      match us[0].event
      case Insert => if present then None else PresenceAfter(us[1..], a, true)
      case Update => if present then PresenceAfter(us[1..], a, true) else None
      case Delete => PresenceAfter(us[1..], a, false)
  }

  /** A replay is defined exactly when it is possible at every row by itself. */
  lemma {:induction false} DefinedRowByRow(m: Keyed, us: seq<RowUpdate>)
    ensures PutAll(m, us).Some? <==> forall a :: PresenceAfter(us, a, a in m).Some?
    decreases |us|
  {
    if us != [] {
      var u, rest := us[0], us[1..];
      if Put(m, u).Some? {
        var m' := Put(m, u).value;
        DefinedRowByRow(m', rest);
        forall a ensures PresenceAfter(us, a, a in m) == PresenceAfter(rest, a, a in m') {
          PutChangesOneRow(m, u);
          assert a != Target(u) ==> SameAt(m, m', a);
        }
      } else {
        assert PresenceAfter(us, Target(u), Target(u) in m).None?;
      }
    }
  }

  lemma {:induction false} PresenceConcat(us: seq<RowUpdate>, vs: seq<RowUpdate>, a: Addr, present: bool)
    requires Avoids(us, a)
    ensures PresenceAfter(us + vs, a, present) == PresenceAfter(vs, a, present)
  {
    if us == [] {
      assert us + vs == vs;
    } else {
      assert us[0] in us && forall u | u in us[1..] :: u in us;
      assert (us + vs)[1..] == us[1..] + vs;
      PresenceConcat(us[1..], vs, a, present);
    }
  }

  lemma {:induction false} SamePresence(us: seq<RowUpdate>, vs: seq<RowUpdate>, ws: seq<RowUpdate>, a: Addr,
      present: bool)
    requires forall p :: PresenceAfter(vs, a, p) == PresenceAfter(ws, a, p)
    ensures PresenceAfter(us + vs, a, present) == PresenceAfter(us + ws, a, present)
    decreases |us|
  {
    if us == [] {
      assert us + vs == vs && us + ws == ws;
    } else {
      assert (us + vs)[1..] == us[1..] + vs && (us + ws)[1..] == us[1..] + ws;
      forall p ensures PresenceAfter(us[1..] + vs, a, p) == PresenceAfter(us[1..] + ws, a, p) {
        SamePresence(us[1..], vs, ws, a, p);
      }
    }
  }

  /** At a row that the rejected mutation does not touch, nothing changes. */
  lemma {:induction false} RejectLeavesPresence(pending: seq<Pending>, id: string, a: Addr, present: bool)
    requires !Touches(pending, id, a)
    ensures PresenceAfter(Updates(Reject(pending, id)), a, present) == PresenceAfter(Updates(pending), a, present)
    decreases |pending|
  {
    if pending != [] {
      var p, rest := pending[0], pending[1..];
      assert p in pending && forall q | q in rest :: q in pending;
      assert !Touches(rest, id, a);
      forall b ensures PresenceAfter(Updates(Reject(rest, id)), a, b) == PresenceAfter(Updates(rest), a, b) {
        RejectLeavesPresence(rest, id, a, b);
      }
      if p.mutationId == id {
        PresenceConcat(p.updates, Updates(rest), a, present);
        assert Reject(pending, id) == Reject(rest, id);
      } else {
        SamePresence(p.updates, Updates(Reject(rest, id)), Updates(rest), a, present);
        assert Reject(pending, id) == [p] + Reject(rest, id) && ([p] + Reject(rest, id))[1..] == Reject(rest, id);
      }
    }
  }

  /**
   Exactly when the view stays defined after a reject: at every row that the rejected mutation touched, the
   updates that remain must be possible one after the other, starting from whether the row is committed.
   */
  lemma RejectKeepsViewIff(gold: StoreData, pending: seq<Pending>, id: string)
    requires Unique(gold) && View(Some(gold), pending).Shows?
    ensures View(Some(gold), Reject(pending, id)).Shows?
            <==> forall a | Touches(pending, id, a) ::
                   PresenceAfter(Updates(Reject(pending, id)), a, a in Keys(gold)).Some?
  {
    hide PutAll, ApplyAll, Keys, Unique, Touches, PresenceAfter, Updates, Reject;
    var m := Keys(gold);
    ReplayRefines(gold, Updates(pending));
    ReplayRefines(gold, Updates(Reject(pending, id)));
    DefinedRowByRow(m, Updates(pending));
    DefinedRowByRow(m, Updates(Reject(pending, id)));
    forall a | !Touches(pending, id, a) ensures PresenceAfter(Updates(Reject(pending, id)), a, a in m).Some? {
      RejectLeavesPresence(pending, id, a, a in m);
    }
  }

  /** Rejecting an insert that a later pending update builds on makes every later read of the store throw. */
  lemma RejectCanBreakTheView()
    ensures exists gold: StoreData, pending: seq<Pending>, id: string ::
              && Unique(gold) && View(Some(gold), pending).Shows? && View(Some(gold), Reject(pending, id)) == Throws
  {
    var row: Row := map["id" := Str("u")];
    var gold := StoreData([], [], [], "");
    var insert, edit := RowUpdate(User, Insert, row), RowUpdate(User, Update, row);
    var pending := [Pending([insert], "a"), Pending([edit], "b")];
    assert pending[1..] == [Pending([edit], "b")] && pending[1..][1..] == [];
    assert Updates(pending[1..][1..]) == [] && Updates(pending[1..]) == [edit] && Updates(pending) == [insert, edit];
    assert Reject([], "a") == [] && Reject(pending[1..], "a") == [pending[1]] && Reject(pending, "a") == [pending[1]];
    assert Updates([pending[1]]) == [edit];
    ReplayRefines(gold, [insert, edit]);
    ReplayRefines(gold, [edit]);
    assert Keys(gold) == map[];
    PutAllTwo(Keys(gold), insert, edit);
    PutAllOne(Keys(gold), edit);
    assert View(Some(gold), pending).Shows?;
    assert View(Some(gold), Reject(pending, "a")) == Throws;
  }

  // ---------------------------------------------------------------- the algebra of acknowledgements

  /** Committing leaves the longest suffix of the pending list in which nothing is acknowledged. */
  lemma CommitIsLongestCleanSuffix(pending: seq<Pending>, ids: seq<string>, k: nat)
    requires k <= |pending|
    ensures |Commit(pending, ids)| <= |pending|
    ensures Commit(pending, ids) == pending[|pending| - |Commit(pending, ids)|..]
    ensures (forall p | p in pending[k..] :: p.mutationId !in ids) <==> |pending[k..]| <= |Commit(pending, ids)|
  {
    var last := LastAcked(pending, ids);
    if k <= last {
      assert pending[k..][last - k] == pending[last];
    }
  }

  /** Committing in two steps is committing the union, so acknowledgements commute and are idempotent. */
  lemma CommitUnion(pending: seq<Pending>, a: seq<string>, b: seq<string>)
    ensures Commit(Commit(pending, a), b) == Commit(pending, a + b)
    ensures Commit(Commit(pending, a), b) == Commit(Commit(pending, b), a)
    ensures Commit(Commit(pending, a), a) == Commit(pending, a)
  {
    CommitTwice(pending, a, b);
    CommitTwice(pending, b, a);
    CommitTwice(pending, a, a);
    SameIdsCommitAlike(pending, a + b, b + a);
    SameIdsCommitAlike(pending, a + a, a);
  }

  /** How committing sees the newest entry of the list. */
  lemma CommitNewest(pending: seq<Pending>, p: Pending, ids: seq<string>)
    ensures Commit(pending + [p], ids) == if p.mutationId in ids then [] else Commit(pending, ids) + [p]
  {
    assert (pending + [p])[..|pending|] == pending;
  }

  lemma {:induction false} CommitTwice(pending: seq<Pending>, a: seq<string>, b: seq<string>)
    ensures Commit(Commit(pending, a), b) == Commit(pending, a + b)
  {
    hide LastAcked, Commit;
    if pending == [] {
      CommitNone(a);
      CommitNone(b);
      CommitNone(a + b);
    } else {
      var n := |pending| - 1;
      var q, p := pending[..n], pending[n];
      assert pending == q + [p];
      assert p.mutationId in a + b <==> p.mutationId in a || p.mutationId in b;
      CommitNewest(q, p, a);
      CommitNewest(q, p, a + b);
      CommitNewest(Commit(q, a), p, b);
      CommitNone(b);
      CommitTwice(q, a, b);
    }
  }

  lemma CommitNone(ids: seq<string>)
    ensures Commit([], ids) == []
  {
  }

  lemma SameIdsCommitAlike(pending: seq<Pending>, a: seq<string>, b: seq<string>)
    requires forall id :: id in a <==> id in b
    ensures Commit(pending, a) == Commit(pending, b)
  {
  }

  /** Acknowledging some mutations and rejecting another can happen in either order. */
  lemma {:induction false} CommitAndRejectCommute(pending: seq<Pending>, ids: seq<string>, id: string)
    requires id !in ids
    ensures Commit(Reject(pending, id), ids) == Reject(Commit(pending, ids), id)
  {
    hide LastAcked, Commit;
    if pending == [] {
      CommitNone(ids);
    } else {
      var n := |pending| - 1;
      var q, p := pending[..n], pending[n];
      assert pending == q + [p];
      CommitAndRejectCommute(q, ids, id);
      RejectConcat(q, [p], id);
      RejectConcat(Commit(q, ids), [p], id);
      CommitNewest(q, p, ids);
      CommitNewest(Reject(q, id), p, ids);
      assert Reject([p], id) == if p.mutationId == id then [] else [p] by {
        assert [p][1..] == [];
      }
      assert Reject(q, id) + [] == Reject(q, id) && Reject(Commit(q, ids), id) + [] == Reject(Commit(q, ids), id);
    }
  }
}
