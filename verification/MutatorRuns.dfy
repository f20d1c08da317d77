/**
 The server's database over serialised runs of all users' mutators, and the commuting square between
 the server and a client replica.
 */
module MutatorRuns {
  import opened Prelude
  import opened AppSchema
  import opened OptimisticStore
  import opened KeyedStore
  import opened StoreAlgebra
  import opened Mutators
  import opened MutatorLaws

  // ---------------------------------------------------------------- soundness is kept

  lemma PutAddressed(db: Keyed, u: RowUpdate)
    requires Addressed(db) && Put(db, u).Some?
    ensures Addressed(Put(db, u).value)
  {
    if u.event == Update {
      MergeKeepsAddr(u.table, db[Target(u)], u.row);
    }
  }

  lemma UpsertAddressed(db: Keyed, t: Table, row: Row)
    requires Addressed(db)
    ensures Addressed(Upsert(db, t, row))
  {
    if AddrOf(t, row) in db {
      MergeKeepsAddr(t, db[AddrOf(t, row)], row);
    }
  }

  lemma ApplyAddressed(location: Location, userId: string, m: Mutator, db: Keyed)
    requires Addressed(db) && Apply(location, userId, m, db).Some?
    ensures Addressed(Apply(location, userId, m, db).value)
  {
    hide Put, KeyOf, Upsert, ValidFileId, LiveFiles;
    match m {
      case UserInsert(user) => PutAddressed(db, RowUpdate(User, Insert, user));
      case UserUpdate(user) => PutAddressed(db, RowUpdate(User, Update, user));
      case FileInsertWithState(file, fileState) =>
        UpsertAddressed(db[AddrOf(File, file) := file], FileState, fileState);
      case FileDeleteOrForget(file) =>
        if Holds(file, "ownerId", userId) {
          var forgotten := db - {AddrOf(FileState, StateKey(Column(file, "id"), userId))};
          var swept := if location == Client then forgotten
            else forgotten - set a | a in forgotten && IsStateOf(a, forgotten[a], Column(file, "id"));
          PutAddressed(swept, RowUpdate(File, Update, FileKey(file)["isDeleted" := Bool(true)]));
        }
      case FileUpdate(partial) =>
        var file := FileWithId(db, Column(partial, "id")).value;
        PutAddressed(db, RowUpdate(File, Update, partial + FileKey(file)));
      case FileStateInsert(fileState) => UpsertAddressed(db, FileState, fileState);
      case FileStateUpdate(fileState) => PutAddressed(db, RowUpdate(FileState, Update, fileState));
      case FileStateDelete(fileState) =>
        PutAddressed(db, RowUpdate(FileState, Delete, StateKey(Column(fileState, "fileId"), userId)));
    }
  }

  /**
   What one transaction does to the file at an address.  A new file is the argument of an insert; an old
   one stays, and is either unchanged or merged with a partial row that has none of its immutable columns
   set, and that only if it was not deleted or the merge changes nothing.
   */
  ghost predicate FileStep(m: Mutator, before: Option<Row>, after: Option<Row>) {
    match before
    case None => after.Some? ==> m.FileInsertWithState? && after.value == m.file && ValidFileId(Column(m.file, "id"))
    case Some(row) =>
      && after.Some?
      && (after.value == row
          || (!Truthy(Column(row, "isDeleted")) && MergedSafely(File, row, after.value)))
  }

  ghost predicate MergedSafely(t: Table, row: Row, after: Row) {
    exists p: Row :: !ChangesImmutable(t, p) && PartialRow(t, p) && after == row + p
  }

  function RowAt(db: Keyed, a: Addr): Option<Row> {
    if a in db then Some(db[a]) else None
  }

  lemma FileKeyIsHarmless(partial: Row, file: Row)
    requires PartialRow(File, partial) && FullRow(File, file) && !ChangesImmutable(File, partial)
    ensures PartialRow(File, partial + FileKey(file)) && !ChangesImmutable(File, partial + FileKey(file))
  {
    hide StringColumns, NumberColumns, BooleanColumns, OptionalColumns, ImmutableColumns, Truthy;
    FileColumnTypes();
    var p := partial + FileKey(file);
    forall c | c in ImmutableColumns(File) ensures !Truthy(Column(p, c)) {
      assert c !in {"id", "ownerId", "publishedSlug"};
      assert Column(p, c) == Column(partial, c);
    }
  }

  lemma DeleteMarkIsHarmless(file: Row)
    requires FullRow(File, file)
    ensures var p := FileKey(file)["isDeleted" := Bool(true)];
            PartialRow(File, p) && !ChangesImmutable(File, p)
  {
    hide StringColumns, NumberColumns, BooleanColumns, OptionalColumns, ImmutableColumns;
    FileColumnTypes();
    var p := FileKey(file)["isDeleted" := Bool(true)];
    forall c | c in ImmutableColumns(File) ensures !Truthy(Column(p, c)) {
      assert c !in {"id", "ownerId", "publishedSlug", "isDeleted"};
    }
  }

  /** Marking a deleted file deleted again changes nothing. */
  lemma DeletingTwice(row: Row, file: Row)
    requires FullRow(File, row) && FullRow(File, file) && AddrOf(File, row) == AddrOf(File, file)
    requires Truthy(Column(row, "isDeleted"))
    ensures row + FileKey(file)["isDeleted" := Bool(true)] == row
  {
    hide FullRow, KeyOf;
    FileColumns(row);
    FileColumns(file);
    MatchesIffSameAddr(File, row, file);
    var p := FileKey(file)["isDeleted" := Bool(true)];
    forall c | c in p ensures c in row && row[c] == p[c] {
      if c != "isDeleted" {
        assert c in PrimaryKey(File);
        assert Column(row, c) == Column(file, c);
      }
    }
  }

  lemma DeleteStep(userId: string, file: Row, db: Keyed, a: Addr)
    requires Sound(db) && FullRow(File, file) && Apply(Server, userId, FileDeleteOrForget(file), db).Some?
    requires a.table == File
    ensures var m := FileDeleteOrForget(file);
            FileStep(m, RowAt(db, a), RowAt(Apply(Server, userId, m, db).value, a))
  {
    hide KeyOf, FullRow, PartialRow, ChangesImmutable, FileKey;
    if Holds(file, "ownerId", userId) {
      DeletedFileKey(file);
      DeleteMarkIsHarmless(file);
      if a == AddrOf(File, file) && a in db && Truthy(Column(db[a], "isDeleted")) {
        DeletingTwice(db[a], file);
      }
    }
  }

  lemma UpdateStep(userId: string, partial: Row, db: Keyed, a: Addr)
    requires Sound(db) && PartialRow(File, partial) && Apply(Server, userId, FileUpdate(partial), db).Some?
    requires a.table == File
    ensures var m := FileUpdate(partial);
            FileStep(m, RowAt(db, a), RowAt(Apply(Server, userId, m, db).value, a))
  {
    hide KeyOf, FullRow, PartialRow, ChangesImmutable, FileKey;
    var file := FileWithId(db, Column(partial, "id")).value;
    FileWithIdIsFile(db, Column(partial, "id"));
    FileKeyWins(partial, file);
    FileKeyIsHarmless(partial, file);
  }

  lemma FileStepHolds(userId: string, m: Mutator, db: Keyed, a: Addr)
    requires Sound(db) && TypedArguments(m) && Apply(Server, userId, m, db).Some? && a.table == File
    ensures FileStep(m, RowAt(db, a), RowAt(Apply(Server, userId, m, db).value, a))
  {
    hide KeyOf, FullRow, PartialRow, ValidFileId, LiveFiles, ChangesImmutable, FileKey;
    match m {
      case UserInsert(user) =>
      case UserUpdate(user) =>
      case FileInsertWithState(file, fileState) =>
      case FileDeleteOrForget(file) => DeleteStep(userId, file, db, a);
      case FileUpdate(partial) => UpdateStep(userId, partial, db, a);
      case FileStateInsert(fileState) =>
      case FileStateUpdate(fileState) =>
      case FileStateDelete(fileState) =>
    }
  }

  /** A user row never goes away either, and only a merge without immutable columns changes it. */
  ghost predicate UserStep(m: Mutator, before: Option<Row>, after: Option<Row>) {
    match before
    case None => after.Some? ==> m.UserInsert? && after.value == m.user
    case Some(row) => after.Some? && (after.value == row || MergedSafely(User, row, after.value))
  }

  lemma UserStepHolds(userId: string, m: Mutator, db: Keyed, a: Addr)
    requires TypedArguments(m) && Apply(Server, userId, m, db).Some? && a.table == User
    ensures UserStep(m, RowAt(db, a), RowAt(Apply(Server, userId, m, db).value, a))
  {
    hide KeyOf, FullRow, PartialRow, ValidFileId, LiveFiles, ChangesImmutable, FileKey;
  }

  lemma FileColumnsInKey(db: Keyed, a: Addr)
    requires Addressed(db) && a in db && a.table == File
    ensures a.key == [Column(db[a], "id"), Column(db[a], "ownerId"), Column(db[a], "publishedSlug")]
  {
    assert KeyOf(File, db[a]) == a.key;
  }

  lemma ServerStaysSound(userId: string, m: Mutator, db: Keyed)
    requires Sound(db) && TypedArguments(m) && Apply(Server, userId, m, db).Some?
    ensures Sound(Apply(Server, userId, m, db).value)
  {
    hide Apply, KeyOf, FullRow, PartialRow, ValidFileId, LiveFiles, ChangesImmutable;
    var db' := Apply(Server, userId, m, db).value;
    ApplyAddressed(Server, userId, m, db);
    forall a | a in db' && a.table == File ensures FullRow(File, db'[a]) {
      FileStepHolds(userId, m, db, a);
      if a in db && db'[a] != db[a] {
        var p :| !ChangesImmutable(File, p) && PartialRow(File, p) && db'[a] == db[a] + p;
        MergeStaysFull(File, db[a], p);
      }
    }
    forall a, b | a in db' && b in db' && a.table == File && b.table == File
                  && Column(db'[a], "id") == Column(db'[b], "id")
      ensures a == b
    {
      SameIdSameFile(userId, m, db, a, b);
    }
  }

  lemma SameIdSameFile(userId: string, m: Mutator, db: Keyed, a: Addr, b: Addr)
    requires Sound(db) && TypedArguments(m) && Apply(Server, userId, m, db).Some?
    requires var db' := Apply(Server, userId, m, db).value;
             a in db' && b in db' && a.table == File && b.table == File && Column(db'[a], "id") == Column(db'[b], "id")
    ensures a == b
  {
    var db' := Apply(Server, userId, m, db).value;
    ApplyAddressed(Server, userId, m, db);
    FileStepHolds(userId, m, db, a);
    FileStepHolds(userId, m, db, b);
    FileColumnsInKey(db', a);
    FileColumnsInKey(db', b);
    if a in db { FileColumnsInKey(db, a); }
    if b in db { FileColumnsInKey(db, b); }
    if a in db && b in db {
      assert Column(db[a], "id") == Column(db[b], "id");
    } else if a in db {
      InsertedIdIsNew(userId, m, db, a);
    } else if b in db {
      InsertedIdIsNew(userId, m, db, b);
    }
  }

  lemma InsertedIdIsNew(userId: string, m: Mutator, db: Keyed, a: Addr)
    requires m.FileInsertWithState? && Apply(Server, userId, m, db).Some? && a in db && a.table == File
    ensures Column(db[a], "id") != Column(m.file, "id")
  {
    hide KeyOf, ValidFileId, LiveFiles;
    assert FileWithId(db, Column(m.file, "id")).None?;
    assert !IsFileWithId(db, a, Column(m.file, "id"));
  }

  lemma ServerStaysWithinLimit(userId: string, m: Mutator, db: Keyed)
    requires Sound(db) && WithinLimit(db) && TypedArguments(m) && Apply(Server, userId, m, db).Some?
    ensures WithinLimit(Apply(Server, userId, m, db).value)
  {
    var db' := Apply(Server, userId, m, db).value;
    forall owner ensures |LiveFiles(Server, db', owner)| <= MAX_NUMBER_OF_FILES {
      var before, after := LiveFiles(Server, db, owner), LiveFiles(Server, db', owner);
      forall a | a in after && a !in before ensures LiveGain(userId, m, a, owner) {
        LiveFilesGrowOnlyByInsert(userId, m, db, owner, a);
      }
      if exists a :: a in after && a !in before {
        var a :| a in after && a !in before;
        assert LiveGain(userId, m, a, owner);
        assert after <= before + {a};
        SubsetCardinality(after, before + {a});
        LimitWasChecked(userId, m, db);
      } else {
        SubsetCardinality(after, before);
      }
    }
  }

  ghost predicate LiveGain(userId: string, m: Mutator, a: Addr, owner: string) {
    m.FileInsertWithState? && a == AddrOf(File, m.file) && owner == userId
  }

  lemma LimitWasChecked(userId: string, m: Mutator, db: Keyed)
    requires m.FileInsertWithState? && Apply(Server, userId, m, db).Some?
    ensures |LiveFiles(Server, db, userId)| < MAX_NUMBER_OF_FILES && Holds(m.file, "ownerId", userId)
  {
  }

  lemma {:induction false} SubsetCardinality<T>(a: set<T>, b: set<T>)
    requires a <= b
    ensures |a| <= |b|
  {
    if a != {} {
      var x :| x in a;
      SubsetCardinality(a - {x}, b - {x});
    }
  }

  lemma LiveFilesGrowOnlyByInsert(userId: string, m: Mutator, db: Keyed, owner: string, a: Addr)
    requires Sound(db) && TypedArguments(m) && Apply(Server, userId, m, db).Some?
    requires a in LiveFiles(Server, Apply(Server, userId, m, db).value, owner) && a !in LiveFiles(Server, db, owner)
    ensures LiveGain(userId, m, a, owner)
  {
    hide Apply, KeyOf, FullRow, PartialRow, ValidFileId, ChangesImmutable;
    var db' := Apply(Server, userId, m, db).value;
    ApplyAddressed(Server, userId, m, db);
    FileStepHolds(userId, m, db, a);
    FileColumnsInKey(db', a);
    if a in db {
      FileColumnsInKey(db, a);
      FileColumns(db[a]);
    } else {
      LimitWasChecked(userId, m, db);
    }
  }

  // ---------------------------------------------------------------- serialised runs of all users

  datatype Call = Call(userId: string, mutator: Mutator)

  /** A rejected mutator is rolled back. */
  ghost function Serve(db: Keyed, call: Call): Keyed {
    match Apply(Server, call.userId, call.mutator, db)
    case None => db
    case Some(db') => db'
  }

  ghost function ServeAll(db: Keyed, calls: seq<Call>): Keyed {
    if calls == [] then db
    else Serve(ServeAll(db, calls[..|calls| - 1]), calls[|calls| - 1])
  }

  /** The first row ever stored at an address. */
  ghost function Birth(db: Keyed, calls: seq<Call>, a: Addr): Option<Row> {
    if calls == [] then RowAt(db, a)
    else
      var earlier := Birth(db, calls[..|calls| - 1], a);
      if earlier.Some? then earlier else RowAt(ServeAll(db, calls), a)
  }

  /** An immutable column of a stored row is as it was first written, unless it has become falsy. */
  ghost predicate ImmutableKept(t: Table, birth: Row, row: Row) {
    forall c | c in ImmutableColumns(t) :: Column(row, c) == Column(birth, c) || !Truthy(Column(row, c))
  }

  ghost predicate RowHistory(initial: Keyed, calls: seq<Call>, a: Addr) {
    var row, birth := RowAt(ServeAll(initial, calls), a), Birth(initial, calls, a);
    && (birth.Some? <==> row.Some?)
    && (row.Some? ==> ImmutableKept(a.table, birth.value, row.value))
    && (row.Some? && a.table == File && a !in initial ==> ValidFileId(Column(row.value, "id")))
  }

  lemma MergeKeepsImmutable(t: Table, birth: Row, row: Row, after: Row)
    requires ImmutableKept(t, birth, row) && MergedSafely(t, row, after)
    ensures ImmutableKept(t, birth, after)
  {
    var p :| !ChangesImmutable(t, p) && PartialRow(t, p) && after == row + p;
    forall c | c in ImmutableColumns(t) ensures Column(after, c) == Column(birth, c) || !Truthy(Column(after, c)) {
      assert Column(row, c) == Column(birth, c) || !Truthy(Column(row, c));
      assert !Truthy(Column(p, c));
    }
  }

  /**
   Over every serialised run of every user's mutators, accepted or rejected: file ids stay unique and
   rows stay at their keys, no owner ever has more live files than the limit, user and file rows are
   never removed, every created file has a valid id, and an immutable column either still holds the
   first value written or has become falsy, which is all the truthiness assertion guarantees.
   */
  lemma {:induction false} ServerInvariants(initial: Keyed, calls: seq<Call>, a: Addr)
    requires Sound(initial) && WithinLimit(initial)
    requires forall call | call in calls :: TypedArguments(call.mutator)
    ensures Sound(ServeAll(initial, calls)) && WithinLimit(ServeAll(initial, calls))
    ensures a.table != FileState ==> RowHistory(initial, calls, a)
  {
    hide Apply, KeyOf, FullRow, ValidFileId, ChangesImmutable, WithinLimit, Sound, MergedSafely, ImmutableColumns;
    if calls != [] {
      var n := |calls| - 1;
      var earlier, call := calls[..n], calls[n];
      ServerInvariants(initial, earlier, a);
      var db, db' := ServeAll(initial, earlier), ServeAll(initial, calls);
      assert call in calls;
      if Apply(Server, call.userId, call.mutator, db).Some? {
        ServerStaysSound(call.userId, call.mutator, db);
        ServerStaysWithinLimit(call.userId, call.mutator, db);
        if a.table != FileState {
          RowHistoryStep(initial, calls, a);
        }
      }
    }
  }

  lemma RowHistoryStep(initial: Keyed, calls: seq<Call>, a: Addr)
    requires calls != [] && a.table != FileState
    requires var n := |calls| - 1; var db, call := ServeAll(initial, calls[..n]), calls[n];
             && Sound(db) && TypedArguments(call.mutator) && RowHistory(initial, calls[..n], a)
             && Apply(Server, call.userId, call.mutator, db).Some?
    ensures RowHistory(initial, calls, a)
  {
    hide Apply, KeyOf, FullRow, PartialRow, ValidFileId, ChangesImmutable, Sound, MergedSafely, TypedArguments,
        ImmutableColumns;
    var n := |calls| - 1;
    var db, call := ServeAll(initial, calls[..n]), calls[n];
    var db' := Apply(Server, call.userId, call.mutator, db).value;
    var birth := Birth(initial, calls[..n], a);
    if a.table == File {
      FileStepHolds(call.userId, call.mutator, db, a);
      if a in db && db'[a] != db[a] {
        MergeKeepsImmutable(File, birth.value, db[a], db'[a]);
        SameFileId(call.userId, call.mutator, db, a);
      }
    } else {
      UserStepHolds(call.userId, call.mutator, db, a);
      if a in db && db'[a] != db[a] {
        MergeKeepsImmutable(User, birth.value, db[a], db'[a]);
      }
    }
  }

  lemma SameFileId(userId: string, m: Mutator, db: Keyed, a: Addr)
    requires Sound(db) && Apply(Server, userId, m, db).Some?
    requires a.table == File && a in db && a in Apply(Server, userId, m, db).value
    ensures Column(Apply(Server, userId, m, db).value[a], "id") == Column(db[a], "id")
  {
    hide Apply, KeyOf;
    ApplyAddressed(Server, userId, m, db);
    FileColumnsInKey(db, a);
    FileColumnsInKey(Apply(Server, userId, m, db).value, a);
  }

  /** Once a file is soft-deleted, no later call of anyone changes its row. */
  lemma {:induction false} DeletedIsFinal(initial: Keyed, calls: seq<Call>, more: seq<Call>, a: Addr)
    requires Sound(initial) && WithinLimit(initial)
    requires forall call | call in calls + more :: TypedArguments(call.mutator)
    requires var db := ServeAll(initial, calls); a in db && a.table == File && Truthy(Column(db[a], "isDeleted"))
    ensures SameAt(ServeAll(initial, calls), ServeAll(initial, calls + more), a)
  {
    hide Apply, KeyOf, FullRow, ValidFileId, MergedSafely, WithinLimit, Sound;
    if more == [] {
      assert calls + more == calls;
    } else {
      var n := |more| - 1;
      var earlier, call := calls + more[..n], more[n];
      assert calls + more == earlier + [call];
      assert (earlier + [call])[..|earlier|] == earlier;
      assert forall c | c in earlier :: c in calls + more;
      assert call in calls + more;
      DeletedIsFinal(initial, calls, more[..n], a);
      ServerInvariants(initial, earlier, a);
      var db := ServeAll(initial, earlier);
      if Apply(Server, call.userId, call.mutator, db).Some? {
        FileStepHolds(call.userId, call.mutator, db, a);
      }
    }
  }

  // ---------------------------------------------------------------- who can see what

  /**
   On the server a user can record a visit to a file exactly when the file exists and is theirs or shared,
   and the visit makes the file one that the read permissions let them see.
   */
  lemma VisitNeedsAndGivesAccess(userId: string, fileState: Row, db: Keyed, a: Addr)
    requires Sound(db) && FullRow(FileState, fileState) && Holds(fileState, "userId", userId)
    requires IsFileWithId(db, a, Column(fileState, "fileId"))
    ensures Apply(Server, userId, FileStateInsert(fileState), db).Some?
            <==> Holds(db[a], "ownerId", userId) || Column(db[a], "shared") == Some(Bool(true))
    ensures Apply(Server, userId, FileStateInsert(fileState), db).Some? ==>
              var db' := Apply(Server, userId, FileStateInsert(fileState), db).value;
              a in db' && CanSee(userId, db', a)
  {
    hide KeyOf, FullRow;
    var id := Column(fileState, "fileId");
    var b := FileWithIdFrom(db, id);
    assert a == b;
    FileColumns(db[a]);
    if Apply(Server, userId, FileStateInsert(fileState), db).Some? {
      var s, db' := AddrOf(FileState, fileState), Upsert(db, FileState, fileState);
      UpsertAddressed(db, FileState, fileState);
      SameStateColumns(db'[s], fileState);
      assert s in db' && s.table == FileState;
    }
  }

  lemma NoVisitWithoutFile(userId: string, fileState: Row, db: Keyed)
    requires forall a :: !IsFileWithId(db, a, Column(fileState, "fileId"))
    ensures Apply(Server, userId, FileStateInsert(fileState), db).None?
  {
  }

  lemma SameStateColumns(row: Row, row': Row)
    requires AddrOf(FileState, row) == AddrOf(FileState, row')
    ensures Column(row, "fileId") == Column(row', "fileId") && Column(row, "userId") == Column(row', "userId")
  {
    MatchesIffSameAddr(FileState, row, row');
    assert "fileId" in PrimaryKey(FileState) && "userId" in PrimaryKey(FileState);
  }

  /** After its owner deletes a file it is marked as deleted, no state of it is left and nobody else can see it. */
  lemma DeletingHidesTheFile(userId: string, file: Row, db: Keyed, other: string, a: Addr)
    requires Sound(db) && FullRow(File, file) && Holds(file, "ownerId", userId) && other != userId
    requires Apply(Server, userId, FileDeleteOrForget(file), db).Some?
    requires IsFileWithId(Apply(Server, userId, FileDeleteOrForget(file), db).value, a, Column(file, "id"))
    ensures var db' := Apply(Server, userId, FileDeleteOrForget(file), db).value;
            && Column(db'[a], "isDeleted") == Some(Bool(true))
            && (forall s | s in db' && s.table == FileState :: Column(db'[s], "fileId") != Column(file, "id"))
            && !CanSee(other, db', a)
  {
    hide KeyOf, FullRow, FileKey;
    var m, id := FileDeleteOrForget(file), Column(file, "id");
    var db' := Apply(Server, userId, m, db).value;
    var own := AddrOf(File, file);
    ServerStaysSound(userId, m, db);
    DeletedFileKey(file);
    FileColumnsInKey(db', own);
    FileColumnsInKey(db', a);
    KeyOfFile(file);
    assert a == own;
    assert forall s | s in db' && s.table == FileState :: Column(db'[s], "fileId") != id;
  }

  lemma KeyOfFile(file: Row)
    ensures AddrOf(File, file).key == [Column(file, "id"), Column(file, "ownerId"), Column(file, "publishedSlug")]
  {
  }

  // ---------------------------------------------------------------- the commuting square

  /**
   When the server accepts a mutator, so does a client whose data mirrors the server's, and the mirror
   survives: the user's own user row, files and file states are again the same on both sides.
   */
  lemma ClientMirrorsServer(userId: string, m: Mutator, client: Keyed, server: Keyed)
    requires Mirrors(userId, client, server) && Sound(server) && TypedArguments(m)
    requires Apply(Server, userId, m, server).Some?
    ensures Apply(Client, userId, m, client).Some?
    ensures Mirrors(userId, Apply(Client, userId, m, client).value, Apply(Server, userId, m, server).value)
  {
    hide Apply;
    ClientAgrees(userId, m, client, server);
    ApplyAddressed(Client, userId, m, client);
    MirrorsAfter(userId, m, client, server);
  }

  lemma ClientAgrees(userId: string, m: Mutator, client: Keyed, server: Keyed)
    requires Mirrors(userId, client, server) && Sound(server) && TypedArguments(m)
    requires Apply(Server, userId, m, server).Some?
    ensures Apply(Client, userId, m, client).Some?
    ensures Own(userId, Apply(Client, userId, m, client).value) == Own(userId, Apply(Server, userId, m, server).value)
  {
    hide KeyOf, FullRow, PartialRow, Put, Upsert, LiveFiles, ValidFileId, ChangesImmutable, Own, OwnAddr, FileKey;
    match m {
      case UserInsert(user) =>
        OwnedByColumn(userId, User, user);
        OwnWrite(userId, client, server, RowUpdate(User, Insert, user));
      case UserUpdate(user) =>
        OwnedByColumn(userId, User, user);
        OwnWrite(userId, client, server, RowUpdate(User, Update, user));
      case FileInsertWithState(file, fileState) => InsertAgrees(userId, m, client, server);
      case FileDeleteOrForget(file) => DeleteAgrees(userId, file, client, server);
      case FileUpdate(partial) =>
        var id := Column(partial, "id");
        var file := FileWithId(server, id).value;
        FileWithIdIsFile(server, id);
        SameFileWithId(userId, client, server, id);
        FileKeyWins(partial, file);
        OwnedByColumn(userId, File, file);
        OwnWrite(userId, client, server, RowUpdate(File, Update, partial + FileKey(file)));
      case FileStateInsert(fileState) =>
        OwnedByColumn(userId, FileState, fileState);
        OwnUpsert(userId, client, server, FileState, fileState);
      case FileStateUpdate(fileState) =>
        OwnedByColumn(userId, FileState, fileState);
        OwnWrite(userId, client, server, RowUpdate(FileState, Update, fileState));
      case FileStateDelete(fileState) =>
        var key := StateKey(Column(fileState, "fileId"), userId);
        OwnedByColumn(userId, FileState, key);
        OwnWrite(userId, client, server, RowUpdate(FileState, Delete, key));
    }
  }

  lemma InsertAgrees(userId: string, m: Mutator, client: Keyed, server: Keyed)
    requires m.FileInsertWithState? && Mirrors(userId, client, server) && Sound(server)
    requires Apply(Server, userId, m, server).Some?
    ensures Apply(Client, userId, m, client).Some?
    ensures Own(userId, Apply(Client, userId, m, client).value) == Own(userId, Apply(Server, userId, m, server).value)
  {
    hide KeyOf, FullRow, Upsert, LiveFiles, ValidFileId, Own, OwnAddr;
    var file, fileState := m.file, m.fileState;
    SameLiveFiles(userId, client, server);
    OwnedByColumn(userId, File, file);
    OwnedByColumn(userId, FileState, fileState);
    OwnWrite(userId, client, server, RowUpdate(File, Insert, file));
    OwnUpsert(userId, client[AddrOf(File, file) := file], server[AddrOf(File, file) := file], FileState, fileState);
  }

  lemma DeleteAgrees(userId: string, file: Row, client: Keyed, server: Keyed)
    requires Mirrors(userId, client, server) && Sound(server)
    requires Apply(Server, userId, FileDeleteOrForget(file), server).Some?
    ensures var m := FileDeleteOrForget(file);
            && Apply(Client, userId, m, client).Some?
            && Own(userId, Apply(Client, userId, m, client).value)
               == Own(userId, Apply(Server, userId, m, server).value)
  {
    hide KeyOf, FullRow, Put, Own, OwnAddr, FileKey;
    var id := Column(file, "id");
    var key := AddrOf(FileState, StateKey(id, userId));
    OwnedByColumn(userId, FileState, StateKey(id, userId));
    if Holds(file, "ownerId", userId) {
      SweepKeepsOwn(userId, client, server, id);
      DeletedFileKey(file);
      OwnedByColumn(userId, File, file);
      var swept := (server - {key}) - set a | a in server - {key} && IsStateOf(a, (server - {key})[a], id);
      OwnWrite(userId, client - {key}, swept, RowUpdate(File, Update, FileKey(file)["isDeleted" := Bool(true)]));
    } else {
      OwnWrite(userId, client, server, RowUpdate(FileState, Delete, StateKey(id, userId)));
      PutDelete(client, StateKey(id, userId));
      PutDelete(server, StateKey(id, userId));
    }
  }

  lemma PutDelete(db: Keyed, row: Row)
    ensures Put(db, RowUpdate(FileState, Delete, row)) == Some(db - {AddrOf(FileState, row)})
  {
  }

  ghost function ApplyInTurn(location: Location, userId: string, ms: seq<Mutator>, db: Keyed): Option<Keyed>
    decreases |ms|
  {
    if ms == [] then Some(db)
    else
      match Apply(location, userId, ms[0], db)
      case None => None
      case Some(db') => ApplyInTurn(location, userId, ms[1..], db')
  }

  lemma {:induction false} MirrorRun(userId: string, ms: seq<Mutator>, client: Keyed, server: Keyed)
    requires Mirrors(userId, client, server) && Sound(server) && forall m | m in ms :: TypedArguments(m)
    requires ApplyInTurn(Server, userId, ms, server).Some?
    ensures ApplyInTurn(Client, userId, ms, client).Some?
    ensures Mirrors(userId, ApplyInTurn(Client, userId, ms, client).value,
                    ApplyInTurn(Server, userId, ms, server).value)
    decreases |ms|
  {
    hide Apply, Mirrors, Sound;
    if ms != [] {
      assert ms[0] in ms && forall m | m in ms[1..] :: m in ms;
      ClientMirrorsServer(userId, ms[0], client, server);
      ServerStaysSound(userId, ms[0], server);
      MirrorRun(userId, ms[1..], Apply(Client, userId, ms[0], client).value,
                Apply(Server, userId, ms[0], server).value);
    }
  }

  /**
   The commuting square: a client that starts from the rows it may read accepts every sequence of its
   mutators that the server accepts, and ends with the server's own user, file and file state rows.
   */
  lemma CommutingSquare(userId: string, ms: seq<Mutator>, server: Keyed)
    requires Sound(server) && forall m | m in ms :: TypedArguments(m)
    requires ApplyInTurn(Server, userId, ms, server).Some?
    ensures ApplyInTurn(Client, userId, ms, Replica(userId, server)).Some?
    ensures Own(userId, ApplyInTurn(Client, userId, ms, Replica(userId, server)).value)
            == Own(userId, ApplyInTurn(Server, userId, ms, server).value)
  {
    ReplicaMirrors(userId, server);
    MirrorRun(userId, ms, Replica(userId, server), server);
  }
}
