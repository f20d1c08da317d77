/**
 Laws of the mutators: the client replica commutes with the server, users cannot touch each other's
 rows, and the database keeps its invariants over every serialised run of every user.
 */
module MutatorLaws {
  import opened Prelude
  import opened AppSchema
  import opened OptimisticStore
  import opened KeyedStore
  import opened StoreAlgebra
  import opened Mutators

  // ---------------------------------------------------------------- whose row is it

  /** The owner is part of the key: users own their user row, their files and their file states. */
  predicate OwnAddr(userId: string, a: Addr) {
    var me := Some(Str(userId));
    match a.table
    case User => a.key == [me]
    case FileState => |a.key| == 2 && a.key[0] == me
    case File => |a.key| == 3 && a.key[1] == me
  }

  function OwnerColumn(t: Table): string {
    match t
    case User => "id"
    case FileState => "userId"
    case File => "ownerId"
  }

  lemma OwnedByColumn(userId: string, t: Table, row: Row)
    ensures OwnAddr(userId, AddrOf(t, row)) <==> Holds(row, OwnerColumn(t), userId)
  {
    var key := KeyOf(t, row);
    match t {
      case User => assert key == [Column(row, "id")];
      case FileState => assert key == [Column(row, "userId"), Column(row, "fileId")];
      case File => assert key == [Column(row, "id"), Column(row, "ownerId"), Column(row, "publishedSlug")];
    }
  }

  function Own(userId: string, db: Keyed): Keyed {
    map a | a in db && OwnAddr(userId, a) :: db[a]
  }

  ghost predicate Addressed(db: Keyed) {
    forall a | a in db :: AddrOf(a.table, db[a]) == a
  }

  ghost predicate TypedFiles(db: Keyed) {
    forall a | a in db && a.table == File :: FullRow(File, db[a])
  }

  ghost predicate WithinLimit(db: Keyed) {
    forall owner :: |LiveFiles(Server, db, owner)| <= MAX_NUMBER_OF_FILES
  }

  ghost predicate Sound(db: Keyed) {
    Addressed(db) && TypedFiles(db) && UniqueFileIds(db)
  }

  /** The argument types the mutators declare. */
  ghost predicate TypedArguments(m: Mutator) {
    match m
    case UserInsert(user) => FullRow(User, user)
    case UserUpdate(user) => PartialRow(User, user) && "id" in user
    case FileInsertWithState(file, fileState) => FullRow(File, file) && FullRow(FileState, fileState)
    case FileDeleteOrForget(file) => FullRow(File, file)
    case FileUpdate(partial) => PartialRow(File, partial) && "id" in partial
    case FileStateInsert(fileState) => FullRow(FileState, fileState)
    case FileStateUpdate(fileState) =>
      PartialRow(FileState, fileState) && "userId" in fileState && "fileId" in fileState
    case FileStateDelete(fileState) => "userId" in fileState && "fileId" in fileState
  }

  lemma StateKeyAddr(fileId: Option<Value>, userId: string)
    ensures AddrOf(FileState, StateKey(fileId, userId)) == Addr(FileState, [Some(Str(userId)), fileId])
  {
  }

  /** Overwriting the key columns of a partial file with those of a full one gives the full one's address. */
  lemma FileKeyWins(partial: Row, file: Row)
    requires FullRow(File, file)
    ensures AddrOf(File, partial + FileKey(file)) == AddrOf(File, file)
  {
    FileColumns(file);
    forall c | c in PrimaryKey(File) ensures Column(partial + FileKey(file), c) == Column(file, c) {
    }
    MatchesIffSameAddr(File, partial + FileKey(file), file);
  }

  // ---------------------------------------------------------------- isolation

  /** The states that a transaction sweeps away: on the server, those of a file that its owner deletes. */
  ghost predicate Swept(location: Location, userId: string, m: Mutator, db: Keyed, a: Addr) {
    && location == Server && m.FileDeleteOrForget? && Column(m.file, "ownerId") == Some(Str(userId))
    && a in db && a.table == FileState && Column(db[a], "fileId") == Column(m.file, "id")
  }

  lemma DeletedFileKey(file: Row)
    ensures AddrOf(File, FileKey(file)["isDeleted" := Bool(true)]) == AddrOf(File, file)
  {
    var key := FileKey(file)["isDeleted" := Bool(true)];
    forall c | c in PrimaryKey(File) ensures Column(key, c) == Column(file, c) {
    }
    MatchesIffSameAddr(File, key, file);
  }

  /**
   No transaction touches another user's rows: they stay as they are, except that the states of a file go when its
   owner deletes it on the server.
   */
  lemma Isolation(location: Location, userId: string, m: Mutator, db: Keyed, a: Addr)
    requires Sound(db) && Apply(location, userId, m, db).Some? && !OwnAddr(userId, a)
    ensures var db' := Apply(location, userId, m, db).value;
            if Swept(location, userId, m, db, a) then a !in db' else SameAt(db, db', a)
  {
    hide Put, KeyOf, FullRow, ValidFileId, LiveFiles;
    match m {
      case UserInsert(user) => WritesOwn(userId, db, RowUpdate(User, Insert, user), a);
      case UserUpdate(user) => WritesOwn(userId, db, RowUpdate(User, Update, user), a);
      case FileInsertWithState(file, fileState) =>
        OwnedByColumn(userId, File, file);
        OwnedByColumn(userId, FileState, fileState);
      case FileDeleteOrForget(file) =>
        StateKeyAddr(Column(file, "id"), userId);
        if Holds(file, "ownerId", userId) {
          DeletedFileKey(file);
          OwnedByColumn(userId, File, file);
          var u := RowUpdate(File, Update, FileKey(file)["isDeleted" := Bool(true)]);
          var forgotten := db - {AddrOf(FileState, StateKey(Column(file, "id"), userId))};
          var swept := if location == Client then forgotten
            else forgotten - set b | b in forgotten && IsStateOf(b, forgotten[b], Column(file, "id"));
          PutElsewhere(swept, u, a);
        }
      case FileUpdate(partial) =>
        var file := FileWithId(db, Column(partial, "id")).value;
        FileWithIdIsFile(db, Column(partial, "id"));
        FileKeyWins(partial, file);
        OwnedByColumn(userId, File, file);
        PutElsewhere(db, RowUpdate(File, Update, partial + FileKey(file)), a);
      case FileStateInsert(fileState) => OwnedByColumn(userId, FileState, fileState);
      case FileStateUpdate(fileState) => WritesOwn(userId, db, RowUpdate(FileState, Update, fileState), a);
      case FileStateDelete(fileState) =>
        StateKeyAddr(Column(fileState, "fileId"), userId);
        PutElsewhere(db, RowUpdate(FileState, Delete, StateKey(Column(fileState, "fileId"), userId)), a);
    }
  }

  lemma PutElsewhere(db: Keyed, u: RowUpdate, a: Addr)
    requires Put(db, u).Some? && Target(u) != a
    ensures SameAt(db, Put(db, u).value, a)
  {
  }

  lemma WritesOwn(userId: string, db: Keyed, u: RowUpdate, a: Addr)
    requires Put(db, u).Some? && !OwnAddr(userId, a) && Holds(u.row, OwnerColumn(u.table), userId)
    ensures SameAt(db, Put(db, u).value, a)
  {
    OwnedByColumn(userId, u.table, u.row);
    PutElsewhere(db, u, a);
  }

  lemma FileWithIdIsFile(db: Keyed, id: Option<Value>)
    requires Sound(db) && FileWithId(db, id).Some?
    ensures var file := FileWithId(db, id).value;
            && FullRow(File, file) && Column(file, "id") == id
            && AddrOf(File, file) in db && db[AddrOf(File, file)] == file
  {
    var a :| IsFileWithId(db, a, id) && FileWithId(db, id) == Some(db[a]);
  }

  // ---------------------------------------------------------------- the client mirrors the server

  /** The rows the read permissions let a user see. */
  ghost predicate CanSee(userId: string, db: Keyed, a: Addr)
    requires a in db
  {
    match a.table
    case User => Holds(db[a], "id", userId)
    case FileState => Holds(db[a], "userId", userId)
    case File =>
      || Holds(db[a], "ownerId", userId)
      || (Column(db[a], "shared") == Some(Bool(true))
          && exists s | s in db :: s.table == FileState && Column(db[s], "fileId") == Column(db[a], "id")
                                   && Holds(db[s], "userId", userId))
  }

  ghost function Replica(userId: string, db: Keyed): Keyed {
    map a | a in db && CanSee(userId, db, a) :: db[a]
  }

  /**
   A client database mirrors the server's for a user: both hold the same own rows, and every file the
   client has is the server's.
   */
  ghost predicate Mirrors(userId: string, client: Keyed, server: Keyed) {
    && Own(userId, client) == Own(userId, server)
    && Addressed(client)
    && forall a | a in client && a.table == File :: a in server && client[a] == server[a]
  }

  /** What mirrors a sound database is sound: its files are files of the database. */
  lemma MirrorIsSound(userId: string, client: Keyed, server: Keyed)
    requires Mirrors(userId, client, server) && Sound(server)
    ensures Sound(client)
  {
  }

  lemma ReplicaMirrors(userId: string, db: Keyed)
    requires Sound(db)
    ensures Mirrors(userId, Replica(userId, db), db)
  {
    var replica := Replica(userId, db);
    forall a | a in db && OwnAddr(userId, a) ensures a in replica {
      OwnedByColumn(userId, a.table, db[a]);
    }
    assert Own(userId, replica) == Own(userId, db);
  }

  lemma OwnAt(userId: string, client: Keyed, server: Keyed, a: Addr)
    requires Own(userId, client) == Own(userId, server) && OwnAddr(userId, a)
    ensures SameAt(client, server, a)
  {
    assert a in Own(userId, client) <==> a in client;
    assert a in Own(userId, server) <==> a in server;
    if a in client {
      assert Own(userId, client)[a] == client[a] && Own(userId, server)[a] == server[a];
    }
  }

  /** A write to a row of the user succeeds on both sides or on neither, and keeps the own rows equal. */
  lemma OwnWrite(userId: string, client: Keyed, server: Keyed, u: RowUpdate)
    requires Own(userId, client) == Own(userId, server) && OwnAddr(userId, Target(u))
    ensures Put(client, u).Some? <==> Put(server, u).Some?
    ensures Put(server, u).Some? ==> Own(userId, Put(client, u).value) == Own(userId, Put(server, u).value)
  {
    OwnAt(userId, client, server, Target(u));
    if Put(server, u).Some? {
      var c, s := Put(client, u).value, Put(server, u).value;
      forall a | OwnAddr(userId, a) ensures SameAt(c, s, a) {
        OwnAt(userId, client, server, a);
      }
    }
  }

  lemma OwnUpsert(userId: string, client: Keyed, server: Keyed, t: Table, row: Row)
    requires Own(userId, client) == Own(userId, server) && OwnAddr(userId, AddrOf(t, row))
    ensures Own(userId, Upsert(client, t, row)) == Own(userId, Upsert(server, t, row))
  {
    var a := AddrOf(t, row);
    OwnAt(userId, client, server, a);
    forall b | OwnAddr(userId, b) ensures SameAt(Upsert(client, t, row), Upsert(server, t, row), b) {
      OwnAt(userId, client, server, b);
    }
  }

  /** The client counts the same live files as the server, though it tests truthiness. */
  lemma SameLiveFiles(userId: string, client: Keyed, server: Keyed)
    requires Mirrors(userId, client, server) && Sound(server)
    ensures LiveFiles(Client, client, userId) == LiveFiles(Server, server, userId)
  {
    forall a: Addr | a.table == File && (a in client || a in server)
      ensures a in LiveFiles(Client, client, userId) <==> a in LiveFiles(Server, server, userId)
    {
      if a in client { OwnedByColumn(userId, File, client[a]); }
      if a in server { OwnedByColumn(userId, File, server[a]); }
      if OwnAddr(userId, a) {
        OwnAt(userId, client, server, a);
        if a in server { FileColumns(server[a]); }
      }
    }
  }

  /** Looking up one of the user's own files by id gives the same row on both sides. */
  lemma SameFileWithId(userId: string, client: Keyed, server: Keyed, id: Option<Value>)
    requires Mirrors(userId, client, server) && Sound(server)
    requires FileWithId(server, id).Some? && Holds(FileWithId(server, id).value, "ownerId", userId)
    ensures FileWithId(client, id) == FileWithId(server, id)
  {
    hide KeyOf, FullRow, OwnAddr, Own;
    FileWithIdIsFile(server, id);
    var file := FileWithId(server, id).value;
    var a := AddrOf(File, file);
    OwnedByColumn(userId, File, file);
    OwnAt(userId, client, server, a);
    assert IsFileWithId(client, a, id);
    var b := FileWithIdFrom(client, id);
    assert client[b] == server[b];
  }

  lemma FileWithIdFrom(db: Keyed, id: Option<Value>) returns (a: Addr)
    requires FileWithId(db, id).Some?
    ensures a in db && a.table == File && Column(db[a], "id") == id && FileWithId(db, id) == Some(db[a])
  {
    a :| IsFileWithId(db, a, id) && FileWithId(db, id) == Some(db[a]);
  }

  lemma OwnStateAddr(userId: string, a: Addr, row: Row)
    requires a.table == FileState && AddrOf(FileState, row) == a && OwnAddr(userId, a)
    ensures a == Addr(FileState, [Some(Str(userId)), Column(row, "fileId")])
  {
    assert KeyOf(FileState, row) == [Column(row, "userId"), Column(row, "fileId")];
  }

  /** Removing an own state and then sweeping every state of the file keeps the own rows of both sides equal. */
  lemma SweepKeepsOwn(userId: string, client: Keyed, server: Keyed, fileId: Option<Value>)
    requires Own(userId, client) == Own(userId, server) && Addressed(server)
    ensures var key := AddrOf(FileState, StateKey(fileId, userId));
            var swept := set a | a in server - {key} && IsStateOf(a, (server - {key})[a], fileId);
            Own(userId, client - {key}) == Own(userId, (server - {key}) - swept)
  {
    var key := AddrOf(FileState, StateKey(fileId, userId));
    var swept := set a | a in server - {key} && IsStateOf(a, (server - {key})[a], fileId);
    StateKeyAddr(fileId, userId);
    forall a | OwnAddr(userId, a) ensures SameAt(client - {key}, (server - {key}) - swept, a) {
      OwnAt(userId, client, server, a);
      if a in server && IsStateOf(a, server[a], fileId) {
        OwnStateAddr(userId, a, server[a]);
      }
    }
  }

  /** Every write of a mutator is to a row of its user, so the other files of a mirror stay a mirror. */
  lemma MirrorsAfter(userId: string, m: Mutator, client: Keyed, server: Keyed)
    requires Mirrors(userId, client, server) && Sound(server)
    requires Apply(Client, userId, m, client).Some? && Apply(Server, userId, m, server).Some?
    requires var client', server' := Apply(Client, userId, m, client).value, Apply(Server, userId, m, server).value;
             Own(userId, client') == Own(userId, server') && Addressed(client')
    ensures Mirrors(userId, Apply(Client, userId, m, client).value, Apply(Server, userId, m, server).value)
  {
    hide Apply, KeyOf, FullRow, Own, OwnAddr;
    var client', server' := Apply(Client, userId, m, client).value, Apply(Server, userId, m, server).value;
    forall a | a in client' && a.table == File ensures a in server' && client'[a] == server'[a] {
      if OwnAddr(userId, a) {
        OwnAt(userId, client', server', a);
      } else {
        Isolation(Client, userId, m, client, a);
        Isolation(Server, userId, m, server, a);
      }
    }
  }
}
