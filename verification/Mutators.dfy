/**
 The mutators (packages/dotcom-shared/src/mutators.ts): the same transaction code runs on the server,
 over the whole database, and on the client, over the rows it can see.
 */
module Mutators {
  import opened Prelude
  import opened AppSchema
  import opened OptimisticStore
  import opened KeyedStore

  const MAX_NUMBER_OF_FILES: nat := 200

  datatype Location = Client | Server

  datatype Mutator =
    | UserInsert(user: Row)
    | UserUpdate(user: Row)
    | FileInsertWithState(file: Row, fileState: Row)
    | FileDeleteOrForget(file: Row)
    | FileUpdate(file: Row)
    | FileStateInsert(fileState: Row)
    | FileStateUpdate(fileState: Row)
    | FileStateDelete(fileState: Row)

  predicate Holds(row: Row, column: string, s: string) {
    Column(row, column) == Some(Str(s))
  }

  predicate ChangesImmutable(t: Table, row: Row) {
    exists c | c in ImmutableColumns(t) :: Truthy(Column(row, c))
  }

  predicate IsFileWithId(db: Keyed, a: Addr, id: Option<Value>) {
    a in db && a.table == File && Column(db[a], "id") == id
  }

  /** The single row of the query for a file by id. */
  ghost function FileWithId(db: Keyed, id: Option<Value>): Option<Row> {
    if a :| IsFileWithId(db, a, id) then Some(db[a]) else None
  }

  /** The files of an owner that the limit counts; the server tests the column, the client its truthiness. */
  function LiveFiles(location: Location, db: Keyed, owner: string): set<Addr> {
    set a | a in db && a.table == File && Holds(db[a], "ownerId", owner)
            && (if location == Server then Column(db[a], "isDeleted") == Some(Bool(false))
                else !Truthy(Column(db[a], "isDeleted")))
  }

  lemma LiveAt(location: Location, db: Keyed, owner: string, a: Addr)
    requires a in db
    ensures a in LiveFiles(location, db, owner)
            <==> a.table == File && Holds(db[a], "ownerId", owner)
                 && (if location == Server then Column(db[a], "isDeleted") == Some(Bool(false))
                     else !Truthy(Column(db[a], "isDeleted")))
  {
  }

  lemma CountOne(live: set<Addr>, rows: set<Addr>, a: Addr)
    requires a in rows
    ensures |live - (rows - {a})| == |live - rows| + if a in live then 1 else 0
  {
    assert live - (rows - {a}) == (live - rows) + if a in live then {a} else {};
  }

  lemma LiveWithin(location: Location, db: Keyed, owner: string)
    ensures LiveFiles(location, db, owner) <= db.Keys
  {
  }

  predicate AllowedIdChar(c: char) {
    'a' <= c <= 'z' || 'A' <= c <= 'Z' || '0' <= c <= '9' || c == '_' || c == '-'
  }

  predicate ValidFileId(id: Option<Value>) {
    id.Some? && id.value.Str? && 16 <= |id.value.s| <= 32 && forall c | c in id.value.s :: AllowedIdChar(c)
  }

  function Upsert(db: Keyed, t: Table, row: Row): Keyed {
    var a := AddrOf(t, row);
    db[a := if a in db then db[a] + row else row]
  }

  function StateKey(fileId: Option<Value>, userId: string): Row {
    var row: Row := map["userId" := Str(userId)];
    if fileId.Some? then row["fileId" := fileId.value] else row
  }

  function FileKey(file: Row): Row {
    map c | c in file && c in {"id", "ownerId", "publishedSlug"} :: file[c]
  }

  predicate IsStateOf(a: Addr, row: Row, fileId: Option<Value>) {
    a.table == FileState && Column(row, "fileId") == fileId
  }

  /**
   The database after a mutator, or None when one of its assertions fails and the transaction is
   rolled back.  The server's file table has a uniqueness constraint on the id alone.
   */
  ghost function Apply(location: Location, userId: string, m: Mutator, db: Keyed): Option<Keyed> {
    match m
    case UserInsert(user) =>
      if !Holds(user, "id", userId) then None
      else Put(db, RowUpdate(User, Insert, user))
    case UserUpdate(user) =>
      if !Holds(user, "id", userId) || ChangesImmutable(User, user) then None
      else Put(db, RowUpdate(User, Update, user))
    case FileInsertWithState(file, fileState) =>
      if !Holds(file, "ownerId", userId) || |LiveFiles(location, db, userId)| >= MAX_NUMBER_OF_FILES
         || !ValidFileId(Column(file, "id")) || Column(file, "id") != Column(fileState, "fileId")
         || !Holds(fileState, "userId", userId)
         || (location == Server && FileWithId(db, Column(file, "id")).Some?)
         || AddrOf(File, file) in db
      then None
      else Some(Upsert(db[AddrOf(File, file) := file], FileState, fileState))
    case FileDeleteOrForget(file) =>
      var forgotten := db - {AddrOf(FileState, StateKey(Column(file, "id"), userId))};
      if !Holds(file, "ownerId", userId) then Some(forgotten)
      else
        var swept :=
          if location == Client then forgotten
          else forgotten - set a | a in forgotten && IsStateOf(a, forgotten[a], Column(file, "id"));
        Put(swept, RowUpdate(File, Update, FileKey(file)["isDeleted" := Bool(true)]))
    case FileUpdate(partial) =>
      var file := FileWithId(db, Column(partial, "id"));
      if ChangesImmutable(File, partial) || file.None? || Truthy(Column(file.value, "isDeleted"))
         || !Holds(file.value, "ownerId", userId)
      then None
      else Put(db, RowUpdate(File, Update, partial + FileKey(file.value)))
    case FileStateInsert(fileState) =>
      if !Holds(fileState, "userId", userId) then None
      else if location == Server && !MayVisit(FileWithId(db, Column(fileState, "fileId")), userId) then None
      else Some(Upsert(db, FileState, fileState))
    case FileStateUpdate(fileState) =>
      if !Holds(fileState, "userId", userId) || ChangesImmutable(FileState, fileState) then None
      else Put(db, RowUpdate(FileState, Update, fileState))
    case FileStateDelete(fileState) =>
      if !Holds(fileState, "userId", userId) then None
      else Put(db, RowUpdate(FileState, Delete, StateKey(Column(fileState, "fileId"), userId)))
  }

  predicate MayVisit(file: Option<Row>, userId: string) {
    file.Some? && (Holds(file.value, "ownerId", userId) || Truthy(Column(file.value, "shared")))
  }

  /** No two file rows share an id, which is what asking for one row by id takes for granted. */
  ghost predicate UniqueFileIds(db: Keyed) {
    forall a, b | a in db && b in db && a.table == File && b.table == File
                  && Column(db[a], "id") == Column(db[b], "id") :: a == b
  }

  /** One run of a mutator: ok is false when an assertion fails, and the database is then unchanged. */
  class Transaction {
    const location: Location
    const userId: string
    var db: Keyed

    constructor (location: Location, userId: string, db: Keyed)
      ensures this.location == location && this.userId == userId && this.db == db
    {
      this.location, this.userId, this.db := location, userId, db;
    }

    ghost predicate Did(m: Mutator, before: Keyed, ok: bool)
      reads this
    {
      var after := Apply(location, userId, m, before);
      ok == after.Some? && db == if ok then after.value else before
    }

    method Write(u: RowUpdate) returns (ok: bool)
      modifies this
      ensures ok == Put(old(db), u).Some?
      ensures db == if ok then Put(old(db), u).value else old(db)
    {
      var next := Put(db, u);
      ok := next.Some?;
      if ok {
        db := next.value;
      }
    }

    method QueryFile(id: Option<Value>) returns (file: Option<Row>)
      requires UniqueFileIds(db)
      ensures file == FileWithId(db, id)
    {
      if a :| a in db && IsFileWithId(db, a, id) {
        file := Some(db[a]);
      } else {
        file := None;
      }
    }

    method NotMaxFiles() returns (ok: bool)
      ensures ok == (|LiveFiles(location, db, userId)| < MAX_NUMBER_OF_FILES)
    {
      hide LiveFiles, Holds, Truthy, Column;
      LiveWithin(location, db, userId);
      var count := 0;
      var rows := db.Keys;
      while rows != {}
        invariant rows <= db.Keys
        invariant count == |LiveFiles(location, db, userId) - rows|
      {
        var a :| a in rows;
        LiveAt(location, db, userId, a);
        var live :=
          if location == Server then Column(db[a], "isDeleted") == Some(Bool(false))
          else !Truthy(Column(db[a], "isDeleted"));
        CountOne(LiveFiles(location, db, userId), rows, a);
        rows := rows - {a};
        if a.table == File && Holds(db[a], "ownerId", userId) && live {
          count := count + 1;
        }
      }
      assert LiveFiles(location, db, userId) - rows == LiveFiles(location, db, userId);
      ok := count < MAX_NUMBER_OF_FILES;
    }

    method InsertUser(user: Row) returns (ok: bool)
      modifies this
      ensures Did(UserInsert(user), old(db), ok)
    {
      if !Holds(user, "id", userId) {
        return false;
      }
      ok := Write(RowUpdate(User, Insert, user));
    }

    method UpdateUser(user: Row) returns (ok: bool)
      modifies this
      ensures Did(UserUpdate(user), old(db), ok)
    {
      if !Holds(user, "id", userId) || ChangesImmutable(User, user) {
        return false;
      }
      ok := Write(RowUpdate(User, Update, user));
    }

    method InsertFileWithState(file: Row, fileState: Row) returns (ok: bool)
      requires UniqueFileIds(db)
      modifies this
      ensures Did(FileInsertWithState(file, fileState), old(db), ok)
    {
      if !Holds(file, "ownerId", userId) {
        return false;
      }
      ok := NotMaxFiles();
      if !ok || !ValidFileId(Column(file, "id")) || Column(file, "id") != Column(fileState, "fileId")
         || !Holds(fileState, "userId", userId) {
        return false;
      }
      if location == Server {
        var clash := QueryFile(Column(file, "id"));
        if clash.Some? {
          return false;
        }
      }
      ok := Write(RowUpdate(File, Insert, file));
      if ok {
        db := Upsert(db, FileState, fileState);
      }
    }

    method DeleteOrForgetFile(file: Row) returns (ok: bool)
      modifies this
      ensures Did(FileDeleteOrForget(file), old(db), ok)
    {
      var before := db;
      ok := Write(RowUpdate(FileState, Delete, StateKey(Column(file, "id"), userId)));
      if Holds(file, "ownerId", userId) {
        if location == Server {
          db := db - set a | a in db && IsStateOf(a, db[a], Column(file, "id"));
        }
        ok := Write(RowUpdate(File, Update, FileKey(file)["isDeleted" := Bool(true)]));
        if !ok {
          db := before;
        }
      }
    }

    method UpdateFile(partial: Row) returns (ok: bool)
      requires UniqueFileIds(db)
      modifies this
      ensures Did(FileUpdate(partial), old(db), ok)
    {
      if ChangesImmutable(File, partial) {
        return false;
      }
      var file := QueryFile(Column(partial, "id"));
      if file.None? || Truthy(Column(file.value, "isDeleted")) || !Holds(file.value, "ownerId", userId) {
        return false;
      }
      ok := Write(RowUpdate(File, Update, partial + FileKey(file.value)));
    }

    method InsertFileState(fileState: Row) returns (ok: bool)
      requires UniqueFileIds(db)
      modifies this
      ensures Did(FileStateInsert(fileState), old(db), ok)
    {
      if !Holds(fileState, "userId", userId) {
        return false;
      }
      if location == Server {
        var file := QueryFile(Column(fileState, "fileId"));
        if !MayVisit(file, userId) {
          return false;
        }
      }
      db := Upsert(db, FileState, fileState);
      ok := true;
    }

    method UpdateFileState(fileState: Row) returns (ok: bool)
      modifies this
      ensures Did(FileStateUpdate(fileState), old(db), ok)
    {
      if !Holds(fileState, "userId", userId) || ChangesImmutable(FileState, fileState) {
        return false;
      }
      ok := Write(RowUpdate(FileState, Update, fileState));
    }

    method DeleteFileState(fileState: Row) returns (ok: bool)
      modifies this
      ensures Did(FileStateDelete(fileState), old(db), ok)
    {
      if !Holds(fileState, "userId", userId) {
        return false;
      }
      ok := Write(RowUpdate(FileState, Delete, StateKey(Column(fileState, "fileId"), userId)));
    }
  }
}
