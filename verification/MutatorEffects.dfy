/**
 Each mutator by its effect: exactly when it is accepted, at which keys rows change, and what every column of
 a changed row holds afterwards.
 */
module MutatorEffects {
  import opened Prelude
  import opened AppSchema
  import opened OptimisticStore
  import opened KeyedStore
  import opened StoreAlgebra
  import opened Mutators
  import opened MutatorLaws
  import opened MutatorRuns

  // ---------------------------------------------------------------- keys and columns

  function UserAddr(id: Option<Value>): Addr {
    Addr(User, [id])
  }

  function StateAddr(user: Option<Value>, file: Option<Value>): Addr {
    Addr(FileState, [user, file])
  }

  function FileAddr(file: Row): Addr {
    Addr(File, [Column(file, "id"), Column(file, "ownerId"), Column(file, "publishedSlug")])
  }

  lemma AddrsAre(row: Row)
    ensures AddrOf(User, row) == UserAddr(Column(row, "id"))
    ensures AddrOf(FileState, row) == StateAddr(Column(row, "userId"), Column(row, "fileId"))
    ensures AddrOf(File, row) == FileAddr(row)
  {
    KeyOfFile(row);
    assert KeyOf(User, row) == [Column(row, "id")];
    assert KeyOf(FileState, row) == [Column(row, "userId"), Column(row, "fileId")];
  }

  /** Every row but those at the given addresses is as it was. */
  ghost predicate OnlyAt(db: Keyed, db': Keyed, changed: set<Addr>) {
    forall a | a !in changed :: SameAt(db, db', a)
  }

  /** The columns of the partial row have its values, and the others the values that they had. */
  ghost predicate Merged(before: Row, partial: Row, after: Row) {
    forall c :: Column(after, c) == if c in partial then Some(partial[c]) else Column(before, c)
  }

  lemma PlusMerges(before: Row, partial: Row)
    ensures Merged(before, partial, before + partial)
  {
  }

  /** The values that count as no value. */
  lemma FalsyValues(v: Option<Value>)
    ensures !Truthy(v) <==> v in {None, Some(Null), Some(Bool(false)), Some(Num(0)), Some(Str(""))}
  {
  }

  /** None of the columns is given a value. */
  ghost predicate SetsNone(row: Row, columns: set<string>) {
    forall c | c in columns :: !Truthy(Column(row, c))
  }

  // ---------------------------------------------------------------- users

  /** A user row is inserted by its user, when there is none. */
  lemma UserInsertDoes(location: Location, me: string, user: Row, db: Keyed)
    ensures var a, r := UserAddr(Some(Str(me))), Apply(location, me, UserInsert(user), db);
            && (r.Some? <==> Column(user, "id") == Some(Str(me)) && a !in db)
            && (r.Some? ==> OnlyAt(db, r.value, {a}) && RowAt(r.value, a) == Some(user))
  {
    AddrsAre(user);
  }

  /** A user row is changed by its user, and its email, avatar and times are not to be given. */
  lemma UserUpdateDoes(location: Location, me: string, user: Row, db: Keyed)
    ensures var a, r := UserAddr(Some(Str(me))), Apply(location, me, UserUpdate(user), db);
            && (r.Some? <==> Column(user, "id") == Some(Str(me)) && a in db
                             && SetsNone(user, {"email", "createdAt", "updatedAt", "avatar"}))
            && (r.Some? ==> OnlyAt(db, r.value, {a}) && a in r.value && Merged(db[a], user, r.value[a]))
  {
    AddrsAre(user);
  }

  // ---------------------------------------------------------------- files

  /** Live files of an owner, told by the column on the server and by its truthiness on the client. */
  function FilesOf(location: Location, db: Keyed, owner: string): set<Addr> {
    set a | a in db && a.table == File && Column(db[a], "ownerId") == Some(Str(owner))
            && if location == Client then !Truthy(Column(db[a], "isDeleted"))
               else Column(db[a], "isDeleted") == Some(Bool(false))
  }

  /** What the client and the server take as the id of a new file. */
  predicate IsFileId(id: string) {
    && 16 <= |id| <= 32
    && forall c | c in id :: 'a' <= c <= 'z' || 'A' <= c <= 'Z' || '0' <= c <= '9' || c in {'_', '-'}
  }

  predicate HasFileId(db: Keyed, a: Addr, id: Option<Value>) {
    a in db && a.table == File && Column(db[a], "id") == id
  }

  /** A state row is inserted, or merged into the one that is there. */
  ghost predicate Upserted(db: Keyed, after: Keyed, a: Addr, row: Row) {
    a in after && if a in db then Merged(db[a], row, after[a]) else after[a] == row
  }

  /**
   A new file is inserted by its owner together with their own state of it: fewer than 200 live files, an id of 16
   to 32 letters, digits, underscores and hyphens, on the server one that no file has, and no file at the key.
   */
  lemma FileInsertDoes(location: Location, me: string, file: Row, state: Row, db: Keyed)
    ensures var id, a, b := Column(file, "id"), FileAddr(file), StateAddr(Some(Str(me)), Column(file, "id"));
            var r := Apply(location, me, FileInsertWithState(file, state), db);
            && (r.Some? <==>
                  && Column(file, "ownerId") == Some(Str(me)) && |FilesOf(location, db, me)| < 200
                  && (exists s :: id == Some(Str(s)) && IsFileId(s))
                  && Column(state, "fileId") == id && Column(state, "userId") == Some(Str(me))
                  && (location == Server ==> forall f :: !HasFileId(db, f, id))
                  && a !in db)
            && (r.Some? ==> OnlyAt(db, r.value, {a, b}) && RowAt(r.value, a) == Some(file)
                            && Upserted(db, r.value, b, state))
  {
    hide KeyOf;
    AddrsAre(file);
    AddrsAre(state);
    var id := Column(file, "id");
    assert FilesOf(location, db, me) == LiveFiles(location, db, me);
    assert ValidFileId(id) <==> exists s :: id == Some(Str(s)) && IsFileId(s) by {
      if ValidFileId(id) {
        assert id == Some(Str(id.value.s)) && IsFileId(id.value.s);
      }
    }
    FoundIffThere(db, id);
  }

  lemma FoundIffThere(db: Keyed, id: Option<Value>)
    ensures FileWithId(db, id).Some? <==> exists a :: HasFileId(db, a, id)
    ensures FileWithId(db, id).Some? ==> exists a :: HasFileId(db, a, id) && FileWithId(db, id) == Some(db[a])
  {
    if a :| HasFileId(db, a, id) {
      assert IsFileWithId(db, a, id);
    }
    if FileWithId(db, id).Some? {
      var a := FileWithIdFrom(db, id);
      assert HasFileId(db, a, id);
    }
  }

  /**
   Anyone may forget a file, and loses their own state of it, no more.  Its owner, when the file is there, marks
   it deleted, and on the server all states of it go, whoever they belong to.
   */
  lemma FileForgetDoes(location: Location, me: string, file: Row, db: Keyed)
    requires Addressed(db)
    ensures var a, b := FileAddr(file), StateAddr(Some(Str(me)), Column(file, "id"));
            var owned := Column(file, "ownerId") == Some(Str(me));
            var m := FileDeleteOrForget(file);
            var r := Apply(location, me, m, db);
            && (r.Some? <==> (owned ==> a in db))
            && (r.Some? ==>
                  && b !in r.value
                  && (forall c | c != b && Swept(location, me, m, db, c) :: c !in r.value)
                  && (forall c | c != b && !Swept(location, me, m, db, c) && !(owned && c == a) ::
                        SameAt(db, r.value, c))
                  && (owned ==> a in r.value && Column(r.value[a], "isDeleted") == Some(Bool(true))
                                && forall c | c != "isDeleted" :: Column(r.value[a], c) == Column(db[a], c)))
  {
    hide KeyOf, FileKey;
    AddrsAre(file);
    StateKeyAddr(Column(file, "id"), me);
    DeletedFileKey(file);
    var a := FileAddr(file);
    if a in db {
      DeleteMarkOnly(db[a], file);
    }
  }

  lemma DeleteMarkOnly(row: Row, file: Row)
    requires AddrOf(File, row) == AddrOf(File, file)
    ensures var after := row + FileKey(file)["isDeleted" := Bool(true)];
            Column(after, "isDeleted") == Some(Bool(true))
            && forall c | c != "isDeleted" :: Column(after, c) == Column(row, c)
  {
    KeyOfFile(row);
    KeyOfFile(file);
  }

  /**
   An owner changes a live file, told by its id, as long as none of the columns are given that are fixed; whatever
   is given for the key columns is ignored.
   */
  lemma FileUpdateDoes(location: Location, me: string, partial: Row, db: Keyed, a: Addr)
    requires Sound(db) && PartialRow(File, partial) && HasFileId(db, a, Column(partial, "id"))
    ensures var r := Apply(location, me, FileUpdate(partial), db);
            && (r.Some? <==> Column(db[a], "ownerId") == Some(Str(me)) && !Truthy(Column(db[a], "isDeleted"))
                             && SetsNone(partial, {"ownerName", "ownerAvatar", "createSource", "createdAt",
                                                   "updatedAt"}))
            && (r.Some? ==>
                  && OnlyAt(db, r.value, {a}) && a in r.value
                  && forall c :: Column(r.value[a], c)
                                 == if c in {"id", "ownerId", "publishedSlug"} || c !in partial then Column(db[a], c)
                                    else Some(partial[c]))
  {
    FixedColumnsAre(partial);
    hide KeyOf, FullRow, PartialRow, FileKey, ChangesImmutable, SetsNone, Truthy;
    var id := Column(partial, "id");
    FoundIffThere(db, id);
    var b :| HasFileId(db, b, id) && FileWithId(db, id) == Some(db[b]);
    assert a == b && AddrOf(File, db[a]) == a;
    FileKeyWins(partial, db[a]);
    UpdateMerges(db[a], partial);
  }

  lemma FixedColumnsAre(row: Row)
    ensures ChangesImmutable(File, row)
            <==> !SetsNone(row, {"ownerName", "ownerAvatar", "createSource", "createdAt", "updatedAt"})
  {
  }

  lemma UpdateMerges(file: Row, partial: Row)
    requires FullRow(File, file)
    ensures forall c :: Column(file + (partial + FileKey(file)), c)
                        == if c in {"id", "ownerId", "publishedSlug"} || c !in partial then Column(file, c)
                           else Some(partial[c])
  {
    FileColumns(file);
  }

  lemma NoFileNoUpdate(location: Location, me: string, partial: Row, db: Keyed)
    requires forall a :: !HasFileId(db, a, Column(partial, "id"))
    ensures Apply(location, me, FileUpdate(partial), db).None?
  {
    FoundIffThere(db, Column(partial, "id"));
  }

  // ---------------------------------------------------------------- file states

  /** A visit is recorded by its user, on the server only of a file that is there and theirs or shared. */
  lemma StateInsertDoes(location: Location, me: string, state: Row, db: Keyed)
    requires UniqueFileIds(db)
    ensures var a := StateAddr(Some(Str(me)), Column(state, "fileId"));
            var r := Apply(location, me, FileStateInsert(state), db);
            && (r.Some? <==>
                  && Column(state, "userId") == Some(Str(me))
                  && (location == Server ==>
                        exists f :: HasFileId(db, f, Column(state, "fileId"))
                                    && (Column(db[f], "ownerId") == Some(Str(me)) || Truthy(Column(db[f], "shared")))))
            && (r.Some? ==> OnlyAt(db, r.value, {a}) && Upserted(db, r.value, a, state))
  {
    AddrsAre(state);
    FoundIffThere(db, Column(state, "fileId"));
  }

  lemma StateUpdateDoes(location: Location, me: string, state: Row, db: Keyed)
    ensures var a := StateAddr(Some(Str(me)), Column(state, "fileId"));
            var r := Apply(location, me, FileStateUpdate(state), db);
            && (r.Some? <==> Column(state, "userId") == Some(Str(me)) && a in db
                             && SetsNone(state, {"firstVisitAt", "isFileOwner"}))
            && (r.Some? ==> OnlyAt(db, r.value, {a}) && a in r.value && Merged(db[a], state, r.value[a]))
  {
    AddrsAre(state);
  }

  lemma StateDeleteDoes(location: Location, me: string, state: Row, db: Keyed)
    ensures var a := StateAddr(Some(Str(me)), Column(state, "fileId"));
            var r := Apply(location, me, FileStateDelete(state), db);
            && (r.Some? <==> Column(state, "userId") == Some(Str(me)))
            && (r.Some? ==> OnlyAt(db, r.value, {a}) && a !in r.value)
  {
    StateKeyAddr(Column(state, "fileId"), me);
  }

  // ---------------------------------------------------------------- who sees what

  /**
   A user sees the user row, the states and the files that are theirs by their keys, and of the files of others
   exactly the shared ones of which they have a state; of nothing else of others.
   */
  lemma SeesExactly(me: string, db: Keyed, a: Addr)
    requires Sound(db)
    ensures a in Replica(me, db)
            <==> a in db
                 && match a.table
                    case User => a == UserAddr(Some(Str(me)))
                    case FileState => |a.key| == 2 && a.key[0] == Some(Str(me))
                    case File =>
                      || Column(db[a], "ownerId") == Some(Str(me))
                      || (Column(db[a], "shared") == Some(Bool(true))
                          && StateAddr(Some(Str(me)), Column(db[a], "id")) in db)
    ensures a in Replica(me, db) ==> Replica(me, db)[a] == db[a]
  {
    if a in db {
      AddrsAre(db[a]);
      if a.table == File {
        var b := StateAddr(Some(Str(me)), Column(db[a], "id"));
        if b in db {
          AddrsAre(db[b]);
          assert b.table == FileState && Column(db[b], "fileId") == Column(db[a], "id") && Holds(db[b], "userId", me);
        }
        if s :| s in db && s.table == FileState && Column(db[s], "fileId") == Column(db[a], "id")
                && Holds(db[s], "userId", me) {
          AddrsAre(db[s]);
        }
      }
    }
  }
}
