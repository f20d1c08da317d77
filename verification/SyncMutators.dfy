/**
 The two halves together: runs of the protocol whose mutations are calls of the mutators, made on what the
 client shows and served by the database, of which the user's data stays a mirror.  The user's own rows are then
 the same on both sides, and it is settled exactly when the server's answers do what the client predicted.
 */
module SyncMutators {
  import opened Prelude
  import opened AppSchema
  import opened OptimisticStore
  import opened KeyedStore
  import opened StoreAlgebra
  import opened Mutators
  import opened MutatorLaws
  import opened MutatorRuns
  import opened SyncProtocol
  import opened SyncView

  // ---------------------------------------------------------------- what a mutator writes on the client

  function UpsertWrite(view: Keyed, t: Table, row: Row): RowUpdate {
    RowUpdate(t, if AddrOf(t, row) in view then Update else Insert, row)
  }

  /** The row updates that a mutator adds to the pending list, one after the other. */
  ghost function Writes(userId: string, m: Mutator, view: Keyed): seq<RowUpdate> {
    match m
    case UserInsert(user) => [RowUpdate(User, Insert, user)]
    case UserUpdate(user) => [RowUpdate(User, Update, user)]
    case FileInsertWithState(file, fileState) =>
      [RowUpdate(File, Insert, file), UpsertWrite(view, FileState, fileState)]
    case FileDeleteOrForget(file) =>
      var forget := RowUpdate(FileState, Delete, StateKey(Column(file, "id"), userId));
      if !Holds(file, "ownerId", userId) then [forget]
      else [forget, RowUpdate(File, Update, FileKey(file)["isDeleted" := Bool(true)])]
    case FileUpdate(partial) =>
      var file := FileWithId(view, Column(partial, "id"));
      if file.None? then [] else [RowUpdate(File, Update, partial + FileKey(file.value))]
    case FileStateInsert(fileState) => [UpsertWrite(view, FileState, fileState)]
    case FileStateUpdate(fileState) => [RowUpdate(FileState, Update, fileState)]
    case FileStateDelete(fileState) =>
      [RowUpdate(FileState, Delete, StateKey(Column(fileState, "fileId"), userId))]
  }

  /** What a mutator looks up before it writes comes to the same in two databases. */
  ghost predicate LooksAlike(m: Mutator, db: Keyed, db': Keyed) {
    match m
    case FileInsertWithState(_, fileState) => AddrOf(FileState, fileState) in db
        <==> AddrOf(FileState, fileState) in db'
    case FileStateInsert(fileState) => AddrOf(FileState, fileState) in db <==> AddrOf(FileState, fileState) in db'
    case FileUpdate(partial) =>
      var file, file' := FileWithId(db, Column(partial, "id")), FileWithId(db', Column(partial, "id"));
      file.Some? && file'.Some? && partial + FileKey(file.value) == partial + FileKey(file'.value)
    case _ => true
  }

  lemma UpsertIsPut(view: Keyed, db: Keyed, t: Table, row: Row)
    ensures Put(db, UpsertWrite(view, t, row))
            == if AddrOf(t, row) in view <==> AddrOf(t, row) in db then Some(Upsert(db, t, row)) else None
  {
  }

  /**
   Made on one database, the writes do on another what the mutator would do there exactly when it looks up the
   same in both; otherwise they cannot be applied.
   */
  lemma WritesDoIff(userId: string, m: Mutator, view: Keyed, db: Keyed)
    requires Sound(db) && TypedArguments(m)
    requires Apply(Client, userId, m, view).Some? && Apply(Client, userId, m, db).Some?
    ensures PutAll(db, Writes(userId, m, view))
            == if LooksAlike(m, view, db) then Apply(Client, userId, m, db) else None
  {
    hide PutAll, ValidFileId, LiveFiles, ChangesImmutable, Holds, FileKey, KeyOf, Upsert, UpsertWrite, FullRow,
         PartialRow;
    var writes := Writes(userId, m, view);
    match m {
      case FileInsertWithState(file, fileState) =>
        InsertKeepsStates(view, db, file, fileState);
        PutAllTwo(db, RowUpdate(File, Insert, file), UpsertWrite(view, FileState, fileState));
      case FileDeleteOrForget(file) =>
        var forget := RowUpdate(FileState, Delete, StateKey(Column(file, "id"), userId));
        PutAllOne(db, forget);
        PutAllTwo(db, forget, RowUpdate(File, Update, FileKey(file)["isDeleted" := Bool(true)]));
      case FileUpdate(partial) =>
        PutAllOne(db, writes[0]);
        if !LooksAlike(m, view, db) {
          OtherFileIsMissing(view, db, partial);
        }
      case FileStateInsert(fileState) =>
        UpsertIsPut(view, db, FileState, fileState);
        PutAllOne(db, writes[0]);
      case _ => PutAllOne(db, writes[0]);
    }
  }

  /** A file found by id under another key than the database has for that id is not in the database. */
  lemma OtherFileIsMissing(view: Keyed, db: Keyed, partial: Row)
    requires Sound(db) && "id" in partial
    requires FileWithId(view, Column(partial, "id")).Some? && FileWithId(db, Column(partial, "id")).Some?
    requires !LooksAlike(FileUpdate(partial), view, db)
    ensures AddrOf(File, partial + FileKey(FileWithId(view, Column(partial, "id")).value)) !in db
  {
    hide FullRow;
    var id := Column(partial, "id");
    var found, file := FileWithId(view, id).value, FileWithId(db, id).value;
    var row, row' := partial + FileKey(found), partial + FileKey(file);
    var b := FileWithIdFrom(view, id);
    FileWithIdIsFile(db, id);
    FileKeyWins(partial, file);
    if AddrOf(File, row) in db {
      var a := AddrOf(File, row);
      MatchesIffSameAddr(File, row, db[a]);
      assert "id" in PrimaryKey(File);
      assert Column(row, "id") == id == Column(db[a], "id");
      MatchesIffSameAddr(File, row, row');
      FileColumns(file);
      forall c ensures Column(row, c) == Column(row', c) {
        if c in {"id", "ownerId", "publishedSlug"} {
          assert c in PrimaryKey(File);
        }
      }
      SameColumns(row, row');
    }
  }

  lemma SameColumns(row: Row, row': Row)
    requires forall c :: Column(row, c) == Column(row', c)
    ensures row == row'
  {
    forall c ensures c in row <==> c in row' {
      assert Column(row, c) == Column(row', c);
    }
    forall c | c in row ensures row[c] == row'[c] {
      assert Column(row, c) == Column(row', c);
    }
  }

  lemma InsertKeepsStates(view: Keyed, db: Keyed, file: Row, fileState: Row)
    ensures var db' := db[AddrOf(File, file) := file];
            Put(db', UpsertWrite(view, FileState, fileState))
            == if AddrOf(FileState, fileState) in view <==> AddrOf(FileState, fileState) in db
               then Some(Upsert(db', FileState, fileState)) else None
  {
    UpsertIsPut(view, db[AddrOf(File, file) := file], FileState, fileState);
  }

  // ---------------------------------------------------------------- runs of mutator calls

  /** A mutator that was called, with what the client showed then. */
  datatype Made = Made(mutator: Mutator, view: Keyed)

  /** The protocol's state with the whole database of the server and the mutators behind the history. */
  datatype Joint = Joint(s: State, db: Keyed, made: seq<Made>)

  /** Each write of a mutator is an entry of its own in the pending list. */
  function OneByOne(us: seq<RowUpdate>): seq<seq<RowUpdate>> {
    seq(|us|, i requires 0 <= i < |us| => [us[i]])
  }

  /** The client calls a mutator, which succeeds on what is shown. */
  ghost predicate Calls(userId: string, j: Joint, a: Action, j': Joint) {
    a.Mutate? && j'.db == j.db && |j'.made| == |j.made| + 1 && j'.made[..|j.made|] == j.made
    && var made := j'.made[|j.made|];
    && View(Some(j.s.gold), j.s.pending).Shows?
    && made.view == Keys(View(Some(j.s.gold), j.s.pending).data)
    && TypedArguments(made.mutator) && Apply(Client, userId, made.mutator, made.view).Some?
    && a.writes == OneByOne(Writes(userId, made.mutator, made.view))
  }

  /**
   The server runs the first waiting mutator on its database and answers with row updates that keep the
   user's data a mirror of it.
   */
  ghost predicate Accepts(userId: string, j: Joint, a: Action, j': Joint) {
    var i := FirstWaiting(j.s.history);
    && a.Accept? && j'.made == j.made && i < |j.made|
    && Apply(Server, userId, j.made[i].mutator, j.db) == Some(j'.db)
    && Mirrors(userId, Keys(j'.s.server), j'.db)
  }

  /** Others change the database; what reaches the user's data keeps it a mirror. */
  ghost predicate OthersAct(userId: string, j: Joint, a: Action, j': Joint) {
    a.Remote? && j'.made == j.made && Sound(j'.db) && Mirrors(userId, Keys(j'.s.server), j'.db)
  }

  ghost predicate JointStep(userId: string, j: Joint, a: Action, j': Joint) {
    && Next(j.s, a) == Ok(j'.s)
    && (Calls(userId, j, a, j') || Accepts(userId, j, a, j') || OthersAct(userId, j, a, j')
        || (!a.Mutate? && !a.Accept? && !a.Remote? && j'.db == j.db && j'.made == j.made))
  }

  ghost predicate JointRun(userId: string, js: seq<Joint>, actions: seq<Action>) {
    |js| == |actions| + 1 && forall k | 0 <= k < |actions| :: JointStep(userId, js[k], actions[k], js[k + 1])
  }

  /** The history holds the writes of the mutators, and the user's data mirrors the database. */
  ghost predicate InvJoint(userId: string, j: Joint) {
    && Inv(j.s) && Sound(j.db) && Mirrors(userId, Keys(j.s.server), j.db) && |j.made| == |j.s.history|
    && forall i | 0 <= i < |j.made| ::
         && TypedArguments(j.made[i].mutator) && Apply(Client, userId, j.made[i].mutator, j.made[i].view).Some?
         && j.s.history[i].writes == OneByOne(Writes(userId, j.made[i].mutator, j.made[i].view))
  }

  lemma {:induction false} WritesOfOne(m: Mutation, us: seq<RowUpdate>, k: nat)
    requires m.writes == OneByOne(us) && k <= |us|
    ensures Updates(Entries(m)[..k]) == us[..k]
  {
    var entries := Entries(m);
    if k == 0 {
      assert entries[..0] == [];
    } else {
      WritesOfOne(m, us, k - 1);
      assert entries[..k] == entries[..k - 1] + [entries[k - 1]];
      UpdatesConcat(entries[..k - 1], [entries[k - 1]]);
      assert [entries[k - 1]][1..] == [] && Updates([entries[k - 1]]) == [us[k - 1]] + Updates([]);
      assert us[..k] == us[..k - 1] + [us[k - 1]];
    }
  }

  lemma WritesOfMade(m: Mutation, us: seq<RowUpdate>)
    requires m.writes == OneByOne(us)
    ensures WritesOf(m) == us
  {
    WritesOfOne(m, us, |us|);
    assert Entries(m)[..|us|] == Entries(m) && us[..|us|] == us;
  }

  // ---------------------------------------------------------------- the server's answers

  /** The mutator that is to be accepted looks up in the user's data what it looked up when it was made. */
  ghost predicate LooksUpTheSame(j: Joint) {
    var i := FirstWaiting(j.s.history);
    i < |j.made| && LooksAlike(j.made[i].mutator, j.made[i].view, Keys(j.s.server))
  }

  /** The step leaves the rows of others in the user's data as they are. */
  ghost predicate LeavesOthers(userId: string, j: Joint, j': Joint) {
    forall a | !OwnAddr(userId, a) :: SameAt(Keys(j.s.server), Keys(j'.s.server), a)
  }

  /** If the step accepts a mutator, its effect on the user's data could be foreseen. */
  ghost predicate Foreseen(userId: string, j: Joint, a: Action, j': Joint) {
    a.Accept? ==> LooksUpTheSame(j) && LeavesOthers(userId, j, j')
  }

  /** What the client's own writes, brought to the user's data, would make of it. */
  ghost function Predicted(j: Joint): Option<Keyed> {
    var i := FirstWaiting(j.s.history);
    if i < |j.s.history| then PutAll(Keys(j.s.server), WritesOf(j.s.history[i])) else None
  }

  lemma SameOwnAndOthers(userId: string, db: Keyed, db': Keyed)
    requires MutatorLaws.Own(userId, db) == MutatorLaws.Own(userId, db')
    ensures db == db' <==> forall a | !OwnAddr(userId, a) :: SameAt(db, db', a)
  {
    hide OwnAddr, MutatorLaws.Own;
    if forall a | !OwnAddr(userId, a) :: SameAt(db, db', a) {
      forall a ensures SameAt(db, db', a) {
        if OwnAddr(userId, a) {
          OwnAt(userId, db, db', a);
        }
      }
      SameEverywhere(db, db');
    }
  }

  lemma SameEverywhere(db: Keyed, db': Keyed)
    requires forall a :: SameAt(db, db', a)
    ensures db == db'
  {
    forall a ensures a in db <==> a in db' {
      assert SameAt(db, db', a);
    }
    forall a | a in db ensures db[a] == db'[a] {
      assert SameAt(db, db', a);
    }
  }

  /** The client's mutator on the user's data agrees with the server's on its database, and touches only own rows. */
  lemma ClientDoes(userId: string, m: Mutator, data: Keyed, db: Keyed)
    requires Mirrors(userId, data, db) && Sound(db) && TypedArguments(m) && Apply(Server, userId, m, db).Some?
    ensures Sound(data) && Apply(Client, userId, m, data).Some?
    ensures MutatorLaws.Own(userId, Apply(Client, userId, m, data).value)
            == MutatorLaws.Own(userId, Apply(Server, userId, m, db).value)
    ensures forall a | !OwnAddr(userId, a) :: SameAt(data, Apply(Client, userId, m, data).value, a)
  {
    hide Apply, Sound, OwnAddr, MutatorLaws.Own;
    MirrorIsSound(userId, data, db);
    ClientMirrorsServer(userId, m, data, db);
    forall a | !OwnAddr(userId, a) ensures SameAt(data, Apply(Client, userId, m, data).value, a) {
      Isolation(Client, userId, m, data, a);
    }
  }

  /** What the step from an accepted mutator to its answer is made of. */
  lemma AnswerOf(userId: string, j: Joint, a: Action, j': Joint)
    requires InvJoint(userId, j) && Accepts(userId, j, a, j') && Next(j.s, a) == Ok(j'.s)
    ensures Sound(j'.db)
    ensures PutAll(Keys(j.s.server), a.updates) == Some(Keys(j'.s.server))
    ensures AsPredicted(j.s, a) <==> Predicted(j) == Some(Keys(j'.s.server))
    ensures Predicted(j).Some? <==> LooksUpTheSame(j)
    ensures Predicted(j).Some? ==>
              && MutatorLaws.Own(userId, Predicted(j).value) == MutatorLaws.Own(userId, Keys(j'.s.server))
              && forall b | !OwnAddr(userId, b) :: SameAt(Keys(j.s.server), Predicted(j).value, b)
  {
    hide ApplyAll, PutAll, Keys, Inv, Sound, LooksAlike, Writes, Entries, Apply, TypedArguments, Unique, OneByOne,
         OwnAddr, MutatorLaws.Own;
    var i := FirstWaiting(j.s.history);
    var m, data := j.made[i].mutator, Keys(j.s.server);
    ClientDoes(userId, m, data, j.db);
    ServerStaysSound(userId, m, j.db);
    WritesDoIff(userId, m, j.made[i].view, data);
    WritesOfMade(j.s.history[i], Writes(userId, m, j.made[i].view));
    ServerIsUnique(j.s);
    ReplayRefines(j.s.server, a.updates);
  }

  /**
   The server's answer to an accepted mutator does what the client predicted exactly when the mutator looks up what
   it looked up when it was made and the answer leaves the rows of others as they are.
   */
  lemma AnswerIsPredictedIff(userId: string, j: Joint, a: Action, j': Joint)
    requires InvJoint(userId, j) && Accepts(userId, j, a, j') && Next(j.s, a) == Ok(j'.s)
    ensures AsPredicted(j.s, a) <==> Foreseen(userId, j, a, j')
  {
    hide PutAll, Keys, Inv, Sound, Mirrors, LooksUpTheSame, Predicted, AsPredicted, OwnAddr, MutatorLaws.Own, SameAt,
         InvJoint, Next;
    AnswerOf(userId, j, a, j');
    if LooksUpTheSame(j) {
      var before, after, predicted := Keys(j.s.server), Keys(j'.s.server), Predicted(j).value;
      SameOwnAndOthers(userId, predicted, after);
      forall b | !OwnAddr(userId, b) ensures SameAt(before, after, b) <==> SameAt(predicted, after, b) {
        SameAtShared(before, predicted, after, b);
      }
    }
  }

  lemma SameAtShared(db: Keyed, db': Keyed, other: Keyed, a: Addr)
    requires SameAt(db, db', a)
    ensures SameAt(db, other, a) <==> SameAt(db', other, a)
  {
  }

  /** An answer that only names rows of the user leaves the rows of others as they are. */
  lemma OwnAnswersLeaveOthers(userId: string, j: Joint, a: Action, j': Joint)
    requires InvJoint(userId, j) && Accepts(userId, j, a, j') && Next(j.s, a) == Ok(j'.s)
    requires forall u | u in a.updates :: OwnAddr(userId, Target(u))
    ensures LeavesOthers(userId, j, j')
  {
    hide PutAll, Keys, Inv, Sound, Mirrors, OwnAddr, SameAt, InvJoint, Next;
    AnswerOf(userId, j, a, j');
    forall b | !OwnAddr(userId, b) ensures SameAt(Keys(j.s.server), Keys(j'.s.server), b) {
      PresenceUnchanged(Keys(j.s.server), a.updates, b);
    }
  }

  lemma ServerIsUnique(s: State)
    requires Inv(s)
    ensures Unique(s.server)
  {
    ReplayRefines(s.gold, InFlight(s.stream));
  }

  lemma JointStepKeepsInv(userId: string, j: Joint, a: Action, j': Joint)
    requires InvJoint(userId, j) && JointStep(userId, j, a, j')
    ensures InvJoint(userId, j')
    ensures AsPredicted(j.s, a) <==> Foreseen(userId, j, a, j')
  {
    hide ApplyAll, PutAll, Keys, Inv, Sound, Mirrors, LooksAlike, Writes, Entries, Apply, TypedArguments, Commit,
         Reject, OneByOne, View, BatchUpdates, BatchCommits, AsPredicted, Foreseen, LooksUpTheSame, LeavesOthers;
    NextKeepsInv(j.s, a);
    if Calls(userId, j, a, j') {
      NotAnswered(userId, j, a, j');
      assert j'.s.history[..|j.s.history|] == j.s.history;
      forall i | 0 <= i < |j.made| ensures j'.made[i] == j.made[i] && j'.s.history[i] == j.s.history[i] {
        assert j'.made[..|j.made|][i] == j'.made[i];
      }
    } else {
      OnlyStatusChanges(j.s, a);
      if Accepts(userId, j, a, j') {
        AnswerOf(userId, j, a, j');
        AnswerIsPredictedIff(userId, j, a, j');
      } else {
        NotAnswered(userId, j, a, j');
      }
    }
  }

  lemma NotAnswered(userId: string, j: Joint, a: Action, j': Joint)
    requires !a.Accept?
    ensures AsPredicted(j.s, a) && Foreseen(userId, j, a, j')
  {
  }

  lemma JointRest(userId: string, js: seq<Joint>, actions: seq<Action>)
    requires JointRun(userId, js, actions) && actions != []
    ensures JointStep(userId, js[0], actions[0], js[1]) && JointRun(userId, js[1..], actions[1..])
    ensures js[1..][|actions| - 1] == js[|actions|]
  {
    hide JointStep;
    var later, rest := js[1..], actions[1..];
    forall k | 0 <= k < |rest| ensures JointStep(userId, later[k], rest[k], later[k + 1]) {
      assert later[k] == js[k + 1] && later[k + 1] == js[k + 2] && rest[k] == actions[k + 1];
    }
  }

  lemma JointRunLength(userId: string, js: seq<Joint>, actions: seq<Action>)
    requires JointRun(userId, js, actions)
    ensures |js| == |actions| + 1
  {
  }

  ghost predicate AllForeseen(userId: string, js: seq<Joint>, actions: seq<Action>)
    requires |js| == |actions| + 1
  {
    forall k | 0 <= k < |actions| :: Foreseen(userId, js[k], actions[k], js[k + 1])
  }

  lemma ForeseenRest(userId: string, js: seq<Joint>, actions: seq<Action>)
    requires |js| == |actions| + 1 && actions != []
    ensures AllForeseen(userId, js, actions)
            <==> Foreseen(userId, js[0], actions[0], js[1]) && AllForeseen(userId, js[1..], actions[1..])
  {
    hide Foreseen;
    var later, rest := js[1..], actions[1..];
    forall k | 0 <= k < |actions|
      ensures Foreseen(userId, js[k], actions[k], js[k + 1])
              <==> if k == 0 then Foreseen(userId, js[0], actions[0], js[1])
                   else Foreseen(userId, later[k - 1], rest[k - 1], later[k])
    {
    }
    forall k | 0 <= k < |rest|
      ensures Foreseen(userId, later[k], rest[k], later[k + 1])
              <==> Foreseen(userId, js[k + 1], actions[k + 1], js[k + 2])
    {
    }
  }

  lemma {:induction false} JointRunKeepsInv(userId: string, js: seq<Joint>, actions: seq<Action>)
    requires JointRun(userId, js, actions) && InvJoint(userId, js[0])
    ensures Run(js[0].s, actions) == Ok(js[|actions|].s)
    ensures RunsAsPredicted(js[0].s, actions) <==> AllForeseen(userId, js, actions)
    ensures forall k | 0 <= k <= |actions| :: InvJoint(userId, js[k])
    decreases |actions|
  {
    hide Next, InvJoint, AsPredicted, JointStep, JointRun, AllForeseen, Foreseen;
    JointRunLength(userId, js, actions);
    if actions != [] {
      JointRest(userId, js, actions);
      JointStepKeepsInv(userId, js[0], actions[0], js[1]);
      JointStepIsNext(userId, js[0], actions[0], js[1]);
      JointRunKeepsInv(userId, js[1..], actions[1..]);
      ForeseenRest(userId, js, actions);
      forall k | 0 <= k <= |actions| ensures InvJoint(userId, js[k]) {
        if k > 0 {
          assert js[1..][k - 1] == js[k];
        }
      }
    } else {
      NothingToForesee(userId, js);
    }
  }

  lemma NothingToForesee(userId: string, js: seq<Joint>)
    requires |js| == 1
    ensures AllForeseen(userId, js, [])
  {
  }

  lemma JointStepIsNext(userId: string, j: Joint, a: Action, j': Joint)
    requires JointStep(userId, j, a, j')
    ensures Next(j.s, a) == Ok(j'.s)
  {
  }

  /**
   In every run whose mutations are calls of the mutators, from data that mirrors the database: the server's
   answers do what the client predicted exactly when every accepted mutator looks up what it looked up when it was
   made and no answer touches the rows of others.
   */
  lemma MutatorsArePredictedIff(userId: string, data: StoreData, db: Keyed, js: seq<Joint>, actions: seq<Action>)
    requires Unique(data) && Sound(db) && Mirrors(userId, Keys(data), db)
    requires JointRun(userId, js, actions) && js[0] == Joint(Init(data), db, [])
    ensures Run(Init(data), actions) == Ok(js[|actions|].s)
    ensures RunsAsPredicted(Init(data), actions)
            <==> forall k | 0 <= k < |actions| :: Foreseen(userId, js[k], actions[k], js[k + 1])
  {
    InitInv(data);
    JointRunKeepsInv(userId, js, actions);
  }

  /**
   In every such run the user's own user, file and file state rows stay those of the database, and an accepted
   mutator that looks up what it looked up when it was made leaves them as the client's writes would, whatever
   else the answer brings; when it looks up something else, those writes cannot be applied at all.
   */
  lemma OwnRowsArePredicted(userId: string, data: StoreData, db: Keyed, js: seq<Joint>, actions: seq<Action>, k: nat)
    requires Unique(data) && Sound(db) && Mirrors(userId, Keys(data), db)
    requires JointRun(userId, js, actions) && js[0] == Joint(Init(data), db, [])
    requires k <= |actions|
    ensures Sound(js[k].db)
    ensures MutatorLaws.Own(userId, Keys(js[k].s.server)) == MutatorLaws.Own(userId, js[k].db)
    ensures k < |actions| && actions[k].Accept? ==>
              && (Predicted(js[k]).Some? <==> LooksUpTheSame(js[k]))
              && (Predicted(js[k]).Some? ==>
                    MutatorLaws.Own(userId, Predicted(js[k]).value)
                    == MutatorLaws.Own(userId, Keys(js[k + 1].s.server)))
  {
    assert js[0].s == Init(data) && InvJoint(userId, js[0]) by {
      InitInv(data);
    }
    assert k < |actions| ==> JointStep(userId, js[k], actions[k], js[k + 1]);
    hide Keys, Predicted, LooksUpTheSame, MutatorLaws.Own, Next, InvJoint, JointStep, JointRun, Init, Sound, OwnAddr;
    JointRunKeepsInv(userId, js, actions);
    InvIsSound(userId, js[k]);
    if k < |actions| && actions[k].Accept? {
      AcceptStep(userId, js[k], actions[k], js[k + 1]);
      AnswerOf(userId, js[k], actions[k], js[k + 1]);
    }
  }

  lemma InvIsSound(userId: string, j: Joint)
    requires InvJoint(userId, j)
    ensures Sound(j.db) && MutatorLaws.Own(userId, Keys(j.s.server)) == MutatorLaws.Own(userId, j.db)
  {
  }

  lemma AcceptStep(userId: string, j: Joint, a: Action, j': Joint)
    requires JointStep(userId, j, a, j') && a.Accept?
    ensures Accepts(userId, j, a, j') && Next(j.s, a) == Ok(j'.s)
  {
  }
}
