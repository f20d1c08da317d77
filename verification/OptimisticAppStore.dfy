/**
 The client half of the replicated store (packages/dotcom-shared/src/OptimisticAppStore.ts):
 committed ("gold") data, a list of pending mutations, and a visible state that replays the pending
 row updates over the committed data.
 */
module OptimisticStore {
  import opened Prelude
  import opened AppSchema

  datatype StoreData = StoreData(file: seq<Row>, fileState: seq<Row>, user: seq<Row>, lsn: string) {
    function Rows(t: Table): seq<Row> {
      match t
      case File => file
      case FileState => fileState
      case User => user
    }

    function WithRows(t: Table, rows: seq<Row>): StoreData {
      match t
      case File => this.(file := rows)
      case FileState => this.(fileState := rows)
      case User => this.(user := rows)
    }
  }

  datatype Event = Insert | Update | Delete

  datatype RowUpdate = RowUpdate(table: Table, event: Event, row: Row)

  datatype Pending = Pending(updates: seq<RowUpdate>, mutationId: string)

  function Target(u: RowUpdate): Addr {
    AddrOf(u.table, u.row)
  }

  // ---------------------------------------------------------------- one row update on the lists

  predicate SomeMatch(t: Table, rows: seq<Row>, row: Row) {
    exists i | 0 <= i < |rows| :: Matches(t, rows[i], row)
  }

  function MergeMatching(t: Table, rows: seq<Row>, row: Row): seq<Row> {
    seq(|rows|, i requires 0 <= i < |rows| => if Matches(t, rows[i], row) then rows[i] + row else rows[i])
  }

  function DropMatching(t: Table, rows: seq<Row>, row: Row): seq<Row> {
    if rows == [] then []
    else
      var n := |rows| - 1;
      DropMatching(t, rows[..n], row) + if Matches(t, rows[n], row) then [] else [rows[n]]
  }

  /** None stands for a failed assertion: inserting a present row or updating an absent one. */
  function ApplyUpdate(prev: StoreData, u: RowUpdate): Option<StoreData> {
    var rows := prev.Rows(u.table);
    match u.event
    case Insert =>
      if SomeMatch(u.table, rows, u.row) then None
      else Some(prev.WithRows(u.table, rows + [u.row]))
    case Update =>
      if !SomeMatch(u.table, rows, u.row) then None
      else Some(prev.WithRows(u.table, MergeMatching(u.table, rows, u.row)))
    case Delete =>
      Some(prev.WithRows(u.table, DropMatching(u.table, rows, u.row)))
  }

  function ApplyAll(d: StoreData, us: seq<RowUpdate>): Option<StoreData>
    decreases |us|
  {
    if us == [] then Some(d)
    else
      match ApplyUpdate(d, us[0])
      case None => None
      case Some(d') => ApplyAll(d', us[1..])
  }

  lemma {:induction false} ApplyAllConcat(d: StoreData, us: seq<RowUpdate>, vs: seq<RowUpdate>)
    ensures ApplyAll(d, us + vs) ==
            match ApplyAll(d, us) case None => None case Some(d') => ApplyAll(d', vs)
    decreases |us|
  {
    if us == [] {
      assert us + vs == vs;
    } else {
      assert (us + vs)[0] == us[0] && (us + vs)[1..] == us[1..] + vs;
      match ApplyUpdate(d, us[0]) {
        case None =>
        case Some(d') => ApplyAllConcat(d', us[1..], vs);
      }
    }
  }

  // ---------------------------------------------------------------- the pending list

  function Updates(pending: seq<Pending>): seq<RowUpdate> {
    if pending == [] then [] else pending[0].updates + Updates(pending[1..])
  }

  lemma {:induction false} UpdatesConcat(p: seq<Pending>, q: seq<Pending>)
    ensures Updates(p + q) == Updates(p) + Updates(q)
  {
    if p == [] {
      assert p + q == q;
    } else {
      assert (p + q)[1..] == p[1..] + q;
      UpdatesConcat(p[1..], q);
    }
  }

  /** The index of the last pending entry with an acknowledged id, or -1. */
  function LastAcked(pending: seq<Pending>, ids: seq<string>): (i: int)
    ensures -1 <= i < |pending|
    ensures i >= 0 ==> pending[i].mutationId in ids
    ensures forall j | i < j < |pending| :: pending[j].mutationId !in ids
  {
    if pending == [] then -1
    else if pending[|pending| - 1].mutationId in ids then |pending| - 1
    else LastAcked(pending[..|pending| - 1], ids)
  }

  function Commit(pending: seq<Pending>, ids: seq<string>): seq<Pending> {
    pending[LastAcked(pending, ids) + 1..]
  }

  function Reject(pending: seq<Pending>, id: string): seq<Pending> {
    if pending == [] then []
    else (if pending[0].mutationId == id then [] else [pending[0]]) + Reject(pending[1..], id)
  }

  // ---------------------------------------------------------------- the visible state

  datatype Visible = NoData | Shows(data: StoreData) | Throws

  /** What a reader of the store sees. */
  function View(gold: Option<StoreData>, pending: seq<Pending>): Visible {
    match gold
    case None => NoData
    case Some(d) =>
      match ApplyAll(d, Updates(pending))
      case None => Throws
      case Some(v) => Shows(v)
  }

  class OptimisticAppStore {
    var gold: Option<StoreData>
    var optimistic: seq<Pending>

    constructor ()
      ensures gold == None && optimistic == []
    {
      gold, optimistic := None, [];
    }

    method Initialize(data: StoreData, optimisticUpdates: Option<seq<Pending>>)
      modifies this
      ensures gold == Some(data)
      ensures optimistic == if optimisticUpdates.Some? then optimisticUpdates.value else old(optimistic)
    {
      gold := Some(data);
      if optimisticUpdates.Some? {
        optimistic := optimisticUpdates.value;
      }
    }

    method GetFullData() returns (v: Visible)
      ensures v == View(gold, optimistic)
    {
      hide ApplyUpdate;
      if gold.None? {
        return NoData;
      }
      var data := gold.value;
      for i := 0 to |optimistic|
        invariant ApplyAll(gold.value, Updates(optimistic[..i])) == Some(data)
      {
        var updates := optimistic[i].updates;
        assert Updates(optimistic[..i]) + updates[..0] == Updates(optimistic[..i]);
        for j := 0 to |updates|
          invariant ApplyAll(gold.value, Updates(optimistic[..i]) + updates[..j]) == Some(data)
        {
          var next := ApplyUpdate(data, updates[j]);
          assert updates[..j + 1] == updates[..j] + [updates[j]];
          assert Updates(optimistic[..i]) + updates[..j + 1]
              == (Updates(optimistic[..i]) + updates[..j]) + [updates[j]];
          ApplyAllConcat(gold.value, Updates(optimistic[..i]) + updates[..j], [updates[j]]);
          assert ApplyAll(data, [updates[j]]) == next;
          if next.None? {
            ThrowsEarly(i, j + 1);
            return Throws;
          }
          data := next.value;
        }
        assert updates[..|updates|] == updates;
        UpdatesPrefix(optimistic, i);
      }
      assert optimistic[..|optimistic|] == optimistic;
      v := Shows(data);
    }

    /** A failing prefix of the pending updates makes the whole replay fail. */
    lemma ThrowsEarly(i: nat, j: nat)
      requires gold.Some? && i < |optimistic| && j <= |optimistic[i].updates|
      requires ApplyAll(gold.value, Updates(optimistic[..i]) + optimistic[i].updates[..j]).None?
      ensures ApplyAll(gold.value, Updates(optimistic)).None?
    {
      hide ApplyAll, Updates;
      var done, us := Updates(optimistic[..i]), optimistic[i].updates;
      assert us == us[..j] + us[j..];
      assert optimistic == optimistic[..i] + [optimistic[i]] + optimistic[i + 1..];
      UpdatesConcat(optimistic[..i] + [optimistic[i]], optimistic[i + 1..]);
      UpdatesPrefix(optimistic, i);
      assert optimistic[..i + 1] == optimistic[..i] + [optimistic[i]];
      var rest := us[j..] + Updates(optimistic[i + 1..]);
      assert Updates(optimistic) == (done + us[..j]) + rest;
      ApplyAllConcat(gold.value, done + us[..j], rest);
    }

    /** ok is false when the update's assertion fails; the committed data is then left alone. */
    method UpdateCommittedData(u: RowUpdate) returns (ok: bool)
      modifies this`gold
      ensures ok == (old(gold).None? || ApplyUpdate(old(gold).value, u).Some?)
      ensures gold == if ok && old(gold).Some? then ApplyUpdate(old(gold).value, u) else old(gold)
    {
      if gold.None? {
        return true;
      }
      var next := ApplyUpdate(gold.value, u);
      if next.None? {
        return false;
      }
      gold := next;
      ok := true;
    }

    method UpdateOptimisticData(updates: seq<RowUpdate>, mutationId: string)
      modifies this`optimistic
      ensures optimistic == old(optimistic) + [Pending(updates, mutationId)]
    {
      optimistic := optimistic + [Pending(updates, mutationId)];
    }

    method CommitMutations(mutationIds: seq<string>)
      modifies this`optimistic
      ensures optimistic == Commit(old(optimistic), mutationIds)
    {
      var highestIndex := LastAcked(optimistic, mutationIds);
      optimistic := optimistic[highestIndex + 1..];
    }

    method RejectMutation(mutationId: string)
      modifies this`optimistic
      ensures optimistic == Reject(old(optimistic), mutationId)
    {
      optimistic := Reject(optimistic, mutationId);
    }

    method CommitLsn(lsn: string)
      modifies this`gold
      ensures gold == if old(gold).None? then None else Some(old(gold).value.(lsn := lsn))
    {
      if gold.Some? {
        gold := Some(gold.value.(lsn := lsn));
      }
    }
  }

  lemma UpdatesPrefix(p: seq<Pending>, i: nat)
    requires i < |p|
    ensures Updates(p[..i + 1]) == Updates(p[..i]) + p[i].updates
  {
    assert p[..i + 1] == p[..i] + [p[i]];
    UpdatesConcat(p[..i], [p[i]]);
    assert Updates([p[i]]) == p[i].updates + Updates([]);
  }
}
