/**
 The keyed-map reading of the store, and the proof that the list operations of the store refine it:
 one finite map from row addresses to rows, with the obvious insert, merge and remove.
 */
module KeyedStore {
  import opened Prelude
  import opened AppSchema
  import opened OptimisticStore

  type Keyed = map<Addr, Row>

  // ---------------------------------------------------------------- the specification

  function Put(m: Keyed, u: RowUpdate): Option<Keyed> {
    var a := Target(u);
    match u.event
    case Insert => if a in m then None else Some(m[a := u.row])
    case Update => if a in m then Some(m[a := m[a] + u.row]) else None
    case Delete => Some(m - {a})
  }

  function PutAll(m: Keyed, us: seq<RowUpdate>): Option<Keyed>
    decreases |us|
  {
    if us == [] then Some(m)
    else
      match Put(m, us[0])
      case None => None
      case Some(m') => PutAll(m', us[1..])
  }

  lemma {:induction false} PutAllConcat(m: Keyed, us: seq<RowUpdate>, vs: seq<RowUpdate>)
    ensures PutAll(m, us + vs) == match PutAll(m, us) case None => None case Some(m') => PutAll(m', vs)
    decreases |us|
  {
    if us == [] {
      assert us + vs == vs;
    } else {
      assert (us + vs)[0] == us[0] && (us + vs)[1..] == us[1..] + vs;
      match Put(m, us[0]) {
        case None =>
        case Some(m') => PutAllConcat(m', us[1..], vs);
      }
    }
  }

  // ---------------------------------------------------------------- reading lists as maps

  ghost predicate UniqueKeys(t: Table, rows: seq<Row>) {
    forall i, j | 0 <= i < j < |rows| :: AddrOf(t, rows[i]) != AddrOf(t, rows[j])
  }

  ghost predicate Unique(d: StoreData) {
    UniqueKeys(File, d.file) && UniqueKeys(FileState, d.fileState) && UniqueKeys(User, d.user)
  }

  function Index(t: Table, rows: seq<Row>): Keyed {
    if rows == [] then map[]
    else
      var n := |rows| - 1;
      Index(t, rows[..n])[AddrOf(t, rows[n]) := rows[n]]
  }

  lemma {:induction false} IndexHas(t: Table, rows: seq<Row>, i: nat)
    requires i < |rows|
    ensures AddrOf(t, rows[i]) in Index(t, rows)
  {
    var n := |rows| - 1;
    if i < n {
      IndexHas(t, rows[..n], i);
    }
  }

  lemma {:induction false} IndexFrom(t: Table, rows: seq<Row>, a: Addr) returns (i: nat)
    requires a in Index(t, rows)
    ensures i < |rows| && AddrOf(t, rows[i]) == a && Index(t, rows)[a] == rows[i]
  {
    var n := |rows| - 1;
    if AddrOf(t, rows[n]) == a {
      i := n;
    } else {
      i := IndexFrom(t, rows[..n], a);
    }
  }

  /** The whole store as one keyed map. */
  function Keys(d: StoreData): Keyed {
    Index(File, d.file) + Index(FileState, d.fileState) + Index(User, d.user)
  }

  lemma KeysAt(d: StoreData, a: Addr)
    ensures a in Keys(d) <==> a in Index(a.table, d.Rows(a.table))
    ensures a in Keys(d) ==> Keys(d)[a] == Index(a.table, d.Rows(a.table))[a]
  {
    IndexTable(File, d.file, a);
    IndexTable(FileState, d.fileState, a);
    IndexTable(User, d.user, a);
  }

  lemma IndexTable(t: Table, rows: seq<Row>, a: Addr)
    ensures a in Index(t, rows) ==> a.table == t
  {
    if a in Index(t, rows) {
      var _ := IndexFrom(t, rows, a);
    }
  }

  /** On duplicate-free lists every row is found under its own address. */
  lemma IndexAt(t: Table, rows: seq<Row>, i: nat)
    requires UniqueKeys(t, rows) && i < |rows|
    ensures AddrOf(t, rows[i]) in Index(t, rows) && Index(t, rows)[AddrOf(t, rows[i])] == rows[i]
  {
    IndexHas(t, rows, i);
    var j := IndexFrom(t, rows, AddrOf(t, rows[i]));
  }

  // ---------------------------------------------------------------- each list operation refines

  lemma SomeMatchIffPresent(t: Table, rows: seq<Row>, row: Row)
    ensures SomeMatch(t, rows, row) <==> AddrOf(t, row) in Index(t, rows)
  {
    if SomeMatch(t, rows, row) {
      var i :| 0 <= i < |rows| && Matches(t, rows[i], row);
      MatchesIffSameAddr(t, rows[i], row);
      IndexHas(t, rows, i);
    }
    if AddrOf(t, row) in Index(t, rows) {
      var i := IndexFrom(t, rows, AddrOf(t, row));
      MatchesIffSameAddr(t, rows[i], row);
    }
  }

  lemma InsertRefines(t: Table, rows: seq<Row>, row: Row)
    requires UniqueKeys(t, rows) && !SomeMatch(t, rows, row)
    ensures UniqueKeys(t, rows + [row])
    ensures Index(t, rows + [row]) == Index(t, rows)[AddrOf(t, row) := row]
  {
    forall i | 0 <= i < |rows| ensures AddrOf(t, rows[i]) != AddrOf(t, row) {
      MatchesIffSameAddr(t, rows[i], row);
    }
    IndexNewest(t, rows, row);
  }

  /** Row i of the merged list: the merge touches only the row at the address of the update. */
  lemma MergeAt(t: Table, rows: seq<Row>, row: Row, i: nat)
    requires i < |rows|
    ensures var out := MergeMatching(t, rows, row);
            && AddrOf(t, out[i]) == AddrOf(t, rows[i])
            && out[i] == if AddrOf(t, rows[i]) == AddrOf(t, row) then rows[i] + row else rows[i]
  {
    MatchesIffSameAddr(t, rows[i], row);
    if AddrOf(t, rows[i]) == AddrOf(t, row) {
      MergeKeepsAddr(t, rows[i], row);
    }
  }

  lemma MergeRefines(t: Table, rows: seq<Row>, row: Row)
    requires UniqueKeys(t, rows) && SomeMatch(t, rows, row)
    ensures UniqueKeys(t, MergeMatching(t, rows, row))
    ensures var m, a := Index(t, rows), AddrOf(t, row);
            a in m && Index(t, MergeMatching(t, rows, row)) == m[a := m[a] + row]
  {
    hide Index, KeyOf, Matches, SomeMatch;
    var a, m, out := AddrOf(t, row), Index(t, rows), MergeMatching(t, rows, row);
    SomeMatchIffPresent(t, rows, row);
    forall i | 0 <= i < |rows| ensures AddrOf(t, out[i]) == AddrOf(t, rows[i]) {
      MergeAt(t, rows, row, i);
    }
    var m' := Index(t, out);
    forall b | b in m ensures b in m' && m'[b] == if b == a then m[a] + row else m[b] {
      var i := IndexFrom(t, rows, b);
      IndexAt(t, out, i);
      MergeAt(t, rows, row, i);
    }
    forall b | b in m' ensures b in m {
      var i := IndexFrom(t, out, b);
      IndexHas(t, rows, i);
    }
    assert m' == m[a := m[a] + row];
  }

  lemma {:induction false} DropKeeps(t: Table, rows: seq<Row>, row: Row)
    ensures forall r | r in DropMatching(t, rows, row) :: r in rows
  {
    hide Matches;
    if rows != [] {
      DropKeeps(t, rows[..|rows| - 1], row);
    }
  }

  lemma AddressDiffers(t: Table, rows: seq<Row>, n: nat, r: Row)
    requires UniqueKeys(t, rows) && n < |rows| && r in rows[..n]
    ensures AddrOf(t, r) != AddrOf(t, rows[n])
  {
    var j :| 0 <= j < n && rows[..n][j] == r;
    assert rows[j] == r;
  }

  lemma {:induction false} DropKeepsUnique(t: Table, rows: seq<Row>, row: Row)
    requires UniqueKeys(t, rows)
    ensures UniqueKeys(t, DropMatching(t, rows, row))
  {
    hide Matches, AddrOf;
    if rows != [] {
      var n := |rows| - 1;
      var rest := DropMatching(t, rows[..n], row);
      DropKeepsUnique(t, rows[..n], row);
      DropKeeps(t, rows[..n], row);
      forall i | 0 <= i < |rest| ensures AddrOf(t, rest[i]) != AddrOf(t, rows[n]) {
        AddressDiffers(t, rows, n, rest[i]);
      }
    }
  }

  lemma IndexNewest(t: Table, rows: seq<Row>, row: Row)
    ensures Index(t, rows + [row]) == Index(t, rows)[AddrOf(t, row) := row]
  {
    assert (rows + [row])[..|rows|] == rows;
  }

  lemma DropNewest(t: Table, rows: seq<Row>, last: Row, row: Row)
    ensures DropMatching(t, rows + [last], row)
         == if AddrOf(t, last) == AddrOf(t, row) then DropMatching(t, rows, row)
             else DropMatching(t, rows, row) + [last]
  {
    hide AddrOf, Matches;
    MatchesIffSameAddr(t, last, row);
    assert (rows + [last])[..|rows|] == rows;
    assert DropMatching(t, rows, row) + [] == DropMatching(t, rows, row);
  }

  lemma NothingIndexed(t: Table, row: Row)
    ensures Index(t, []) == map[] && DropMatching(t, [], row) == []
  {
  }

  lemma {:induction false} DropIndex(t: Table, rows: seq<Row>, row: Row)
    ensures Index(t, DropMatching(t, rows, row)) == Index(t, rows) - {AddrOf(t, row)}
  {
    hide Matches, AddrOf, Index, DropMatching;
    if rows == [] {
      NothingIndexed(t, row);
    } else {
      var n := |rows| - 1;
      var front, last := rows[..n], rows[n];
      assert rows == front + [last];
      DropIndex(t, front, row);
      DropNewest(t, front, last, row);
      IndexNewest(t, front, last);
      IndexNewest(t, DropMatching(t, front, row), last);
    }
  }

  lemma DropRefines(t: Table, rows: seq<Row>, row: Row)
    requires UniqueKeys(t, rows)
    ensures UniqueKeys(t, DropMatching(t, rows, row))
    ensures Index(t, DropMatching(t, rows, row)) == Index(t, rows) - {AddrOf(t, row)}
  {
    hide DropMatching, Index, UniqueKeys;
    DropKeepsUnique(t, rows, row);
    DropIndex(t, rows, row);
  }

  function OtherTables(m: Keyed, t: Table): Keyed {
    map a | a in m && a.table != t :: m[a]
  }

  lemma KeysByTable(d: StoreData, t: Table)
    ensures Keys(d) == OtherTables(Keys(d), t) + Index(t, d.Rows(t))
  {
    forall a | a in Keys(d) ensures a.table == t <==> a in Index(t, d.Rows(t)) {
      KeysAt(d, a);
      IndexTable(t, d.Rows(t), a);
    }
    forall a | a in Index(t, d.Rows(t)) ensures a in Keys(d) && Keys(d)[a] == Index(t, d.Rows(t))[a] {
      IndexTable(t, d.Rows(t), a);
      KeysAt(d, a);
    }
  }

  lemma OthersUntouched(d: StoreData, t: Table, rows: seq<Row>)
    ensures OtherTables(Keys(d.WithRows(t, rows)), t) == OtherTables(Keys(d), t)
  {
    hide Keys, Index;
    var d' := d.WithRows(t, rows);
    forall a: Addr | a.table != t
      ensures a in Keys(d') <==> a in Keys(d)
      ensures a in Keys(d) ==> Keys(d')[a] == Keys(d)[a]
    {
      KeysAt(d, a);
      KeysAt(d', a);
    }
  }

  lemma ReplaceTable(d: StoreData, t: Table, rows: seq<Row>)
    requires Unique(d) && UniqueKeys(t, rows)
    ensures var d' := d.WithRows(t, rows);
            && Unique(d')
            && Keys(d') == OtherTables(Keys(d), t) + Index(t, rows)
            && d'.lsn == d.lsn
            && forall s | s != t :: d'.Rows(s) == d.Rows(s)
  {
    hide UniqueKeys, Index, Keys, OtherTables;
    KeysByTable(d.WithRows(t, rows), t);
    OthersUntouched(d, t, rows);
  }

  /**
   One row update on duplicate-free lists is exactly Put on the keyed map: it fails together with Put,
   keeps keys unique, and leaves the other tables and the log position alone.
   */
  lemma ApplyRefines(d: StoreData, u: RowUpdate)
    requires Unique(d)
    ensures ApplyUpdate(d, u).Some? <==> Put(Keys(d), u).Some?
    ensures ApplyUpdate(d, u).Some? ==>
              var d' := ApplyUpdate(d, u).value;
              && Unique(d')
              && Keys(d') == Put(Keys(d), u).value
              && d'.lsn == d.lsn
              && forall t | t != u.table :: d'.Rows(t) == d.Rows(t)
  {
    hide Index, KeyOf, Keys, UniqueKeys, OtherTables, SomeMatch, MergeMatching, DropMatching;
    var t, rows := u.table, d.Rows(u.table);
    SomeMatchIffPresent(t, rows, u.row);
    KeysAt(d, Target(u));
    KeysByTable(d, t);
    OtherTablesLack(Keys(d), Target(u));
    UpdateUnderUnion(OtherTables(Keys(d), t), Index(t, rows), Target(u), u.row);
    if ApplyUpdate(d, u).Some? {
      match u.event {
        case Insert =>
          InsertRefines(t, rows, u.row);
          ReplaceTable(d, t, rows + [u.row]);
        case Update =>
          MergeRefines(t, rows, u.row);
          ReplaceTable(d, t, MergeMatching(t, rows, u.row));
          UpdateUnderUnion(OtherTables(Keys(d), t), Index(t, rows), Target(u), Keys(d)[Target(u)] + u.row);
        case Delete =>
          DropRefines(t, rows, u.row);
          ReplaceTable(d, t, DropMatching(t, rows, u.row));
      }
    }
  }

  lemma OtherTablesLack(m: Keyed, a: Addr)
    ensures a !in OtherTables(m, a.table)
  {
  }

  lemma UpdateUnderUnion(others: Keyed, m: Keyed, a: Addr, row: Row)
    requires a !in others
    ensures others + m[a := row] == (others + m)[a := row]
    ensures others + (m - {a}) == (others + m) - {a}
  {
  }

  /** The same for any sequence of updates, so for the replay of the whole pending list. */
  lemma {:induction false} ReplayRefines(d: StoreData, us: seq<RowUpdate>)
    requires Unique(d)
    ensures ApplyAll(d, us).Some? <==> PutAll(Keys(d), us).Some?
    ensures ApplyAll(d, us).Some? ==>
              var d' := ApplyAll(d, us).value;
              Unique(d') && Keys(d') == PutAll(Keys(d), us).value && d'.lsn == d.lsn
    decreases |us|
  {
    if us != [] {
      ApplyRefines(d, us[0]);
      if ApplyUpdate(d, us[0]).Some? {
        ReplayRefines(ApplyUpdate(d, us[0]).value, us[1..]);
      }
    }
  }

  // ---------------------------------------------------------------- the order of the rows

  function KeysInOrder(t: Table, rows: seq<Row>): seq<Addr> {
    seq(|rows|, i requires 0 <= i < |rows| => AddrOf(t, rows[i]))
  }

  function Without(addrs: seq<Addr>, a: Addr): seq<Addr> {
    if addrs == [] then []
    else Without(addrs[..|addrs| - 1], a) + if addrs[|addrs| - 1] == a then [] else [addrs[|addrs| - 1]]
  }

  lemma {:induction false} DropKeepsOrder(t: Table, rows: seq<Row>, row: Row)
    ensures KeysInOrder(t, DropMatching(t, rows, row)) == Without(KeysInOrder(t, rows), AddrOf(t, row))
  {
    hide AddrOf, KeyOf, Matches;
    if rows != [] {
      var n := |rows| - 1;
      var front, last := rows[..n], rows[n];
      DropKeepsOrder(t, front, row);
      MatchesIffSameAddr(t, last, row);
      KeysNewest(t, front, last);
      assert rows == front + [last];
      KeysNewest(t, DropMatching(t, front, row), last);
      assert KeysInOrder(t, rows)[..n] == KeysInOrder(t, front);
    }
  }

  lemma KeysNewest(t: Table, rows: seq<Row>, row: Row)
    ensures KeysInOrder(t, rows + [row]) == KeysInOrder(t, rows) + [AddrOf(t, row)]
  {
    hide AddrOf;
  }

  /** A new row is the last of its table; a changed row keeps its place, and so do the rows left by a delete. */
  lemma UpdateKeepsOrder(d: StoreData, u: RowUpdate)
    requires ApplyUpdate(d, u).Some?
    ensures var rows, rows' := d.Rows(u.table), ApplyUpdate(d, u).value.Rows(u.table);
            match u.event
            case Insert => rows' == rows + [u.row]
            case Update => KeysInOrder(u.table, rows') == KeysInOrder(u.table, rows)
            case Delete => KeysInOrder(u.table, rows') == Without(KeysInOrder(u.table, rows), Target(u))
    ensures forall t | t != u.table :: ApplyUpdate(d, u).value.Rows(t) == d.Rows(t)
  {
    var rows := d.Rows(u.table);
    match u.event {
      case Insert =>
      case Update =>
        forall i | 0 <= i < |rows|
          ensures AddrOf(u.table, MergeMatching(u.table, rows, u.row)[i]) == AddrOf(u.table, rows[i])
        {
          MatchesIffSameAddr(u.table, rows[i], u.row);
          if Matches(u.table, rows[i], u.row) {
            MergeKeepsAddr(u.table, rows[i], u.row);
          }
        }
      case Delete => DropKeepsOrder(u.table, rows, u.row);
    }
  }
}
