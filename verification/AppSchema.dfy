/**
 The application tables (packages/dotcom-shared/src/tlaSchema.ts): rows as column-to-value maps,
 the primary key of each table, and the address of a row, which is its table with its key.
 */
module AppSchema {
  import opened Prelude

  /** The JSON scalars a column can hold.  An absent column reads as None, JavaScript's undefined. */
  datatype Value = Null | Bool(b: bool) | Num(n: int) | Str(s: string)

  type Row = map<string, Value>

  datatype Table = File | FileState | User

  function Column(row: Row, name: string): Option<Value> {
    if name in row then Some(row[name]) else None
  }

  /** JavaScript truthiness of a column. */
  predicate Truthy(v: Option<Value>) {
    match v
    case None => false
    case Some(Null) => false
    case Some(Bool(b)) => b
    case Some(Num(n)) => n != 0
    case Some(Str(s)) => s != ""
  }

  function PrimaryKey(t: Table): seq<string> {
    match t
    case User => ["id"]
    case FileState => ["userId", "fileId"]
    case File => ["id", "ownerId", "publishedSlug"]
  }

  function ImmutableColumns(t: Table): set<string> {
    match t
    case User => {"email", "createdAt", "updatedAt", "avatar"}
    case File => {"ownerName", "ownerAvatar", "createSource", "updatedAt", "createdAt"}
    case FileState => {"firstVisitAt", "isFileOwner"}
  }

  function StringColumns(t: Table): set<string> {
    match t
    case User => {"id", "name", "email", "avatar", "color", "exportFormat", "exportTheme", "flags", "locale",
                  "colorScheme"}
    case FileState => {"userId", "fileId", "lastSessionState"}
    case File => {"id", "name", "ownerId", "ownerName", "ownerAvatar", "thumbnail", "sharedLinkType",
                  "publishedSlug", "createSource"}
  }

  function NumberColumns(t: Table): set<string> {
    match t
    case User => {"createdAt", "updatedAt", "animationSpeed", "edgeScrollSpeed"}
    case FileState => {"firstVisitAt", "lastEditAt", "lastVisitAt"}
    case File => {"lastPublished", "createdAt", "updatedAt"}
  }

  function BooleanColumns(t: Table): set<string> {
    match t
    case User => {"exportBackground", "exportPadding", "areKeyboardShortcutsEnabled", "isSnapMode", "isWrapMode",
                  "isDynamicSizeMode", "isPasteAtCursorMode", "allowAnalyticsCookie"}
    case FileState => {"isFileOwner", "isPinned"}
    case File => {"shared", "published", "isEmpty", "isDeleted"}
  }

  function OptionalColumns(t: Table): set<string> {
    match t
    case User => {"locale", "animationSpeed", "areKeyboardShortcutsEnabled", "edgeScrollSpeed", "colorScheme",
                  "isSnapMode", "isWrapMode", "isDynamicSizeMode", "isPasteAtCursorMode", "allowAnalyticsCookie"}
    case FileState => {"firstVisitAt", "lastEditAt", "lastSessionState", "lastVisitAt", "isFileOwner", "isPinned"}
    case File => {"createSource"}
  }

  /** A partial row of the table: every column it has is known and holds a value of its type. */
  predicate PartialRow(t: Table, row: Row) {
    forall c | c in row ::
      || (c in OptionalColumns(t) && row[c].Null?)
      || (c in StringColumns(t) && row[c].Str?)
      || (c in NumberColumns(t) && row[c].Num?)
      || (c in BooleanColumns(t) && row[c].Bool?)
  }

  /** A complete row: the optional columns are the only ones that may be missing. */
  predicate FullRow(t: Table, row: Row) {
    && PartialRow(t, row)
    && StringColumns(t) + NumberColumns(t) + BooleanColumns(t) - OptionalColumns(t) <= row.Keys
  }

  /** The columns of a file that the mutators read: what they hold, and that they can change. */
  lemma FileColumnTypes()
    ensures forall c | c in {"id", "ownerId", "publishedSlug"} ::
              c in StringColumns(File) && c !in NumberColumns(File) && c !in BooleanColumns(File)
    ensures forall c | c in {"shared", "isDeleted"} ::
              c in BooleanColumns(File) && c !in NumberColumns(File) && c !in StringColumns(File)
    ensures forall c | c in {"id", "ownerId", "publishedSlug", "shared", "isDeleted"} ::
              c !in OptionalColumns(File) && c !in ImmutableColumns(File)
  {
  }

  lemma FileColumns(row: Row)
    requires FullRow(File, row)
    ensures {"id", "ownerId", "publishedSlug", "shared", "isDeleted"} <= row.Keys
    ensures row["isDeleted"].Bool? && row["shared"].Bool? && row["id"].Str? && row["ownerId"].Str?
  {
    hide StringColumns, NumberColumns, BooleanColumns, OptionalColumns, ImmutableColumns;
    FileColumnTypes();
  }

  lemma MergeStaysFull(t: Table, row: Row, partial: Row)
    requires FullRow(t, row) && PartialRow(t, partial)
    ensures FullRow(t, row + partial)
  {
  }

  type Key = seq<Option<Value>>

  function KeyOf(t: Table, row: Row): Key {
    var pk := PrimaryKey(t);
    seq(|pk|, i requires 0 <= i < |pk| => Column(row, pk[i]))
  }

  datatype Addr = Addr(table: Table, key: Key)

  function AddrOf(t: Table, row: Row): Addr {
    Addr(t, KeyOf(t, row))
  }

  /** The test the store uses to find the row an update is about: every key column is the same. */
  predicate Matches(t: Table, existing: Row, row: Row) {
    forall c | c in PrimaryKey(t) :: Column(existing, c) == Column(row, c)
  }

  lemma MatchesIffSameAddr(t: Table, a: Row, b: Row)
    ensures Matches(t, a, b) <==> AddrOf(t, a) == AddrOf(t, b)
  {
    var pk := PrimaryKey(t);
    if AddrOf(t, a) == AddrOf(t, b) {
      forall c | c in pk ensures Column(a, c) == Column(b, c) {
        var i :| 0 <= i < |pk| && pk[i] == c;
        assert KeyOf(t, a)[i] == KeyOf(t, b)[i];
      }
    }
    if Matches(t, a, b) {
      assert KeyOf(t, a) == KeyOf(t, b);
    }
  }

  /** Merging a partial row into the row it matches never alters a key column. */
  lemma MergeKeepsAddr(t: Table, existing: Row, row: Row)
    requires AddrOf(t, existing) == AddrOf(t, row)
    ensures AddrOf(t, existing + row) == AddrOf(t, existing)
  {
    var pk := PrimaryKey(t);
    assert KeyOf(t, existing + row) == KeyOf(t, existing) by {
      forall i | 0 <= i < |pk|
        ensures KeyOf(t, existing + row)[i] == KeyOf(t, existing)[i]
      {
        assert KeyOf(t, existing)[i] == KeyOf(t, row)[i];
      }
    }
  }
}
