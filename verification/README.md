# Verified models of the tldraw sync client and its tooling

This project models the hardest stateful and algorithmic parts of the repository in Dafny and proves what they
promise. `dafny verify dfyconfig.toml` checks all of it.

**The optimistic replica.** A client keeps committed ("gold") rows, an ordered list of pending mutations, and shows
the pending row updates replayed over the committed rows. `AppSchema` has the tables, their keys and column types;
`OptimisticStore` has the store class, method by method, with failed assertions as `None`, `Throws` or `ok == false`;
`KeyedStore` proves that its lists implement one map from (table, key) to row; `StoreAlgebra` has the laws of updates,
rejects and acknowledgements; `SyncProtocol` is the protocol between client and server as a state machine over all
interleavings, with its convergence theorem; `SyncView` is about what the user sees while it runs.

**The mutators.** `Mutators` has each mutator as a method over a keyed database, run on the client or the server;
`MutatorEffects` says exactly when each is accepted and what it does to which row; `MutatorLaws` and `MutatorRuns`
prove what holds over every serialised run of all users, and the commuting square between the server and the replica
that the read permissions give a client. `SyncMutators` joins the two halves: runs of the protocol whose mutations are
calls of the mutators, served by a database of which the user's data stays a mirror, and exactly when the server's
answers do what the client predicted.

**The terminal line breaker.** `WrapAnsi` has the greedy breaker with its hard mode and the pass that closes and
reopens SGR codes (section 8.3.117 of ECMA-48) at line ends, with an escape as one unit. `WrapEscapes` has the word
breaker and `WrapCharacters` the whole call character by character, and they prove exactly when the two agree.
`WrapContent` (with `WrapOrigin`) and, for the characters, `WrapCharacterContent`, `GreedyWrap`, `HardWrap`,
`WrapDecision`, `WrapWidths` and `WrapStyles` prove content preservation, optimality, the hard-wrap arithmetic and
decision, the width bounds and style preservation on a terminal that keeps the attributes of ECMA-48 apart, and
`WrapWhole` what the characters of the output display.

**Documentation site.** `ParseMarkdown`, `ParseMarkdownLaws` and `PageText` model the walk that splits a page into
headings; `ContentDatabase`, `SidebarContents` and `ArticleOrder` model the cached sidebar and the previous/next
links.

**Scripts.** `CodeGen`, `Inlining`, `CodeNames` and `RenderedCode` model the generator that inlines constants used
once, its names, and what its text says when it is read; `Publishing` the package sort, the retry loop and the publish
loop; `LineSplitter` the line splitting of process output; `Migrate` the migration runner; `Debounce` the debounce
timer.

Code that updates state is modelled by classes and loops, each method proved against a specification function; the
lemmas about those functions are the results. Where the code falls short of what it suggests, the exact condition is
proved together with an input or a kind of input that breaks it: writes predict the server's answer only while lookups
stay the same (`MutatorsArePredictedIff`), a remote delete under a pending edit, or the reject of an insert under one,
makes every read throw (`RemoteUpdateKeepsViewIff`, `RejectKeepsViewIff`), rows exceed the columns in soft mode, and
in hard mode beside an indent (`RowsFitIff`), long words start on the wrong row beside an indent
(`DecisionsAreRightIff`), an indent of escapes alone can end up inside a row (`WrappingKeepsTheTextIff`), escapes are
torn apart where words are broken beside an indent as wide as the columns (`TextsStayWholeIff`), an indent with codes
takes their attributes from what follows it (`StylesAreKeptIff`), of several attributes only the last one is reopened
(`StylesSurviveLineBreaks`), two memo keys can be given one name (`NewNamesAreFreshIff`), next links leave a section
after the first of its groups (`NextWalksTheTourIff`), some keys give names that are no variable names
(`NamesAreIdentifiersIff`), and a dependency cycle breaks the publish order (`DepsFirstIffAcyclic`).

## Model

| member | source | states |
|---|---|---|
| `AppSchema.MatchesIffSameAddr` | packages/dotcom-shared/src/OptimisticAppStore.ts:109-110 | an update matches a row exactly when both have the same table and (composite) key |
| `AppSchema.MergeKeepsAddr` | packages/dotcom-shared/src/OptimisticAppStore.ts:120-124 | merging an update into the row it matches never alters a key column |
| `OptimisticStore.OptimisticAppStore.Initialize` | packages/dotcom-shared/src/OptimisticAppStore.ts:25-35 | replaces the committed data, and the pending list only when one is given |
| `OptimisticStore.OptimisticAppStore.GetFullData` | packages/dotcom-shared/src/OptimisticAppStore.ts:37-52 | the nested loops show nothing without data, throw when any pending update fails, and otherwise show the fold of all pending updates over the committed data |
| `OptimisticStore.OptimisticAppStore.UpdateCommittedData` | packages/dotcom-shared/src/OptimisticAppStore.ts:62-67 | applies one update to the committed data and leaves it alone when the update's assertion fails; pending mutations are untouched |
| `OptimisticStore.OptimisticAppStore.UpdateOptimisticData` | packages/dotcom-shared/src/OptimisticAppStore.ts:73-78 | adds one entry at the end of the pending list |
| `OptimisticStore.OptimisticAppStore.CommitMutations` | packages/dotcom-shared/src/OptimisticAppStore.ts:80-86 | drops everything up to the last acknowledged entry; its laws are CommitIsLongestCleanSuffix and CommitUnion |
| `OptimisticStore.LastAcked` | packages/dotcom-shared/src/OptimisticAppStore.ts:83 | the highest index with an acknowledged id: that entry is acknowledged and no later one is; -1 when none is |
| `OptimisticStore.OptimisticAppStore.RejectMutation` | packages/dotcom-shared/src/OptimisticAppStore.ts:88-95 | drops exactly the entries with the rejected id, keeping the order of the others; its law is RejectIsUndo |
| `OptimisticStore.OptimisticAppStore.CommitLsn` | packages/dotcom-shared/src/OptimisticAppStore.ts:97-102 | changes the lsn of the committed data and nothing else |
| `KeyedStore.ApplyRefines` | packages/dotcom-shared/src/OptimisticAppStore.ts:104-135 | on tables with unique keys the list update is the keyed-map insert, merge or remove: it fails together with it, keys stay unique, other tables and the lsn are untouched |
| `KeyedStore.ReplayRefines` | packages/dotcom-shared/src/OptimisticAppStore.ts:37-52 | the same for the replay of any list of pending updates |
| `KeyedStore.UpdateKeepsOrder` | packages/dotcom-shared/src/OptimisticAppStore.ts:111-130 | an inserted row is the last of its table, a changed row keeps its place, and a delete leaves the other rows in order |
| `StoreAlgebra.DistinctRowsCommute` | packages/dotcom-shared/src/OptimisticAppStore.ts:104-135 | updates of different rows commute, including in whether they fail |
| `StoreAlgebra.MergesCommuteIff` | packages/dotcom-shared/src/OptimisticAppStore.ts:116-126 | two merges into one row commute exactly when they agree on every column that both write |
| `StoreAlgebra.MovesPast` | packages/dotcom-shared/src/OptimisticAppStore.ts:43-48 | an update of a row that no later update touches can be moved past all of them |
| `StoreAlgebra.RemoteUpdateShowsThrough` | packages/dotcom-shared/src/OptimisticAppStore.ts:37-67 | a remote update of a row that no pending mutation touches keeps the view defined and changes it by exactly that update |
| `StoreAlgebra.RemoteUpdateKeepsViewIff` | packages/dotcom-shared/src/OptimisticAppStore.ts:37-67 | after any remote update the view is still defined exactly when the first pending event on that row tolerates its new presence or absence |
| `StoreAlgebra.RemoteDeleteCanBreakTheView` | packages/dotcom-shared/src/OptimisticAppStore.ts:116-117 | a concrete store in which a remote delete under a pending edit makes reading throw |
| `StoreAlgebra.RejectIsUndo` | packages/dotcom-shared/src/OptimisticAppStore.ts:88-135 | rejecting a mutation whose rows no later mutation touches keeps the view defined, changes only those rows, and gives them the value they have without it |
| `StoreAlgebra.RejectKeepsViewIff` | packages/dotcom-shared/src/OptimisticAppStore.ts:88-135 | after any reject the view is still defined exactly when, at each row that the rejected mutation touched, the remaining events are possible one after the other from whether the row is committed |
| `StoreAlgebra.RejectCanBreakTheView` | packages/dotcom-shared/src/OptimisticAppStore.ts:112-117 | a concrete store in which rejecting an insert under a later pending edit makes reading throw |
| `StoreAlgebra.CommitIsLongestCleanSuffix` | packages/dotcom-shared/src/OptimisticAppStore.ts:80-86 | what is left is a suffix of the pending list, and a suffix holds no acknowledged id exactly when it is no longer than that one |
| `StoreAlgebra.CommitUnion` | packages/dotcom-shared/src/OptimisticAppStore.ts:80-86 | committing A and then B is committing the union; so commits commute and are idempotent |
| `StoreAlgebra.CommitAndRejectCommute` | packages/dotcom-shared/src/OptimisticAppStore.ts:80-95 | acknowledging some mutations and rejecting another id can happen in either order, even with repeated ids |
| `SyncProtocol.NextKeepsInv` | packages/dotcom-shared/src/OptimisticAppStore.ts:37-95 | every protocol step keeps the invariant that ties the pending list, the committed data and the updates in flight to the server, and no delivery makes the client throw |
| `SyncProtocol.Convergence` | packages/dotcom-shared/src/OptimisticAppStore.ts:37-95 | in every run the pending list is the unanswered mutations in submission order, the committed data catches up with the server through the updates in flight, and once all is answered the view is the server's data |
| `SyncProtocol.KeysStayUnique` | packages/dotcom-shared/src/OptimisticAppStore.ts:104-135 | in every run the committed tables and every defined view have unique keys, and the view is the keyed-map replay |
| `SyncProtocol.UnresolvedIsPending` | apps/dotcom/client/src/tla/app/zero-polyfill.ts:60-92 | in every run, each write of a mutation that is unanswered, or whose commit is in flight, is in the client's pending list |
| `SyncProtocol.Drain` | apps/dotcom/sync-worker/src/UserDataSyncer.ts:508-528 | once the server has handled everything, delivering what is in flight ends with nothing pending and the client equal to the server |
| `SyncView.CommitIsInvisible` | packages/dotcom-shared/src/OptimisticAppStore.ts:37-95 | in every run in which the server's answers do what the client's writes would do, a delivery of commits, merged or not, leaves the view as it is when no refused mutation lies ahead; else it shows what the rejects of those ahead would show, and these change nothing when they come; to the letter when the answers are those writes |
| `SyncView.OthersShowThrough` | packages/dotcom-shared/src/OptimisticAppStore.ts:37-95 | in such a run, a delivery that also holds updates of others to rows that no remaining mutation touches changes the view by exactly those updates |
| `SyncView.AlwaysVisible` | packages/dotcom-shared/src/OptimisticAppStore.ts:37-52 | reading never throws in a run where mutations are made on what is shown, answered as predicted, others' updates in flight stay off the rows of pending mutations, and nothing builds on a refused mutation |
| `Mutators.Transaction.InsertUser` | packages/dotcom-shared/src/mutators.ts:48-51 | refused unless the row is the caller's own and new; exactly that row is added |
| `Mutators.Transaction.UpdateUser` | packages/dotcom-shared/src/mutators.ts:52-56 | refused for another user's row, a truthy immutable column or a missing row; merges into that row only |
| `Mutators.Transaction.NotMaxFiles` | packages/dotcom-shared/src/mutators.ts:27-43 | the loop over the rows counts each live file of the owner once, by the column on the server and by its truthiness on the client |
| `Mutators.Transaction.InsertFileWithState` | packages/dotcom-shared/src/mutators.ts:59-73 | the order and meaning of all checks (owner, limit, id format, matching state) and the insert with the upsert of the state |
| `Mutators.Transaction.DeleteOrForgetFile` | packages/dotcom-shared/src/mutators.ts:74-90 | forgets the caller's state; the owner also soft-deletes the file, sweeping all its states on the server; fails whole when the file row is missing |
| `Mutators.Transaction.UpdateFile` | packages/dotcom-shared/src/mutators.ts:91-104 | refused for immutable columns, missing, deleted or foreign files; otherwise merges under the stored key |
| `Mutators.Transaction.InsertFileState` | packages/dotcom-shared/src/mutators.ts:107-119 | upserts the caller's state; on the server only for a file that is theirs or shared |
| `Mutators.Transaction.UpdateFileState` | packages/dotcom-shared/src/mutators.ts:120-124 | refused for another user's state, a truthy immutable column or a missing row |
| `Mutators.Transaction.DeleteFileState` | packages/dotcom-shared/src/mutators.ts:125-128 | removes exactly the caller's state of the file |
| `MutatorEffects.UserInsertDoes` | packages/dotcom-shared/src/mutators.ts:48-51 | accepted exactly for the own id and when there is no row; then the row of that key is the argument and no other row changes |
| `MutatorEffects.UserUpdateDoes` | packages/dotcom-shared/src/mutators.ts:52-56 | accepted exactly for the own, existing row without a value for email, avatar or times; then each given column has its new value, and nothing else changes |
| `MutatorEffects.FileInsertDoes` | packages/dotcom-shared/src/mutators.ts:59-73 | accepted exactly for the own id, fewer than 200 live files, 16 to 32 allowed characters, a matching state, an unused id on the server and a free key; then the file and the own state are there and nothing else changes |
| `MutatorEffects.FileForgetDoes` | packages/dotcom-shared/src/mutators.ts:74-90 | anyone loses their own state of the file and no more; its owner marks the file deleted, and only then, on the server, all states of it go; every other row and column stays |
| `MutatorEffects.FileUpdateDoes` | packages/dotcom-shared/src/mutators.ts:91-104 | accepted exactly for the own live file with that id and without a value for a fixed column; the given columns change except those of the key |
| `MutatorEffects.StateInsertDoes` | packages/dotcom-shared/src/mutators.ts:107-119 | accepted exactly for the own id and, on the server, a file that is theirs or shared; inserts or merges the own state, nothing else |
| `MutatorEffects.StateUpdateDoes` | packages/dotcom-shared/src/mutators.ts:120-124 | accepted exactly for the own, existing state without a first visit or an owner mark; merges into it, nothing else |
| `MutatorEffects.StateDeleteDoes` | packages/dotcom-shared/src/mutators.ts:125-128 | accepted exactly for the own id; removes the own state of the file, nothing else |
| `MutatorLaws.Isolation` | packages/dotcom-shared/src/mutators.ts:45-131 | no mutator of one user changes a row of another, except that on the server the states of a file are removed when its owner deletes it |
| `MutatorEffects.SeesExactly` | packages/dotcom-shared/src/tlaSchema.ts:168-206 | the rows that a user may read: their user row, states and files by their keys, and of the files of others exactly the shared ones of which they have a state |
| `MutatorLaws.ReplicaMirrors` | packages/dotcom-shared/src/tlaSchema.ts:168-206 | the rows that the read permissions select hold all own rows of the user unchanged, and no file row that differs from the server's |
| `MutatorLaws.SameLiveFiles` | packages/dotcom-shared/src/mutators.ts:27-43 | the client's truthiness test and the server's SQL test count the same live files, so the client's limit check is never stricter |
| `MutatorLaws.SameFileWithId` | packages/dotcom-shared/src/mutators.ts:93 | looking up an own file by id finds the same row on both sides |
| `MutatorRuns.FileStepHolds` | packages/dotcom-shared/src/mutators.ts:58-105 | a file row appears only by an insert with a valid id, never goes away, and changes only by a merge of mutable columns while it is not deleted |
| `MutatorRuns.UserStepHolds` | packages/dotcom-shared/src/mutators.ts:47-57 | a user row appears only by an insert, never goes away, and changes only by a merge of mutable columns |
| `MutatorRuns.ServerStaysSound` | packages/dotcom-shared/src/mutators.ts:45-131 | rows stay under their own keys, file rows complete and file ids unique |
| `MutatorRuns.ServerStaysWithinLimit` | packages/dotcom-shared/src/mutators.ts:27-73 | no accepted mutator takes an owner beyond MAX_NUMBER_OF_FILES live files |
| `MutatorRuns.ServerInvariants` | packages/dotcom-shared/src/mutators.ts:17-131 | over every serialised run of all users: soundness, the file limit, and for every user and file row a fixed key, immutable columns as first written or falsy, and 16 to 32 allowed characters in every created file id |
| `MutatorRuns.DeletedIsFinal` | packages/dotcom-shared/src/mutators.ts:74-104 | no later call of anyone changes the row of a soft-deleted file |
| `MutatorRuns.VisitNeedsAndGivesAccess` | packages/dotcom-shared/src/mutators.ts:107-119 | a visit to an existing file is accepted exactly when the file is the caller's or shared, and makes it readable for them |
| `MutatorRuns.NoVisitWithoutFile` | packages/dotcom-shared/src/mutators.ts:111-112 | a visit to a file that does not exist is refused |
| `MutatorRuns.DeletingHidesTheFile` | packages/dotcom-shared/src/mutators.ts:74-90 | after the owner deletes a file it is marked deleted, no state of it is left, and nobody else can read it |
| `MutatorRuns.ClientMirrorsServer` | packages/dotcom-shared/src/mutators.ts:45-131 | if the server accepts a mutator, so does every mirroring client, and it mirrors the server's result |
| `MutatorRuns.CommutingSquare` | packages/dotcom-shared/src/mutators.ts:45-131 | a client that starts from what it may read accepts every sequence of its mutators that the server accepts and ends with the server's own user, file and file state rows |
| `SyncMutators.WritesDoIff` | apps/dotcom/client/src/tla/app/ClientCRUD.ts:19-40 | the row updates that a mutator made on one state of the data do on another what the mutator would do there exactly when its lookups come to the same in both (for an upsert, whether the row is there; for a file update, the key); otherwise they fail |
| `SyncMutators.MutatorsArePredictedIff` | packages/dotcom-shared/src/mutators.ts:45-131 | in every protocol run whose mutations are mutator calls on what is shown, accepted by a database that the user's data mirrors before and after, the server's answers do what the client predicted, as CommitIsInvisible asks, exactly when each accepted mutator looks up what it looked up when it was made and each answer leaves rows of others as they are |
| `SyncMutators.OwnAnswersLeaveOthers` | packages/dotcom-shared/src/mutators.ts:45-131 | an answer that only names rows of the user meets the second half of that condition |
| `SyncMutators.OwnRowsArePredicted` | packages/dotcom-shared/src/mutators.ts:45-131 | in every such run, whatever the answers bring for rows of others, the user's own rows stay those of the database, and an accepted mutator with the same lookups leaves them as the client's writes would; with other lookups those writes fail |
| `WrapAnsi.VisibleTrimSpacesRight` | packages/create-tldraw/src/wrap-ansi.ts:100-117 | dropping the last words without width removes exactly the trailing spaces and keeps the escapes among them |
| `WrapAnsi.LineWrapper.WrapWord` | packages/create-tldraw/src/wrap-ansi.ts:43-97 | the loop over the characters with escapes as units, as the fold that HardWrap, WrapWidths and WrapContent are about |
| `WrapEscapes.WrapWord` | packages/create-tldraw/src/wrap-ansi.ts:43-97 | the loop over the single characters, with the flag for being inside an escape, as the fold that EscapesStayWholeIff is about |
| `WrapEscapes.EscapesStayWholeIff` | packages/create-tldraw/src/wrap-ansi.ts:43-97 | for one call on given rows: breaking character by character gives the same rows as with escapes as units, for every word, exactly when the row is not full to the last column and the indent is narrower than the columns |
| `WrapEscapes.BrokenRowsAreNotFull` | packages/create-tldraw/src/wrap-ansi.ts:159-185 | beside an indent narrower than the columns, a word is never broken at the end of a row that is full to the last column |
| `WrapCharacters.TextsStayWholeIff` | packages/create-tldraw/src/wrap-ansi.ts:124-192 | for whole texts: the rows built from the characters are those of the units, for every text, exactly when words are never broken or the indent is narrower than the columns |
| `WrapCharacters.TextIsTorn` | packages/create-tldraw/src/wrap-ansi.ts:43-97 | in every other case, a text of one word of which an escape is torn apart |
| `WrapCharacters.OutputIsSpelled` | packages/create-tldraw/src/wrap-ansi.ts:124-239 | the whole call on the characters, with the search for the code at each escape, returns the characters of what the model with units says, under that condition or for a text without escapes |
| `WrapAnsi.LineWrapper.Place` | packages/create-tldraw/src/wrap-ansi.ts:139-188 | one round of the word loop in every mode, as the step that GreedyWrap, HardWrap and WrapContent are about |
| `WrapAnsi.LineWrapper.TrimAll` | packages/create-tldraw/src/wrap-ansi.ts:190-192 | every row is trimmed at its end |
| `WrapAnsi.LineWrapper.ReopenStyles` | packages/create-tldraw/src/wrap-ansi.ts:194-236 | the style pass, as the function that StylesSurviveLineBreaks is about |
| `WrapAnsi.LineWrapper.Exec` | packages/create-tldraw/src/wrap-ansi.ts:124-239 | the whole call is blank for blank trimmed text and otherwise the style pass over the joined final rows |
| `WrapContent.TidyKeepsTheText` | packages/create-tldraw/src/wrap-ansi.ts:124-192 | with escapes as units: every row after the first begins with the indent, and beside it the rows hold the text in order, up to whitespace when rows are trimmed |
| `WrapContent.UntrimmedRowsAreTheText` | packages/create-tldraw/src/wrap-ansi.ts:124-192 | with escapes as units: without trimming, the rows without their indents are exactly the text |
| `WrapContent.WrappingKeepsTheTextIff` | packages/create-tldraw/src/wrap-ansi.ts:43-97 | with escapes as units, for columns of zero or more: every text stays with its rows exactly in soft mode, or when the indent has some width or leaves no mark |
| `WrapCharacterContent.CharactersStay` | packages/create-tldraw/src/wrap-ansi.ts:124-192 | the same for the rows that the code builds from the single characters, also where it tears escapes apart: beside the characters of the indent they hold the characters of the text in order, up to whitespace when rows are trimmed |
| `WrapCharacterContent.UntrimmedRowsAreTheCharacters` | packages/create-tldraw/src/wrap-ansi.ts:124-192 | without trimming, those rows without their indents are exactly the characters of the text |
| `WrapCharacterContent.CharactersStayIff` | packages/create-tldraw/src/wrap-ansi.ts:43-97 | for columns of zero or more: every text stays with those rows, character by character, exactly in soft mode, or when the indent has some width or leaves no mark |
| `GreedyWrap.GreedyLays` | packages/create-tldraw/src/wrap-ansi.ts:139-188 | the greedy layout keeps all words in order, and every row fits or holds one word |
| `GreedyWrap.GreedyStaysAhead` | packages/create-tldraw/src/wrap-ansi.ts:139-188 | against every such layout, greedy has fewer rows, or as many and no more words on the last one |
| `GreedyWrap.CodeIsGreedy` | packages/create-tldraw/src/wrap-ansi.ts:139-192 | in soft mode the code's rows, once trimmed, are those of the greedy layout |
| `GreedyWrap.SoftWrapIsOptimal` | packages/create-tldraw/src/wrap-ansi.ts:124-192 | the rows of single-spaced words fit or hold one word, and no layout with that property and the same indent has fewer rows |
| `HardWrap.BrokenWord` | packages/create-tldraw/src/wrap-ansi.ts:43-97 | breaking a word of characters of width 1 cuts it to the room left in the row and then to the width beside the indent, or to single characters where there is none |
| `HardWrap.WrapWordLaws` | packages/create-tldraw/src/wrap-ansi.ts:43-97 | such characters all stay, in order, beside any indent; a word longer than the room adds 1 + floor((length - room - 1) / (columns - indent)) rows, and no new row exceeds the columns, when the indent leaves room |
| `HardWrap.RowsOfWord` | packages/create-tldraw/src/wrap-ansi.ts:43-97 | beside an indent of no width the same figure counts the rows of any word without wide characters, whatever escapes it holds |
| `HardWrap.BrokenRowsFitIff` | packages/create-tldraw/src/wrap-ansi.ts:43-97 | every new row fits exactly when the indent is narrower than the columns |
| `HardWrap.StartsWhereItTakesFewestRows` | packages/create-tldraw/src/wrap-ansi.ts:160-171 | beside no indent the two figures are the numbers of rows, and a long word starts on a new row exactly when that uses no more rows, from a row of any length |
| `WrapDecision.StartsWellIffNoIndent` | packages/create-tldraw/src/wrap-ansi.ts:160-171 | over all rows, also ones no text leads to, that decision is right for every long word exactly when the indent has no width |
| `WrapDecision.DecisionsAreRightIff` | packages/create-tldraw/src/wrap-ansi.ts:139-171 | over all texts, each long word judged at its own open row: the decision takes the fewest rows exactly when the indent has no width, or with trimming, two columns and an indent of one |
| `WrapDecision.TextMisleads` | packages/create-tldraw/src/wrap-ansi.ts:160-171 | in every other case, a text of two words whose second one starts on the wrong row |
| `WrapWidths.RowsFit` | packages/create-tldraw/src/wrap-ansi.ts:124-192 | no row exceeds the columns, in hard mode with an indent of no width and with `wordWrap: false` and an indent narrower than the columns, trimmed or not, when each character can stand beside the indent |
| `WrapWidths.IndentSticksOut` | packages/create-tldraw/src/wrap-ansi.ts:173-187 | in hard mode with whole words, beside every indent of some width some text has a row that is too wide: a word as long as the columns |
| `WrapWidths.NoRoomSticksOut` | packages/create-tldraw/src/wrap-ansi.ts:173-185 | with `wordWrap: false`, beside every indent as wide as the columns some text has a row that is too wide |
| `WrapWidths.RowsFitIff` | packages/create-tldraw/src/wrap-ansi.ts:119-192 | for all options and columns: every row of every text without wide characters fits exactly when there are columns, and with whole words hard mode is on and the indent has no width, or with `wordWrap: false` the indent is narrower than the columns |
| `WrapStyles.TableClosesWhatItOpens` | packages/create-tldraw/src/wrap-ansi.ts:211-223 | the codes that are closed, each by the code that restores the attribute it sets and no other |
| `WrapStyles.StylesSurviveLineBreaks` | packages/create-tldraw/src/wrap-ansi.ts:194-238 | with every attribute kept apart, the output shows the same characters with the same attributes on the same lines; when each line is shown alone, exactly when every attribute of a character was set on its own line, or by the last code before the line break, which the table knows |
| `WrapStyles.LineEndsAreClosed` | packages/create-tldraw/src/wrap-ansi.ts:213-223 | at each line break of the output the attribute set by the last code is at its default, when the table knows that code, and all others are as in the text |
| `WrapStyles.BlinkingIsLost` | packages/create-tldraw/src/wrap-ansi.ts:215-229 | a blinking text over two lines, whose second line does not blink when it is shown alone |
| `WrapStyles.BoldIsLost` | packages/create-tldraw/src/wrap-ansi.ts:213-229 | a bold red text over two lines, whose second line is only red when it is shown alone |
| `WrapWhole.OutputShowsTheInput` | packages/create-tldraw/src/wrap-ansi.ts:124-239 | read from the characters of the output: every line but the first shows the indent, and beside it the lines show every character of the input that is not whitespace, in order; with the attributes of the input exactly when the codes of the indent leave, at each line break, those attributes as they are on which no code acts before the next characters; for the options with which text stays with its rows and escapes stay whole |
| `WrapWhole.LinesStandAloneIff` | packages/create-tldraw/src/wrap-ansi.ts:124-239 | the lines of the whole output show the same one by one exactly when, in the rows, every attribute of a character was set on its line or by the last code before it, which the table knows |
| `WrapWhole.OneStyleAtATimeStandsAlone` | packages/create-tldraw/src/wrap-ansi.ts:124-239 | that is so for every text of which each code is known and takes back what the one before it set, beside an indent without escapes |
| `WrapWhole.StylesAreKeptIff` | packages/create-tldraw/src/wrap-ansi.ts:124-239 | under those options all texts keep their attributes exactly when no code of the indent acts on any attribute |
| `WrapWhole.PromptIndentTakesStyle` | packages/create-tldraw/src/group-select.ts:134-136 | beside the indent of the program's own call, a red text loses its colour after the first line break |
| `ParseMarkdown.MarkdownWalk.Add` | apps/docs/utils/parse-markdown.tsx:97-104 | text goes to the title or the content of the last heading, and to the text of the page |
| `ParseMarkdown.MarkdownWalk.Break` | apps/docs/utils/parse-markdown.tsx:107-115 | throws inside a heading; otherwise ends both texts with a break unless they already do |
| `ParseMarkdown.MarkdownWalk.Visit` | apps/docs/utils/parse-markdown.tsx:117-229 | the walk of a node, as the function that WalkOfPage is about; ok is false exactly where that is undefined |
| `ParseMarkdown.MarkdownWalk.VisitChildren` | apps/docs/utils/parse-markdown.tsx:84-90 | the walk of a list of nodes, stopped where the first one throws |
| `ParseMarkdown.MarkdownWalk.VisitEnd` | apps/docs/utils/parse-markdown.tsx:205-221 | the closing text of the API elements, with its breaks |
| `ParseMarkdownLaws.WalkLaw` | apps/docs/utils/parse-markdown.tsx:117-229 | from any state, a visit succeeds exactly on walkable trees, and adds the text and the headings of the tree |
| `ParseMarkdownLaws.InheritanceIs` | apps/docs/utils/parse-markdown.tsx:167-195 | a title is inherited exactly when its first attribute named inherited is an expression other than null, is its own exactly when that is null, and else the walk throws |
| `ParseMarkdownLaws.WalkOfPage` | apps/docs/utils/parse-markdown.tsx:65-235 | the walk succeeds exactly on walkable trees; all headings together hold the text of the page and of the tree, up to line breaks; the headings are those of the tree in order, inherited exactly when they lie under an ApiMemberTitle that gives a parent |
| `PageText.PageIsItsItems` | apps/docs/utils/parse-markdown.tsx:65-235 | to the letter: the headings with their titles and the text below them, and the text of the page, are read off one list of words, pauses and headings, a pause being an empty line unless there is one |
| `ContentDatabase.ContentDatabase.GetSidebarContentList` | apps/docs/utils/ContentDatabase.ts:184-325 | for every history of calls the list equals the uncached sidebar of its kind, though it is cached while still growing; exactly one cache can change, and it then holds this very list |
| `ContentDatabase.ContentDatabase.AddSection` | apps/docs/utils/ContentDatabase.ts:211-316 | a round appends the entry of a shown section and nothing for the others, and caches the list except after a title-only section |
| `ContentDatabase.ContentDatabase.SectionChildren` | apps/docs/utils/ContentDatabase.ts:245-303 | the categories with a path in order, and after them all uncategorized articles |
| `SidebarContents.OrderByIsStableSort` | apps/docs/utils/ContentDatabase.ts:209 | the queries' order: ascending, the same rows, and rows with equal keys as stored |
| `SidebarContents.SidebarOffersExactly` | apps/docs/utils/ContentDatabase.ts:211-316 | the sidebar links to an article exactly when the article has a path and lies in an offered category of a section shown in this kind of sidebar; the only other links are title-only sections |
| `SidebarContents.SidebarIsItsEntries` | apps/docs/utils/ContentDatabase.ts:209-316 | for distinct category ids, the sidebar is, in the order of idx, an entry for each visible section of its kind, with its categories by sectionIndex, their articles by categoryIndex, and its uncategorized articles last |
| `ContentDatabase.ContentDatabase.GetArticleLinks` | apps/docs/utils/ContentDatabase.ts:101-177 | the neighbours in section and group, else the end of the adjacent section, else none; throws when the section is missing |
| `ArticleOrder.LinkIs` | apps/docs/utils/ContentDatabase.ts:101-177 | a link leads to the article of the same section and group with the closest index; only when there is none does it lead to the first or last article of the adjacent section, and it is missing without such a section or article; throws exactly when the own section is missing then |
| `ArticleOrder.PrevUndoesNext` | apps/docs/utils/ContentDatabase.ts:108-154 | inside a section, b is the next of a exactly when a is the previous of b |
| `ArticleOrder.HopIsClosest` | apps/docs/utils/ContentDatabase.ts:101-177 | on a numbered site with one group per section a link leads to the closest article in its direction, and is missing only at the end of the site |
| `ArticleOrder.TourExists` | apps/docs/utils/ContentDatabase.ts:101-177 | every numbered site has one list of all articles in (section, index) order |
| `ArticleOrder.NextWalksTheTourIff` | apps/docs/utils/ContentDatabase.ts:101-177 | next goes through that list from front to back, visiting every article once, exactly when no section has articles of two groups; prev then retraces it |
| `ArticleOrder.GroupTourExists` | apps/docs/utils/ContentDatabase.ts:108-154 | every group of a section has one list of its articles by index |
| `ArticleOrder.NextWalksTheGroup` | apps/docs/utils/ContentDatabase.ts:108-154 | next goes through that list, and prev back |
| `CodeGen.GetName` | internal/scripts/refresh-assets.ts:652-660 | the search ends, with the key formatted with some suffix, and a name that the text does not contain |
| `CodeNames.NameIsFirstFree` | internal/scripts/refresh-assets.ts:652-660 | the name is the first of the variants key, key2, key3, ... that is not taken |
| `CodeNames.FormatIsCamelCase` | internal/scripts/refresh-assets.ts:646-650 | the three replacements write the words of the key in camel case, with a dollar before a digit at its start |
| `CodeNames.NamesAreIdentifiersIff` | internal/scripts/refresh-assets.ts:646-650 | a name is a variable name exactly when its key does not begin with a separator before a digit |
| `CodeGen.FormatKeepsDigits` | internal/scripts/refresh-assets.ts:646-650 | formatting never swallows the digits at the end of a name |
| `CodeGen.LongSuffixIsFree` | internal/scripts/refresh-assets.ts:652-660 | a suffix with more digits than the text has characters is never taken, which is why the search ends |
| `CodeGen.CodeFile.ImportFile` | internal/scripts/refresh-assets.ts:637-644 | a file keeps the name it first got, and a new name is absent from the rendered file |
| `RenderedCode.FileIsRead` | internal/scripts/refresh-assets.ts:625-644 | the text of a file is its header, a line for each import in order, which says the file and its name whatever characters the file name has, and its parts |
| `CodeGen.CodeFunction.ToString` | internal/scripts/refresh-assets.ts:679-697 | the loop over the constants renders the function as the text that InliningKeepsMeaning is about |
| `RenderedCode.RenderedSaysTheSame` | internal/scripts/refresh-assets.ts:679-697 | the rendered text, line by line: the header, a declaration for each constant whose name occurs twice or more in the raw body, in order, the body and the brace; expanding the constants read from it in the body read from it gives what expanding all of them in the raw body gives, for names that do not overlap |
| `CodeGen.CodeFunction.Memo` | internal/scripts/refresh-assets.ts:700-708 | a key keeps its name; a new one gets a name absent from the rendered file and its expression is recorded under it |
| `RenderedCode.ConstIsRecorded` | internal/scripts/refresh-assets.ts:704-705 | recording a constant replaces the expression of that name in its place, or adds it at the end |
| `CodeGen.NewNamesAreFreshIff` | internal/scripts/refresh-assets.ts:652-708 | no key is ever given the name of an earlier constant exactly when every such name shows in the rendered text |
| `RenderedCode.FirstIsReplaced` | internal/scripts/refresh-assets.ts:687-688 | inlining replaces the first occurrence of the name by the expression and nothing else |
| `RenderedCode.DollarPatterns` | internal/scripts/refresh-assets.ts:687-688 | a dollar in the expression stands for a dollar, the name, or the text before or after it when one of their marks follows, as in String.replace |
| `CodeGen.KeysCanShareAName` | internal/scripts/refresh-assets.ts:679-708 | a concrete run of two memo calls: each name is the one found for the text of the file at that time, and they are the same, so that the second key takes over the constant of the first and changes what the body says |
| `Inlining.ReplacedLaws` | internal/scripts/refresh-assets.ts:684-688 | inlining one constant keeps the expansion of the body, removes its name, and keeps which other names occur twice |
| `Inlining.InlineLaws` | internal/scripts/refresh-assets.ts:683-692 | after any number of constants: the declared ones are those used twice or more in the raw body, and the expansion is unchanged |
| `Inlining.InliningKeepsMeaning` | internal/scripts/refresh-assets.ts:679-697 | expanding the declared constants in the rendered body gives the text that expanding all memo names in the raw body gives, for names that do not overlap |
| `Publishing.PackageSorter.Visit` | internal/scripts/lib/publishing.ts:119-130 | keeps the list duplicate-free with dependencies first except along cycles, terminates on every graph, and throws only for a missing package |
| `Publishing.PackageSorter.TopologicalSort` | internal/scripts/lib/publishing.ts:115-135 | succeeds exactly when no dependency is missing, and lists each package exactly once, in that order |
| `Publishing.OrderWithoutCycles` | internal/scripts/lib/publishing.ts:115-135 | without cycles the order is all names, each with its dependencies unfolded in front of it, without the repetitions |
| `Publishing.DepsFirstIffAcyclic` | internal/scripts/lib/publishing.ts:115-135 | the sorted list has every package after all its local dependencies exactly when there is no dependency cycle |
| `Publishing.CycleBreaksTheOrder` | internal/scripts/lib/publishing.ts:115-135 | a concrete map of two packages that depend on each other: the sort succeeds and lists both, one of them before its dependency |
| `Publishing.Retry` | internal/scripts/lib/publishing.ts:212-235 | at least one and at most numAttempts calls, none after the first success, failing only when all have failed |
| `Publishing.Publish` | internal/scripts/lib/publishing.ts:137-210 | packages are published in sorted order up to the first failure; publishing fails exactly when 5 attempts do and confirming when 50 do, and none is tried before the registry has confirmed all its dependencies that are not on a cycle with it |
| `LineSplitter.SplitAcrossCut` | internal/scripts/lib/exec.ts:47-49 | splitting a text cut anywhere is splitting both parts and rejoining the line across the cut |
| `LineSplitter.LinesOfText` | internal/scripts/lib/exec.ts:47-49 | no line holds a newline, and joined by newlines they are the text |
| `LineSplitter.LinesAreUnique` | internal/scripts/lib/exec.ts:47-49 | and they are the only such lines |
| `LineSplitter.LineSplitter.OnData` | internal/scripts/lib/exec.ts:43-54 | however the stream is chunked, the emitted lines and the pending one are the split of the stream so far |
| `LineSplitter.LineSplitter.OnClose` | internal/scripts/lib/exec.ts:55-57 | in the end the emitted lines are exactly the lines of the whole stream |
| `Migrate.Migrator.Migrate` | apps/dotcom/zero-cache/migrate.ts:78-121 | success commits the fold of the migrations not yet applied; a failed or dry run leaves the database as it was; the summary tells of each migration in order, and of a failed run up to the first one that fails |
| `Migrate.SucceedsIff` | apps/dotcom/zero-cache/migrate.ts:78-121 | a run succeeds exactly when there are migrations, no applied one is missing, and the new ones have no transaction block, have different names and all run in turn; then the database has their effect and names |
| `Migrate.HistoryIsReplay` | apps/dotcom/zero-cache/migrate.ts:78-121 | over every history of runs the database is the replay of a log in which each migration occurs at most once, and after a success the applied migrations are exactly the directory |
| `Debounce.Debouncer.Invoke` | apps/docs/utils/debounce.ts:27-48 | one promise per burst; afterwards exactly one timer is set, due `wait` after this call, with its arguments |
| `Debounce.Debouncer.Cancel` | apps/docs/utils/debounce.ts:49-52 | no timer is left, but the burst stays: its promise is pending until the next call revives it |
| `Debounce.Debouncer.Fire` | apps/docs/utils/debounce.ts:37-45 | settles the promise of the burst, once, with the arguments of its last call and no earlier than `wait` after it |

## Left out

- The epoch counter and the signal library of the store (`OptimisticAppStore.ts:16-23`): a signal is its current value.
- Properties that are present but `undefined`: rows travel as JSON, where they disappear.
- Updates for tables or with events outside the declared types, which the store answers by throwing.
- Explicit NaN and floating point: numeric columns hold integers.
- MutatorRuns.ServerInvariants: takes arguments of the types the mutators declare; the server refuses rows of other types (`ServerCrud.ts:140-172`). It claims nothing about immutable columns of file states, which their upserts may overwrite.
- MutatorRuns.CommutingSquare: the same argument types.
- SyncMutators.MutatorsArePredictedIff: the same argument types. How the sync worker derives a user's row updates from the database's changes is not modelled; what it sends is arbitrary except that the user's data stays a mirror (`MutatorLaws.Mirrors`).
- The database's triggers, foreign keys, nullability and slug uniqueness, which can only make the server refuse more; the uniqueness of file ids (`013_add_userid_to_file_key.sql:11`) is modelled.
- Writes of a client mutator that stay pending when a later assertion of the same mutator fails: each mutator is one atomic transaction.
- The reboot and snapshot loading of the sync worker: the protocol starts from equal data.
- `wrapAnsi` itself: Unicode normalisation, CRLF and the split into input lines. The model is of one line at a time, so a style that is still open at the end of an input line is not carried over.
- What a terminal does with codes that section 8.3.117 of ECMA-48 leaves open: they have no effect here. Bold and faint are one attribute, as that section says, though some terminals show both.
- Hyperlinks, SGR codes with several parameters, and the 0x9B introducer: escapes are single-parameter SGR codes.
- WrapAnsi.LineWrapper.WrapWord: an escape is one unit, as in all of `WrapAnsi`. `WrapCharacters.TextsStayWholeIff` says exactly for which options that is what the code does; in the others, words broken beside an indent as wide as the columns, the results about broken words hold for texts without escapes (`WrapCharacters.OutputIsSpelled`), except that no character is lost, which `WrapCharacterContent` proves for all.
- WrapCharacters.OutputIsSpelled: what string-width and a terminal make of a torn escape; only the first of its characters is read as one without width.
- string-width: the width of each character is given, and widths add up.
- HardWrap.WrapWordLaws: like the figure in the code, for characters of width 1; a wide character can leave a column unused, and no number of rows is claimed for it.
- WrapWidths.RowsFitIff: a character wider than the columns beside the indent fits nowhere, so texts with wide characters are left to `WrapWidths.RowsFit`.
- GreedyWrap.SoftWrapIsOptimal: words without whitespace and of some width, and an indent that is empty or starts with something other than whitespace; a leading whitespace indent is trimmed away by the next word.
- WrapContent.WrappingKeepsTheTextIff: for columns of zero or more; for fewer only `WrapContent.TidyKeepsTheText` is claimed.
- WrapCharacterContent.CharactersStayIff: the same; for fewer only `WrapCharacterContent.CharactersStay` is claimed.
- `limit` in the selection prompt, a small window function.
- `postprocessText`, slugs, and the parsing of Markdown into the tree.
- Overlapping calls of the content database: a second call during the first could see the list half built. Calls are sequential.
- SidebarContents.SidebarIsItsEntries: category ids are distinct, which the database's primary key demands (`connect.ts:43`).
- The order that the database gives to rows with equal sort keys: taken to be the stored order.
- The remaining queries and pages of `ContentDatabase`.
- CodeGen.CodeFile.ImportFile: of JSON escaping, only quotes, backslashes and newlines.
- RenderedCode.RenderedSaysTheSame: names without spaces and line breaks, expressions and headers without line breaks, which is what the generator writes.
- Inlining.InliningKeepsMeaning: the constants' expressions are plain text; whether a declared constant's value equals its expression when evaluated is the target language's business.
- What npm and the registry do, the delay between attempts, the choice of the tag: outcomes of attempts are parameters.
- The joined output and the exit status of `exec`, and characters cut by a chunk boundary: chunks are decoded text.
- Waiting for the database, its initialisation script and the health endpoint of the migration runner; the engine's result for a script is a parameter.
- The result or exception of the debounced callback: a settlement records the arguments it is called with.
