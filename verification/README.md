# A Dafny model of gefieder's core

The project models five parts of the repository and proves what they are for. Each module
follows one source component.

- **History joins** (`Relational`, `TemporalJoin`, `History`). The query `@temporal_join`
  generates is written clause by clause over a small relational semantics: rows as maps from
  column to cell, NULL, three-valued predicates, UNION, DISTINCT, latest-row lookup, ASOF as a
  merge pass, LAG over a partition. `H(q, k, t)` is the state in effect at time `t`: the latest
  left row of the item, and the latest right row reached through it. Timestamps are integers
  and never NULL; `Call` in a predicate stands for any other deterministic operator.
- **The upload store** (`MediaRoot`, `Validity`, `UploadStore`, `Text`, `Spool`, `Digest`,
  `Pipeline`). `Store` is the mutable table of validity periods with the files on the volume.
  Over every run of uploads and deletions, whatever step of them fails and however, `Sound`
  holds: the surviving rows are the closed form of the whole history, every file row lies in
  the directory of its upload, and a file without a row lies in no upload's directory. `Valid`
  adds that rows and files correspond one to one. What a step does to that is stated exactly:
  `Stray` are the files without a row, `Lost` the rows' files that are gone. Uploads are serial
  and `uploaded_at` strictly increases. A new directory is one not in use, which a fresh time
  stamp and suffix provide (`FreshStampIsUnused`). The steps of a deletion follow Django: rows
  of a model in one statement, then their `post_delete` receivers by descending key, files
  before uploads, all in one transaction. The hash is a parameter, and collision-freeness is
  assumed only of the inputs at hand.
- **Arrow Flight sessions** (`FlightProtocol`, `FlightServer`). A state machine over the steps
  of interleaved calls and of the sweeper, with a log of what the callers saw; `FlightServer`
  keeps session objects in a shared dictionary, and each method performs one step. Two
  assumptions: looking a session up and touching it is one atomic step, and so is a commit from
  its lookup to its pop; and calls that present one token do not overlap, while different
  tokens and the sweeper interleave freely. The code does not hold its lock across those spans:
  two overlapping commits of one token could both pass the lookup. A write to a session
  directory is one step too, which succeeds or fails and then leaves anything, or nothing,
  under its name.
- **Certificate order** (`CertificateFile`, `CertificateChain`). The awk splitter and the
  greedy walk over the shell's arguments. What openssl prints about a block is a parameter;
  blocks are assumed to parse. Blocks are the textual encoding of section 2 of RFC 7468, and
  the intended order is that of section 4.4.2 of RFC 8446.
- **Smaller pieces.** `AttachPath`: the two layers of quoting with both parsers. `Lineage`: the
  memoised layering against longest upstream chains. `Roles`, `AccountSteps`,
  `DatabaseAccounts`: the account lifecycle on top of the provisioning functions of
  `postgresql/initdb/gf_0003_create_functions.sql`, and its reconciliation with the identity
  provider's roles.

`Prelude` and `Sorting` hold what these share. `dafny verify dfyconfig.toml` checks the whole
project.

## Where code and documentation part

The model follows the code. These promises hold only under the stated conditions.

- `proxy/entrypoint.sh:61-63` promises the chain from the leaf up as far as it can be
  continued, and then the leftovers. `openssl x509` prints `issuer=` and `subject=` before the
  names, and lines 68-72 compare the printed texts, so the walk never leaves the leaf:
  `LabelsStopTheWalk`, `RootFirstAsPrinted`. The promise is kept if and only if the blocks
  already stood that way once the leaf is taken to the front: `PrintedKeepsPromiseIff`.
  Comparing names would restore every chain: `ChainIsRestored`, `RootFirstByNames`. When the
  whole output is in the order of section 4.4.2 of RFC 8446 is a question of its own:
  `PrintedOrderIff`.
- `proxy/entrypoint.sh:28-29` numbers the files "in the order they appear". The four-digit
  names list in that order up to 9999 files and no further: `GlobIsFileOrder`.
- `crudman/app/dropzones/services.py:139` promises a write that is all or nothing. The cleanup
  at line 159 catches `Exception` only. Whatever else ends an upload, such as the `SystemExit`
  gunicorn (`crudman/entrypoint.sh:82-83`) raises in a worker that exceeds its timeout, or the
  death of the process, rolls the rows back and leaves the files. A failed upload leaves the
  volume as it was if and only if the exception was caught or nothing had been written:
  `FailedUpload`, `UncaughtLeavesFile`.
- `crudman/app/dropzones/models.py:381-391` removes files inside the transaction that deletes
  their rows; `services.py:160-161` names that hazard for the writing side, the deleting side
  has no guard. A deletion that fails leaves rows without files if and only if it had removed a
  file by then: `FailedDeletion`, `FailedCommitLosesFile`. Repeating it completes it:
  `RetryCompletes`.
- `crudman/app/dropzones/flight.py:166` writes a table in place, over an earlier one of its
  name, and a write that fails does not mark the session. What it leaves is a parameter of the
  step: nothing, if the parquet library removes the file it was writing, and partial content if
  that fails too or the exception is none the library catches. A failed overwrite thus loses an
  acknowledged table, and the commit stores the others: `FailedOverwriteLosesTable`. What is
  stored is what was acknowledged if and only if every write that was the last under its name
  and failed left that file as last acknowledged: `StoredExactlyAcknowledged`,
  `HeldIsAcknowledgedIff`.
- `crudman/app/dbusers/utils.py:117-118` says a role without its row must not arise. `OrphanIff`
  gives the two steps after which one is left that can log in. Enrolling a user who has an
  enabled row under another name is one, which the program never does: the only caller of
  `enroll` returns when a row exists (`crudman/app/sso/admin.py:217-219`, checked by
  `crudman/app/sso/tests.py:1050-1059`). Deleting a Django account while the database fails is
  the other, and it can happen: `DeletionAbandonsRole`. Without it the promise holds over every
  run of the program: `ProgramRecordsLogins`.
- `crudman/app/dbusers/utils.py:121` says an absent password is what "not claimed yet" looks
  like in the database. Deleting a Django account keeps its role and its password, and a later
  account enrolled under the same role name awaits its credential while the old password is in
  force: `SuccessorInheritsPassword`. `UnclaimedIff` gives the exact steps that leave a password
  nobody claims (the other one, enrolling a user who has a row, again never happens through
  the program), and without such a deletion the promise holds over every run:
  `ProgramAwaitsWithoutPassword`.
- A fixed-period upload ends the open uploads it follows and leaves a gap when it ends:
  `FixedPeriodLeavesGap`. The newest upload that has started is missing from the query exactly
  when it has a fixed period of its own that is over: `ClippingIsTransparent`.

## Model

| member | source | states |
|---|---|---|
| History.MacroCorrect | sqlmesh/macros/temporal_join.py:96-223 | Under the documented preconditions, for all arguments and every gateway: a query it yields is one the gateway's engine accepts, and for each item and time its last output row by then carries, in every column but the timestamps, exactly the cells of the state in effect; there is none iff the item has no left row by then |
| TemporalJoin.PlanChosenIff | sqlmesh/macros/temporal_join.py:119-137 | For all arguments: a plan is chosen iff both timestamps are qualified, the key is not, and a duckdb gateway declares its own dialect; it is then the only plan that gateway's engine accepts, ASOF for DuckDB and LATERAL for every other |
| History.PointwiseCorrect | sqlmesh/macros/temporal_join.py:199-223 | The same for the lateral plan and any join predicate whose right lookups are unambiguous |
| History.SamplesIncludeOutput | sqlmesh/macros/temporal_join.py:199-203 | Minimality: any samples of an item that reproduce its values by carrying forward, at all times, contain every output row, a return to an earlier state included |
| History.OutputReproduces | sqlmesh/macros/temporal_join.py:199-217 | The output rows are themselves such samples, so they are the least set |
| History.ConsecutiveRowsDiffer | sqlmesh/macros/temporal_join.py:199-209 | An output row and the last one before it differ in some value column, although each tick is compared with the previous tick only |
| History.OutputIsAChange | sqlmesh/macros/temporal_join.py:204-217 | At an output row the item appears or takes values it did not have the instant before |
| History.OutputIsStates | sqlmesh/macros/temporal_join.py:219-223 | Every output row belongs to a non-NULL key and holds both rows in effect at its tick |
| History.ProjectionSound | sqlmesh/macros/temporal_join.py:156-174 | Joining the distinct pairs of key and lhs-qualified predicate columns yields the same ticks as joining every version row, for any predicate |
| Relational.EvalOfProjection | sqlmesh/macros/temporal_join.py:159-167 | A predicate evaluates alike on a left row and on its projection to any superset of the columns it names |
| Relational.ConnectivesAreKleene | sqlmesh/macros/temporal_join.py:182-193 | AND, OR, NOT, IS NULL and = are true and false exactly as in three-valued logic |
| History.StableBetweenTicks | sqlmesh/macros/temporal_join.py:156-158 | Completeness of the tick list: without a tick in (u, t] the state in effect does not change |
| History.H | sqlmesh/macros/temporal_join.py:3-6 | The latest left row by t, and the latest right row by t among those this left row reaches |
| History.InEffectInColumns | sqlmesh/macros/temporal_join.py:3-6 | The same in plain columns: a left row with the item in its key column and the greatest time up to t, and among the right rows for which the predicate is true one with the greatest time up to t |
| History.ExampleIsDocumented | sqlmesh/macros/temporal_join.py:8-17 | The module's own example is a documented call, whose item gains its row and later its component at their times |
| History.StateUnique | sqlmesh/macros/temporal_join.py:18-19 | Under the uniqueness preconditions there is only one state in effect |
| History.LateralIsState | sqlmesh/macros/temporal_join.py:189-197 | The lateral lookups at a tick return the state in effect; the left timestamp is NULL iff there is no left row |
| History.NullKeyFindsNothing | sqlmesh/macros/temporal_join.py:189-193 | A NULL key finds no left row |
| History.SpineIsStates | sqlmesh/macros/temporal_join.py:210-214 | What reaches the window functions is exactly the ticks at which the item exists, with the state in effect |
| History.LagIsPrevious | sqlmesh/macros/temporal_join.py:208-215 | LAG over the partition finds the latest earlier tick of the same item |
| History.ChangedIsValues | sqlmesh/macros/temporal_join.py:204-209 | The OR of IS DISTINCT FROM over all value columns holds iff some value column changed, NULLs alike |
| History.AlikeIsSameCells | sqlmesh/macros/temporal_join.py:204-207 | Alike means the same cell in every column of both sources but the timestamps |
| History.CompressionCarries | sqlmesh/macros/temporal_join.py:199-217 | Dropping unchanged ticks keeps, for every tick, its values at the last surviving tick by then |
| Relational.TopByTimeIsLatest | sqlmesh/macros/temporal_join.py:190-196 | ORDER BY timestamp DESC LIMIT 1 returns a latest matching row, none iff nothing matches |
| Relational.SweepFindsLatest | sqlmesh/macros/temporal_join.py:182-188 | One merge pass over time-sorted inputs returns a latest matching row for every probe |
| Relational.LatestUnique | sqlmesh/macros/temporal_join.py:18-19 | With unique timestamps among the matching rows there is one latest row |
| History.HoldsIsSamePartition | sqlmesh/macros/temporal_join.py:183-188 | For a conjunction of equalities between an expression of each side, the predicate is true iff both rows have the same, NULL-free join key |
| History.UniqueRightGivesUniqueReach | sqlmesh/macros/temporal_join.py:18-19 | Uniqueness on (join columns, timestamp) leaves every right lookup, also from a missing left row, one candidate per timestamp |
| History.AsofLeftAgrees | sqlmesh/macros/temporal_join.py:182-186 | The first ASOF join pairs each tick with its lateral left row, in time order |
| History.PlansAgree | sqlmesh/macros/temporal_join.py:176-197 | Chained ASOF LEFT JOINs and chained lateral lookups give the same rows at every tick, missing rows and NULL keys included |
| History.GatewaysAgree | sqlmesh/macros/temporal_join.py:128-137 | Either plan yields the same output |
| Validity.RunInClosedForm | crudman/app/dropzones/services.py:166-182 | Over every run: an open-ended dated upload ends at the start of the first later upload of its dropzone with a strictly greater start (open if none), every other upload keeps its bounds |
| Validity.PeriodsInFields | crudman/app/dropzones/services.py:166-182 | The closed form in plain fields, both ways: the row ends at x iff x is the start of the first later upload of its dropzone with a strictly greater start, and is open iff there is none |
| Validity.ClosedFormUnique | crudman/app/dropzones/services.py:166-182 | The closed form determines the row |
| Validity.ClipKeepsClosedForm | crudman/app/dropzones/services.py:177-182 | Clipping by one more upload takes every row from its closed form to the next |
| Validity.OpenStartsNeverIncrease | crudman/app/dropzones/services.py:166-182 | In upload order the starts of a dropzone's still open dated uploads never increase |
| Validity.ValidAtCorrect | crudman/app/dropzones/models.py:267-280 | The query returns exactly the dropzone's uploads whose start is open or has come and whose end is open or still to come, the most recently uploaded first |
| Validity.FallbackIsAlwaysValid | crudman/app/dropzones/services.py:169-170 | Over every run, deletions included: an upload without start and end is found at every time, and comes first iff nothing uploaded later covers that time |
| Validity.StoredIsValid | crudman/app/dropzones/models.py:267-280 | A stored upload is found exactly within its period |
| Validity.OthersUndisturbed | crudman/app/dropzones/services.py:177-182 | Storing changes no other dropzone's results |
| Validity.NothingBeforeStart | crudman/app/dropzones/services.py:177-182 | Storing changes nobody's results before its start |
| Validity.ClippingIsTransparent | crudman/app/dropzones/models.py:267-280 | While nothing is deleted, the first result at t is the most recently uploaded upload that has started, iff that upload was open-ended or its own fixed end lies after t |
| Validity.NewestWinsWhileItRuns | crudman/app/dropzones/models.py:267-280 | With any uploads deleted, the newest surviving upload that has started is the first result iff it still runs: its fixed end, or the start of its first replacement, lies after t |
| Validity.NothingStarted | crudman/app/dropzones/models.py:278-280 | Before any start the query is empty |
| Validity.PeriodsTile | crudman/app/dropzones/services.py:166-182 | If a dropzone's dated uploads are open-ended with strictly increasing starts, their periods are non-empty and exactly one is valid at each time from the first start on, none before |
| Validity.FixedPeriodLeavesGap | crudman/app/dropzones/services.py:177-182 | A fixed-period upload ends an open one and leaves a gap after its own end, by example |
| UploadStore.Store.ClipReplaced | crudman/app/dropzones/services.py:166-182 | Every row is clipped by the new upload; one without a start clips nothing |
| UploadStore.Store.Attempt | crudman/app/dropzones/services.py:144-157 | The transaction body step by step: what is in the tables if it commits, and what is on the volume at every fault |
| UploadStore.FailedUpload | crudman/app/dropzones/services.py:138-163 | A failed upload leaves the volume as it was iff the exception is caught or nothing had been written; otherwise exactly the written files stay, without rows, and no other file is touched |
| UploadStore.UncaughtLeavesFile | crudman/app/dropzones/services.py:153-163 | An upload that ends after a write with an exception outside Exception leaves its file without a row, by example |
| UploadStore.FailedUploadInOrder | crudman/app/dropzones/services.py:138-163 | A failed upload, caught or not, leaves rows, file rows and every upload's directory in order |
| UploadStore.CommittedUpload | crudman/app/dropzones/services.py:138-163 | So does a committed one |
| UploadStore.Store.StoreUpload | crudman/app/dropzones/services.py:138-163 | The write with a fault at any step, caught or not: success adds row, files and clipping; a failure rolls the rows back, at most using up a key, and leaves the volume as it was iff it is caught or nothing was written; no file is ever lost, and a caught failure leaves none without its row |
| UploadStore.Store.RemoveUploadDirectory | crudman/app/dropzones/models.py:366-378 | Removes the files strictly below the directory, if its name leads to a place strictly below the root, and nothing otherwise |
| MediaRoot.RemovalStaysInside | crudman/app/dropzones/models.py:366-378 | For any name, however malformed, a file is removed iff the name leads strictly below the root and the file lies strictly below that; the rest keep their content |
| MediaRoot.NamesAreRead | crudman/app/dropzones/models.py:366-378 | How a directory's name is resolved: a plain name leads one down, dots and extra slashes nowhere, two dots one up, a leading slash to the top; the root, its parent and its neighbours are never removed |
| MediaRoot.PrintedTarget | crudman/app/dropzones/services.py:140-142 | The directory printed for an upload is a real subdirectory of the root, three components down |
| MediaRoot.PrintedApart | crudman/app/dropzones/services.py:140-142 | Different dropzones or stamps print directories neither of which lies in the other |
| UploadStore.FreshStampIsUnused | crudman/app/dropzones/services.py:140-142 | A directory printed from a stamp never used is unused, whatever failed uploads left: no stored upload shares or contains it and it holds no file |
| UploadStore.Store.RunDeletion | crudman/app/dropzones/models.py:381-391 | The transaction body: the statements and receivers in order, up to the fault |
| UploadStore.Store.Delete | crudman/app/dropzones/models.py:381-391 | Any set of uploads with their files, or of single file rows, in one transaction with a fault at any step: a commit takes exactly their rows and files, a failure rolls the rows back and leaves the files gone whose receivers had finished; rows and files stay in step iff it commits or no file was removed |
| UploadStore.ChosenInFields | crudman/app/dropzones/models.py:381-391 | Exactly the uploads not named, and the file rows neither named nor of a named upload, are kept; the others go by descending key |
| UploadStore.SingleFileRow | crudman/app/dropzones/models.py:381-384 | Deleting one file row concerns that file alone and no upload |
| UploadStore.Store.DeleteFiles | crudman/app/dropzones/models.py:381-384 | Each receiver in turn takes its row's file from the volume, up to the one that raises |
| UploadStore.FailedDeletion | crudman/app/dropzones/models.py:381-391 | A failed deletion loses exactly the files removed by then, on top of those lost before, and leaves no further file without its row; rows and files still correspond one to one iff it failed before the first removal |
| UploadStore.CommittedDeletion | crudman/app/dropzones/models.py:381-391 | A committed deletion leaves no further file without its row and loses none of another row's |
| UploadStore.DirectoriesAreEmptyByThen | crudman/app/dropzones/models.py:387-391 | When the directory receivers run no file is left in any of the directories, so a deletion removes exactly the files of its own rows |
| UploadStore.RetryCompletes | crudman/app/dropzones/models.py:381-391 | Repeating a failed deletion ends with the volume of an undisturbed one |
| UploadStore.FailedCommitLosesFile | crudman/app/dropzones/models.py:381-391 | A deletion that fails at its commit leaves a row without its file, by example |
| UploadStore.RemovalUndoes | crudman/app/dropzones/services.py:159-163 | Removing the new directory restores the volume after any partial write |
| UploadStore.WithFilesContent | crudman/app/dropzones/services.py:153-156 | Each stored file holds its own content |
| UploadStore.WithFilesInStep | crudman/app/dropzones/services.py:153-156 | Storing an upload leaves no further file without its row and neither loses nor recovers one |
| UploadStore.StoringSurvives | crudman/app/dropzones/services.py:144-157 | Storing keeps every surviving row in closed form |
| Spool.SpoolFiles | crudman/app/dropzones/services.py:58-84 | Any files with any names: one path each in upload order, pairwise distinct, each holding its own content at the end, nothing else in the directory |
| Spool.Directory.FreeName | crudman/app/dropzones/services.py:74-79 | The search returns the first free variant of a name, after at most as many tries as files are present (one more for a reserved name) |
| Spool.Directory.Write | crudman/app/dropzones/services.py:80-82 | A file holds its chunks in order, replacing what was there |
| Spool.CandidatesDistinct | crudman/app/dropzones/services.py:79 | No two numbered variants of a name are equal |
| Spool.SearchBounded | crudman/app/dropzones/services.py:77-79 | A run of taken variants is no longer than the number of files present |
| Text.DecimalInjective | crudman/app/dropzones/services.py:79 | Different counters print differently |
| Text.PathNameDropsDirectories | crudman/app/dropzones/services.py:72-74 | The name of a path is its last part, whatever directories stand before it |
| Text.NameSplitsAtLastDot | crudman/app/dropzones/services.py:79 | Stem and suffix part at the last dot, unless it comes first or last |
| Spool.NamesTried | crudman/app/dropzones/services.py:72-79 | The client's name without directories, the name upload where it gave none, and then with _1, _2 and so on before the extension |
| Spool.NamesStayInside | crudman/app/dropzones/services.py:72-79 | Whatever the client names its files, each is written directly inside the directory |
| Digest.CombinedHash | crudman/app/dropzones/services.py:87-103 | Hashing block by block gives the hash of the sorted per-file digests |
| Digest.OrderDoesNotMatter | crudman/app/dropzones/services.py:87-103 | Every permutation of the files has the same digest |
| Digest.DigestOfSortedDigests | crudman/app/dropzones/services.py:87-103 | The digest is the hash of the files' digests in ascending order, joined |
| Sorting.StringLeqByFirstDifference | crudman/app/dropzones/services.py:103 | Strings compare by the first character in which they differ, and a prefix comes first |
| Digest.DigestIsFingerprint | crudman/app/dropzones/services.py:87-103 | If the hash does not collide on the inputs at hand, two uploads have equal digests iff their contents are equal as multisets |
| Digest.JoinedDecodes | crudman/app/dropzones/services.py:103 | Joined digests of fixed width decode uniquely |
| Pipeline.Prepare | crudman/app/dropzones/services.py:42-54 | No files is an error; the digest covers the files as uploaded; checker before converter, both on the spooled files, which carry the client's names or their first free variants |
| Pipeline.ProcessUpload | crudman/app/dropzones/services.py:25-55 | A rejection or failure before the store changes nothing and names its stage; a failing store leaves rows as they were and the volume too iff it is caught or nothing was written; success stores a row of this dropzone, user, time, period and directory with the fingerprint of the uploaded files, exactly its file rows and files, and shows in this dropzone's queries alone |
| Pipeline.StagesInTurn | crudman/app/dropzones/services.py:106-137 | The checker is asked first and what it objects to is rejected with its message; then the converter, whose output is stored by name and whose failure or empty output is an error; unknown names are errors |
| Pipeline.ShownInQueries | crudman/app/dropzones/services.py:55 | After a success queries find the upload in its own dropzone exactly within its period, and answer as before for every other |
| Pipeline.UploadedContentReadsBack | crudman/app/dropzones/services.py:153-156 | Without a converter each uploaded file's content can be read back from the volume, under the name of its place in upload order |
| FlightProtocol.StoredExactlyAcknowledged | crudman/app/dropzones/flight.py:137-212 | Over every interleaving a token stores at most once, to the dropzone of its login, never from a session that saw a broken-off table or was swept; what it stores is exactly the last acknowledged table per name iff no failed last write changed one |
| FlightProtocol.BrokenOffIsNeverStored | crudman/app/dropzones/flight.py:154-191 | Over every run, after the end of a put whose client was gone nothing is ever stored under its token, whatever commits follow |
| FlightProtocol.FilesCameWhole | crudman/app/dropzones/flight.py:153-166 | Over every run each file of a session directory is a table that arrived whole or what a failed write left, never one that broke off |
| FlightProtocol.HeldIsAcknowledgedIff | crudman/app/dropzones/flight.py:166 | A session's files are the acknowledged tables iff every failed write that was the last under its name left the file as it had been acknowledged |
| FlightProtocol.PutFails | crudman/app/dropzones/flight.py:166 | From any reachable state: a put whose write fails acknowledges nothing, and the session holds whatever the failure left under the name |
| FlightProtocol.CommitStoresHeld | crudman/app/dropzones/flight.py:187-212 | From any reachable state: an accepted commit stores what the session holds, for the dropzone of its login |
| FlightProtocol.FailedOverwriteLosesTable | crudman/app/dropzones/flight.py:166 | After two tables were acknowledged and a second put of the first failed and left nothing, the commit stores the second alone, for all names and contents |
| FlightProtocol.IntactRunStoresAcknowledged | crudman/app/dropzones/flight.py:137-212 | In a run in which no write failed, whatever was stored is the last acknowledged table per name |
| FlightProtocol.CommitStoresIff | crudman/app/dropzones/flight.py:187-212 | A commit that reaches its end stores iff the session holds some table, none broke off and the pipeline accepts |
| FlightProtocol.OnlyCommitEnds | crudman/app/dropzones/flight.py:182-186 | Any action but commit is refused and leaves the session live with its files; a token that is not live is refused |
| FlightProtocol.FileNameOfPath | crudman/app/dropzones/flight.py:150-166 | A table is kept under the last part of its path; only tables of that name replace it |
| FlightProtocol.DirectoriesAccounted | crudman/app/dropzones/flight.py:168-238 | Every session directory on disk belongs to a live token, a call in progress or a session about to be discarded; every live session has one |
| FlightProtocol.RemovedNeverReturns | crudman/app/dropzones/flight.py:185-186 | A token that left the dictionary never returns to it, whatever happens later |
| FlightProtocol.RemovedIsUnauthenticated | crudman/app/dropzones/flight.py:128-135 | Every later call that presents it is refused |
| FlightProtocol.SweepTakesIdle | crudman/app/dropzones/flight.py:226-232 | Over every run a sweep takes exactly the live tokens no call has presented for longer than the timeout |
| FlightProtocol.RunRemembers | crudman/app/dropzones/flight.py:34-54 | In every reachable state, what a live or committing session holds is what its puts left there, and its truncation flag is set iff its clients saw a table break off |
| FlightProtocol.StepRemembers | crudman/app/dropzones/flight.py:84-238 | Every step of every call keeps that |
| FlightProtocol.StepKeepsPlace | crudman/app/dropzones/flight.py:84-238 | Every step keeps a token in one place: never opened, live, being committed, swept, or gone |
| FlightServer.Server.OpenSession | crudman/app/dropzones/flight.py:118-122 | Opening a session on the shared dictionary is the protocol's login step |
| FlightServer.Server.Lookup | crudman/app/dropzones/flight.py:128-135 | Finds the live session and touches it, otherwise changes nothing |
| FlightServer.Server.BeginPut | crudman/app/dropzones/flight.py:149-152 | The first half of a put is the protocol's step |
| FlightServer.Server.EndPut | crudman/app/dropzones/flight.py:153-166 | The second half: a cancelled table marks the session, a whole one replaces its name, a swept directory fails the call |
| FlightServer.Server.FailPut | crudman/app/dropzones/flight.py:166 | A write that raises leaves what it leaves and the session unmarked |
| FlightServer.Server.BeginAction | crudman/app/dropzones/flight.py:182-186 | Only a commit takes the session out of the dictionary |
| FlightServer.Server.EndCommit | crudman/app/dropzones/flight.py:187-212 | Refused or stored, the directory is gone afterwards |
| FlightServer.Server.PopExpired | crudman/app/dropzones/flight.py:226-232 | The locked half of a sweep is the protocol's step |
| FlightServer.Server.DiscardSwept | crudman/app/dropzones/flight.py:233-238 | So is discarding a swept session |
| CertificateFile.Split | proxy/entrypoint.sh:34-38 | The awk program yields the blocks of the reference definition, for any text |
| CertificateFile.SplitYieldsBlocks | proxy/entrypoint.sh:31-38 | Each block starts at its only BEGIN line and holds an END line only at its end |
| CertificateFile.MarkersOfLines | proxy/entrypoint.sh:35-37 | A line begins or ends a block iff the marker stands anywhere in it |
| CertificateFile.BlockInNoise | proxy/entrypoint.sh:31-38 | A complete block is found whatever stands before and after it, and the lines between blocks are dropped |
| CertificateFile.ConcatenationSplitsBack | proxy/entrypoint.sh:34-38 | Blocks concatenated in any order split into the same blocks |
| CertificateFile.GlobIsFileOrder | proxy/entrypoint.sh:35-40 | The shell lists the numbered files in file order iff there are at most 9999 |
| CertificateFile.FileNamesByExample | proxy/entrypoint.sh:35 | 0001.pem, 9999.pem, 10000.pem |
| CertificateChain.ReorderFullchain | proxy/entrypoint.sh:22-89 | The script writes the specified file, and reports a reordering iff the served order differs from the listed one |
| CertificateChain.WalkFiles | proxy/entrypoint.sh:61-81 | The loop over the shrinking arguments is the greedy walk |
| CertificateChain.FindFirst | proxy/entrypoint.sh:71-75 | Each search loop finds the first file whose text matches |
| CertificateChain.ReorderedFile | proxy/entrypoint.sh:52-83 | Without a matching block the file passes through unchanged; otherwise the output holds a permutation of its blocks and nothing between them |
| CertificateChain.ServedIsLeafFirst | proxy/entrypoint.sh:43-59 | The first block that carries the key comes first, the rest is a permutation of the others; nothing is served iff no block carries it |
| CertificateChain.WalkIsChainThenRest | proxy/entrypoint.sh:61-81 | Each block's subject text equals its predecessor's issuer text as far as the chain can be continued, then the leftovers follow in their original order |
| CertificateChain.ChainIsRestored | proxy/entrypoint.sh:61-80 | Whatever order a file lists a chain in, comparing names serves it leaf first, each block certified by the next |
| CertificateChain.ReorderingIsIdempotent | proxy/entrypoint.sh:22-89 | Up to 9999 certificates, running the script on its own output reproduces that output, whatever texts it compares |
| CertificateChain.RerunReproducesIff | proxy/entrypoint.sh:22-89 | The script as it stands, on distinct certificates one of which carries the key, reproduces its own output iff there are at most 9999 |
| CertificateChain.WalkIsIdempotent | proxy/entrypoint.sh:61-81 | Walking an already walked list changes nothing |
| CertificateChain.LabelsStopTheWalk | proxy/entrypoint.sh:68-72 | With the labels openssl prints, no subject text equals any issuer text: the walk leaves everything after the leaf as it was |
| CertificateChain.PrintedKeepsPromiseIff | proxy/entrypoint.sh:61-83 | As printed, a file is served as comparing names would serve it iff no block carries the key or, with the leaf in front, it already was a chain as far as it can be continued followed by the leftovers |
| CertificateChain.WalkMovesNothingIff | proxy/entrypoint.sh:61-81 | A walk leaves a list as it is iff the list already is such a chain with its leftovers |
| CertificateChain.PrintedOrderIff | proxy/entrypoint.sh:68-72 | As printed, the output is in the order of section 4.4.2 of RFC 8446 iff the file already was, once its leaf is taken to the front |
| CertificateChain.RootFirstByNames | proxy/entrypoint.sh:61-80 | A root-first file of three certificates comes out in chain order when names are compared |
| CertificateChain.RootFirstAsPrinted | proxy/entrypoint.sh:68-72 | The same file comes out with the root before the intermediate certificate as the script stands |
| AttachPath.RoundTrip | sqlmesh/config.py:80-100 | For all values: reading the literal ends at its outer quote, and libpq reads exactly the given settings out of it |
| AttachPath.PrintedForm | sqlmesh/config.py:95-100 | Pairs are joined by a blank, each value in single quotes the outer literal doubles |
| AttachPath.SpecialCharacter | sqlmesh/config.py:95-97 | A quote or a backslash inside a value gains a backslash, and nothing around it changes |
| AttachPath.LiteralReadsBack | sqlmesh/config.py:90-92 | Doubling quotes is undone by the SQL literal (section 5.3 of ISO/IEC 9075-2), which ends only at its outer quote |
| AttachPath.ConninfoReadsBack | sqlmesh/config.py:99 | libpq reads the printed keyword/value pairs back in order |
| AttachPath.TwoPassesAreOneMap | sqlmesh/config.py:96 | Escaping backslashes and then quotes acts as one character map |
| AttachPath.QuotedReadsBack | sqlmesh/config.py:95-97 | A quoted value is read back up to its own closing quote, whatever it holds |
| Lineage.Levels | crudman/app/docs/lineage.py:36-72 | On any input, cycles and repeated names included, every model is placed exactly once; without a cycle and with distinct names the result is the layering below |
| Lineage.Layering.Depth | crudman/app/docs/lineage.py:51-64 | The memoised recursion terminates on any graph and never memoises a model it is inside of; without a cycle it memoises longest-chain lengths only |
| Lineage.AllDepths | crudman/app/docs/lineage.py:66-67 | Every known model gets a depth; without a cycle it is the length of its longest known upstream chain |
| Lineage.Deepest | crudman/app/docs/lineage.py:69 | The number of columns follows from the greatest depth |
| Lineage.Place | crudman/app/docs/lineage.py:69-72 | Appending in name order puts every model once, in the column of its depth |
| Lineage.ColumnIsLongestChain | crudman/app/docs/lineage.py:51-64 | A model stands in column c iff its longest known upstream chain makes c steps |
| Lineage.ColumnsByName | crudman/app/docs/lineage.py:69-72 | Within a column names ascend, and a model stands in it iff that is its depth |
| Lineage.LastOfNameCounts | crudman/app/docs/lineage.py:48 | Of several models of one name the last one's dependencies count |
| Lineage.DependenciesToTheLeft | crudman/app/docs/lineage.py:37-46 | Every known dependency stands in a column strictly to the left |
| Lineage.NoColumnEmpty | crudman/app/docs/lineage.py:69-72 | No column is empty |
| Lineage.LongestFromParents | crudman/app/docs/lineage.py:59-62 | One more than the deepest known parent is the longest chain |
| Lineage.NotSeenAgain | crudman/app/docs/lineage.py:55-58 | The recursion meets a model it is inside of only on a cycle |
| AccountSteps.EveryRunKeepsInv | crudman/app/dbusers/utils.py:90-291 | Over every run, failures included: no two rows share a role, each row's role exists and is a personal account, is enabled iff it can log in, and an enabled row's rank is the role's only rank |
| AccountSteps.StepKeepsInv | crudman/app/dbusers/utils.py:90-291 | Every single operation keeps that |
| AccountSteps.SecretsAreRearmed | crudman/app/dbusers/utils.py:139-208 | Between two secrets issued for one user there is an enrollment or a reset that went through |
| AccountSteps.RunAwaitsLawfully | crudman/app/dbusers/utils.py:155-181 | A row awaits a credential only if it was enrolled or reset since its last secret |
| AccountSteps.SyncReconciles | crudman/app/dbusers/utils.py:229-265 | On a table in order a sync is never refused, leaves the row enabled iff the user is active and earns a rank, which is then recorded, and repeating it changes nothing |
| AccountSteps.SyncTouchesOne | crudman/app/dbusers/utils.py:229-265 | Nobody else's row or role is touched |
| AccountSteps.SyncKeepsPassword | crudman/app/dbusers/utils.py:229-265 | A sync leaves the role with exactly the earned rank, or without login and ranks, and with its password; no other row or role changes |
| AccountSteps.SignInReenablesIff | crudman/app/dbusers/signals.py:28-37 | A sign-in without a rank ends with the row enabled iff a credential was still owed |
| AccountSteps.EnrolledWithoutPasswordIff | crudman/app/dbusers/utils.py:117-124 | An enrollment goes through iff a rank is earned, the name is acceptable and free and nothing fails; the row then awaits its credential, and the role is without a password iff it had none before |
| AccountSteps.UnclaimedIff | crudman/app/dbusers/utils.py:121 | No step leaves a password that no row's user has claimed, except exactly: enrolling a user whose role has one, and deleting the Django account of such a user |
| AccountSteps.ProgramAwaitsWithoutPassword | crudman/app/dbusers/utils.py:117-124 | Over every run that enrolls only users without a row and deletes no account with a password, an account awaiting its credential has none |
| AccountSteps.SuccessorInheritsPassword | crudman/app/dbusers/utils.py:121-124 | An account enrolled under the role name of a deleted one awaits its credential while the role logs in with the first one's password, by example |
| AccountSteps.IssuedIsPassword | crudman/app/dbusers/utils.py:155-181 | On a table in order a secret is handed out iff one is owed and it becomes the role's password, which claims the row; otherwise nothing changes |
| AccountSteps.ResetRevokes | crudman/app/dbusers/utils.py:184-208 | On a table in order a reset is never refused: the role has no password, the row awaits, login, rank and name are as before and nobody else is touched; the next long enough secret is handed out and becomes the password; a failure changes nothing |
| AccountSteps.RemovedStartsAfresh | crudman/app/dbusers/utils.py:268-291 | On a table in order a removal is never refused: row and role are gone, nobody else is touched, and the next enrollment under the name starts without a password; a failure changes nothing |
| AccountSteps.ClaimedWithoutSecret | crudman/app/dbusers/utils.py:155-181 | Where the backend issues no secrets a sign-in claims the row and changes nothing else |
| AccountSteps.DisabledKeepsRole | postgresql/initdb/gf_0003_create_functions.sql:497-523 | Disabling takes login and ranks, keeps role, marker and password, and disables exactly the rows of that name |
| AccountSteps.DeletionDisables | crudman/app/dbusers/signals.py:49-73 | Deleting a Django account drops its row and disables its role, or leaves the role as it was if the database fails |
| AccountSteps.EnrollTouchesOne | crudman/app/dbusers/utils.py:90-136 | An enrollment writes one row and one role, which can log in with the earned rank alone |
| AccountSteps.FailureChangesNothing | crudman/app/dbusers/utils.py:90-291 | Every operation that fails or is refused leaves both tables as they were |
| AccountSteps.OtherRolesUntouched | postgresql/initdb/gf_0003_create_functions.sql:404-600 | No operation ever touches a service role or a role that is not a person's |
| AccountSteps.IdentifierExamples | postgresql/initdb/gf_0003_create_functions.sql:10-34 | Which identifiers the database accepts: letters, digits and underscores, no leading digit, at most 50 characters |
| AccountSteps.OrphanIff | crudman/app/dbusers/utils.py:117-118 | No step leaves a role that can log in without its row, except exactly: an enrollment that passes its guards for a user with an enabled row under another name, and deleting a Django account while the database fails |
| AccountSteps.AbandonedIsOrphan | crudman/app/dbusers/utils.py:126-134 | In those two cases such a role is indeed left behind |
| AccountSteps.RunRecordsLogins | crudman/app/dbusers/utils.py:117-118 | Over every run without such a step, each personal account that can log in is some row's |
| AccountSteps.ProgramRecordsLogins | crudman/app/dbusers/utils.py:117-118 | So it is over every run that enrolls only users without a row and in which no deletion meets a failing database |
| AccountSteps.DeletionAbandonsRole | crudman/app/dbusers/signals.py:66-73 | Deleting a Django account while the database fails leaves a role that can log in without a row, by example |
| AccountSteps.IssueKeepsInv | crudman/app/dbusers/utils.py:139-181 | Issuing a credential keeps rows and roles in agreement |
| AccountSteps.EnrollKeepsInv | crudman/app/dbusers/utils.py:90-136 | Enrolling does, also under a name another row holds |
| AccountSteps.DisableKeepsInv | postgresql/initdb/gf_0003_create_functions.sql:497-523 | Disabling any role name does |
| DatabaseAccounts.Accounts.Enroll | crudman/app/dbusers/utils.py:90-136 | The operation performs its step; any failure rolls both tables back |
| DatabaseAccounts.Accounts.IssueCredential | crudman/app/dbusers/utils.py:139-181 | The operation performs its step, for either kind of backend |
| DatabaseAccounts.Accounts.Reset | crudman/app/dbusers/utils.py:184-208 | The operation performs its step |
| DatabaseAccounts.Accounts.Disable | crudman/app/dbusers/utils.py:211-226 | The operation performs its step, for any role name |
| DatabaseAccounts.Accounts.Sync | crudman/app/dbusers/utils.py:229-265 | The operation performs its step |
| DatabaseAccounts.Accounts.Remove | crudman/app/dbusers/utils.py:268-291 | The operation performs its step |
| DatabaseAccounts.Accounts.ApplyAndSync | crudman/app/sso/roles.py:92-126 | Applying claims and syncing leaves an existing row enabled iff a known role was claimed, with the highest claimed one as its rank, unmanaged groups and all other rows untouched |
| DatabaseAccounts.ReconcilingAgainChangesNothing | crudman/app/sso/roles.py:107-117 | Repeating both changes neither groups nor accounts |
| Roles.HighestRole | crudman/app/sso/roles.py:74-89 | The loop returns the most privileged known role claimed, none iff none is known |
| Roles.NormalisedTrims | crudman/app/sso/roles.py:84 | A claimed name counts without the blanks around it and in lower case |
| Roles.ClaimsByExample | crudman/app/sso/roles.py:74-89 | The names of the ranks and groups, and what blanks, capitals, several and unknown names grant |
| Roles.ApplyRoles | crudman/app/sso/roles.py:92-126 | Exactly the granted managed group remains, unmanaged groups survive, the flags follow the grant; a missing group stops the update with the flags as they were |
| Roles.GrantedIsEarned | crudman/app/dbusers/utils.py:65-87 | The rank the groups earn in the database is the one the provider granted |
| Roles.EarnedRank | crudman/app/dbusers/utils.py:65-87 | No held rank is above the earned one, and a superuser always earns one |

## Left out

- CertificateChain.ReorderingIsIdempotent: stated for up to 9999 certificates, because beyond that the shell's listing permutes the blocks anew on every run; `CertificateChain.RerunReproducesIff` gives the exact bound for the script as it stands.
- History.PlansAgree: for predicates that are conjunctions of equalities between an expression of each side, the form an ASOF JOIN partitions on; the lateral plan is covered for every predicate.
- Predicate columns without a table alias that belong to the left table: the tick subquery does not project them and the engine refuses the query.
- SQL text, identifier quoting, dialect normalisation and the empty column list of the loading stage in `temporal_join.py`.
- Hand edits of validity dates, concurrent upload transactions, storage-level renaming of files, a file or directory that `rmtree` fails to remove and skips, symbolic links on the uploads volume.
- What dropzone checkers and converters do: they are functions of the spooled files that may fail.
- Operating-system limits on names in the spool directory (length, NUL characters).
- The hash function itself, and Unicode beyond ASCII in role claims.
- gRPC transport, credentials and their comparison: a login is a step with a fresh token, a rejected login changes nothing.
- The token check of `start_call` on later calls (`flight.py:93-99`): `_session` repeats it.
- Reading a session directory while a write to it is under way: a write is one step, and a commit does not overlap the puts of its token.
- Certificates that openssl cannot parse, and an unreadable private key.
- libpq's list of known keywords, and strings that hold NUL characters.
- The ECharts option built by `chart` in `lineage.py`: it only reads the columns' input.
- `role_name_for`: the role name is a parameter of an enrollment. `unmanaged_role`, `claimed_roles` and `create_role_groups`: lookups without state of their own.
- Service roles becoming or ceasing to be such while they are a person's role.
- Object ownership and default privileges of database roles.
- The SFTP endpoint, the webhook, documentation access, avatars, scopes, the Django admin, deployment scripts and configuration.
