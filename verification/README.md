# Flo: verified models

Dafny models of seven parts of Flo, with proofs of what they keep. Each part is modelled from its source
file, branch by branch, and its main results are statements over every input, every run or every
interleaving.

| part | files |
|---|---|
| streaming multipart reader | `MultipartFormat`, `Multipart`, `MultipartMeaning`, `MultipartChunks`, `MultipartReads`, `MultipartRoundTrip`, `MultipartReader` |
| migration chain and concurrent runners | `MigrationChain`, `MigrationRunners`, `MigrationProgress` |
| workflow graph editor | `WorkflowGraph`, `RouteOrder`, `GraphEdits` |
| self-undoing role migration | `RoleCatalogue`, `RoleUpgrade`, `RoleExact`, `RoleRoundTrip` |
| append-only ledger and its views | `Ledger`, `LedgerRules`, `LedgerTotals`, `RemainingView`, `Lineage` |
| project forest and delegation periods | `ProjectForest`, `ProjectBackfill`, `Delegations`, `DelegationRuns` |
| exact money and history restoration | `Rounding`, `Allocation`, `DecimalText`, `MoneyText`, `NavigationGuard` |

`Wrappers`, `Bytes` and `Collections` hold result types and facts about sequences and sums.
`dafny verify dfyconfig.toml` checks everything.

**Multipart.** The reader is a machine of four phases over a buffer (section 5.1.1 of RFC 2046, profiled
by section 4 of RFC 7578). Its meaning is a separate parser of whole bodies and a writer. The machine
refines the parser for every way of cutting a body into chunks, and the reading undoes the writing for
exactly the bodies whose contents hold no genuine delimiter. Cutting matters only for a header block of
16382 to 16384 bytes in a body that otherwise makes an upload: the size test looks at a blank line that
has only half arrived. That is proved of what the reader returns, as an if-and-only-if, with a concrete
body that one way of cutting gets accepted and another refused. The imperative reader is a class proved
against the machine.

**Migrations.** Discovery succeeds exactly on a linear chain in file name order, and every message it
gives is true; in particular, when there is no head, the first file does lie on a cycle. The runners are
a state machine of statements: any number of them, any interleaving, a crash at any point, and some of
them possibly carrying an older chain. They are safe, and they get there: a runner left alone returns
with exactly its chain applied, only a crash makes one fail, and none can step forever.

**Workflow graph.** The loop check looks at the graph before the old edge on the output is removed; it
still refuses exactly the connections that would leave a cycle. Every session of edits stays acyclic.
What each edit changes, and that it changes nothing else, is read off the fields of nodes and edges.

**Role migration.** The upgrade's log is shown to account for every difference it makes, and the
downgrade to undo exactly that, even when grants and memberships have been added in between. When the
upgrade itself can fail is given exactly, and so are the roles and grants it leaves.

**Ledger.** A ledger is reachable if every row in it passed the checks, the trigger, the unique indexes
and the foreign keys when it was appended; the check that links a release to what it releases came
later, and only the remaining views rely on it. Reversals then form disjoint chains, and totals are sums
of the entries that stand. The remaining views look one reversal deep: a release whose reversal has
itself been reversed stands, but the view no longer takes it off. The condition is exact, and a four-row
ledger shows the case. The lineage view is compared with the walk along parent links.

**Forest and delegations.** The trigger's columns are compared with the walk to the root, over all runs
and for the backfill of older rows; projects on a cycle come out of the backfill with depth 1 and no
root. Delegation transactions interleave at the level of row lock, advisory lock, check, write and
commit; the advisory key is an arbitrary hash and may collide.

**Money and history.** Half-up rounding is a predicate with a unique solution; the backend's quantize
and the three frontend forms all meet it. The percentage keeps a fraction of more than four places
unscaled, so texts of different lengths there give a wrong quotient; when is proved exactly. A refused
Back or Forward is undone unless a second traversal was already waiting, or the page pushed an entry,
before it was back; that, too, is exact step by step.

Where the code and its own words differ, the code is modelled: the lineage migration speaks of what
remains "including reversed releases", yet a release restored by a second reversal is not counted; the
hierarchy is called bounded, yet the backfill lets cycles through; and a cancelled Back or Forward is
not always undone.

## Model

| member | source | states |
|---|---|---|
| `MultipartFormat.NoOverlap` | apps/api/src/flo/kernel/multipart.py:104-116 | a delimiter found ends before the next one begins, so resuming the search after a false delimiter's line end misses none |
| `MultipartFormat.DataReadBack` | apps/api/src/flo/kernel/multipart.py:103-119 | contents written before a closing delimiter are found again as written if and only if they hold no genuine delimiter; a false one with a wrong suffix is allowed |
| `MultipartFormat.FirstBlock` | apps/api/src/flo/kernel/multipart.py:84-119 | one block followed by anything is cut where the writer put its end if and only if its headers end at their first blank line and its contents can be carried |
| `MultipartFormat.BlocksReadBack` | apps/api/src/flo/kernel/multipart.py:76-123 | a list of blocks is read back as written if and only if every block can be sent |
| `MultipartFormat.ReadBack` | apps/api/src/flo/kernel/multipart.py:76-123 | round trip of a whole body through writer and parser, as an if-and-only-if |
| `MultipartFormat.PlainContents` | apps/api/src/flo/kernel/multipart.py:103-119 | contents that never hold the line end and marker can always be carried |
| `Multipart.Consume` | apps/api/src/flo/kernel/multipart.py:60-69 | consuming keeps the invariant: every part within its cap, and the digest exactly the file part's bytes in order |
| `Multipart.ConsumeAppends` | apps/api/src/flo/kernel/multipart.py:60-69 | bytes go to the end of the current part exactly when it stays within its limit, `maxFileBytes` for the file and its own entry of `textFields` for a text; nothing else changes but, for the file, the digest; the failure tells file from text |
| `Multipart.Step` | apps/api/src/flo/kernel/multipart.py:77-123 | a turn keeps the invariant, and every turn that goes round again shortens the buffer |
| `Multipart.Drain` | apps/api/src/flo/kernel/multipart.py:76-123 | the inner loop ends, in a state that keeps the invariant |
| `Multipart.ConcludeExact` | apps/api/src/flo/kernel/multipart.py:124-146 | a finished stream gives an upload if and only if the file and the required parts are there, the texts sent decode and the file is named |
| `MultipartMeaning.ConsumeTwice` | apps/api/src/flo/kernel/multipart.py:60-69 | consuming in two goes is consuming at once: same failures, same result |
| `MultipartMeaning.DataMeaning` | apps/api/src/flo/kernel/multipart.py:103-119 | the data phase takes everything up to the first genuine delimiter, false delimiters included |
| `MultipartMeaning.HeadersMeaning` | apps/api/src/flo/kernel/multipart.py:84-119 | from the headers phase, draining gathers exactly the blocks that the format cuts |
| `MultipartMeaning.DrainMeaning` | apps/api/src/flo/kernel/multipart.py:76-123 | the machine refines the parser: draining a whole body gathers its meaning, and finishes only if it has one |
| `MultipartChunks.StepExtend` | apps/api/src/flo/kernel/multipart.py:76-123 | a turn that goes round again does the same whatever arrives later |
| `MultipartChunks.BreakAbsorbs` | apps/api/src/flo/kernel/multipart.py:103-111 | the bytes held back at a break are enough: waiting for more leaves the outcome of every continuation unchanged |
| `MultipartChunks.RaiseAbsorbs` | apps/api/src/flo/kernel/multipart.py:76-123 | a failure is final whatever arrives later, unless a header block turns out to be just within its limit |
| `MultipartChunks.DrainAbsorbs` | apps/api/src/flo/kernel/multipart.py:75-123 | draining early and going on is draining at once |
| `MultipartChunks.ReadAbsorbs` | apps/api/src/flo/kernel/multipart.py:71-123 | from any state between two chunks, reading the rest in chunks agrees with having it at once |
| `MultipartReads.ReadMeaning` | apps/api/src/flo/kernel/multipart.py:71-125 | a read in any chunks that finishes has gathered the body's meaning; one that does not is of a body too long, or without meaning, or with a header block just below the limit |
| `MultipartReads.ChunkIndependence` | apps/api/src/flo/kernel/multipart.py:71-125 | two ways of cutting one body give the same upload, with the same bytes digested, or both none, unless the body is fragile |
| `MultipartReads.LongHeaderStops` | apps/api/src/flo/kernel/multipart.py:85-91 | a header block of 16382 to 16384 bytes can be cut inside its blank line so that it is refused |
| `MultipartReads.FragileBreaks` | apps/api/src/flo/kernel/multipart.py:85-91 | every fragile body can be cut so that the reader refuses it |
| `MultipartReads.CutsStopExactly` | apps/api/src/flo/kernel/multipart.py:71-123 | whether the stream reaches the closing delimiter depends on the cutting if and only if the body is fragile |
| `MultipartReads.CutsMatterExactly` | apps/api/src/flo/kernel/multipart.py:71-146 | what the reader returns depends on the cutting if and only if the body is fragile and its parts would make an upload |
| `MultipartReads.NeverRead` | apps/api/src/flo/kernel/multipart.py:124-146 | a body whose parts make no upload is refused however it is cut |
| `MultipartReads.WholeFinishes` | apps/api/src/flo/kernel/multipart.py:71-125 | a body with a meaning, within the size limit, is read when it comes in one chunk |
| `MultipartRoundTrip.GatherExact` | apps/api/src/flo/kernel/multipart.py:92-102 | gathering succeeds exactly on blocks of distinct names, each the file within `maxFileBytes` or a text field within its own limit, with headers of 16384 bytes at most, and gathers exactly them |
| `MultipartRoundTrip.WriteThenRead` | apps/api/src/flo/kernel/multipart.py:71-125 | distinct parts, written with a good boundary and read in any chunks, come back exactly, and the digest was fed the file's bytes |
| `MultipartRoundTrip.UploadOfBody` | apps/api/src/flo/kernel/multipart.py:71-146 | a written body gives an upload, in any chunks, if and only if it is within the file limit and 65536 bytes more, only a line end or the start of one follows it, every part is within its own limit and named once, the file and the required parts are there, the texts (not the file) decode, and the file is named; the upload has the file's own bytes, the same bytes digested, its name and type, and exactly the texts sent |
| `MultipartRoundTrip.CompleteParts` | apps/api/src/flo/kernel/multipart.py:124-146 | the parts held make an upload if and only if the blocks written do |
| `MultipartRoundTrip.LongHeaderIsFragile` | apps/api/src/flo/kernel/multipart.py:85-91 | one empty file part with a header block just below the limit makes a fragile body |
| `MultipartRoundTrip.CutsCanMatter` | apps/api/src/flo/kernel/multipart.py:85-91 | a concrete body that the reader returns whole and refuses in two chunks |
| `MultipartReader.Reader.constructor` | apps/api/src/flo/kernel/multipart.py:53-58 | a new reader stands at the machine's initial state |
| `MultipartReader.Reader.Consume` | apps/api/src/flo/kernel/multipart.py:60-69 | updating the part and digest in place is the machine's consume, failures included |
| `MultipartReader.Reader.DataPhase` | apps/api/src/flo/kernel/multipart.py:103-119 | the in-place data branch is the machine's data turn |
| `MultipartReader.Reader.AtDelimiter` | apps/api/src/flo/kernel/multipart.py:112-119 | both delimiter branches, with their deletions from the buffer, are the machine's |
| `MultipartReader.Reader.Feed` | apps/api/src/flo/kernel/multipart.py:71-123 | taking one chunk in place counts it, extends the buffer and drains as the machine does |
| `MultipartReader.Marker` | apps/api/src/flo/kernel/multipart.py:43-52 | a boundary is accepted exactly when it is ASCII without line ends and at most 200 bytes, and the marker is two dashes followed by it |
| `MultipartReader.ReadMultipart` | apps/api/src/flo/kernel/multipart.py:33-146 | the whole imperative read returns what the machine's read returns for the same chunks |
| `MigrationChain.NoHeadMeansCycle` | apps/api/src/flo/kernel/migrate.py:128-139 | if every revision is some file's predecessor, each of them comes back to itself along predecessor links |
| `MigrationChain.RevisitMeansCycle` | apps/api/src/flo/kernel/migrate.py:143-150 | a revision met again on the way down lies on a cycle |
| `MigrationChain.LinearHead` | apps/api/src/flo/kernel/migrate.py:128-133 | a linear chain has its last file as its only head |
| `MigrationChain.LinearWalk` | apps/api/src/flo/kernel/migrate.py:141-150 | the walk down a linear chain meets every file, last to first |
| `MigrationChain.WalkIsLinear` | apps/api/src/flo/kernel/migrate.py:141-155 | a complete walk read backwards is a linear chain |
| `MigrationChain.IndexFiles` | apps/api/src/flo/kernel/migrate.py:113-120 | the loop indexes all files by revision, or reports how the first file that does not load fails, or a real duplicate |
| `MigrationChain.CheckDowns` | apps/api/src/flo/kernel/migrate.py:122-126 | fails exactly if some predecessor is unknown, and names such a file |
| `MigrationChain.WalkDown` | apps/api/src/flo/kernel/migrate.py:141-150 | the walk ends; it is complete, or it reports a revision met twice |
| `MigrationChain.FirstUnseen` | apps/api/src/flo/kernel/migrate.py:151-153 | the search for a revision left out finds one, the first in file order |
| `MigrationChain.FirstMismatch` | apps/api/src/flo/kernel/migrate.py:156-165 | the search for the first disagreement finds one |
| `MigrationChain.UnseenIsUnreached` | apps/api/src/flo/kernel/migrate.py:151-153 | a revision reported as not included cannot be reached from the only head |
| `MigrationChain.MismatchIsMisplaced` | apps/api/src/flo/kernel/migrate.py:156-165 | a revision reported as out of order is not where the chain puts it |
| `MigrationChain.Discover` | apps/api/src/flo/kernel/migrate.py:102-166 | succeeds if and only if every file loads with a revision, a valid predecessor and both functions, and the files form a linear chain in name order, which it returns; every failure reports something true of the files, a file that does not load being the first such |
| `MigrationRunners.CommitInv` | apps/api/src/flo/kernel/migrate.py:197-215 | committing a revision extends the committed prefix by one and credits that runner alone |
| `MigrationRunners.RunInv` | apps/api/src/flo/kernel/migrate.py:182-220 | the invariant holds over every interleaving of any number of runners with failures |
| `MigrationRunners.CommittedPrefix` | apps/api/src/flo/kernel/migrate.py:182-220 | committed revisions are always a prefix of the chain, each once, and none is lost |
| `MigrationRunners.ReturnedComplete` | apps/api/src/flo/kernel/migrate.py:182-220 | a runner that returns leaves its whole chain applied and reports exactly what it committed, in order |
| `MigrationRunners.ReportsDisjoint` | apps/api/src/flo/kernel/migrate.py:189-220 | no revision is reported by two runners |
| `MigrationRunners.EveryRowAccounted` | apps/api/src/flo/kernel/migrate.py:208-220 | every new row was committed by one of the runners, which reports it if it returns |
| `MigrationRunners.UpgradesRunInOrder` | apps/api/src/flo/kernel/migrate.py:204-214 | an upgrade runs only on a database that holds exactly the revisions before it |
| `MigrationRunners.OneTransaction` | apps/api/src/flo/kernel/migrate.py:192-203 | no two runners are inside a transaction together |
| `MigrationRunners.SomeoneCanStep` | apps/api/src/flo/kernel/migrate.py:192-220 | no deadlock: while a runner has not ended, some runner can move |
| `MigrationRunners.OlderImageRefused` | apps/api/src/flo/kernel/migrate.py:176-179 | a runner whose chain is older than the database is refused at its next look at the table |
| `MigrationRunners.OlderImageStops` | apps/api/src/flo/kernel/migrate.py:182-220 | once the table holds all of its chain, a runner commits nothing in any later run |
| `MigrationProgress.SoloCompletes` | apps/api/src/flo/kernel/migrate.py:182-220 | liveness: from any state a run can reach, a runner that neither fails nor finds the lock taken returns; the table then holds exactly its chain, and it has reported exactly what was missing |
| `MigrationProgress.WaitingCompletes` | apps/api/src/flo/kernel/migrate.py:182-220 | the same for a runner still waiting, after any events of the others: it reports its chain from where the table ended |
| `MigrationProgress.StartCompletes` | apps/api/src/flo/kernel/migrate.py:182-220 | one runner alone migrates a database whose table is a prefix of its chain, and reports what was missing |
| `MigrationProgress.FailureRollsBack` | apps/api/src/flo/kernel/migrate.py:197-218 | a failure frees the lock the runner held and leaves the rows and the other runners alone |
| `MigrationProgress.FailedExactly` | apps/api/src/flo/kernel/migrate.py:197-218 | over every run, a runner has failed if and only if a failure met it before it had ended |
| `MigrationProgress.RefusedMeansOlder` | apps/api/src/flo/kernel/migrate.py:176-179 | only a runner whose chain is older than the database is refused |
| `MigrationProgress.UnfailedEnds` | apps/api/src/flo/kernel/migrate.py:182-220 | a runner that ends without a failure has returned with its whole chain applied, or carries an older chain |
| `MigrationProgress.StepsBounded` | apps/api/src/flo/kernel/migrate.py:182-220 | no livelock: in every run a runner makes at most six steps a revision and three more |
| `WorkflowGraph.MakesLoop` | apps/web/src/components/workflows/graph-reducer.ts:37-50 | the search with its stack ends and answers whether `from` can be reached from `to` |
| `WorkflowGraph.ReachesWithoutOwnEdges` | apps/web/src/components/workflows/graph-reducer.ts:73-82 | reaching a node does not depend on the edges that leave it, so checking before the removal is enough |
| `WorkflowGraph.Operate` | apps/web/src/components/workflows/graph-reducer.ts:73-82 | an edit is refused exactly for a connection that makes a loop, and is otherwise the reduced graph |
| `WorkflowGraph.GuardExact` | apps/web/src/components/workflows/graph-reducer.ts:63-82 | on an acyclic graph a connection is refused if and only if the reduced graph would have a cycle |
| `WorkflowGraph.SubmitKeeps` | apps/web/src/components/workflows/graph-reducer.ts:51-82 | every edit keeps an acyclic graph acyclic, however many edges its outputs have |
| `WorkflowGraph.SessionsStayAcyclic` | apps/web/src/components/workflows/graph-reducer.ts:51-82 | over every sequence of edits an acyclic graph stays acyclic |
| `WorkflowGraph.ConnectReplaces` | apps/web/src/components/workflows/graph-reducer.ts:63-69 | after a connection its output leads to the new place and nowhere else, whatever was on it |
| `WorkflowGraph.SessionsKeepOne` | apps/web/src/components/workflows/graph-reducer.ts:51-82 | over every sequence of edits, outputs that lead to one place at most keep doing so |
| `GraphEdits.ConnectExact` | apps/web/src/components/workflows/graph-reducer.ts:63-69 | a connection keeps every edge that is not on the output connected, in its order and number, and adds one, last, with the output's own fields; nodes and layout stay |
| `GraphEdits.ConnectKeepsCondition` | apps/web/src/components/workflows/graph-reducer.ts:64-67 | the edge on a Yes output carries the condition of the first edge that was there, else a blank one |
| `GraphEdits.ConnectedEdges` | apps/web/src/components/workflows/graph-reducer.ts:63-69 | an edge is there after a connection if and only if it is the new one, or was there and is not on the output connected |
| `GraphEdits.DisconnectExact` | apps/web/src/components/workflows/graph-reducer.ts:62-62 | a disconnection removes exactly the edges on that output |
| `GraphEdits.DeleteExact` | apps/web/src/components/workflows/graph-reducer.ts:57-61 | a deletion removes exactly the node, the edges at either of its ends and its place |
| `GraphEdits.SetConditionExact` | apps/web/src/components/workflows/graph-reducer.ts:56-56 | a condition is set on exactly the Yes edges of the node; ends and outputs stay |
| `GraphEdits.UpdateExact` | apps/web/src/components/workflows/graph-reducer.ts:55-55 | an update changes exactly the named fields of the node with that id; ids and kinds stay |
| `GraphEdits.AddAndMoveExact` | apps/web/src/components/workflows/graph-reducer.ts:53-54 | a new node comes last; a move gives exactly one node its place |
| `GraphEdits.TargetsStayNodes` | apps/web/src/components/workflows/graph-reducer.ts:51-82 | an edit leaves no edge that leads nowhere, unless it connects to something that is no node; an if-and-only-if |
| `GraphEdits.TargetsInOrder` | apps/web/src/components/workflows/graph-reducer.ts:47-47 | the search and the walk take a node's edges in the order of the graph, each as often as it is there |
| `GraphEdits.StartsInOrder` | apps/web/src/components/workflows/graph-reducer.ts:88-88 | the walk begins with the start nodes in the order of the graph |
| `RouteOrder.PreorderIsReachable` | apps/web/src/components/workflows/graph-reducer.ts:86-87 | a depth-first worklist lists exactly the nodes reachable from it, each once, on any graph |
| `RouteOrder.Walk.Visit` | apps/web/src/components/workflows/graph-reducer.ts:86-87 | the recursive visit over shared sets ends and appends what the worklist says |
| `RouteOrder.Route` | apps/web/src/components/workflows/graph-reducer.ts:83-91 | the route looks up, in order, the ids that the two visiting passes list |
| `RouteOrder.RouteIdsMeaning` | apps/web/src/components/workflows/graph-reducer.ts:83-91 | first exactly what some start node reaches, then exactly the other nodes, each once |
| `RouteOrder.EveryLookupFinds` | apps/web/src/components/workflows/graph-reducer.ts:90-90 | without dangling edges every id listed has a node |
| `RouteOrder.RouteIsPermutation` | apps/web/src/components/workflows/graph-reducer.ts:83-91 | with unique ids and no dangling edges every lookup finds a node and the route is a permutation of the nodes |
| `RoleCatalogue.NothingRetiredIsGranted` | migrations/20261014_0053_baseline_role_catalogue.py:23-46 | no baseline grant is of a retired code |
| `RoleUpgrade.RenameExact` | migrations/20261014_0053_baseline_role_catalogue.py:65-70 | renaming a custom Project Manager role fails exactly when the new code is taken |
| `RoleUpgrade.GrantExact` | migrations/20261014_0053_baseline_role_catalogue.py:79-92 | granting fails exactly on a baseline code that the catalogue lacks |
| `RoleUpgrade.UpgradeExact` | migrations/20261014_0053_baseline_role_catalogue.py:58-97 | the upgrade succeeds if and only if, in every organization, no role has the new code of a custom Project Manager role and every baseline code to grant is known |
| `RoleUpgrade.UpgradeDelivers` | migrations/20261014_0053_baseline_role_catalogue.py:58-97 | after it the new codes are in, the retired ones out of catalogue and grants, and every organization has its Project Manager role and baseline grants |
| `RoleUpgrade.OthersUntouched` | migrations/20261014_0053_baseline_role_catalogue.py:63-93 | one organization's turn leaves another's roles alone, and its grants but for retired codes |
| `RoleExact.TurnsGrants` | migrations/20261014_0053_baseline_role_catalogue.py:63-93 | over the turns of any organizations, a grant is there if and only if it was and is not retired, or its organization has had its turn and its role deserves it |
| `RoleExact.UpgradeRolesExact` | migrations/20261014_0053_baseline_role_catalogue.py:65-78 | the roles after the upgrade, exactly: only custom Project Manager roles are recoded, at most one role an organization is added, under its drawn identifier and exactly where no system one was; memberships stay |
| `RoleExact.UpgradeGrantsExact` | migrations/20261014_0053_baseline_role_catalogue.py:71-92 | the grants after the upgrade, exactly: not retired, and there before, or of a system role that is the administrator (any code of the catalogue) or has a baseline pair with the code |
| `RoleUpgrade.Catalogue.RunUpgrade` | migrations/20261014_0053_baseline_role_catalogue.py:58-97 | the loop over organizations computes the upgrade in place, or fails as it does |
| `RoleUpgrade.Catalogue.RunDowngrade` | migrations/20261014_0053_baseline_role_catalogue.py:98-125 | the loop over organizations computes the downgrade in place, or fails as it does |
| `RoleRoundTrip.TrackUpgrade` | migrations/20261014_0053_baseline_role_catalogue.py:48-97 | after a successful upgrade the change log accounts for every difference it made |
| `RoleRoundTrip.UndoneUnique` | migrations/20261014_0053_baseline_role_catalogue.py:107-115 | role codes stay unique while organizations are undone: the added role is gone before the renamed one takes its code back |
| `RoleRoundTrip.UndoOrg` | migrations/20261014_0053_baseline_role_catalogue.py:102-121 | undoing one organization succeeds and restores its roles and grants |
| `RoleRoundTrip.DowngradeRestores` | migrations/20261014_0053_baseline_role_catalogue.py:98-125 | whatever grants and memberships came in between, the downgrade succeeds and restores the original relations, keeping of the additions all that does not rest on what the upgrade added |
| `RoleRoundTrip.RoundTrip` | migrations/20261014_0053_baseline_role_catalogue.py:58-125 | downgrade after upgrade is the identity on permissions, roles, grants and memberships |
| `Ledger.ReachableAppend` | migrations/20260826_0019_ledger.py:20-88 | a ledger can be built by permitted inserts exactly if the ledger before its last row can and that row was permitted |
| `LedgerRules.ReachableExact` | migrations/20260826_0019_ledger.py:20-88 | the ledgers that permitted inserts build are exactly those in which every row fits its kind, no two rows share an identifier, an organization's idempotency key or a reversed entry, every reversal negates an earlier row of the same account, and no other link is to a later row or none |
| `Ledger.Table.Insert` | migrations/20260826_0019_ledger.py:20-88 | a row is appended, after all others, if and only if trigger, checks (with the release link of 20260826_0022), unique indexes and foreign keys permit it; otherwise nothing changes, and the first of them to refuse it is reported |
| `Ledger.Table.BeforeReversal` | migrations/20260826_0019_ledger.py:66-88 | the trigger refuses a reversal exactly if nothing it negates has that identifier, or that entry has been reversed, and tells which |
| `Ledger.ReversalLink` | migrations/20260826_0019_ledger.py:66-88 | a reversal comes after the one entry it reverses, negates it in the same account, and is its only reversal |
| `LedgerTotals.StandsIffEven` | migrations/20260826_0019_ledger.py:66-88 | an entry stands if and only if its chain has an even number of reversals |
| `LedgerTotals.ChainAccount` | migrations/20260826_0019_ledger.py:72-83 | a chain of reversals lies in one organization, unit, project, bucket and currency, and has one origin |
| `LedgerTotals.ChainAmount` | migrations/20260826_0019_ledger.py:72-83 | signs alternate along a chain |
| `LedgerTotals.OriginFacts` | migrations/20260826_0019_ledger.py:66-88 | every chain starts at an entry that is no reversal and passes through every entry with that origin |
| `LedgerTotals.ChainsDisjoint` | migrations/20260826_0019_ledger.py:66-88 | two originals never share a chain |
| `LedgerTotals.StandsAppend` | migrations/20260826_0019_ledger.py:66-88 | an appended row flips exactly the entries whose chain ends at what it reverses |
| `LedgerTotals.TotalMoves` | migrations/20260826_0020_project_balance.py:29-37 | an append moves the total of its own organization, project and bucket by its amount, and no other; an empty ledger has none |
| `LedgerTotals.TotalsMeanLive` | migrations/20260826_0020_project_balance.py:29-37 | in every reachable ledger a bucket's total is the sum of the original entries that stand |
| `LedgerTotals.BackfillMeansLive` | migrations/20260826_0020_project_balance.py:15-37 | each figure of a backfilled balance is a sum of standing entries, what is available follows, and the row is refused if and only if a standing sum is negative |
| `LedgerTotals.ActualNonNegative` | migrations/20260826_0020_project_balance.py:25-26 | the actuals of a project are never negative, so their check never fails |
| `RemainingView.ReleasedMeansOpen` | migrations/20260826_0022_reservation_release.py:26-28 | the view's released sum is the sum of the releases that nothing reverses |
| `RemainingView.RemainingMeaning` | migrations/20260826_0022_reservation_release.py:26-34 | what remains is nothing once the entry is reversed, else its amount plus its unreversed releases; the same for commitments (20260826_0023) |
| `RemainingView.RemainingMoves` | migrations/20260826_0022_reservation_release.py:26-34 | an append moves what remains by the amount of a release of it, or of a reversal of such a release; to zero if it reverses the entry; otherwise not at all |
| `RemainingView.RemainingStarts` | migrations/20260826_0023_ledger_lineage.py:16-25 | a new reservation or commitment has all of its amount remaining |
| `RemainingView.RemainingSeesStanding` | migrations/20260826_0022_reservation_release.py:26-34 | what remains counts exactly the releases that stand if and only if none of them was restored by a second reversal |
| `RemainingView.RestoredIsMissed` | migrations/20260826_0022_reservation_release.py:26-34 | a concrete ledger in which a restored release is missed |
| `Lineage.SoundBound` | migrations/20260826_0023_ledger_lineage.py:31-38 | rows at depth n have n+1 distinct visited entries, so the recursion ends for all links |
| `Lineage.ShownStep` | migrations/20260826_0023_ledger_lineage.py:34-38 | one turn of the recursion takes each row to the next ancestor of its entry, or to none |
| `Lineage.ShownRow` | migrations/20260826_0023_ledger_lineage.py:28-36 | the n-th row of an entry names the entry with its organization and project, and the ancestor with its source, its parent (what it reverses, else releases, else converts) and the walk up to it |
| `Lineage.ViewListsLineages` | migrations/20260826_0023_ledger_lineage.py:28-41 | the rows are exactly, for every entry, one for each ancestor on its walk, the n-th with depth n, source and visited list of that ancestor |
| `Lineage.ViewKeyedOnce` | migrations/20260826_0023_ledger_lineage.py:28-41 | an entry is listed at most once at each depth |
| `Lineage.LineageEnds` | migrations/20260826_0023_ledger_lineage.py:34-38 | a lineage ends at an entry without parent, or with a link to itself or to another organization |
| `Lineage.RootsExactly` | migrations/20260826_0023_ledger_lineage.py:28-41 | every lineage ends at a true root if and only if every link is to an earlier entry of the same organization |
| `Lineage.DeepestIsRoot` | migrations/20260826_0023_ledger_lineage.py:28-41 | then the deepest row of an entry names its true root and is the only row of the entry without a parent |
| `ProjectForest.OnePath` | migrations/20260826_0018_project_hierarchy.py:16-22 | a project has at most one walk to a root |
| `ProjectForest.ForestIffConsistent` | migrations/20260826_0018_project_hierarchy.py:35-47 | the trigger's rule from parent to child holds everywhere if and only if every stored depth is the length of the walk to the root, at most five, and every stored root its end |
| `ProjectForest.Acyclic` | migrations/20260826_0018_project_hierarchy.py:14-51 | no project is its own ancestor, none has five ancestors, and ancestors share a root |
| `ProjectForest.RunKeepsForest` | migrations/20260826_0018_project_hierarchy.py:26-51 | over every run of inserts, link updates and deletes the columns keep their meaning |
| `ProjectForest.LinksNeverChange` | migrations/20260826_0018_project_hierarchy.py:29-34 | no run changes the links, depth or root of a project that is not deleted |
| `ProjectForest.InsertExact` | migrations/20260826_0018_project_hierarchy.py:35-47 | a new project is accepted if and only if it would have a walk of at most five to a root in its organization, and is then linked as asked |
| `ProjectForest.DeleteExact` | migrations/20260826_0017_projects.py:50-50 | a delete passes the foreign key if and only if what is left is still a forest |
| `ProjectForest.Table.InsertProject` | migrations/20260826_0018_project_hierarchy.py:35-47 | the trigger's branches fill in depth and root, refuse in the order of the source, and keep the forest |
| `ProjectForest.Table.UpdateLink` | migrations/20260826_0018_project_hierarchy.py:29-34 | a change of parent or organization is refused and anything else leaves the hierarchy alone |
| `ProjectBackfill.CollectLevels` | migrations/20260826_0018_project_hierarchy.py:16-22 | the recursive query, with its union and its bound, gives levels one to six |
| `ProjectBackfill.TreeMeaning` | migrations/20260826_0018_project_hierarchy.py:16-22 | it lists exactly the projects with a walk of at most six to a root, with the length and end of that walk |
| `ProjectBackfill.RefusedExactly` | migrations/20260826_0018_project_hierarchy.py:14-24 | the migration is refused if and only if some project lies deeper than five |
| `ProjectBackfill.UpdatedMeaning` | migrations/20260826_0018_project_hierarchy.py:23-24 | a project with a walk gets its length and end; one without keeps depth 1 and no root |
| `ProjectBackfill.BackfillExact` | migrations/20260826_0018_project_hierarchy.py:14-24 | the result is what the trigger keeps if and only if every project has a walk of at most five to a root |
| `ProjectBackfill.SameLinksSameRows` | migrations/20260826_0018_project_hierarchy.py:14-51 | two forests with the same links have the same depths and roots |
| `ProjectBackfill.BackfillRefinesTrigger` | migrations/20260826_0018_project_hierarchy.py:14-51 | backfilling the links of a table that the trigger built gives that table back |
| `Delegations.GuardExact` | migrations/20261009_0046_approval_delegation.py:33-36 | the trigger's query finds nothing if and only if, with the new row put in, no two live rows of one organization and delegator share an instant |
| `Delegations.OverlapExact` | migrations/20261009_0046_approval_delegation.py:36-36 | half-open periods overlap if and only if they have an instant in common |
| `Delegations.ClearExact` | migrations/20261009_0046_approval_delegation.py:31-37 | the query finds nothing if and only if no other live row of the same organization and delegator shares an instant with the row, or the row is revoked |
| `DelegationRuns.HappenUndisturbed` | migrations/20261009_0046_approval_delegation.py:32-32 | no event of one session takes a lock or a write from another |
| `DelegationRuns.OwnersApart` | migrations/20261009_0046_approval_delegation.py:32-32 | no two sessions have live rows of one delegator in writing |
| `DelegationRuns.AfterClear` | migrations/20261009_0046_approval_delegation.py:31-37 | a row that has been checked stays clear when another session commits |
| `DelegationRuns.CommitOthers` | migrations/20261009_0046_approval_delegation.py:28-40 | a commit keeps what every other open transaction sees free of overlap |
| `DelegationRuns.RunKeeps` | migrations/20261009_0046_approval_delegation.py:28-40 | the invariant holds over every interleaving of sessions |
| `DelegationRuns.HappenCommitted` | migrations/20261009_0046_approval_delegation.py:28-40 | only a commit changes what is committed |
| `DelegationRuns.WaiterProceeds` | migrations/20261009_0046_approval_delegation.py:32-32 | a statement waits for another session's advisory lock, losing nothing, and takes it when that session commits or aborts |
| `DelegationRuns.PeriodsNeverOverlap` | migrations/20261009_0046_approval_delegation.py:13-40 | at every instant at most one committed live delegation of a delegator in an organization is in force, and its period is not empty |
| `DelegationRuns.InsertAlone` | migrations/20261009_0046_approval_delegation.py:13-40 | undisputed, an insert is committed if and only if its key is new, its checks hold, and it is revoked or shares no instant with another live row of its organization and delegator; nothing else changes and no lock stays |
| `DelegationRuns.UpdateAlone` | migrations/20261009_0046_approval_delegation.py:28-40 | undisputed, an update (moving a period, revoking, clearing a revocation) is committed if and only if its checks hold and the new row is revoked or shares no instant with another live row of its organization and delegator; no lock stays |
| `DelegationRuns.DeleteAlone` | migrations/20261009_0046_approval_delegation.py:38-40 | a delete is not guarded and takes the row away, and only it |
| `Rounding.HalfUpMeets` | apps/web/src/lib/decimal.ts:16-19 | adding half the divisor to the magnitude and truncating is rounding half up |
| `Rounding.HalfUpUnique` | apps/api/src/flo/kernel/money.py:60-65 | rounding half up has one result |
| `Rounding.QuantizeRounds` | apps/api/src/flo/kernel/money.py:60-65 | quantize gives the exact value rounded half up to the exponent |
| `Allocation.LeftoverFits` | apps/api/src/flo/kernel/money.py:113-122 | what truncation leaves over is less than the number of ratios that are not zero |
| `Allocation.Conserved` | apps/api/src/flo/kernel/money.py:113-124 | the parts add up to the amount, whatever its sign |
| `Allocation.PartFair` | apps/api/src/flo/kernel/money.py:113-124 | a part is within one unit of its exact share, and a zero ratio receives nothing |
| `Allocation.PartNegates` | apps/api/src/flo/kernel/money.py:113-124 | negating the amount negates every part |
| `Allocation.EarliestFirst` | apps/api/src/flo/kernel/money.py:119-122 | a later ratio gets a leftover unit only if every earlier one that is not zero does |
| `Allocation.PartsExact` | apps/api/src/flo/kernel/money.py:113-122 | each part of a positive amount is its exact share cut to whole units, or one unit more; more only at a ratio that is not zero, and then at all earlier ones too |
| `Allocation.WholeUnitsExact` | apps/api/src/flo/kernel/money.py:110-111 | an amount equals its quantized value exactly if it is a whole number of minor units, which quantizing then gives |
| `Allocation.Allocate` | apps/api/src/flo/kernel/money.py:100-124 | the loops compute these parts, which together are the amount itself, and fail exactly for no ratios, a negative or all-zero ratio list, or an amount that is not a whole number of minor units |
| `DecimalText.MatchWritten` | apps/web/src/lib/decimal.ts:3-4 | the amount pattern accepts a sign, digits, and a point with digits, and finds them |
| `DecimalText.WrittenMatch` | apps/web/src/lib/decimal.ts:3-4 | it accepts nothing else |
| `DecimalText.ScaledAccepts` | apps/web/src/lib/decimal.ts:2-4 | exactly the texts of a sign, digits and at most four places can be scaled |
| `DecimalText.ScaledExact` | apps/web/src/lib/decimal.ts:2-7 | scaling gives the exact value in ten-thousandths |
| `DecimalText.ScaledUndoesText` | apps/web/src/lib/decimal.ts:2-11 | scaling the text of any integer gives the integer back |
| `DecimalText.UnitsUnique` | apps/web/src/lib/decimal.ts:37-38 | padding and slicing give the only text of a number of units with that many places and no superfluous leading zero |
| `DecimalText.TextUndoesScaled` | apps/web/src/lib/decimal.ts:2-11 | writing a scaled text again gives it back if and only if it has four places, no superfluous zero and no minus sign on zero |
| `DecimalText.DifferenceExact` | apps/web/src/lib/decimal.ts:12-12 | the text of a difference scales to the difference |
| `MoneyText.ChartRounds` | apps/web/src/lib/decimal.ts:13-20 | chart units are the exact value rounded half up |
| `MoneyText.MultiplyIsQuantize` | apps/web/src/lib/decimal.ts:30-40 | the product's text is the exact product quantized, and scaling it loses nothing |
| `MoneyText.MultiplyShows` | apps/web/src/lib/decimal.ts:36-39 | that text shows the quantized value, signed only below zero, with exactly the exponent's places |
| `MoneyText.MultiplyAccepts` | apps/web/src/lib/decimal.ts:31-32 | exactly the texts of a sign, digits and at most four places can be multiplied |
| `MoneyText.FormatRounds` | apps/web/src/lib/money.ts:3-16 | the carry on the digit string rounds half up, for any number of places |
| `MoneyText.FormatIsQuantize` | apps/web/src/lib/money.ts:2-16 | the digits and sign shown are the quantized value |
| `MoneyText.ChartIsFormat` | apps/web/src/lib/money.ts:2-16 | an amount shows the same units in a chart and as money |
| `MoneyText.MinusZero` | apps/web/src/lib/money.ts:15-15 | a minus sign is shown on zero exactly when a negative text rounds to zero |
| `MoneyText.ConsumptionRounds` | apps/web/src/lib/money.ts:18-35 | for texts of any number of places the percentage is the consumed part of the allocation as parsed, rounded half up, for either sign |
| `MoneyText.ConsumptionExact` | apps/web/src/lib/money.ts:20-28 | what is rounded is the exact consumption if and only if both texts are left with as many places, or nothing is available |
| `MoneyText.LongTextMisleads` | apps/web/src/lib/money.ts:20-25 | a concrete allocation of five places, half of it available, shown as 95 percent consumed |
| `NavigationGuard.InstallExact` | apps/web/src/lib/navigation-guard.ts:46-48 | installing stamps the current entry, with its own index or zero, and changes no page and no other entry |
| `NavigationGuard.PushAndReplaceExact` | apps/web/src/lib/navigation-guard.ts:49-50 | a push keeps the entries up to the current one and adds one for the page, one index on; a replacement changes the current entry alone |
| `NavigationGuard.DeliverLands` | apps/web/src/lib/navigation-guard.ts:53-72 | where a traversal leads, and what an accepted, a refused and a restoring one do to index, flag and queue |
| `NavigationGuard.InstallInStep` | apps/web/src/lib/navigation-guard.ts:41-51 | installing starts in step exactly if all other entries are stamped to match |
| `NavigationGuard.HappenExact` | apps/web/src/lib/navigation-guard.ts:33-72 | an event keeps indices, positions and the current index in step if and only if nothing comes between a refused jump and its way back |
| `NavigationGuard.RunKeeps` | apps/web/src/lib/navigation-guard.ts:33-72 | over every run of pushes, replacements and jumps of any distance, page and history are in step at every moment if and only if the run is orderly |
| `NavigationGuard.RefusedIsUndone` | apps/web/src/lib/navigation-guard.ts:53-72 | a refused jump and its restoring event leave entries, position and index as they were |
| `NavigationGuard.AcceptedMoves` | apps/web/src/lib/navigation-guard.ts:61-66 | an accepted jump goes where it was asked to and changes no entry |
| `NavigationGuard.SecondJumpStrays` | apps/web/src/lib/navigation-guard.ts:53-72 | a concrete run in which a second waiting jump leaves page and history out of step |
| `NavigationGuard.Window.PushState` | apps/web/src/lib/navigation-guard.ts:49-49 | the patched push drops the forward entries and stamps the new one |
| `NavigationGuard.Window.SettlePop` | apps/web/src/lib/navigation-guard.ts:61-72 | the handler's branches on the module's variables are the machine's |
| `NavigationGuard.Window.CarryOut` | apps/web/src/routes/__root.tsx:262-269 | the page routes exactly for a traversal that landed, was not a restoration, and was allowed |

## Left out

- MIME header parsing, UTF-8 decoding and SHA-256: parameters of the reader; the digest is the bytes fed to it.
- MultipartReads.ChunkIndependence: does not compare error kinds, which do depend on the cutting.
- The error for text that is not UTF-8 does not name its field.
- Globbing, sorting and executing migration files: discovery gets the loaded files in name order.
- MigrationRunners: the runner is a state machine over interleaved statements, not a method, since what is proved is about many of them; an upgrade's own statements are one step.
- Everything a workflow node holds besides id, kind and name is one settings value; summaries and pointer moves are not modelled.
- The renaming loop of migration 0053 is one statement, since at most one role of an organization has the code; organizations come as sequences and new role ids as arguments; audit rows and row-level security are not modelled.
- The ledger's foreign keys to projects and units, its dates, actors and account codes; concurrency of inserts, which the unique index on reversals decides.
- Delegations: sessions are a state machine on values, not a class, at the level read committed (each query sees committed rows and its own writes); updates that change a row's key, statements over several rows at once (each row is one event) and deadlock detection are not modelled, and a day is 24 hours.
- ProjectForest.RunKeepsForest: does not cover direct updates of the key, depth or root columns, which the trigger does not guard.
- Currency codes and their exponents are given as exponents; `Money` addition, subtraction and multiplication are decimal arithmetic with one currency check.
- Decimal context precision in allocation: shares are exact quotients.
- MoneyText.ChartRounds: exponents above four, for which the source throws, are excluded.
- Locale grouping and separators in `formatMoney`, `share`, and texts in `consumptionPercent` that are not amounts.
- The set of dirty-form guards and the leave dialog: their answer is an argument of each traversal.
- Services under `flo.modules`, routers, React screens and deployment scripts.
