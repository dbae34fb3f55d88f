# Verified models of ads-research-agent

Dafny models of the parts of the repository whose correctness is an argument over
runs, interleavings or byte layouts rather than a fact about one body, with proofs.

- `RunReduce`, `RunAgreement`, `RunStream`: the live-run protocol of the web console.
  Every field an event writes is a register, last-writer or first-writer, and the run's
  cost is derived from its nodes. Two runs *agree up to a stream* when they differ at
  most on what the stream is going to write; at-least-once delivery and the convergence
  of snapshots with overlapping replay follow from that relation.
- `GuardedTable`, `SealedRows`, `PinnedRuleset`: tables under BEFORE UPDATE triggers as
  transition systems, with arbitrary accepted statements. What is permanent is proved
  over every run; what is scoped to a status is proved for as long as the row keeps the
  status, together with a run that shows it no longer holds after.
- `VersionLifecycle`, `PlanFreeze`, `PackageRelease`: how versions are minted, sealed and
  superseded, and the two services that do it, statement by statement.
- `Acceptances`: the one current research acceptance of a project and the flag plans
  derive from it.
- `Memberships`, `SourceSeed`: the data migrations 0011 and 0012.
- `CalcIsolation`, `RouteGuards`: the two build guards that search graphs.
- `Dag`: validation, selection and waves of the run graph.
- `PdfSyntax`, `PdfFile`, `PdfText`, `PdfPages`: a PDF writer, and a reader for it after
  sections 7.3.4.2, 7.5.4 and 7.5.5 of ISO 32000-1.
- `Countries`, `Letters`, `Markets`, `Proposal`, `PlanPayload`, `EnvFile`: the market
  proposal, the budget split and the `.env` rewriter.

Clocks, fresh ids, files on disk, HTTP answers and rendered documents are inputs. Code
that works by statements, loops or handlers is modelled by methods and classes, each
proved against a function that the lemmas are about; expressions are functions.

## Where the code and its description differ

The models follow the code.

- Downgrading 0011 says a person goes back to the workspace they joined first. A member
  of the oldest workspace who joined another one first is deleted with that workspace
  (`Memberships.MemberIsDeletedExactlyWhen`, `Memberships.AMemberOfTheOldestIsDeleted`).
- 0014 says `version > 0` is the exact test for a plan that has been frozen. Its own
  UPDATE takes the version of superseded plans away (`VersionLifecycle.NormalisingExactly`,
  `VersionLifecycle.NormalisingForgetsASupersededPlan`); 0022 does not repeat this for
  packages.
- A superseded plan is meant to keep saying what it said when it was signed. The freeze
  looks only for plans that are frozen now, so a superseded plan whose acceptance is
  still current can be written again by its run, keeping its version, and frozen again,
  losing it (`PlanFreeze.WritePlan`, `PlanFreeze.FrozenExactly`,
  `VersionLifecycle.FreezingAgainLosesAVersion`).
- "A frozen plan is immutable" holds while the status says so and no longer: nothing in
  the triggers keeps a row in its status (`SealedRows.PlanCanBeRewritten` and its
  siblings). Assets, rule sets, decisions and signatures are immutable outright.
- `released_by` is declared ON DELETE SET NULL, and the package trigger refuses that
  write while the package is released (`SealedRows.ReleaserStaysExactlyWhile`,
  `SealedRows.AReleaserCannotBeDeleted`).
- The console trusts a snapshot over anything it accumulated. That is right for snapshots
  no older than its cursor; a late one can lose an event for good, until another comes in
  time (`RunStream.ConvergesWithinExactly`, `RunStream.LateSnapshotsCanDiverge`,
  `RunStream.ASnapshotInTimeHeals`).
- A log in which `run.completed` is followed by more events, as after a retry, is never
  heard past that point, and a console that stays on it does not converge
  (`RunStream.HeardOutExactly`, `RunStream.ConvergesExactly`,
  `RunStream.ARetryIsNeverHeardOut`, `RunStream.ARetryMisleads`). An `export.ready` behind
  the end does no harm (`RunStream.AnIdleTailIsHarmless`).
- Withdrawing a newer acceptance is said to revive the older one. It revives nothing; only
  accepting again does (`Acceptances.WithdrawingRevivesNothing`,
  `Acceptances.AcceptingAgainRevives`). Deleting a row is what revives the rows that named
  it, behind the back of the plans' flags, and the index may refuse it
  (`Acceptances.DeletionExactly`, `Acceptances.DeletionLeavesFlagsRightExactly`,
  `Acceptances.ADeletionLeavesAFlagWrong`, `Acceptances.ADeletionIsRefused`).
- The renaming of 0011 is there so that equal names do not fail the deploy; it can still
  run into a name that is taken (`Memberships.ARenamingCanCollide`).
- The allocation's absorbing row can be negative (`PlanPayload.AbsorbingRowIsNegativeExactly`,
  `PlanPayload.ThreeCentsOverFive`).
- The oldest credential of a pair decides 0012's connection, and a tie between two is left
  to the database (`SourceSeed.ATieLeavesTheSeedOpen`).

## Model

| member | source | states |
|---|---|---|
| `RunReduce.NodeEventsCommute` | apps/web/lib/run-reduce.ts:31-102 | Two streams of node events whose per-node subsequences agree fold to the same run, the derived run cost included: events of different nodes may arrive in any order. |
| `RunReduce.Confluence` | apps/web/lib/run-reduce.ts:13-102 | The same for every kind of event: the nodes depend on the per-node order, the run's own status, error and end on the order of the run-level events, and its cost on the last event that touched it; nothing else about the interleaving is visible. |
| `RunReduce.FoldNodeIsLocal` | apps/web/lib/run-reduce.ts:83-96 | A node's final state is decided by the events that name it. |
| `RunReduce.FoldShowsSaid` | apps/web/lib/run-reduce.ts:36-81 | And to what: after any stream each of a node's registers holds the last value an event naming it stated (status by kind, error cleared by a start, attempt, model, tokens, cost and latency by their own keys), or what it held before. |
| `RunReduce.StatusIsTheLastMoves` | apps/web/lib/run-reduce.ts:42-76 | A node's status is the one of the last started, completed, failed or approval event that names it: running, succeeded, awaiting approval, and for a failure running if it will be retried and failed if not. |
| `RunReduce.FoldHeadIsLocal` | apps/web/lib/run-reduce.ts:18-29 | The run's own status, error and end are decided by the run-level events. |
| `RunReduce.FoldShowsRunSaid` | apps/web/lib/run-reduce.ts:18-29 | And to what: the run's status is the last one stated, and its error the last one stated by a completion, a null one clearing it. |
| `RunReduce.StatusIsReadByName` | apps/web/lib/run-reduce.ts:104-121 | A stated status is taken if and only if it is the name of one of the statuses the reducer knows. |
| `RunReduce.FoldCost` | apps/web/lib/run-reduce.ts:98-102 | After any stream the run's cost is the sum of its nodes' costs, or the figure a later `run.completed` stated, or what it was if no event touched it: the two cannot drift apart. |
| `RunReduce.WordsCountForNothing` | apps/web/lib/run-reduce.ts:98-101 | In that sum a blank cost counts as nothing, and any other text that spells no amount makes it not a number. |
| `RunAgreement.FoldWritesOnly` | apps/web/lib/run-reduce.ts:13-81 | A stream changes only the registers its events write. |
| `RunAgreement.FoldAgrees` | apps/web/lib/run-reduce.ts:13-81 | Two runs that differ at most on what a stream is going to write are equal, clock fields apart, after it, at any two readings of the clock. |
| `RunAgreement.FoldsMeetExactly` | apps/web/lib/run-reduce.ts:13-81 | Two runs that hear the same events end equal (clock fields apart) if and only if everything they disagreed on was still going to be written. |
| `RunReduce.FoldClocks` | apps/web/lib/run-reduce.ts:21-60 | `started_at` and the run's `finished_at` hold the first stamp, a node's `finished_at` the last. |
| `RunAgreement.ReplayedSuffixIsAbsorbed` | apps/web/lib/run-reduce.ts:13-81 | At-least-once delivery: folding any suffix of a folded stream again, at any later clock readings, yields exactly the same run with the `finished_at` of the nodes completed again moved, and nothing else. |
| `RunAgreement.SameReplayIsAbsorbed` | apps/web/lib/run-reduce.ts:13-81 | Folded again at the very clock readings it was folded at, a suffix changes nothing at all. |
| `RunStream.Console.Mount` | apps/web/lib/run-events.ts:75-88 | Subscribing again starts at the beginning of the log, keeps what is shown, and keeps the console on its way to the log's end (`Valid`). |
| `RunStream.Console.Open` | apps/web/lib/run-events.ts:90-94 | A connection is live, moves neither the position nor what is shown, and every one after the first asks for a snapshot. |
| `RunStream.Console.Error` | apps/web/lib/run-events.ts:96-101 | A dropped connection costs nothing but the connection: position and run stay, the gap is reported unless the stream is closed, and the console is still on its way to the log's end. |
| `RunStream.Console.Message` | apps/web/lib/run-events.ts:104-119 | Hearing the next event, whatever the clock reads: the position moves by one, the stream closes exactly on `run.completed`, what is shown agrees with the record at the new position up to what is still to come, and once the end is heard it is the fold of the whole log, clock fields apart. |
| `RunStream.Console.Snapshot` | apps/web/components/run/console.tsx:144-150 | A snapshot no older than the cursor replaces what is shown without losing anything of the log: the console stays on its way to the log's end. |
| `RunStream.StepKeepsInv` | apps/web/lib/run-events.ts:86-122 | What every protocol step keeps: position, connection, stream state, and that the run on screen differs from the record at its cursor at most on what the log writes before its end (or, once over, on clock fields only). |
| `RunStream.ConvergesWithinExactly` | apps/web/lib/run-events.ts:10-17 | For every log of a live run, and whatever snapshots may arrive at a position besides those no older than the cursor: all consoles that have heard the log's end, under every schedule of mounts, connections, drops, redeliveries and such snapshots, show the fold of the whole log (clock fields apart) if and only if nothing lasting happens behind the first event that ends the run and every older snapshot that may arrive is made good, register by register, by the rest of the log. |
| `RunStream.ConvergesExactly` | apps/web/lib/run-events.ts:10-17 | With snapshots no older than the cursor the first half of that condition is all of it. |
| `RunStream.ASnapshotInTimeHeals` | apps/web/components/run/console.tsx:121-133 | Whatever snapshots a console took before, late ones included: one that is no older than its cursor puts it back on its way, and it converges if no late one follows. |
| `RunStream.ConvergesToTheRecordExactly` | apps/web/lib/run-events.ts:10-17 | When deliveries carry the log's own stamps they show that very fold, every clock field included, if and only if the record does not change at all behind the first end. |
| `RunStream.EndIsHeard` | apps/web/lib/run-events.ts:86-122 | For every log some console hears the end and then shows any later record that may arrive. |
| `RunStream.StaleSnapshotExactly` | apps/web/lib/run-events.ts:12-14 | A snapshot older than the cursor is made good by the rest of the log if and only if every register it has stale is still going to be written. |
| `RunStream.StaleSnapshotLosesAnEvent` | apps/web/lib/run-events.ts:12-14 | A concrete run in which a snapshot older than the cursor loses an attempt number for good. |
| `RunStream.LateSnapshotsCanDiverge` | apps/web/components/run/console.tsx:144-150 | Where snapshots of any age may arrive, not every console converges on that log, though nothing happens behind its end. |
| `RunStream.ClosedStaysClosed` | apps/web/lib/run-events.ts:15-17 | After the terminal event no schedule short of a new mount opens another connection or moves the stream state. |
| `RunStream.NeverPastACompletion` | apps/api/src/agent/api/sse.py:76-80 | No schedule takes a console past the first `run.completed` of its log. |
| `RunStream.HeardOutExactly` | apps/api/src/agent/api/sse.py:64-80 | Some schedule lets a console hear its whole log if and only if `run.completed` occurs only at the log's end: after a retry, the replayed first completion closes the stream on every mount. |
| `RunStream.ARetryIsNeverHeardOut` | apps/api/src/agent/api/sse.py:76-80 | A failed run, queued again and completed: no schedule hears more than the first of its three events, whose status is not the final one. |
| `RunStream.AnIdleTailIsHarmless` | apps/api/src/agent/orchestrator/events.py:43-52 | Behind the end, `export.ready` and other events that change nothing leave convergence intact, to the stamp. |
| `RunStream.ARetryMisleads` | apps/web/lib/run-events.ts:115-119 | In that log a console hears the first end and shows a failed run, although it succeeded. |
| `CalcIsolation.CarriesANumber` | apps/api/scripts/check_calc_isolation.py:321-343 | The search with a shared, mutated `seen` set returns true exactly when a class that declares a number is reachable over in-file references without passing a name seen before, on every graph, cyclic ones included, in any iteration order; it terminates because unseen in-file names run out. |
| `CalcIsolation.ExploredHoldsNoNumber` | apps/api/scripts/check_calc_isolation.py:334-343 | What a failed search has marked as seen leads to no number, so skipping seen names loses nothing. |
| `CalcIsolation.HoldsANumber` | apps/api/scripts/check_calc_isolation.py:304-305 | Called with an empty `seen`, the search is reachability. |
| `CalcIsolation.ScanClass` | apps/api/scripts/check_calc_isolation.py:284-298 | One class body gives its number flag, its referenced names and its last citation field. |
| `CalcIsolation.ReadFile` | apps/api/scripts/check_calc_isolation.py:280-298 | The four dictionaries describe the last definition of every name, in the order names first appear. |
| `CalcIsolation.CheckCalcCitations` | apps/api/scripts/check_calc_isolation.py:270-318 | The failures are exactly one per offending `*Output` class, in order, with its line. |
| `CalcIsolation.ReportMembers` | apps/api/scripts/check_calc_isolation.py:301-317 | A failure is reported if and only if it is the verdict on some class of the file. |
| `CalcIsolation.FailuresExactly` | apps/api/scripts/check_calc_isolation.py:301-317 | Which failures those are: a model that reaches a number without a citation, at the line of its last definition; and one whose citation may be empty, at the citation's own line. |
| `CalcIsolation.CitationIsTheLast` | apps/api/scripts/check_calc_isolation.py:288-298 | Of several citation fields in a body the last one counts. |
| `CalcIsolation.SilentExactlyWhenCited` | apps/api/scripts/check_calc_isolation.py:270-318 | The guard is silent if and only if every `*Output` class that reaches a number declares a citation field with a minimum length. |
| `RouteGuards.DeclaredPermission` | apps/api/scripts/check_route_guards.py:68-78 | The stack search answers None exactly when no dependency anywhere below the root carries a permission, and otherwise answers one that does occur there; the root's own is not looked at. |
| `RouteGuards.CheckRoute` | apps/api/scripts/check_route_guards.py:96-111 | One route's failures and keys, both exactly. |
| `RouteGuards.CheckModule` | apps/api/scripts/check_route_guards.py:86-111 | One module's failures and keys, both exactly. |
| `RouteGuards.ModuleReport` | apps/api/scripts/check_route_guards.py:86-111 | One more module adds exactly its own failures to the report. |
| `RouteGuards.Check` | apps/api/scripts/check_route_guards.py:81-137 | The check reports exactly the five kinds of failure, each exactly when it occurs. |
| `RouteGuards.BareAtColon` | apps/api/scripts/check_route_guards.py:124-127 | A path converter, a colon and a word before a closing brace, is dropped, and every other colon stays. |
| `RouteGuards.SilentIsSound` | apps/api/scripts/check_route_guards.py:81-127 | No report means every module has a router, every route is guarded or public but not both, every public key exists and every key is mounted. |
| `RouteGuards.SoundIsSilent` | apps/api/scripts/check_route_guards.py:81-127 | Nothing is reported of a sound API. |
| `RouteGuards.RunGuard` | apps/api/scripts/check_route_guards.py:81-141 | The exit code is 0 if and only if the API is sound. |
| `PdfFile.WriteObjects` | scripts/browser-check-documents.py:83-87 | Each remembered offset is where its object begins. |
| `PdfFile.WriteEntries` | scripts/browser-check-documents.py:90-91 | One entry an offset, in order. |
| `PdfFile.Pdf` | scripts/browser-check-documents.py:82-95 | The bytes written. |
| `PdfFile.EntryWidth` | scripts/browser-check-documents.py:91 | A cross-reference entry is 20 bytes long if and only if its offset is below 10^10. |
| `PdfFile.EntriesRead` | scripts/browser-check-documents.py:89-91 | The table's entries read back as the offsets if and only if every offset fits. |
| `PdfFile.PdfRoundTrip` | scripts/browser-check-documents.py:82-95 | Reading `startxref`, the table, the trailer and each offset recovers exactly the object bodies, whatever bytes they hold and however many, and the number of the root object, if every object begins below 10^10, and fails otherwise. |
| `PdfText.PassesEscapeEach` | scripts/browser-check-documents.py:114 | The three successive replacements equal one escape a character. |
| `PdfText.LiteralRead` | scripts/browser-check-documents.py:114-115 | An escaped text read as a literal string ends at its own closing parenthesis and gives back its UTF-8 bytes, every end-of-line marker as a line feed. |
| `PdfText.LiteralExact` | scripts/browser-check-documents.py:114-115 | It gives back the very bytes if and only if the text holds no carriage return. |
| `PdfPages.TextPdf` | scripts/browser-check-documents.py:98-119 | The objects written hold each page's object and stream at the numbers meant for them. |
| `PdfPages.AddPages` | scripts/browser-check-documents.py:107-118 | Pages and streams alternate behind the first three objects. |
| `PdfPages.CatalogRead` | scripts/browser-check-documents.py:102 | The catalog refers to the page list. |
| `PdfPages.PageListRead` | scripts/browser-check-documents.py:100-104 | The page list reads back as the page numbers, in order, with the right count. |
| `PdfPages.PageRead` | scripts/browser-check-documents.py:108-113 | A page refers to the page list, the font and the object after it. |
| `PdfPages.StreamRead` | scripts/browser-check-documents.py:115-118 | `/Length` is the stream's length: reading by it gives back the stream, whatever bytes it holds. |
| `PdfPages.TextRoundTrip` | scripts/browser-check-documents.py:98-119 | From the file's last line through trailer, catalog and page list, each page of that list, set in a font that is there, gives back its text, in order. |
| `PdfPages.TextExact` | scripts/browser-check-documents.py:98-119 | A page's text comes back byte for byte if and only if it holds no carriage return. |
| `EnvFile.EnvFile.SaveEnv` | scripts/google-ads-oauth.py:174-194 | After a save of five one-line values GOOGLE_ADS_DEVELOPER_TOKEN, GOOGLE_ADS_CLIENT_ID, GOOGLE_ADS_CLIENT_SECRET and GOOGLE_ADS_REFRESH_TOKEN read back as the values given for them (without outer space and quotes), GOOGLE_ADS_CUSTOMER_ID too or, when the new one is blank, as before; every other name reads as before, and saving again would change nothing; for any prior file. |
| `EnvFile.EnvFile.ReadEnv` | scripts/google-ads-oauth.py:162-171 | The environment first, then what follows the first equals sign of the first line that begins with the name, then nothing. |
| `EnvFile.SavedLines` | scripts/google-ads-oauth.py:181-194 | The saved file, split again, is the kept lines followed by one line a value. |
| `EnvFile.SavedLineByLine` | scripts/google-ads-oauth.py:181-194 | The old lines whose key is not written stay in their order, comments and blank lines among them, and one line a name follows. |
| `EnvFile.OthersUnchanged` | scripts/google-ads-oauth.py:188-194 | Every other name reads as it did before, the customer id too when the new one is blank. |
| `EnvFile.SavedReadsBack` | scripts/google-ads-oauth.py:162-194 | Each saved name reads back as its value without outer space, then without outer quotes, for any prior file. |
| `EnvFile.ReadsBackExactly` | scripts/google-ads-oauth.py:162-194 | It reads back as the value itself if and only if neither end of the value is space or a quote. |
| `EnvFile.SavingTwice` | scripts/google-ads-oauth.py:174-194 | Saving twice leaves the file as saving once. |
| `EnvFile.WantedIsSavable` | scripts/google-ads-oauth.py:182-191 | The five names are distinct and well formed, so the results above hold for any values without line breaks; the customer id is among them if and only if it is not blank. |
| `Markets.ReadsExactly` | apps/api/src/agent/autofill.py:221-228 | A cell is read as a country if and only if, but for outer space and letter case, it is that country's code or one of its names; no cell is one country's code and another's name. |
| `Markets.ReadingIgnoresCase` | apps/api/src/agent/autofill.py:221-228 | Cells that differ in letter case and outer space only are read alike. |
| `Markets.SortIsPartition` | apps/api/src/agent/autofill.py:332-338 | Sorting by (shared, position) is the stable partition: pages nobody else shares first, both parts in document order. |
| `Markets.HreflangCountries` | apps/api/src/agent/autofill.py:300-338 | Every country is published once, from the first link that declares it and with that link's language: countries whose address no other one has come first, and each part is in document order. |
| `Markets.DeclaresExactly` | apps/api/src/agent/autofill.py:311-330 | A link declares a country if and only if its label, stripped, is two lower-case letters, a dash or underscore and two letters: the language and, in upper case, the country. |
| `Markets.SharedExactly` | apps/api/src/agent/autofill.py:332 | An address counts as shared if and only if it is not blank and two countries have it. |
| `Markets.PublishedIsDuplicateFree` | apps/api/src/agent/autofill.py:311-338 | No country is published twice, and every declared country is published. |
| `Proposal.CrmCountries` | apps/api/src/agent/autofill.py:350-361 | Counts and unresolved rows account for every row that names a country, each count being the rows of its country, and keys stand in the order the rows first name them. |
| `Proposal.CountsAreDetermined` | apps/api/src/agent/autofill.py:350-361 | So one export has one counter, order of ties included. |
| `Proposal.MostCommonIsStable` | apps/api/src/agent/autofill.py:373 | Highest count first, ties in the order first met, nothing lost or added. |
| `Proposal.ComposeMarkets` | apps/api/src/agent/autofill.py:364-388 | markets + unknown + dropped = all candidates, and the rest is left out only once six are found. For resolved counts the first markets are the CRM's countries, up to six, by descending count, ties as first met; behind them come the site's own in the order published, each passed over only when six are found; and every country without a currency before the last one taken is reported, in order. |
| `Proposal.MergeProposes` | apps/api/src/agent/autofill.py:364-388 | The same of any result of the merge, in terms of the counts and the published list alone. |
| `Proposal.MarketForMakes` | apps/api/src/agent/autofill.py:231-245 | A country has a market if and only if the table knows it: the table's currency, and the published language in lower case or, without one, the table's, of at most five characters. |
| `Proposal.CandidatesAreDistinct` | apps/api/src/agent/autofill.py:373-375 | No country is a candidate twice, and the candidates are the two sources together. |
| `Proposal.ProposalIsSound` | apps/api/src/agent/autofill.py:364-388 | No country is proposed twice, each comes from one of the sources, and no CRM country is ever reported as unrecognised. |
| `PlanPayload.Allocation` | apps/api/scripts/plan_payload.py:239-277 | One row a campaign, and the rows sum exactly to the envelope, in cents, for every campaign count; a zero envelope is a division by zero unless there are no campaigns. |
| `PlanPayload.RowsAreNearTheShare` | apps/api/scripts/plan_payload.py:249-256 | Every row but the last is within half a cent of the even share, the last within half a cent for each of the others. |
| `PlanPayload.PctsAddUp` | apps/api/scripts/plan_payload.py:263 | The rounded percentages sum to 100 within half a hundredth a row. |
| `PlanPayload.PctIsNear` | apps/api/scripts/plan_payload.py:263 | Each row's percentage is within half a hundredth of its part of the envelope. |
| `PlanPayload.RoundedExactly` | apps/api/scripts/plan_payload.py:252-263 | Rounding is to the nearest, and of two that are equally near to the even one. |
| `PlanPayload.AbsorbingRowIsNegativeExactly` | apps/api/scripts/plan_payload.py:252-256 | The row that absorbs the rounding is negative if and only if the even share was rounded up and quotient plus remainder is below the number of the other campaigns. |
| `PlanPayload.ThreeCentsOverFive` | apps/api/scripts/plan_payload.py:252-256 | Three cents over five campaigns: four rows of one cent and one of minus one. |
| `PlanPayload.MonthAfter` | apps/api/scripts/plan_payload.py:290-291 | The month labels count on from the current month without a gap. |
| `PlanPayload.RefIsShared` | apps/api/scripts/plan_payload.py:546-549 | The reference alone, as the text it is, is shared within a theme by exactly the campaigns of one stage. |
| `PlanPayload.RefAtMarketIdentifies` | apps/api/scripts/plan_payload.py:537-549 | The text `ref@market` identifies a campaign. |
| `Memberships.FindLeast` | apps/api/alembic/versions/0011_workspaces_and_memberships.py:162-166 | `ORDER BY created_at, id LIMIT 1` by scanning, in any order. |
| `Memberships.Database.Upgrade` | apps/api/alembic/versions/0011_workspaces_and_memberships.py:95-173 | The upgrade's statements in order; it fails, leaving everything as it was, exactly when the renaming runs into a name. |
| `Memberships.NamesDifferExactly` | apps/api/alembic/versions/0011_workspaces_and_memberships.py:121-133 | The unique index can be built after the renaming if and only if no renamed workspace's new name is another's old one or another renamed one's new one. |
| `Memberships.ARenamingCanCollide` | apps/api/alembic/versions/0011_workspaces_and_memberships.py:121-133 | Two workspaces of one name and a third with the name the second would get: the index cannot be built. |
| `Memberships.Database.PlaceUsers` | apps/api/alembic/versions/0011_workspaces_and_memberships.py:189-200 | Each user is put where the earliest membership is. |
| `Memberships.Database.Downgrade` | apps/api/alembic/versions/0011_workspaces_and_memberships.py:176-242 | The downgrade's statements in order, the cascade included. |
| `Memberships.UpgradePreservesAccess` | apps/api/alembic/versions/0011_workspaces_and_memberships.py:95-101 | The (user, workspace, role, status) relation before the upgrade equals the membership relation after it. |
| `Memberships.UpgradeIsValid` | apps/api/alembic/versions/0011_workspaces_and_memberships.py:47-173 | The upgrade leaves a state its new schema accepts. |
| `Memberships.OneSuperadmin` | apps/api/alembic/versions/0011_workspaces_and_memberships.py:158-169 | Exactly the oldest active admin, by creation and then id, becomes superadmin; nobody does if and only if there was no active admin. |
| `Memberships.AccountUpgraded` | apps/api/alembic/versions/0011_workspaces_and_memberships.py:135-173 | Each account column by column: the last workspace is the old one, the old columns are gone, the oldest active admin alone is superadmin, and email, status and stamps are kept. |
| `Memberships.MembershipUpgraded` | apps/api/alembic/versions/0011_workspaces_and_memberships.py:95-101 | Each minted membership column by column: the user's workspace, role, status and stamps. |
| `Memberships.WorkspaceUpgraded` | apps/api/alembic/versions/0011_workspaces_and_memberships.py:119-133 | Each workspace column by column: a name an older one has gets the tag in parentheses, and nothing else changes. |
| `Memberships.DowngradeUndoesUpgrade` | apps/api/alembic/versions/0011_workspaces_and_memberships.py:184-242 | Downgrading a fresh upgrade restores every table exactly. |
| `Memberships.DowngradeExactly` | apps/api/alembic/versions/0011_workspaces_and_memberships.py:184-242 | From any multi-workspace state at most the oldest workspace is left, as it was but for the new columns, with exactly the users whose earliest membership is in it or who had none, each with that role or `viewer`, the rest of the account as it was. |
| `Memberships.MemberIsDeletedExactlyWhen` | apps/api/alembic/versions/0011_workspaces_and_memberships.py:176-242 | A member of the oldest workspace is deleted if and only if another workspace let them in first. |
| `Memberships.AMemberOfTheOldestIsDeleted` | apps/api/alembic/versions/0011_workspaces_and_memberships.py:176-242 | Two workspaces and one person in both who joined the newer first: the downgrade deletes the account. |
| `SourceSeed.Seed` | apps/api/alembic/versions/0012_source_connections.py:88-100 | The one INSERT: an oldest credential of each pair is carried over. |
| `SourceSeed.SeedCarriesEveryDecision` | apps/api/alembic/versions/0012_source_connections.py:78-98 | A pair is connected if and only if it held a credential that is not for mail, and the connection has the author, date and test result of a first of them. |
| `SourceSeed.SeedIsDeterminedExactly` | apps/api/alembic/versions/0012_source_connections.py:93-98 | The seed has one possible outcome if and only if the oldest credentials of every pair carry the same columns: the order names no tie-break. |
| `SourceSeed.ATieLeavesTheSeedOpen` | apps/api/alembic/versions/0012_source_connections.py:93-98 | Two keys of one kind stored at the same moment by different people leave both outcomes possible. |
| `GuardedTable.Table.Execute` | apps/api/alembic/versions/0016_stage03_schema.py:745-759 | One statement under a BEFORE UPDATE trigger: what is accepted, and the whole table after it. |
| `GuardedTable.SealHolds` | apps/api/alembic/versions/0016_stage03_schema.py:673-691 | For any guard: what it protects is equal at both ends of every run along which the row stays sealed. |
| `GuardedTable.PermanentSeal` | apps/api/alembic/versions/0020_stage04_schema.py:443-455 | For any guard that also never unseals: once sealed, a row's protected content never moves again, whatever the run. |
| `GuardedTable.RewritableExactly` | apps/api/alembic/versions/0013_stage02_handshake.py:52-72 | For any guard a row can step out of: accepted updates can turn it into another row if and only if that row's keys are free. |
| `SealedRows.RuleSetNeverChanges` | apps/api/alembic/versions/0016_stage03_schema.py:693-708 | Over every run a rule set never changes. |
| `SealedRows.DecisionNeverChanges` | apps/api/alembic/versions/0020_stage04_schema.py:483-493 | Over every run a reviewer's decision never changes. |
| `SealedRows.FrozenAssetNeverChanges` | apps/api/alembic/versions/0020_stage04_schema.py:442-455 | Over every run an asset never changes once frozen, so it is never unfrozen. |
| `SealedRows.SignatureKeepsWhatItAttests` | apps/api/alembic/versions/0016_stage03_schema.py:710-743 | Over every run a signature keeps every column but the three that void it. |
| `SealedRows.FrozenPlanIsSealed` | apps/api/alembic/versions/0013_stage02_handshake.py:52-72 | A plan's payload, markdown and version are equal at both ends of any run it stays frozen through. |
| `SealedRows.PublishedGuidelineIsSealed` | apps/api/alembic/versions/0016_stage03_schema.py:666-691 | The same of a guideline's payload, markdown, rule set and version numbers while it stays published. |
| `SealedRows.ReleasedPackageIsSealed` | apps/api/alembic/versions/0020_stage04_schema.py:457-481 | The same of every column of a package but the four excused, while it stays released. |
| `SealedRows.ApprovedBriefIsSealed` | apps/api/alembic/versions/0020_stage04_schema.py:419-440 | The same of a brief's payload, markdown and hash while its approved hash is set. |
| `SealedRows.ReleasedPackageMayMove` | apps/api/alembic/versions/0020_stage04_schema.py:457-481 | What the trigger lets a released package do: any change of the four excused columns, and no other. |
| `SealedRows.SignatureMayBeVoided` | apps/api/alembic/versions/0016_stage03_schema.py:710-743 | What it lets a signature do: any change of the three columns that void it, and no other. |
| `SealedRows.PlanCanBeRewritten` | apps/api/alembic/versions/0013_stage02_handshake.py:56-72 | Beyond its status the seal does not hold: a plan, frozen or not, can become another row, frozen again or not, if and only if that row's id, run and minted version are free. |
| `SealedRows.GuidelineCanBeRewritten` | apps/api/alembic/versions/0016_stage03_schema.py:673-691 | The same of a guideline and its id, run and version numbers. |
| `SealedRows.PackageCanBeRewritten` | apps/api/alembic/versions/0020_stage04_schema.py:465-481 | The same of a package and its id, run and minted version. |
| `SealedRows.BriefCanBeRewritten` | apps/api/alembic/versions/0020_stage04_schema.py:424-440 | The same of a brief and its id and run. |
| `SealedRows.ReleaserStaysExactlyWhile` | apps/api/alembic/versions/0020_stage04_schema.py:410-410 | A user can be deleted if and only if no restricting key names them and no package they released is still released: the SET NULL their deletion would cause is refused. |
| `SealedRows.AReleaserCannotBeDeleted` | apps/api/alembic/versions/0020_stage04_schema.py:410-410 | One released package holds its releaser; the same package superseded does not. |
| `PinnedRuleset.Tables.NullOut` | apps/api/alembic/versions/0016_stage03_schema.py:624-631 | ON DELETE SET NULL row by row: it goes through exactly when every row's trigger lets it. |
| `PinnedRuleset.Tables.Execute` | apps/api/alembic/versions/0016_stage03_schema.py:490-496 | One statement on guidelines and rule sets, with triggers, unique columns, both foreign-key actions and the packages' key to their guideline: what is accepted, and both tables after it. |
| `PinnedRuleset.StepKeepsValid` | apps/api/alembic/versions/0016_stage03_schema.py:490-496 | Every accepted statement leaves all foreign keys resolving, the packages' key included, and all unique columns unique. |
| `PinnedRuleset.PublishedRulesetIsPinned` | apps/api/alembic/versions/0016_stage03_schema.py:666-708 | As long as a guideline stays published its `ruleset_id` resolves to the very row it resolved to at first. |
| `PinnedRuleset.RuleSetMayGoExactly` | apps/api/alembic/versions/0016_stage03_schema.py:624-631 | A rule set can be deleted if and only if no published guideline points at it. |
| `VersionLifecycle.MintVersion` | apps/api/src/agent/db/repos.py:574-589 | `max(version) + 1` over every row of the project, whatever its status. |
| `VersionLifecycle.EveryReachableStateIsSound` | apps/api/alembic/versions/0022_creative_package_draft_versions.py:12-20 | In every state reachable by writing, sealing and removing rows, `version > 0` holds exactly of the rows ever sealed, minted versions are unique in their project, and at most one row of a project is sealed. |
| `VersionLifecycle.MintedVersionMovesExactly` | apps/api/src/agent/db/repos.py:575-580 | A minted version survives every step but its row's removal and, for a plan, being frozen again. |
| `VersionLifecycle.VersionsAreConsecutiveExactly` | apps/api/src/agent/db/models.py:1185-1188 | Over every run without removals a project's versions are 1, 2, 3, ... if and only if no plan that held a version was frozen again. |
| `VersionLifecycle.ConsecutiveThroughoutExactly` | apps/api/src/agent/db/models.py:1185-1188 | In any run at all, a project's versions are 1, 2, 3, ... in every state of it if and only if no step freezes a plan that held a version or removes a row that held one but not its project's highest. |
| `VersionLifecycle.StepKeepsNoGapsExactly` | apps/api/src/agent/db/repos.py:574-589 | The same of one step. |
| `VersionLifecycle.PackageVersionsAreConsecutive` | apps/api/src/agent/creative/release.py:375-382 | Released packages are numbered 1, 2, 3, ... in every run that removes nothing. |
| `VersionLifecycle.ARemovalLeavesAGap` | apps/api/src/agent/creative/release.py:375-382 | Two packages released and the first removed: v2 is left without v1. |
| `VersionLifecycle.FreezingAgainLosesAVersion` | apps/api/src/agent/planning/freeze.py:138-196 | A reachable run of five steps after which no plan is v1 any more. |
| `VersionLifecycle.RemovalReissuesExactly` | apps/api/src/agent/db/repos.py:574-589 | A removed row's version is the next one minted if and only if it was the project's highest and the version below it is held (or it was 1). |
| `VersionLifecycle.NormalisingExactly` | apps/api/alembic/versions/0014_plan_draft_versions.py:14-23 | After 0022's UPDATE `version > 0` is the exact test for a sealed row; after 0014's it is if and only if no plan was superseded. |
| `VersionLifecycle.NormalisingForgetsASupersededPlan` | apps/api/alembic/versions/0014_plan_draft_versions.py:42-46 | One frozen plan and one it superseded: 0014 leaves the second at 0. |
| `VersionLifecycle.IndexesCanBeBuilt` | apps/api/alembic/versions/0014_plan_draft_versions.py:42-50 | Both partial indexes can always be built. |
| `VersionLifecycle.DowngradeExactly` | apps/api/alembic/versions/0022_creative_package_draft_versions.py:52-56 | The table constraint can be restored if and only if no project holds two rows that were never sealed. |
| `PlanFreeze.WritePlan` | apps/api/src/agent/db/repos.py:496-556 | A run's plan is written or written again, unless frozen; the written row column by column, its version, its id and its past freeze kept; no other row moves. |
| `PlanFreeze.NoBlockersExactly` | apps/api/src/agent/planning/freeze.py:243-315 | Nothing blocks a freeze if and only if all four gates are approved, nothing blocking was found, and the plan is neither blocked nor stale. |
| `PlanFreeze.BlockersExactly` | apps/api/src/agent/planning/freeze.py:243-315 | Each blocker is raised if and only if its condition holds: a gate not opened or not approved, a blocking finding, a blocked plan, superseded research. |
| `PlanFreeze.FreezePlan` | apps/api/src/agent/planning/freeze.py:115-235 | The freeze's statements in order, and its answer; no statement is refused by the trigger. |
| `PlanFreeze.Supersede` | apps/api/src/agent/planning/freeze.py:375-405 | Every other frozen plan of the project moves to superseded, by its status alone. |
| `PlanFreeze.SealPlan` | apps/api/src/agent/planning/freeze.py:180-196 | Superseding and the one sealing UPDATE, neither refused by the trigger. |
| `PlanFreeze.FreezeIsASeal` | apps/api/src/agent/planning/freeze.py:375-388 | A freeze is one sealing step of the version lifecycle: the partial index never refuses it, and every other plan still says what it said. |
| `PlanFreeze.FrozenExactly` | apps/api/src/agent/planning/freeze.py:115-235 | Exactly when a request freezes a plan; a superseded plan is not excluded. |
| `PlanFreeze.AnsweredExactly` | apps/api/src/agent/planning/freeze.py:115-196 | Every other answer if and only if its condition holds; only a refusal writes anything, the recomputed flag. |
| `PlanFreeze.FrozenRow` | apps/api/src/agent/planning/freeze.py:180-196 | The frozen row column by column: the version confirmed, the payload and markdown rendered at it, who froze it and when, the decisions of the four gates in order, the rest as it was. |
| `PlanFreeze.FreezeLeavesTheRest` | apps/api/src/agent/planning/freeze.py:375-405 | Every other frozen plan of the project is superseded, by its status alone, and no other row moves. |
| `PlanFreeze.FreezingTwice` | apps/api/src/agent/planning/freeze.py:24-29 | Asked again, the same version is confirmed and any other conflicts, and nothing moves. |
| `PlanFreeze.SecondFreezeConflicts` | apps/api/src/agent/planning/freeze.py:31-34 | Of two requests that confirm one version of a project, the second seals nothing: it is refused or told the next version. |
| `PackageRelease.AssemblePackage` | apps/api/src/agent/nodes/creative/n4_7_1_package_assembly.py:63-109 | A run's package is written or written again at version 0, unless released or superseded; the written row column by column. |
| `PackageRelease.FreezeAssets` | apps/api/src/agent/creative/release.py:264-280 | Exactly the shipped, present, unfrozen assets of the run are frozen, and counted. |
| `PackageRelease.Supersede` | apps/api/src/agent/creative/release.py:288-302 | Every other released package of the project moves to superseded. |
| `PackageRelease.ReleasePackage` | apps/api/src/agent/creative/release.py:110-351 | The release's statements in order, its answer, and both tables; a refusal leaves both as they were and no trigger refuses anything. |
| `PackageRelease.ReleasedExactly` | apps/api/src/agent/creative/release.py:135-324 | A request releases if and only if the package exists and is ready, its run can be read, its plan exists and neither says it is superseded, the rows still assemble to it, no check blocks, the next version is confirmed, every shipped asset is there, of this run and unfrozen, and the files match. |
| `PackageRelease.RefusedExactly` | apps/api/src/agent/creative/release.py:158-286 | Each refusal is given if and only if its condition is the first to fail, and moves nothing. |
| `PackageRelease.UnknownIsNotFound` | apps/api/src/agent/creative/release.py:144-150 | A package is not found if and only if it is not there. |
| `PackageRelease.ReleasedRow` | apps/api/src/agent/creative/release.py:304-324 | The released row column by column: version, payload, manifest, hash, who, when and the approvals, the rest as it was. |
| `PackageRelease.ReleaseLeavesTheRest` | apps/api/src/agent/creative/release.py:264-302 | Every other released package of the project is superseded, by its status alone; no other row and no asset that is not shipped moves. |
| `PackageRelease.ReleaseIsASeal` | apps/api/src/agent/creative/release.py:251-324 | A release is one sealing step of the version lifecycle, so the partial index never refuses it; every other package keeps every column but the excused ones. |
| `PackageRelease.ShippedAssetsNeverChange` | apps/api/src/agent/creative/release.py:264-280 | What a released package ships was unfrozen and of its run, is frozen with it, and never changes in any later run of updates. |
| `PackageRelease.AnAssetShipsOnce` | apps/api/src/agent/creative/release.py:264-280 | Two releases never ship the same asset. |
| `Acceptances.Research.Put` | apps/api/alembic/versions/0013_stage02_handshake.py:225-234 | One statement: accepted exactly when the unique indexes and the foreign key hold at its end. |
| `Acceptances.Research.Replace` | apps/api/src/agent/api/routes_plan.py:1390-1422 | The three statements that move "current" from one row to another: none is refused. |
| `Acceptances.Research.Accept` | apps/api/src/agent/api/routes_plan.py:1353-1422 | Accepting a run, new or again: the rows after it, every constraint kept, every plan's flag right, and nothing but flags of the project's plans moved. |
| `Acceptances.Research.Withdraw` | apps/api/src/agent/api/routes_plan.py:224-278 | Withdrawing points the row at itself, only if it was current, and moves nothing else but flags of the project's plans. |
| `Acceptances.Research.Refresh` | apps/api/src/agent/planning/staleness.py:63-136 | Every plan of the project gets the flag its acceptance implies, no other plan moves. |
| `Acceptances.RefreshSettles` | apps/api/src/agent/planning/staleness.py:10-19 | Derived, not latched: refreshing one project is enough for every plan's flag to be right. |
| `Acceptances.ExactlyOneIsCurrent` | apps/api/alembic/versions/0013_stage02_handshake.py:225-234 | After an acceptance the project has exactly one current row, the accepted one; other projects are untouched. |
| `Acceptances.AcceptedColumns` | apps/api/src/agent/api/routes_plan.py:1376-1422 | The accepted row column by column: a new or revived one says who accepted, when and how ready the run was, the current one accepted again changes its words alone, and the displaced one names its successor. |
| `Acceptances.TwoStatementsAreRefused` | apps/api/src/agent/api/routes_plan.py:1364-1379 | While a row is current, both statements one would try first are refused: inserting the new row, or pointing the old one at it. |
| `Acceptances.AcceptingAgainRevives` | apps/api/src/agent/api/routes_plan.py:1390-1422 | Accepting another run and then the first again makes the first current again, and the second names it. |
| `Acceptances.WithdrawingRevivesNothing` | apps/api/src/agent/api/routes_plan.py:247-251 | After a withdrawal the project has no current row. |
| `Acceptances.DeletionExactly` | apps/api/alembic/versions/0013_stage02_handshake.py:214-219 | With ON DELETE SET NULL under the partial index, a row no plan was built from can be deleted if and only if each row naming it would be its project's only current one. |
| `Acceptances.DeletionLeavesFlagsRightExactly` | apps/api/alembic/versions/0013_stage02_handshake.py:214-219 | The plans' flags stay right through a deletion if and only if no plan was built from a row that named the deleted one; those plans keep a flag that is no longer true. |
| `Acceptances.ADeletionLeavesAFlagWrong` | apps/api/alembic/versions/0013_stage02_handshake.py:214-219 | A second acceptance deleted: the first is current again, and the plan built from it goes on saying that its source was superseded. |
| `Acceptances.FourAcceptancesLeaveThat` | apps/api/src/agent/api/routes_plan.py:1353-1422 | What accepting run 1, run 2, run 1 again and run 3 leaves. |
| `Acceptances.ADeletionIsRefused` | apps/api/alembic/versions/0013_stage02_handshake.py:214-234 | In that state the first row cannot be deleted, though nothing was planned from it. |
| `Dag.Validate` | apps/api/src/agent/orchestrator/dag.py:132-156 | A graph is accepted if and only if every dependency is registered and no path leads back to where it began. |
| `Dag.StuckHoldsACycle` | apps/api/src/agent/orchestrator/dag.py:141-156 | When nothing is ready the rest holds a cycle. |
| `Dag.ReadySettles` | apps/api/src/agent/orchestrator/dag.py:141-156 | What has been taken so far is on no cycle. |
| `Dag.Closure` | apps/api/src/agent/orchestrator/dag.py:93-111 | A widened selection is exactly what the selection reaches over dependencies; it is refused if and only if it names an unknown node. |
| `Dag.Waves` | apps/api/src/agent/orchestrator/dag.py:113-128 | The waves split the selection, every dependency runs in an earlier wave and one of them in the wave just before; a valid graph is never stuck. |
| `Dag.WaveIsDepth` | apps/api/src/agent/orchestrator/dag.py:113-128 | A node runs in the wave of its depth, the longest chain of dependencies under it: no schedule could run it sooner. |

## Left out

- ConvergesWithinExactly: the run is live when its log begins, the server's record of it is the fold of its events, and a snapshot no older than the cursor may arrive at any time.
- ReplayedSuffixIsAbsorbed: a node's `finished_at` moves to the replayed completion, as the code has it.
- RunReduce: costs are whole micro-dollars, so the six decimals of the derived cost are exact and floating-point sums are not modelled; a string that spells no amount reads as not-a-number, a blank one as zero.
- RunStream: a position is the number of the event, where the server uses stream ids; trimming of the event stream at its maximum length, heartbeats, and React's batching of state updates; whether the run is live is read from the run on screen at each event.
- `describe`, log lines, query invalidation and the approval list of the console: presentation.
- CalcIsolation: annotations are taken as the set of names they mention, and references as a set with no order.
- RouteGuards: failures are compared as a set; the sorted order of their printing is not modelled.
- `check_calc_purity`, the import bans and `check_guardrails_purity.py`: single-branch facts.
- PdfText: the reader knows the escapes of section 7.3.4.2 except octal codes and the escaped line break, which the writer never produces.
- `scanned_pdf` and the browser driving around it.
- EnvFile: names are those the script saves; a value with a line break is not readable as one line and is shut out by `Savable`; the encoding of the file is not modelled.
- OthersUnchanged: a name made of a written name, an equals sign and more is not covered; its lines are removed as lines of the written name.
- Markets: letter case and white space are ASCII; HTML parsing is replaced by the list of links it yields, so attributes that are missing are empty.
- Proposal: currency and language tables are copied as data; `sources` and the wording of the findings are left out.
- PlanPayload: the envelope is whole cents and rounding is exact, ties to even; the estimated columns of a row and the rest of the account structure are constants and formatting.
- PctsAddUp: for a positive envelope; percentages of a negative one have no meaning to the caller.
- Memberships: locking, and the tables that cascade with a workspace; the eight-character tag used in renaming is a field of the workspace, and `lower` is ASCII.
- DowngradeUndoesUpgrade: from the one-workspace schema 0011 starts from.
- GuardedTable: one row at a time; columns no trigger, no key and no lemma reads are left out of the rows.
- PlanCanBeRewritten: the guards and unique keys of the table are asked, foreign keys into other tables are not; the same of the guideline, the package and the brief.
- ReleaserStaysExactlyWhile: which users the restricting keys of other tables name is an input.
- PinnedRuleset: deleting a project or a workspace, which removes both tables' rows together; which guidelines packages name is an input, and rows of other tables that cascade with a guideline are not modelled.
- The run CHECK constraints and the enum changes of 0013, 0016 and 0020: declarations.
- VersionLifecycle: concurrent releases; the advisory lock and the commit-time conflict are represented by one step at a time, and a row never changes project.
- PlanFreeze: gate decisions, the count of blocking issues and staleness come in with the request, and so do the sealed payload and markdown; audit rows are not modelled.
- WritePlan: the caller passes one of the three open statuses and version 0, as the plan nodes do.
- PackageRelease: the thirteen checks, re-assembly and the worker's file receipt come in as answers with the request.
- AssemblePackage: which package belongs to the run is found by the caller.
- Acceptances: the order of rows, audit rows, and the checks that decide whether a run may be accepted at all; the report id is left out of the row.
- Dag: the alphabetical order inside a wave, the messages of the errors, `descendants` and the registry; execution itself (`orchestrator/executor.py`) is not part of this model.
- OAuth consent, crawling, connectors, encryption, Redis, exports and every other screen: plumbing or presentation.
