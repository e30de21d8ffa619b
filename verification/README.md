# Models of the event engine's graph, protocol and codec logic

A Dafny model of the parts of this repository where a result depends on many steps or many
objects at once. Each file models one component in the form its code has: objects that update
their fields are classes, loops are loops, pure conversions are functions. A method is proved
against a specification function or a plain statement of its result, and the properties are
proved of every input, every graph and every run.

`dafny verify dfyconfig.toml` checks the whole project.

## What is modelled

**Composing proto modules** (`ModuleGraph`, `ModuleComposition`, `TypeRegistry`). Modules are
objects compared by identity in a heap that may hold cycles, diamonds, repeated dependencies and
several equal or unequal objects of one name. `Composition.Compose` is the explicit stack with its
shared maps and sets; it is proved against a recursive post-order traversal. Composition ends
because no object is expanded twice. It succeeds exactly when no reachable name has two differing
definitions and the reachable names have no cycle, and an error names a conflict or cycle that is
really there. The registry keeps four indexes of the same metadata; a rejected registration leaves
all of them as they were, and a composed registry is rejected exactly when two schemas clash.

**Release drafts** (`ReleaseDraft`, `ReleaseMarkdown`, `ReleaseRuns`). The aggregate's handlers, an
agent whose replies may be duplicated, delayed, reordered or lost, and the projection. What each
handler does is stated on the fields of the draft and of the event, apart from the decision function
the methods are proved against. The Markdown rendered from a proposal of single-line texts can be
read back; a text with a newline of its own can look like the next line. A run interleaves
arbitrary commands, agent answers and deliveries. The version never decreases, grows whenever the
draft changes and is constant inside one handler; a handler whose event lacks a required field fails
before anything is stored, as the repository validates what handlers produce; the request digest is injective and is
represented by the request; ids are present where the code reads them and optional otherwise;
assigning a freshly built message replaces the whole state.

**To-do items** (`TodoTasks`, `TodoRuns`). The aggregate, the list view and the assignee view, with
one first-in-first-out inbox per view and any interleaving of commands and deliveries. Each command
is stated on the fields, and followed to the row its list shows in any run. An
identifier is created once; the two lemmas on re-creation show exactly what depends on that.

**Board authorization** (`BoardAccess`). The recursive analysis that shares a mutable budget is
proved equal to an analysis without a budget, restricted to small trees. That analysis answers yes
exactly when the shape of the tree forces a filter for an allowed board to be true, and is proved
sound for a filter semantics in which everything but board equality is left open.

**Client protocols.** `HistoryPaging`: the paged reader over an append-only log whose server returns
any page that advances (page sizes are the server's choice) and whose cursors are stable.
`MarkdownSave`: the save loop cut at its awaits, composed with the release aggregate; replies may be
lost after the edit committed and edits may commit after their caller gave up. `SaveChain`: the
promise chain behind it, which runs one save at a time. `Text` describes
JavaScript text by UTF-16 units and what encoding and strict decoding keep of it.
`RefreshLoops`: the coalescing query loops of the statistics panel and of a mounted board.
`ObservationSession`: one subscription session.

**Codecs and dates.** `IntegerText`: canonical bounded integers, numbers as binary64 values
(negative zero is not told apart from zero), the bounds and forms of all integer fields, and enum
text. `AnyUrls`, `AnyRestore`,
`AnyRoundTrip`: restoring type URLs of packed messages at any depth; `AnyRestore` holds the loops of
the code, proved equal to a specification that looks at each property, item and row on its own.
Proto JSON is assumed to put the payloads listed in `customJsonTypes` under `value` and to merge
the others with `@type`, to leave out empty lists and maps, and to give back a message that differs
only in its URLs. `ReleaseAge`: UTC calendar arithmetic behind the age label, including what
`Date.UTC` does with years 0 to 99 and with dates out of range.

## Where the code does less than its wording suggests

- A save never completes when the buffer holds a lone surrogate or starts with a byte order mark:
  the confirmed Markdown decodes to something else, and the loop sends the same edit again for ever,
  also when the server accepts and stores every one (`MarkdownSaveRuns.UnencodableSaveGoesOn`,
  `MarkdownSaveRuns.AcceptedAgainAndAgain`). It completes exactly otherwise
  (`MarkdownEditor.AcceptedSaveCompletes`).
- After a failed edit, a later save can send a new edit without having read the draft again. This
  is possible exactly when a read older than the failure is still outstanding
  (`MarkdownSaveRuns.StaleSendIff`), and such a state is reached
  (`MarkdownSaveRuns.StaleSendReachable`). The server's version check still protects the draft
  (`MarkdownSaveRuns.AcceptedEditReplacesConfirmed`).
- Creating an existing to-do item again breaks its list always, and the assignee index exactly when
  the item is assigned (`TodoRuns.CreateKeepsListsIff`, `TodoRuns.CreateKeepsIndexIff`,
  `TodoRuns.RecreationBreaksViews`).
- `elapsedMonths` is one off for dates in the years 0 to 99 that reached the day of the month, and
  in the last month a Date can hold before it (`ReleaseAge.ElapsedMonths`,
  `ReleaseAge.UnreliableDates`).
- A second enum name for one number is accepted but printed as the name the number index holds. Enum
  text is accepted and printed back exactly when it is that name, or canonical text of a number no
  value declares (`IntegerText.EnumTextPrintedBackIff`, `IntegerText.AliasIsRenamed`).
- Retiring a generation does not by itself cancel a handle. A created handle has its cancellation
  requested exactly when the session was stopped, a stream failed, creation or activation completed
  after retirement, or activation failed before it (`ObservationSession.CancelRequestedIff`). So a
  session retired while observing keeps its handle, and so does one whose activation fails only
  after it was retired (`ObservationSession.RetirementAloneHolds`).

## Model

| member | source | states |
|---|---|---|
| ModuleComposition.ComposeAll | packages/core/src/index.ts:2207-2214 | composing all roots succeeds exactly when no two reachable objects of one name have different schemas or dependency names and no cycle of reachable names exists; an error is such a conflict or cycle; the result is the schemas of the recursive post-order, holds every schema of every reachable object, and then objects of one name have equal schemas and dependency names |
| ModuleComposition.Composition.Compose | packages/core/src/index.ts:2407-2460 | one root on the shared maps: it terminates, keeps earlier verified modules, reaches the order of the recursive visit, and fails only for two objects of one name with different schemas or dependency names, or for a cycle |
| ModuleGraph.SameModuleIff | packages/core/src/index.ts:2469-2488 | the comparison of two objects of one name is equality of their schemas and of their dependencies' names, in order |
| ModuleGraph.EverySchemaArrives | packages/core/src/index.ts:2424-2431 | a dependency-first order of composable modules contributes every schema of every reachable object, also of equal duplicates |
| ModuleGraph.SchemasInOrder | packages/core/src/index.ts:2424-2431 | the schemas of an order come module by module, each module's own in their order |
| ModuleGraph.MoreRootsAppend | packages/core/src/index.ts:2207-2214 | composing further roots only appends to the order of the earlier ones |
| ModuleGraph.DependenciesThenModule | packages/core/src/index.ts:2446-2458 | a composable module comes right after what its dependencies contribute, in the order it lists them |
| ModuleGraph.PathIrrelevant | packages/core/src/index.ts:2433-2435 | without a cycle the modules being visited have no influence on the order below another module |
| ModuleComposition.AppendKeeps | packages/core/src/index.ts:2424-2431 | popping an append frame keeps the traversal invariant and the order still to be reached |
| ModuleComposition.SkipKeeps | packages/core/src/index.ts:2442-2444 | skipping a verified module keeps the invariant and the order still to be reached |
| ModuleComposition.ExpandKeeps | packages/core/src/index.ts:2446-2458 | expanding a module, also an equal duplicate whose name was already visited, keeps the invariant |
| ModuleComposition.ExpandRemaining | packages/core/src/index.ts:2450-2458 | pushing the dependencies in reverse leaves the order still to be reached unchanged |
| ModuleComposition.CycleFound | packages/core/src/index.ts:2433-2435 | a name met again while visiting lies on a real cycle of reachable names, so equal duplicates never raise a false cycle |
| ModuleComposition.NoConflict | packages/core/src/index.ts:2437-2440 | comparing each object with the first definition is enough to exclude every conflicting pair of reachable objects |
| ModuleComposition.SettledIsComplete | packages/core/src/index.ts:2407-2460 | after all roots the order is dependency-first over all reachable names and the modules are composable |
| ModuleComposition.AgreementIsTransitive | packages/core/src/index.ts:2469-2488 | objects that agree with one definition agree with each other |
| ModuleGraph.OrderedIsAcyclic | packages/core/src/index.ts:2399-2400 | a graph with a dependency-first order has no cycle of names |
| ModuleGraph.DependsOnOwnName | packages/core/src/index.ts:2433-2435 | depending on an object of one's own name is a cycle of names |
| ModuleGraph.VisitAllSkipsPath | packages/core/src/index.ts:2450-2458 | a name on the current path is contributed only when its own frame is popped |
| TypeUrls.Derive | packages/core/src/index.ts:937-939 | a derived URL is the file prefix without its trailing slashes, a slash and the type name |
| TypeUrls.TrimSlashes | packages/core/src/index.ts:937-939 | exactly the trailing slashes are dropped from the prefix |
| TypeUrls.PrefixRebuildsUrl | packages/core/src/index.ts:2498-2509 | prefix, slash and type name of any resolved URL rebuild that URL |
| TypeUrls.DerivedUrl | packages/core/src/index.ts:937-957 | the derived URL is the file option without trailing slashes, or `type.googleapis.com`, followed by a slash and the type name |
| TypeUrls.ExplicitUrl | packages/core/src/index.ts:966-983 | an explicit URL is used as it is exactly when a non-empty prefix and a slash stand before the type name, and is malformed otherwise |
| TypeRegistry.Registry.constructor | packages/core/src/index.ts:2195-2199 | an empty registry is consistent and lists nothing |
| TypeRegistry.Registry.Register | packages/core/src/index.ts:2264-2310 | a schema is registered exactly when its URL resolves and no entry shares its name, URL or descriptor; the list grows by its metadata at the end; a rejection names the first obstacle in the order of the checks (malformed URL, explicit URL taken, name taken, derived URL taken, descriptor) and changes nothing |
| TypeRegistry.LookupsDecide | packages/core/src/index.ts:2268-2300 | three index lookups decide whether any listed entry clashes, and each reported error is the first obstacle |
| TypeRegistry.RegisterKeeps | packages/core/src/index.ts:2302-2309 | writing the four indexes keeps them holding the same metadata under unique keys, in registration order |
| TypeRegistry.Entries | packages/core/src/index.ts:2390-2392 | the listing is the name index read in insertion order |
| TypeRegistry.Registry.FindByFullName | packages/core/src/index.ts:2317-2319 | finds the listed entry of that name, and nothing exactly when none is listed |
| TypeRegistry.Registry.FindByTypeUrl | packages/core/src/index.ts:2326-2328 | finds the listed entry of that URL, and nothing exactly when none is listed |
| TypeRegistry.Registry.FindBySchema | packages/core/src/index.ts:2336-2338 | finds the listed entry of that schema, and nothing exactly when none is listed |
| TypeRegistry.NewSchema | packages/core/src/index.ts:2306-2306 | the schema index never overwrites an entry although it is not checked |
| TypeRegistry.From | packages/core/src/index.ts:2206-2217 | composing fails exactly for uncomposable modules; registering then fails exactly when two composed schemas clash; otherwise the list is the metadata of the post-order schemas |
| TypeRegistry.RejectionIsClash | packages/core/src/index.ts:2195-2199 | a schema rejected after others clashes with one of them |
| TypeRegistry.ClashRemains | packages/core/src/index.ts:2195-2199 | a clash among the first schemas is a clash of all |
| Text.RoundTrip | examples/release-notes/src/studio-flow.tsx:225-234 | encoding and strictly decoding a text returns it exactly when it has no lone surrogate and no leading byte order mark |
| Text.ReplacesLone | examples/release-notes/src/studio-flow.tsx:225-234 | encoding replaces exactly the lone surrogates, each where it stands |
| Text.DecodedEncoding | examples/release-notes/src/studio-flow.tsx:225-234 | what is read back is the text without its leading byte order mark and with its lone surrogates replaced |
| ReleaseEntities.ReleaseDraft.Open | examples/release-notes/src/domain/release-notes-domain.ts:123-139 | rejected after version zero; otherwise title, comparison and audience are the command's, Markdown is empty, and receipts, conversation and pending generation are cleared |
| ReleaseEntities.ReleaseDraft.ChangeInputs | examples/release-notes/src/domain/release-notes-domain.ts:151-171 | rejected for another version or repository; otherwise inputs are replaced, Markdown is emptied exactly when base, target or policy changed, and the pending generation is dropped |
| ReleaseEntities.ReleaseDraft.RequestGeneration | examples/release-notes/src/domain/release-notes-domain.ts:183-242 | an accepted request is acknowledged again, a different one under its id rejected; a new one needs the current version and the same conversation, becomes pending, adds its receipt last and emits the snapshot of the inputs |
| ReleaseEntities.ReleaseDraft.Edit | examples/release-notes/src/domain/release-notes-domain.ts:254-270 | rejected for another version, missing or undecodable Markdown; otherwise the Markdown is the command's and the pending generation is dropped |
| ReleaseEntities.ReleaseDraft.CancelGeneration | examples/release-notes/src/domain/release-notes-domain.ts:281-290 | the pending generation is dropped and reported canceled; any other id is reported ignored and changes nothing |
| ReleaseEntities.ReleaseDraft.PrepareExport | examples/release-notes/src/domain/release-notes-domain.ts:302-316 | rejected without Markdown or for another version; otherwise the stored bytes and version are emitted; nothing changes |
| ReleaseEntities.ReleaseDraft.OnProposed | examples/release-notes/src/domain/release-notes-domain.ts:326-345 | staged as rendered Markdown exactly for the pending generation and version with title and document present; otherwise reported discarded and nothing changes |
| ReleaseEntities.ReleaseDraft.OnFailed | examples/release-notes/src/domain/release-notes-domain.ts:355-368 | recorded exactly for the pending generation and version, which is dropped; otherwise silent and nothing changes |
| ReleaseDecisions.OpenMeans | examples/release-notes/src/domain/release-notes-domain.ts:123-139 | rejected exactly after version zero; otherwise every field is the command's or empty, and the event says so |
| ReleaseDecisions.ChangeInputsMeans | examples/release-notes/src/domain/release-notes-domain.ts:151-171 | rejected exactly for another version or repository; otherwise comparison and audience are the command's, Markdown is empty exactly when base, target or policy differ and the old one otherwise, nothing is pending, and the event carries the new values |
| ReleaseDecisions.ReplayMeans | examples/release-notes/src/domain/release-notes-domain.ts:186-194 | the first receipt of a generation decides its replay: the same request is acknowledged, another rejected, and nothing changes |
| ReleaseDecisions.RequestMeans | examples/release-notes/src/domain/release-notes-domain.ts:195-242 | a new generation is rejected exactly for another version, a missing conversation or another conversation; otherwise it becomes pending with the current version, its receipt is last, and the event carries the draft's own inputs and decoded Markdown |
| ReleaseDecisions.EditMeans | examples/release-notes/src/domain/release-notes-domain.ts:254-270 | rejected exactly for another version, missing or malformed Markdown; otherwise Markdown and event are the command's and nothing is pending |
| ReleaseDecisions.CancelMeans | examples/release-notes/src/domain/release-notes-domain.ts:281-290 | exactly the pending generation is dropped; any other is reported ignored |
| ReleaseDecisions.ExportMeans | examples/release-notes/src/domain/release-notes-domain.ts:302-316 | exported exactly for the current version with Markdown: that version and those bytes |
| ReleaseDecisions.ProposedMeans | examples/release-notes/src/domain/release-notes-domain.ts:326-345 | staged exactly for the pending generation and version with title and document: the document rendered under the draft's title; otherwise discarded |
| ReleaseDecisions.FailedMeans | examples/release-notes/src/domain/release-notes-domain.ts:355-368 | recorded exactly for the pending generation and version; otherwise nothing changes |
| ReleaseDecisions.AgentEchoes | examples/release-notes/src/domain/release-notes-domain.ts:383-410 | the agent answers under the generation and version of the request, and not at all when one is missing |
| ReleaseMarkdown.RenderReadsBack | examples/release-notes/src/domain/markdown.ts:32-40 | the rendered text of single-line titles, headings and entries is read back as the same title and document, section by section and entry by entry |
| ReleaseMarkdown.StoredMarkdownReadsBack | examples/release-notes/src/domain/markdown.ts:39-39 | the stored bytes decode to that text when it survives encoding |
| ReleaseMarkdown.SplitJoin | examples/release-notes/src/domain/markdown.ts:39-39 | splitting the joined lines at newlines gives the lines again |
| ReleaseMarkdown.TrimDropsBlankEnd | examples/release-notes/src/domain/markdown.ts:39-39 | cutting newlines at the end drops exactly the blank lines at the end |
| ReleaseDecisions.Decide | examples/release-notes/src/domain/release-notes-domain.ts:123-316 | no command makes the stored Markdown undecodable |
| ReleaseDecisions.Admit | examples/release-notes/src/domain/release-notes-domain.ts:326-368 | no agent reply makes the stored Markdown undecodable |
| ReleaseRuns.StepKeeps | examples/release-notes/src/domain/release-notes-domain.ts:123-368 | every command, agent answer and delivery keeps the invariant that ties receipts, log, pending generation, replies and projection together |
| ReleaseRuns.RunKeeps | examples/release-notes/src/domain/release-notes-domain.ts:123-410 | that invariant holds in every state of every run |
| ReleaseRuns.AtMostOneOutcome | examples/release-notes/src/domain/release-notes-domain.ts:281-368 | in every run each generation is staged, failed or canceled at most once |
| ReleaseRuns.ReceiptsAppendOnly | examples/release-notes/src/domain/release-notes-domain.ts:214-225 | in every run receipts only grow at the end and never repeat a generation |
| ReleaseRuns.ReplayChangesNothing | examples/release-notes/src/domain/release-notes-domain.ts:186-194 | an accepted request replayed at any later moment is acknowledged and changes nothing |
| ReleaseRuns.StagedMatchesItsRequest | examples/release-notes/src/domain/release-notes-domain.ts:326-345 | a proposal is staged only over the Markdown, comparison, audience and title its request event carried, and the staged Markdown is the proposal rendered under that title |
| ReleaseRuns.ContentOnlyByItsEvents | examples/release-notes/src/domain/release-notes-domain.ts:123-368 | between two moments of a run without an opening, input change, edit or staged proposal, title, comparison, audience and Markdown stay as they were |
| ReleaseRuns.HonestReplyAdmitted | examples/release-notes/src/domain/release-notes-domain.ts:326-367 | in every run an honest reply for the pending generation is never discarded: a proposal is staged, a failure recorded, and the decision has its required fields |
| ReleaseRuns.LoggedIsPublishable | packages/server/src/repository/repository.ts:7486-7489 | in every run all committed events have their required fields, so every request in the log carries title, comparison and audience |
| ReleaseRuns.PublishedFields | packages/server/src/repository/repository.ts:7486-7489 | the required fields, one by one |
| ReleaseRuns.ProposalGetsStaged | examples/release-notes/src/domain/release-notes-domain.ts:123-345 | a run in which a draft is opened, a generation requested and answered, and the proposal staged |
| ReleaseProjection.ReleaseDraftProjection.On | examples/release-notes/src/domain/release-notes-domain.ts:425-513 | each subscribed event changes the view as the specified fold does |
| ReleaseRuns.ProjectionTracks | examples/release-notes/src/domain/release-notes-domain.ts:425-513 | after every step of every run the folded view shows the aggregate's title, comparison, audience, Markdown, status and pending generation |
| ReleaseRuns.LaggingProjection | examples/release-notes/src/domain/release-notes-domain.ts:425-513 | a view that has handled only a prefix of the events shows the draft as it was at some earlier moment |
| TodoTasks.TaskAggregate.CreateTask | examples/todo/src/todo-domain.ts:119-145 | creating replaces the state and emits creation, then assignment when it starts assigned |
| TodoTasks.TaskAggregate.RenameTask | examples/todo/src/todo-domain.ts:154-175 | the method does what the decision function says; `TodoTasks.RenameMeans` states it: the title becomes the command's and a rename with that title and the list is emitted; nothing else changes |
| TodoTasks.TaskAggregate.CompleteTask | examples/todo/src/todo-domain.ts:185-206 | rejected when already complete; otherwise complete, and a completion naming the list is emitted |
| TodoTasks.TaskAggregate.ReopenTask | examples/todo/src/todo-domain.ts:216-237 | rejected when open; otherwise open, and a reopening naming the list is emitted |
| TodoTasks.TaskAggregate.AssignTask | examples/todo/src/todo-domain.ts:247-263 | assigning emits an assignment or, when someone else had it, a reassignment naming both |
| TodoTasks.TaskAggregate.ReassignTask | examples/todo/src/todo-domain.ts:273-287 | reassigning needs a different current assignee and names both |
| TodoTasks.TaskAggregate.UnassignTask | examples/todo/src/todo-domain.ts:297-308 | unassigning needs an assignee and names it |
| TodoTasks.CreateMeans | examples/todo/src/todo-domain.ts:119-145 | fails exactly without a list; otherwise title, list and assignee are the command's, the item is open, and creation is emitted, then assignment exactly when it starts assigned |
| TodoTasks.RenameMeans | examples/todo/src/todo-domain.ts:154-175 | fails exactly without a list; otherwise the title is the command's in state and event and all else is kept |
| TodoTasks.CompleteMeans | examples/todo/src/todo-domain.ts:185-206 | rejected exactly when complete; otherwise complete, with all else kept |
| TodoTasks.ReopenMeans | examples/todo/src/todo-domain.ts:216-237 | rejected exactly when open; otherwise open, with all else kept |
| TodoTasks.AssignMeans | examples/todo/src/todo-domain.ts:247-263 | each rejection occurs exactly in its state; otherwise the assignee is the command's, and the event names the previous one exactly when there was one |
| TodoTasks.ReassignMeans | examples/todo/src/todo-domain.ts:273-287 | each rejection occurs exactly in its state; otherwise the assignee is the command's and the event names both |
| TodoTasks.UnassignMeans | examples/todo/src/todo-domain.ts:297-308 | each rejection occurs exactly in its state; otherwise nobody is assigned and the event names the former assignee |
| TodoTasks.TaskListProjection.OnTaskCreated | examples/todo/src/todo-domain.ts:367-389 | a created item becomes the last row and is counted open |
| TodoTasks.TaskListProjection.OnTaskChanged | examples/todo/src/todo-domain.ts:397-421 | renaming and assignment events rewrite the rows of one item and leave the counter |
| TodoTasks.TaskListProjection.OnTaskCompletion | examples/todo/src/todo-domain.ts:429-487 | completing and reopening rewrite the rows of one item and count the open rows again |
| TodoTasks.TaskAssigneeProjection.OnTaskAssigned | examples/todo/src/todo-domain.ts:568-579 | an assignment appends the item to its user's view |
| TodoTasks.TaskAssigneeProjection.OnTaskUnassigned | examples/todo/src/todo-domain.ts:587-629 | an unassignment removes every entry of the item |
| TodoTasks.TaskAssigneeProjection.OnTaskReassigned | examples/todo/src/todo-domain.ts:597-611 | a reassignment appends for the new user and removes for the old one |
| TodoRuns.ReadModelsAgree | examples/todo/src/todo-domain.ts:675-685 | at every moment of every run: draining a user's inbox gives exactly that user's items, each once; draining a list's inbox gives its items in creation order, equal to the aggregates; every list view counts its own open rows |
| TodoRuns.CommandsAreShown | examples/todo/src/todo-domain.ts:118-487 | in every run, right after any command, the drained list shows its item as the one row of its identifier, with the fields the command asked for: the title of a creation or renaming, completed or open, the assignee or none |
| TodoRuns.SubmittedIsShown | examples/todo/src/todo-domain.ts:118-487 | whatever an accepted command stores is the only row of its identifier in the drained list |
| TodoRuns.DrainedListShows | examples/todo/src/todo-domain.ts:367-553 | at every moment of every run the drained list has one row for each of its items, in creation order and as the aggregate has it, no other rows, and as open count the number of rows not completed |
| TodoRuns.OpenCountIsOpen | examples/todo/src/todo-domain.ts:429-487 | the count is the number of positions whose row is not completed |
| TodoRuns.StepKeeps | examples/todo/src/todo-domain.ts:118-308 | every command and every delivery keeps index, lists and counters |
| TodoRuns.SubmitKeepsIndex | examples/todo/src/todo-domain.ts:681-685 | the events of one command, routed to old and new assignees, keep each user's drained view correct |
| TodoRuns.ServeKeepsViews | examples/todo/src/todo-domain.ts:675-685 | serving an inbox does not change what any view shows once drained |
| TodoRuns.CounterKept | examples/todo/src/todo-domain.ts:367-553 | the open counter equals the open rows after any event, also where the code does not recount |
| TodoRuns.CreateKeepsIndexIff | examples/todo/src/todo-domain.ts:119-145 | creating keeps the assignee index exactly when the identifier is not currently assigned |
| TodoRuns.CreateKeepsListsIff | examples/todo/src/todo-domain.ts:119-145 | creating keeps the list views exactly when the identifier is new |
| TodoRuns.RecreationBreaksViews | examples/todo/src/todo-domain.ts:119-145 | a reachable state in which any re-creation of an assigned item breaks a list view and the index |
| BoardFilters.JoinedBoard | examples/message-board/app/src/board-access.ts:262-262 | the joined field path reads board only for the path that is that one name |
| BoardFilters.MatchesIff | examples/message-board/app/src/board-access.ts:256-270 | a simple filter matches exactly when it asks for the one field board to equal an allowed board |
| BoardFilters.GuaranteesIffForced | examples/message-board/app/src/board-access.ts:229-249 | the analysis answers yes exactly when no choice of true simple filters makes the tree true without making a filter for an allowed board true |
| BoardFilters.AuthorizedIff | examples/message-board/app/src/board-access.ts:207-220 | a target is authorized exactly when it is the board view with at most eight composites and sixteen simple filters, counted at any depth, and the shape of one tree forces an allowed board |
| BoardFilters.CountsAll | examples/message-board/app/src/board-access.ts:234-236 | the budget counts every composite and every simple filter at any depth |
| BoardFilters.GuaranteeConfines | examples/message-board/app/src/board-access.ts:229-249 | a guaranteed subtree lets only rows of allowed boards through, whatever its other filters mean |
| BoardFilters.AuthorizedConfines | examples/message-board/app/src/board-access.ts:201-206 | every row satisfying all filters of an authorized target has an allowed board |
| BoardAccess.GuaranteesAuthorizedBoard | examples/message-board/app/src/board-access.ts:229-249 | the budget ends below zero exactly when the tree is larger than it; otherwise it falls by the tree's size and the answer is that of the analysis without a budget |
| BoardAccess.AuthorizesBoard | examples/message-board/app/src/board-access.ts:207-220 | true exactly for view targets with at most 8 composite and 16 simple filters in all, one of which guarantees an allowed board |
| BoardAccess.AnswerIsExact | examples/message-board/app/src/board-access.ts:237-248 | combining the collected answers by some or every is the analysis of the operator |
| HistoryLog.HistoryMerge | examples/release-notes/src/studio-history-record.ts:103-114 | merging puts new records before displayed ones and keeps the first entry of each identity |
| HistoryLog.KeepsFirstPlaces | examples/release-notes/src/studio-history-record.ts:103-114 | of each identity the first entry stays, and the kept entries stand in their old order |
| HistoryLog.KeepsEachKeyOnce | examples/release-notes/src/studio-history-record.ts:103-114 | no identity is lost and none is kept twice |
| HistoryLog.MergeStretches | examples/release-notes/src/studio-history-record.ts:103-114 | merging two overlapping or touching stretches of the log is one stretch without gap or repetition |
| HistoryPaging.ReadPages | examples/release-notes/src/studio-history-section.tsx:86-102 | the walk ends; what it read is one stretch of the grown log from its start, down to a known record or the oldest one; it reads nothing exactly when one of its requests failed |
| HistoryPaging.HistorySection.AcceptPage | examples/release-notes/src/studio-history-section.tsx:107-128 | items become the merge in the direction read; the cursor moves only for older pages and first loads |
| HistoryPaging.HistorySection.Read | examples/release-notes/src/studio-history-section.tsx:133-159 | a page read is accepted exactly when no other read is under way, no request failed and the section is still open, and an error is shown exactly when a request failed and it is open; accepting merges the page in its direction, loses nothing displayed and nothing read, keeps the list one gap-free, repetition-free stretch of the log, and a refresh reaches at least the records present when it began; the cursor moves only for older pages and first loads and lies in the stretch; a second read only notes a refresh |
| HistoryPaging.MergedKeys | examples/release-notes/src/studio-history-section.tsx:112-125 | accepting a page loses no displayed record and no record read, in either direction |
| HistoryPaging.OlderKeeps | examples/release-notes/src/studio-history-section.tsx:124-126 | an older page below the cursor extends the stretch downwards |
| HistoryPaging.RefreshKeeps | examples/release-notes/src/studio-history-section.tsx:96-101 | a refresh that met a known record or the oldest one joins the list without a gap |
| MarkdownEditor.MarkdownSaver.Flush | examples/release-notes/src/studio-flow.tsx:261-265 | flushing chains one more save behind the pending one |
| MarkdownEditor.MarkdownSaver.Start | examples/release-notes/src/studio-flow.tsx:224-234 | a chained save reads the draft first after an uncertain failure, otherwise goes to the loop test |
| MarkdownSaveRuns.SentIsDecided | examples/release-notes/src/studio-flow.tsx:221-238 | an edit is sent exactly while the confirmed Markdown does not decode to the buffer; it carries the confirmed version and the encoded buffer, and is the command the server decides |
| MarkdownSaveRuns.StartReadsFirst | examples/release-notes/src/studio-flow.tsx:217-238 | a save that starts while the version is uncertain reads first, exactly then; otherwise it begins with the loop test |
| MarkdownEditor.MarkdownSaver.OnReconciled | examples/release-notes/src/studio-flow.tsx:253-260 | the read replaces the record, clears the uncertainty and goes to the loop test |
| MarkdownEditor.MarkdownSaver.OnEdited | examples/release-notes/src/studio-flow.tsx:239-242 | an accepted edit becomes the record and the loop test is repeated |
| MarkdownEditor.MarkdownSaver.OnEditFailed | examples/release-notes/src/studio-flow.tsx:235-273 | a failed edit ends the save, marks the version uncertain and asks for a background read |
| MarkdownEditor.MarkdownSaver.OnExportFailed | examples/release-notes/src/studio-flow.tsx:1032-1034 | a failed export marks the version uncertain and asks for a background read |
| MarkdownEditor.AcceptedSaveCompletes | examples/release-notes/src/studio-flow.tsx:225-241 | with nobody typing, the first accepted edit completes the save exactly when the buffer survives encoding |
| MarkdownEditor.UnencodableNeverSaved | examples/release-notes/src/studio-flow.tsx:225-241 | otherwise the same edit is sent again after any number of acceptances |
| MarkdownSaveRuns.UnencodableSaveGoesOn | examples/release-notes/src/studio-flow.tsx:225-241 | composed with the server: while a text that does not survive encoding is being saved, the save goes on through every run in which nobody types and no edit fails |
| MarkdownSaveRuns.AcceptedAgainAndAgain | examples/release-notes/src/studio-flow.tsx:225-241 | from an opened editor the server can accept and store such a text any number of times and the save still awaits the same edit |
| MarkdownSaveRuns.StepKeeps | examples/release-notes/src/studio-flow.tsx:217-275 | typing, saving, answers, losses and server commits in any order keep every snapshot held or sent genuine |
| MarkdownSaveRuns.RunKeeps | examples/release-notes/src/studio-flow.tsx:217-275 | that invariant holds in every state of every run that begins with the server's own draft or none |
| MarkdownSaveRuns.AcceptedEditReplacesConfirmed | examples/release-notes/src/domain/release-notes-domain.ts:254-269 | whenever the server accepts an edit of the editor, awaited or abandoned, it replaces exactly the version and Markdown that were confirmed when the edit was sent |
| MarkdownSaveRuns.CompletedSaveIsConfirmed | examples/release-notes/src/studio-flow.tsx:225-243 | a completed save leaves a genuine server snapshot equal to the buffer |
| MarkdownSaveRuns.RereadsFirst | examples/release-notes/src/studio-flow.tsx:224-238 | an edit after a failure is prepared from a draft requested after it, provided no edit fails while another read is outstanding |
| MarkdownSaveRuns.FailureLeavesClean | examples/release-notes/src/studio-flow.tsx:235-238 | a failure leaves only fresh reads behind exactly when no read was outstanding |
| MarkdownSaveRuns.StaleSendIff | examples/release-notes/src/studio-flow.tsx:253-260 | after a failure a stale edit can be sent exactly when an older read is still outstanding |
| MarkdownSaveRuns.StaleSendReachable | examples/release-notes/src/studio-flow.tsx:217-275 | a run of one typed text, two failed edits and no other failure from an opened editor to a state where a stale edit can be sent, the read of the first failure being still outstanding |
| SaveChain.OneSaveRuns | examples/release-notes/src/studio-flow.tsx:263-265 | of the chained saves at most one runs, those before it have settled and those after it wait |
| SaveChain.StartPossibleIff | examples/release-notes/src/studio-flow.tsx:263-265 | exactly the first waiting save can start, and only when none runs |
| SaveChainRuns.RunIsHistory | examples/release-notes/src/studio-flow.tsx:217-275 | every run of the editor is a history of that chain: it awaits an edit or a read only while a save runs, and its counter is the number of saves waiting |
| StatisticsRead.StatsRead.OnRefresh | examples/message-board/web/src/board-statistics.tsx:119-124 | a refresh marks the read dirty and starts a loop only when none is running |
| StatisticsRead.StatsRead.OnEnded | examples/message-board/web/src/board-statistics.tsx:78-104 | an ended query of a retired generation changes nothing; a current one shows its answer and repeats while dirty; a finished loop gives up its controller |
| StatisticsRead.StatsRead.OnRetire | examples/message-board/web/src/board-statistics.tsx:127-132 | cleanup advances the generation, aborts the loop last started and clears the flags |
| StatisticsRead.NoRefreshLost | examples/message-board/web/src/board-statistics.tsx:71-133 | at every moment at most one loop of the current generation runs, and every refresh of it is covered by a query begun no earlier, noted for the next one, or answered |
| StatisticsRead.OnlyCurrentShown | examples/message-board/web/src/board-statistics.tsx:89-96 | an answer is shown exactly while its generation is current: a response as the value and ready, a failure as an error over the old value; it covers no less than the one before; nothing else changes what is shown |
| StatisticsRead.RepeatsIffAsked | examples/message-board/web/src/board-statistics.tsx:71-133 | a loop queries again exactly when it is current and a refresh came after its query began |
| StatisticsRead.OnlyRetiredAborted | examples/message-board/web/src/board-statistics.tsx:78-132 | in every run a query is aborted exactly when its generation is retired |
| BoardSync.BoardRows.Refresh | examples/message-board/web/src/board-sync.ts:98-105 | a request is counted and starts a loop only when none is in flight |
| BoardSync.BoardRows.OnAnswered | examples/message-board/web/src/board-sync.ts:118-132 | an answer replaces the rows only without a later update; the loop repeats while requests were added |
| BoardSync.BoardRows.OnDelivery | examples/message-board/web/src/board-sync.ts:137-170 | resynchronizations and usable updates replace the rows and count; a usable one also re-requests a query in flight; an unusable one refreshes |
| BoardSync.BoardRows.OnUnmount | examples/message-board/web/src/board-sync.ts:190-197 | leaving retires the loop, invalidates its query and aborts it |
| BoardSync.NoRequestLost | examples/message-board/web/src/board-sync.ts:98-133 | while mounted at most one loop runs, and when none runs every request has been served by a query begun no earlier |
| BoardSync.NoStaleRows | examples/message-board/web/src/board-sync.ts:120-125 | a reply changes the rows only while mounted and if no live update landed since its query began |
| BoardSync.RowsShown | examples/message-board/web/src/board-sync.ts:98-197 | after every event: a live update shows its rows, an answer shows its rows exactly when mounted and without a later update, and nothing else changes the rows |
| BoardSync.RepeatsIffAsked | examples/message-board/web/src/board-sync.ts:98-197 | a loop ends with its answer exactly when the board was left or nothing asked for another read since its query began |
| BoardSync.OnlyLeavingAborts | examples/message-board/web/src/board-sync.ts:102-197 | in every run the query in flight is aborted exactly when the board has been left |
| BoardSync.DroppedOnlyAfterResync | examples/message-board/web/src/board-sync.ts:120-155 | the last answer of a loop is dropped only when a resynchronization replaced the rows meanwhile |
| ObservationSession.Observation.Start | packages/client-react/src/index.ts:553-559 | starting publishes connecting and creates a handle only when not retired |
| ObservationSession.Observation.OnCreated | packages/client-react/src/index.ts:560-566 | a created handle is activated, or canceled when the session was retired meanwhile |
| ObservationSession.Observation.OnActivated | packages/client-react/src/index.ts:566-572 | an activated handle is observed, or canceled when the session was retired meanwhile |
| ObservationSession.Observation.OnStartFailed | packages/client-react/src/index.ts:573-578 | a failed start is reported and canceled only while live |
| ObservationSession.Observation.OnStop | packages/client-react/src/index.ts:607-610 | stopping retires the session and cancels its handle |
| ObservationSession.Observation.OnNotice | packages/client-react/src/index.ts:452-457 | deliveries and lifecycle notices are published only while live |
| ObservationSession.Observation.OnStreamFailed | packages/client-react/src/index.ts:458-467 | a failed stream is reported while live and cancels the handle |
| ObservationSession.Observation.CancelHandle | packages/client-react/src/index.ts:616-625 | the first request for a handle is memoised and schedules one call of it; later requests and requests without a handle change nothing |
| ObservationSession.Observation.OnMicrotask | packages/client-react/src/index.ts:618-619 | the scheduled call reaches the handle |
| ObservationSession.CalledAtMostOnce | packages/client-react/src/index.ts:616-625 | in every run, however often cancellation is requested, calls made and scheduled are at most one together, and none is made without a handle and a request |
| ObservationSession.CancelRequestedIff | packages/client-react/src/index.ts:553-625 | in every run a created handle has its cancellation requested exactly when the session was stopped, a stream failed, creation or activation completed after retirement, or activation failed before retirement |
| ObservationSession.HandleCalledIff | packages/client-react/src/index.ts:553-625 | the handle has been called exactly when one of these happened and the scheduled call has run |
| ObservationSession.StopLeadsToCall | packages/client-react/src/index.ts:607-625 | after a stop the call of a created handle is possible until it was made, and then it has been called once |
| ObservationSession.SettlesAfterCall | packages/client-react/src/index.ts:562-570 | a start that waits for its cancellation goes on only after the handle was called |
| ObservationSession.NoHandleLeaks | packages/client-react/src/index.ts:553-610 | from the moment the session is stopped, a created handle has exactly one call made or scheduled, however late it was created |
| ObservationSession.SilentAfterRetirement | packages/client-react/src/index.ts:444-503 | after retirement no delivery, lifecycle notice, connection or error is published in any continuation |
| ObservationSession.StepShows | packages/client-react/src/index.ts:444-578 | in every run each delivery, lifecycle notice, connection or failure of a live session is published at once and no other, and starting goes on exactly while the session is live |
| ObservationSession.RetirementAloneHolds | packages/client-react/src/index.ts:543-602 | two runs in which a retired session keeps its handle: observed when retired, and retired before its activation fails |
| IntegerText.PrintIsCanonical | packages/core/src/index.ts:1625-1635 | printed integers have the accepted form and denote the integer printed |
| IntegerText.ValueIsDecimal | packages/core/src/index.ts:1625-1635 | canonical text denotes the sum of its digits' decimal weights, negated after a minus sign |
| IntegerText.ReprintCanonical | packages/core/src/index.ts:1625-1635 | text of the accepted form is what its value prints as |
| IntegerText.NumberIsSafeIff | packages/core/src/index.ts:1595-1596 | converting to a number is exact in the safe range and never gives a safe number for an unsafe integer |
| IntegerText.NearestRounds | packages/core/src/index.ts:1595-1596 | conversion keeps whole units of the last significant bit, is off by at most half of one, and breaks ties to an even count |
| IntegerText.UnitIsPower | packages/core/src/index.ts:1595-1596 | that unit is the power of two that leaves 53 significant bits |
| IntegerText.PrintThenParse | packages/core/src/index.ts:1580-1616 | every value a field can print is parsed back, for all bounds and representations |
| IntegerText.ParseThenPrint | packages/core/src/index.ts:1580-1616 | for arbitrary bounds an accepted text is printed back exactly unless it stands for an unsafe integer in number form |
| IntegerText.FieldRoundTrip | packages/core/src/index.ts:1391-1405 | for every integer field, whatever its kind and form, a value prints as a text exactly when the text parses to the value |
| IntegerText.FieldAccepts | packages/core/src/index.ts:1391-1405 | for each kind of field, the exact bounds within which an integer's text is accepted, and whether it becomes a number, a big integer or text |
| IntegerText.FieldRefuses | packages/core/src/index.ts:1625-1635 | no field accepts text that is not canonical |
| IntegerText.FieldCoversRange | packages/core/src/index.ts:1391-1405 | every integer in a field's range has a value in the field's form, and its one text |
| IntegerText.UnsafeIntegerIsLost | packages/core/src/index.ts:1592-1613 | a remark on the helper: bounds beyond the safe range, which no number field has, would accept a text that is never printed again |
| IntegerText.TextIsUnique | packages/core/src/index.ts:1625-1635 | each integer in range has exactly one accepted text, and no other integer has one |
| IntegerText.EnumRoundTrip | packages/core/src/index.ts:1335-1369 | every 32-bit enum number, named, aliased or unnamed, is printed and parsed back |
| IntegerText.EnumAccepts | packages/core/src/index.ts:1335-1369 | a declared name stands for its own number; any other text is accepted exactly as the canonical form of a 32-bit number |
| IntegerText.EnumTextPrintedBackIff | packages/core/src/index.ts:1335-1369 | text is accepted and printed back exactly when it is the declared name the number index holds, or the canonical text of a 32-bit number that no value declares |
| IntegerText.AliasIsRenamed | packages/core/src/index.ts:1335-1369 | an enum whose second name for a number comes back as the first |
| AnyRestore.RestoreMessage | packages/core/src/index.ts:1215-1232 | descending into one message by kind of schema equals the specification |
| AnyRestore.RestoreFields | packages/core/src/index.ts:1225-1231 | the loop over descriptor fields, updating one property at a time, equals restoring each property on its own |
| AnyRestore.RestorePacked | packages/core/src/index.ts:1241-1253 | the URL is taken from the JSON, its type is looked up under the name after the last slash (`AnyUrls.AfterLastSlash`), and the payload re-encoded only when something in it changed |
| AnyUrls.AfterLastSlash | packages/core/src/index.ts:1246-1246 | behind any prefix and a slash a name without slashes is looked up as it is, and so is a URL without a slash |
| AnyUrls.NamedTypeIsFound | packages/core/src/index.ts:1246-1248 | a URL that ends in a type name is looked up under that name |
| AnyUrls.UrlComesFromJson | packages/core/src/index.ts:1241-1253 | the URL becomes the one in the JSON, also of an unknown type; nothing happens without one; a payload of a known type that does not decode throws |
| AnyUrls.ThrowsByParts | packages/core/src/index.ts:1215-1232 | a message throws exactly when one of its properties does |
| AnyUrls.DeclaredNameRestores | packages/core/src/index.ts:1227-1227 | JSON under a field's declared name restores the same as under its JSON name |
| AnyRestore.RestoreField | packages/core/src/index.ts:1263-1288 | singular, list and map values are descended into, everything else stays |
| AnyRestore.RestoreItems | packages/core/src/index.ts:1268-1274 | the loop over JSON items equals restoring each message with the item at its index |
| AnyRestore.RestoreRows | packages/core/src/index.ts:1275-1286 | the loop over JSON entries equals restoring each row with the entry under its key |
| AnyRestore.Selected | packages/core/src/index.ts:1296-1301 | a field reads its own property, or its oneof's when it is the selected case |
| AnyUrls.RestoreTells | packages/core/src/index.ts:1206-1232 | restoring answers true exactly when some type URL at any depth changed, changes nothing else, and changes nothing at all when it answers false |
| AnyUrls.PayloadTells | packages/core/src/index.ts:1250-1252 | keeping packed bytes when no payload URL changed is safe, and new bytes differ when one did |
| AnyRoundTrip.RoundTrip | packages/core/src/index.ts:1160-1166 | for messages whose URLs are registered plain type names behind any prefix, and for every rewriting of URLs by the decoder, restoring from a message's own JSON gives the message back at any nesting, and answers whether the decoder changed it |
| AnyRoundTrip.NestedRestored | packages/core/src/index.ts:1241-1253 | a packed message inside a packed message: both URLs come back for any prefix and any wrong URL |
| AnyRoundTrip.CustomIsOwnJson | packages/core/src/index.ts:1187-1204 | exactly the listed types of the protobuf library have a JSON form of their own |
| AnyRoundTrip.RestoresMessage | packages/core/src/index.ts:1215-1253 | the same for a message inside another, and for a payload merged with its type key: the original comes back without an error |
| AnyRoundTrip.RestoresProp | packages/core/src/index.ts:1226-1230 | each property is restored from the JSON under its JSON name, and a property left out or null is not harmed by the fallback to the field name |
| AnyRoundTrip.NullIsDynamic | packages/core/src/index.ts:1227-1227 | a null field can pick up another field's JSON only where it is never descended into |
| ReleaseAge.ElapsedMonths | examples/release-notes/src/studio-history-record.ts:119-138 | for dates in order the code returns the specified count, which is the elapsed months exactly under the stated condition on the two dates |
| ReleaseAge.CountedIsElapsed | examples/release-notes/src/studio-history-record.ts:119-138 | the count is the elapsed months exactly when `to` is not in the years 0 to 99 having reached the day, nor in September 275760 before it |
| ReleaseAge.CountedOffByOne | examples/release-notes/src/studio-history-record.ts:119-138 | in those two cases it is one too small and one too large |
| ReleaseAge.FirstIsClosed | examples/release-notes/src/studio-history-record.ts:124-135 | month lengths added up month by month agree with the formula for days of years and months |
| ReleaseAge.LastDayMissing | examples/release-notes/src/studio-history-record.ts:124-124 | the last day of the month is no number only in September 275760 |
| ReleaseAge.ElapsedIsLargest | examples/release-notes/src/studio-history-record.ts:116-118 | an elapsed count is the largest number of calendar months that can be added without passing `to` |
| ReleaseAge.DayZeroIsLast | examples/release-notes/src/studio-history-record.ts:124-124 | day zero of the next month is the last day of the month |
| ReleaseAge.AnniversaryPlace | examples/release-notes/src/studio-history-record.ts:125-136 | the compared instant is after `to` exactly when years 0 to 99 moved it or the day of the month is not reached |
| ReleaseAge.TimeOrder | examples/release-notes/src/studio-history-record.ts:136-136 | instants compare by month, day and time of day |
| ReleaseAge.UnreliableDates | examples/release-notes/src/studio-history-record.ts:121-136 | two pairs of dates for which the count is wrong |
| ReleaseAge.HistoryAge | examples/release-notes/src/studio-history-record.ts:147-162 | the label tells the true age, days from 1 to 30 and months by the calendar, exactly unless the month count is unreliable for dates in different months |
| ReleaseAge.MonthIsShort | examples/release-notes/src/studio-history-record.ts:156-157 | less than a calendar month is at most thirty whole days |

## Left out

- Protobuf binary and JSON encoding, SHA-256 and float text: library or engine behaviour; bytes carry the message they encode, or the text a strict decoder reads.
- Delivery, inboxes, storage, transactions and repositories: represented by first-in-first-out inboxes and by the rules on versions stated above.
- AnyRestore.RestoreMessage: messages are values and the loops update a local copy, because the aliasing of nested JavaScript objects is never observed; bytes are decoded only as the type they encode.
- AnyRoundTrip.RoundTrip: packed bytes are those the encoder writes, since JSON keeps neither unknown fields nor other encodings of a message.
- AnyRoundTrip.Encode: payloads of the protobuf library's own package outside `customJsonTypes` are merged with the type key like any other.
- IntegerText.PrintThenParse: negative zero is the same number as zero; scalar kinds other than integers are not modelled.
- ReleaseAge.HistoryAge: parsing of the creation date and the words of the label; the label is a value with its numbers.
- TypeUrls.Derive: the fallback prefix option and its validation, which no registration uses.
- ReleaseEntities.ReleaseDraft.Open: draft identifiers, which every message of one draft repeats.
- ReleaseRuns.StepKeeps: commands are not validated before they reach the aggregate, which only adds runs; the agent's model call is any result; its own state and failure logging only add copies.
- TodoTasks.TaskListProjection.OnTaskChanged: the four handlers that observe rejections change nothing.
- HistoryPaging.HistorySection.Read: the effect that repeats a noted refresh, the count of new records, scrolling and busy flags; the older action is taken only while a cursor is shown.
- MarkdownSaveRuns.StepKeeps: the timer, the status text, the effect that adopts a draft from outside and `acceptSnapshot`; one draft is edited. A failed export may come at any moment, since the export itself is not modelled.
- BoardSync.NoStaleRows: rendering between React states and a change of board inside one mounted view, which the component key excludes.
- StatisticsRead.NoRefreshLost: the topic subscription that asks for refreshes.
- ObservationSession.SilentAfterRetirement: the first "connecting" notice, which is published before the retirement check.
- BoardAccess.AuthorizesBoard: identity, origin and tenant checks around the target check.
- The orders and projects examples and the message board projections: their handlers copy fields of commands and events into entities; the to-do items and release drafts modelled here carry the rules that span several steps.
- Node discovery, desktop authentication and signal handling: single flags and timers, whose behaviour one method body shows.
- Proto tools and deployment entry points: they validate files on disk and read the process environment, which are not part of this model.
