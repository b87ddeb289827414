# Nebula: a verified model of the server's state and of its algorithmic cores

Nebula keeps entities, context items, jobs, agents, files, logs and protocols in PostgreSQL tables, joins them by
typed relationships, and lets triggers maintain what must always hold: mirrored edges of symmetric types, archived
statuses that spread to incident edges, and an audit log of every row change. Around that database sit an approval
queue, agent enrollment, guarded edge creation, entity de-duplication, a rate limiter, CSV export and import, a
deterministic semantic ranking, a visibility filter on graph search, and a command line tool that starts and stops
the API process. This project models each of them and proves what they promise, for every input, every run or every
interleaving of steps. `dafny verify dfyconfig.toml` checks all of it.

## How the model is laid out

- `Graph`, `GraphInvariants`, `GraphTheorems`, `GraphEffects`, `GraphDatabase`: the tables as a value, what one SQL statement does to
  them once all its triggers have run, the invariants of every run, and a class `Database` whose methods are the
  triggers themselves, nested as in the migrations and proved to have exactly that effect. The order in which a bulk
  UPDATE visits its rows is left to the planner: it is an arbitrary permutation.
- `Revert`: restoring an entity from an audit entry, as an ordinary statement of the same database.
- `CycleGuard`, `CycleLeak`, `CycleRace`: edge creation behind the recursive path query; what the guard excludes, and
  exactly when a cycle gets past it, by its kinds of node or by overlapping creates.
- `GraphSearch`: the two undirected searches, which enumerate simple paths, against all walks.
- `ApprovalQueue`, `ApprovalBatch`, `EntityDedup`, `Enrollment`, `EnrollmentTheorems`: transactions as interleaved steps (lock, read, check, write, commit or
  roll back). Advisory locks are held to the end of their transaction; hash functions are arbitrary.
- `RateLimit`: the wrapper over the shared buckets, against a limiter that never forgets.
- `Csv`, `CsvRoundTrip`, `CsvTheorems`, `CsvLineEnds`: the quote-doubling printer and the state machine of Python's `csv` reader.
- `Semantic`, `Products`, `Ranking`: accumulation of the hashed vector, cosine similarity over the reals, top-k.
- `Visibility`, `GraphVisibility`: path decoding and the scope filter of `graph_neighbors`, on its own and on top of
  the search.
- `Service`, `ServiceRace`: `nebula start` and `nebula stop` one after the other, and overlapping starts.

## Where the code does not do what is promised of it

The model follows the code. In each of these cases the lemma named last says exactly when the promise holds.

- An UPDATE of a symmetric edge outside a status cascade runs the sync trigger on edge and mirror in turn until the
  server's stack is exhausted, so such an edge can never be updated (`GraphTheorems.SymmetricEdgesCannotBeUpdated`;
  `server/tests/api/test_relationships.py:95` works around it).
- The cycle query joins on ids and fixes the kinds of source and target to those of the new edge, so a short cycle
  through nodes of different kinds is not seen. The guard works for all runs iff the pairs of kinds in use form no
  short loop (`CycleLeak.GuardSoundIffNoKindLoop`).
- Check and insert are separate statements. Whatever else comes between them, cycles within one kind stay out in all
  runs iff no two creates overlap (`CycleRace.SafeIffNoOverlap`).
- Decorators of the rate limiter share their buckets, and each prunes by its own window. A decorator counts exactly
  iff no harmful one shares the bucket (`RateLimit.ExactIffHarmless`).
- The duplicate check compares scope lists in order and sees active rows only, while its lock sorts the scopes and
  adds the source path. Exactly which pairs can both be committed is `EntityDedup.BothCommitIff`.
- An approval unlocks its enrollment iff it names a reviewing entity and the session is still pending and not past
  its expiry (`EnrollmentTheorems.ApprovalUnlocksIff`).
- An executor that raises leaves its request approved-failed iff the reviewing process lives to mark it; otherwise
  the request stays approved (`EnrollmentTheorems.RaisedExecutorEndsFailed`).
- The CSV printer does not quote a cell for a bare carriage return, and the reader drops blank rows and raises on a
  field of more than 131072 characters (`CsvTheorems.RoundTripIff`).
- A revert hands the snapshot's status time to the driver as text, which the driver refuses. So a revert succeeds iff
  its entry has no status time, a known status, and no cascade to an edge whose other end is gone
  (`Revert.RevertTo`); and a revert can be undone iff the row it replaced has no status time
  (`Revert.RevertCanBeUndoneIff`).
- A bulk import checks once that its n requests fit and then creates them one by one. Room for each is certain iff
  the agent has created fewer than n requests since that check (`ApprovalBatch.RoomIffFewer`).
- `graph_neighbors` judges a node by the one shortest path the search keeps for it, so it may withhold a node that the
  agent can reach by an allowed path. It is shown for certain iff all its shortest paths are allowed
  (`GraphVisibility.SurelyShownIff`).
- A CLI killed between spawning the API and saving its state leaves a process that no file names; a start that cuts
  its lock file short, or whose API process is dead while the lock file is open for rewriting, removes the files of
  the next one. Without these three no two API processes run (`ServiceRace.SafeIffNoRisk`).

Three more observations need no condition. A late redemption rolls its own expiry mark back
(`EnrollmentTheorems.LateRedeemLeavesSessionApproved`). The mirror row that the trigger inserts has a null status, so
of a symmetric edge and its mirror `relationships/get`, which joins on statuses, never lists more than one
(`GraphTheorems.MirrorIsNotListed`). `execute_create_relationship` looks for a constraint
name that the migration does not use, so an existing edge is reported as the driver's own error; the model has one
outcome for both.

## Model

| member | source | states |
|---|---|---|
| GraphDatabase.Database.Validate | server/alembic/versions/8752cbc5aa28_initial_schema_from_models.py:87-153 | an edge row is refused iff its source or target row is missing, and the source is reported first |
| GraphDatabase.Database.AuditEdge | server/alembic/versions/9764083ff366_replace_jsonb_columns_with_text.py:131-169 | one entry is appended with the operation and both versions of the row |
| GraphDatabase.Database.AuditNode | server/alembic/versions/8752cbc5aa28_initial_schema_from_models.py:765-797 | one entry for a node of an audited table, none for logs and files |
| GraphDatabase.Database.InsertRow | server/alembic/versions/9764083ff366_replace_jsonb_columns_with_text.py:206-209 | the nested inserts end, by the shrinking set of missing members of the edge/mirror pair, and leave exactly the edge, its mirror where absent, and one entry each |
| GraphDatabase.Database.InsertRelationship | server/src/queries/relationships/create.sql:1-14 | full effect of the statement, or the first of its errors and an unchanged database |
| GraphDatabase.Database.DeleteRow | server/alembic/versions/9764083ff366_replace_jsonb_columns_with_text.py:215-219 | the nested deletes end, by the shrinking set of present members of the pair, and remove exactly the pair |
| GraphDatabase.Database.DeleteRelationship | server/alembic/versions/8752cbc5aa28_initial_schema_from_models.py:729-733 | the unique index stays exact, and an unknown id changes nothing |
| GraphDatabase.Database.UpdateRow | server/alembic/versions/9764083ff366_replace_jsonb_columns_with_text.py:210-214 | the nested updates with a bounded stack: what is written if they end, which error if not |
| GraphDatabase.Database.UpdateRelationship | server/src/queries/relationships/update.sql:1-9 | null arguments keep their columns; a failing statement leaves the database as it was |
| GraphDatabase.Database.CascadeStatus | server/alembic/versions/8752cbc5aa28_initial_schema_from_models.py:236-249 | all incident edges are rewritten and then audited in the visiting order, the flag ends cleared, and it fails iff an incident edge dangles |
| GraphDatabase.Database.SyncOnUpdate | server/alembic/versions/9764083ff366_replace_jsonb_columns_with_text.py:210-214 | under the flag nothing happens, whatever the stack; otherwise the mirror gets the notes by an update of its own |
| GraphDatabase.Database.WriteIncident | server/alembic/versions/8752cbc5aa28_initial_schema_from_models.py:239-246 | every incident row is visited exactly once, in any order, and only those change |
| GraphDatabase.Database.UpdateNodeRow | server/alembic/versions/8752cbc5aa28_initial_schema_from_models.py:735-763 | the row, its entry and the cascade, or an unchanged database |
| GraphDatabase.Database.InsertNodeRow | server/alembic/versions/8752cbc5aa28_initial_schema_from_models.py:766-769 | an inserted node row and its entry, or an unchanged database |
| GraphDatabase.Database.DeleteNodeRow | server/alembic/versions/8752cbc5aa28_initial_schema_from_models.py:766-769 | a node row goes with its entry; edges are not touched |
| GraphInvariants.PresentIffMirror | server/alembic/versions/8752cbc5aa28_initial_schema_from_models.py:595-598 | with an exact unique index the closure means: key present iff mirror key present, with equal notes |
| GraphInvariants.InsertEdgeInv | server/alembic/versions/9764083ff366_replace_jsonb_columns_with_text.py:206-209 | an insert with its nested rows keeps index, closure, replay and chaining |
| GraphInvariants.DeleteEdgeInv | server/alembic/versions/9764083ff366_replace_jsonb_columns_with_text.py:215-219 | a delete with its nested rows keeps them |
| GraphInvariants.UpdateNodeInv | server/alembic/versions/8752cbc5aa28_initial_schema_from_models.py:236-249 | a node update with its cascade keeps them, in any visiting order |
| GraphInvariants.MirroredUpdateAborts | server/alembic/versions/9764083ff366_replace_jsonb_columns_with_text.py:210-214 | while both members of a pair exist, an unflagged update fails for every stack depth |
| GraphInvariants.FlagStopsUpdates | server/alembic/versions/9764083ff366_replace_jsonb_columns_with_text.py:211 | under the cascade flag an update is exactly one row change for every stack depth, however symmetric the edge |
| GraphInvariants.RunInv | server/alembic/versions/8752cbc5aa28_initial_schema_from_models.py:725-797 | every run of statements keeps all invariants |
| GraphTheorems.ReplayRebuildsTables | server/alembic/versions/9764083ff366_replace_jsonb_columns_with_text.py:148-169 | in every reachable state, folding the audit log from empty tables gives exactly the audited tables, rows of nested triggers included |
| GraphTheorems.EntriesChain | server/alembic/versions/9764083ff366_replace_jsonb_columns_with_text.py:165-166 | of two consecutive entries about a row, the later one's old values are the earlier one's new values |
| GraphTheorems.FirstEntryInserts | server/alembic/versions/9764083ff366_replace_jsonb_columns_with_text.py:162-166 | the history of every row begins with its insert |
| GraphTheorems.SymmetricClosure | server/alembic/versions/9764083ff366_replace_jsonb_columns_with_text.py:202-221 | in every reachable state an edge of a symmetric type is present iff its mirror is, and both have the same notes |
| GraphTheorems.SymmetricEdgesCannotBeUpdated | server/alembic/versions/9764083ff366_replace_jsonb_columns_with_text.py:210-214 | in every reachable state an edge update changes exactly its row iff the type is not symmetric, both ends and the new status exist and there is stack, and else nothing |
| GraphTheorems.MirrorIsNotListed | server/src/queries/relationships/get.sql:14-46 | in every reachable state at most one of a symmetric edge and its mirror has a status that can be listed |
| GraphTheorems.InsertFrame | server/alembic/versions/9764083ff366_replace_jsonb_columns_with_text.py:206-209 | an insert succeeds iff both ends, type and status exist and the edge does not; it adds the edge and the mirror of a symmetric one, same notes and null status, and nothing else |
| GraphTheorems.DeleteFrame | server/alembic/versions/9764083ff366_replace_jsonb_columns_with_text.py:215-219 | a delete removes the edge and the mirror of a symmetric one, and nothing else |
| GraphTheorems.DeleteUndoesInsert | server/alembic/versions/9764083ff366_replace_jsonb_columns_with_text.py:205-219 | deleting a fresh edge restores every table and the index; only the log grows |
| GraphTheorems.CascadeFrame | server/alembic/versions/8752cbc5aa28_initial_schema_from_models.py:212-254 | archiving a node gives all incident edges that status and time, twins equal status, and changes no other edge, no presence, no notes; closure and replay survive; it fails iff an incident edge dangles |
| GraphTheorems.NoCascade | server/alembic/versions/8752cbc5aa28_initial_schema_from_models.py:232-236 | any other status leaves every edge alone and writes at most one entry |
| GraphTheorems.TriggerChainLength | server/alembic/versions/9764083ff366_replace_jsonb_columns_with_text.py:205-219 | a symmetric insert or delete between two nodes changes and audits exactly two rows, any other exactly one |
| GraphTheorems.AnchoredCascadeSucceeds | server/alembic/versions/8752cbc5aa28_initial_schema_from_models.py:212-254 | when no edge dangles, a node update is refused iff the node exists and the status does not |
| GraphTheorems.EndpointsExist | server/alembic/versions/8752cbc5aa28_initial_schema_from_models.py:724-727 | as long as no node row is deleted, no edge ever dangles |
| GraphEffects.InsertOutcome | server/alembic/versions/8752cbc5aa28_initial_schema_from_models.py:87-153 | which error an insert ends with: missing source, missing target, taken key, unknown type or status, in that order |
| GraphEffects.InsertStores | server/src/queries/relationships/create.sql:1-14 | the stored row column by column, the mirror of a symmetric edge with the same notes and a null status, and every other edge and node as before |
| GraphEffects.DeleteTakes | server/alembic/versions/9764083ff366_replace_jsonb_columns_with_text.py:215-219 | the edge and the mirror of a symmetric one are gone, every other edge and node is as before |
| GraphEffects.EdgesStandInPairs | server/alembic/versions/9764083ff366_replace_jsonb_columns_with_text.py:202-221 | in every reachable state an edge of a symmetric type stands next to its reverse, with the same notes |
| GraphEffects.UpdateStores | server/src/queries/relationships/update.sql:1-9 | when an update succeeds, and its row column by column: a null argument keeps the column, any other replaces it |
| GraphEffects.NodeInsertStores | server/alembic/versions/8752cbc5aa28_initial_schema_from_models.py:425-438 | exactly the given row is added, unless the id is taken or the status unknown |
| GraphEffects.NodeDeleteStores | server/alembic/versions/8752cbc5aa28_initial_schema_from_models.py:766-769 | exactly the one row goes |
| GraphEffects.NodeUpdateStores | server/alembic/versions/8752cbc5aa28_initial_schema_from_models.py:236-249 | exactly the edges with the node at either end take an archived status and the time, column by column; the node takes its row |
| GraphEffects.NodeUpdateRefused | server/alembic/versions/8752cbc5aa28_initial_schema_from_models.py:239-246 | refused iff the status is unknown, or archived while an edge at the node has lost an end |
| GraphEffects.NodeEntries | server/alembic/versions/8752cbc5aa28_initial_schema_from_models.py:765-797 | one entry with operation and both versions for entities, contexts, jobs, agents and protocols, none for files and logs |
| Revert.RevertRow | server/src/nebula_mcp/helpers.py:998-1028 | the refusals in the order of the code, the driver's refusal of a status time among them, and otherwise exactly the database after the UPDATE and its triggers |
| Revert.RevertTo | server/src/nebula_mcp/helpers.py:1012-1023 | a revert fails iff the offered row has a status time, an unknown status or a cascade to a dangling edge; else it writes exactly that row's snapshot columns |
| Revert.OfferedIsHistory | server/src/nebula_mcp/helpers.py:1008-1010 | what an entry offers is the row as a replay of the log has it right after that entry, or right before a delete |
| Revert.RevertRestores | server/src/queries/entities/revert.sql:1-21 | the eight columns return to their values right after entry k (before it, for a delete); no other node changes and the old log is a prefix of the new one |
| Revert.RevertUndo | server/src/nebula_mcp/helpers.py:1007-1028 | reverting to the entry that was latest before a revert undoes that revert, and is refused iff the old row has a status time or its status is unknown or would cascade to a dangling edge |
| Revert.RevertCanBeUndoneIff | server/src/nebula_mcp/helpers.py:1007-1028 | after any run without deleted nodes a revert can be undone iff the row it replaced has no status time |
| Revert.StatusChangeIsLost | server/src/queries/entities/update.sql:1-9 | an entity that is created and then given a status can be reverted to its creation, and that revert is never undone |
| Revert.RevertAnswers | server/src/nebula_mcp/helpers.py:998-1010 | exactly when each refusal is given, and which values count |
| Revert.RevertWrites | server/src/queries/entities/revert.sql:1-21 | the eight columns one by one; the rest of the row, other nodes and the earlier log stay |
| CycleGuard.CreateRelationship | server/src/nebula_mcp/executors.py:261-296 | the guarded create on the live tables: each refusal, or the insert and its triggers |
| CycleGuard.CheckCycleIsReachability | server/src/queries/relationships/check_cycle.sql:1-27 | between nodes of one kind the query is true iff the target reaches the source by at most 6 edges of the type through that kind |
| CycleGuard.CheckCycleExactly | server/src/queries/relationships/check_cycle.sql:1-27 | for all kinds: the query follows ids over one to six edges from the new edge's source kind to its target kind |
| CycleGuard.CreateAnswers | server/src/nebula_mcp/executors.py:261-296 | exactly when each refusal is given; an accepted edge is stored active, with its notes |
| CycleGuard.WouldCycleIff | server/src/nebula_mcp/executors.py:263-276 | between nodes of one kind only a cycle-sensitive type is refused, and iff a path of at most six edges leads back |
| CycleGuard.AroundTheEdge | server/src/nebula_mcp/executors.py:266-276 | every short closed walk through the new edge holds a short path from its target to its source that does not use it |
| CycleGuard.CreateAddsNoShortCycle | server/src/nebula_mcp/executors.py:261-296 | no single create closes a cycle of at most 7 edges of one kind of node |
| CycleGuard.NoShortCycleInOneKind | server/src/nebula_mcp/models.py:18 | over any run of creates and other statements, a cycle-sensitive type that is not symmetric has no directed cycle of at most MAX_GRAPH_HOPS + 1 edges within one kind |
| CycleLeak.GuardSoundIffNoKindLoop | server/src/queries/relationships/check_cycle.sql:1-27 | all short cycles, of mixed kinds too, are excluded in every run iff the permitted pairs of kinds form no short loop that changes kind |
| CycleLeak.KindLoopGivesCycle | server/src/queries/relationships/check_cycle.sql:1-27 | for every such loop, a run of accepted creates that closes a short cycle |
| CycleLeak.RacingCreatesCloseCycle | server/src/nebula_mcp/executors.py:266-288 | wherever no edge leaves two nodes, both opposite checks between them pass, and both inserts then succeed and form a cycle |
| CycleRace.SafeIffNoOverlap | server/src/nebula_mcp/executors.py:266-288 | with check and insert as separate steps and any statements in between, a guarded type has no short cycle within one kind in any run iff creates do not overlap |
| GraphSearch.Shorten | server/src/queries/graph/shortest_path.sql:21-26 | every walk holds a simple path between its ends that is no longer |
| GraphSearch.RowIsSimpleWalk | server/src/queries/graph/shortest_path.sql:9-27 | the rows at a depth are exactly the simple walks of that length, edges taken in either direction |
| GraphSearch.EncodedTellsApart | server/src/queries/graph/shortest_path.sql:26 | comparing encoded nodes is comparing nodes |
| GraphSearch.ShortestPathIsShortest | server/src/queries/graph/shortest_path.sql:9-33 | the answers are exactly the shortest of all walks within the hop bound, and there is none iff no such walk exists |
| GraphSearch.NeighboursAreNearest | server/src/queries/graph/neighbors.sql:9-37 | the answers are exactly the lists within the limit of shortest walks to other nodes, each node once, nearest first, that miss no node in reach but what the limit cuts off |
| GraphSearch.WalkExactly | server/src/queries/graph/neighbors.sql:2-8 | a walk follows edges of any type in either direction |
| GraphSearch.EndsAreNeighbours | server/src/queries/graph/neighbors.sql:9-36 | the ends of an edge are each other's neighbours at one hop |
| RateLimit.Limiter.Handle | server/src/nebula_api/rate_limit.py:55-69 | prune, decide, append on the bucket of one key, and every other bucket untouched |
| RateLimit.BucketAgrees | server/src/nebula_api/rate_limit.py:57 | for a window no wider than any in use, the pruned bucket counts as the full history does |
| RateLimit.AcceptedIffRoom | server/src/nebula_api/rate_limit.py:57-68 | a request passes iff fewer than its limit of the bucket's times lie in its window |
| RateLimit.WindowBound | server/src/nebula_api/rate_limit.py:11-69 | for every run and every instant T, at most the largest limit of accepted requests lie in (T - smallest window, T] |
| RateLimit.HarmlessIsExact | server/src/nebula_api/rate_limit.py:57-68 | among harmless sharers a decorator decides as if nothing was ever pruned |
| RateLimit.RefusedOnlyWhenFull | server/src/nebula_api/rate_limit.py:57-67 | whatever shares the bucket, a request is refused only when its limit of accepted requests lies within its window |
| RateLimit.HarmfulIsInexact | server/src/nebula_api/rate_limit.py:57-68 | every harmful sharer has a run whose last request is let in although its window is full |
| RateLimit.ExactIffHarmless | server/src/nebula_api/rate_limit.py:11-69 | a decorator decides exactly in every run iff every sharer is harmless to it |
| RateLimit.InWindowCounts | server/src/nebula_api/rate_limit.py:57 | the count in all of these is the number of times after now - window and up to now |
| ApprovalQueue.LockHolderSeesAll | server/src/queries/approvals/count_pending_for_agent.sql:1-5 | under the agent's lock the count misses no pending request, committed or in flight |
| ApprovalQueue.CapHolds | server/src/nebula_mcp/helpers.py:198-212 | over every interleaving no agent has more pending requests, committed and in flight, than the cap, whatever the lock hash |
| ApprovalQueue.RefusedIffFull | server/src/nebula_mcp/helpers.py:211-212 | room is refused iff the cap is reached, and the refusal takes back what its transaction wrote |
| ApprovalQueue.ReviewFreesRoom | server/src/queries/approvals/reject.sql:1-10 | a review takes exactly the one committed pending request out of the queue, with its verdict |
| ApprovalQueue.FailureIsMarked | server/src/queries/approvals/mark_failed.sql:1-4 | exactly the one request becomes approved-failed |
| ApprovalQueue.CreateAddsOne | server/src/queries/approvals/create_request.sql:1-9 | a create adds one pending request of the agent that found room |
| ApprovalQueue.RollbackTakesBack | server/src/nebula_mcp/helpers.py:259-260 | a rollback takes back the transaction's own rows, claim and locks, and nothing else |
| ApprovalQueue.CommitPublishes | server/src/nebula_mcp/helpers.py:259-260 | a commit makes the transaction's rows everybody's and gives up its locks |
| ApprovalQueue.EmptyCheckDoesNothing | server/src/nebula_mcp/helpers.py:209-210 | a check for no request is never refused |
| ApprovalQueue.LockIsExclusive | server/src/queries/runtime/advisory_lock_hashtext.sql:1-2 | a lock is given to whoever asks while nobody has it |
| ApprovalBatch.BatchRefusedIffFull | server/src/nebula_mcp/helpers.py:209-212 | the check for n requests is refused iff n more do not fit |
| ApprovalBatch.BatchFindsRoom | server/src/nebula_api/routes/imports.py:241-275 | once n fit, every later request of the agent finds room while fewer than n have been created, over every interleaving |
| ApprovalBatch.RoomIffFewer | server/src/nebula_api/routes/imports.py:241-275 | when exactly n fit, room after m creates is certain iff m is below n: one foreign create can have the last of the batch refused |
| Enrollment.RunInv | server/src/nebula_mcp/helpers.py:367-426 | keys, row locks, requests and sessions stay consistent over every interleaving |
| EnrollmentTheorems.RedeemExactlyOnce | server/src/nebula_mcp/helpers.py:377-411 | a session has one minted key iff it is redeemed and none otherwise, checked before its expiry |
| EnrollmentTheorems.MintedOnlyFromApproved | server/src/nebula_mcp/helpers.py:393-411 | a key appears only in the step that takes its session from approved to redeemed |
| EnrollmentTheorems.FailedRedeemChangesNothing | server/src/nebula_mcp/helpers.py:377-410 | a redeeming transaction changes the tables only by committing a mint together with its mark; a raise takes all back |
| EnrollmentTheorems.ApprovalLifecycle | server/src/nebula_mcp/helpers.py:842-913 | each request leaves pending at most once, its executor starts at most once and never after a rejection, and an approved or redeemed session has an approved or approved-failed request |
| EnrollmentTheorems.RaisedExecutorEndsFailed | server/src/nebula_mcp/helpers.py:911-913 | after a raise the request ends approved-failed iff the reviewing process lives to mark it, else it stays approved; the executor never starts again |
| EnrollmentTheorems.ApprovalUnlocksIff | server/src/nebula_mcp/executors.py:799-808 | some continuation of an approval mints a key iff the approval names a reviewer and the session is pending and unexpired |
| EnrollmentTheorems.NamelessApprovalMintsNothing | server/src/nebula_mcp/executors.py:799-808 | whatever follows an approval without a reviewer, no key is ever minted for its session |
| EnrollmentTheorems.LateRedeemLeavesSessionApproved | server/src/nebula_mcp/helpers.py:389-391 | after a late redemption the whole state is as before; a sweep does expire the session |
| EnrollmentTheorems.WrongTokenMintsNothing | server/src/nebula_mcp/helpers.py:383-387 | over every interleaving, a session for which no redeem has the right token is never given a key |
| EnrollmentTheorems.RegisterStores | server/src/queries/enrollments/create.sql:1-12 | a registration is pending for exactly its time to live |
| EnrollmentTheorems.RejectionIsFinal | server/src/nebula_mcp/helpers.py:938-957 | whatever follows, a rejected request stays rejected, its executor never starts and its session gets no key |
| EnrollmentTheorems.RejectionReachesSession | server/src/queries/enrollments/mark_rejected.sql:1-10 | the next statement marks the session rejected |
| EnrollmentTheorems.MissingExecutorEndsFailed | server/src/nebula_mcp/helpers.py:859-865 | a request of a kind without executor is approved-failed for good |
| EnrollmentTheorems.ReturnedExecutorEndsApproved | server/src/nebula_mcp/helpers.py:867-909 | a request whose executor returned stays approved, and it never runs again |
| EnrollmentTheorems.SmallSteps | server/src/nebula_mcp/helpers.py:247-254 | a submitted request is pending; time passes; a reviewer that dies leaves its request as it was |
| EntityDedup.NoActiveDuplicates | server/src/nebula_mcp/executors.py:104-121 | over every interleaving, of two entities with equal name, type, scope list and source path the earlier is not active |
| EntityDedup.BothCommitIff | server/src/queries/entities/check_duplicate.sql:1-9 | two creates can both be committed by some interleaving iff one is not active, the check tells them apart, or their locks differ |
| EntityDedup.BothCommitExactly | server/src/nebula_mcp/executors.py:104-121 | with distinct lock keys: both can be committed unless both are active with equal name, type, path and list of scopes |
| EntityDedup.SameLockIff | server/src/nebula_mcp/executors.py:104-110 | creates wait for each other iff name, type, path and the scopes in any order agree |
| EntityDedup.PermutedScopesAreNotDuplicates | server/src/nebula_mcp/executors.py:103-115 | entities that differ only in the order of their scopes can both be committed |
| EntityDedup.RefusedCreateLeavesNothing | server/src/nebula_mcp/executors.py:113-136 | a refused create leaves no lock, row or claim, and all else as it was |
| EntityDedup.DuplicateExactly | server/src/queries/entities/check_duplicate.sql:1-9 | a duplicate is an active row it can see, of equal name, type and list of scopes |
| Service.Host.AcquireLock | cli/src/internal/cmd/service.go:439-499 | the lock is taken only when no API process is alive; a live holder is reported and no file changes; and when nothing dies meanwhile the outcome and the files are those of the single step that overlapping starts take |
| Service.Host.CleanUp | cli/src/internal/cmd/service.go:494-495 | clearing the files is safe when nothing is alive |
| Service.Host.Undo | cli/src/internal/cmd/service.go:160-166 | a start that fails leaves no API process and no files; cut off anywhere it leaves a state that the next command handles |
| Service.Host.Launch | cli/src/internal/cmd/service.go:187-236 | from the spawn on: started and named by both files, or failed with nothing left, or cut off in a valid state |
| Service.Host.Start | cli/src/internal/cmd/service.go:128-250 | at most one API process is alive and a live one is named by a file, through every listed failure and crash point; when nothing dies meanwhile, which answer is given follows from what runs, the lock's owner and the faults |
| Service.Host.ChooseTarget | cli/src/internal/cmd/service.go:274-288 | no API process other than the chosen one is alive, and none is chosen iff neither file names one |
| Service.Host.Stop | cli/src/internal/cmd/service.go:253-340 | behind a readable lock a stop that is not cut off leaves no API process alive; each answer iff its condition, from the files and what runs; nothing else is killed |
| ServiceRace.FreeLockMeansNothingRuns | cli/src/internal/cmd/service.go:444-496 | a start gets the lock only while no other is between lock and clean-up and no API process is alive |
| ServiceRace.OverlappingStartsRunOneApi | cli/src/internal/cmd/service.go:128-250 | however starts overlap, at most one API process is alive, and it is named by a file or about to be |
| ServiceRace.SafeIffNoRisk | cli/src/internal/cmd/service.go:198-217 | that holds for all runs iff no CLI dies between spawn and saved state, no lock file is cut short, and no API process is dead while its lock file is open for rewriting |
| ServiceRace.StartCompletes | cli/src/internal/cmd/service.go:205-249 | a start that meets no fault leaves its process running, named by both files |
| ServiceRace.ConflictCleansUp | cli/src/internal/cmd/service.go:222-230 | a taken port leaves neither process nor files |
| ServiceRace.ExitCleansUp | cli/src/internal/cmd/service.go:158-166 | nor does a start that gives up or whose process has exited |
| ServiceRace.FailedWritesKill | cli/src/internal/cmd/service.go:212-217 | a failed write ends in the kill of the child |
| ServiceRace.LiveProcessIsSeen | cli/src/internal/cmd/service.go:133-156 | a start that finds a live process in the state file or behind the lock goes no further |
| Csv.RowsToCsv | server/src/nebula_mcp/server.py:336-359 | the two loops print the specified text |
| Csv.ParseCsvRows | server/src/nebula_mcp/imports.py:69-86 | the loop keeps exactly the rows the specification keeps |
| CsvRoundTrip.ReadLine | server/src/nebula_mcp/server.py:350-358 | whatever the cells, the reader ends a printed line at its last cell with all cells read, or has failed, or was cut short at a bare carriage return |
| CsvRoundTrip.ReadTable | server/src/nebula_mcp/server.py:346-359 | a printed table reads as one record per line, each equal to its cells when no carriage return is bare |
| CsvTheorems.RoundTripIff | server/src/nebula_mcp/imports.py:79-86 | an export read back gives the flattened rows iff no header or cell is over the reader's limit, every carriage return is in a quoted cell and every row has a non-blank cell |
| CsvTheorems.PrinterInjective | server/src/nebula_mcp/server.py:336-359 | for fixed headers equal texts come from equal cells, whatever the cells |
| CsvLineEnds.LineEndsDoNotMatter | server/src/nebula_mcp/imports.py:79-85 | an export reads the same with CR LF or LF line ends, with or without a last one |
| CsvLineEnds.LoneReturnRaises | server/src/nebula_mcp/imports.py:79-85 | a carriage return outside quotes followed by other text is an error |
| CsvLineEnds.UnclosedQuoteReadsToTheEnd | server/src/nebula_mcp/imports.py:79-85 | an unclosed quote makes one field of the rest of the file |
| CsvLineEnds.TextAfterQuoteIsKept | server/src/nebula_mcp/imports.py:79-85 | text after a closing quote belongs to the field |
| CsvLineEnds.ImportExactly | server/src/nebula_mcp/imports.py:79-86 | the rows are the records with content under the first one's names, in order; missing cells are None, extra ones dropped |
| CsvLineEnds.CellExactly | server/src/nebula_mcp/server.py:317-333 | what a null, a missing key, a text and an empty list print |
| CsvLineEnds.ListCell | server/src/nebula_mcp/server.py:329-330 | each further item of a list goes after a comma |
| Semantic.Accumulate | server/src/nebula_mcp/semantic.py:114-130 | every entry of the vector is the sum of the token and trigram terms that hash there |
| Semantic.EmbeddingIsDeterministic | server/src/nebula_mcp/semantic.py:79-83 | whatever order the expansion sets are walked in, the vector is the same |
| Semantic.ExpansionCounts | server/src/nebula_mcp/semantic.py:79-83 | how often each token stands in the expanded list |
| Semantic.CauchySchwarz | server/src/nebula_mcp/semantic.py:132-143 | the square of a dot product is at most the product of the squared norms |
| Semantic.SimilarityBounds | server/src/nebula_mcp/semantic.py:132-143 | similarity is symmetric, within [-1, 1], 1 on equal non-zero vectors and 0 when either is zero |
| Semantic.WeightsExactly | server/src/nebula_mcp/semantic.py:114-130 | the weight of every token and trigram, entry by entry, which determines every vector |
| Semantic.SimilarityIsCosine | server/src/nebula_mcp/semantic.py:132-143 | similarity times the norms is the dot product |
| Ranking.Rank | server/src/nebula_mcp/semantic.py:146-175 | the loop, the sort and the slice give the first rows of the stable sort of the qualifying candidates |
| Ranking.SortIsStable | server/src/nebula_mcp/semantic.py:168-174 | the result is ordered by (-score, kind, id), and rows with one key keep their order |
| Ranking.SortIsUnique | server/src/nebula_mcp/semantic.py:168-174 | a sorted list with the same ties is this list, so any stable sort will do |
| Ranking.TopRanked | server/src/nebula_mcp/semantic.py:154-175 | kept and cut rows together are exactly the qualifying ones, the result is sorted and of the size the limit asks for, and nothing cut sorts before anything kept |
| Ranking.RankedExactly | server/src/nebula_mcp/semantic.py:154-175 | which candidates are among kept and cut, how many are kept for every limit, and their order, in terms of the candidates alone |
| Ranking.TextLeExactly | server/src/nebula_mcp/semantic.py:168-174 | texts compare by code points at their first difference |
| Ranking.HigherScoreCutOnlyOnTie | server/src/nebula_mcp/semantic.py:159-175 | a better exact score is cut off only when rounding makes it a tie |
| Visibility.DecodeGraphPath | server/src/nebula_mcp/server.py:2309-2328 | items without a colon are dropped, the others split at the first one |
| Visibility.PathRoundTrip | server/src/queries/graph/neighbors.sql:10-24 | decoding an encoded path gives it back, colons in ids included |
| Visibility.HasHiddenRelationships | server/src/nebula_mcp/server.py:733-771 | a file or log is hidden iff an active relationship of it has an end the agent may not see |
| Visibility.NodeAllowed | server/src/nebula_mcp/server.py:783-821 | the decision for every kind of node |
| Visibility.GraphNeighbors | server/src/nebula_mcp/server.py:2332-2368 | refused iff the source is not allowed, and otherwise exactly the rows whose whole path is |
| Visibility.AllowedGrows | server/src/nebula_mcp/server.py:783-821 | more scopes never make a node invisible |
| Visibility.ResultsGrow | server/src/nebula_mcp/server.py:2350-2368 | with more scopes the old result is a subsequence of the new one |
| Visibility.VisibleExactly | server/src/nebula_mcp/server.py:2350-2368 | a result is exactly a search row whose whole path is allowed |
| Visibility.AllowedExactly | server/src/nebula_mcp/server.py:795-821 | the decision in terms of the rows: admin scope, own scopes, and the ends of active relationships |
| Visibility.ResultsAreOpen | server/src/nebula_mcp/server.py:2350-2368 | without an admin scope a row is a result iff every node of its path is open to the agent's scopes |
| Visibility.VisibleInOrder | server/src/nebula_mcp/server.py:2350-2368 | the results are the rows with an allowed path, each once and in their order |
| Visibility.DecodedItem | server/src/nebula_mcp/server.py:2323-2327 | an item without a colon is dropped, any other split at its first one |
| GraphVisibility.ShownIffRowAllowed | server/src/nebula_mcp/server.py:2350-2368 | a node in the search result is shown iff the path kept for it is allowed from end to end |
| GraphVisibility.SurelyShownIff | server/src/queries/graph/neighbors.sql:28-37 | it is shown whatever shortest path the server keeps iff all its shortest paths are allowed |
| GraphVisibility.PossiblyShownIff | server/src/queries/graph/neighbors.sql:28-37 | it can be shown at all iff some shortest path is allowed |

## Left out

- Columns: the audit entry's `changed_fields` and actor, and the node columns that neither a trigger nor a revert
  reads, because they only copy values.
- The text form of audit snapshots: old and new rows are kept as values. Of what JSON does to them only the status
  time matters to a revert, and that is modelled; the other columns come back as the driver takes them.
- `approval_requests` and `agent_enrollment_sessions` are audited too; here they appear in their own state machines.
- `is_symmetric`, the status list and its categories do not change during a run.
- A transaction of several SQL statements on the graph is a run of single ones; its joint rollback is not modelled.
- CycleGuard.NoShortCycleInOneKind: creates run one after the other here; `CycleRace` takes their two statements apart.
- SHA-256, `hashtext`, BLAKE2, Argon2 and key generation are arbitrary functions or leave no trace.
- EntityDedup.NoActiveDuplicates: speaks of `execute_create_entity` only; the two logins (`server.py:1361`,
  `routes/keys.py:134`) insert person entities without its lock or its check.
- The lock of `EntityDedup` is a function of its parts as such, where the code joins them with `|`.
- Name and source-path lookups of bulk imports, updates that change an entity's name or scopes after its creation.
- Enrollment.RunInv: agents, granted scopes and the text of tokens are not modelled (the outcome of a token check is an
  argument), nor the wait-for-status polling.
- Service.Host.Start: a CLI killed between the spawn and the saved state is the subject of `ServiceRace` instead.
- ServiceRace.OverlappingStartsRunOneApi: taking the lock and writing the state file are one step each, and no stop
  overlaps.
- PIDs are never reused, and a signal always reaches its process.
- The readers' other CSV options and `json.dumps` of nested values: a flattened cell is any string.
- CsvTheorems.RoundTripIff: headers are not escaped by the printer, so it asks for distinct ones without special characters.
- Semantic.SimilarityBounds: exact real arithmetic in place of floating point; rounding in the ranking is any function.
- Tokenisation, stop words and the expansion table: the tokens are an input.
- `_has_hidden_relationships` for node types other than file and log, which no caller asks about.
- The HTTP layer, the terminal interface, taxonomy, configuration and pools.
