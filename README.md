# Multi-leader enrollment queue

A Dafny model of the core of a course-enrollment system in which every database leader
accepts writes. Each leader holds a course table (`disciplinas`), an enrollment table
(`matriculas`) and a tombstone table (`deleted_disciplinas`). The model covers these operations:

- **Merged view** (`consultar_estado`): reads a course's enrollment records from every
  reachable leader, removes duplicate whole tuples and sorts the result by submission time.
- **Ranking** (`reavaliar_posicao`): ranks that queue first come, first served against the
  course capacity.
- **Enrollment** (`matricular_aluno`): enrolls a student at an entry leader and replays the
  same batch on every other leader.
- **Student removal** (`remover_aluno` and `reavaliar_e_atualizar_status`): deletes a
  student's records, re-ranks the rest and replicates both.
- **Course soft delete** (`remover_disciplina`).
- **Course creation** (`adicionar_disciplina`).

How the model is laid out:

- **One module per source component.**
  - `Types`: the rows and the network conditions.
  - `Ordering`: the stable sort by timestamp and `list(set(...))`.
  - `Ranking`: the ranking loop.
  - `Storage`: the per-leader tables, each SQL statement as a function, and the `Cluster` class.
  - One module for each coordinator: `Enrollment`, `Removal`, `CourseRemoval` and `CourseCreation`.
- **Leaders.** The configuration has two leaders, `A` (the local one) and `B`. The state of
  all leaders is the field `dbs` of a `Storage.Cluster` object, and the coordinators modify it.
  Its invariant `Valid()` gives every leader tables that keep the schema's constraints on
  courses (app/setup_database.py:12-13): distinct ids (the primary key), unique names, and a
  `SERIAL` counter past every id.
- **Network.** Every operation takes a `Network` value. It says which leaders accept a
  connection, and which reachable leaders roll back their write transaction.
- **Transactions** are all or nothing. The statements are applied to a copy of the leader's
  tables, and the copy replaces the leader's state only when the transaction commits.

## Model

| member | source | states |
|---|---|---|
| Ordering.SortByTs | app/matricular.py:90 | the sort returns a permutation (same multiset, same length) of its input |
| Ordering.SortByTsSorted | app/matricular.py:90 | the sorted list is non-decreasing in timestamp |
| Ordering.SortByTsOfSorted | app/matricular.py:90 | sorting an already ordered list changes nothing |
| Ordering.SortByTsIsStable | app/matricular.py:90 | the sort is stable: the records that share a timestamp come out in the order they went in |
| Ordering.SortAfterAppend | app/matricular.py:108-109 | appending the candidate to an ordered queue and sorting again puts it just after every record whose timestamp does not exceed its own, the others keeping their order |
| Ordering.InsertKeepsSorted | app/matricular.py:108-109 | inserting after the last record with a timestamp at most the new one keeps the queue ordered |
| Ordering.ListOf | app/matricular.py:86-87 | `list(set(...))` lists exactly the elements of the set, each once, in an order left open |
| Ordering.ListingIsDistinct | app/matricular.py:86-87 | a list holding a set's elements as a multiset has no repeated element and has exactly the set's members |
| Enrollment.RowsFromAllServers | app/matricular.py:49-80 | the rows collected leader by leader are the rows of every reachable leader |
| Enrollment.Reconcile | app/matricular.py:41-92 | the merged view is ordered by timestamp and holds each distinct tuple of the reachable leaders exactly once (the copy in app/remover.py:41-88 is the same) |
| Enrollment.ViewContents | app/matricular.py:49-90 | the merged view has no repeated tuple, and a tuple is in it iff some reachable leader holds it; nothing comes from unreachable leaders |
| Enrollment.TupleDedupKeepsConflictingCopies | app/matricular.py:86 | two leaders holding one id with different statuses contribute two distinct tuples to the view |
| Enrollment.NamesOfMerged | app/matricular.py:158 | the student is among the view's names iff some reachable leader holds a row of that student in the course |
| Enrollment.IsRegistered | app/matricular.py:154-160 | the uniqueness check answers true iff some reachable leader holds a row, of any status, of the student in the course |
| Enrollment.LookupCourseMeans | app/matricular.py:149-152 | the course found has the name and a non-zero id; nothing is found when every course of that name has id 0, and under unique names only then (the removal does the same at app/remover.py:177-182) |
| Ranking.DiffIsChangedRecords | app/matricular.py:115-128 | the update list has one update per record whose computed status differs from its stored one and that is not the candidate, in queue order, carrying the computed status, and no other update |
| Ranking.CandidateNeverUpdated | app/matricular.py:119-128 | no update names the candidate's id |
| Ranking.DiffEmptyIff | app/matricular.py:126-128 | the update list is empty iff every non-candidate record already has the status computed for its position |
| Ranking.RemovedRecordIsRanked | app/matricular.py:115-128 | a REMOVIDA record takes a position and is always rewritten to ACEITA or REJEITADA by its position |
| Ranking.AcceptedCount | app/matricular.py:116-117 | of the statuses the ranking computes for the positions, exactly min(capacity, n) are ACEITA (none when capacity ≤ 0), namely those at positions ≤ capacity |
| Ranking.AcceptedAreEarliest | app/matricular.py:115-117 | on an ordered queue every record computed ACEITA was submitted no later than any computed REJEITADA |
| Ranking.RerankingIsStable | app/matricular.py:115-128 | ranking again with no candidate a queue whose statuses are the computed ones yields no update |
| Ranking.CandidatePlacement | app/matricular.py:105-109 | on an ordered queue without its id, the candidate lands right after the records submitted no later than it, and no other record carries its id |
| Ranking.RankQueue | app/matricular.py:111-128 | over an ordered queue, returns exactly the status diff, and the position and status computed for the last record carrying the candidate id (position 0 and no status when none does) |
| Ranking.Reevaluate | app/matricular.py:96-130 | returns the status diff of the ranked queue; with a candidate, its 1-based position `1 ≤ p ≤ n` (the last record with its id) and the status computed for that position; without one, no status and position 0 |
| Storage.FindCourse | app/matricular.py:27-37 | the course found has the name asked for; none is found iff no course, deleted or not, has that name |
| Storage.FindActiveCourse | app/remover_disciplina.py:19-23 | the course found has the name and is not deleted; none is found iff every course of that name is deleted |
| Storage.CountNamed | app/adicionar_disciplina.py:47-48 | the count is at most the number of courses and is 0 iff no course, deleted or not, has the name |
| Storage.DeleteStudentRows | app/remover.py:186-197 | after the delete no row of the student in the course remains, and every other row is unchanged |
| Storage.StatusUpdatesEffect | app/matricular.py:185-194 | the UPDATE statements keep the table's keys and every field but the status; a row no update names is unchanged; the last update naming a row decides its status |
| Storage.StatusUpdatesShape | app/matricular.py:185-194 | the updates keep the keys and every field but the status |
| Storage.StatusUpdatesUntouched | app/matricular.py:185-194 | a row that no update names is unchanged |
| Storage.StatusUpdatesLastWins | app/matricular.py:185-194 | a row ends with the status of the last update that names it |
| Storage.RunStatusUpdates | app/remover.py:142-148 | the loop of UPDATE statements leaves the table the updates describe |
| Storage.EnrolledStudentIsVisible | app/matricular.py:178-196 | after a committed insert of a fresh id, the new record is among the course's rows with the student's name and timestamp |
| Storage.ExistingIdIgnoresInsert | app/matricular.py:180-184 | when the id is already taken, `ON CONFLICT (id) DO NOTHING` leaves that row as it was except for the status the updates set, adds no key, and the batch is the updates alone |
| Storage.SoftDeleteEffect | app/remover_disciplina.py:29-45 | every record of the course becomes REMOVIDA with the shared timestamp, records of other courses are untouched, every course with that id (exactly one under the primary key, `Storage.SchemaMeans`) is flagged deleted with the timestamp and every other course is untouched, and exactly one tombstone for its id carries the timestamp (upsert) |
| Storage.SoftDeleteRetiresCourse | app/remover_disciplina.py:19-23 | with unique names, after a soft delete no active course of that name is left |
| Storage.InsertCourseKeepsSchema | app/setup_database.py:12-13 | inserting a course whose name is absent keeps ids distinct, names unique and every course id below the sequence's next value |
| Storage.SoftDeleteKeepsSchema | app/setup_database.py:12-13 | the soft delete keeps names unique and ids below the sequence's next value |
| Storage.EnrollBatchKeepsSchema | app/setup_database.py:12-13 | a committed enrollment batch keeps the course table's constraints |
| Storage.RemovalBatchKeepsSchema | app/setup_database.py:12-13 | the removal batch keeps the course table's constraints |
| Storage.SchemaMeans | app/setup_database.py:12-13 | the recursive schema predicate holds iff course ids are distinct, course names are unique and every course id is below the sequence's next value |
| Storage.InsertCourseKeepsNamesUnique | app/adicionar_disciplina.py:47-58 | inserting only when no course of that name exists keeps course names unique, and the course is found by name afterwards |
| Enrollment.ReplicateEnrollment | app/matricular.py:201-225 | every other leader that commits receives the insert plus the updates; a leader that is unreachable or fails, or where the insert violates the course foreign key, is left unchanged; the entry leader is not touched |
| Enrollment.EnrollAtReplica | app/matricular.py:205-225 | one replica's turn: the entry leader is skipped; another leader commits iff it is reachable, does not fail and the insert meets the foreign key, and only that leader changes, by the insert then the updates |
| Enrollment.CommitEnrollment | app/matricular.py:187-225 | the entry leader commits iff its transaction does not fail, gaining the record and the updates; only then is the batch replicated |
| Enrollment.CommitAtEntry | app/matricular.py:187-196 | at the entry leader, which holds the course id, the insert cannot fail; the leader ends with the record and the updates and no other leader changes |
| Enrollment.Admit | app/matricular.py:164-225 | once the checks pass: the view is the reachable leaders' tuples in timestamp order; the new record takes the status computed for its position in the ranked queue; the entry leader commits iff its transaction does not fail, and only then is the same batch replicated |
| Enrollment.Enroll | app/matricular.py:135-238 | offline entry leader, unknown course (id 0 counts as unknown), an existing row of any status, or a failed local transaction each leave every leader unchanged; otherwise the record gets the candidate's computed status and position, the entry leader applies the insert and the diff, and every other leader applies the same batch when it commits |
| Enrollment.ReplicaKeepsEntryCourseId | app/matricular.py:178-214 | the replicated insert carries the entry leader's course id, which at another leader can name another course |
| Removal.Without | app/remover.py:101-103 | the filter keeps exactly the tuples whose id was not deleted |
| Removal.WithoutKeepsOrder | app/remover.py:101-103 | the filter keeps the timestamp order of the view |
| Removal.KeepEarliestPerStudent | app/remover.py:106-111 | the dictionary loop returns, in first-seen order of the names, the tuple kept for each student |
| Removal.Best | app/remover.py:106-109 | the dictionary has a key exactly for every student name of the input |
| Removal.FirstSeen | app/remover.py:106-111 | the key order contains exactly the student names of the input |
| Removal.FirstSeenDistinct | app/remover.py:106-111 | each name appears once in the key order |
| Removal.BestIsEarliest | app/remover.py:106-109 | the tuple kept for a name is one with the smallest timestamp for that name, and the first such in the input (strict `<`) |
| Removal.CollapsedOnePerStudent | app/remover.py:106-111 | after the collapse there is one tuple per student of the input, each that student's earliest one |
| Removal.CollapsedNamesDistinct | app/remover.py:106-111 | no two tuples of the collapse share a name |
| Removal.CollapsedCoversStudents | app/remover.py:106-111 | every student of the input has a tuple in the collapse |
| Removal.CollapsedAreEarliest | app/remover.py:106-109 | each tuple of the collapse is its student's earliest tuple of the input |
| Removal.SortedKeepsFirst | app/remover.py:106-109 | on a view ordered by timestamp the dictionary keeps each student's first tuple |
| Removal.QueueAfterRemoval | app/remover.py:101-112 | the re-ranked queue is ordered, holds no deleted id and only tuples of the view, and keeps a tuple for every student still in the view |
| Removal.QueueHoldsNoRemovedId | app/remover.py:101-103 | the queue holds no deleted id, even one that another leader still returned |
| Removal.QueueKeepsEveryStudent | app/remover.py:101-112 | every student with a tuple not deleted keeps one in the queue |
| Removal.ReevaluateAfterRemoval | app/remover.py:90-162 | ranks the filtered, collapsed and re-sorted view without a candidate; returns the status diff and applies it at the target when its transaction commits; returns an empty list and changes nothing when the diff is empty or the transaction does not commit |
| Removal.DiffStoresComputedStatus | app/matricular.py:115-128 | when the queue's ids are distinct and a leader's rows carry the queue's statuses, applying the diff there stores for every record but the candidate the status computed for its position |
| Removal.ConflictingCopiesStoreLastUpdate | app/matricular.py:86 | with two tuples of one id in the queue, the leader stores the status of the later position, not the ACEITA computed for the first |
| Removal.StoredAtPosition | app/matricular.py:115-128 | with distinct ids and stored statuses matching the queue, the record at position i + 1 ends with the status computed for that position |
| Removal.RemovalClearsStudent | app/remover.py:186-227 | after the delete and the updates no row of the student in the course remains; other rows keep every field but the status, and rows no update names are unchanged |
| Removal.ReplicateRemoval | app/remover.py:209-238 | every other leader that commits deletes the same ids and applies the same updates; the others and the target are unchanged |
| Removal.RemoveAtReplica | app/remover.py:218-236 | one replica's turn: the target is skipped; another leader commits iff it is reachable and does not fail, and only that leader changes |
| Removal.DeleteAtTarget | app/remover.py:194-197 | the target loses exactly the student's ids and nothing else changes |
| Removal.DeleteAndRerank | app/remover.py:194-204 | the target ends with the removal batch of the updates actually applied, which are empty when the capacity is not positive and otherwise the diff of the re-ranked view; no other leader changes yet |
| Removal.Withdraw | app/remover.py:194-238 | the delete at the target, the re-ranking only when the capacity is positive, and the replication of the delete and of the updates actually applied to every other committing leader |
| Removal.Remove | app/remover.py:164-247 | offline target, unknown course, no row of the student there, or a failed delete each change nothing; otherwise the target deletes the student's ids, re-ranks only when the capacity is positive (else no update), and replication carries the delete and the updates actually applied |
| CourseRemoval.DeleteCourseAt | app/remover_disciplina.py:4-56 | reports offline, not found (no active course of the name), failed, or done; only done changes the leader, by the soft delete of its own course with that name |
| CourseRemoval.DeleteEverywhere | app/remover_disciplina.py:86-88 | every leader is tried with the same timestamp and gets its own soft delete, and its result is done iff it committed |
| CourseRemoval.DeleteCourse | app/remover_disciplina.py:59-107 | an empty name cancels and an unreachable local leader stops the operation, both with no writes; otherwise every leader applies its soft delete with the one timestamp, the verdict is success iff the local leader's delete committed, and the replicas reported as failed are exactly the others that did not commit, and no committing leader keeps an active course of that name |
| CourseRemoval.NoActiveCourseLeft | app/remover_disciplina.py:86-88 | after the loop no leader that committed keeps an active course of that name |
| CourseRemoval.DeleteRetiresName | app/remover_disciplina.py:19-45 | under unique names, a leader whose transaction commits has no active course of the name afterwards |
| CourseRemoval.DeleteKeepsSchema | app/setup_database.py:12-13 | a leader's soft-delete transaction keeps the course table's constraints |
| CourseRemoval.DeleteIsIdempotent | app/remover_disciplina.py:19-23 | after a committed delete a second delete of the same name at that leader finds nothing and changes nothing |
| CourseCreation.AddCourseAt | app/adicionar_disciplina.py:36-69 | reports success iff the leader is reachable, holds no course of that name and commits; only then is the course appended there, and no other leader changes |
| CourseCreation.AddEverywhere | app/adicionar_disciplina.py:35-69 | every leader ends in its own post-insert state, and the success count is the number of leaders where the insert went through |
| CourseCreation.AddKeepsSchema | app/setup_database.py:12-13 | a leader's check-then-insert keeps course names unique and ids below the sequence's next value |
| CourseCreation.AddCourse | app/adicionar_disciplina.py:27-78 | a leader gains the course iff it is reachable, has no course of that name (deleted ones included) and commits; the success count is the number of such leaders, at most the number of leaders; the verdict is full success iff every leader inserted and failure iff none did; names stay unique and every committing leader ends with a course of that name |
| CourseCreation.VerdictOfInserted | app/adicionar_disciplina.py:73-78 | full success iff the count equals the number of leaders iff every leader inserted; failure iff the count is 0 iff none did |
| CourseCreation.CatalogAfterAdd | app/adicionar_disciplina.py:47-61 | unique course names stay unique, and every leader that commits holds a course of that name |
| CourseCreation.InsertedCourseIsFound | app/adicionar_disciplina.py:54-58 | the inserted course is found by name |

## Left out

- Connections, cursors, `connect_timeout` and the driver's commit and rollback are left out.
  A leader is either reachable or not; reachability and transaction failures are inputs.
- Concurrency between leaders is left out. Each operation is one sequential step over the
  leaders' state.
- Timezone handling is left out. Timestamps are integers already normalised to UTC.
- `gen_random_uuid()` and `NOW() AT TIME ZONE 'UTC'` are parameters (`freshId`, `now`,
  `clock`). Ids are integers.
- Command-line parsing, `input()` prompts, the `.strip()` of the typed course name, and every
  printed message are left out. The course name reaches `DeleteCourse` already stripped.
- The display and report files (app/visualizar.py, app/visualizar_disciplinas.py,
  app/relatorio_consolidado.py, app/consultar_estado.py) are not part of this model.
  app/setup_database.py is not part of this model either, except the foreign key from
  `matriculas` to `disciplinas`, the unique course name and the `SERIAL` course id. The
  `ON DELETE CASCADE` of that foreign key never fires, because courses are only soft-deleted.
  app/config.py is inlined as the two leaders `A` and `B`.
- Removal.Remove: one `Network` value stands for the whole operation. The connection of
  the update transaction at the target is the separate input `updateCommits`.
- Enrollment.Enroll: an exception raised by a read is left out. Only the local write
  transaction can fail.
- Removal.Remove: an exception raised by a read after the target's delete has committed
  (for example during the re-ranking) is left out. app/remover.py:240-244 would catch it
  and skip the replication entirely; the model always replicates.
- `remover_disciplina` does not catch a failure of its clock connection. This appears as the
  `ClockUnavailable` verdict.
- CourseCreation.AddCourse: a failed insert consumes a value of the `SERIAL` sequence in
  PostgreSQL. The model leaves the counter unchanged on rollback.
- Ranking.AcceptedCount: counts the statuses the ranking computes, not the ones stored. They
  agree when the view's ids are distinct (`Removal.DiffStoresComputedStatus`). When the tuple
  dedup leaves two copies of one id, they can differ (`Removal.ConflictingCopiesStoreLastUpdate`).
- The order of tuples with equal timestamps in the merged view is not fixed.
  `Ordering.ListOf` leaves the order of `list(set(...))` open, and the stable sort keeps
  whatever order it produced.

Behaviour of the code that the model keeps as written:

- **Deduplication** is by whole tuple, not by id (app/matricular.py:85-86). Two copies of one
  id with different statuses both stay in the view (`Enrollment.TupleDedupKeepsConflictingCopies`).
  Each copy then takes its own queue position. A copy yields an update only when its stored
  status differs from the status computed for its position. When both copies yield one, the
  later update decides what a leader stores (`Removal.ConflictingCopiesStoreLastUpdate`).
- **Uniqueness check.** The comments at app/matricular.py:154 and 157 say that any record
  blocks a new attempt, while the message at line 161 names only ACEITA and REJEITADA. The
  check at lines 158-160 also refuses a student whose only row is REMOVIDA.
- **Ranking.** The loop at app/matricular.py:115-127 does not use the stored status when it
  assigns positions; it reads it only at line 126, to decide whether to emit an update. So
  REMOVIDA records still take queue positions and are rewritten to ACEITA or REJEITADA.
- **Course lookup.** Enrollment and removal find the course with `SELECT ... WHERE nome = %s`
  (app/matricular.py:31, app/remover.py:33), so a soft-deleted course is still found.
- **Student removal** deletes the rows physically (app/remover.py:195). A course removal
  instead keeps its rows and marks them REMOVIDA (app/remover_disciplina.py:29-45).
