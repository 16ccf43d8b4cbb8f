/** The per-leader tables and the SQL statements that the core runs against them, each
    statement as a function from the old table contents to the new; a transaction
    stages its statements on a value and commits it in one assignment. */
module Storage {
  import opened Types

  /** The tuple `(id, nome_aluno, timestamp_matricula, status)` of a row. */
  function EntryOf(id: RecordId, r: Enrollment): Entry
  {
    Entry(id, r.student, r.ts, r.status)
  }

  /** `SELECT id, vagas_totais FROM disciplinas WHERE nome = %s` followed by `fetchone()`:
      the first course of that name, deleted or not. */
  function FindCourse(courses: seq<Course>, name: string): (r: Option<Course>)
    ensures r.Some? ==> r.value in courses && r.value.name == name
    ensures r.None? <==> forall k :: k in courses ==> k.name != name
  {
    if courses == [] then None
    else if courses[0].name == name then Some(courses[0])
    else FindCourse(courses[1..], name)
  }

  /** `SELECT id FROM disciplinas WHERE nome = %s AND is_deleted = false` followed by
      `fetchone()`. */
  function FindActiveCourse(courses: seq<Course>, name: string): (r: Option<Course>)
    ensures r.Some? ==> r.value in courses && r.value.name == name && !r.value.deleted
    ensures r.None? <==> forall k :: k in courses ==> k.name != name || k.deleted
  {
    if courses == [] then None
    else if courses[0].name == name && !courses[0].deleted then Some(courses[0])
    else FindActiveCourse(courses[1..], name)
  }

  /** `SELECT COUNT(*) FROM disciplinas WHERE nome = %s`, deleted courses included. */
  function CountNamed(courses: seq<Course>, name: string): (n: nat)
    ensures n <= |courses|
    ensures n == 0 <==> forall k :: k in courses ==> k.name != name
  {
    if courses == [] then 0
    else CountNamed(courses[1..], name) + (if courses[0].name == name then 1 else 0)
  }

  predicate UniqueCourseNames(courses: seq<Course>)
  {
    forall i, j :: 0 <= i < j < |courses| ==> courses[i].name != courses[j].name
  }

  predicate UniqueCourseIds(courses: seq<Course>)
  {
    forall i, j :: 0 <= i < j < |courses| ==> courses[i].id != courses[j].id
  }

  predicate HasCourseId(courses: seq<Course>, id: CourseId)
  {
    exists k :: k in courses && k.id == id
  }

  /** The rows `SELECT id, nome_aluno, timestamp_matricula, status FROM matriculas WHERE
      disciplina_id = %s` returns at one leader. */
  function RowsOf(db: LeaderDB, course: CourseId): set<Entry>
  {
    set id | id in db.enrollments && db.enrollments[id].course == course
      :: EntryOf(id, db.enrollments[id])
  }

  /** `SELECT id FROM matriculas WHERE nome_aluno = %s AND disciplina_id = %s`. */
  function StudentIds(db: LeaderDB, student: string, course: CourseId): set<RecordId>
  {
    set id | id in db.enrollments && db.enrollments[id].student == student
                                  && db.enrollments[id].course == course
  }

  /** `DELETE FROM matriculas WHERE id IN %s`. */
  function DeleteIds(db: LeaderDB, ids: set<RecordId>): LeaderDB
  {
    db.(enrollments := db.enrollments - ids)
  }

  /** After the rows of a student in a course are deleted, that leader holds no row of the
      student in that course, and every other row is still there, unchanged. */
  lemma DeleteStudentRows(db: LeaderDB, student: string, course: CourseId)
    ensures var d := DeleteIds(db, StudentIds(db, student, course));
            && StudentIds(d, student, course) == {}
            && d.courses == db.courses && d.tombstones == db.tombstones
            && (forall id :: id in db.enrollments
                  && (db.enrollments[id].student != student || db.enrollments[id].course != course)
                  ==> id in d.enrollments && d.enrollments[id] == db.enrollments[id])
            && d.enrollments.Keys <= db.enrollments.Keys
  {
  }

  /** `INSERT INTO matriculas (...) VALUES (...) ON CONFLICT (id) DO NOTHING`, under the
      foreign key of `disciplina_id`: an existing id leaves the table as it is, and a
      course id the leader does not hold makes the statement fail (`None`). */
  function InsertRecord(db: LeaderDB, id: RecordId, rec: Enrollment): Option<LeaderDB>
  {
    if id in db.enrollments then Some(db)
    else if HasCourseId(db.courses, rec.course) then Some(db.(enrollments := db.enrollments[id := rec]))
    else None
  }

  /** `UPDATE matriculas SET status = %s WHERE id = %s`. */
  function SetStatus(m: map<RecordId, Enrollment>, id: RecordId, status: Status): map<RecordId, Enrollment>
  {
    if id in m then m[id := m[id].(status := status)] else m
  }

  /** The update statements of a list run one after another. */
  function WithStatusUpdates(m: map<RecordId, Enrollment>, ups: seq<Update>): map<RecordId, Enrollment>
  {
    if ups == [] then m
    else
      var n := |ups| - 1;
      SetStatus(WithStatusUpdates(m, ups[..n]), ups[n].id, ups[n].newStatus)
  }

  /** `k` is the last update of the list that targets `id`. */
  predicate LastUpdateFor(ups: seq<Update>, id: RecordId, k: int)
  {
    0 <= k < |ups| && ups[k].id == id && forall j :: k < j < |ups| ==> ups[j].id != id
  }

  /** Running a list of status updates keeps every row and every field but the status; a
      row no update targets is untouched, and a targeted row ends with the status of the
      last update that targets it. */
  lemma StatusUpdatesEffect(m: map<RecordId, Enrollment>, ups: seq<Update>)
    ensures WithStatusUpdates(m, ups).Keys == m.Keys
    ensures forall id :: id in m ==>
              WithStatusUpdates(m, ups)[id] == m[id].(status := WithStatusUpdates(m, ups)[id].status)
    ensures forall id :: id in m && (forall k :: 0 <= k < |ups| ==> ups[k].id != id) ==>
              WithStatusUpdates(m, ups)[id] == m[id]
    ensures forall id, k :: id in m && LastUpdateFor(ups, id, k) ==>
              WithStatusUpdates(m, ups)[id] == m[id].(status := ups[k].newStatus)
  {
    StatusUpdatesShape(m, ups);
    forall id | id in m && (forall k :: 0 <= k < |ups| ==> ups[k].id != id)
      ensures WithStatusUpdates(m, ups)[id] == m[id]
    {
      StatusUpdatesUntouched(m, ups, id);
    }
    forall id, k | id in m && LastUpdateFor(ups, id, k)
      ensures WithStatusUpdates(m, ups)[id] == m[id].(status := ups[k].newStatus)
    {
      StatusUpdatesLastWins(m, ups, id, k);
    }
  }

  lemma {:induction false} StatusUpdatesShape(m: map<RecordId, Enrollment>, ups: seq<Update>)
    ensures WithStatusUpdates(m, ups).Keys == m.Keys
    ensures forall id :: id in m ==>
              WithStatusUpdates(m, ups)[id] == m[id].(status := WithStatusUpdates(m, ups)[id].status)
  {
    if ups != [] {
      StatusUpdatesShape(m, ups[..|ups| - 1]);
    }
  }

  lemma {:induction false} StatusUpdatesUntouched(m: map<RecordId, Enrollment>, ups: seq<Update>, id: RecordId)
    requires id in m
    requires forall k :: 0 <= k < |ups| ==> ups[k].id != id
    ensures id in WithStatusUpdates(m, ups) && WithStatusUpdates(m, ups)[id] == m[id]
  {
    if ups != [] {
      var n := |ups| - 1;
      assert forall k :: 0 <= k < n ==> ups[..n][k] == ups[k];
      StatusUpdatesUntouched(m, ups[..n], id);
      assert ups[n].id != id;
    }
  }

  lemma {:induction false} StatusUpdatesLastWins(m: map<RecordId, Enrollment>, ups: seq<Update>, id: RecordId, k: int)
    requires id in m
    requires LastUpdateFor(ups, id, k)
    ensures id in WithStatusUpdates(m, ups)
    ensures WithStatusUpdates(m, ups)[id] == m[id].(status := ups[k].newStatus)
  {
    var n := |ups| - 1;
    var init := ups[..n];
    StatusUpdatesShape(m, init);
    if k < n {
      assert forall j :: k < j < n ==> init[j] == ups[j];
      assert LastUpdateFor(init, id, k);
      StatusUpdatesLastWins(m, init, id, k);
      assert ups[n].id != id;
    }
  }

  /** The loop `for ... in updates_a_replicar: cursor.execute(update_query, ...)` on one
      leader's staged tables. */
  method RunStatusUpdates(db: LeaderDB, ups: seq<Update>) returns (r: LeaderDB)
    ensures r == db.(enrollments := WithStatusUpdates(db.enrollments, ups))
  {
    r := db;
    for i := 0 to |ups|
      invariant r == db.(enrollments := WithStatusUpdates(db.enrollments, ups[..i]))
    {
      assert ups[..i + 1][..i] == ups[..i];
      r := r.(enrollments := SetStatus(r.enrollments, ups[i].id, ups[i].newStatus));
    }
    assert ups[..|ups|] == ups;
  }

  /** The batch an enrollment sends to every leader: the insert, then the status updates,
      in one transaction (`None` when the insert fails). */
  function EnrollBatch(db: LeaderDB, id: RecordId, rec: Enrollment, ups: seq<Update>): Option<LeaderDB>
  {
    match InsertRecord(db, id, rec)
    case None => None
    case Some(d) => Some(d.(enrollments := WithStatusUpdates(d.enrollments, ups)))
  }

  /** `ON CONFLICT (id) DO NOTHING`: when the id is already taken, the insert leaves the row
      that holds it as it was, whatever the new record says, and the batch amounts to the
      status updates alone. */
  lemma ExistingIdIgnoresInsert(db: LeaderDB, id: RecordId, rec: Enrollment, ups: seq<Update>)
    requires id in db.enrollments
    ensures EnrollBatch(db, id, rec, ups) == Some(db.(enrollments := WithStatusUpdates(db.enrollments, ups)))
    ensures var after := EnrollBatch(db, id, rec, ups).value;
            && after.enrollments.Keys == db.enrollments.Keys
            && after.enrollments[id] == db.enrollments[id].(status := after.enrollments[id].status)
  {
    StatusUpdatesShape(db.enrollments, ups);
  }

  /** The batch a removal sends to the other leaders: the delete of the same ids, then the
      status updates. */
  function RemovalBatch(db: LeaderDB, ids: set<RecordId>, ups: seq<Update>): LeaderDB
  {
    var d := DeleteIds(db, ids);
    d.(enrollments := WithStatusUpdates(d.enrollments, ups))
  }

  /** A freshly enrolled student is visible to the next read of that course at that leader,
      whatever status updates ran in the same batch. */
  lemma EnrolledStudentIsVisible(db: LeaderDB, id: RecordId, rec: Enrollment, ups: seq<Update>)
    requires id !in db.enrollments
    requires EnrollBatch(db, id, rec, ups).Some?
    ensures exists e :: e in RowsOf(EnrollBatch(db, id, rec, ups).value, rec.course)
                        && e.id == id && e.name == rec.student && e.ts == rec.ts
  {
    var d := InsertRecord(db, id, rec).value;
    StatusUpdatesEffect(d.enrollments, ups);
    var after := EnrollBatch(db, id, rec, ups).value;
    assert after.enrollments[id].course == rec.course;
    assert EntryOf(id, after.enrollments[id]) in RowsOf(after, rec.course);
  }

  /** `UPDATE matriculas SET status = 'REMOVIDA', data_ultima_modificacao = %s WHERE
      disciplina_id = %s`. */
  function CascadeRemoved(m: map<RecordId, Enrollment>, course: CourseId, ts: Timestamp): map<RecordId, Enrollment>
  {
    map id | id in m :: if m[id].course == course then m[id].(status := Removed, modified := Some(ts)) else m[id]
  }

  /** `UPDATE disciplinas SET is_deleted = true, data_ultima_modificacao = %s WHERE id = %s`. */
  function FlagDeleted(courses: seq<Course>, course: CourseId, ts: Timestamp): seq<Course>
  {
    seq(|courses|, i requires 0 <= i < |courses| =>
      if courses[i].id == course then courses[i].(deleted := true, modified := Some(ts)) else courses[i])
  }

  /** The three statements of a soft delete, the last being the upsert of the tombstone
      (`ON CONFLICT (id) DO UPDATE SET timestamp = EXCLUDED.timestamp`). */
  function SoftDelete(db: LeaderDB, course: CourseId, ts: Timestamp): LeaderDB
  {
    db.(enrollments := CascadeRemoved(db.enrollments, course, ts),
        courses := FlagDeleted(db.courses, course, ts),
        tombstones := db.tombstones[course := ts])
  }

  /** A soft delete marks every record of the course REMOVIDA with the shared timestamp and
      leaves the records of other courses alone; it flags the course and only it; and it
      leaves exactly one tombstone for the course id, carrying the timestamp. */
  lemma SoftDeleteEffect(db: LeaderDB, course: CourseId, ts: Timestamp)
    ensures var d := SoftDelete(db, course, ts);
            && d.enrollments.Keys == db.enrollments.Keys
            && (forall id :: id in db.enrollments && db.enrollments[id].course == course ==>
                  d.enrollments[id].status == Removed && d.enrollments[id].modified == Some(ts)
                  && d.enrollments[id].student == db.enrollments[id].student
                  && d.enrollments[id].ts == db.enrollments[id].ts)
            && (forall id :: id in db.enrollments && db.enrollments[id].course != course ==>
                  d.enrollments[id] == db.enrollments[id])
            && |d.courses| == |db.courses|
            && (forall i :: 0 <= i < |db.courses| && db.courses[i].id == course ==>
                  d.courses[i].deleted && d.courses[i].modified == Some(ts)
                  && d.courses[i].name == db.courses[i].name)
            && (forall i :: 0 <= i < |db.courses| && db.courses[i].id != course ==>
                  d.courses[i] == db.courses[i])
            && d.tombstones.Keys == db.tombstones.Keys + {course}
            && d.tombstones[course] == ts
            && (forall c :: c in db.tombstones && c != course ==> d.tombstones[c] == db.tombstones[c])
  {
  }

  /** With unique course names, a soft delete leaves no active course of that name, so a
      second delete of the same course finds nothing. */
  lemma SoftDeleteRetiresCourse(db: LeaderDB, name: string, ts: Timestamp)
    requires UniqueCourseNames(db.courses)
    requires FindActiveCourse(db.courses, name).Some?
    ensures FindActiveCourse(SoftDelete(db, FindActiveCourse(db.courses, name).value.id, ts).courses, name).None?
  {
    var k := FindActiveCourse(db.courses, name).value;
    var cs := SoftDelete(db, k.id, ts).courses;
    forall x | x in cs ensures x.name != name || x.deleted {
      var i :| 0 <= i < |cs| && cs[i] == x;
      if db.courses[i].id != k.id {
        var j :| 0 <= j < |db.courses| && db.courses[j] == k;
        assert i != j;
        assert db.courses[i].name != db.courses[j].name;
      }
    }
  }

  /** `INSERT INTO disciplinas (nome, vagas_totais) VALUES (%s, %s)`, the id taken from the
      SERIAL sequence. */
  function InsertCourse(db: LeaderDB, name: string, capacity: int): LeaderDB
  {
    db.(courses := db.courses + [Course(db.nextCourseId, name, capacity, false, None)],
        nextCourseId := db.nextCourseId + 1)
  }

  /** Inserting only when no course of that name exists keeps course names unique. */
  lemma InsertCourseKeepsNamesUnique(db: LeaderDB, name: string, capacity: int)
    requires UniqueCourseNames(db.courses)
    requires CountNamed(db.courses, name) == 0
    ensures UniqueCourseNames(InsertCourse(db, name, capacity).courses)
    ensures FindCourse(InsertCourse(db, name, capacity).courses, name).Some?
  {
    var cs := InsertCourse(db, name, capacity).courses;
    forall i, j | 0 <= i < j < |cs| ensures cs[i].name != cs[j].name {
      if j == |db.courses| {
        assert cs[i] == db.courses[i];
        assert db.courses[i] in db.courses;
      }
    }
    assert cs[|db.courses|] in cs;
  }

  /** The schema's constraints on one leader's tables: `disciplinas.id` is the PRIMARY KEY,
      `disciplinas.nome` is UNIQUE, and the SERIAL sequence of `disciplinas.id` is past
      every id already taken. Stated course by course, in catalog order; `SchemaMeans`
      gives the quantified reading. */
  predicate Schema(db: LeaderDB)
  {
    Conforms(db.courses, db.nextCourseId)
  }

  /** Every course has an id below `next`, and an id and a name that no earlier course has. */
  predicate Conforms(courses: seq<Course>, next: int)
  {
    courses == [] ||
    var n := |courses| - 1;
    && Conforms(courses[..n], next) && courses[n].id < next
    && NameAbsent(courses[..n], courses[n].name) && IdAbsent(courses[..n], courses[n].id)
  }

  predicate NameAbsent(courses: seq<Course>, name: string)
  {
    courses == [] || (courses[|courses| - 1].name != name && NameAbsent(courses[..|courses| - 1], name))
  }

  predicate IdAbsent(courses: seq<Course>, id: CourseId)
  {
    courses == [] || (courses[|courses| - 1].id != id && IdAbsent(courses[..|courses| - 1], id))
  }

  lemma {:induction false} NameAbsentMeans(courses: seq<Course>, name: string)
    ensures NameAbsent(courses, name) <==> forall k :: k in courses ==> k.name != name
  {
    if courses != [] {
      var n := |courses| - 1;
      NameAbsentMeans(courses[..n], name);
      assert courses == courses[..n] + [courses[n]];
    }
  }

  lemma {:induction false} IdAbsentMeans(courses: seq<Course>, id: CourseId)
    ensures IdAbsent(courses, id) <==> forall k :: k in courses ==> k.id != id
  {
    if courses != [] {
      var n := |courses| - 1;
      IdAbsentMeans(courses[..n], id);
      assert courses == courses[..n] + [courses[n]];
    }
  }

  lemma SchemaMeans(db: LeaderDB)
    ensures Schema(db) <==>
              && UniqueCourseIds(db.courses)
              && UniqueCourseNames(db.courses)
              && forall i :: 0 <= i < |db.courses| ==> db.courses[i].id < db.nextCourseId
  {
    ConformsMeans(db.courses, db.nextCourseId);
  }

  lemma {:induction false} ConformsMeans(courses: seq<Course>, next: int)
    ensures Conforms(courses, next) <==>
              && UniqueCourseIds(courses)
              && UniqueCourseNames(courses)
              && forall i :: 0 <= i < |courses| ==> courses[i].id < next
  {
    if courses != [] {
      var n := |courses| - 1;
      var p := courses[..n];
      ConformsMeans(p, next);
      assert forall i :: 0 <= i < n ==> p[i] == courses[i];
      NamesStepMeans(courses);
      IdsStepMeans(courses);
    }
  }

  /** Names are unique in a non-empty catalog iff they are in all but its last course and
      the last one's name is new. */
  lemma NamesStepMeans(courses: seq<Course>)
    requires courses != []
    ensures var n := |courses| - 1;
            UniqueCourseNames(courses) <==>
              UniqueCourseNames(courses[..n]) && NameAbsent(courses[..n], courses[n].name)
  {
    var n := |courses| - 1;
    var p := courses[..n];
    assert forall i :: 0 <= i < n ==> p[i] == courses[i];
    NameAbsentMeans(p, courses[n].name);
    if UniqueCourseNames(courses) {
      forall k | k in p ensures k.name != courses[n].name {
        var i :| 0 <= i < n && p[i] == k;
      }
    }
    if UniqueCourseNames(p) && NameAbsent(p, courses[n].name) {
      forall i, j | 0 <= i < j < |courses| ensures courses[i].name != courses[j].name {
        if j == n {
          assert p[i] in p;
        } else {
          assert p[i] == courses[i] && p[j] == courses[j];
        }
      }
    }
  }

  /** Ids are unique in a non-empty catalog iff they are in all but its last course and the
      last one's id is new. */
  lemma IdsStepMeans(courses: seq<Course>)
    requires courses != []
    ensures var n := |courses| - 1;
            UniqueCourseIds(courses) <==>
              UniqueCourseIds(courses[..n]) && IdAbsent(courses[..n], courses[n].id)
  {
    var n := |courses| - 1;
    var p := courses[..n];
    assert forall i :: 0 <= i < n ==> p[i] == courses[i];
    IdAbsentMeans(p, courses[n].id);
    if UniqueCourseIds(courses) {
      forall k | k in p ensures k.id != courses[n].id {
        var i :| 0 <= i < n && p[i] == k;
      }
    }
    if UniqueCourseIds(p) && IdAbsent(p, courses[n].id) {
      forall i, j | 0 <= i < j < |courses| ensures courses[i].id != courses[j].id {
        if j == n {
          assert p[i] in p;
        } else {
          assert p[i] == courses[i] && p[j] == courses[j];
        }
      }
    }
  }

  /** The insert of a course whose name is absent keeps the schema: the name stays unique
      and the new id is the sequence's next value. */
  lemma InsertCourseKeepsSchema(db: LeaderDB, name: string, capacity: int)
    requires Schema(db) && CountNamed(db.courses, name) == 0
    ensures Schema(InsertCourse(db, name, capacity))
  {
    SchemaMeans(db);
    SchemaMeans(InsertCourse(db, name, capacity));
    InsertCourseKeepsNamesUnique(db, name, capacity);
    var cs := InsertCourse(db, name, capacity).courses;
    assert forall i :: 0 <= i < |db.courses| ==> cs[i] == db.courses[i];
  }

  /** The soft delete keeps every course's name and id, hence the schema. */
  lemma SoftDeleteKeepsSchema(db: LeaderDB, course: CourseId, ts: Timestamp)
    requires Schema(db)
    ensures Schema(SoftDelete(db, course, ts))
  {
    SchemaMeans(db);
    SchemaMeans(SoftDelete(db, course, ts));
    var cs := SoftDelete(db, course, ts).courses;
    assert forall i :: 0 <= i < |cs| ==> cs[i].name == db.courses[i].name && cs[i].id == db.courses[i].id;
    assert UniqueCourseIds(cs);
  }

  /** The enrollment batch touches only `matriculas`, so it keeps the schema. */
  lemma EnrollBatchKeepsSchema(db: LeaderDB, id: RecordId, rec: Enrollment, ups: seq<Update>)
    requires Schema(db)
    ensures EnrollBatch(db, id, rec, ups).Some? ==> Schema(EnrollBatch(db, id, rec, ups).value)
  {
    if InsertRecord(db, id, rec).Some? {
      assert InsertRecord(db, id, rec).value.courses == db.courses;
    }
  }

  /** The removal batch touches only `matriculas`, so it keeps the schema. */
  lemma RemovalBatchKeepsSchema(db: LeaderDB, ids: set<RecordId>, ups: seq<Update>)
    requires Schema(db)
    ensures Schema(RemovalBatch(db, ids, ups))
  {
    assert RemovalBatch(db, ids, ups).courses == db.courses;
  }

  /** The state of leader `l` after a transaction whose staged result is `tx`: committed when
      the leader is reachable, does not fail and every statement succeeded; otherwise
      rolled back. */
  function AfterTx(db: LeaderDB, l: LeaderId, net: Network, tx: Option<LeaderDB>): LeaderDB
  {
    if Commits(net, l) && tx.Some? then tx.value else db
  }

  /** The leaders and their databases. */
  class Cluster {
    var dbs: map<LeaderId, LeaderDB>

    /** Every leader has its tables, and they satisfy the schema. */
    ghost predicate Valid()
      reads this
    {
      forall l: LeaderId :: l in dbs && Schema(dbs[l])
    }

    constructor (initial: map<LeaderId, LeaderDB>)
      requires forall l: LeaderId :: l in initial && Schema(initial[l])
      ensures Valid() && dbs == initial
    {
      dbs := initial;
    }
  }
}
