/** app/matricular.py: the reconciliation read over every leader and the enrollment
    coordinator (uniqueness check, ranking of the new attempt, local commit, replication). */
module Enrollment {
  import opened Types
  import opened Ordering
  import opened Storage
  import opened Ranking

  /** Every distinct tuple of the course held by a reachable leader. */
  function MergedRows(dbs: map<LeaderId, LeaderDB>, reachable: set<LeaderId>, course: CourseId): set<Entry>
  {
    set l, e | l in reachable && l in dbs && e in RowsOf(dbs[l], course) :: e
  }

  /** The rows collected from the reachable leaders among `servers`, in that order. */
  function RowsFrom(dbs: map<LeaderId, LeaderDB>, servers: seq<LeaderId>, reachable: set<LeaderId>,
                    course: CourseId): set<Entry>
    requires forall l: LeaderId :: l in dbs
  {
    if servers == [] then {}
    else
      var n := |servers| - 1;
      RowsFrom(dbs, servers[..n], reachable, course)
        + (if servers[n] in reachable then RowsOf(dbs[servers[n]], course) else {})
  }

  lemma RowsFromAllServers(dbs: map<LeaderId, LeaderDB>, reachable: set<LeaderId>, course: CourseId)
    requires forall l: LeaderId :: l in dbs
    ensures RowsFrom(dbs, AllServers, reachable, course) == MergedRows(dbs, reachable, course)
  {
    var r := RowsFrom(dbs, AllServers, reachable, course);
    assert [A, B][..1] == [A] && [A][..0] == [];
    assert RowsFrom(dbs, [A], reachable, course) == (if A in reachable then RowsOf(dbs[A], course) else {});
    assert r == RowsFrom(dbs, [A], reachable, course)
              + (if B in reachable then RowsOf(dbs[B], course) else {});
    forall e ensures e in r <==> e in MergedRows(dbs, reachable, course) {
      if e in MergedRows(dbs, reachable, course) {
        var l :| l in reachable && l in dbs && e in RowsOf(dbs[l], course);
        assert l == A || l == B;
      }
    }
  }

  /** `consultar_estado`: concatenates the course's rows of every reachable leader,
      deduplicates whole tuples through a set, and sorts the result by timestamp. The
      copy of this function in app/remover.py is the same. */
  method Reconcile(c: Storage.Cluster, course: CourseId, reachable: set<LeaderId>) returns (view: seq<Entry>)
    requires c.Valid()
    ensures Sorted(view)
    ensures multiset(view) == multiset(MergedRows(c.dbs, reachable, course))
  {
    var all: set<Entry> := {};
    for i := 0 to |AllServers|
      invariant all == RowsFrom(c.dbs, AllServers[..i], reachable, course)
    {
      assert AllServers[..i + 1][..i] == AllServers[..i];
      var s := AllServers[i];
      if s in reachable {
        all := all + RowsOf(c.dbs[s], course);
      }
    }
    assert AllServers[..|AllServers|] == AllServers;
    RowsFromAllServers(c.dbs, reachable, course);
    var listed := ListOf(all);
    view := SortByTs(listed);
    SortByTsSorted(listed);
  }

  /** The merged view holds exactly the distinct tuples of the reachable leaders, each
      once; nothing from an unreachable leader appears unless a reachable one holds the
      same tuple. */
  lemma ViewContents(view: seq<Entry>, dbs: map<LeaderId, LeaderDB>, reachable: set<LeaderId>, course: CourseId)
    requires multiset(view) == multiset(MergedRows(dbs, reachable, course))
    ensures Distinct(view)
    ensures forall e :: e in view <==> exists l :: l in reachable && l in dbs && e in RowsOf(dbs[l], course)
  {
    ListingIsDistinct(view, MergedRows(dbs, reachable, course));
  }

  /** Deduplication is by the whole tuple, not by id: when two reachable leaders hold the
      same id with different statuses, both tuples are in the merged set. */
  lemma TupleDedupKeepsConflictingCopies(dbs: map<LeaderId, LeaderDB>, course: CourseId, id: RecordId,
                                         ra: Enrollment, rb: Enrollment)
    requires A in dbs && B in dbs
    requires id in dbs[A].enrollments && dbs[A].enrollments[id] == ra && ra.course == course
    requires id in dbs[B].enrollments && dbs[B].enrollments[id] == rb && rb.course == course
    requires ra.status != rb.status
    ensures EntryOf(id, ra) in MergedRows(dbs, {A, B}, course)
    ensures EntryOf(id, rb) in MergedRows(dbs, {A, B}, course)
    ensures EntryOf(id, ra) != EntryOf(id, rb)
  {
    assert EntryOf(id, ra) in RowsOf(dbs[A], course);
    assert EntryOf(id, rb) in RowsOf(dbs[B], course);
  }

  function NamesOf(rows: set<Entry>): set<string>
  {
    set e | e in rows :: e.name
  }

  /** The course an enrollment or a removal resolves at the entry leader: the first course
      of that name, deleted or not, treated as missing when its id is falsy (0). */
  function LookupCourse(db: LeaderDB, name: string): Option<Course>
  {
    match FindCourse(db.courses, name)
    case None => None
    case Some(k) => if k.id == 0 then None else Some(k)
  }

  /** The lookup by name finds a course of that name whose id is not 0; when none of the
      courses of that name has a non-zero id it finds nothing; and under unique names it
      finds nothing only then. */
  lemma LookupCourseMeans(db: LeaderDB, name: string)
    ensures LookupCourse(db, name).Some? ==>
              var k := LookupCourse(db, name).value;
              k in db.courses && k.name == name && k.id != 0
    ensures (forall k :: k in db.courses && k.name == name ==> k.id == 0) ==> LookupCourse(db, name).None?
    ensures UniqueCourseNames(db.courses) && LookupCourse(db, name).None? ==>
              forall k :: k in db.courses && k.name == name ==> k.id == 0
  {
    if UniqueCourseNames(db.courses) && FindCourse(db.courses, name).Some? {
      var f := FindCourse(db.courses, name).value;
      forall k | k in db.courses && k.name == name ensures k == f {
        var i :| 0 <= i < |db.courses| && db.courses[i] == k;
        var j :| 0 <= j < |db.courses| && db.courses[j] == f;
        assert i == j;
      }
    }
  }

  datatype EnrollOutcome =
    | EntryOffline
    | CourseNotFound
    | AlreadyRegistered
    | PersistenceFailure
    | Enrolled(status: Status, position: nat, updates: seq<Update>, replicated: set<LeaderId>)

  /** The state of leader `l` after the replication step of a successful enrollment. */
  function ReplicaAfterEnroll(db: LeaderDB, l: LeaderId, entry: LeaderId, net: Network,
                              id: RecordId, rec: Enrollment, ups: seq<Update>): LeaderDB
  {
    if l == entry then db else AfterTx(db, l, net, EnrollBatch(db, id, rec, ups))
  }

  /** One replica's turn in the replication step of `matricular_aluno`: the entry leader
      is skipped; another leader that accepts a connection runs the insert and the
      updates in one transaction, committed together or rolled back. */
  method EnrollAtReplica(c: Storage.Cluster, s: LeaderId, entry: LeaderId, net: Network,
                         id: RecordId, rec: Enrollment, ups: seq<Update>)
    returns (committed: bool)
    requires forall l: LeaderId :: l in c.dbs
    modifies c
    ensures forall l: LeaderId :: l in c.dbs
    ensures committed <==> s != entry && Commits(net, s) && EnrollBatch(old(c.dbs)[s], id, rec, ups).Some?
    ensures c.dbs == old(c.dbs)[s := ReplicaAfterEnroll(old(c.dbs)[s], s, entry, net, id, rec, ups)]
  {
    committed := false;
    if s != entry && Commits(net, s) {
      var staged := InsertRecord(c.dbs[s], id, rec);
      if staged.Some? {
        var applied := RunStatusUpdates(staged.value, ups);
        c.dbs := c.dbs[s := applied];
        committed := true;
        return;
      }
    }
    assert c.dbs == c.dbs[s := c.dbs[s]];
  }

  /** Replication step of `matricular_aluno` (app/matricular.py:201-225): every leader
      other than the entry one that accepts a connection runs the insert and the updates
      in one transaction; a failing transaction is rolled back and the others go on. */
  method ReplicateEnrollment(c: Storage.Cluster, entry: LeaderId, net: Network,
                             id: RecordId, rec: Enrollment, ups: seq<Update>)
    returns (replicated: set<LeaderId>)
    requires c.Valid()
    modifies c
    ensures c.Valid()
    ensures forall l :: c.dbs[l] == ReplicaAfterEnroll(old(c.dbs)[l], l, entry, net, id, rec, ups)
    ensures forall l :: l in replicated <==>
              l != entry && Commits(net, l) && EnrollBatch(old(c.dbs)[l], id, rec, ups).Some?
  {
    replicated := {};
    for i := 0 to |AllServers|
      invariant forall l: LeaderId :: l in c.dbs
      invariant forall l :: c.dbs[l] == if l in AllServers[..i]
                                        then ReplicaAfterEnroll(old(c.dbs)[l], l, entry, net, id, rec, ups)
                                        else old(c.dbs)[l]
      invariant forall l :: l in replicated <==>
                  l in AllServers[..i] && l != entry && Commits(net, l)
                  && EnrollBatch(old(c.dbs)[l], id, rec, ups).Some?
    {
      assert AllServers[..i + 1] == AllServers[..i] + [AllServers[i]];
      var s := AllServers[i];
      assert s !in AllServers[..i];
      var committed := EnrollAtReplica(c, s, entry, net, id, rec, ups);
      if committed {
        replicated := replicated + {s};
      }
    }
    AllServersListsEveryLeader();
    forall l: LeaderId ensures Schema(c.dbs[l]) {
      EnrollBatchKeepsSchema(old(c.dbs)[l], id, rec, ups);
    }
  }

  /** The uniqueness check of `matricular_aluno` (app/matricular.py:154-160): the student
      already has a tuple, of any status, in the merged view of the reachable leaders. */
  method IsRegistered(c: Storage.Cluster, course: CourseId, student: string, reachable: set<LeaderId>)
    returns (registered: bool)
    requires c.Valid()
    ensures registered <==> exists l :: l in reachable && l in c.dbs
                                   && exists e :: e in RowsOf(c.dbs[l], course) && e.name == student
  {
    var current := Reconcile(c, course, reachable);
    ViewContents(current, c.dbs, reachable, course);
    var existing := set e | e in current :: e.name;
    registered := student in existing;
    if registered {
      var e :| e in current && e.name == student;
      var l :| l in reachable && l in c.dbs && e in RowsOf(c.dbs[l], course);
    }
  }

  /** The entry leader's own transaction (insert, then the status updates) and, once it has
      committed, the replication of the same batch. */
  method CommitEnrollment(c: Storage.Cluster, entry: LeaderId, net: Network,
                          id: RecordId, rec: Enrollment, ups: seq<Update>)
    returns (committed: bool, replicated: set<LeaderId>)
    requires c.Valid()
    requires HasCourseId(c.dbs[entry].courses, rec.course)
    modifies c
    ensures c.Valid()
    ensures committed <==> entry !in net.failing
    ensures !committed ==> c.dbs == old(c.dbs) && replicated == {}
    ensures committed ==>
              && EnrollBatch(old(c.dbs)[entry], id, rec, ups).Some?
              && c.dbs[entry] == EnrollBatch(old(c.dbs)[entry], id, rec, ups).value
              && (forall l :: l != entry ==>
                    c.dbs[l] == AfterTx(old(c.dbs)[l], l, net, EnrollBatch(old(c.dbs)[l], id, rec, ups)))
              && (forall l :: l in replicated <==>
                    l != entry && Commits(net, l) && EnrollBatch(old(c.dbs)[l], id, rec, ups).Some?)
  {
    replicated := {};
    if entry in net.failing {
      return false, replicated;
    }
    CommitAtEntry(c, entry, id, rec, ups);
    committed := true;
    replicated := ReplicateEnrollment(c, entry, net, id, rec, ups);
  }

  /** The entry leader's committed transaction: the insert, then the status updates. */
  method CommitAtEntry(c: Storage.Cluster, entry: LeaderId, id: RecordId, rec: Enrollment, ups: seq<Update>)
    requires c.Valid()
    requires HasCourseId(c.dbs[entry].courses, rec.course)
    modifies c
    ensures c.Valid()
    ensures EnrollBatch(old(c.dbs)[entry], id, rec, ups).Some?
    ensures c.dbs == old(c.dbs)[entry := EnrollBatch(old(c.dbs)[entry], id, rec, ups).value]
  {
    var staged := InsertRecord(c.dbs[entry], id, rec);
    var local := RunStatusUpdates(staged.value, ups);
    EnrollBatchKeepsSchema(c.dbs[entry], id, rec, ups);
    c.dbs := c.dbs[entry := local];
  }

  /** `matricular_aluno`. `freshId` and `now` stand for `gen_random_uuid()` and
      `NOW() AT TIME ZONE 'UTC'` at the entry leader. The returned `view` is the merged view
      the ranking ran on. */
  method Enroll(c: Storage.Cluster, entry: LeaderId, student: string, courseName: string,
                freshId: RecordId, now: Timestamp, net: Network)
    returns (outcome: EnrollOutcome, ghost view: seq<Entry>)
    requires c.Valid()
    modifies c
    ensures c.Valid()
    ensures outcome.EntryOffline? <==> entry !in net.reachable
    ensures outcome.CourseNotFound? <==>
              entry in net.reachable && LookupCourse(old(c.dbs)[entry], courseName).None?
    ensures outcome.AlreadyRegistered? <==>
              entry in net.reachable && LookupCourse(old(c.dbs)[entry], courseName).Some?
              && student in NamesOf(MergedRows(old(c.dbs), net.reachable,
                                               LookupCourse(old(c.dbs)[entry], courseName).value.id))
    ensures outcome.PersistenceFailure? <==>
              entry in net.reachable && LookupCourse(old(c.dbs)[entry], courseName).Some?
              && student !in NamesOf(MergedRows(old(c.dbs), net.reachable,
                                                LookupCourse(old(c.dbs)[entry], courseName).value.id))
              && entry in net.failing
    ensures !outcome.Enrolled? ==> c.dbs == old(c.dbs)
    ensures outcome.Enrolled? ==>
              var k := LookupCourse(old(c.dbs)[entry], courseName).value;
              var q := QueueWith(view, Some(Entry(freshId, student, now, Pending)));
              var rec := Enrollment(k.id, student, now, outcome.status, None);
              && Sorted(view)
              && multiset(view) == multiset(MergedRows(old(c.dbs), net.reachable, k.id))
              && outcome.updates == Diff(q, k.capacity, Some(freshId))
              && 1 <= outcome.position <= |q|
              && q[outcome.position - 1].id == freshId
              && (forall j :: outcome.position <= j < |q| ==> q[j].id != freshId)
              && outcome.status == Computed(outcome.position, k.capacity)
              && EnrollBatch(old(c.dbs)[entry], freshId, rec, outcome.updates).Some?
              && c.dbs[entry] == EnrollBatch(old(c.dbs)[entry], freshId, rec, outcome.updates).value
              && (forall l :: l != entry ==>
                    c.dbs[l] == AfterTx(old(c.dbs)[l], l, net,
                                        EnrollBatch(old(c.dbs)[l], freshId, rec, outcome.updates)))
              && (forall l :: l in outcome.replicated <==>
                    l != entry && Commits(net, l)
                    && EnrollBatch(old(c.dbs)[l], freshId, rec, outcome.updates).Some?)
  {
    view := [];
    if entry !in net.reachable {
      return EntryOffline, view;
    }
    var found := LookupCourse(c.dbs[entry], courseName);
    if found.None? {
      return CourseNotFound, view;
    }
    var k := found.value;

    // Uniqueness: any row of the student in the merged view, whatever its status.
    var registered := IsRegistered(c, k.id, student, net.reachable);
    NamesOfMerged(c.dbs, net.reachable, k.id, student);
    if registered {
      return AlreadyRegistered, view;
    }

    assert HasCourseId(c.dbs[entry].courses, k.id);
    var committed, status, position, updates, replicated;
    committed, status, position, updates, replicated, view := Admit(c, entry, k, student, freshId, now, net);
    if !committed {
      return PersistenceFailure, view;
    }
    outcome := Enrolled(status, position, updates, replicated);
  }

  /** Steps C and D of `matricular_aluno` once the student is known to be new: rank the
      merged view with the new attempt, then commit at the entry leader and replicate. */
  method Admit(c: Storage.Cluster, entry: LeaderId, k: Course, student: string,
               freshId: RecordId, now: Timestamp, net: Network)
    returns (committed: bool, status: Status, position: nat, updates: seq<Update>,
             replicated: set<LeaderId>, ghost view: seq<Entry>)
    requires c.Valid()
    requires HasCourseId(c.dbs[entry].courses, k.id)
    modifies c
    ensures c.Valid()
    ensures committed <==> entry !in net.failing
    ensures !committed ==> c.dbs == old(c.dbs)
    ensures committed ==>
              var q := QueueWith(view, Some(Entry(freshId, student, now, Pending)));
              var rec := Enrollment(k.id, student, now, status, None);
              && Sorted(view)
              && multiset(view) == multiset(MergedRows(old(c.dbs), net.reachable, k.id))
              && updates == Diff(q, k.capacity, Some(freshId))
              && 1 <= position <= |q|
              && q[position - 1].id == freshId
              && (forall j :: position <= j < |q| ==> q[j].id != freshId)
              && status == Computed(position, k.capacity)
              && EnrollBatch(old(c.dbs)[entry], freshId, rec, updates).Some?
              && c.dbs[entry] == EnrollBatch(old(c.dbs)[entry], freshId, rec, updates).value
              && (forall l :: l != entry ==>
                    c.dbs[l] == AfterTx(old(c.dbs)[l], l, net, EnrollBatch(old(c.dbs)[l], freshId, rec, updates)))
              && (forall l :: l in replicated <==>
                    l != entry && Commits(net, l) && EnrollBatch(old(c.dbs)[l], freshId, rec, updates).Some?)
  {
    // The ranking reads the merged view again.
    var rows := Reconcile(c, k.id, net.reachable);
    view := rows;
    var st;
    st, position, updates := Reevaluate(rows, k.capacity, Some(Entry(freshId, student, now, Pending)));
    status := st.value;
    var rec := Enrollment(k.id, student, now, status, None);
    committed, replicated := CommitEnrollment(c, entry, net, freshId, rec, updates);
  }

  lemma NamesOfMerged(dbs: map<LeaderId, LeaderDB>, reachable: set<LeaderId>, course: CourseId, student: string)
    ensures student in NamesOf(MergedRows(dbs, reachable, course)) <==>
              exists l :: l in reachable && l in dbs
                       && exists e :: e in RowsOf(dbs[l], course) && e.name == student
  {
    if student in NamesOf(MergedRows(dbs, reachable, course)) {
      var e :| e in MergedRows(dbs, reachable, course) && e.name == student;
      var l :| l in reachable && l in dbs && e in RowsOf(dbs[l], course);
    }
    if exists l :: l in reachable && l in dbs
                   && exists e :: e in RowsOf(dbs[l], course) && e.name == student {
      var l :| l in reachable && l in dbs
               && exists e :: e in RowsOf(dbs[l], course) && e.name == student;
      var e :| e in RowsOf(dbs[l], course) && e.name == student;
      assert e in MergedRows(dbs, reachable, course);
    }
  }

  /** The replicated insert carries the entry leader's course id. Course ids come from a
      per-leader sequence, so at another leader the same id can name another course: here
      "Math" is course 1 at the entry leader, and the replica files the record under its own
      course 1, "Physics", while its "Math" is course 2. */
  lemma ReplicaKeepsEntryCourseId()
    ensures var replica := LeaderDB([Course(1, "Physics", 10, false, None), Course(2, "Math", 10, false, None)],
                                    map[], map[], 3);
            var rec := Enrollment(1, "Ana", 5, Accepted, None);
            && EnrollBatch(replica, 7, rec, []).Some?
            && Entry(7, "Ana", 5, Accepted) in RowsOf(EnrollBatch(replica, 7, rec, []).value, 1)
            && FindCourse(replica.courses, "Math") == Some(Course(2, "Math", 10, false, None))
            && FindCourse(replica.courses, "Physics") == Some(Course(1, "Physics", 10, false, None))
  {
    var replica := LeaderDB([Course(1, "Physics", 10, false, None), Course(2, "Math", 10, false, None)],
                            map[], map[], 3);
    var rec := Enrollment(1, "Ana", 5, Accepted, None);
    assert replica.courses[0] in replica.courses;
    var after := EnrollBatch(replica, 7, rec, []).value;
    assert after.enrollments[7] == rec;
    assert EntryOf(7, after.enrollments[7]) in RowsOf(after, 1);
    assert replica.courses[1..] == [Course(2, "Math", 10, false, None)];
  }
}
