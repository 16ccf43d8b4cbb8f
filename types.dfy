/** Shared vocabulary of the multi-leader enrollment system: leaders, statuses,
    the rows of the `disciplinas`, `matriculas` and `deleted_disciplinas` tables,
    and the network conditions an operation runs under. */
module Types {

  datatype Option<+T> = None | Some(value: T)

  /** The values stored in `matriculas.status`: 'ACEITA', 'REJEITADA', 'REMOVIDA',
      and 'PENDENTE' for a new attempt that has not yet been ranked. */
  datatype Status = Accepted | Rejected | Removed | Pending

  /** The two leaders of the configuration; every one of them accepts writes. */
  datatype LeaderId = A | B

  /** The order in which every operation visits the leaders; the first is the local one. */
  const AllServers: seq<LeaderId> := [A, B]

  /** A loop over `AllServers` visits every leader exactly once. */
  lemma AllServersListsEveryLeader()
    ensures forall l: LeaderId :: l in AllServers
    ensures forall i, j :: 0 <= i < j < |AllServers| ==> AllServers[i] != AllServers[j]
    ensures AllServers[..|AllServers|] == AllServers
  {
    forall l: LeaderId ensures l in AllServers {
      assert l == AllServers[0] || l == AllServers[1];
    }
  }

  /** Enrollment ids are UUIDs minted by the database; here they are opaque integers. */
  type RecordId = int

  /** Course ids come from a per-leader SERIAL column. */
  type CourseId = int

  /** UTC instants with the timezone already stripped. */
  type Timestamp = int

  /** One row of the merged view: the tuple (id, student name, timestamp, status). */
  datatype Entry = Entry(id: RecordId, name: string, ts: Timestamp, status: Status)

  /** One status change to replicate: (id, student name, new status, timestamp). */
  datatype Update = Update(id: RecordId, name: string, newStatus: Status, ts: Timestamp)

  /** A row of `disciplinas`. */
  datatype Course = Course(id: CourseId, name: string, capacity: int, deleted: bool,
                           modified: Option<Timestamp>)

  /** A row of `matriculas` without its key. */
  datatype Enrollment = Enrollment(course: CourseId, student: string, ts: Timestamp,
                                   status: Status, modified: Option<Timestamp>)

  /** The tables of one leader. `courses` is in catalog order; `enrollments` is keyed by
      the primary key `id`; `tombstones` is `deleted_disciplinas`; `nextCourseId` is the
      next value of the SERIAL sequence of `disciplinas.id`. */
  datatype LeaderDB = LeaderDB(courses: seq<Course>, enrollments: map<RecordId, Enrollment>,
                               tombstones: map<CourseId, Timestamp>, nextCourseId: int)

  /** The leaders that accept a connection during an operation, and those among them whose
      write transaction raises an error and is rolled back. */
  datatype Network = Network(reachable: set<LeaderId>, failing: set<LeaderId>)

  /** A write transaction at `l` commits: the leader is reachable and the transaction does
      not fail. */
  predicate Commits(net: Network, l: LeaderId)
  {
    l in net.reachable && l !in net.failing
  }
}
