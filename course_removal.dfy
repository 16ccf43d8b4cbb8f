/** app/remover_disciplina.py: soft delete of a course on every leader, with one
    timestamp taken from the local leader and a verdict that depends on the local leader
    alone. */
module CourseRemoval {
  import opened Types
  import opened Storage

  /** What `remover_disciplina_no_servidor` reports for one leader. */
  datatype ServerResult =
    | Done        // the soft delete committed
    | NotFound    // no active course of that name
    | Offline     // the connection failed
    | Failed      // a statement raised an error and the transaction was rolled back

  datatype DeleteVerdict =
    | Cancelled          // the name was empty
    | ClockUnavailable   // the local leader refused the connection that reads the clock
    | Deleted(failedReplicas: set<LeaderId>)
    | LocalFailed(reason: ServerResult)

  /** The leader `l` after its soft-delete transaction. */
  function StateAfterDelete(db: LeaderDB, l: LeaderId, name: string, ts: Timestamp, net: Network): LeaderDB
  {
    if Commits(net, l) && FindActiveCourse(db.courses, name).Some?
    then SoftDelete(db, FindActiveCourse(db.courses, name).value.id, ts)
    else db
  }

  /** `remover_disciplina_no_servidor`: the course is looked up among the active ones of
      this leader, by its own id there; all three statements commit together or not
      at all. */
  method DeleteCourseAt(c: Storage.Cluster, server: LeaderId, name: string, ts: Timestamp, net: Network)
    returns (result: ServerResult)
    requires forall l: LeaderId :: l in c.dbs
    modifies c
    ensures forall l: LeaderId :: l in c.dbs
    ensures result == Offline <==> server !in net.reachable
    ensures result == NotFound <==>
              server in net.reachable && FindActiveCourse(old(c.dbs)[server].courses, name).None?
    ensures result == Failed <==>
              server in net.reachable && FindActiveCourse(old(c.dbs)[server].courses, name).Some?
              && server in net.failing
    ensures result == Done <==>
              Commits(net, server) && FindActiveCourse(old(c.dbs)[server].courses, name).Some?
    ensures c.dbs == old(c.dbs)[server := StateAfterDelete(old(c.dbs)[server], server, name, ts, net)]
  {
    if server !in net.reachable {
      assert c.dbs == c.dbs[server := c.dbs[server]];
      return Offline;
    }
    var found := FindActiveCourse(c.dbs[server].courses, name);
    if found.None? {
      assert c.dbs == c.dbs[server := c.dbs[server]];
      return NotFound;
    }
    if server in net.failing {
      assert c.dbs == c.dbs[server := c.dbs[server]];
      return Failed;
    }
    c.dbs := c.dbs[server := SoftDelete(c.dbs[server], found.value.id, ts)];
    result := Done;
  }

  /** The soft delete keeps the schema: names and ids are left as they were. */
  lemma DeleteKeepsSchema(db: LeaderDB, l: LeaderId, name: string, ts: Timestamp, net: Network)
    requires Schema(db)
    ensures Schema(StateAfterDelete(db, l, name, ts, net))
  {
    if Commits(net, l) && FindActiveCourse(db.courses, name).Some? {
      SoftDeleteKeepsSchema(db, FindActiveCourse(db.courses, name).value.id, ts);
    }
  }

  /** The loop of `remover_disciplina` over every leader of the configuration, recording
      each leader's result. */
  method DeleteEverywhere(c: Storage.Cluster, name: string, ts: Timestamp, net: Network)
    returns (results: map<LeaderId, ServerResult>)
    requires c.Valid()
    modifies c
    ensures c.Valid()
    ensures forall l :: c.dbs[l] == StateAfterDelete(old(c.dbs)[l], l, name, ts, net)
    ensures forall l :: l in results
    ensures forall l :: results[l] == Done <==>
              Commits(net, l) && FindActiveCourse(old(c.dbs)[l].courses, name).Some?
  {
    results := map[];
    for i := 0 to |AllServers|
      invariant forall l: LeaderId :: l in c.dbs
      invariant forall l :: c.dbs[l] == if l in AllServers[..i]
                                        then StateAfterDelete(old(c.dbs)[l], l, name, ts, net)
                                        else old(c.dbs)[l]
      invariant forall l :: l in results <==> l in AllServers[..i]
      invariant forall l :: l in results ==>
                  (results[l] == Done <==>
                     Commits(net, l) && FindActiveCourse(old(c.dbs)[l].courses, name).Some?)
    {
      assert AllServers[..i + 1] == AllServers[..i] + [AllServers[i]];
      var s := AllServers[i];
      assert s !in AllServers[..i];
      var r := DeleteCourseAt(c, s, name, ts, net);
      results := results[s := r];
    }
    AllServersListsEveryLeader();
    forall l: LeaderId ensures Schema(c.dbs[l]) {
      DeleteKeepsSchema(old(c.dbs)[l], l, name, ts, net);
    }
  }

  /** `remover_disciplina`. `clock` is `NOW() AT TIME ZONE 'UTC'` read at the local leader,
      the first of the configuration. */
  method DeleteCourse(c: Storage.Cluster, name: string, clock: Timestamp, net: Network)
    returns (verdict: DeleteVerdict)
    requires c.Valid()
    modifies c
    ensures c.Valid()
    ensures verdict == Cancelled <==> name == ""
    ensures verdict == ClockUnavailable <==> name != "" && AllServers[0] !in net.reachable
    ensures name == "" || AllServers[0] !in net.reachable ==> c.dbs == old(c.dbs)
    ensures name != "" && AllServers[0] in net.reachable ==>
              && (forall l :: c.dbs[l] == StateAfterDelete(old(c.dbs)[l], l, name, clock, net))
              && (verdict.Deleted? <==>
                    Commits(net, AllServers[0]) && FindActiveCourse(old(c.dbs)[AllServers[0]].courses, name).Some?)
              && (verdict.Deleted? ==>
                    forall l :: l in verdict.failedReplicas <==>
                      l != AllServers[0]
                      && !(Commits(net, l) && FindActiveCourse(old(c.dbs)[l].courses, name).Some?))
              && (verdict.LocalFailed? ==> verdict.reason != Done)
              && (forall l :: Commits(net, l) ==> FindActiveCourse(c.dbs[l].courses, name).None?)
  {
    if name == "" {
      return Cancelled;
    }
    var local := AllServers[0];
    if local !in net.reachable {
      return ClockUnavailable;
    }
    ghost var before := c.dbs;
    var results := DeleteEverywhere(c, name, clock, net);
    NoActiveCourseLeft(before, c.dbs, name, clock, net);
    verdict := Report(results, local);
  }

  /** The report of `remover_disciplina`: success is the local leader's result alone, and
      every other leader whose result is not a success is listed as a failed replica. */
  function Report(results: map<LeaderId, ServerResult>, local: LeaderId): (v: DeleteVerdict)
    requires forall l :: l in results
    ensures v.Deleted? || v.LocalFailed?
    ensures v.Deleted? <==> results[local] == Done
    ensures v.Deleted? ==> forall l :: l in v.failedReplicas <==> l != local && results[l] != Done
    ensures v.LocalFailed? ==> v.reason == results[local] && v.reason != Done
  {
    AllServersListsEveryLeader();
    if results[local] == Done
    then Deleted(set l | l in AllServers && l != local && results[l] != Done)
    else LocalFailed(results[local])
  }

  /** After the loop, no leader whose transaction commits keeps an active course of that
      name. */
  lemma NoActiveCourseLeft(before: map<LeaderId, LeaderDB>, after: map<LeaderId, LeaderDB>,
                           name: string, ts: Timestamp, net: Network)
    requires forall l: LeaderId :: l in before && Schema(before[l])
    requires forall l: LeaderId :: l in after && after[l] == StateAfterDelete(before[l], l, name, ts, net)
    ensures forall l :: Commits(net, l) ==> FindActiveCourse(after[l].courses, name).None?
  {
    forall l: LeaderId ensures Commits(net, l) ==> FindActiveCourse(after[l].courses, name).None? {
      DeleteRetiresName(before[l], l, name, ts, net);
    }
  }

  /** Under the schema's unique names, a leader whose transaction commits is left with no
      active course of that name, whether or not it had one. */
  lemma DeleteRetiresName(db: LeaderDB, l: LeaderId, name: string, ts: Timestamp, net: Network)
    requires Schema(db)
    ensures Commits(net, l) ==> FindActiveCourse(StateAfterDelete(db, l, name, ts, net).courses, name).None?
  {
    if Commits(net, l) && FindActiveCourse(db.courses, name).Some? {
      SchemaMeans(db);
      SoftDeleteRetiresCourse(db, name, ts);
    }
  }

  /** A second removal of the same name at a leader where the first committed finds no
      active course, so it reports `NotFound` and changes nothing. */
  lemma DeleteIsIdempotent(db: LeaderDB, l: LeaderId, name: string, ts1: Timestamp, ts2: Timestamp, net: Network)
    requires UniqueCourseNames(db.courses)
    requires Commits(net, l) && FindActiveCourse(db.courses, name).Some?
    ensures var d := StateAfterDelete(db, l, name, ts1, net);
            FindActiveCourse(d.courses, name).None? && StateAfterDelete(d, l, name, ts2, net) == d
  {
    SoftDeleteRetiresCourse(db, name, ts1);
  }
}
